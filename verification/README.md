# AI Translator: a Dafny model of its translation core

AI Translator is a WordPress plugin. It translates posts with a chat-completion API and stores each translation as a draft. The draft is linked into the post's WPML translation group. The plugin also copies the post's Advanced Custom Fields (ACF) values and custom meta into the draft, translating the text leaves on the way. Posts can be queued for later translation in a database table that a scheduled job works through in batches.

This project models the plugin's core as pure Dafny functions over an explicit model of PHP values. WordPress, WPML, ACF and the translation API are parameters of the functions:

- `php.dfy` (module `Php`) holds PHP values and arrays. It has PHP's `empty()`, `isset()` and key order. Arrays are key/value cons-lists, so walkers over nested field trees terminate structurally.
- `wordpress.dfy` (module `WordPress`) holds framework vocabulary:
  - `WP_Error`;
  - the translator's `{success, content, error}` result;
  - ACF field objects and `update_field` calls;
  - the post fields the plugin reads.
- `field_translation.dfy` (module `FieldTranslation`) holds the two pieces the handler uses to copy custom data into a new translation:
  - the recursive ACF value translator (`translate_acf_field`);
  - the meta copier (`copy_post_meta`).
- `orchestrator.dfy` (module `Orchestrator`) holds the AJAX endpoint `handle_translation`: its request checks and its per-language loop.
- `post_content.dfy` (module `PostContent`) holds the post content object (`Post.php`):
  - building the translatable payload;
  - writing a translated payload back.
- `acf_integration.dfy` (module `AcfIntegration`) holds the ACF integration (`ACF.php`):
  - field processing;
  - write-back, both as written and corrected (see Findings);
  - translatable-field listing.
- `wpml.dfy` (module `WpmlIntegration`) holds the WPML integration (`WPML.php`): creating, updating and reporting translations.
- `queue.dfy` (module `TranslationQueue`) holds the queue table (`Queue.php`) and the per-item translation manager (`Manager.php`).
- `settings.dfy` (module `Settings`) holds the settings validator.

The properties fall into a few groups:

- The field translator keeps the shape of every field tree. Only the texts it extracts reach the translator. A translator that echoes its input leaves the tree unchanged. A flexible-content layout's name is never translated.
- The handler never creates a translation over an existing one. When the post has a translation group, it creates at most one translation per language. Every reported success is backed by a created draft, and every draft carries the translated content, fields and meta.
- Processing a post's fields and writing them back sends exactly the text leaves to `update_field`.
- The queue picks the oldest pending items first. It keeps ids unique. It counts every item in exactly one status. Clearing and retrying are idempotent.

## Model

| member | source | states |
|---|---|---|
| FieldTranslation.TranslateText | ai-translator.php:305-312 | an empty text is kept; a non-empty one becomes the translator's content on success and stays as it was when the translation fails |
| FieldTranslation.TranslateField | ai-translator.php:303-381 | a non-empty text, textarea or wysiwyg value becomes the translator's content on success and stays as it was when empty or when the translation fails; reference fields and unknown types come back unchanged; a non-array value of a non-text type is unchanged; an array keeps exactly its keys |
| FieldTranslation.TranslateRows | ai-translator.php:314-350 | repeater rows and flexible layouts keep their row keys |
| FieldTranslation.TranslateSubFields | ai-translator.php:317-347 | the sub-fields of a row keep their keys |
| FieldTranslation.TranslateSubFieldsAt | ai-translator.php:317-347 | under each key, the layout name of a flexible layout and a sub-field without a field object read as before, and every other sub-field reads as its value translated by its own field type |
| FieldTranslation.Extract | ai-translator.php:303-381 | every text the walk would send to the translator is non-empty; a type that is not walked sends nothing |
| FieldTranslation.ExtractRows | ai-translator.php:314-350 | each text sent from a row sits at least two levels deep, under the row and the sub-field |
| FieldTranslation.ExtractSubFields | ai-translator.php:335-347 | with the layout skip on, no text is sent from under the `acf_fc_layout` key |
| FieldTranslation.LayoutKeyNeverSent | ai-translator.php:336 | a flexible-content layout's name never reaches the translator |
| FieldTranslation.LayoutKeyNeverSentRows | ai-translator.php:332-350 | no layout of the list sends its name to the translator |
| FieldTranslation.OnlyExtractedTextsMatter | ai-translator.php:303-381 | two translators that agree on the extracted texts produce the same translated field, so nothing else is translated |
| FieldTranslation.OnlyExtractedTextsMatterRows | ai-translator.php:314-350 | the same for repeater rows and layouts |
| FieldTranslation.OnlyExtractedTextsMatterSubFields | ai-translator.php:317-373 | the same for the sub-fields of a row or group |
| FieldTranslation.EchoKeepsField | ai-translator.php:303-381 | a translator that gives every extracted text back unchanged leaves the field exactly as it was |
| FieldTranslation.EchoKeepsRows | ai-translator.php:314-350 | the same for rows and layouts |
| FieldTranslation.EchoKeepsSubFields | ai-translator.php:317-373 | the same for sub-fields |
| FieldTranslation.TranslateFieldReshapes | ai-translator.php:303-381 | whatever the service answers, the translated field has the original's shape for its type: only a non-empty leaf of a text type may become a string, containers keep every key and are rewritten entry by entry, and reference fields, unknown types, non-array rows, sub-fields without a field object and layout names come through unchanged |
| FieldTranslation.TranslateRowsReshapes | ai-translator.php:314-350 | the same for rows and layouts: a row that is an array has its sub-fields reshaped by their types, any other row is unchanged |
| FieldTranslation.TranslateSubFieldsReshapes | ai-translator.php:317-373 | the same for sub-fields: the layout name and sub-fields without a field object are unchanged, the others are reshaped by their own type |
| FieldTranslation.LayoutNameKept | ai-translator.php:335-347 | with the layout skip on, the `acf_fc_layout` entry comes through untouched |
| FieldTranslation.KnownFields | ai-translator.php:253-259 | every copied field has the field object of one of the post's keys; when every key has one, all fields are copied, and when none has, nothing is |
| FieldTranslation.CopyAcfFields | ai-translator.php:249-272 | one `update_field` per known field, in order, under the field object's key, carrying the field's value translated by its type, which therefore has the shape of that type |
| FieldTranslation.TranslateMetaValue | ai-translator.php:284-294 | non-strings and empty strings are copied as they are; a string becomes the translation on success and stays itself on failure |
| FieldTranslation.StoredMeta | ai-translator.php:275-283 | only keys that start with neither `_` nor `field_` are copied, and each copied key was among the post's keys |
| FieldTranslation.TranslateAdds | ai-translator.php:284-295 | one `add_post_meta` per stored value, in order, under the same key, with the value translated as above |
| FieldTranslation.CopyPostMeta | ai-translator.php:274-297 | the loop over keys and values makes exactly the additions of the reference definition, in order |
| Orchestrator.Step | ai-translator.php:162-228 | an existing language fails with "Translation already exists" and creates nothing; a failed content translation reports its error and creates nothing; a failed insert reports its message and creates nothing; otherwise the inserted id is reported as a success and one translation is appended: the draft with the translated title and content, linked into the post's group (which then holds it, unless the post has no group) and carrying the copied fields and meta; other languages' results are untouched |
| Orchestrator.Run | ai-translator.php:161-228 | every requested language gets a result, and created translations are only ever appended |
| Orchestrator.HandleTranslation | ai-translator.php:121-242 | a bad nonce, then missing WPML, then missing parameters, then a missing post each end in their error. Otherwise every requested language has a result, the languages already in the group keep their members and get no translation, and each is answered "Translation already exists". When the post has a group, at most one translation is created per language and every draft is linked into it. Every reported success names a created draft; every draft is for a requested language and is made from the post as `DraftFrom` says. When inserts succeed, a language requested once, not yet translated and whose content translates is reported as a success |
| Orchestrator.StepConsistent | ai-translator.php:162-217 | when the post has a group, one language step keeps the group equal to the starting group plus the created translations, with distinct languages |
| Orchestrator.RunConsistent | ai-translator.php:162-228 | the loop keeps that invariant when the post has a group |
| Orchestrator.StepMonotone | ai-translator.php:162-217 | with or without a group, one step keeps the starting members and creates nothing in their languages |
| Orchestrator.RunMonotone | ai-translator.php:162-228 | the loop keeps that invariant |
| Orchestrator.ExistingLanguageSkipped | ai-translator.php:164-172 | a language already in the group is reported as existing and gets no new draft |
| Orchestrator.ResultKept | ai-translator.php:161-228 | a result for a language not requested again is left as it was |
| Orchestrator.FailedContentCreatesNothing | ai-translator.php:179-187 | when the content translation fails, no draft is created for that language |
| Orchestrator.NoNewLanguage | ai-translator.php:162 | no draft is created for a language that was not requested |
| Orchestrator.CreatedDraftsCarryTranslations | ai-translator.php:176-220 | every created draft carries the translated content and the title translation (or null), has status draft, the current user as author and the post's type, is linked as `post_<type>` into the post's group with the source language, and carries the post's ACF fields translated by their types and its copied meta translated value by value |
| Orchestrator.StepSuccessesBacked | ai-translator.php:198-227 | after a step, every success names a created translation in that language |
| Orchestrator.RunSuccessesBacked | ai-translator.php:162-228 | after the loop, every reported success is backed by a created, linked draft |
| Orchestrator.NewLanguageSucceeds | ai-translator.php:162-227 | when inserts succeed, a language requested once, not in the group and whose content translates ends as a success |
| Orchestrator.NoGroupRepeatsDraft | ai-translator.php:162-214 | when the post has no group, requesting the same language twice creates two drafts, because the existence check never sees the first |
| PostContent.PostField | includes/Translation/Post.php:33-40 | a post field enters the payload exactly when it is not PHP-empty (neither "" nor "0"), with its own text |
| PostContent.ProcessAcfFields | includes/Translation/Post.php:71-130 | processed fields are among the input's keys, never `_`-prefixed, and always have a field object |
| PostContent.ProcessRows | includes/Translation/Post.php:105-107 | every repeater row is processed under its own index |
| PostContent.ProcessLayouts | includes/Translation/Post.php:118-123 | every layout is processed under its own index |
| PostContent.ProcessKeepsExactly | includes/Translation/Post.php:74-127 | a key is kept exactly when it is not `_`-prefixed, has a field object and holds a text value or an array of a repeater or flexible type |
| PostContent.LayoutTypeRecorded | includes/Translation/Post.php:118-123 | each processed layout records its layout name as `layout_type` |
| PostContent.ProcessThenUpdate | includes/Translation/Post.php:71-130 | writing back processed fields calls `update_field` exactly for the text leaves, in order, at every nesting depth |
| PostContent.ProcessThenUpdateRows | includes/Translation/Post.php:226-232 | the same for the rows of a repeater |
| PostContent.ProcessThenUpdateLayouts | includes/Translation/Post.php:234-240 | the same for the layouts of a flexible field |
| PostContent.UpdateRecord | includes/Translation/Post.php:218-244 | a processed record is read back by type: its content, its rows or its layouts |
| PostContent.TranslatableMeta | includes/Translation/Post.php:137-170 | listed meta keys are neither excluded nor `_`-prefixed, and each holds a non-empty string |
| PostContent.TranslatableMetaExactly | includes/Translation/Post.php:152-167 | a key is listed exactly when it is among the post's keys, does not start with `_` (every excluded key does), and holds a non-empty string |
| PostContent.GetTranslatableContent | includes/Translation/Post.php:25-63 | a missing post is `invalid_post`; otherwise the payload holds the non-empty post fields, the processed ACF fields exactly when ACF is active and finds some, and the translatable meta exactly when there is any |
| PostContent.UpdateTranslatedContent | includes/Translation/Post.php:178-211 | a missing post is `invalid_post`; an update error is returned before any field or meta is written, and otherwise the update succeeds; on success the post gets the payload's fields, the ACF writes are the write-back of the payload's ACF tree while ACF is active, and the meta updates are the payload's meta; nothing else is written |
| PostContent.ContentRoundTrip | includes/Translation/Post.php:25-211 | writing back an unchanged payload updates the post's own fields, writes exactly the ACF text leaves and rewrites exactly the translatable meta |
| AcfIntegration.ShouldSkipField | includes/Integration/ACF.php:105-113 | a key is skipped exactly when it starts with `_`, because every listed internal key does |
| AcfIntegration.ShouldSkipFieldPhp7 | includes/Integration/ACF.php:105-113 | under PHP 7's loose comparison the test skips exactly what it skips under PHP 8, plus the integer key 0 |
| AcfIntegration.IsTranslatableField | includes/Integration/ACF.php:83-97 | translatable exactly when a field object exists and its type is text, textarea, wysiwyg, url or link; so every type the handler translates as text is translatable, `url` and `link` only here, and no reference type and no repeater, flexible or group field is |
| AcfIntegration.ProcessFields | includes/Integration/ACF.php:41-75 | output keys are input keys that are not skipped, and every output value is an array |
| AcfIntegration.ProcessRows | includes/Integration/ACF.php:52-58 | every row is processed under its own index, and each becomes an array |
| AcfIntegration.ProcessFieldsEntry | includes/Integration/ACF.php:44-72 | skipped and absent keys are dropped; a row list, a group or a translatable leaf is kept in its processed form, and nothing else is |
| AcfIntegration.GetFields | includes/Integration/ACF.php:22-33 | nothing while ACF is inactive or the post has no fields; otherwise no `_` key comes out |
| AcfIntegration.UpdateFieldsAsWritten | includes/Integration/ACF.php:122-143 | the write-back as written never writes null |
| AcfIntegration.UpdateEntryAsWritten | includes/Integration/ACF.php:128-140 | the same for one entry |
| AcfIntegration.UpdateRowsAsWritten | includes/Integration/ACF.php:130-132 | the same for rows |
| AcfIntegration.LeafRecordAsWritten | includes/Integration/ACF.php:133-135 | a leaf record is written back as its value, and a null value is not written |
| AcfIntegration.ProcessedRowsAreRows | includes/Integration/ACF.php:52-58 | processing a row list yields something the write-back again reads as a row list |
| AcfIntegration.ProcessRowsAt | includes/Integration/ACF.php:54-56 | every row index is present after processing and holds an array |
| AcfIntegration.AsWrittenRoundTrip | includes/Integration/ACF.php:41-143 | when no group has a sub-field named `value` or keyed 0, writing back processed fields writes exactly the translatable leaves |
| AcfIntegration.AsWrittenRoundTripRows | includes/Integration/ACF.php:52-58 | the same for row lists |
| AcfIntegration.ValueSubFieldMisread | includes/Integration/ACF.php:133-135 | a group with a sub-field named `value` is written back as if it were a leaf, so the sub-field is never updated |
| AcfIntegration.UpdateFields | includes/Integration/ACF.php:122-143 | the corrected write-back never writes null |
| AcfIntegration.UpdateEntry | includes/Integration/ACF.php:128-140 | the same for one entry |
| AcfIntegration.AllArraysHaveNoLeafType | includes/Integration/ACF.php:50-62 | a processed group carries no string `type`, so it is never taken for a leaf |
| AcfIntegration.ProcessThenUpdate | includes/Integration/ACF.php:41-143 | the corrected write-back of processed fields writes exactly the translatable leaves, for every input |
| AcfIntegration.ProcessThenUpdateRows | includes/Integration/ACF.php:52-58 | the same for row lists |
| AcfIntegration.UpdateFieldsChecked | includes/Integration/ACF.php:122-125 | the corrected `update_fields`: it fails with `acf_inactive` exactly when ACF is inactive, and otherwise never writes null |
| AcfIntegration.UpdateFieldsCheckedAsWritten | includes/Integration/ACF.php:122-143 | `update_fields` as written: it fails with `acf_inactive` exactly when ACF is inactive, and otherwise never writes null |
| AcfIntegration.CheckedAgreeUnlessMisread | includes/Integration/ACF.php:122-143 | both entry points give the same writes on every processed tree whose groups avoid the keys `value` and 0, and different writes on the group with a `value` sub-field |
| AcfIntegration.GetTranslatableFields | includes/Integration/ACF.php:178-202 | each entry carries the key, name, label and type of one of the definitions; it is a translatable field or a repeater with a non-empty list of sub-fields |
| AcfIntegration.ListedIsReference | includes/Integration/ACF.php:178-202 | the listing is, in order, the listing of every translatable definition: its key, name, label and type, and for a repeater the listing of its own sub-fields |
| AcfIntegration.ListedAreDefinitions | includes/Integration/ACF.php:181-199 | every entry is the listing of a translatable definition: its key, name, label and type, and for a repeater the listing of its own sub-fields |
| AcfIntegration.DefinitionsAreListed | includes/Integration/ACF.php:181-199 | every translatable definition is listed, so a repeater appears exactly when something in its sub-fields is translatable |
| AcfIntegration.ListedIffTranslatable | includes/Integration/ACF.php:181-199 | the listing is non-empty exactly when some definition is translatable |
| AcfIntegration.ListedIffTranslatableOne | includes/Integration/ACF.php:182-198 | one definition is listed exactly when it is translatable, directly or through its repeater sub-fields |
| WpmlIntegration.CreateTranslation | includes/Integration/WPML.php:53-103 | `wpml_inactive`, then `translation_exists` (looked up under the default element type), then `invalid_post`; otherwise a draft copy by the current user, linked as `post_<type>` into the post's group in the target language from the post's language |
| WpmlIntegration.ApplyLink | includes/Integration/WPML.php:92-100 | after the link the new post belongs to the group under its element type and the target language, and every other group and element type is unchanged |
| WpmlIntegration.SecondCreateRejected | includes/Integration/WPML.php:60-72 | once a translation of a `post` is linked, creating it again is rejected as `translation_exists` |
| WpmlIntegration.OtherTypeCreatedAgain | includes/Integration/WPML.php:60-100 | for any other post type the link is made under an element type the existence check does not read, so creating the same translation again succeeds |
| WpmlIntegration.IfSet | includes/Integration/WPML.php:121-131 | a field is sent exactly when it is set in the content |
| WpmlIntegration.UpdateTranslation | includes/Integration/WPML.php:112-140 | inactive WPML sends nothing; otherwise the set title, content and excerpt go to the post, and an update error is passed on |
| WpmlIntegration.UpdateReplacesSetFields | includes/Integration/WPML.php:117-133 | after the update each set title, content or excerpt holds the content's value and every other post field keeps its value |
| WpmlIntegration.GetTranslationStatus | includes/Integration/WPML.php:148-170 | nothing without WPML or a group (both looked up under the default element type); otherwise one entry per active language, saying whether it exists, which post and what status (`none` when absent) |
| WpmlIntegration.StatusAfterCreate | includes/Integration/WPML.php:53-170 | after a translation of a `post` is created and linked, the status report lists its language as existing, with the new post |
| TranslationQueue.UniqueIdsCons | includes/Translation/Queue.php:37-47 | an item can be prepended to a table with unique ids exactly when its id is new |
| TranslationQueue.NewItems | includes/Translation/Queue.php:31-46 | one row per post and language |
| TranslationQueue.NewItemsAt | includes/Translation/Queue.php:31-46 | rows come in post-major order: row `i*|langs|+j` is post i in language j, pending, created now |
| TranslationQueue.NewItemsShape | includes/Translation/Queue.php:31-46 | new rows have fresh, distinct ids and come from the requested posts |
| TranslationQueue.AddToQueue | includes/Translation/Queue.php:20-59 | empty input is `invalid_input`; a failed insert is `db_error`. Otherwise the rows are appended after the existing table as pending jobs created now, for the requested posts and languages. Ids stay unique and below the counter, and the job is scheduled only when not already scheduled |
| TranslationQueue.InsertByCreated | includes/Translation/Queue.php:72-73 | insertion keeps every item and adds exactly one |
| TranslationQueue.InsertKeepsSorted | includes/Translation/Queue.php:72-73 | insertion into a list ordered by creation time keeps it ordered |
| TranslationQueue.InsertKeepsIdsUnique | includes/Translation/Queue.php:72-73 | insertion of a new id keeps ids unique |
| TranslationQueue.SortByCreated | includes/Translation/Queue.php:72-73 | sorting keeps the same items and length |
| TranslationQueue.SortIsSorted | includes/Translation/Queue.php:72-73 | the sorted list is ordered by creation time |
| TranslationQueue.SortKeepsIdsUnique | includes/Translation/Queue.php:72-73 | sorting keeps ids unique |
| TranslationQueue.PendingItems | includes/Translation/Queue.php:70-72 | exactly the pending items of the table |
| TranslationQueue.PendingKeepsIdsUnique | includes/Translation/Queue.php:70-72 | filtering keeps ids unique |
| TranslationQueue.SelectBatch | includes/Translation/Queue.php:70-76 | the batch holds `min(batch size, pending count)` pending rows of the table, ordered by creation time. No pending row left out is older than one taken, and no row is taken twice |
| TranslationQueue.Finished | includes/Translation/Queue.php:96-107 | a row ends failed with the error message exactly when the manager returned an error, and completed with an empty message otherwise, stamped now |
| TranslationQueue.RunBatch | includes/Translation/Queue.php:85-108 | processing a batch keeps the table's size |
| TranslationQueue.RunBatchEffect | includes/Translation/Queue.php:85-108 | a row in the batch is finished with its own manager result; a row outside it is untouched |
| TranslationQueue.ProcessQueue | includes/Translation/Queue.php:67-118 | an empty batch changes nothing and schedules nothing |
| TranslationQueue.ProcessQueueEffect | includes/Translation/Queue.php:67-118 | after a run, each selected row is finished and every other row is unchanged |
| TranslationQueue.RescheduledIffPendingLeft | includes/Translation/Queue.php:111-117 | another run is scheduled exactly when a batch ran and pending rows remain |
| TranslationQueue.RunUntilThrow | includes/Translation/Queue.php:85-109 | the batch loop with calls that may throw: it stops exactly when some call of the batch throws |
| TranslationQueue.ProcessQueueAttempts | includes/Translation/Queue.php:67-118 | an empty batch changes nothing; a batch in which some call throws schedules no further run |
| TranslationQueue.NoThrowIsProcessQueue | includes/Translation/Queue.php:67-118 | when no call throws, the run is the total `ProcessQueue` |
| TranslationQueue.RunUntilThrowEffect | includes/Translation/Queue.php:85-109 | with the first throw at `j`: the rows before it are finished, its row stays processing, and every other row is untouched |
| TranslationQueue.ThrowStopsTheRun | includes/Translation/Queue.php:67-118 | a throw leaves its row `processing`, the later rows of the batch `pending`, and nothing rescheduled |
| TranslationQueue.TranslatePost | includes/Translation/Manager.php:13-53 | a missing post gives false; the manager never returns an error, because `wp_insert_post` is called without `$wp_error` |
| TranslationQueue.ManagerNeverFailsRows | includes/Translation/Manager.php:13-53 | with the real manager, processing never marks a row failed that was not failed before |
| TranslationQueue.CountStatus | includes/Translation/Queue.php:129-146 | a status count never exceeds the table size |
| TranslationQueue.CountsAddUp | includes/Translation/Queue.php:129-146 | the four status counts add up to the table size |
| TranslationQueue.GetQueueStatus | includes/Translation/Queue.php:126-148 | the counting loop yields each status's count and a total equal to the table size |
| TranslationQueue.KeepUnexpired | includes/Translation/Queue.php:159-164 | keeping never adds rows |
| TranslationQueue.ClearOldItems | includes/Translation/Queue.php:156-165 | rows kept plus rows removed equal the table size |
| TranslationQueue.ClearKeepsExactly | includes/Translation/Queue.php:156-165 | a row survives exactly when it is not a completed or failed row finished before the cutoff, `days_old` days before now; pending and processing rows always survive |
| TranslationQueue.KeepUnexpiredExactly | includes/Translation/Queue.php:159-164 | the kept rows are exactly the unexpired rows |
| TranslationQueue.ClearIsIdempotent | includes/Translation/Queue.php:156-165 | clearing a cleared table at the same time removes nothing |
| TranslationQueue.KeepUnexpiredFixed | includes/Translation/Queue.php:159-164 | a table with nothing expired is kept whole |
| TranslationQueue.Retried | includes/Translation/Queue.php:175-181 | only a failed row changes: it becomes pending with its error and completion time cleared |
| TranslationQueue.RetryFailed | includes/Translation/Queue.php:165-182 | each row is retried in place, the table keeps its size, and the returned count of reset rows is the number of failed rows |
| TranslationQueue.RetryMovesFailedToPending | includes/Translation/Queue.php:172-182 | after a retry no row is failed, the pending count grows by exactly the old failed count, and the other counts do not move |
| TranslationQueue.RetryIsIdempotent | includes/Translation/Queue.php:172-182 | retrying twice is retrying once, and the second retry resets nothing |
| TranslationQueue.RowsOfPosts | includes/Translation/Queue.php:199-203 | filtering never adds rows |
| TranslationQueue.GetItemsByPosts | includes/Translation/Queue.php:190-204 | no posts give no rows |
| TranslationQueue.ItemsByPostsExactly | includes/Translation/Queue.php:190-204 | a row is returned exactly when it belongs to one of the given posts |
| TranslationQueue.RowsOfPostsExactly | includes/Translation/Queue.php:199-203 | the filter keeps exactly the rows of the given posts |
| Settings.AbsInt | includes/class-settings-manager.php:302 | `absint` of an integer is its magnitude |
| Settings.ClampBatchSize | includes/class-settings-manager.php:301-308 | the batch size always lies in 1..20: a magnitude below 1 becomes 1, one above 20 becomes 20, and one in range is kept |
| Settings.AsArray | includes/class-settings-manager.php:298 | `(array)` turns null into an empty list and a scalar into a one-element list |
| Settings.SanitizeAll | includes/class-settings-manager.php:298 | sanitising a list keeps its keys |
| Settings.SanitizeAllAt | includes/class-settings-manager.php:298 | each element is sanitised under its own key |
| Settings.ValidateValue | includes/class-settings-manager.php:287-313 | the batch size is clamped to 1..20, saturating at either end; everything else except the two list options is sanitised text. A list option becomes a sanitised list: empty for null, one element for a scalar, the same length and keys for a list |
| Settings.ValidateSettings | includes/class-settings-manager.php:283-316 | the output has exactly the submitted keys |
| Settings.ValidateSettingsAt | includes/class-settings-manager.php:286-314 | under each submitted key the output holds that key's validated value |
| Settings.ValidateIsIdempotent | includes/class-settings-manager.php:283-316 | validating validated settings changes nothing, provided sanitising sanitised text changes nothing |
| Settings.SanitizeAllIdempotent | includes/class-settings-manager.php:298 | the same for one list |

## Left out

- The translation API client (`includes/Api/OpenAI.php`), with its HTTP request, prompt and response parsing, is a `Translator` parameter. It maps a value and a language to success with content or failure with an error.
- The WordPress database, WPML's `$sitepress`, ACF's `get_field_object` and the post store are parameters or explicit inputs, not state. `update_field`, `add_post_meta` and `update_post_meta` calls are returned as sequences of writes instead of being performed.
- Logging (`error_log`), JSON responses and `wp_die`, admin pages, assets, notices, activation, uninstall, the AJAX helper class, the settings page rendering and the bulk-translation stub are left out. They hold no logic the properties depend on.
- `get_languages` and `get_field_groups` are not modelled. They only reshape framework data for display. `WpmlIntegration.GetTranslationStatus` takes the active language codes directly.
- Clocks (`current_time`, `NOW()`, `time()`) are one abstract `now` per call. The timezone gap between `current_time('mysql')` and the database's `NOW()` is not modelled.
- `wp_schedule_single_event` and `wp_next_scheduled` are flags in and out of the queue functions.
- PHP's loose comparisons in `switch` and `in_array` are modelled as PHP 8 compares them. Field types are always strings, so this matters only for array keys, which may be integers.
- AcfIntegration.ShouldSkipField: follows PHP 8, where the integer key 0 is not in the skip list. Under PHP 7.4, the plugin's declared minimum, `in_array(0, $skip_fields)` is true and the key 0 is skipped; `AcfIntegration.ShouldSkipFieldPhp7` states that difference, and the processing functions use the PHP 8 test.
- PHP arrays are modelled with distinct keys. Where a proof needs this it is a precondition (`UniqueKeys`). Overwriting an existing key is not modelled.
- Object values (`Opaque`) are opaque. Iterating an object's properties is not modelled.
- `AcfIntegration.GetTranslatableFields` assumes distinct field keys. The source keys its result by the field key, so a later definition with the same key would overwrite an earlier one; the model returns a sequence and keeps both.
- Orchestrator.Step: `wp_insert_post` is called without `$wp_error`, so it returns 0 rather than an error. The model's `InsertFailed` case over-approximates, and a 0 id is linked like any other.
- Orchestrator.Step: a failed title translation is not checked by the handler. The draft then gets a null title, and the model keeps that behaviour.
- Orchestrator.HandleTranslation: the nonce check, the WPML check and `intval` of the request are booleans and an integer already decoded. The model does not state the `catch` of exceptions other than "Post not found".
- WPML's own tables are reduced to two lookups keyed by element and element type. `WPML.php` calls `get_element_trid` and `get_element_translations` without an element type, and the model takes WPML's documented default `post_post` for them; WPML's code is not part of this model, so that default is an assumption.
- Orchestrator.HandleTranslation: when the post has no translation group, the group the loop starts from is left arbitrary, and each link starts a group of its own. The model then promises neither one translation per language nor that drafts join the post's group (`Orchestrator.NoGroupRepeatsDraft` shows the repeat).
- Orchestrator.Run: results are a map. When a language is requested twice, the later result replaces the earlier one, as in the source's array.
- AcfIntegration.AsWrittenRoundTrip: holds only for inputs where no group has a sub-field named `value` or an index-0 sub-field. The as-written write-back misreads such groups (see Findings).
- TranslationQueue.ProcessQueue: assumes `translate_post` returns. The source has no `try` around it, so a throw from the manager, the translation service or `wp_insert_post` (which is handed the service's result arrays as title and content) aborts the request. `TranslationQueue.ProcessQueueAttempts` models that abort and `TranslationQueue.ThrowStopsTheRun` states what it leaves behind. Which calls throw is a parameter, since WordPress is not part of this model.
- TranslationQueue.ProcessQueue: all rows of one run are stamped with the same `now`. Ties in `created_at` are taken in table order, which SQL leaves unspecified.
- TranslationQueue.AddToQueue: ids are assigned consecutively from `nextId`, like an auto-increment key. The database's actual ids are not modelled.
- Settings.AbsInt: PHP integers are unbounded here, so `absint(PHP_INT_MIN)` overflow is not modelled. Strings and other values reach integers through an `IntCast` parameter.

## Findings

| source | as written | input that shows it | evidently intended | confidence | as-written member | corrected member |
|---|---|---|---|---|---|---|
| includes/Integration/ACF.php:133-135 | `update_fields` treats any array with a `value` entry as a processed leaf and writes its `value` under the group's key | a group `details` whose sub-field is named `value` and holds "Hello": the sub-field `value` should be written, but `details` is written with the whole processed record | a processed leaf is told apart by its record shape; groups are always walked into | medium; not executed | AcfIntegration.UpdateFieldsAsWritten and its entry point AcfIntegration.UpdateFieldsCheckedAsWritten (shown by AcfIntegration.ValueSubFieldMisread and AcfIntegration.CheckedAgreeUnlessMisread) | AcfIntegration.UpdateFields and its entry point AcfIntegration.UpdateFieldsChecked (proved by AcfIntegration.ProcessThenUpdate) |
