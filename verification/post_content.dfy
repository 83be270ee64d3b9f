/** The post translation helper (`AITranslator\Translation\Post`): it gathers
    a post's translatable content (the three post fields, the ACF tree and
    the plain meta) and writes translated content back to the post. */
module PostContent {
  import opened Php
  import opened WordPress

  /** Meta keys never offered for translation, besides every `_` key. */
  const ExcludedMeta: set<string> := {"_edit_lock", "_edit_last", "_wp_page_template", "_thumbnail_id"}

  datatype MetaEntry = MetaEntry(key: string, content: string)

  /** The array `get_translatable_content` returns: each post field when not
      empty, the processed ACF fields when ACF is active and the post has
      some, and the meta when any meta is translatable. */
  datatype Content = Content(
    title: Option<string>, content: Option<string>, excerpt: Option<string>,
    acf: Option<Entries>, meta: Option<seq<MetaEntry>>)

  /** A post field as included in the content: present only when not empty
      (PHP's `empty()`, so neither "" nor "0"). */
  function PostField(s: string): (r: Option<string>)
    ensures r.Some? <==> s != "" && s != "0"
    ensures r.Some? ==> r.value == s
  {
    if IsEmpty(Str(s)) then None else Some(s)
  }

  // ---------------------------------------------------------------------
  // process_acf_fields: the processed ACF tree.

  /** `[ 'type' => …, 'label' => …, <third key> => … ]` */
  function Record(ftype: string, labelText: string, third: Key, v: Value): Value
  {
    Arr(Cons(Name("type"), Str(ftype), Cons(Name("label"), Str(labelText), Cons(third, v, Nil))))
  }

  /** A field the processing keeps: it has a field object, and is a text
      field, or a repeater or flexible-content field holding an array. */
  predicate Kept(fo: Option<FieldObject>, v: Value)
  {
    fo.Some? &&
    (fo.value.ftype in TextTypes || ((fo.value.ftype == Repeater || fo.value.ftype == FlexibleContent) && v.Arr?))
  }

  /** The processed ACF fields: `_` keys, fields without a field object and
      fields of other types are dropped; text fields become
      `{type, label, content}`; repeaters keep their rows and flexible fields
      their layouts, each processed again, under the same indices. */
  function ProcessAcfFields(fields: Entries, lookup: FieldLookup): (r: Entries)
    ensures forall k | k in Keys(r) :: k in Keys(fields) && !KeyHasPrefix(k, "_") && lookup(k).Some?
    decreases fields
  {
    match fields
    case Nil => Nil
    case Cons(k, v, rest) =>
      var tail := ProcessAcfFields(rest, lookup);
      if KeyHasPrefix(k, "_") then tail
      else match lookup(k)
        case None => tail
        case Some(fo) =>
          if fo.ftype in TextTypes then
            Cons(k, Record(fo.ftype, fo.labelText, Name("content"), v), tail)
          else if fo.ftype == Repeater && v.Arr? then
            Cons(k, Record(Repeater, fo.labelText, Name("rows"), Arr(ProcessRows(v.entries, lookup))), tail)
          else if fo.ftype == FlexibleContent && v.Arr? then
            Cons(k, Record(FlexibleContent, fo.labelText, Name("layouts"), Arr(ProcessLayouts(v.entries, lookup))), tail)
          else tail
  }

  function ProcessRows(rows: Entries, lookup: FieldLookup): (r: Entries)
    ensures Keys(r) == Keys(rows)
    decreases rows
  {
    match rows
    case Nil => Nil
    case Cons(i, row, rest) =>
      var fields := if row.Arr? then ProcessAcfFields(row.entries, lookup) else Nil;
      Cons(i, Arr(fields), ProcessRows(rest, lookup))
  }

  /** `$layout['acf_fc_layout']`: the layout's name, null when missing. */
  function LayoutName(layout: Value): Value
  {
    if layout.Arr? then At(layout.entries, LayoutKey) else Null
  }

  function ProcessLayouts(layouts: Entries, lookup: FieldLookup): (r: Entries)
    ensures Keys(r) == Keys(layouts)
    decreases layouts
  {
    match layouts
    case Nil => Nil
    case Cons(i, layout, rest) =>
      var fields := if layout.Arr? then ProcessAcfFields(layout.entries, lookup) else Nil;
      var processed := Arr(Cons(Name("layout_type"), LayoutName(layout), Cons(Name("fields"), Arr(fields), Nil)));
      Cons(i, processed, ProcessLayouts(rest, lookup))
  }

  /** A key survives processing exactly when it is not internal and its
      field is kept. */
  lemma {:induction false} ProcessKeepsExactly(fields: Entries, lookup: FieldLookup, k: Key)
    requires UniqueKeys(fields)
    ensures k in Keys(ProcessAcfFields(fields, lookup)) <==>
      k in Keys(fields) && !KeyHasPrefix(k, "_") && Kept(lookup(k), At(fields, k))
    decreases fields
  {
    match fields
    case Nil =>
    case Cons(k', v, rest) =>
      ProcessKeepsExactly(rest, lookup, k);
  }

  /** Every processed layout records its `acf_fc_layout` as `layout_type`. */
  lemma {:induction false} LayoutTypeRecorded(layouts: Entries, lookup: FieldLookup, i: Key)
    requires Get(layouts, i).Some?
    ensures At(SubEntries(ProcessLayouts(layouts, lookup), i), Name("layout_type")) == LayoutName(At(layouts, i))
    decreases layouts
  {
    match layouts
    case Nil =>
    case Cons(j, layout, rest) =>
      if j != i {
        LayoutTypeRecorded(rest, lookup, i);
      }
  }

  // ---------------------------------------------------------------------
  // update_acf_fields: writing a processed tree back.

  /** The `update_field` calls for a processed ACF tree: one per text entry,
      descending into the rows of repeaters and the fields of flexible
      layouts; entries of any other type write nothing. */
  function UpdateAcfFields(fields: Entries): (r: seq<FieldWrite>)
    decreases EntriesSize(fields), 1
  {
    match fields
    case Nil => []
    case Cons(k, f, rest) =>
      UpdateField(k, f) + UpdateAcfFields(rest)
  }

  /** The writes for one processed entry, dispatching on its `type`. */
  function UpdateField(k: Key, f: Value): (r: seq<FieldWrite>)
    decreases ValueSize(f), 0
  {
    if !f.Arr? then []
    else
      var ty := At(f.entries, Name("type"));
      if ty.Str? && ty.s in TextTypes then [FieldWrite(k, At(f.entries, Name("content")))]
      else if ty == Str(Repeater) && Isset(f.entries, Name("rows")) then UpdateRows(SubEntries(f.entries, Name("rows")))
      else if ty == Str(FlexibleContent) && Isset(f.entries, Name("layouts")) then UpdateLayouts(SubEntries(f.entries, Name("layouts")))
      else []
  }

  function UpdateRows(rows: Entries): seq<FieldWrite>
    decreases EntriesSize(rows), 2
  {
    match rows
    case Nil => []
    case Cons(_, row, rest) =>
      (if row.Arr? then
         assert EntriesSize(row.entries) < EntriesSize(rows);
         UpdateAcfFields(row.entries)
       else []) + UpdateRows(rest)
  }

  function UpdateLayouts(layouts: Entries): seq<FieldWrite>
    decreases EntriesSize(layouts), 2
  {
    match layouts
    case Nil => []
    case Cons(_, layout, rest) =>
      (if layout.Arr? then
         assert EntriesSize(SubEntries(layout.entries, Name("fields"))) < EntriesSize(layouts);
         UpdateAcfFields(SubEntries(layout.entries, Name("fields")))
       else []) + UpdateLayouts(rest)
  }

  /** The text leaves of a raw ACF tree reachable through repeater rows and
      flexible layouts, with the key each is stored under: the fields the
      processing offers for translation. */
  function TextLeaves(fields: Entries, lookup: FieldLookup): seq<FieldWrite>
    decreases fields
  {
    match fields
    case Nil => []
    case Cons(k, v, rest) =>
      var here :=
        if KeyHasPrefix(k, "_") then []
        else match lookup(k)
          case None => []
          case Some(fo) =>
            if fo.ftype in TextTypes then [FieldWrite(k, v)]
            else if (fo.ftype == Repeater || fo.ftype == FlexibleContent) && v.Arr? then RowLeaves(v.entries, lookup)
            else [];
      here + TextLeaves(rest, lookup)
  }

  function RowLeaves(rows: Entries, lookup: FieldLookup): seq<FieldWrite>
    decreases rows
  {
    match rows
    case Nil => []
    case Cons(_, row, rest) =>
      (if row.Arr? then TextLeaves(row.entries, lookup) else []) + RowLeaves(rest, lookup)
  }

  /** Writing back what was processed calls `update_field` exactly once per
      text leaf reachable through rows and layouts, with its stored value,
      in order, and never for anything else. */
  lemma {:induction false} ProcessThenUpdate(fields: Entries, lookup: FieldLookup)
    ensures UpdateAcfFields(ProcessAcfFields(fields, lookup)) == TextLeaves(fields, lookup)
    decreases fields
  {
    match fields
    case Nil =>
    case Cons(k, v, rest) =>
      ProcessThenUpdate(rest, lookup);
      var tail := ProcessAcfFields(rest, lookup);
      if !KeyHasPrefix(k, "_") && lookup(k).Some? {
        var fo := lookup(k).value;
        if fo.ftype in TextTypes {
          UpdateRecord(k, fo.ftype, fo.labelText, Name("content"), v);
        } else if fo.ftype == Repeater && v.Arr? {
          ProcessThenUpdateRows(v.entries, lookup);
          UpdateRecord(k, Repeater, fo.labelText, Name("rows"), Arr(ProcessRows(v.entries, lookup)));
        } else if fo.ftype == FlexibleContent && v.Arr? {
          ProcessThenUpdateLayouts(v.entries, lookup);
          UpdateRecord(k, FlexibleContent, fo.labelText, Name("layouts"), Arr(ProcessLayouts(v.entries, lookup)));
        }
      }
  }

  /** How one processed record is written back. */
  lemma UpdateRecord(k: Key, ftype: string, labelText: string, third: Key, v: Value)
    ensures ftype in TextTypes && third == Name("content") ==>
      UpdateField(k, Record(ftype, labelText, third, v)) == [FieldWrite(k, v)]
    ensures ftype == Repeater && third == Name("rows") && v.Arr? ==>
      UpdateField(k, Record(ftype, labelText, third, v)) == UpdateRows(v.entries)
    ensures ftype == FlexibleContent && third == Name("layouts") && v.Arr? ==>
      UpdateField(k, Record(ftype, labelText, third, v)) == UpdateLayouts(v.entries)
  {
    var es := Record(ftype, labelText, third, v).entries;
    assert At(es, Name("type")) == Str(ftype);
    assert "rows"[0] != "type"[0];
    assert third in {Name("content"), Name("rows"), Name("layouts")} ==> third != Name("type") && third != Name("label");
    if third in {Name("content"), Name("rows"), Name("layouts")} {
      assert Get(es.rest.rest, third) == Some(v);
      assert Get(es.rest, third) == Some(v);
      assert Get(es, third) == Some(v);
      assert SubEntries(es.rest, third) == EntriesOf(v);
      assert SubEntries(es, third) == EntriesOf(v);
    }
  }

  lemma {:induction false} ProcessThenUpdateRows(rows: Entries, lookup: FieldLookup)
    ensures UpdateRows(ProcessRows(rows, lookup)) == RowLeaves(rows, lookup)
    decreases rows
  {
    match rows
    case Nil =>
    case Cons(_, row, rest) =>
      ProcessThenUpdateRows(rest, lookup);
      if row.Arr? {
        ProcessThenUpdate(row.entries, lookup);
      }
  }

  lemma {:induction false} ProcessThenUpdateLayouts(layouts: Entries, lookup: FieldLookup)
    ensures UpdateLayouts(ProcessLayouts(layouts, lookup)) == RowLeaves(layouts, lookup)
    decreases layouts
  {
    match layouts
    case Nil =>
    case Cons(i, layout, rest) =>
      ProcessThenUpdateLayouts(rest, lookup);
      var fields := if layout.Arr? then ProcessAcfFields(layout.entries, lookup) else Nil;
      var processed := Cons(Name("layout_type"), LayoutName(layout), Cons(Name("fields"), Arr(fields), Nil));
      assert ProcessLayouts(layouts, lookup) == Cons(i, Arr(processed), ProcessLayouts(rest, lookup));
      assert SubEntries(processed, Name("fields")) == fields;
      if layout.Arr? {
        ProcessThenUpdate(layout.entries, lookup);
      }
  }

  // ---------------------------------------------------------------------
  // get_translatable_meta

  /** The meta offered for translation: keys that are neither reserved nor
      internal, whose single value is a non-empty string, in key order. */
  function TranslatableMeta(keys: seq<string>, metaOf: string -> Value): (r: seq<MetaEntry>)
    ensures forall i | 0 <= i < |r| ::
      && r[i].key in keys
      && !StartsWith(r[i].key, "_") && r[i].key !in ExcludedMeta
      && metaOf(r[i].key) == Str(r[i].content) && !IsEmpty(Str(r[i].content))
  {
    if keys == [] then []
    else
      var key := keys[0];
      var mv := metaOf(key);
      var tail := TranslatableMeta(keys[1..], metaOf);
      if key in ExcludedMeta || StartsWith(key, "_") then tail
      else if mv.Str? && !IsEmpty(mv) then [MetaEntry(key, mv.s)] + tail
      else tail
  }

  /** The keys of a list of meta entries, in order. */
  function MetaKeys(ms: seq<MetaEntry>): (r: seq<string>)
    ensures |r| == |ms|
    ensures forall i | 0 <= i < |r| :: r[i] == ms[i].key
  {
    if ms == [] then [] else [ms[0].key] + MetaKeys(ms[1..])
  }

  /** A key is offered exactly when it is listed, does not start with `_`
      (which already covers every reserved key) and holds a non-empty
      string. */
  lemma {:induction false} TranslatableMetaExactly(keys: seq<string>, metaOf: string -> Value, k: string)
    ensures k in MetaKeys(TranslatableMeta(keys, metaOf))
      <==> k in keys && !StartsWith(k, "_") && metaOf(k).Str? && !IsEmpty(metaOf(k))
  {
    if keys != [] {
      var key := keys[0];
      var tail := TranslatableMeta(keys[1..], metaOf);
      TranslatableMetaExactly(keys[1..], metaOf, k);
      assert k in keys <==> k == key || k in keys[1..];
      assert StartsWith("_edit_lock", "_") && StartsWith("_edit_last", "_");
      assert StartsWith("_wp_page_template", "_") && StartsWith("_thumbnail_id", "_");
      if !(key in ExcludedMeta || StartsWith(key, "_")) && metaOf(key).Str? && !IsEmpty(metaOf(key)) {
        var e := MetaEntry(key, metaOf(key).s);
        assert TranslatableMeta(keys, metaOf) == [e] + tail;
        assert ([e] + tail)[1..] == tail;
        assert MetaKeys([e] + tail) == [key] + MetaKeys(tail);
      }
    }
  }

  // ---------------------------------------------------------------------
  // get_translatable_content and update_translated_content

  /** The translatable content of the post, or `invalid_post` when there is
      no such post. */
  function GetTranslatableContent(post: Option<Post>, acfActive: bool, acfFields: Entries, lookup: FieldLookup,
                                  metaKeys: seq<string>, metaOf: string -> Value): (r: WpResult<Content>)
    ensures post.None? ==> r == Err(InvalidPost)
    ensures post.Some? ==> r.Ok?
    ensures r.Ok? ==>
      && r.value.title == PostField(post.value.title)
      && r.value.content == PostField(post.value.content)
      && r.value.excerpt == PostField(post.value.excerpt)
      && (r.value.acf.Some? <==> acfActive && acfFields != Nil)
      && (r.value.acf.Some? ==> r.value.acf.value == ProcessAcfFields(acfFields, lookup))
      && (r.value.meta.Some? <==> TranslatableMeta(metaKeys, metaOf) != [])
      && (r.value.meta.Some? ==> r.value.meta.value == TranslatableMeta(metaKeys, metaOf))
  {
    match post
    case None => Err(InvalidPost)
    case Some(p) =>
      var meta := TranslatableMeta(metaKeys, metaOf);
      Ok(Content(
        PostField(p.title), PostField(p.content), PostField(p.excerpt),
        if acfActive && acfFields != Nil then Some(ProcessAcfFields(acfFields, lookup)) else None,
        if meta != [] then Some(meta) else None))
  }

  /** The `wp_update_post` payload: the post id and the post fields present
      in the translated content. */
  datatype Payload = Payload(id: int, title: Option<string>, content: Option<string>, excerpt: Option<string>)

  /** What `update_translated_content` writes. */
  datatype Updates = Updates(payload: Payload, fields: seq<FieldWrite>, meta: seq<MetaEntry>)

  /** Writing translated content back: `invalid_post` without a post; the
      error of `wp_update_post` if it fails, before any field or meta is
      written; otherwise the ACF writes (only while ACF is active) and one
      meta update per translated meta entry. */
  function UpdateTranslatedContent(post: Option<Post>, postId: int, c: Content, acfActive: bool,
                                   updatePost: Payload -> Option<WpError>): (r: WpResult<Updates>)
    ensures post.None? ==> r == Err(InvalidPost)
    ensures post.Some? && updatePost(Payload(postId, c.title, c.content, c.excerpt)).Some? ==>
      r == Err(updatePost(Payload(postId, c.title, c.content, c.excerpt)).value)
    ensures post.Some? && updatePost(Payload(postId, c.title, c.content, c.excerpt)).None? ==> r.Ok?
    ensures r.Ok? ==>
      && r.value.payload == Payload(postId, c.title, c.content, c.excerpt)
      && (c.acf.None? || !acfActive ==> r.value.fields == [])
      && (c.acf.Some? && acfActive ==> r.value.fields == UpdateAcfFields(c.acf.value))
      && (c.meta.None? ==> r.value.meta == [])
      && (c.meta.Some? ==> r.value.meta == c.meta.value)
  {
    match post
    case None => Err(InvalidPost)
    case Some(_) =>
      var payload := Payload(postId, c.title, c.content, c.excerpt);
      match updatePost(payload)
      case Some(e) => Err(e)
      case None =>
        var fields := if c.acf.Some? && acfActive then UpdateAcfFields(c.acf.value) else [];
        var meta := if c.meta.Some? then c.meta.value else [];
        Ok(Updates(payload, fields, meta))
  }

  /** Writing back the content just read (as if every translation returned
      its input) restores the post: the non-empty post fields, every text
      leaf of the ACF tree and every translatable meta value, each once. */
  lemma ContentRoundTrip(post: Post, postId: int, acfFields: Entries, lookup: FieldLookup,
                         metaKeys: seq<string>, metaOf: string -> Value, updatePost: Payload -> Option<WpError>)
    requires var c := GetTranslatableContent(Some(post), true, acfFields, lookup, metaKeys, metaOf).value;
      updatePost(Payload(postId, c.title, c.content, c.excerpt)).None?
    ensures
      var c := GetTranslatableContent(Some(post), true, acfFields, lookup, metaKeys, metaOf).value;
      var u := UpdateTranslatedContent(Some(post), postId, c, true, updatePost);
      && u.Ok?
      && u.value.payload == Payload(postId, PostField(post.title), PostField(post.content), PostField(post.excerpt))
      && u.value.fields == TextLeaves(acfFields, lookup)
      && u.value.meta == TranslatableMeta(metaKeys, metaOf)
  {
    ProcessThenUpdate(acfFields, lookup);
  }
}
