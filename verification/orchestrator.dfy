/** The AJAX translation handler (`AIT_Translation_Handler::handle_translation`):
    after its request checks it walks the requested languages one by one,
    skips those the post's translation group already holds, translates the
    title and content, inserts a draft, links it into the group and copies
    the custom fields and meta into it. */
module Orchestrator {
  import opened Php
  import opened WordPress
  import FieldTranslation

  /** The request as the endpoint reads it. */
  datatype Request = Request(nonceOk: bool, wpmlActive: bool, postId: int, languages: seq<string>)

  /** The post handed to `wp_insert_post`. */
  datatype Draft = Draft(title: Value, content: Value, status: string, author: int, postType: string)

  /** `wp_insert_post`: the new id or an error message. */
  datatype InsertResult = Inserted(id: int) | InsertFailed(message: string)

  /** Everything the handler reads from WordPress, WPML and ACF. `trid` is
      the post's translation group (`None` when WPML has none for it) and
      `group` its members by language as WPML reports them. `insert`
      receives the draft and the number of posts this request has already
      inserted, so that successive inserts may return different ids. */
  datatype Site = Site(
    posts: int -> Option<Post>,
    trid: Option<int>,
    group: map<string, int>,
    sourceLanguage: string,
    currentUser: int,
    insert: (Draft, nat) -> InsertResult,
    acfFields: Entries,
    lookup: FieldLookup,
    metaKeys: seq<string>,
    metaValues: string -> seq<Value>)

  /** A translation the handler created: the inserted draft, its WPML
      language details (element type, group, language, source language) and
      what was copied into it. */
  datatype Translation = Translation(
    id: int, lang: string, draft: Draft, elementType: string, trid: Option<int>, sourceLang: string,
    fields: seq<FieldWrite>, meta: seq<FieldTranslation.MetaAdd>)

  datatype LangResult = Failure(message: string) | Success(postId: int)

  /** The handler's progress: the group as WPML now reports it, the
      translations created so far and the per-language results. */
  datatype Progress = Progress(group: map<string, int>, created: seq<Translation>, results: map<string, LangResult>)

  datatype Response = ErrorResponse(message: string) | Completed(progress: Progress)

  const AlreadyExists := "Translation already exists"

  /** `$translated_title['content']`: the text on success, null otherwise. */
  function TitleValue(t: WordPress.Translation): Value
  {
    match t
    case Translated(c) => Str(c)
    case TranslateFailed(_) => Null
  }

  /** The `$translated_post` array: the translated title (null when its
      translation failed) and content, as a draft of the current user. */
  function NewDraft(site: Site, post: Post, title: WordPress.Translation, content: string): Draft
  {
    Draft(TitleValue(title), Str(content), "draft", site.currentUser, post.postType)
  }

  /** One language of the loop. Once the draft is linked, WPML reports it
      as a member of the group, unless the post has no group: the link then
      starts a group of its own and the post's group stays as it was. */
  function Step(site: Site, post: Post, tr: Translator, p: Progress, lang: string): (r: Progress)
    ensures r.results.Keys == p.results.Keys + {lang}
    ensures forall l | l in p.results && l != lang :: r.results[l] == p.results[l]
    ensures lang in p.group ==> r.results[lang] == Failure(AlreadyExists) && r.created == p.created
    ensures lang !in p.group && tr(Str(post.content), lang).TranslateFailed? ==>
      r.results[lang] == Failure(tr(Str(post.content), lang).error) && r.created == p.created
    ensures lang !in p.group && tr(Str(post.content), lang).Translated? ==>
      var ins := site.insert(NewDraft(site, post, tr(Str(post.title), lang), tr(Str(post.content), lang).content), |p.created|);
      && (ins.InsertFailed? ==> r.results[lang] == Failure(ins.message) && r.created == p.created)
      && (ins.Inserted? ==> r.results[lang] == Success(ins.id) && |r.created| == |p.created| + 1
                            && r.created[|p.created|].id == ins.id)
    ensures r.created == p.created ==> r.group == p.group && r.results[lang].Failure?
    ensures r.created != p.created ==>
      && lang !in p.group
      && |r.created| == |p.created| + 1
      && r.created[..|p.created|] == p.created
      && r.created[|p.created|].lang == lang
      && r.group == (if site.trid.Some? then p.group[lang := r.created[|p.created|].id] else p.group)
      && r.results[lang] == Success(r.created[|p.created|].id)
      && DraftFrom(site, post, tr, r.created[|p.created|])
  {
    if lang in p.group then
      p.(results := p.results[lang := Failure(AlreadyExists)])
    else
      var title := tr(Str(post.title), lang);
      var content := tr(Str(post.content), lang);
      if content.TranslateFailed? then
        p.(results := p.results[lang := Failure(content.error)])
      else
        var draft := NewDraft(site, post, title, content.content);
        match site.insert(draft, |p.created|)
        case InsertFailed(m) =>
          p.(results := p.results[lang := Failure(m)])
        case Inserted(id) =>
          var t := Translation(id, lang, draft, "post_" + post.postType, site.trid, site.sourceLanguage,
            FieldTranslation.CopyAcfFields(site.acfFields, site.lookup, tr, lang),
            FieldTranslation.TranslateAdds(FieldTranslation.StoredMeta(site.metaKeys, site.metaValues), tr, lang));
          var group := if site.trid.Some? then p.group[lang := id] else p.group;
          Progress(group, p.created + [t], p.results[lang := Success(id)])
  }

  /** The loop over the requested languages, in order. */
  function Run(site: Site, post: Post, tr: Translator, p: Progress, langs: seq<string>): (r: Progress)
    ensures r.results.Keys == p.results.Keys + set l | l in langs
    ensures |r.created| >= |p.created| && r.created[..|p.created|] == p.created
    decreases |langs|
  {
    if langs == [] then p
    else Run(site, post, tr, Step(site, post, tr, p, langs[0]), langs[1..])
  }

  /** The whole endpoint: the request checks in the source's order, then
      the loop, starting from the group WPML reports for the post. */
  function HandleTranslation(req: Request, site: Site, tr: Translator): (r: Response)
    ensures !req.nonceOk ==> r == ErrorResponse("Security check failed")
    ensures req.nonceOk && !req.wpmlActive ==> r == ErrorResponse("WPML is required for translations")
    ensures req.nonceOk && req.wpmlActive && (req.postId == 0 || req.languages == []) ==>
      r == ErrorResponse("Missing required parameters")
    ensures req.nonceOk && req.wpmlActive && req.postId != 0 && req.languages != [] && site.posts(req.postId).None? ==>
      r == ErrorResponse("Post not found")
    ensures r.Completed? <==>
      req.nonceOk && req.wpmlActive && req.postId != 0 && req.languages != [] && site.posts(req.postId).Some?
    ensures r.Completed? ==> r.progress.results.Keys == set l | l in req.languages
    ensures r.Completed? ==> Monotone(site.group, r.progress) && SuccessesBacked(r.progress)
    ensures r.Completed? && site.trid.Some? ==> Consistent(site.group, r.progress)
    ensures r.Completed? ==> forall l | l in req.languages && l in site.group :: r.progress.results[l] == Failure(AlreadyExists)
    ensures r.Completed? ==> forall i | 0 <= i < |r.progress.created| ::
      r.progress.created[i].lang in req.languages && DraftFrom(site, site.posts(req.postId).value, tr, r.progress.created[i])
    ensures r.Completed? && InsertsSucceed(site) ==>
      forall l | l in req.languages && l !in site.group && multiset(req.languages)[l] == 1
                 && tr(Str(site.posts(req.postId).value.content), l).Translated? ::
        r.progress.results[l].Success?
  {
    if !req.nonceOk then ErrorResponse("Security check failed")
    else if !req.wpmlActive then ErrorResponse("WPML is required for translations")
    else if req.postId == 0 || req.languages == [] then ErrorResponse("Missing required parameters")
    else match site.posts(req.postId)
      case None => ErrorResponse("Post not found")
      case Some(post) =>
        LoopFacts(site, post, tr, req.languages);
        Completed(Run(site, post, tr, Progress(site.group, [], map[]), req.languages))
  }

  // ---------------------------------------------------------------------
  // Properties of the loop.

  /** The links the handler has made so far are consistent with the group it
      started from: the group is the start group plus one entry per created
      translation, and no language is translated twice or over an existing
      translation. */
  ghost predicate Consistent(start: map<string, int>, p: Progress)
  {
    && Monotone(start, p)
    && (forall i, j | 0 <= i < j < |p.created| :: p.created[i].lang != p.created[j].lang)
    && p.group.Keys == start.Keys + CreatedLangs(p.created)
    && (forall l | l in start :: p.group[l] == start[l])
    && (forall i | 0 <= i < |p.created| :: p.group[p.created[i].lang] == p.created[i].id)
  }

  /** What holds with or without a group: the languages the group started
      with keep their members, and no translation is made for any of them. */
  ghost predicate Monotone(start: map<string, int>, p: Progress)
  {
    && (forall l | l in start :: l in p.group && p.group[l] == start[l])
    && (forall i | 0 <= i < |p.created| :: p.created[i].lang !in start)
  }

  lemma StepMonotone(site: Site, post: Post, tr: Translator, start: map<string, int>, p: Progress, lang: string)
    requires Monotone(start, p)
    ensures Monotone(start, Step(site, post, tr, p, lang))
  {
    var r := Step(site, post, tr, p, lang);
    if r.created != p.created {
      forall i | 0 <= i < |r.created|
        ensures r.created[i].lang !in start
      {
        if i < |p.created| {
          assert r.created[i] == p.created[i];
        }
      }
    }
  }

  lemma {:induction false} RunMonotone(site: Site, post: Post, tr: Translator, start: map<string, int>, p: Progress, langs: seq<string>)
    requires Monotone(start, p)
    ensures Monotone(start, Run(site, post, tr, p, langs))
    decreases |langs|
  {
    if langs != [] {
      StepMonotone(site, post, tr, start, p, langs[0]);
      RunMonotone(site, post, tr, start, Step(site, post, tr, p, langs[0]), langs[1..]);
    }
  }

  function CreatedLangs(created: seq<Translation>): set<string>
  {
    set i | 0 <= i < |created| :: created[i].lang
  }

  lemma CreatedLangsAppend(created: seq<Translation>, t: Translation)
    ensures CreatedLangs(created + [t]) == CreatedLangs(created) + {t.lang}
  {
    var all := created + [t];
    forall l | l in CreatedLangs(all)
      ensures l in CreatedLangs(created) + {t.lang}
    {
      var i :| 0 <= i < |all| && all[i].lang == l;
      if i < |created| {
        assert created[i].lang == l;
      }
    }
    forall l | l in CreatedLangs(created)
      ensures l in CreatedLangs(all)
    {
      var i :| 0 <= i < |created| && created[i].lang == l;
      assert all[i].lang == l;
    }
    assert all[|created|].lang == t.lang;
  }

  lemma StepConsistent(site: Site, post: Post, tr: Translator, start: map<string, int>, p: Progress, lang: string)
    requires site.trid.Some?
    requires Consistent(start, p)
    ensures Consistent(start, Step(site, post, tr, p, lang))
  {
    var r := Step(site, post, tr, p, lang);
    StepMonotone(site, post, tr, start, p, lang);
    if r.created != p.created {
      var n := |p.created|;
      var t := r.created[n];
      assert r.created == p.created + [t];
      assert lang !in start && lang !in CreatedLangs(p.created);
      CreatedLangsAppend(p.created, t);
      forall i, j | 0 <= i < j < |r.created|
        ensures r.created[i].lang != r.created[j].lang
      {
        if j == n {
          assert r.created[i] == p.created[i];
          assert r.created[i].lang in CreatedLangs(p.created);
        }
      }
      forall i | 0 <= i < |r.created|
        ensures r.group[r.created[i].lang] == r.created[i].id
      {
        if i < n {
          assert r.created[i] == p.created[i];
          assert p.created[i].lang in CreatedLangs(p.created);
        }
      }
    }
  }

  lemma {:induction false} RunConsistent(site: Site, post: Post, tr: Translator, start: map<string, int>, p: Progress, langs: seq<string>)
    requires site.trid.Some?
    requires Consistent(start, p)
    ensures Consistent(start, Run(site, post, tr, p, langs))
    decreases |langs|
  {
    if langs != [] {
      StepConsistent(site, post, tr, start, p, langs[0]);
      RunConsistent(site, post, tr, start, Step(site, post, tr, p, langs[0]), langs[1..]);
    }
  }

  /** A language the group already holds is answered "Translation already
      exists", and no post is created for it. */
  lemma {:induction false} ExistingLanguageSkipped(site: Site, post: Post, tr: Translator, start: map<string, int>, p: Progress, langs: seq<string>, lang: string)
    requires Monotone(start, p)
    requires lang in start && lang in langs
    ensures var r := Run(site, post, tr, p, langs);
      r.results[lang] == Failure(AlreadyExists)
      && forall i | 0 <= i < |r.created| :: r.created[i].lang != lang
    decreases |langs|
  {
    RunMonotone(site, post, tr, start, p, langs);
    var q := Step(site, post, tr, p, langs[0]);
    StepMonotone(site, post, tr, start, p, langs[0]);
    if langs[0] == lang {
      if lang in langs[1..] {
        ExistingLanguageSkipped(site, post, tr, start, q, langs[1..], lang);
      } else {
        ResultKept(site, post, tr, q, langs[1..], lang);
      }
    } else {
      ExistingLanguageSkipped(site, post, tr, start, q, langs[1..], lang);
    }
  }

  /** A language not requested again keeps the result it already has. */
  lemma {:induction false} ResultKept(site: Site, post: Post, tr: Translator, p: Progress, langs: seq<string>, lang: string)
    requires lang in p.results && lang !in langs
    ensures Run(site, post, tr, p, langs).results[lang] == p.results[lang]
    decreases |langs|
  {
    if langs != [] {
      ResultKept(site, post, tr, Step(site, post, tr, p, langs[0]), langs[1..], lang);
    }
  }

  /** A language whose content translation fails gets that error as its
      result and no post, while the loop goes on with the other languages
      (every requested language still gets a result). */
  lemma {:induction false} FailedContentCreatesNothing(site: Site, post: Post, tr: Translator, p: Progress, langs: seq<string>, lang: string)
    requires lang in langs && lang !in p.group
    requires forall i | 0 <= i < |p.created| :: p.created[i].lang != lang
    requires tr(Str(post.content), lang).TranslateFailed?
    ensures var r := Run(site, post, tr, p, langs);
      r.results[lang] == Failure(tr(Str(post.content), lang).error)
      && forall i | 0 <= i < |r.created| :: r.created[i].lang != lang
    decreases |langs|
  {
    var q := Step(site, post, tr, p, langs[0]);
    assert lang !in q.group && forall i | 0 <= i < |q.created| :: q.created[i].lang != lang;
    if langs[0] == lang && lang !in langs[1..] {
      ResultKept(site, post, tr, q, langs[1..], lang);
      NoNewLanguage(site, post, tr, q, langs[1..], lang);
    } else {
      FailedContentCreatesNothing(site, post, tr, q, langs[1..], lang);
    }
  }

  /** The loop creates translations only for the languages it is asked for. */
  lemma {:induction false} NoNewLanguage(site: Site, post: Post, tr: Translator, p: Progress, langs: seq<string>, lang: string)
    requires lang !in langs
    requires forall i | 0 <= i < |p.created| :: p.created[i].lang != lang
    ensures forall i | 0 <= i < |Run(site, post, tr, p, langs).created| :: Run(site, post, tr, p, langs).created[i].lang != lang
    decreases |langs|
  {
    if langs != [] {
      NoNewLanguage(site, post, tr, Step(site, post, tr, p, langs[0]), langs[1..], lang);
    }
  }

  /** Every created translation carries the translated content, the
      copied fields and meta, and its WPML details; its title is the
      translated title when that translation succeeded and null when it
      failed, since the title's outcome is never checked. */
  lemma {:induction false} CreatedDraftsCarryTranslations(site: Site, post: Post, tr: Translator, p: Progress, langs: seq<string>)
    requires forall i | 0 <= i < |p.created| :: DraftFrom(site, post, tr, p.created[i])
    ensures forall i | 0 <= i < |Run(site, post, tr, p, langs).created| :: DraftFrom(site, post, tr, Run(site, post, tr, p, langs).created[i])
    decreases |langs|
  {
    if langs != [] {
      var q := Step(site, post, tr, p, langs[0]);
      CreatedDraftsCarryTranslations(site, post, tr, q, langs[1..]);
    }
  }

  /** A translation made from `post` into `t.lang`: a draft of the current
      user, of the post's type, with the translated content and the
      translated (or null) title; linked as `post_<type>` into the post's
      group with the site's source language; carrying the post's ACF fields
      translated by their types and its copied meta translated value by
      value. */
  predicate DraftFrom(site: Site, post: Post, tr: Translator, t: Translation)
  {
    && tr(Str(post.content), t.lang).Translated?
    && t.draft.title == TitleValue(tr(Str(post.title), t.lang))
    && t.draft.content == Str(tr(Str(post.content), t.lang).content)
    && t.draft.status == "draft"
    && t.draft.author == site.currentUser
    && t.draft.postType == post.postType
    && t.elementType == "post_" + post.postType
    && t.trid == site.trid
    && t.sourceLang == site.sourceLanguage
    && t.fields == FieldTranslation.CopyAcfFields(site.acfFields, site.lookup, tr, t.lang)
    && t.meta == FieldTranslation.TranslateAdds(FieldTranslation.StoredMeta(site.metaKeys, site.metaValues), tr, t.lang)
  }

  /** Every language reported as a success names a translation the handler
      really created for that language. */
  ghost predicate SuccessesBacked(p: Progress)
  {
    forall l | l in p.results && p.results[l].Success? ::
      exists i | 0 <= i < |p.created| :: p.created[i].lang == l && p.created[i].id == p.results[l].postId
  }

  lemma StepSuccessesBacked(site: Site, post: Post, tr: Translator, p: Progress, lang: string)
    requires SuccessesBacked(p)
    ensures SuccessesBacked(Step(site, post, tr, p, lang))
  {
    var r := Step(site, post, tr, p, lang);
    forall l | l in r.results && r.results[l].Success?
      ensures exists i | 0 <= i < |r.created| :: r.created[i].lang == l && r.created[i].id == r.results[l].postId
    {
      if l == lang {
        assert r.created != p.created;
        var i := |p.created|;
        assert r.created[i].lang == l && r.created[i].id == r.results[l].postId;
      } else {
        var i :| 0 <= i < |p.created| && p.created[i].lang == l && p.created[i].id == p.results[l].postId;
        assert r.created[..|p.created|] == p.created;
        assert r.created[i] == p.created[i];
      }
    }
  }

  lemma {:induction false} RunSuccessesBacked(site: Site, post: Post, tr: Translator, p: Progress, langs: seq<string>)
    requires SuccessesBacked(p)
    ensures SuccessesBacked(Run(site, post, tr, p, langs))
    decreases |langs|
  {
    if langs != [] {
      StepSuccessesBacked(site, post, tr, p, langs[0]);
      RunSuccessesBacked(site, post, tr, Step(site, post, tr, p, langs[0]), langs[1..]);
    }
  }

  /** The loop run from an empty progress over the group WPML reports:
      consistent, every success backed, every language already held
      answered "Translation already exists", and every created draft one
      of the requested languages carrying its translations. */
  lemma LoopFacts(site: Site, post: Post, tr: Translator, langs: seq<string>)
    ensures var r := Run(site, post, tr, Progress(site.group, [], map[]), langs);
      && Monotone(site.group, r) && SuccessesBacked(r)
      && (site.trid.Some? ==> Consistent(site.group, r))
      && (forall l | l in langs && l in site.group :: r.results[l] == Failure(AlreadyExists))
      && (forall i | 0 <= i < |r.created| :: r.created[i].lang in langs && DraftFrom(site, post, tr, r.created[i]))
      && (InsertsSucceed(site) ==>
            forall l | l in langs && l !in site.group && multiset(langs)[l] == 1 && tr(Str(post.content), l).Translated? ::
              r.results[l].Success?)
  {
    LoopGroupFacts(site, post, tr, langs);
    LoopDraftFacts(site, post, tr, langs);
  }

  /** The group half of LoopFacts. */
  lemma LoopGroupFacts(site: Site, post: Post, tr: Translator, langs: seq<string>)
    ensures var r := Run(site, post, tr, Progress(site.group, [], map[]), langs);
      && Monotone(site.group, r) && SuccessesBacked(r)
      && (site.trid.Some? ==> Consistent(site.group, r))
      && (forall l | l in langs && l in site.group :: r.results[l] == Failure(AlreadyExists))
  {
    var p := Progress(site.group, [], map[]);
    var r := Run(site, post, tr, p, langs);
    RunMonotone(site, post, tr, site.group, p, langs);
    if site.trid.Some? {
      RunConsistent(site, post, tr, site.group, p, langs);
    }
    RunSuccessesBacked(site, post, tr, p, langs);
    forall l | l in langs && l in site.group
      ensures r.results[l] == Failure(AlreadyExists)
    {
      ExistingLanguageSkipped(site, post, tr, site.group, p, langs, l);
    }
  }

  /** The draft half of LoopFacts. */
  lemma LoopDraftFacts(site: Site, post: Post, tr: Translator, langs: seq<string>)
    ensures var r := Run(site, post, tr, Progress(site.group, [], map[]), langs);
      && (forall i | 0 <= i < |r.created| :: r.created[i].lang in langs && DraftFrom(site, post, tr, r.created[i]))
      && (InsertsSucceed(site) ==>
            forall l | l in langs && l !in site.group && multiset(langs)[l] == 1 && tr(Str(post.content), l).Translated? ::
              r.results[l].Success?)
  {
    var p := Progress(site.group, [], map[]);
    var r := Run(site, post, tr, p, langs);
    if InsertsSucceed(site) {
      forall l | l in langs && l !in site.group && multiset(langs)[l] == 1 && tr(Str(post.content), l).Translated?
        ensures r.results[l].Success?
      {
        NewLanguageSucceeds(site, post, tr, p, langs, l);
      }
    }
    CreatedDraftsCarryTranslations(site, post, tr, p, langs);
    forall i | 0 <= i < |r.created|
      ensures r.created[i].lang in langs
    {
      if r.created[i].lang !in langs {
        NoNewLanguage(site, post, tr, p, langs, r.created[i].lang);
      }
    }
  }

  /** `wp_insert_post` never fails on this site. */
  ghost predicate InsertsSucceed(site: Site)
  {
    forall d, n :: site.insert(d, n).Inserted?
  }

  /** A language requested once, not yet in the group and whose content
      translates is reported as a success when inserts succeed. */
  lemma {:induction false} NewLanguageSucceeds(site: Site, post: Post, tr: Translator, p: Progress, langs: seq<string>, lang: string)
    requires lang in langs && lang !in p.group && multiset(langs)[lang] == 1
    requires tr(Str(post.content), lang).Translated?
    requires InsertsSucceed(site)
    ensures Run(site, post, tr, p, langs).results[lang].Success?
    decreases |langs|
  {
    var q := Step(site, post, tr, p, langs[0]);
    assert langs == [langs[0]] + langs[1..];
    if langs[0] == lang {
      assert lang !in langs[1..];
      ResultKept(site, post, tr, q, langs[1..], lang);
    } else {
      assert lang !in q.group;
      NewLanguageSucceeds(site, post, tr, q, langs[1..], lang);
    }
  }

  /** Without a group for the post, the check for an existing translation
      never sees what the request itself created: asking twice for the same
      language makes two drafts. */
  lemma NoGroupRepeatsDraft(site: Site, post: Post, tr: Translator, lang: string)
    requires site.trid.None? && lang !in site.group
    requires tr(Str(post.content), lang).Translated?
    requires InsertsSucceed(site)
    ensures var r := Run(site, post, tr, Progress(site.group, [], map[]), [lang, lang]);
      |r.created| == 2 && r.created[0].lang == lang && r.created[1].lang == lang
  {
    var p0 := Progress(site.group, [], map[]);
    var p1 := Step(site, post, tr, p0, lang);
    var p2 := Step(site, post, tr, p1, lang);
    assert [lang, lang][1..] == [lang];
    assert Run(site, post, tr, p0, [lang, lang]) == Run(site, post, tr, p1, [lang]);
    assert Run(site, post, tr, p1, [lang]) == Run(site, post, tr, p2, []);
  }
}
