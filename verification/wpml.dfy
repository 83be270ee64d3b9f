/** The WPML integration (`AITranslator\Integration\WPML`): creating a linked
    draft translation, updating a translation's post fields, and reporting
    which languages a post is translated into. WPML's own state is reduced
    to the translation groups ("trids") it keeps. */
module WpmlIntegration {
  import opened Php
  import opened WordPress

  const WpmlInactive := WpError("wpml_inactive", "WPML is not active")
  const TranslationExists := WpError("translation_exists", "Translation already exists for this language")

  /** The element type WPML assumes when `get_element_trid` or
      `get_element_translations` is called without one, as this integration
      calls them. */
  const DefaultElementType := "post_post"

  /** What the plugin reads from WPML: whether it is active, the active
      language codes (in WPML's order), the translation group of an element
      of a given element type, a group's members of a given element type by
      language, and each post's language. */
  datatype Sitepress = Sitepress(
    active: bool,
    languages: seq<string>,
    trid: (int, string) -> Option<int>,
    members: (int, string) -> map<string, int>,
    languageOf: int -> string)

  /** The `wp_insert_post` data of a new translation. */
  datatype Draft = Draft(title: string, content: string, postType: string, status: string, author: int)

  /** The `set_element_language_details` call: element, element type, group
      (none: WPML starts a new one), language and source language. */
  datatype Link = Link(element: int, elementType: string, trid: Option<int>, lang: string, sourceLang: string)

  datatype CreateOutcome =
    | CreateFailed(error: WpError)
    | Created(newId: int, draft: Draft, link: Link)

  /** The group of a post, looked up under the default element type. */
  function Trid(wp: Sitepress, postId: int): Option<int>
  {
    wp.trid(postId, DefaultElementType)
  }

  /** The group of a post, looked up under the default element type, already
      holds a member of that type in `lang`. */
  predicate HasTranslation(wp: Sitepress, postId: int, lang: string)
  {
    Trid(wp, postId).Some? && lang in wp.members(Trid(wp, postId).value, DefaultElementType)
  }

  /** `create_translation`: `wpml_inactive`; then `translation_exists` when
      the post's group already has the language; then `invalid_post`;
      otherwise a draft copy of the post, inserted as `newId` (the id
      `wp_insert_post` returns, an integer even when it fails), linked into
      the post's group in the target language. */
  function CreateTranslation(wp: Sitepress, postId: int, targetLang: string, post: Option<Post>,
                             currentUser: int, newId: int): (r: CreateOutcome)
    ensures !wp.active ==> r == CreateFailed(WpmlInactive)
    ensures wp.active && HasTranslation(wp, postId, targetLang) ==> r == CreateFailed(TranslationExists)
    ensures wp.active && !HasTranslation(wp, postId, targetLang) && post.None? ==> r == CreateFailed(InvalidPost)
    ensures r.Created? <==> wp.active && !HasTranslation(wp, postId, targetLang) && post.Some?
    ensures r.Created? ==>
      && r.newId == newId
      && r.draft == Draft(post.value.title, post.value.content, post.value.postType, "draft", currentUser)
      && r.link == Link(newId, "post_" + post.value.postType, Trid(wp, postId), targetLang, wp.languageOf(postId))
  {
    if !wp.active then CreateFailed(WpmlInactive)
    else
      var trid := wp.trid(postId, DefaultElementType);
      if trid.Some? && targetLang in wp.members(trid.value, DefaultElementType) then CreateFailed(TranslationExists)
      else match post
        case None => CreateFailed(InvalidPost)
        case Some(p) =>
          var draft := Draft(p.title, p.content, p.postType, "draft", currentUser);
          Created(newId, draft, Link(newId, "post_" + p.postType, trid, targetLang, wp.languageOf(postId)))
  }

  /** WPML after a link into an existing group: the new element joins the
      group, under its own element type, in its language. */
  function ApplyLink(wp: Sitepress, link: Link): (r: Sitepress)
    requires link.trid.Some?
    ensures r.trid(link.element, link.elementType) == link.trid
    ensures r.members(link.trid.value, link.elementType) == wp.members(link.trid.value, link.elementType)[link.lang := link.element]
    ensures forall g, ty | g != link.trid.value || ty != link.elementType :: r.members(g, ty) == wp.members(g, ty)
  {
    var t := link.trid.value;
    wp.(trid := (p, ty) => if p == link.element && ty == link.elementType then Some(t) else wp.trid(p, ty),
        members := (g, ty) => if g == t && ty == link.elementType then wp.members(g, ty)[link.lang := link.element] else wp.members(g, ty),
        languageOf := p => if p == link.element then link.lang else wp.languageOf(p))
  }

  /** Once a translation of a `post` is created and linked into the post's
      group, creating it again is rejected as `translation_exists`, and
      nothing is inserted. */
  lemma SecondCreateRejected(wp: Sitepress, postId: int, targetLang: string, post: Option<Post>,
                             currentUser: int, newId: int, post2: Option<Post>, currentUser2: int, newId2: int)
    requires newId != postId
    requires CreateTranslation(wp, postId, targetLang, post, currentUser, newId).Created?
    requires post.value.postType == "post"
    requires Trid(wp, postId).Some?
    ensures var link := CreateTranslation(wp, postId, targetLang, post, currentUser, newId).link;
      CreateTranslation(ApplyLink(wp, link), postId, targetLang, post2, currentUser2, newId2) == CreateFailed(TranslationExists)
  {
    var link := CreateTranslation(wp, postId, targetLang, post, currentUser, newId).link;
    var wp2 := ApplyLink(wp, link);
    assert link.elementType == DefaultElementType;
    assert Trid(wp2, postId) == Trid(wp, postId);
    assert targetLang in wp2.members(Trid(wp, postId).value, DefaultElementType);
  }

  /** For any other post type the new translation joins the group under its
      own element type, which the existence check does not read: creating
      the same translation again is not rejected. */
  lemma OtherTypeCreatedAgain(wp: Sitepress, postId: int, targetLang: string, post: Option<Post>,
                              currentUser: int, newId: int, post2: Option<Post>, currentUser2: int, newId2: int)
    requires newId != postId
    requires CreateTranslation(wp, postId, targetLang, post, currentUser, newId).Created?
    requires post.value.postType != "post" && post2.Some?
    requires Trid(wp, postId).Some?
    ensures var link := CreateTranslation(wp, postId, targetLang, post, currentUser, newId).link;
      CreateTranslation(ApplyLink(wp, link), postId, targetLang, post2, currentUser2, newId2).Created?
  {
    var link := CreateTranslation(wp, postId, targetLang, post, currentUser, newId).link;
    var wp2 := ApplyLink(wp, link);
    assert ("post_" + post.value.postType)[5..] == post.value.postType;
    assert Trid(wp2, postId) == Trid(wp, postId);
    assert wp2.members(Trid(wp, postId).value, DefaultElementType) == wp.members(Trid(wp, postId).value, DefaultElementType);
  }

  /** The data `update_translation` hands to `wp_update_post`: the id and
      each post field set in the content. */
  datatype UpdateData = UpdateData(id: int, title: Option<Value>, content: Option<Value>, excerpt: Option<Value>)

  /** `isset($content[$field])`, as the optional payload entry. */
  function IfSet(content: Entries, field: string): (r: Option<Value>)
    ensures r.Some? <==> Isset(content, Name(field))
    ensures r.Some? ==> Get(content, Name(field)) == Some(r.value) && r.value != Null
  {
    if Isset(content, Name(field)) then Some(At(content, Name(field))) else None
  }

  datatype UpdateOutcome = UpdateOutcome(sent: Option<UpdateData>, result: WpResult<bool>)

  /** `update_translation`: `wpml_inactive` without sending anything;
      otherwise the update data is sent, and the result is the error of
      `wp_update_post`, or true. */
  function UpdateTranslation(wp: Sitepress, translationId: int, content: Entries,
                             updatePost: UpdateData -> Option<WpError>): (r: UpdateOutcome)
    ensures !wp.active ==> r == UpdateOutcome(None, Err(WpmlInactive))
    ensures wp.active ==> r.sent.Some? && r.sent.value.id == translationId
    ensures r.sent.Some? ==>
      && (r.sent.value.title.Some? <==> Isset(content, Name("post_title")))
      && (r.sent.value.content.Some? <==> Isset(content, Name("post_content")))
      && (r.sent.value.excerpt.Some? <==> Isset(content, Name("post_excerpt")))
      && (r.result.Err? <==> updatePost(r.sent.value).Some?)
  {
    if !wp.active then UpdateOutcome(None, Err(WpmlInactive))
    else
      var data := UpdateData(translationId, IfSet(content, "post_title"), IfSet(content, "post_content"), IfSet(content, "post_excerpt"));
      match updatePost(data)
      case Some(e) => UpdateOutcome(Some(data), Err(e))
      case None => UpdateOutcome(Some(data), Ok(true))
  }

  /** The translation's post fields as `wp_update_post` leaves them: a
      field present in the data is replaced, the others keep their value. */
  datatype PostFields = PostFields(title: Value, content: Value, excerpt: Value)

  function Applied(before: PostFields, d: UpdateData): PostFields
  {
    PostFields(
      if d.title.Some? then d.title.value else before.title,
      if d.content.Some? then d.content.value else before.content,
      if d.excerpt.Some? then d.excerpt.value else before.excerpt)
  }

  /** After an update, each post field set in the content holds the
      content's value, and every other field is unchanged. */
  lemma UpdateReplacesSetFields(wp: Sitepress, translationId: int, content: Entries,
                                updatePost: UpdateData -> Option<WpError>, before: PostFields)
    requires wp.active
    ensures var after := Applied(before, UpdateTranslation(wp, translationId, content, updatePost).sent.value);
      && after.title == (if Isset(content, Name("post_title")) then At(content, Name("post_title")) else before.title)
      && after.content == (if Isset(content, Name("post_content")) then At(content, Name("post_content")) else before.content)
      && after.excerpt == (if Isset(content, Name("post_excerpt")) then At(content, Name("post_excerpt")) else before.excerpt)
  {
    var d := UpdateTranslation(wp, translationId, content, updatePost).sent.value;
    assert d.title == IfSet(content, "post_title");
    assert d.content == IfSet(content, "post_content");
    assert d.excerpt == IfSet(content, "post_excerpt");
  }

  /** One entry of the status report. */
  datatype LangStatus = LangStatus(code: string, exists_: bool, postId: Option<int>, status: string)

  /** `get_translation_status`: nothing while WPML is inactive or the post
      has no group; otherwise one entry per active language saying whether
      the group has a member in it, which, and that member's post status
      (`none` when there is none). */
  function GetTranslationStatus(wp: Sitepress, postId: int, postStatus: int -> string): (r: seq<LangStatus>)
    ensures !wp.active || Trid(wp, postId).None? ==> r == []
    ensures wp.active && Trid(wp, postId).Some? ==> |r| == |wp.languages|
    ensures forall i | 0 <= i < |r| ::
      var members := wp.members(Trid(wp, postId).value, DefaultElementType);
      && r[i].code == wp.languages[i]
      && (r[i].exists_ <==> r[i].code in members)
      && (!r[i].exists_ ==> r[i].postId.None? && r[i].status == "none")
      && (r[i].exists_ ==> r[i].postId == Some(members[r[i].code]) && r[i].status == postStatus(members[r[i].code]))
  {
    if !wp.active || wp.trid(postId, DefaultElementType).None? then []
    else
      var members := wp.members(wp.trid(postId, DefaultElementType).value, DefaultElementType);
      seq(|wp.languages|, i requires 0 <= i < |wp.languages| =>
        var code := wp.languages[i];
        if code in members then LangStatus(code, true, Some(members[code]), postStatus(members[code]))
        else LangStatus(code, false, None, "none"))
  }

  /** After a translation is created and linked, the status report shows
      the target language (when active) as existing, with the new post and
      its status. */
  lemma StatusAfterCreate(wp: Sitepress, postId: int, targetLang: string, post: Option<Post>,
                          currentUser: int, newId: int, postStatus: int -> string, i: int)
    requires newId != postId
    requires CreateTranslation(wp, postId, targetLang, post, currentUser, newId).Created?
    requires post.value.postType == "post"
    requires Trid(wp, postId).Some?
    requires 0 <= i < |wp.languages| && wp.languages[i] == targetLang
    ensures var link := CreateTranslation(wp, postId, targetLang, post, currentUser, newId).link;
      GetTranslationStatus(ApplyLink(wp, link), postId, postStatus)[i] ==
        LangStatus(targetLang, true, Some(newId), postStatus(newId))
  {
    var link := CreateTranslation(wp, postId, targetLang, post, currentUser, newId).link;
    var wp2 := ApplyLink(wp, link);
    assert link.elementType == DefaultElementType;
    assert Trid(wp2, postId) == Trid(wp, postId);
    assert wp2.members(Trid(wp, postId).value, DefaultElementType)[targetLang] == newId;
  }
}
