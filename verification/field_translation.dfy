/** The custom-field translator of the AJAX translation handler
    (`AIT_Translation_Handler::translate_acf_field` and the copy of a post's
    fields and meta into its new translation). The field tree is rewritten in
    place: text leaves are replaced by their translation, containers keep
    every key and index, everything else passes through. */
module FieldTranslation {
  import opened Php
  import opened WordPress

  /** Field types that hold references to other content; never translated. */
  const ReferenceTypes: set<string> :=
    {"relationship", "post_object", "page_link", "image", "file", "gallery"}

  /** Field types the walker descends into or translates. */
  const WalkedTypes: set<string> := TextTypes + {Repeater, FlexibleContent, Group}

  /** A text, textarea or wysiwyg value: an empty value is kept without
      asking the service; otherwise the translation replaces it, and a failed
      translation leaves the original. */
  function TranslateText(v: Value, tr: Translator, lang: string): (r: Value)
    ensures IsEmpty(v) ==> r == v
    ensures !IsEmpty(v) && tr(v, lang).Translated? ==> r == Str(tr(v, lang).content)
    ensures tr(v, lang).TranslateFailed? ==> r == v
  {
    if IsEmpty(v) then v
    else
      match tr(v, lang)
      case Translated(c) => Str(c)
      case TranslateFailed(_) => v
  }

  /** The value of a field of type `ty` after translation into `lang`. */
  function TranslateField(v: Value, ty: string, lookup: FieldLookup, tr: Translator, lang: string): (r: Value)
    ensures ty !in WalkedTypes ==> r == v
    ensures ty in ReferenceTypes ==> r == v
    ensures ty !in TextTypes && !v.Arr? ==> r == v
    ensures v.Arr? && ty !in TextTypes ==> r.Arr? && Keys(r.entries) == Keys(v.entries)
    ensures ty in TextTypes && (IsEmpty(v) || tr(v, lang).TranslateFailed?) ==> r == v
    ensures ty in TextTypes && !IsEmpty(v) && tr(v, lang).Translated? ==> r == Str(tr(v, lang).content)
    decreases v
  {
    if ty in TextTypes then TranslateText(v, tr, lang)
    else if ty == Repeater || ty == FlexibleContent then
      if v.Arr? then Arr(TranslateRows(v.entries, ty == FlexibleContent, lookup, tr, lang)) else v
    else if ty == Group then
      if v.Arr? then Arr(TranslateSubFields(v.entries, false, lookup, tr, lang)) else v
    else v
  }

  /** The rows of a repeater, or the layouts of a flexible-content field
      (`skipLayout`): each row that is an array has its sub-fields
      translated; a row that is not an array is left as it is. */
  function TranslateRows(rows: Entries, skipLayout: bool, lookup: FieldLookup, tr: Translator, lang: string): (r: Entries)
    ensures Keys(r) == Keys(rows)
    decreases rows
  {
    match rows
    case Nil => Nil
    case Cons(i, row, rest) =>
      var row' := if row.Arr? then Arr(TranslateSubFields(row.entries, skipLayout, lookup, tr, lang)) else row;
      Cons(i, row', TranslateRows(rest, skipLayout, lookup, tr, lang))
  }

  /** The sub-fields of a row, a layout or a group: a sub-field with a field
      object is translated by its own type, the others are kept; in a
      flexible layout the `acf_fc_layout` entry is always kept. */
  function TranslateSubFields(es: Entries, skipLayout: bool, lookup: FieldLookup, tr: Translator, lang: string): (r: Entries)
    ensures Keys(r) == Keys(es)
    decreases es
  {
    match es
    case Nil => Nil
    case Cons(k, x, rest) =>
      var x' :=
        if skipLayout && k == LayoutKey then x
        else match lookup(k)
          case None => x
          case Some(fo) => TranslateField(x, fo.ftype, lookup, tr, lang);
      Cons(k, x', TranslateSubFields(rest, skipLayout, lookup, tr, lang))
  }

  // ---------------------------------------------------------------------
  // The texts the walker hands to the translation service.

  /** A leaf sent to the service, addressed by the keys leading to it. */
  datatype Leaf = Leaf(path: seq<Key>, text: Value)

  /** Prefix every leaf's path with `k`. */
  function Under(k: Key, ls: seq<Leaf>): (r: seq<Leaf>)
    ensures |r| == |ls|
    ensures forall i | 0 <= i < |r| :: r[i] == Leaf([k] + ls[i].path, ls[i].text)
  {
    seq(|ls|, i requires 0 <= i < |ls| => Leaf([k] + ls[i].path, ls[i].text))
  }

  /** The leaves of a field of type `ty` that the walker passes to the
      service, in the order it visits them. */
  function Extract(v: Value, ty: string, lookup: FieldLookup): (r: seq<Leaf>)
    ensures forall i | 0 <= i < |r| :: !IsEmpty(r[i].text)
    ensures ty !in WalkedTypes ==> r == []
    decreases v
  {
    if ty in TextTypes then (if IsEmpty(v) then [] else [Leaf([], v)])
    else if ty == Repeater || ty == FlexibleContent then
      if v.Arr? then ExtractRows(v.entries, ty == FlexibleContent, lookup) else []
    else if ty == Group then
      if v.Arr? then ExtractSubFields(v.entries, false, lookup) else []
    else []
  }

  function ExtractRows(rows: Entries, skipLayout: bool, lookup: FieldLookup): (r: seq<Leaf>)
    ensures forall i | 0 <= i < |r| :: !IsEmpty(r[i].text) && |r[i].path| >= 2
    decreases rows
  {
    match rows
    case Nil => []
    case Cons(i, row, rest) =>
      (if row.Arr? then Under(i, ExtractSubFields(row.entries, skipLayout, lookup)) else [])
      + ExtractRows(rest, skipLayout, lookup)
  }

  function ExtractSubFields(es: Entries, skipLayout: bool, lookup: FieldLookup): (r: seq<Leaf>)
    ensures forall i | 0 <= i < |r| :: !IsEmpty(r[i].text) && |r[i].path| >= 1
    ensures skipLayout ==> forall i | 0 <= i < |r| :: r[i].path[0] != LayoutKey
    decreases es
  {
    match es
    case Nil => []
    case Cons(k, x, rest) =>
      (if skipLayout && k == LayoutKey then []
       else match lookup(k)
         case None => []
         case Some(fo) => Under(k, Extract(x, fo.ftype, lookup)))
      + ExtractSubFields(rest, skipLayout, lookup)
  }

  /** The key `acf_fc_layout` of a flexible layout is never on the way to a
      text sent to the service. */
  lemma LayoutKeyNeverSent(v: Value, lookup: FieldLookup)
    ensures forall l | l in Extract(v, FlexibleContent, lookup) :: |l.path| >= 2 && l.path[1] != LayoutKey
  {
    if v.Arr? {
      LayoutKeyNeverSentRows(v.entries, lookup);
    }
  }

  lemma {:induction false} LayoutKeyNeverSentRows(rows: Entries, lookup: FieldLookup)
    ensures forall l | l in ExtractRows(rows, true, lookup) :: |l.path| >= 2 && l.path[1] != LayoutKey
  {
    match rows
    case Nil =>
    case Cons(i, row, rest) =>
      LayoutKeyNeverSentRows(rest, lookup);
      if row.Arr? {
        var sub := ExtractSubFields(row.entries, true, lookup);
        var here := Under(i, sub);
        forall j | 0 <= j < |here|
          ensures |here[j].path| >= 2 && here[j].path[1] != LayoutKey
        {
          assert here[j].path == [i] + sub[j].path;
        }
      }
  }

  // ---------------------------------------------------------------------
  // The service is consulted only on the extracted texts.

  /** Two translators answer alike on every leaf of `ls`. */
  predicate Agree(tr1: Translator, tr2: Translator, lang: string, ls: seq<Leaf>)
  {
    forall i | 0 <= i < |ls| :: tr1(ls[i].text, lang) == tr2(ls[i].text, lang)
  }

  lemma AgreeSplit(tr1: Translator, tr2: Translator, lang: string, a: seq<Leaf>, b: seq<Leaf>)
    requires Agree(tr1, tr2, lang, a + b)
    ensures Agree(tr1, tr2, lang, a) && Agree(tr1, tr2, lang, b)
  {
    forall i | 0 <= i < |a| ensures tr1(a[i].text, lang) == tr2(a[i].text, lang) {
      assert (a + b)[i] == a[i];
    }
    forall i | 0 <= i < |b| ensures tr1(b[i].text, lang) == tr2(b[i].text, lang) {
      assert (a + b)[|a| + i] == b[i];
    }
  }

  lemma AgreeUnder(tr1: Translator, tr2: Translator, lang: string, k: Key, ls: seq<Leaf>)
    requires Agree(tr1, tr2, lang, Under(k, ls))
    ensures Agree(tr1, tr2, lang, ls)
  {
    forall i | 0 <= i < |ls| ensures tr1(ls[i].text, lang) == tr2(ls[i].text, lang) {
      assert Under(k, ls)[i].text == ls[i].text;
    }
  }

  /** Whatever the service answers for texts the walker never sends cannot
      change the result: empty leaves, reference fields, unknown sub-fields
      and layout names are never translated. */
  lemma {:induction false} OnlyExtractedTextsMatter(v: Value, ty: string, lookup: FieldLookup, tr1: Translator, tr2: Translator, lang: string)
    requires Agree(tr1, tr2, lang, Extract(v, ty, lookup))
    ensures TranslateField(v, ty, lookup, tr1, lang) == TranslateField(v, ty, lookup, tr2, lang)
    decreases v
  {
    if ty in TextTypes {
      if !IsEmpty(v) {
        assert Extract(v, ty, lookup)[0].text == v;
      }
    } else if ty == Repeater || ty == FlexibleContent {
      if v.Arr? {
        OnlyExtractedTextsMatterRows(v.entries, ty == FlexibleContent, lookup, tr1, tr2, lang);
      }
    } else if ty == Group {
      if v.Arr? {
        OnlyExtractedTextsMatterSubFields(v.entries, false, lookup, tr1, tr2, lang);
      }
    }
  }

  lemma {:induction false} OnlyExtractedTextsMatterRows(rows: Entries, skipLayout: bool, lookup: FieldLookup, tr1: Translator, tr2: Translator, lang: string)
    requires Agree(tr1, tr2, lang, ExtractRows(rows, skipLayout, lookup))
    ensures TranslateRows(rows, skipLayout, lookup, tr1, lang) == TranslateRows(rows, skipLayout, lookup, tr2, lang)
    decreases rows
  {
    match rows
    case Nil =>
    case Cons(i, row, rest) =>
      var here := if row.Arr? then Under(i, ExtractSubFields(row.entries, skipLayout, lookup)) else [];
      AgreeSplit(tr1, tr2, lang, here, ExtractRows(rest, skipLayout, lookup));
      OnlyExtractedTextsMatterRows(rest, skipLayout, lookup, tr1, tr2, lang);
      if row.Arr? {
        AgreeUnder(tr1, tr2, lang, i, ExtractSubFields(row.entries, skipLayout, lookup));
        OnlyExtractedTextsMatterSubFields(row.entries, skipLayout, lookup, tr1, tr2, lang);
      }
  }

  lemma {:induction false} OnlyExtractedTextsMatterSubFields(es: Entries, skipLayout: bool, lookup: FieldLookup, tr1: Translator, tr2: Translator, lang: string)
    requires Agree(tr1, tr2, lang, ExtractSubFields(es, skipLayout, lookup))
    ensures TranslateSubFields(es, skipLayout, lookup, tr1, lang) == TranslateSubFields(es, skipLayout, lookup, tr2, lang)
    decreases es
  {
    match es
    case Nil =>
    case Cons(k, x, rest) =>
      var here :=
        if skipLayout && k == LayoutKey then []
        else match lookup(k)
          case None => []
          case Some(fo) => Under(k, Extract(x, fo.ftype, lookup));
      AgreeSplit(tr1, tr2, lang, here, ExtractSubFields(rest, skipLayout, lookup));
      OnlyExtractedTextsMatterSubFields(rest, skipLayout, lookup, tr1, tr2, lang);
      if !(skipLayout && k == LayoutKey) && lookup(k).Some? {
        var fo := lookup(k).value;
        AgreeUnder(tr1, tr2, lang, k, Extract(x, fo.ftype, lookup));
        OnlyExtractedTextsMatter(x, fo.ftype, lookup, tr1, tr2, lang);
      }
  }

  // ---------------------------------------------------------------------
  // A service that echoes its input (or fails) leaves the tree unchanged.

  /** The service either fails on `x` or gives back exactly the string `x`. */
  predicate Echoes(tr: Translator, lang: string, x: Value)
  {
    match tr(x, lang)
    case Translated(c) => x == Str(c)
    case TranslateFailed(_) => true
  }

  predicate EchoesAll(tr: Translator, lang: string, ls: seq<Leaf>)
  {
    forall i | 0 <= i < |ls| :: Echoes(tr, lang, ls[i].text)
  }

  lemma EchoesSplit(tr: Translator, lang: string, a: seq<Leaf>, b: seq<Leaf>)
    requires EchoesAll(tr, lang, a + b)
    ensures EchoesAll(tr, lang, a) && EchoesAll(tr, lang, b)
  {
    forall i | 0 <= i < |a| ensures Echoes(tr, lang, a[i].text) {
      assert (a + b)[i] == a[i];
    }
    forall i | 0 <= i < |b| ensures Echoes(tr, lang, b[i].text) {
      assert (a + b)[|a| + i] == b[i];
    }
  }

  lemma EchoesUnder(tr: Translator, lang: string, k: Key, ls: seq<Leaf>)
    requires EchoesAll(tr, lang, Under(k, ls))
    ensures EchoesAll(tr, lang, ls)
  {
    forall i | 0 <= i < |ls| ensures Echoes(tr, lang, ls[i].text) {
      assert Under(k, ls)[i].text == ls[i].text;
    }
  }

  /** Injecting back what was extracted reproduces the tree: when every text
      sent comes back unchanged, or not at all, the field is unchanged. In
      particular a service that always fails changes nothing. */
  lemma {:induction false} EchoKeepsField(v: Value, ty: string, lookup: FieldLookup, tr: Translator, lang: string)
    requires EchoesAll(tr, lang, Extract(v, ty, lookup))
    ensures TranslateField(v, ty, lookup, tr, lang) == v
    decreases v
  {
    if ty in TextTypes {
      if !IsEmpty(v) {
        assert Extract(v, ty, lookup)[0].text == v;
      }
    } else if ty == Repeater || ty == FlexibleContent {
      if v.Arr? {
        EchoKeepsRows(v.entries, ty == FlexibleContent, lookup, tr, lang);
      }
    } else if ty == Group {
      if v.Arr? {
        EchoKeepsSubFields(v.entries, false, lookup, tr, lang);
      }
    }
  }

  lemma {:induction false} EchoKeepsRows(rows: Entries, skipLayout: bool, lookup: FieldLookup, tr: Translator, lang: string)
    requires EchoesAll(tr, lang, ExtractRows(rows, skipLayout, lookup))
    ensures TranslateRows(rows, skipLayout, lookup, tr, lang) == rows
    decreases rows
  {
    match rows
    case Nil =>
    case Cons(i, row, rest) =>
      var here := if row.Arr? then Under(i, ExtractSubFields(row.entries, skipLayout, lookup)) else [];
      EchoesSplit(tr, lang, here, ExtractRows(rest, skipLayout, lookup));
      EchoKeepsRows(rest, skipLayout, lookup, tr, lang);
      if row.Arr? {
        EchoesUnder(tr, lang, i, ExtractSubFields(row.entries, skipLayout, lookup));
        EchoKeepsSubFields(row.entries, skipLayout, lookup, tr, lang);
      }
  }

  lemma {:induction false} EchoKeepsSubFields(es: Entries, skipLayout: bool, lookup: FieldLookup, tr: Translator, lang: string)
    requires EchoesAll(tr, lang, ExtractSubFields(es, skipLayout, lookup))
    ensures TranslateSubFields(es, skipLayout, lookup, tr, lang) == es
    decreases es
  {
    match es
    case Nil =>
    case Cons(k, x, rest) =>
      var here :=
        if skipLayout && k == LayoutKey then []
        else match lookup(k)
          case None => []
          case Some(fo) => Under(k, Extract(x, fo.ftype, lookup));
      EchoesSplit(tr, lang, here, ExtractSubFields(rest, skipLayout, lookup));
      EchoKeepsSubFields(rest, skipLayout, lookup, tr, lang);
      if !(skipLayout && k == LayoutKey) && lookup(k).Some? {
        var fo := lookup(k).value;
        EchoesUnder(tr, lang, k, Extract(x, fo.ftype, lookup));
        EchoKeepsField(x, fo.ftype, lookup, tr, lang);
      }
  }

  // ---------------------------------------------------------------------
  // Shape preservation.

  /** `r` is what translating `v` as a field of type `ty` may give, for
      some answer of the service to each text: a non-empty text leaf may
      become a string, a repeater, layout list or group keeps every key and
      is rewritten entry by entry, and everything else is unchanged. */
  predicate Reshapes(r: Value, v: Value, ty: string, lookup: FieldLookup)
    decreases v
  {
    if ty in TextTypes then r == v || (r.Str? && !IsEmpty(v))
    else if (ty == Repeater || ty == FlexibleContent) && v.Arr? then
      r.Arr? && RowsReshape(r.entries, v.entries, ty == FlexibleContent, lookup)
    else if ty == Group && v.Arr? then
      r.Arr? && SubFieldsReshape(r.entries, v.entries, false, lookup)
    else r == v
  }

  /** Row by row: a row that is an array has its sub-fields reshaped, any
      other row is unchanged. */
  predicate RowsReshape(a: Entries, b: Entries, skipLayout: bool, lookup: FieldLookup)
    decreases b
  {
    match b
    case Nil => a == Nil
    case Cons(i, row, rest) =>
      && a.Cons? && a.key == i
      && (if row.Arr? then a.val.Arr? && SubFieldsReshape(a.val.entries, row.entries, skipLayout, lookup)
          else a.val == row)
      && RowsReshape(a.rest, rest, skipLayout, lookup)
  }

  /** Key by key: the layout name and every sub-field without a field object
      are unchanged, the others are reshaped by their own type. */
  predicate SubFieldsReshape(a: Entries, b: Entries, skipLayout: bool, lookup: FieldLookup)
    decreases b
  {
    match b
    case Nil => a == Nil
    case Cons(k, x, rest) =>
      && a.Cons? && a.key == k
      && (if (skipLayout && k == LayoutKey) || lookup(k).None? then a.val == x
          else Reshapes(a.val, x, lookup(k).value.ftype, lookup))
      && SubFieldsReshape(a.rest, rest, skipLayout, lookup)
  }

  /** Translation keeps the shape of the field: every row, layout and
      sub-field key stays where it was, only non-empty leaves of a text type
      turn into strings, and reference fields, unknown types, sub-fields
      without a field object and layout names come through unchanged. */
  lemma {:induction false} TranslateFieldReshapes(v: Value, ty: string, lookup: FieldLookup, tr: Translator, lang: string)
    ensures Reshapes(TranslateField(v, ty, lookup, tr, lang), v, ty, lookup)
    decreases v
  {
    if ty !in TextTypes && v.Arr? {
      if ty == Repeater || ty == FlexibleContent {
        TranslateRowsReshapes(v.entries, ty == FlexibleContent, lookup, tr, lang);
      } else if ty == Group {
        TranslateSubFieldsReshapes(v.entries, false, lookup, tr, lang);
      }
    }
  }

  lemma {:induction false} TranslateRowsReshapes(rows: Entries, skipLayout: bool, lookup: FieldLookup, tr: Translator, lang: string)
    ensures RowsReshape(TranslateRows(rows, skipLayout, lookup, tr, lang), rows, skipLayout, lookup)
    decreases rows
  {
    match rows
    case Nil =>
    case Cons(i, row, rest) =>
      TranslateRowsReshapes(rest, skipLayout, lookup, tr, lang);
      if row.Arr? {
        TranslateSubFieldsReshapes(row.entries, skipLayout, lookup, tr, lang);
      }
  }

  lemma {:induction false} TranslateSubFieldsReshapes(es: Entries, skipLayout: bool, lookup: FieldLookup, tr: Translator, lang: string)
    ensures SubFieldsReshape(TranslateSubFields(es, skipLayout, lookup, tr, lang), es, skipLayout, lookup)
    decreases es
  {
    match es
    case Nil =>
    case Cons(k, x, rest) =>
      TranslateSubFieldsReshapes(rest, skipLayout, lookup, tr, lang);
      if !(skipLayout && k == LayoutKey) && lookup(k).Some? {
        TranslateFieldReshapes(x, lookup(k).value.ftype, lookup, tr, lang);
      }
  }

  /** Reading one key of translated sub-fields: the layout name and a
      sub-field ACF does not know read as before; any other sub-field reads
      as its value translated by its own type. */
  lemma {:induction false} TranslateSubFieldsAt(es: Entries, skipLayout: bool, lookup: FieldLookup, tr: Translator, lang: string, k: Key)
    ensures var r := Get(TranslateSubFields(es, skipLayout, lookup, tr, lang), k);
      if (skipLayout && k == LayoutKey) || lookup(k).None? || Get(es, k).None? then r == Get(es, k)
      else r == Some(TranslateField(Get(es, k).value, lookup(k).value.ftype, lookup, tr, lang))
    decreases es
  {
    match es
    case Nil =>
    case Cons(k', x, rest) =>
      if k' != k {
        TranslateSubFieldsAt(rest, skipLayout, lookup, tr, lang, k);
      }
  }

  /** The `acf_fc_layout` entry of every flexible layout survives
      translation untouched. */
  lemma {:induction false} LayoutNameKept(es: Entries, lookup: FieldLookup, tr: Translator, lang: string)
    ensures Get(TranslateSubFields(es, true, lookup, tr, lang), LayoutKey) == Get(es, LayoutKey)
    decreases es
  {
    match es
    case Nil =>
    case Cons(k, x, rest) =>
      LayoutNameKept(rest, lookup, tr, lang);
  }

  // ---------------------------------------------------------------------
  // Copying a post's fields and meta into its new translation.

  /** A top-level custom field ACF knows, with its stored value. */
  datatype KnownField = KnownField(fo: FieldObject, value: Value)

  /** The top-level fields that have a field object, in order. */
  function KnownFields(fields: Entries, lookup: FieldLookup): (r: seq<KnownField>)
    ensures |r| <= Length(fields)
    ensures forall i | 0 <= i < |r| :: exists k | k in Keys(fields) :: lookup(k) == Some(r[i].fo)
    ensures (forall k | k in Keys(fields) :: lookup(k).Some?) ==> |r| == Length(fields)
    ensures (forall k | k in Keys(fields) :: lookup(k).None?) ==> r == []
  {
    match fields
    case Nil => []
    case Cons(k, v, rest) =>
      assert Keys(fields) == [k] + Keys(rest);
      (match lookup(k)
       case None => []
       case Some(fo) => [KnownField(fo, v)])
      + KnownFields(rest, lookup)
  }

  /** The ACF half of the copy: every known field is written once, under its
      ACF key, with its value translated by its type; fields ACF does not
      know are not copied. */
  function CopyAcfFields(fields: Entries, lookup: FieldLookup, tr: Translator, lang: string): (r: seq<FieldWrite>)
    ensures |r| == |KnownFields(fields, lookup)|
    ensures forall i | 0 <= i < |r| ::
      var kf := KnownFields(fields, lookup)[i];
      && r[i].selector == Name(kf.fo.key)
      && r[i].value == TranslateField(kf.value, kf.fo.ftype, lookup, tr, lang)
      && Reshapes(r[i].value, kf.value, kf.fo.ftype, lookup)
  {
    var kfs := KnownFields(fields, lookup);
    KnownFieldsReshape(kfs, lookup, tr, lang);
    seq(|kfs|, i requires 0 <= i < |kfs| =>
      FieldWrite(Name(kfs[i].fo.key), TranslateField(kfs[i].value, kfs[i].fo.ftype, lookup, tr, lang)))
  }

  lemma KnownFieldsReshape(kfs: seq<KnownField>, lookup: FieldLookup, tr: Translator, lang: string)
    ensures forall i | 0 <= i < |kfs| ::
      Reshapes(TranslateField(kfs[i].value, kfs[i].fo.ftype, lookup, tr, lang), kfs[i].value, kfs[i].fo.ftype, lookup)
  {
    forall i | 0 <= i < |kfs|
      ensures Reshapes(TranslateField(kfs[i].value, kfs[i].fo.ftype, lookup, tr, lang), kfs[i].value, kfs[i].fo.ftype, lookup)
    {
      TranslateFieldReshapes(kfs[i].value, kfs[i].fo.ftype, lookup, tr, lang);
    }
  }

  /** One `add_post_meta` call on the new post. */
  datatype MetaAdd = MetaAdd(key: string, value: Value)

  /** Internal meta (leading `_`) and ACF's own field-key meta (`field_`)
      are not copied. */
  predicate CopiedMetaKey(key: string)
  {
    !StartsWith(key, "_") && !StartsWith(key, "field_")
  }

  /** One meta value: only a non-empty string goes to the service, and a
      failed translation keeps the original. */
  function TranslateMetaValue(mv: Value, tr: Translator, lang: string): (r: Value)
    ensures !mv.Str? || IsEmpty(mv) ==> r == mv
    ensures tr(mv, lang).TranslateFailed? ==> r == mv
    ensures r == mv || (mv.Str? && r == Str(tr(mv, lang).content))
    ensures mv.Str? && !IsEmpty(mv) && tr(mv, lang).Translated? ==> r == Str(tr(mv, lang).content)
  {
    if mv.Str? then TranslateText(mv, tr, lang) else mv
  }

  function MetaAdds(key: string, vs: seq<Value>): (r: seq<MetaAdd>)
    ensures |r| == |vs|
    ensures forall i | 0 <= i < |r| :: r[i] == MetaAdd(key, vs[i])
  {
    seq(|vs|, i requires 0 <= i < |vs| => MetaAdd(key, vs[i]))
  }

  /** The meta of the original post as it would be copied verbatim: every
      value of every copied key, keys in order. */
  function StoredMeta(keys: seq<string>, values: string -> seq<Value>): (r: seq<MetaAdd>)
    ensures forall i | 0 <= i < |r| :: CopiedMetaKey(r[i].key) && r[i].key in keys
  {
    if keys == [] then []
    else
      var key := keys[|keys| - 1];
      StoredMeta(keys[..|keys| - 1], values) + (if CopiedMetaKey(key) then MetaAdds(key, values(key)) else [])
  }

  /** Every value of `ms` passed through the meta translation rule. */
  function TranslateAdds(ms: seq<MetaAdd>, tr: Translator, lang: string): (r: seq<MetaAdd>)
    ensures |r| == |ms|
    ensures forall i | 0 <= i < |r| :: r[i] == MetaAdd(ms[i].key, TranslateMetaValue(ms[i].value, tr, lang))
  {
    seq(|ms|, i requires 0 <= i < |ms| => MetaAdd(ms[i].key, TranslateMetaValue(ms[i].value, tr, lang)))
  }

  lemma TranslateAddsAppend(a: seq<MetaAdd>, b: seq<MetaAdd>, tr: Translator, lang: string)
    ensures TranslateAdds(a + b, tr, lang) == TranslateAdds(a, tr, lang) + TranslateAdds(b, tr, lang)
  {
  }

  /** The meta half of the copy: the verbatim copy with every value passed
      through the meta translation rule, so no value is lost, added or
      reordered, and no internal or `field_` key is ever copied. */
  method CopyPostMeta(keys: seq<string>, values: string -> seq<Value>, tr: Translator, lang: string)
    returns (adds: seq<MetaAdd>)
    ensures adds == TranslateAdds(StoredMeta(keys, values), tr, lang)
  {
    adds := [];
    var i := 0;
    while i < |keys|
      invariant 0 <= i <= |keys|
      invariant adds == TranslateAdds(StoredMeta(keys[..i], values), tr, lang)
    {
      var key := keys[i];
      assert keys[..i + 1][..i] == keys[..i];
      if !(StartsWith(key, "_") || StartsWith(key, "field_")) {
        var vs := values(key);
        var before := adds;
        var j := 0;
        while j < |vs|
          invariant 0 <= j <= |vs|
          invariant adds == before + TranslateAdds(MetaAdds(key, vs[..j]), tr, lang)
        {
          assert MetaAdds(key, vs[..j + 1]) == MetaAdds(key, vs[..j]) + [MetaAdd(key, vs[j])];
          TranslateAddsAppend(MetaAdds(key, vs[..j]), [MetaAdd(key, vs[j])], tr, lang);
          adds := adds + [MetaAdd(key, TranslateMetaValue(vs[j], tr, lang))];
          j := j + 1;
        }
        assert vs[..|vs|] == vs;
        TranslateAddsAppend(StoredMeta(keys[..i], values), MetaAdds(key, vs), tr, lang);
      }
      i := i + 1;
    }
    assert keys[..|keys|] == keys;
  }
}
