/** The ACF integration (`AITranslator\Integration\ACF`): it filters a post's
    raw ACF values down to the translatable leaves, writes translated leaves
    back, and lists the translatable fields of a field group. */
module AcfIntegration {
  import opened Php
  import opened WordPress
  import FieldTranslation

  const AcfInactive := WpError("acf_inactive", "ACF is not active")

  /** Keys skipped outright, besides every `_` key. */
  const SkipFields: set<string> := {"_edit_last", "_edit_lock", "_thumbnail_id"}

  /** The field types whose values are offered for translation. */
  const TranslatableTypes: set<string> := {"text", "textarea", "wysiwyg", "url", "link"}

  /** `should_skip_field`: the skip list or a leading `_`. Every entry of the
      skip list starts with `_`, so the list adds nothing to the prefix test. */
  function ShouldSkipField(k: Key): (r: bool)
    ensures r <==> KeyHasPrefix(k, "_")
  {
    assert k.Name? && k.s in SkipFields ==> k.s[..1] == "_" by {
      if k.Name? && k.s in SkipFields {
        assert k.s == "_edit_last" || k.s == "_edit_lock" || k.s == "_thumbnail_id";
      }
    }
    (k.Name? && k.s in SkipFields) || KeyHasPrefix(k, "_")
  }

  /** `should_skip_field` under PHP 7's loose `in_array`: an integer key is
      compared with each listed name as a number, and none of the names is
      numeric, so each reads as 0 and the key 0 matches the list. */
  function ShouldSkipFieldPhp7(k: Key): (r: bool)
    ensures r <==> ShouldSkipField(k) || k == Index(0)
  {
    (k.Name? && k.s in SkipFields) || (k.Index? && k.n == 0) || KeyHasPrefix(k, "_")
  }

  /** `is_translatable_field`: a field object exists and its type is one of
      the translatable types. Measured against the field translator of the
      handler: the types it translates as text are all translatable here too,
      `url` and `link` only here, and no reference type and no container
      (repeater, flexible content, group) is ever translatable. */
  function IsTranslatableField(fo: Option<FieldObject>): (r: bool)
    ensures r <==> fo.Some? && (fo.value.ftype in TextTypes || fo.value.ftype == "url" || fo.value.ftype == "link")
    ensures fo.Some? && fo.value.ftype in {"url", "link"} ==> r && fo.value.ftype !in FieldTranslation.WalkedTypes
    ensures fo.Some? && fo.value.ftype in FieldTranslation.ReferenceTypes ==> !r
    ensures fo.Some? && fo.value.ftype in FieldTranslation.WalkedTypes - TextTypes ==> !r
  {
    fo.Some? && fo.value.ftype in TranslatableTypes
  }

  // ---------------------------------------------------------------------
  // process_fields

  /** `isset($value[0]) && is_array($value[0])`: the shape read as repeater
      rows. */
  predicate IsRows(v: Value)
  {
    v.Arr? && Isset(v.entries, Index(0)) && At(v.entries, Index(0)).Arr?
  }

  /** `['value' => …, 'type' => …, 'label' => …]` for a kept scalar leaf. */
  function LeafRecord(v: Value, fo: FieldObject): Value
  {
    Arr(Cons(Name("value"), v, Cons(Name("type"), Str(fo.ftype), Cons(Name("label"), Str(fo.labelText), Nil))))
  }

  /** Every value stored in the array is itself an array. */
  predicate AllArrays(es: Entries)
  {
    match es
    case Nil => true
    case Cons(_, v, rest) => v.Arr? && AllArrays(rest)
  }

  /** The processed fields: skipped keys are dropped, repeater rows and
      nested groups are processed again under the same key, and a scalar is
      kept, as a leaf record, only when its field is translatable. */
  function ProcessFields(fields: Entries, lookup: FieldLookup): (r: Entries)
    ensures forall k | k in Keys(r) :: k in Keys(fields) && !ShouldSkipField(k)
    ensures AllArrays(r)
    decreases fields
  {
    match fields
    case Nil => Nil
    case Cons(k, v, rest) =>
      var tail := ProcessFields(rest, lookup);
      if ShouldSkipField(k) then tail
      else if v.Arr? then
        if IsRows(v) then Cons(k, Arr(ProcessRows(v.entries, lookup)), tail)
        else Cons(k, Arr(ProcessFields(v.entries, lookup)), tail)
      else if IsTranslatableField(lookup(k)) then Cons(k, LeafRecord(v, lookup(k).value), tail)
      else tail
  }

  /** Each row processed as a field list under its own index; a row that is
      not an array iterates as nothing. */
  function ProcessRows(rows: Entries, lookup: FieldLookup): (r: Entries)
    ensures Keys(r) == Keys(rows)
    ensures AllArrays(r)
    decreases rows
  {
    match rows
    case Nil => Nil
    case Cons(i, row, rest) =>
      Cons(i, Arr(if row.Arr? then ProcessFields(row.entries, lookup) else Nil), ProcessRows(rest, lookup))
  }

  /** What processing does with the entry under one key of a PHP array (keys
      unique): skipped keys vanish, arrays are processed as rows or as a
      group, and a scalar stays, as its leaf record, exactly when
      translatable. */
  lemma {:induction false} ProcessFieldsEntry(fields: Entries, lookup: FieldLookup, k: Key)
    requires UniqueKeys(fields)
    ensures ShouldSkipField(k) || k !in Keys(fields) ==> Get(ProcessFields(fields, lookup), k).None?
    ensures var v := At(fields, k);
      k in Keys(fields) && !ShouldSkipField(k) ==>
        && (IsRows(v) ==> Get(ProcessFields(fields, lookup), k) == Some(Arr(ProcessRows(v.entries, lookup))))
        && (v.Arr? && !IsRows(v) ==> Get(ProcessFields(fields, lookup), k) == Some(Arr(ProcessFields(v.entries, lookup))))
        && (!v.Arr? ==>
              (Get(ProcessFields(fields, lookup), k).Some? <==> IsTranslatableField(lookup(k))))
        && (!v.Arr? && IsTranslatableField(lookup(k)) ==>
              Get(ProcessFields(fields, lookup), k) == Some(LeafRecord(v, lookup(k).value)))
    decreases fields
  {
    match fields
    case Nil =>
    case Cons(k', v', rest) =>
      ProcessFieldsEntry(rest, lookup, k);
  }

  /** `get_fields`: nothing while ACF is inactive or the post has no ACF
      values, the processed values otherwise. */
  function GetFields(active: bool, fields: Entries, lookup: FieldLookup): (r: Entries)
    ensures !active || fields == Nil ==> r == Nil
    ensures forall k | k in Keys(r) :: k in Keys(fields) && !KeyHasPrefix(k, "_")
  {
    if !active || fields == Nil then Nil
    else
      ProcessFields(fields, lookup)
  }

  // ---------------------------------------------------------------------
  // The leaves a processed tree stands for.

  /** The translatable, non-null scalar leaves of a raw ACF tree, each with
      the key it is stored under, in tree order: what writing back a
      processed tree is meant to write. */
  function AcfLeaves(fields: Entries, lookup: FieldLookup): seq<FieldWrite>
    decreases fields
  {
    match fields
    case Nil => []
    case Cons(k, v, rest) =>
      var here :=
        if ShouldSkipField(k) then []
        else if IsRows(v) then RowLeaves(v.entries, lookup)
        else if v.Arr? then AcfLeaves(v.entries, lookup)
        else if IsTranslatableField(lookup(k)) && v != Null then [FieldWrite(k, v)]
        else [];
      here + AcfLeaves(rest, lookup)
  }

  function RowLeaves(rows: Entries, lookup: FieldLookup): seq<FieldWrite>
    decreases rows
  {
    match rows
    case Nil => []
    case Cons(_, row, rest) =>
      (if row.Arr? then AcfLeaves(row.entries, lookup) else []) + RowLeaves(rest, lookup)
  }

  // ---------------------------------------------------------------------
  // update_fields as written: dispatch on the shape of each value.

  /** The `update_field` calls of `update_fields` on a processed tree: rows
      when element 0 is an array, a write when `value` is set, a recursive
      descent into any other array, nothing for a scalar. */
  function UpdateFieldsAsWritten(fields: Entries): (r: seq<FieldWrite>)
    ensures forall i | 0 <= i < |r| :: r[i].value != Null
    decreases EntriesSize(fields), 1
  {
    match fields
    case Nil => []
    case Cons(k, v, rest) => UpdateEntryAsWritten(k, v) + UpdateFieldsAsWritten(rest)
  }

  function UpdateEntryAsWritten(k: Key, v: Value): (r: seq<FieldWrite>)
    ensures forall i | 0 <= i < |r| :: r[i].value != Null
    decreases ValueSize(v), 0
  {
    if IsRows(v) then UpdateRowsAsWritten(v.entries)
    else if v.Arr? && Isset(v.entries, Name("value")) then [FieldWrite(k, At(v.entries, Name("value")))]
    else if v.Arr? then UpdateFieldsAsWritten(v.entries)
    else []
  }

  function UpdateRowsAsWritten(rows: Entries): (r: seq<FieldWrite>)
    ensures forall i | 0 <= i < |r| :: r[i].value != Null
    decreases EntriesSize(rows), 2
  {
    match rows
    case Nil => []
    case Cons(_, row, rest) =>
      (if row.Arr? then
         assert EntriesSize(row.entries) < EntriesSize(rows);
         UpdateFieldsAsWritten(row.entries)
       else []) + UpdateRowsAsWritten(rest)
  }

  /** No group of the tree has a sub-field stored under `value` or under
      index 0: the keys the shape test of `update_fields` reads. */
  predicate Distinguishable(fields: Entries)
    decreases fields
  {
    match fields
    case Nil => true
    case Cons(k, v, rest) =>
      && Distinguishable(rest)
      && (ShouldSkipField(k) || !v.Arr? ||
          if IsRows(v) then RowsDistinguishable(v.entries)
          else Name("value") !in Keys(v.entries) && Index(0) !in Keys(v.entries) && Distinguishable(v.entries))
  }

  predicate RowsDistinguishable(rows: Entries)
    decreases rows
  {
    match rows
    case Nil => true
    case Cons(_, row, rest) => (!row.Arr? || Distinguishable(row.entries)) && RowsDistinguishable(rest)
  }

  /** How `update_fields` treats a leaf record: one write of the value when
      it is not null, nothing otherwise. */
  lemma LeafRecordAsWritten(k: Key, v: Value, fo: FieldObject)
    requires !v.Arr?
    ensures UpdateEntryAsWritten(k, LeafRecord(v, fo)) == if v != Null then [FieldWrite(k, v)] else []
  {
    var es := LeafRecord(v, fo).entries;
    assert Get(es.rest.rest, Index(0)).None?;
    assert Get(es, Index(0)).None?;
    assert At(es, Name("value")) == v;
    if v == Null {
      assert UpdateEntryAsWritten(Name("label"), Str(fo.labelText)) == [];
      assert UpdateFieldsAsWritten(es.rest.rest) == [];
      assert UpdateEntryAsWritten(Name("type"), Str(fo.ftype)) == [];
      assert UpdateFieldsAsWritten(es.rest) == [];
      assert UpdateEntryAsWritten(Name("value"), Null) == [];
      assert UpdateFieldsAsWritten(es) == [];
    }
  }

  /** Processed rows are read back as rows. */
  lemma {:induction false} ProcessedRowsAreRows(v: Value, lookup: FieldLookup)
    requires IsRows(v)
    ensures IsRows(Arr(ProcessRows(v.entries, lookup)))
  {
    ProcessRowsAt(v.entries, lookup, Index(0));
  }

  lemma {:induction false} ProcessRowsAt(rows: Entries, lookup: FieldLookup, i: Key)
    requires Get(rows, i).Some?
    ensures Get(ProcessRows(rows, lookup), i).Some? && Get(ProcessRows(rows, lookup), i).value.Arr?
    decreases rows
  {
    match rows
    case Nil =>
    case Cons(j, row, rest) =>
      if j != i {
        ProcessRowsAt(rest, lookup, i);
      }
  }

  /** On a tree whose groups avoid the keys `value` and 0, writing back the
      processed tree writes exactly the translatable non-null leaves, each
      to its own key, in order. */
  lemma {:induction false} AsWrittenRoundTrip(fields: Entries, lookup: FieldLookup)
    requires Distinguishable(fields)
    ensures UpdateFieldsAsWritten(ProcessFields(fields, lookup)) == AcfLeaves(fields, lookup)
    decreases fields
  {
    match fields
    case Nil =>
    case Cons(k, v, rest) =>
      AsWrittenRoundTrip(rest, lookup);
      if !ShouldSkipField(k) {
        if IsRows(v) {
          AsWrittenRoundTripRows(v.entries, lookup);
          ProcessedRowsAreRows(v, lookup);
        } else if v.Arr? {
          AsWrittenRoundTrip(v.entries, lookup);
          var p := ProcessFields(v.entries, lookup);
          assert Index(0) !in Keys(p) && Name("value") !in Keys(p);
          assert !IsRows(Arr(p)) && !Isset(p, Name("value"));
        } else if IsTranslatableField(lookup(k)) {
          LeafRecordAsWritten(k, v, lookup(k).value);
        }
      }
  }

  lemma {:induction false} AsWrittenRoundTripRows(rows: Entries, lookup: FieldLookup)
    requires RowsDistinguishable(rows)
    ensures UpdateRowsAsWritten(ProcessRows(rows, lookup)) == RowLeaves(rows, lookup)
    decreases rows
  {
    match rows
    case Nil =>
    case Cons(_, row, rest) =>
      AsWrittenRoundTripRows(rest, lookup);
      if row.Arr? {
        AsWrittenRoundTrip(row.entries, lookup);
      }
  }

  /** A group holding a text sub-field named `value`. */
  function ValueGroup(): Entries
  {
    Cons(Name("details"), Arr(Cons(Name("value"), Str("Hello"), Nil)), Nil)
  }

  function ValueLookup(): FieldLookup
  {
    k => if k == Name("value") then Some(FieldObject("field_1", "text", "Value")) else None
  }

  /** On that group the shape test mistakes the processed group for a leaf
      record: `update_field` is called on the group's key with the whole
      record of the sub-field, and the sub-field itself is never written. */
  lemma ValueSubFieldMisread()
    ensures AcfLeaves(ValueGroup(), ValueLookup()) == [FieldWrite(Name("value"), Str("Hello"))]
    ensures UpdateFieldsAsWritten(ProcessFields(ValueGroup(), ValueLookup())) ==
      [FieldWrite(Name("details"), LeafRecord(Str("Hello"), FieldObject("field_1", "text", "Value")))]
  {
    var inner := Cons(Name("value"), Str("Hello"), Nil);
    var rec := LeafRecord(Str("Hello"), FieldObject("field_1", "text", "Value"));
    assert "details"[0] != '_' && "value"[0] != '_';
    assert !IsRows(Arr(inner));
    assert ProcessFields(inner, ValueLookup()) == Cons(Name("value"), rec, Nil);
    assert !IsRows(Arr(Cons(Name("value"), rec, Nil)));
    assert Isset(Cons(Name("value"), rec, Nil), Name("value"));
  }

  // ---------------------------------------------------------------------
  // update_fields corrected: a leaf record is recognised by its string
  // `type`, which no processed group or row list can hold.

  /** A processed leaf record: an array whose `type` is a string. */
  predicate IsLeafRecord(v: Value)
  {
    v.Arr? && At(v.entries, Name("type")).Str?
  }

  function UpdateFields(fields: Entries): (r: seq<FieldWrite>)
    ensures forall i | 0 <= i < |r| :: r[i].value != Null
    decreases EntriesSize(fields), 1
  {
    match fields
    case Nil => []
    case Cons(k, v, rest) => UpdateEntry(k, v) + UpdateFields(rest)
  }

  function UpdateEntry(k: Key, v: Value): (r: seq<FieldWrite>)
    ensures forall i | 0 <= i < |r| :: r[i].value != Null
    decreases ValueSize(v), 0
  {
    if IsLeafRecord(v) then
      if Isset(v.entries, Name("value")) then [FieldWrite(k, At(v.entries, Name("value")))] else []
    else if v.Arr? then UpdateFields(v.entries)
    else []
  }

  lemma {:induction false} AllArraysHaveNoLeafType(es: Entries)
    requires AllArrays(es)
    ensures !At(es, Name("type")).Str?
    decreases es
  {
    match es
    case Nil =>
    case Cons(_, _, rest) => AllArraysHaveNoLeafType(rest);
  }

  /** Writing back any processed tree writes exactly its translatable
      non-null leaves, each to its own key, in order, whatever the sub-field
      names. */
  lemma {:induction false} ProcessThenUpdate(fields: Entries, lookup: FieldLookup)
    ensures UpdateFields(ProcessFields(fields, lookup)) == AcfLeaves(fields, lookup)
    decreases fields
  {
    match fields
    case Nil =>
    case Cons(k, v, rest) =>
      ProcessThenUpdate(rest, lookup);
      if !ShouldSkipField(k) {
        if IsRows(v) {
          var p := ProcessRows(v.entries, lookup);
          ProcessThenUpdateRows(v.entries, lookup);
          AllArraysHaveNoLeafType(p);
          assert UpdateEntry(k, Arr(p)) == UpdateFields(p);
        } else if v.Arr? {
          var p := ProcessFields(v.entries, lookup);
          ProcessThenUpdate(v.entries, lookup);
          AllArraysHaveNoLeafType(p);
          assert UpdateEntry(k, Arr(p)) == UpdateFields(p);
        } else if IsTranslatableField(lookup(k)) {
          var es := LeafRecord(v, lookup(k).value).entries;
          assert Get(es.rest, Name("type")) == Some(Str(lookup(k).value.ftype));
          assert At(es, Name("value")) == v;
        }
      }
  }

  /** Processed rows are written back row by row. */
  lemma {:induction false} ProcessThenUpdateRows(rows: Entries, lookup: FieldLookup)
    ensures UpdateFields(ProcessRows(rows, lookup)) == RowLeaves(rows, lookup)
    decreases rows
  {
    match rows
    case Nil =>
    case Cons(i, row, rest) =>
      ProcessThenUpdateRows(rest, lookup);
      var p := if row.Arr? then ProcessFields(row.entries, lookup) else Nil;
      if row.Arr? {
        ProcessThenUpdate(row.entries, lookup);
      }
      AllArraysHaveNoLeafType(p);
      assert UpdateEntry(i, Arr(p)) == UpdateFields(p);
  }

  /** `update_fields`: `acf_inactive` while ACF is inactive, otherwise the
      writes for the translated tree. */
  function UpdateFieldsChecked(active: bool, translated: Entries): (r: WpResult<seq<FieldWrite>>)
    ensures !active <==> r == Err(AcfInactive)
    ensures r.Ok? ==> forall i | 0 <= i < |r.value| :: r.value[i].value != Null
  {
    if !active then Err(AcfInactive) else Ok(UpdateFields(translated))
  }

  /** `update_fields` as written: the same check, then the shape-dispatching
      walk. */
  function UpdateFieldsCheckedAsWritten(active: bool, translated: Entries): (r: WpResult<seq<FieldWrite>>)
    ensures !active <==> r == Err(AcfInactive)
    ensures r.Ok? ==> forall i | 0 <= i < |r.value| :: r.value[i].value != Null
  {
    if !active then Err(AcfInactive) else Ok(UpdateFieldsAsWritten(translated))
  }

  /** The two entry points agree on every processed tree whose groups avoid
      the keys `value` and 0, and disagree on the group with a `value`
      sub-field. */
  lemma CheckedAgreeUnlessMisread(fields: Entries, lookup: FieldLookup, active: bool)
    ensures Distinguishable(fields) ==>
      UpdateFieldsCheckedAsWritten(active, ProcessFields(fields, lookup)) == UpdateFieldsChecked(active, ProcessFields(fields, lookup))
    ensures UpdateFieldsCheckedAsWritten(true, ProcessFields(ValueGroup(), ValueLookup())) !=
      UpdateFieldsChecked(true, ProcessFields(ValueGroup(), ValueLookup()))
  {
    if Distinguishable(fields) {
      AsWrittenRoundTrip(fields, lookup);
      ProcessThenUpdate(fields, lookup);
    }
    ValueSubFieldMisread();
    ProcessThenUpdate(ValueGroup(), ValueLookup());
  }

  // ---------------------------------------------------------------------
  // get_translatable_fields

  /** A field definition of a field group, with its sub-fields. */
  datatype FieldDef = FieldDef(key: string, name: string, labelText: string, ftype: string, subFields: seq<FieldDef>)

  /** An entry of the listing: a translatable field, or a repeater with its
      translatable sub-fields. */
  datatype Listed = Listed(key: string, name: string, labelText: string, ftype: string, subFields: seq<Listed>)

  /** A definition holding something to translate: a translatable field,
      or a repeater one of whose sub-fields holds something. */
  predicate Translatable(d: FieldDef)
    decreases d
  {
    d.ftype in TranslatableTypes ||
    (d.ftype == Repeater && exists i | 0 <= i < |d.subFields| :: Translatable(d.subFields[i]))
  }

  predicate HasTranslatable(defs: seq<FieldDef>)
  {
    exists i | 0 <= i < |defs| :: Translatable(defs[i])
  }

  /** `get_translatable_fields`: translatable fields as they are, repeaters
      only when something in them is translatable, nothing else. */
  function GetTranslatableFields(defs: seq<FieldDef>): (r: seq<Listed>)
    ensures |r| <= |defs|
    ensures forall i | 0 <= i < |r| ::
      r[i].ftype in TranslatableTypes || (r[i].ftype == Repeater && r[i].subFields != [])
    ensures forall i | 0 <= i < |r| :: exists d | d in defs ::
      r[i].key == d.key && r[i].name == d.name && r[i].labelText == d.labelText && r[i].ftype == d.ftype
    decreases defs
  {
    if defs == [] then []
    else
      var d := defs[0];
      var tail := GetTranslatableFields(defs[1..]);
      if d.ftype in TranslatableTypes then [Listed(d.key, d.name, d.labelText, d.ftype, [])] + tail
      else if d.ftype == Repeater then
        var subs := GetTranslatableFields(d.subFields);
        if subs != [] then [Listed(d.key, d.name, d.labelText, Repeater, subs)] + tail else tail
      else tail
  }

  /** The listing is empty exactly when nothing in the definitions is
      translatable, at any depth. */
  lemma {:induction false} ListedIffTranslatable(defs: seq<FieldDef>)
    ensures GetTranslatableFields(defs) != [] <==> HasTranslatable(defs)
    decreases defs
  {
    if defs != [] {
      var d := defs[0];
      ListedIffTranslatable(defs[1..]);
      if d.ftype == Repeater {
        ListedIffTranslatable(d.subFields);
      }
      if HasTranslatable(defs) && !Translatable(d) {
        var i :| 0 <= i < |defs| && Translatable(defs[i]);
        assert defs[1..][i - 1] == defs[i];
      }
      if HasTranslatable(defs[1..]) {
        var i :| 0 <= i < |defs[1..]| && Translatable(defs[1..][i]);
        assert defs[i + 1] == defs[1..][i];
      }
      if Translatable(d) {
        assert Translatable(defs[0]);
      }
    }
  }

  /** How one translatable definition is listed: its key, name, label and
      type, and for a repeater the listing of its own sub-fields. */
  function ListingOf(d: FieldDef): Listed
  {
    Listed(d.key, d.name, d.labelText, d.ftype,
           if d.ftype == Repeater then GetTranslatableFields(d.subFields) else [])
  }

  /** The translatable definitions, in order: the reference selection. */
  function TranslatableDefs(defs: seq<FieldDef>): (r: seq<FieldDef>)
    ensures |r| <= |defs|
  {
    if defs == [] then []
    else if Translatable(defs[0]) then [defs[0]] + TranslatableDefs(defs[1..])
    else TranslatableDefs(defs[1..])
  }

  /** The listing of each of the given definitions, in order. */
  function ListingsOf(defs: seq<FieldDef>): (r: seq<Listed>)
    ensures |r| == |defs|
  {
    if defs == [] then [] else [ListingOf(defs[0])] + ListingsOf(defs[1..])
  }

  lemma {:induction false} ListingsOfAt(defs: seq<FieldDef>, j: int)
    requires 0 <= j < |defs|
    ensures ListingsOf(defs)[j] == ListingOf(defs[j])
    decreases defs
  {
    if j > 0 {
      ListingsOfAt(defs[1..], j - 1);
    }
  }

  /** The reference selection holds exactly the translatable definitions. */
  lemma {:induction false} TranslatableDefsMembers(defs: seq<FieldDef>)
    ensures forall d :: d in TranslatableDefs(defs) <==> d in defs && Translatable(d)
    decreases defs
  {
    if defs != [] {
      TranslatableDefsMembers(defs[1..]);
      assert defs == [defs[0]] + defs[1..];
    }
  }

  /** The listing is the reference: the listing of every translatable
      definition, in the order of the definitions. */
  lemma {:induction false} ListedIsReference(defs: seq<FieldDef>)
    ensures GetTranslatableFields(defs) == ListingsOf(TranslatableDefs(defs))
    decreases defs
  {
    if defs != [] {
      ListedIsReference(defs[1..]);
      SelectionCons(defs);
      ListedCons(defs);
      var rest := TranslatableDefs(defs[1..]);
      if Translatable(defs[0]) {
        assert ([defs[0]] + rest)[1..] == rest;
      }
    }
  }

  /** One step of the reference selection. */
  lemma SelectionCons(defs: seq<FieldDef>)
    requires defs != []
    ensures TranslatableDefs(defs) ==
      (if Translatable(defs[0]) then [defs[0]] + TranslatableDefs(defs[1..]) else TranslatableDefs(defs[1..]))
  {
  }

  /** One step of the listing: the first definition is listed exactly when
      it is translatable, and then as its ListingOf. */
  lemma ListedCons(defs: seq<FieldDef>)
    requires defs != []
    ensures GetTranslatableFields(defs) ==
      (if Translatable(defs[0]) then [ListingOf(defs[0])] + GetTranslatableFields(defs[1..])
       else GetTranslatableFields(defs[1..]))
  {
    var d := defs[0];
    if d.ftype == Repeater {
      ListedIffTranslatable(d.subFields);
      assert Translatable(d) <==> HasTranslatable(d.subFields);
    } else {
      assert Translatable(d) <==> d.ftype in TranslatableTypes;
    }
  }

  /** Every entry of the listing is the listing of a translatable
      definition. */
  lemma ListedAreDefinitions(defs: seq<FieldDef>)
    ensures forall i | 0 <= i < |GetTranslatableFields(defs)| ::
      exists d | d in defs :: Translatable(d) && GetTranslatableFields(defs)[i] == ListingOf(d)
  {
    var r := GetTranslatableFields(defs);
    var sel := TranslatableDefs(defs);
    ListedIsReference(defs);
    TranslatableDefsMembers(defs);
    forall i | 0 <= i < |r|
      ensures exists d | d in defs :: Translatable(d) && r[i] == ListingOf(d)
    {
      ListingsOfAt(sel, i);
      assert sel[i] in sel;
    }
  }

  /** Every translatable definition is listed: a repeater exactly when
      something in its sub-fields is translatable. */
  lemma DefinitionsAreListed(defs: seq<FieldDef>)
    ensures forall d | d in defs && Translatable(d) ::
      exists i | 0 <= i < |GetTranslatableFields(defs)| :: GetTranslatableFields(defs)[i] == ListingOf(d)
  {
    var r := GetTranslatableFields(defs);
    var sel := TranslatableDefs(defs);
    ListedIsReference(defs);
    TranslatableDefsMembers(defs);
    forall d | d in defs && Translatable(d)
      ensures exists i | 0 <= i < |r| :: r[i] == ListingOf(d)
    {
      var j :| 0 <= j < |sel| && sel[j] == d;
      ListingsOfAt(sel, j);
      assert r[j] == ListingOf(d);
    }
  }

  /** A single definition is listed exactly when it is translatable: a
      repeater exactly when one of its sub-fields, at any depth, is. */
  lemma ListedIffTranslatableOne(d: FieldDef)
    ensures GetTranslatableFields([d]) != [] <==> Translatable(d)
  {
    ListedIffTranslatable([d]);
    assert [d][0] == d;
  }
}
