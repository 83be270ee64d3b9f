/** The settings validator (`AIT_Settings_Manager::validate_settings`): every
    submitted option is sanitised according to its key, and nothing is
    added or removed. */
module Settings {
  import opened Php

  const BatchSizeKey: Key := Name("ait_batch_size")
  const ListKeys: set<Key> := {Name("ait_target_languages"), Name("ait_post_types")}
  const MinBatchSize := 1
  const MaxBatchSize := 20

  /** WordPress's `sanitize_text_field`, always producing a string. */
  type Sanitizer = Value -> string

  /** `(int) $value` for a value that is not already an integer (numeric
      prefixes of strings, booleans, ...). */
  type IntCast = Value -> int

  /** `absint($value)`: the magnitude of the value read as an integer. */
  function AbsInt(v: Value, toInt: IntCast): (r: nat)
    ensures v.Int? ==> r == if v.i < 0 then -v.i else v.i
  {
    var i := if v.Int? then v.i else toInt(v);
    if i < 0 then -i else i
  }

  /** The batch size: `absint`, then raised to 1 or lowered to 20. */
  function ClampBatchSize(v: Value, toInt: IntCast): (r: int)
    ensures MinBatchSize <= r <= MaxBatchSize
    ensures v.Int? && MinBatchSize <= v.i <= MaxBatchSize ==> r == v.i
    ensures MinBatchSize <= AbsInt(v, toInt) <= MaxBatchSize ==> r == AbsInt(v, toInt)
    ensures AbsInt(v, toInt) < MinBatchSize ==> r == MinBatchSize
    ensures AbsInt(v, toInt) > MaxBatchSize ==> r == MaxBatchSize
  {
    var n := AbsInt(v, toInt);
    if n < MinBatchSize then MinBatchSize else if n > MaxBatchSize then MaxBatchSize else n
  }

  /** `(array) $value`: null becomes the empty array, an array stays as it
      is, anything else becomes a one-element list. */
  function AsArray(v: Value): (r: Entries)
    ensures v.Null? ==> r == Nil
    ensures !v.Null? && !v.Arr? ==> r == Cons(Index(0), v, Nil)
  {
    match v
    case Null => Nil
    case Arr(es) => es
    case _ => Cons(Index(0), v, Nil)
  }

  /** `array_map('sanitize_text_field', …)` on one array: the keys stay, each
      value is sanitised. */
  function SanitizeAll(es: Entries, sanitize: Sanitizer): (r: Entries)
    ensures Keys(r) == Keys(es)
  {
    match es
    case Nil => Nil
    case Cons(k, v, rest) => Cons(k, Str(sanitize(v)), SanitizeAll(rest, sanitize))
  }

  /** Each element of the sanitised array is the sanitised element under the
      same key. */
  lemma {:induction false} SanitizeAllAt(es: Entries, sanitize: Sanitizer, k: Key)
    ensures Get(SanitizeAll(es, sanitize), k).Some? <==> Get(es, k).Some?
    ensures Get(es, k).Some? ==> Get(SanitizeAll(es, sanitize), k) == Some(Str(sanitize(Get(es, k).value)))
  {
    match es
    case Nil =>
    case Cons(k', v, rest) =>
      if k' != k {
        SanitizeAllAt(rest, sanitize, k);
      }
  }

  /** The validated value stored under one key. */
  function ValidateValue(k: Key, v: Value, sanitize: Sanitizer, toInt: IntCast): (r: Value)
    ensures k == BatchSizeKey ==> r.Int? && MinBatchSize <= r.i <= MaxBatchSize
    ensures k == BatchSizeKey && v.Int? && MinBatchSize <= v.i <= MaxBatchSize ==> r == v
    ensures k == BatchSizeKey && AbsInt(v, toInt) < MinBatchSize ==> r == Int(MinBatchSize)
    ensures k == BatchSizeKey && AbsInt(v, toInt) > MaxBatchSize ==> r == Int(MaxBatchSize)
    ensures k == BatchSizeKey && MinBatchSize <= AbsInt(v, toInt) <= MaxBatchSize ==> r == Int(AbsInt(v, toInt))
    ensures k in ListKeys ==> r.Arr? && Keys(r.entries) == Keys(AsArray(v))
    ensures k in ListKeys && v.Null? ==> r == Arr(Nil)
    ensures k in ListKeys && !v.Null? && !v.Arr? ==> r == Arr(Cons(Index(0), Str(sanitize(v)), Nil))
    ensures k in ListKeys && v.Arr? ==> Length(r.entries) == Length(v.entries)
    ensures k !in ListKeys && k != BatchSizeKey ==> r == Str(sanitize(v))
  {
    if k == BatchSizeKey then Int(ClampBatchSize(v, toInt))
    else if k in ListKeys then Arr(SanitizeAll(AsArray(v), sanitize))
    else Str(sanitize(v))
  }

  /** `validate_settings`: the submitted options, each validated by key. */
  function ValidateSettings(input: Entries, sanitize: Sanitizer, toInt: IntCast): (r: Entries)
    ensures Keys(r) == Keys(input)
  {
    match input
    case Nil => Nil
    case Cons(k, v, rest) => Cons(k, ValidateValue(k, v, sanitize, toInt), ValidateSettings(rest, sanitize, toInt))
  }

  /** Under every submitted key the output holds that key's validated
      value, and under no other key anything. */
  lemma {:induction false} ValidateSettingsAt(input: Entries, sanitize: Sanitizer, toInt: IntCast, k: Key)
    ensures Get(ValidateSettings(input, sanitize, toInt), k).Some? <==> Get(input, k).Some?
    ensures Get(input, k).Some? ==>
      Get(ValidateSettings(input, sanitize, toInt), k) == Some(ValidateValue(k, Get(input, k).value, sanitize, toInt))
  {
    match input
    case Nil =>
    case Cons(k', v, rest) =>
      if k' != k {
        ValidateSettingsAt(rest, sanitize, toInt, k);
      }
  }

  /** Validating validated settings changes nothing, when sanitising a
      sanitised string gives it back. */
  lemma {:induction false} ValidateIsIdempotent(input: Entries, sanitize: Sanitizer, toInt: IntCast)
    requires forall v :: sanitize(Str(sanitize(v))) == sanitize(v)
    ensures ValidateSettings(ValidateSettings(input, sanitize, toInt), sanitize, toInt) ==
            ValidateSettings(input, sanitize, toInt)
  {
    match input
    case Nil =>
    case Cons(k, v, rest) =>
      ValidateIsIdempotent(rest, sanitize, toInt);
      var once := ValidateValue(k, v, sanitize, toInt);
      if k in ListKeys && k != BatchSizeKey {
        SanitizeAllIdempotent(AsArray(v), sanitize);
      }
  }

  lemma {:induction false} SanitizeAllIdempotent(es: Entries, sanitize: Sanitizer)
    requires forall v :: sanitize(Str(sanitize(v))) == sanitize(v)
    ensures SanitizeAll(SanitizeAll(es, sanitize), sanitize) == SanitizeAll(es, sanitize)
  {
    match es
    case Nil =>
    case Cons(k, v, rest) => SanitizeAllIdempotent(rest, sanitize);
  }
}
