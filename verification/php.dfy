/** PHP values as the plugin sees them: scalars, opaque objects and ordered
    arrays. An array is an ordered list of key/value entries; integer keys
    (list indices, repeater row numbers) and string keys (field names) are
    kept apart, as PHP keeps them apart after key normalisation. */
module Php {

  datatype Option<+T> = None | Some(value: T)

  datatype Key = Index(n: int) | Name(s: string)

  /** `Opaque` stands for any object or resource (a WP_Post, a WP_Error,
      ...): the walkers never look inside it. */
  datatype Value =
    | Null
    | Bool(b: bool)
    | Int(i: int)
    | Str(s: string)
    | Opaque(handle: int)
    | Arr(entries: Entries)

  /** An ordered PHP array, first entry first. */
  datatype Entries = Nil | Cons(key: Key, val: Value, rest: Entries)

  /** PHP's `empty()`: null, false, 0, "", "0" and the empty array. */
  predicate IsEmpty(v: Value)
  {
    match v
    case Null => true
    case Bool(b) => !b
    case Int(i) => i == 0
    case Str(s) => s == "" || s == "0"
    case Opaque(_) => false
    case Arr(es) => es == Nil
  }

  function Keys(es: Entries): (ks: seq<Key>)
    ensures |ks| == Length(es)
  {
    match es
    case Nil => []
    case Cons(k, _, rest) => [k] + Keys(rest)
  }

  function Length(es: Entries): nat
  {
    match es
    case Nil => 0
    case Cons(_, _, rest) => 1 + Length(rest)
  }

  /** `$a[$k]` on an array: the value stored under `k`, if any. */
  function Get(es: Entries, k: Key): (r: Option<Value>)
    ensures r.Some? <==> k in Keys(es)
  {
    match es
    case Nil => None
    case Cons(k', v, rest) => if k' == k then Some(v) else Get(rest, k)
  }

  /** `$a[$k]`, reading null when the key is missing. */
  function At(es: Entries, k: Key): Value
  {
    match Get(es, k)
    case Some(v) => v
    case None => Null
  }

  /** `isset($a[$k])`: the key is present and its value is not null. */
  predicate Isset(es: Entries, k: Key)
  {
    At(es, k) != Null
  }

  /** The entries of an array; anything else iterates as nothing (PHP's
      `foreach` over a non-array warns and runs no iteration). */
  function EntriesOf(v: Value): Entries
  {
    if v.Arr? then v.entries else Nil
  }

  /** PHP arrays never hold the same key twice. */
  predicate UniqueKeys(es: Entries)
  {
    match es
    case Nil => true
    case Cons(k, _, rest) => k !in Keys(rest) && UniqueKeys(rest)
  }

  predicate StartsWith(s: string, prefix: string)
  {
    |prefix| <= |s| && s[..|prefix|] == prefix
  }

  /** `strpos($key, $prefix) === 0` on an array key. An integer key prints
      as digits with an optional minus sign, so it never starts with the
      prefixes the plugin tests ("_" and "field_"). */
  predicate KeyHasPrefix(k: Key, prefix: string)
  {
    k.Name? && StartsWith(k.s, prefix)
  }

  /** Node counts, used to show that walking into a sub-array terminates. */
  function ValueSize(v: Value): nat
  {
    match v
    case Arr(es) => 1 + EntriesSize(es)
    case _ => 1
  }

  function EntriesSize(es: Entries): nat
  {
    match es
    case Nil => 0
    case Cons(_, v, rest) => 1 + ValueSize(v) + EntriesSize(rest)
  }

  /** The entries of the array stored under `k` (none if there is no array
      there): never larger than the array it was read from. */
  function SubEntries(es: Entries, k: Key): (r: Entries)
    ensures EntriesSize(r) <= EntriesSize(es)
  {
    match es
    case Nil => Nil
    case Cons(k', v, rest) => if k' == k then EntriesOf(v) else SubEntries(rest, k)
  }
}
