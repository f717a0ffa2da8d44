/** Property-list values, as the kerning display code reads groups.plist and
    kerning.plist (the `plist` crate's `Value`). A dictionary is its entries in
    order; the top level of each file is read into a map sorted by key. */
module Plist {

  datatype Value =
    | Array(items: seq<Value>)
    | Dictionary(entries: seq<(string, Value)>)
    | Boolean(flag: bool)
    | Data(bytes: seq<bv8>)
    | Date(text: string)
    | Real(number: real)
    | Integer(integer: int)
    | String(str: string)
    | Uid(uid: nat)

  /** Lexicographic order on strings, code point by code point (Rust's `Ord` for `String`). */
  predicate LexLess(a: string, b: string)
  {
    if a == [] then b != []
    else if b == [] then false
    else if a[0] != b[0] then a[0] < b[0]
    else LexLess(a[1..], b[1..])
  }

  /** The entries of a `BTreeMap<String, Value>` in iteration order: strictly ascending keys. */
  predicate KeysAscending(d: seq<(string, Value)>)
  {
    forall i, j :: 0 <= i < j < |d| ==> LexLess(d[i].0, d[j].0)
  }

  /** A common prefix does not change the order of two strings. */
  lemma {:induction false} LexLessCommonPrefix(p: string, a: string, b: string)
    ensures LexLess(p + a, p + b) <==> LexLess(a, b)
  {
    if p == [] {
      assert p + a == a && p + b == b;
    } else {
      assert (p + a)[0] == p[0] == (p + b)[0];
      assert (p + a)[1..] == p[1..] + a && (p + b)[1..] == p[1..] + b;
      LexLessCommonPrefix(p[1..], a, b);
    }
  }
}
