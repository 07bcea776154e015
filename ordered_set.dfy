/**
 * A `HashSet<string>` that is only ever added to, as a duplicate-free
 * sequence in insertion order.
 */
module OrderedSet {

  predicate Distinct<T(==)>(s: seq<T>) {
    forall i, j :: 0 <= i < j < |s| ==> s[i] != s[j]
  }

  /** `HashSet.Add`: the element joins the set unless it is already there;
      the elements present before keep their places. */
  function Insert(s: seq<string>, x: string): (r: seq<string>)
    ensures forall y :: y in r <==> y in s || y == x
    ensures |r| == if x in s then |s| else |s| + 1
    ensures r[..|s|] == s
    ensures Distinct(s) ==> Distinct(r)
  {
    if x in s then s else s + [x]
  }

  /** Adding an element twice is the same as adding it once. */
  lemma InsertIdempotent(s: seq<string>, x: string)
    ensures Insert(Insert(s, x), x) == Insert(s, x)
  {
  }
}
