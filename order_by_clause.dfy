/**
 * The ORDER BY clause builder (`PartBuilder.OrderBy`): a set of ordering
 * entries, a bare field for ascending and `field DESC` for descending.
 */
module OrderByClause {
  import opened Text
  import opened OrderedSet

  /** What `Get` renders: the entries after ORDER BY, or only the terminating `;`. */
  function Render(entries: seq<string>): string {
    if |entries| > 0 then "ORDER BY " + Join(", ", entries) + ";" else ";"
  }

  class OrderBy {
    var entries: seq<string>

    ghost predicate Valid()
      reads this
    {
      Distinct(entries)
    }

    constructor ()
      ensures Valid() && entries == []
    {
      entries := [];
    }

    function Get(): string
      reads this
    {
      Render(entries)
    }

    /** `Asc<T>(T)`: adds the field's text. */
    method Asc(field: string)
      requires Valid()
      modifies this
      ensures Valid()
      ensures entries == Insert(old(entries), field)
    {
      entries := Insert(entries, field);
    }

    /** `Desc<T>(T)`: adds the field's text followed by ` DESC`. */
    method Desc(field: string)
      requires Valid()
      modifies this
      ensures Valid()
      ensures entries == Insert(old(entries), field + " DESC")
    {
      entries := Insert(entries, field + " DESC");
    }
  }

  /** Ascending and descending entries of one field are different entries, so
      adding both keeps both (two new entries when neither was there), and both
      occur in the rendered clause. */
  lemma AscAndDescBothKept(entries: seq<string>, f: string)
    requires f !in entries && f + " DESC" !in entries
    ensures var r := Insert(Insert(entries, f), f + " DESC");
      && |r| == |entries| + 2 && f in r && f + " DESC" in r
      && Render(r)[..9] == "ORDER BY " && Render(r)[|Render(r)| - 1] == ';'
  {
    var d := f + " DESC";
    assert f != d by { assert |d| == |f| + 5; }
    var r1 := Insert(entries, f);
    assert f in r1 && d !in r1;
    var r := Insert(r1, d);
    assert |r| > 0;
    assert Render(r) == "ORDER BY " + Join(", ", r) + ";";
  }

  /** Every entry occurs in a non-empty rendering, at the offset returned. */
  lemma RenderHoldsEachEntry(entries: seq<string>, i: nat) returns (k: nat)
    requires i < |entries|
    ensures Render([]) == ";"
    ensures k + |entries[i]| <= |Render(entries)|
    ensures Render(entries)[k..k + |entries[i]|] == entries[i]
  {
    var j := JoinOffset(", ", entries, i);
    var r := Render(entries);
    assert r == "ORDER BY " + Join(", ", entries) + ";";
    k := 9 + j;
    assert r[k..k + |entries[i]|] == Join(", ", entries)[j..j + |entries[i]|];
  }
}
