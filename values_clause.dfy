/**
 * The SET clause builder (`PartBuilder.Values`): field/value pairs keyed by
 * enum member, in insertion order.
 */
module ValuesClause {
  import opened Text
  import opened FieldValue
  import opened OrderedSet
  import OrmUtils

  /** The outcome of `Add`: the pair was added, or the key was already present
      (`Dictionary.Add` throws and the dictionary is left as it was). */
  datatype AddOutcome = Added | DuplicateKey

  type Pair = (EnumKey, Value)

  function KeysOf(pairs: seq<Pair>): (r: seq<EnumKey>)
    ensures |r| == |pairs|
    ensures forall i :: 0 <= i < |pairs| ==> r[i] == pairs[i].0
  {
    seq(|pairs|, i requires 0 <= i < |pairs| => pairs[i].0)
  }

  /** One assignment: the member's name, `=`, the value's literal. */
  function PairText(p: Pair): string {
    p.0.name + "=" + OrmUtils.Stringify(p.1)
  }

  function PairTexts(pairs: seq<Pair>): (r: seq<string>)
    ensures |r| == |pairs|
    ensures forall i :: 0 <= i < |pairs| ==> r[i] == PairText(pairs[i])
  {
    seq(|pairs|, i requires 0 <= i < |pairs| => PairText(pairs[i]))
  }

  /** What `Get` renders: SET, the assignments separated by ", ", a trailing space. */
  function Render(pairs: seq<Pair>): string {
    "SET " + Join(", ", PairTexts(pairs)) + " "
  }

  class Values {
    var pairs: seq<Pair>

    ghost predicate Valid()
      reads this
    {
      Distinct(KeysOf(pairs))
    }

    constructor ()
      ensures Valid() && pairs == []
    {
      pairs := [];
    }

    /** `Get`: a loop over the dictionary with a `first` flag. */
    method Get() returns (result: string)
      ensures result == Render(pairs)
    {
      result := "SET ";
      var first := true;
      ghost var body := "";
      ghost var texts: seq<string> := [];
      var i := 0;
      while i < |pairs|
        invariant 0 <= i <= |pairs|
        invariant texts == PairTexts(pairs[..i])
        invariant first <==> texts == []
        invariant body == Join(", ", texts)
        invariant result == "SET " + body
      {
        var pair := pairs[i];
        var text := pair.0.name + "=" + OrmUtils.Stringify(pair.1);
        PairTextsSnoc(pairs, i);
        JoinStep(", ", texts, text, body, !first);
        if !first {
          result := result + ", ";
          body := body + ", ";
        }
        result := result + text;
        body := body + text;
        first := false;
        texts := texts + [text];
        i := i + 1;
      }
      assert pairs[..|pairs|] == pairs;
      result := result + " ";
    }

    /** `Add(Enum, object)`: a new key is appended with its value; a key already
        present is an error and changes nothing. */
    method Add(field: EnumKey, value: Value) returns (outcome: AddOutcome)
      requires Valid()
      modifies this
      ensures Valid()
      ensures outcome == DuplicateKey <==> field in KeysOf(old(pairs))
      ensures outcome == Added ==> pairs == old(pairs) + [(field, value)]
      ensures outcome == DuplicateKey ==> pairs == old(pairs)
    {
      if field in KeysOf(pairs) {
        return DuplicateKey;
      }
      assert KeysOf(pairs + [(field, value)]) == KeysOf(pairs) + [field];
      pairs := pairs + [(field, value)];
      outcome := Added;
    }
  }

  /** One pass of the `Get` loop adds the next assignment's text. */
  lemma PairTextsSnoc(pairs: seq<Pair>, i: nat)
    requires i < |pairs|
    ensures PairTexts(pairs[..i + 1]) == PairTexts(pairs[..i]) + [PairText(pairs[i])]
  {
    assert pairs[..i + 1][..i] == pairs[..i];
  }

  /** A fresh builder renders "SET  "; a null value is written `name=NULL`,
      never `IS NULL`. */
  lemma RenderFreshAndNull(k: EnumKey)
    ensures Render([]) == "SET  "
    ensures PairText((k, Null)) == k.name + "=NULL"
    ensures Render([(k, Null)]) == "SET " + k.name + "=NULL "
  {
    var t := k.name + "=NULL";
    assert OrmUtils.Stringify(Null) == "NULL";
    assert PairText((k, Null)) == t;
    var ts := PairTexts([(k, Null)]);
    assert |ts| == 1 && ts[0] == t;
    assert ts == [t];
    assert Join(", ", [t]) == t;
  }

  /** Every assignment occurs in the rendered clause, at the offset returned. */
  lemma RenderHoldsEachPair(pairs: seq<Pair>, i: nat) returns (k: nat)
    requires i < |pairs|
    ensures k + |PairText(pairs[i])| <= |Render(pairs)|
    ensures Render(pairs)[k..k + |PairText(pairs[i])|] == PairText(pairs[i])
  {
    var j := JoinOffset(", ", PairTexts(pairs), i);
    Framed("SET ", Join(", ", PairTexts(pairs)), " ", j, |PairText(pairs[i])|);
    k := 4 + j;
  }

  /** Two different enum types may share a member name: the second key is not
      among the first builder's keys, so `Add` accepts it, and both assignments are kept. */
  lemma SameNameDifferentTypes()
    ensures EnumKey("B", "ID") !in KeysOf([(EnumKey("A", "ID"), Int(1))])
    ensures Distinct(KeysOf([(EnumKey("A", "ID"), Int(1))] + [(EnumKey("B", "ID"), Int(2))]))
    ensures Render([(EnumKey("A", "ID"), Int(1)), (EnumKey("B", "ID"), Int(2))]) == "SET ID=1, ID=2 "
  {
    assert OrmUtils.Stringify(Int(1)) == "1" && OrmUtils.Stringify(Int(2)) == "2";
    assert PairText((EnumKey("A", "ID"), Int(1))) == "ID=1";
    assert PairText((EnumKey("B", "ID"), Int(2))) == "ID=2";
    assert PairTexts([(EnumKey("A", "ID"), Int(1)), (EnumKey("B", "ID"), Int(2))]) == ["ID=1", "ID=2"];
  }
}
