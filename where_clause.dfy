/**
 * The WHERE clause builder (`PartBuilder.Where`): a set of condition texts
 * joined with AND.
 */
module WhereClause {
  import opened Text
  import opened FieldValue
  import opened OrderedSet
  import OrmUtils

  /** What `Get` renders for the conditions collected so far. */
  function Render(conditions: seq<string>): string {
    if |conditions| > 0 then "WHERE " + Join(" AND ", conditions) else ""
  }

  class Where {
    var conditions: seq<string>

    ghost predicate Valid()
      reads this
    {
      Distinct(conditions)
    }

    constructor ()
      ensures Valid() && conditions == []
    {
      conditions := [];
    }

    function Get(): string
      reads this
    {
      Render(conditions)
    }

    /** `Eq(string, object)`: `field IS NULL` for a null value, `field=<literal>` otherwise. */
    method Eq(field: string, value: Value)
      requires Valid()
      modifies this
      ensures Valid()
      ensures value == Null ==> conditions == Insert(old(conditions), field + " IS NULL")
      ensures value != Null ==> conditions == Insert(old(conditions), field + "=" + OrmUtils.Stringify(value))
    {
      if value == Null {
        conditions := Insert(conditions, field + " IS NULL");
      } else {
        conditions := Insert(conditions, field + "=" + OrmUtils.Stringify(value));
      }
    }

    /** `Eq<T>(T, object)`: the same condition on the enum member's name. */
    method EqEnum(field: EnumKey, value: Value)
      requires Valid()
      modifies this
      ensures Valid()
      ensures value == Null ==> conditions == Insert(old(conditions), field.name + " IS NULL")
      ensures value != Null ==> conditions == Insert(old(conditions), field.name + "=" + OrmUtils.Stringify(value))
    {
      Eq(field.name, value);
    }

    /** `In<T, TK>`: nothing for a null or empty list; otherwise
        `field IN (<list literal without nulls>)`. */
    method In(field: EnumKey, values: Option<seq<Value>>)
      requires Valid()
      modifies this
      ensures Valid()
      ensures values == None || values == Some([]) ==> conditions == old(conditions)
      ensures values.Some? && values.value != [] ==>
        conditions == Insert(old(conditions), field.name + " IN (" + OrmUtils.ListLiteral(values.value, true) + ")")
    {
      if values == None || values.value == [] {
        return;
      }
      var list := OrmUtils.StringifyList(values.value, true);
      conditions := Insert(conditions, field.name + " IN (" + list + ")");
    }
  }

  /** A fresh builder renders nothing; any condition renders a WHERE clause in
      which every condition occurs, at the offset returned. */
  lemma RenderHoldsEachCondition(conditions: seq<string>, i: nat) returns (k: nat)
    requires i < |conditions|
    ensures Render([]) == ""
    ensures Render(conditions)[..6] == "WHERE "
    ensures k + |conditions[i]| <= |Render(conditions)|
    ensures Render(conditions)[k..k + |conditions[i]|] == conditions[i]
  {
    var j := JoinOffset(" AND ", conditions, i);
    var r := Render(conditions);
    assert r == "WHERE " + Join(" AND ", conditions);
    k := 6 + j;
    assert r[k..k + |conditions[i]|] == Join(" AND ", conditions)[j..j + |conditions[i]|];
  }

  /** Adding a condition that is already present changes neither the set nor the text. */
  lemma ReAddIsNoop(conditions: seq<string>, c: string)
    requires c in conditions
    ensures Insert(conditions, c) == conditions
    ensures Render(Insert(conditions, c)) == Render(conditions)
  {
  }

  /** A non-empty list of nulls still adds a condition, with an empty list: `field IN ()`. */
  lemma InOfOnlyNulls(field: EnumKey, values: seq<Value>)
    requires forall i :: 0 <= i < |values| ==> values[i] == Null
    ensures field.name + " IN (" + OrmUtils.ListLiteral(values, true) + ")" == field.name + " IN ()"
  {
    OrmUtils.ListLiteralEmpty(values);
  }
}
