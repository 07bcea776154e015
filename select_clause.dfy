/**
 * The SELECT clause builder (`PartBuilder.Select`): a set of field names
 * and an optional TOP limit.
 */
module SelectClause {
  import opened Text
  import opened FieldValue
  import opened OrderedSet

  /** The TOP segment: empty when no limit is set (0). */
  function TopText(top: int): string {
    if top == 0 then "" else "TOP " + IntToString(top)
  }

  /** What `Get` renders for the collected fields and limit. */
  function Render(fields: seq<string>, top: int): string {
    var topStr := TopText(top);
    if |fields| > 0 then "SELECT " + topStr + " " + Join(",", fields) + " "
    else "SELECT " + topStr + " * "
  }

  class Select {
    var fields: seq<string>
    var top: int

    ghost predicate Valid()
      reads this
    {
      Distinct(fields)
    }

    constructor ()
      ensures Valid() && fields == [] && top == 0
    {
      fields := [];
      top := 0;
    }

    function Get(): string
      reads this
    {
      Render(fields, top)
    }

    /** `Add(string)`. */
    method Add(field: string)
      requires Valid()
      modifies this
      ensures Valid()
      ensures fields == Insert(old(fields), field) && top == old(top)
    {
      fields := Insert(fields, field);
    }

    /** `Add<T>(T)`: adds the enum member's name. */
    method AddEnum(field: EnumKey)
      requires Valid()
      modifies this
      ensures Valid()
      ensures fields == Insert(old(fields), field.name) && top == old(top)
    {
      Add(field.name);
    }

    /** `Top(int)`: replaces any earlier limit. */
    method Top(n: int)
      requires Valid()
      modifies this
      ensures Valid()
      ensures top == n && fields == old(fields)
    {
      top := n;
    }
  }

  /** Without fields the clause selects `*`, and without a limit the TOP segment
      is empty, leaving two spaces after SELECT. */
  lemma RenderWithoutFields(top: int)
    ensures Render([], top) == "SELECT " + TopText(top) + " * "
    ensures Render([], 0) == "SELECT  * "
    ensures top != 0 ==> TopText(top) == "TOP " + IntToString(top)
    ensures Render([], 5) == "SELECT TOP 5 * "
  {
    assert IntToString(5) == "5";
  }

  /** With fields, the clause is `SELECT <top> ` + the fields joined by commas
      + a space: the fields read back from the text when none contains a comma. */
  lemma RenderFieldsRecoverable(fields: seq<string>, top: int)
    requires |fields| > 0
    requires forall i :: 0 <= i < |fields| ==> ',' !in fields[i]
    ensures var r := Render(fields, top); var p := |"SELECT " + TopText(top) + " "|;
      && p < |r| && r[|r| - 1] == ' ' && Split(r[p..|r| - 1], ',') == fields
  {
    var pre := "SELECT " + TopText(top) + " ";
    var r := Render(fields, top);
    var body := Join(",", fields);
    assert r == pre + body + " ";
    assert r[|pre|..|r| - 1] == body;
    SplitJoin(fields, ',');
  }

  /** Re-adding a field that is present changes nothing. */
  lemma ReAddIsNoop(fields: seq<string>, top: int, f: string)
    requires f in fields
    ensures Render(Insert(fields, f), top) == Render(fields, top)
  {
  }
}
