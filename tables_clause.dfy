/**
 * The table list builder for FROM and UPDATE (`PartBuilder.Tables`).
 */
module TablesClause {
  import opened FieldValue
  import opened OrderedSet
  import OrmUtils

  /** `GetFrom`: the first table collected. */
  function FromText(tables: seq<string>): string
    requires |tables| > 0
  {
    "FROM " + tables[0] + " "
  }

  /** `GetUpdate`: the first table collected. */
  function UpdateText(tables: seq<string>): string
    requires |tables| > 0
  {
    "UPDATE " + tables[0] + " "
  }

  class Tables {
    var tables: seq<string>

    ghost predicate Valid()
      reads this
    {
      Distinct(tables)
    }

    constructor ()
      ensures Valid() && tables == []
    {
      tables := [];
    }

    function GetFrom(): string
      reads this
      requires |tables| > 0
    {
      FromText(tables)
    }

    function GetUpdate(): string
      reads this
      requires |tables| > 0
    {
      UpdateText(tables)
    }

    /** `Add(string)`. */
    method Add(table: string)
      requires Valid()
      modifies this
      ensures Valid()
      ensures tables == Insert(old(tables), table)
      ensures |old(tables)| > 0 ==> GetFrom() == old(GetFrom()) && GetUpdate() == old(GetUpdate())
    {
      tables := Insert(tables, table);
    }

    /** `Add<T>(T)`: adds the enum TYPE's name; the member itself is not used. */
    method AddEnum(field: EnumKey)
      requires Valid()
      modifies this
      ensures Valid()
      ensures tables == Insert(old(tables), field.typeName)
    {
      Add(field.typeName);
    }

    /** `Add(Type)`: adds the type's name with one trailing "Class" removed. */
    method AddType(typeName: string)
      requires Valid()
      modifies this
      ensures Valid()
      ensures tables == Insert(old(tables), OrmUtils.GetTableNameByType(typeName))
    {
      Add(OrmUtils.GetTableNameByType(typeName));
    }
  }

  /** The name between the keyword and the trailing space is the first table. */
  lemma RenderNamesFirstTable(tables: seq<string>)
    requires |tables| > 0
    ensures FromText(tables)[5..|FromText(tables)| - 1] == tables[0]
    ensures UpdateText(tables)[7..|UpdateText(tables)| - 1] == tables[0]
    ensures FromText(Insert(tables, tables[0])) == FromText(tables)
  {
  }

  /** A table added by type "ContractsClass" is named "Contracts". */
  lemma TypeNameStripped()
    ensures FromText(Insert([], OrmUtils.GetTableNameByType("ContractsClass"))) == "FROM Contracts "
  {
    OrmUtils.TableNameStripsOnce("Contracts");
  }
}
