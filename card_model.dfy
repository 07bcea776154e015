/**
 * An abstract model of the card object graph the helpers operate on: a card
 * maps section names to sections; a section has a kind (a single record of
 * fields, or a table of rows), a field map, a row sequence and a flag for
 * pending field changes; a row has a field map, a RowID and a State.
 */
module CardModel {
  import opened FieldValue

  /** The persistence intent of a row. */
  datatype RowState = Unchanged | Inserted | Modified | Deleted

  datatype Row = Row(fields: map<string, Value>, rowId: Guid, state: RowState)

  datatype SectionKind = Entry | Collection

  datatype Section = Section(kind: SectionKind, fields: map<string, Value>, rows: seq<Row>, hasChanges: bool)

  class Card {
    var sections: map<string, Section>

    constructor ()
      ensures sections == map[]
    {
      sections := map[];
    }
  }

  /** `Sections.GetOrAdd(name)` (kind `Entry`) and `Sections.GetOrAddTable(name)`
      (kind `Collection`): the section under that name, or a new empty one. */
  function GetOrAdd(sections: map<string, Section>, name: string, kind: SectionKind): Section {
    if name in sections then sections[name] else Section(kind, map[], [], false)
  }

  /** `section.Fields[key] = value`: the field is written and the section has pending changes. */
  function SetField(s: Section, key: string, value: Value): Section {
    s.(fields := s.fields[key := value], hasChanges := true)
  }

  /** `section.RemoveChanges()`, as far as this model sees it: no pending changes. */
  function RemoveChanges(s: Section): Section {
    s.(hasChanges := false)
  }

  /** What `Rows.Add()` appends: a row with no fields, `Guid.Empty` as RowID, state Unchanged. */
  function NewRow(): Row {
    Row(map[], EmptyGuid, Unchanged)
  }

  /** Reading a field through an indexer: a missing field reads as null. */
  function Lookup(fields: map<string, Value>, key: string): Value {
    if key in fields then fields[key] else Null
  }
}
