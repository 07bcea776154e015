# Tessa card helpers and SQL fragment builders

This project models two small parts of `tessa-utils` in Dafny and proves
properties of the model. Both parts are sequential.

1. **Card helpers (`CardExtensions`).** A card maps section names to
   sections. A section has:
   - a kind: an entry, meaning a single record, or a collection, meaning a table;
   - a field map;
   - a sequence of rows;
   - a flag for pending field changes.

   A row has a field map, a RowID and a State from {Unchanged, Inserted,
   Modified, Deleted}. The helpers that are modelled:
   - field fills, plain and silent;
   - the null-safe lookup;
   - the copy of listed fields from another card, with optional `Guid.Empty` → null normalisation;
   - the whole-section copy over an enum's key domain minus exclusions;
   - the three row appends;
   - `CopyTable`: the positional reconciliation of a target table with a source table. Each target row becomes Modified or Deleted, and each extra source row is appended as Inserted with a fresh RowID.

   The enum type parameter `T` is an explicit `EnumType`. Its name selects
   the section and its members are the field keys. The card is a class
   whose `sections` map the methods reassign. The helpers that change a
   card are methods with `modifies` clauses. Each one states the card's
   whole new state. Either card argument may be the same object as the
   other.
2. **SQL fragment builders (`OrmUtils`, `PartBuilder`).**
   - The value literaliser, for one value and for a list.
   - The table-name suffix stripper.
   - Five accumulating builders: `Where`, `Select`, `Values`, `Tables` and `OrderBy`. Each is a class whose set of fragments is a duplicate-free sequence; its methods add to it, and a render function gives the clause text exactly.

Values are a tagged union: `Null`, `Str`, `Int`, `Bool`, `GuidValue`,
`DateTimeValue` and `Other`. A Guid is its 32 hex digits. A date is its
calendar components plus a sub-second part. `Other` carries the text that
its `ToString()` returns.

Files:
- `text.dfy`: join, split, and decimal and hex text, with their round-trip lemmas.
- `field_value.dfy`: values, Guids, dates and enum keys.
- `orm_utils.dfy`, `ordered_set.dfy`, and one file per builder.
- `card_model.dfy`: the card graph.
- `card_extensions.dfy`: the helpers.

`Where.In` adds nothing only for a null or empty list (Where.cs:39). A
non-empty list that holds only nulls adds `field IN ()`
(`WhereClause.InOfOnlyNulls`).

## Model

| member | source | states |
|---|---|---|
| FieldValue.GuidTextInjective | Tessa.Extensions.Shared/Orm/Util/OrmUtils.cs:33 | a Guid prints as 36 characters with dashes at 8, 13, 18 and 23, and two Guids print alike exactly when they are equal |
| OrmUtils.Stringify | Tessa.Extensions.Shared/Orm/Util/OrmUtils.cs:30-37 | strings, Guids and dates render between single quotes |
| OrmUtils.StringLiteralVerbatim | Tessa.Extensions.Shared/Orm/Util/OrmUtils.cs:34 | a string literal is two characters longer than the string and its interior is the string itself, and the literal has exactly two more quote characters than the string, so embedded quotes are not escaped |
| OrmUtils.StringLiteralNotEscaped | Tessa.Extensions.Shared/Orm/Util/OrmUtils.cs:32-34 | `a'b` renders as `'a'b'`, and null renders as `NULL` |
| OrmUtils.GuidLiteralInjective | Tessa.Extensions.Shared/Orm/Util/OrmUtils.cs:33 | a Guid literal is 38 characters, the quoted "D" form, and distinct Guids give distinct literals |
| OrmUtils.DateTimeLiteralLayout | Tessa.Extensions.Shared/Orm/Util/OrmUtils.cs:35 | a valid date renders as the 21 characters `'yyyy-MM-dd HH:mm:ss'`, and each component parses back from its position |
| OrmUtils.DateTimeLiteralSecondsPrecision | Tessa.Extensions.Shared/Orm/Util/OrmUtils.cs:35 | two valid dates give the same literal if and only if they agree on every component down to the second |
| OrmUtils.Kept | Tessa.Extensions.Shared/Orm/Util/OrmUtils.cs:16-18 | the elements rendered: with ignoreNull exactly the non-null ones, without it all of them |
| OrmUtils.KeptSingle | Tessa.Extensions.Shared/Orm/Util/OrmUtils.cs:16-18 | a single element is kept unless it is a null and nulls are ignored |
| OrmUtils.KeptAppend | Tessa.Extensions.Shared/Orm/Util/OrmUtils.cs:16-18 | the kept elements of a concatenation are those of each part in turn, so the non-null elements keep their order and multiplicity |
| OrmUtils.StringifyList | Tessa.Extensions.Shared/Orm/Util/OrmUtils.cs:12-28 | the builder loop with its needComma flag yields exactly the comma-join of the literals of the kept elements |
| OrmUtils.ListLiteralEmpty | Tessa.Extensions.Shared/Orm/Util/OrmUtils.cs:12-28 | an empty list, or a list of nulls when nulls are ignored, renders as the empty string |
| OrmUtils.ListLiteralExample | Tessa.Extensions.Shared/Orm/Util/OrmUtils.cs:15-24 | `[1, null, 2]` renders as `1,2` when nulls are ignored and as `1,NULL,2` otherwise |
| OrmUtils.ListLiteralSplit | Tessa.Extensions.Shared/Orm/Util/OrmUtils.cs:19-24 | splitting the list literal on commas gives back the element literals, so there is no leading, trailing or doubled comma (literals without commas) |
| OrmUtils.GetTableNameByType | Tessa.Extensions.Shared/Orm/Util/OrmUtils.cs:39-45 | the result is a prefix of the name; it is the name minus one trailing "Class" when the name ends so, and the name itself otherwise |
| OrmUtils.TableNameStripsOnce | Tessa.Extensions.Shared/Orm/Util/OrmUtils.cs:39-45 | appending "Class" and stripping gives the name back, and only one suffix is removed |
| OrderedSet.Insert | Tessa.Extensions.Shared/Orm/PartBuilder/Where.cs:13 | a HashSet add: the new element set is the old one plus the element, earlier elements keep their places, and there are still no duplicates |
| OrderedSet.InsertIdempotent | Tessa.Extensions.Shared/Orm/PartBuilder/Select.cs:12 | adding an element twice is the same as adding it once |
| WhereClause.Where.constructor | Tessa.Extensions.Shared/Orm/PartBuilder/Where.cs:13 | a fresh builder has no conditions |
| WhereClause.Where.Eq | Tessa.Extensions.Shared/Orm/PartBuilder/Where.cs:20-30 | a null value adds `field IS NULL`, any other value adds `field=<literal>` |
| WhereClause.Where.EqEnum | Tessa.Extensions.Shared/Orm/PartBuilder/Where.cs:32-35 | the same condition, on the enum member's name |
| WhereClause.Where.In | Tessa.Extensions.Shared/Orm/PartBuilder/Where.cs:37-41 | a null or empty list leaves the conditions unchanged; otherwise `field IN (<null-dropping list literal>)` is added |
| WhereClause.RenderHoldsEachCondition | Tessa.Extensions.Shared/Orm/PartBuilder/Where.cs:15-18 | no conditions render as `""`; otherwise the text starts with `WHERE ` and every condition occurs in it |
| WhereClause.ReAddIsNoop | Tessa.Extensions.Shared/Orm/PartBuilder/Where.cs:13-18 | adding a present condition changes neither the set nor the text |
| WhereClause.InOfOnlyNulls | Tessa.Extensions.Shared/Orm/PartBuilder/Where.cs:39-40 | a non-empty list of nulls still adds a condition, `field IN ()` |
| SelectClause.Select.constructor | Tessa.Extensions.Shared/Orm/PartBuilder/Select.cs:12-13 | a fresh builder has no fields and no limit |
| SelectClause.Select.Add | Tessa.Extensions.Shared/Orm/PartBuilder/Select.cs:25-28 | the field joins the set and the limit is untouched |
| SelectClause.Select.AddEnum | Tessa.Extensions.Shared/Orm/PartBuilder/Select.cs:30-33 | the enum member's name joins the set |
| SelectClause.Select.Top | Tessa.Extensions.Shared/Orm/PartBuilder/Select.cs:35-38 | the limit becomes n whatever it was, and the fields are untouched |
| SelectClause.RenderWithoutFields | Tessa.Extensions.Shared/Orm/PartBuilder/Select.cs:19-21 | without fields the text is `SELECT <top> * `; no limit leaves `SELECT  * `, and a limit n ≠ 0 gives `TOP n` |
| SelectClause.RenderFieldsRecoverable | Tessa.Extensions.Shared/Orm/PartBuilder/Select.cs:20 | with fields, the text after `SELECT <top> ` and before the final space splits on commas back into the fields |
| SelectClause.ReAddIsNoop | Tessa.Extensions.Shared/Orm/PartBuilder/Select.cs:25-28 | re-adding a present field leaves the text unchanged |
| ValuesClause.Values.constructor | Tessa.Extensions.Shared/Orm/PartBuilder/Values.cs:9 | a fresh builder has no pairs |
| ValuesClause.Values.Get | Tessa.Extensions.Shared/Orm/PartBuilder/Values.cs:11-27 | the loop with its first flag yields `SET `, the `name=literal` pairs joined by `, ` in insertion order, and a space |
| ValuesClause.Values.Add | Tessa.Extensions.Shared/Orm/PartBuilder/Values.cs:30-33 | a new key appends exactly one pair and keeps the earlier pairs; a key already present is reported as an error and changes nothing |
| ValuesClause.RenderFreshAndNull | Tessa.Extensions.Shared/Orm/PartBuilder/Values.cs:15-26 | a fresh builder renders `SET  `, and a null value renders as `name=NULL` |
| ValuesClause.RenderHoldsEachPair | Tessa.Extensions.Shared/Orm/PartBuilder/Values.cs:17-26 | every assignment occurs in the rendered clause |
| ValuesClause.SameNameDifferentTypes | Tessa.Extensions.Shared/Orm/PartBuilder/Values.cs:17-26 | a member of enum type B is not a key of a builder holding the same-named member of A, so `Add` accepts it; the two keys are distinct and both assignments are rendered |
| TablesClause.Tables.constructor | Tessa.Extensions.Shared/Orm/PartBuilder/Tables.cs:13 | a fresh builder has no tables |
| TablesClause.Tables.Add | Tessa.Extensions.Shared/Orm/PartBuilder/Tables.cs:18-21 | the table joins the set; once a table is present, neither the FROM nor the UPDATE text changes |
| TablesClause.Tables.AddEnum | Tessa.Extensions.Shared/Orm/PartBuilder/Tables.cs:23-26 | the enum type's name joins the set, not the member's |
| TablesClause.Tables.AddType | Tessa.Extensions.Shared/Orm/PartBuilder/Tables.cs:28-31 | the type name without its "Class" suffix joins the set |
| TablesClause.RenderNamesFirstTable | Tessa.Extensions.Shared/Orm/PartBuilder/Tables.cs:15-16 | between `FROM ` or `UPDATE ` and the final space stands the first table, and re-adding it changes nothing |
| TablesClause.TypeNameStripped | Tessa.Extensions.Shared/Orm/PartBuilder/Tables.cs:28-31 | a table added by the type `ContractsClass` renders as `FROM Contracts ` |
| OrderByClause.OrderBy.constructor | Tessa.Extensions.Shared/Orm/PartBuilder/OrderBy.cs:8 | a fresh builder has no entries |
| OrderByClause.OrderBy.Asc | Tessa.Extensions.Shared/Orm/PartBuilder/OrderBy.cs:15-18 | the bare field joins the set |
| OrderByClause.OrderBy.Desc | Tessa.Extensions.Shared/Orm/PartBuilder/OrderBy.cs:20-23 | `field DESC` joins the set |
| OrderByClause.AscAndDescBothKept | Tessa.Extensions.Shared/Orm/PartBuilder/OrderBy.cs:15-23 | ascending and descending on one field are two entries and both are kept; the text is `ORDER BY ...;` |
| OrderByClause.RenderHoldsEachEntry | Tessa.Extensions.Shared/Orm/PartBuilder/OrderBy.cs:10-13 | no entries render as `;`; otherwise every entry occurs in the text |
| CardExtensions.AnyEquals | Tessa.Extensions.Shared/CardExtensions.cs:291 | the scan finds the field exactly when the field is in the list |
| CardExtensions.IsInArray | Tessa.Extensions.Shared/CardExtensions.cs:288-292 | true exactly when both the array and the field are non-null and the field is in the array; a null array excludes nothing |
| CardExtensions.CopiedValuesAt | Tessa.Extensions.Shared/CardExtensions.cs:104-115 | a domain copy writes a key exactly when the key is in the enum's member list and not excluded, and then writes the source's value, or null where the source has none |
| CardExtensions.DomainCopyCases | Tessa.Extensions.Shared/CardExtensions.cs:104-115 | after a domain copy, a non-excluded key carries the source value, or null where the source lacks it; an excluded or foreign key keeps the target's field, present or absent |
| CardExtensions.ValueOrNull | Tessa.Extensions.Shared/CardExtensions.cs:231-233 | the stored value when the section and the field exist; null otherwise |
| CardExtensions.GetSectionValueOrNull | Tessa.Extensions.Shared/CardExtensions.cs:229-234 | null when the section or the key is absent, otherwise the stored value; it only reads the card |
| CardExtensions.GetSectionValueFromCardOrDbOrNull | Tessa.Extensions.Shared/CardExtensions.cs:244-256 | the card's value exactly when the field is on the card; otherwise the query text `SELECT <field> FROM <section> WHERE ID=@ID` |
| CardExtensions.WriteFields | Tessa.Extensions.Shared/CardExtensions.cs:37-40 | writing every pair of a dictionary into a field map gives the map overridden by the dictionary, whatever the iteration order |
| CardExtensions.FillSection | Tessa.Extensions.Shared/CardExtensions.cs:51-55 | only the named section changes, created if absent; one field is set, the others are kept, and the section has pending changes |
| CardExtensions.FillSectionSilently | Tessa.Extensions.Shared/CardExtensions.cs:21-26 | as FillSection, but the section has no pending changes afterwards |
| CardExtensions.FillSectionAll | Tessa.Extensions.Shared/CardExtensions.cs:63-70 | every given key is set and nothing else changes; pending changes are added exactly when the dictionary is non-empty |
| CardExtensions.FillSectionSilentlyAll | Tessa.Extensions.Shared/CardExtensions.cs:34-42 | every given key is set and nothing else changes; no pending changes afterwards |
| CardExtensions.Normalize | Tessa.Extensions.Shared/CardExtensions.cs:85-88 | `Guid.Empty` becomes null when the flag is set; every other value passes unchanged |
| CardExtensions.CopyFieldsFrom | Tessa.Extensions.Shared/CardExtensions.cs:80-91 | an empty list changes nothing; otherwise each listed key gets the other card's value as it was before the call, null where absent and normalised, and the section has pending changes; this holds also when the other card is this card |
| CardExtensions.CopySection | Tessa.Extensions.Shared/CardExtensions.cs:100-116 | only the target's named section changes: its fields are overridden by the domain copy of the source's fields, and it gains pending changes when a key was copied; a distinct source card only gains the section |
| CardExtensions.CopyRowValues | Tessa.Extensions.Shared/CardExtensions.cs:276-285 | the target row's fields are overridden by the domain copy of the source row's, and its RowID and State are kept |
| CardExtensions.CopyTable | Tessa.Extensions.Shared/CardExtensions.cs:125-165 | only the target's named section changes, and its rows become the positional reconciliation of target and source; a distinct source card only gains the section |
| CardExtensions.ReconciledAt | Tessa.Extensions.Shared/CardExtensions.cs:140-164 | max(source, target) rows. Below both counts a row is Modified, keeps its RowID and carries the source's non-excluded fields. A target row beyond the source is Deleted with fields and RowID untouched. A source row beyond the target is Inserted with the next fresh RowID and only the copied fields |
| CardExtensions.ReconciledLiveRows | Tessa.Extensions.Shared/CardExtensions.cs:143-164 | no reconciled row is left Unchanged, and exactly as many rows are not Deleted as the source has |
| CardExtensions.ReconciledIdsUnique | Tessa.Extensions.Shared/CardExtensions.cs:158-164 | with distinct target RowIDs and fresh distinct new ids, all reconciled RowIDs are distinct |
| CardExtensions.PlainRows | Tessa.Extensions.Shared/CardExtensions.cs:176-183 | one row per dictionary, in list order, each holding exactly that dictionary's fields |
| CardExtensions.AddSectionRow | Tessa.Extensions.Shared/CardExtensions.cs:210-219 | exactly one row is appended, with exactly the given fields and state Inserted; earlier rows and other sections are unchanged |
| CardExtensions.AddSectionRowSilently | Tessa.Extensions.Shared/CardExtensions.cs:193-202 | exactly one row with the given fields is appended in the state a new row has, and the section has no pending changes |
| CardExtensions.AddSectionRowsSilently | Tessa.Extensions.Shared/CardExtensions.cs:173-185 | the rows for the dictionaries are appended after the existing ones, in order, and the section has no pending changes |
| CardExtensions.PlainRowsAppend | Tessa.Extensions.Shared/CardExtensions.cs:176-183 | appending two lists of rows one after the other is appending their concatenation |

## Left out

- The database branch of `GetSectionValueFromCardOrDbOrNull` (CardExtensions.cs:253-258) is not executed. The model returns the command text it would send. `GetFilesCountInDB` (CardExtensions.cs:267-274) is pure storage I/O and is left out.
- Internals of Tessa's card library are modelled abstractly:
  - `GetOrAdd` and `GetOrAddTable` give an empty section of the requested kind when it is absent. No section-kind check is modelled.
  - Raw and effective field maps are one map.
  - Every write to a section field sets the pending-changes flag.
  - `RemoveChanges` only clears that flag.
  - `Rows.Add()` gives a row with no fields, `Guid.Empty` as RowID and state Unchanged.
  - A missing row field reads as null.
- `Guid.NewGuid()` in `CopyTable` is the parameter `newIds`, one id per appended row. Their freshness is a hypothesis of `ReconciledIdsUnique`.
- The failure that the comments in `CopyTable` report for appended rows comes from the card library. It is not modelled.
- `typeof(T).Name` and `Enum.GetValues` are replaced by an explicit `EnumType` with its name and member list. `T.ToString()` in `OrderBy` is the field text passed in.
- Culture-specific `ToString` is not modelled. `Other` carries its own text. Integers and booleans print as under the invariant culture.
- OrmUtils.GetTableNameByType: the suffix test is an exact character match. `name.EndsWith("Class")` (OrmUtils.cs:42) uses the one-argument overload, which compares under the current culture. The model agrees with the source only where the two comparisons agree, for example on ASCII type names. A culture comparison ignores some characters, such as a trailing soft hyphen (U+00AD) after `Class`. For such a name the source strips five characters and the model strips nothing. `TablesClause.Tables.AddType` inherits this.
- OrmUtils.DateTimeLiteralLayout: dates are assumed to print as under the invariant culture. In the format `yyyy-MM-dd HH:mm:ss` (OrmUtils.cs:35), `:` is the culture's time separator and `yyyy`, `MM` and `dd` follow the culture's calendar. So the colons at positions 14 and 17, and the year, month and day read-back, hold only under a culture that uses `:` and the Gregorian calendar.
- HashSet and Dictionary enumeration order is unspecified in .NET. The builders keep an insertion-ordered sequence without duplicates, so render properties hold for insertion order. This includes `ValuesClause.Values.Get`, whose `Dictionary<Enum, object>` (Values.cs:9) is assumed to enumerate its pairs in insertion order. `Tables.GetFrom` and `GetUpdate` name the first table inserted.
- ValuesClause.Values.Add: `Dictionary.Add` throws on a duplicate key. The model returns `DuplicateKey` and leaves the builder unchanged instead of raising an exception.
- `TablesClause.Tables.GetFrom` and `GetUpdate` require a non-empty table set, because `First()` fails on an empty one.
- `SelectClause.Select.Top` takes an unbounded integer rather than a 32-bit `int`.
- The commented-out approach in `CopyTable` (CardExtensions.cs:130-137) is dead code and is not modelled.
- CardExtensions.CopyRowValues: a row's RowID is kept apart from its field map. This assumes the card library's row indexer (CardExtensions.cs:283) never writes the RowID. If an enum lists a `RowID` member, that write may overwrite the RowID in the source. `ReconciledAt`'s "a Modified row keeps its RowID" depends on this assumption.
- Null strings and lists in the ORM helpers are excluded by the model's types:
  - `Stringify(IEnumerable)` on a null list throws (OrmUtils.cs:16).
  - `OrderBy.Asc(null)` throws, while `Desc(null)` adds `" DESC"` (OrderBy.cs:17, 22).
  - `Select.Add(null)` and `Tables.Add(null)` store a null, which the render writes as the empty string.
  - `Where.Eq(null, …)` stores the concatenation with the null field read as empty: `" IS NULL"` or `"=<literal>"` (Where.cs:24, 28).
- ValuesClause.Values.Add: `DuplicateKey` follows the model's key equality, not the source's. Keys of `Dictionary<Enum, object>` (Values.cs:9) compare by enum type and underlying value. `EnumKey` compares the simple type name and the member name. So two same-named enum types from different namespaces collide in the model but not in the source. Aliased members (`A = 1, B = 1`) collide in the source but not in the model.
- Null arrays passed to `CopyFieldsFrom`, and null dictionaries or lists passed to the fills and row appends, throw in the source. The model takes non-null collections.
