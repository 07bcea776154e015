/**
 * The card helpers (`CardExtensions`): filling, reading and copying section
 * fields, appending rows, and reconciling one table section with another.
 *
 * An enum type `T` is given as an `EnumType`: its name selects the section,
 * its members are the field keys; a key is passed by its member name.
 */
module CardExtensions {
  import opened FieldValue
  import opened CardModel

  function Max(a: int, b: int): int { if a < b then b else a }

  // Exclusion lists.

  /** `fields.Any(f => f.Equals(field))`, scanning from the front. */
  function AnyEquals(fields: seq<string>, field: string): (r: bool)
    ensures r <==> field in fields
    decreases |fields|
  {
    if |fields| == 0 then false
    else fields[0] == field || AnyEquals(fields[1..], field)
  }

  /** `IsInArray`: false for a null array or a null field, otherwise membership. */
  function IsInArray(fields: Option<seq<string>>, field: Option<string>): (r: bool)
    ensures r <==> fields.Some? && field.Some? && field.value in fields.value
    ensures fields == None ==> !r
  {
    if fields == None || field == None then false else AnyEquals(fields.value, field.value)
  }

  /** The values a domain copy writes: every member of the key domain that
      is not excluded gets the source's value, or null where the source has none. */
  function CopiedValues(source: map<string, Value>, domain: seq<string>, exclude: Option<seq<string>>): map<string, Value>
    decreases |domain|
  {
    if |domain| == 0 then map[]
    else
      var rest := CopiedValues(source, domain[..|domain| - 1], exclude);
      var k := domain[|domain| - 1];
      if IsInArray(exclude, Some(k)) then rest else rest[k := Lookup(source, k)]
  }

  /** A key is written by a domain copy exactly when it is in the domain and
      not excluded, and then it gets the source's value, or null. */
  lemma {:induction false} CopiedValuesAt(source: map<string, Value>, domain: seq<string>,
                                          exclude: Option<seq<string>>, k: string)
    ensures k in CopiedValues(source, domain, exclude) <==> k in domain && !IsInArray(exclude, Some(k))
    ensures k in CopiedValues(source, domain, exclude) ==> CopiedValues(source, domain, exclude)[k] == Lookup(source, k)
    decreases |domain|
  {
    if |domain| > 0 {
      var init := domain[..|domain| - 1];
      assert domain == init + [domain[|domain| - 1]];
      CopiedValuesAt(source, init, exclude, k);
    }
  }

  /** The three cases of a domain copy over the target's fields. */
  lemma DomainCopyCases(source: map<string, Value>, target: map<string, Value>,
                        domain: seq<string>, exclude: Option<seq<string>>, k: string)
    ensures var r := target + CopiedValues(source, domain, exclude);
      && (k in domain && !IsInArray(exclude, Some(k)) ==> k in r && r[k] == (if k in source then source[k] else Null))
      && (k !in domain || IsInArray(exclude, Some(k)) ==>
            (k in r <==> k in target) && (k in target ==> r[k] == target[k]))
  {
    CopiedValuesAt(source, domain, exclude, k);
  }

  // Reading.

  /** The field through the section's field map, or null. */
  function ValueOrNull(sections: map<string, Section>, name: string, key: string): (v: Value)
    ensures name in sections && key in sections[name].fields ==> v == sections[name].fields[key]
    ensures name !in sections || key !in sections[name].fields ==> v == Null
  {
    if name !in sections then Null else Lookup(sections[name].fields, key)
  }

  /** `GetSectionValueOrNull<T>`: null when the section or the field is absent. */
  function GetSectionValueOrNull(card: Card, t: EnumType, param: string): (v: Value)
    reads card
    ensures t.name in card.sections && param in card.sections[t.name].fields ==>
      v == card.sections[t.name].fields[param]
    ensures t.name !in card.sections || param !in card.sections[t.name].fields ==> v == Null
  {
    ValueOrNull(card.sections, t.name, param)
  }

  /** The result of `GetSectionValueFromCardOrDbOrNull`: the value on the card,
      or the scalar query that is sent to the database instead. */
  datatype CardOrDb = OnCard(value: Value) | QueryDb(command: string)

  /** `GetSectionValueFromCardOrDbOrNull<T>` up to the database call: a field
      assigned on the card is returned; otherwise the command text of the query. */
  function GetSectionValueFromCardOrDbOrNull(card: Card, t: EnumType, param: string): (r: CardOrDb)
    reads card
    ensures r.OnCard? <==> t.name in card.sections && param in card.sections[t.name].fields
    ensures r.OnCard? ==> r.value == GetSectionValueOrNull(card, t, param)
    ensures r.QueryDb? ==> r.command == "SELECT " + param + " FROM " + t.name + " WHERE ID=@ID"
  {
    if t.name in card.sections && param in card.sections[t.name].fields
    then OnCard(card.sections[t.name].fields[param])
    else QueryDb("SELECT " + param + " FROM " + t.name + " WHERE ID=@ID")
  }

  // Filling.

  /** The foreach over a dictionary writing each pair into a field map; the
      order of the pairs does not matter because their keys differ. */
  method WriteFields(fields: map<string, Value>, values: map<string, Value>) returns (r: map<string, Value>)
    ensures r == fields + values
  {
    r := fields;
    var remaining := values.Keys;
    while remaining != {}
      invariant remaining <= values.Keys
      invariant r == fields + (map k | k in values.Keys - remaining :: values[k])
      decreases remaining
    {
      var k :| k in remaining;
      ghost var done := values.Keys - remaining;
      assert (map j | j in done + {k} :: values[j]) == (map j | j in done :: values[j])[k := values[k]];
      assert values.Keys - (remaining - {k}) == done + {k};
      r := r[k := values[k]];
      remaining := remaining - {k};
    }
    assert (map k | k in values.Keys - {} :: values[k]) == values;
  }

  /** `FillSection<T>(param, value)`: the field is set in the section named
      after `T` (created if absent), which then has pending changes. */
  method FillSection(card: Card, t: EnumType, param: string, value: Value)
    modifies card
    ensures var s0 := GetOrAdd(old(card.sections), t.name, Entry);
      card.sections == old(card.sections)[t.name := s0.(fields := s0.fields[param := value], hasChanges := true)]
    ensures GetSectionValueOrNull(card, t, param) == value
  {
    var cardSection := GetOrAdd(card.sections, t.name, Entry);
    cardSection := SetField(cardSection, param, value);
    card.sections := card.sections[t.name := cardSection];
  }

  /** `FillSectionSilently<T>(param, value)`: as `FillSection`, then the
      section's changes are removed. */
  method FillSectionSilently(card: Card, t: EnumType, param: string, value: Value)
    modifies card
    ensures var s0 := GetOrAdd(old(card.sections), t.name, Entry);
      card.sections == old(card.sections)[t.name := s0.(fields := s0.fields[param := value], hasChanges := false)]
    ensures GetSectionValueOrNull(card, t, param) == value
  {
    var cardSection := GetOrAdd(card.sections, t.name, Entry);
    cardSection := SetField(cardSection, param, value);
    cardSection := RemoveChanges(cardSection);
    card.sections := card.sections[t.name := cardSection];
  }

  /** `FillSection<T>(Dictionary)`: every pair is written; pending changes
      appear exactly when something was written. */
  method FillSectionAll(card: Card, t: EnumType, values: map<string, Value>)
    modifies card
    ensures var s0 := GetOrAdd(old(card.sections), t.name, Entry);
      card.sections == old(card.sections)[t.name := s0.(fields := s0.fields + values, hasChanges := s0.hasChanges || values != map[])]
  {
    var cardSection := GetOrAdd(card.sections, t.name, Entry);
    var fields := WriteFields(cardSection.fields, values);
    cardSection := cardSection.(fields := fields, hasChanges := cardSection.hasChanges || values != map[]);
    card.sections := card.sections[t.name := cardSection];
  }

  /** `FillSectionSilently<T>(Dictionary)`: every pair is written, then the
      section's changes are removed. */
  method FillSectionSilentlyAll(card: Card, t: EnumType, values: map<string, Value>)
    modifies card
    ensures var s0 := GetOrAdd(old(card.sections), t.name, Entry);
      card.sections == old(card.sections)[t.name := s0.(fields := s0.fields + values, hasChanges := false)]
  {
    var cardSection := GetOrAdd(card.sections, t.name, Entry);
    var fields := WriteFields(cardSection.fields, values);
    cardSection := cardSection.(fields := fields, hasChanges := true);
    cardSection := RemoveChanges(cardSection);
    card.sections := card.sections[t.name := cardSection];
  }

  // Copying fields.

  /** `Guid.Empty` becomes null when the flag asks for it. */
  function Normalize(v: Value, useNullForGuidEmpty: bool): (r: Value)
    ensures useNullForGuidEmpty && v == GuidValue(EmptyGuid) ==> r == Null
    ensures !(useNullForGuidEmpty && v == GuidValue(EmptyGuid)) ==> r == v
  {
    if useNullForGuidEmpty && v == GuidValue(EmptyGuid) then Null else v
  }

  /** The values `CopyFieldsFrom` writes: each listed key's value on the other
      card (null where absent), normalised. */
  function CopiedFromOther(other: map<string, Section>, name: string, keys: seq<string>,
                           useNullForGuidEmpty: bool): map<string, Value> {
    map k | k in keys :: Normalize(ValueOrNull(other, name, k), useNullForGuidEmpty)
  }

  /** `CopyFieldsFrom<T>`: each listed field is read from the other card and
      written with `FillSection`. Nothing happens for an empty list; otherwise the
      section exists afterwards and has pending changes. The other card may be
      this card. */
  method CopyFieldsFrom(card: Card, other: Card, t: EnumType, fieldsToCopy: seq<string>,
                        useNullForGuidEmpty: bool)
    modifies card
    ensures fieldsToCopy == [] ==> card.sections == old(card.sections)
    ensures fieldsToCopy != [] ==>
      var s0 := GetOrAdd(old(card.sections), t.name, Entry);
      card.sections == old(card.sections)[t.name :=
        s0.(fields := s0.fields + CopiedFromOther(old(other.sections), t.name, fieldsToCopy, useNullForGuidEmpty),
            hasChanges := true)]
  {
    ghost var src := other.sections;
    ghost var before := card.sections;
    ghost var s0 := GetOrAdd(before, t.name, Entry);
    var i := 0;
    while i < |fieldsToCopy|
      invariant 0 <= i <= |fieldsToCopy|
      invariant other != card ==> other.sections == src
      invariant other == card ==> src == before
      invariant i == 0 ==> card.sections == before
      invariant i > 0 ==> card.sections == before[t.name :=
        s0.(fields := s0.fields + CopiedFromOther(src, t.name, fieldsToCopy[..i], useNullForGuidEmpty), hasChanges := true)]
    {
      var fieldToCopy := fieldsToCopy[i];
      var value := GetSectionValueOrNull(other, t, fieldToCopy);
      ReadBackNormalized(src, before, card.sections, other == card, t.name, fieldsToCopy[..i], fieldToCopy,
                         useNullForGuidEmpty, value);
      if useNullForGuidEmpty && value == GuidValue(EmptyGuid) {
        value := Null;
      }
      assert value == Normalize(ValueOrNull(src, t.name, fieldToCopy), useNullForGuidEmpty);
      assert fieldsToCopy[..i + 1] == fieldsToCopy[..i] + [fieldToCopy];
      CopiedFromOtherSnoc(src, t.name, fieldsToCopy[..i], fieldToCopy, useNullForGuidEmpty);
      ghost var copiedBefore := CopiedFromOther(src, t.name, fieldsToCopy[..i], useNullForGuidEmpty);
      assert i == 0 ==> copiedBefore == map[];
      FillStep(card.sections, before, t.name, copiedBefore, i == 0, fieldToCopy, value);
      FillSection(card, t, fieldToCopy, value);
      i := i + 1;
    }
    assert fieldsToCopy[..|fieldsToCopy|] == fieldsToCopy;
  }

  /** One `FillSection` of the copy loop, on the section maps. */
  lemma FillStep(now: map<string, Section>, before: map<string, Section>, name: string,
                 copied: map<string, Value>, first: bool, k: string, value: Value)
    requires first ==> now == before && copied == map[]
    requires !first ==> var s0 := GetOrAdd(before, name, Entry);
      now == before[name := s0.(fields := s0.fields + copied, hasChanges := true)]
    ensures var s := GetOrAdd(now, name, Entry);
      var s0 := GetOrAdd(before, name, Entry);
      now[name := s.(fields := s.fields[k := value], hasChanges := true)]
        == before[name := s0.(fields := s0.fields + copied[k := value], hasChanges := true)]
  {
    var s0 := GetOrAdd(before, name, Entry);
    assert (s0.fields + copied)[k := value] == s0.fields + copied[k := value];
    if first {
      assert s0.fields + map[] == s0.fields;
    }
  }

  lemma CopiedFromOtherSnoc(other: map<string, Section>, name: string, keys: seq<string>, k: string,
                            useNullForGuidEmpty: bool)
    ensures CopiedFromOther(other, name, keys + [k], useNullForGuidEmpty)
         == CopiedFromOther(other, name, keys, useNullForGuidEmpty)[k := Normalize(ValueOrNull(other, name, k), useNullForGuidEmpty)]
  {
  }

  /** Reading a field back while copying a card from itself: a field already
      copied holds its normalised value, which normalises to itself. */
  lemma ReadBackNormalized(src: map<string, Section>, before: map<string, Section>, now: map<string, Section>,
                           aliased: bool, name: string, done: seq<string>, k: string,
                           useNullForGuidEmpty: bool, value: Value)
    requires aliased ==> src == before
    requires aliased && done == [] ==> now == before
    requires aliased && done != [] ==> var s0 := GetOrAdd(before, name, Entry);
      now == before[name := s0.(fields := s0.fields + CopiedFromOther(src, name, done, useNullForGuidEmpty), hasChanges := true)]
    requires value == ValueOrNull(if aliased then now else src, name, k)
    ensures Normalize(value, useNullForGuidEmpty) == Normalize(ValueOrNull(src, name, k), useNullForGuidEmpty)
  {
  }

  /** `CopySection<T>`: over the whole key domain of `T` except the excluded
      keys, the target's field becomes the source's value, or null where the
      source has none; excluded keys are left alone. Both cards get the section
      if they lack it; the two cards may be the same. */
  method CopySection(card: Card, target: Card, t: EnumType, exclude: Option<seq<string>>)
    modifies card, target
    ensures var s0 := GetOrAdd(old(card.sections), t.name, Entry);
      var d0 := GetOrAdd(old(target.sections), t.name, Entry);
      var copied := CopiedValues(s0.fields, t.members, exclude);
      target.sections == old(target.sections)[t.name :=
        d0.(fields := d0.fields + copied, hasChanges := d0.hasChanges || copied != map[])]
    ensures card != target ==>
      card.sections == old(card.sections)[t.name := GetOrAdd(old(card.sections), t.name, Entry)]
  {
    var cardSection := GetOrAdd(card.sections, t.name, Entry);
    var targetSection := GetOrAdd(target.sections, t.name, Entry);
    ghost var d0 := targetSection;
    ghost var copied: map<string, Value> := map[];
    assert CopiedValues(cardSection.fields, t.members[..0], exclude) == copied;
    assert d0.fields + copied == d0.fields;
    var i := 0;
    while i < |t.members|
      invariant 0 <= i <= |t.members|
      invariant card.sections == old(card.sections) && target.sections == old(target.sections)
      invariant copied == CopiedValues(cardSection.fields, t.members[..i], exclude)
      invariant targetSection.kind == d0.kind && targetSection.rows == d0.rows
      invariant targetSection.fields == d0.fields + copied
      invariant targetSection.hasChanges == (d0.hasChanges || copied != map[])
    {
      var field := t.members[i];
      CopiedValuesSnoc(cardSection.fields, d0.fields, t.members[..i], field, exclude);
      assert t.members[..i + 1] == t.members[..i] + [field];
      copied := CopiedValues(cardSection.fields, t.members[..i + 1], exclude);
      if IsInArray(exclude, Some(field)) {
        i := i + 1;
        continue;
      }
      if field in cardSection.fields {
        targetSection := SetField(targetSection, field, cardSection.fields[field]);
      } else {
        targetSection := SetField(targetSection, field, Null);
      }
      i := i + 1;
    }
    assert t.members[..|t.members|] == t.members;
    assert targetSection == d0.(fields := d0.fields + copied, hasChanges := d0.hasChanges || copied != map[]);
    ghost var targetBefore := target.sections;
    card.sections := card.sections[t.name := cardSection];
    assert card == target ==> card.sections[t.name := targetSection] == targetBefore[t.name := targetSection];
    target.sections := target.sections[t.name := targetSection];
  }

  /** One step of a domain copy: an excluded key adds nothing, any other key
      adds the source's value (null where absent), and the copy is non-empty. */
  lemma CopiedValuesSnoc(source: map<string, Value>, target: map<string, Value>, domain: seq<string>, k: string,
                         exclude: Option<seq<string>>)
    ensures IsInArray(exclude, Some(k)) ==>
      CopiedValues(source, domain + [k], exclude) == CopiedValues(source, domain, exclude)
    ensures !IsInArray(exclude, Some(k)) ==>
      && CopiedValues(source, domain + [k], exclude) == CopiedValues(source, domain, exclude)[k := Lookup(source, k)]
      && CopiedValues(source, domain + [k], exclude) != map[]
      && (target + CopiedValues(source, domain, exclude))[k := Lookup(source, k)]
           == target + CopiedValues(source, domain + [k], exclude)
  {
    assert (domain + [k])[..|domain|] == domain;
    if !IsInArray(exclude, Some(k)) {
      assert k in CopiedValues(source, domain + [k], exclude);
    }
  }

  // Tables.

  /** A row after `CopyRowValues`: the domain copy over its fields; RowID and State kept. */
  function CopiedRow(source: Row, target: Row, t: EnumType, exclude: Option<seq<string>>): Row {
    target.(fields := target.fields + CopiedValues(source.fields, t.members, exclude))
  }

  /** `CopyRowValues<T>`: for every member of `T` not excluded, the target row's
      field is set to the source row's (null where the source row has none). */
  method CopyRowValues(sourceRow: Row, targetRow: Row, t: EnumType, exclude: Option<seq<string>>) returns (r: Row)
    ensures r == CopiedRow(sourceRow, targetRow, t, exclude)
  {
    r := targetRow;
    ghost var copied: map<string, Value> := map[];
    assert CopiedValues(sourceRow.fields, t.members[..0], exclude) == copied;
    assert targetRow.fields + copied == targetRow.fields;
    var i := 0;
    while i < |t.members|
      invariant 0 <= i <= |t.members|
      invariant copied == CopiedValues(sourceRow.fields, t.members[..i], exclude)
      invariant r.rowId == targetRow.rowId && r.state == targetRow.state
      invariant r.fields == targetRow.fields + copied
    {
      var field := t.members[i];
      CopiedValuesSnoc(sourceRow.fields, targetRow.fields, t.members[..i], field, exclude);
      assert t.members[..i + 1] == t.members[..i] + [field];
      copied := CopiedValues(sourceRow.fields, t.members[..i + 1], exclude);
      if IsInArray(exclude, Some(field)) {
        i := i + 1;
        continue;
      }
      var sourceRowField := Lookup(sourceRow.fields, field);
      r := r.(fields := r.fields[field := sourceRowField]);
      i := i + 1;
    }
    assert t.members[..|t.members|] == t.members;
  }

  /** The rows `CopyTable` leaves in the target: position by position, a row
      both sides have is copied and Modified, a target row beyond the source is
      Deleted with its fields untouched, and a source row beyond the target is
      appended as a copy with the next fresh RowID and state Inserted. */
  function Reconciled(src: seq<Row>, tgt: seq<Row>, t: EnumType, exclude: Option<seq<string>>,
                      newIds: seq<Guid>): (r: seq<Row>)
    requires |newIds| >= |src| - |tgt|
  {
    seq(Max(|src|, |tgt|), i requires 0 <= i < Max(|src|, |tgt|) =>
      if i < |tgt| && i < |src| then CopiedRow(src[i], tgt[i], t, exclude).(state := Modified)
      else if i < |tgt| then tgt[i].(state := Deleted)
      else CopiedRow(src[i], NewRow(), t, exclude).(rowId := newIds[i - |tgt|], state := Inserted))
  }

  /** `CopyTable<T>`: index-aligned reconciliation of the target table section
      with the source's. `newIds` stands for the values `Guid.NewGuid()` returns,
      one per appended row. The two cards may be the same. */
  method CopyTable(card: Card, target: Card, t: EnumType, exclude: Option<seq<string>>, newIds: seq<Guid>)
    requires |newIds| >= |GetOrAdd(card.sections, t.name, Collection).rows|
                        - |GetOrAdd(target.sections, t.name, Collection).rows|
    modifies card, target
    ensures var s0 := GetOrAdd(old(card.sections), t.name, Collection);
      var d0 := GetOrAdd(old(target.sections), t.name, Collection);
      target.sections == old(target.sections)[t.name := d0.(rows := Reconciled(s0.rows, d0.rows, t, exclude, newIds))]
    ensures card != target ==>
      card.sections == old(card.sections)[t.name := GetOrAdd(old(card.sections), t.name, Collection)]
  {
    var sourceSection := GetOrAdd(card.sections, t.name, Collection);
    var targetSection := GetOrAdd(target.sections, t.name, Collection);
    var src := sourceSection.rows;
    var rows := targetSection.rows;
    var sourceCount, targetCount := |src|, |rows|;
    ghost var result := Reconciled(src, rows, t, exclude, newIds);
    ghost var tgt := rows;

    var index := 0;
    while index < targetCount
      invariant 0 <= index <= targetCount && |rows| == targetCount
      invariant card.sections == old(card.sections) && target.sections == old(target.sections)
      invariant forall i :: 0 <= i < index ==> rows[i] == result[i]
      invariant forall i :: index <= i < targetCount ==> rows[i] == tgt[i]
    {
      if index < sourceCount {
        var copied := CopyRowValues(src[index], rows[index], t, exclude);
        rows := rows[index := copied.(state := Modified)];
      } else {
        rows := rows[index := rows[index].(state := Deleted)];
      }
      index := index + 1;
    }

    index := targetCount;
    while index < sourceCount
      invariant targetCount <= index <= Max(sourceCount, targetCount) && |rows| == index
      invariant card.sections == old(card.sections) && target.sections == old(target.sections)
      invariant forall i :: 0 <= i < index ==> rows[i] == result[i]
    {
      rows := rows + [NewRow()];
      var targetRow := CopyRowValues(src[index], rows[index], t, exclude);
      targetRow := targetRow.(rowId := newIds[index - targetCount], state := Inserted);
      rows := rows[index := targetRow];
      index := index + 1;
    }
    assert rows == result;
    ghost var targetBefore := target.sections;
    card.sections := card.sections[t.name := sourceSection];
    var reconciled := targetSection.(rows := rows);
    assert card == target ==> card.sections[t.name := reconciled] == targetBefore[t.name := reconciled];
    target.sections := target.sections[t.name := reconciled];
  }

  /** The row-level facts `CopyTable` promises, position by position. */
  lemma ReconciledAt(src: seq<Row>, tgt: seq<Row>, t: EnumType, exclude: Option<seq<string>>,
                     newIds: seq<Guid>, i: nat, k: string)
    requires |newIds| >= |src| - |tgt|
    ensures |Reconciled(src, tgt, t, exclude, newIds)| == Max(|src|, |tgt|)
    ensures var r := Reconciled(src, tgt, t, exclude, newIds);
      && (i < |src| && i < |tgt| ==>
            r[i].state == Modified && r[i].rowId == tgt[i].rowId
            && (k in t.members && !IsInArray(exclude, Some(k)) ==> Lookup(r[i].fields, k) == Lookup(src[i].fields, k))
            && (k !in t.members || IsInArray(exclude, Some(k)) ==> Lookup(r[i].fields, k) == Lookup(tgt[i].fields, k)))
      && (|src| <= i < |tgt| ==> r[i].state == Deleted && r[i].fields == tgt[i].fields && r[i].rowId == tgt[i].rowId)
      && (|tgt| <= i < |src| ==>
            r[i].state == Inserted && r[i].rowId == newIds[i - |tgt|]
            && (k in t.members && !IsInArray(exclude, Some(k)) ==> k in r[i].fields && r[i].fields[k] == Lookup(src[i].fields, k))
            && (k !in t.members || IsInArray(exclude, Some(k)) ==> k !in r[i].fields))
  {
    if i < |src| {
      CopiedValuesAt(src[i].fields, t.members, exclude, k);
    }
  }

  /** The number of rows that will not be deleted. */
  function LiveCount(rows: seq<Row>): nat
    decreases |rows|
  {
    if |rows| == 0 then 0 else (if rows[0].state == Deleted then 0 else 1) + LiveCount(rows[1..])
  }

  lemma {:induction false} LiveCountAppend(a: seq<Row>, b: seq<Row>)
    ensures LiveCount(a + b) == LiveCount(a) + LiveCount(b)
    decreases |a|
  {
    if |a| == 0 {
      assert a + b == b;
    } else {
      assert (a + b)[1..] == a[1..] + b;
      LiveCountAppend(a[1..], b);
    }
  }

  lemma {:induction false} LiveCountAll(rows: seq<Row>)
    requires forall i :: 0 <= i < |rows| ==> rows[i].state != Deleted
    ensures LiveCount(rows) == |rows|
    decreases |rows|
  {
    if |rows| > 0 {
      LiveCountAll(rows[1..]);
    }
  }

  lemma {:induction false} LiveCountNone(rows: seq<Row>)
    requires forall i :: 0 <= i < |rows| ==> rows[i].state == Deleted
    ensures LiveCount(rows) == 0
    decreases |rows|
  {
    if |rows| > 0 {
      LiveCountNone(rows[1..]);
    }
  }

  /** After reconciliation no row is left Unchanged, and exactly as many rows
      survive (are not Deleted) as the source has. */
  lemma ReconciledLiveRows(src: seq<Row>, tgt: seq<Row>, t: EnumType, exclude: Option<seq<string>>,
                           newIds: seq<Guid>)
    requires |newIds| >= |src| - |tgt|
    ensures forall i :: 0 <= i < |Reconciled(src, tgt, t, exclude, newIds)| ==>
      Reconciled(src, tgt, t, exclude, newIds)[i].state != Unchanged
    ensures LiveCount(Reconciled(src, tgt, t, exclude, newIds)) == |src|
  {
    var r := Reconciled(src, tgt, t, exclude, newIds);
    if |src| >= |tgt| {
      LiveCountAll(r);
    } else {
      assert r == r[..|src|] + r[|src|..];
      LiveCountAppend(r[..|src|], r[|src|..]);
      LiveCountAll(r[..|src|]);
      LiveCountNone(r[|src|..]);
    }
  }

  /** RowIDs stay unique: if the target's RowIDs are distinct and the fresh ids
      are distinct and unused by the target, the reconciled rows' ids are distinct. */
  lemma ReconciledIdsUnique(src: seq<Row>, tgt: seq<Row>, t: EnumType, exclude: Option<seq<string>>,
                            newIds: seq<Guid>)
    requires |newIds| >= |src| - |tgt|
    requires forall i, j :: 0 <= i < j < |tgt| ==> tgt[i].rowId != tgt[j].rowId
    requires forall i, j :: 0 <= i < j < |newIds| ==> newIds[i] != newIds[j]
    requires forall i, j :: 0 <= i < |tgt| && 0 <= j < |newIds| ==> tgt[i].rowId != newIds[j]
    ensures var r := Reconciled(src, tgt, t, exclude, newIds);
      forall i, j :: 0 <= i < j < |r| ==> r[i].rowId != r[j].rowId
  {
    var r := Reconciled(src, tgt, t, exclude, newIds);
    forall i, j | 0 <= i < j < |r|
      ensures r[i].rowId != r[j].rowId
    {
      if j < |tgt| {
        assert r[i].rowId == tgt[i].rowId && r[j].rowId == tgt[j].rowId;
      } else if i < |tgt| {
        assert r[i].rowId == tgt[i].rowId && r[j].rowId == newIds[j - |tgt|];
      } else {
        assert r[i].rowId == newIds[i - |tgt|] && r[j].rowId == newIds[j - |tgt|];
      }
    }
  }

  // Appending rows.

  /** A row `AddSectionRowsSilently` or `AddSectionRowSilently` appends: the
      given fields, `Guid.Empty` as RowID, the state `Rows.Add()` gives. */
  function PlainRow(values: map<string, Value>): Row {
    NewRow().(fields := values)
  }

  /** `AddSectionRow<T>`: one new row with exactly the given fields and state
      Inserted is appended to the table section (created if absent); the rows
      before stay as they were. */
  method AddSectionRow(card: Card, t: EnumType, values: map<string, Value>)
    modifies card
    ensures var s0 := GetOrAdd(old(card.sections), t.name, Collection);
      card.sections == old(card.sections)[t.name :=
        s0.(rows := s0.rows + [Row(values, EmptyGuid, Inserted)])]
  {
    var cardSection := GetOrAdd(card.sections, t.name, Collection);
    var newRow := NewRow();
    var fields := WriteFields(newRow.fields, values);
    assert fields == values;
    newRow := newRow.(fields := fields);
    newRow := newRow.(state := Inserted);
    cardSection := cardSection.(rows := cardSection.rows + [newRow]);
    card.sections := card.sections[t.name := cardSection];
  }

  /** `AddSectionRowSilently<T>`: one new row with the given fields, left in the
      state `Rows.Add()` gives it; the section has no pending changes afterwards. */
  method AddSectionRowSilently(card: Card, t: EnumType, values: map<string, Value>)
    modifies card
    ensures var s0 := GetOrAdd(old(card.sections), t.name, Collection);
      card.sections == old(card.sections)[t.name :=
        s0.(rows := s0.rows + [PlainRow(values)], hasChanges := false)]
  {
    var cardSection := GetOrAdd(card.sections, t.name, Collection);
    var newRow := NewRow();
    var fields := WriteFields(newRow.fields, values);
    assert fields == values;
    newRow := newRow.(fields := fields);
    cardSection := cardSection.(rows := cardSection.rows + [newRow]);
    cardSection := RemoveChanges(cardSection);
    card.sections := card.sections[t.name := cardSection];
  }

  /** The rows `AddSectionRowsSilently` appends, one per dictionary, in list order. */
  function PlainRows(rows: seq<map<string, Value>>): (r: seq<Row>)
    ensures |r| == |rows|
    ensures forall i :: 0 <= i < |rows| ==> r[i] == PlainRow(rows[i])
  {
    seq(|rows|, i requires 0 <= i < |rows| => PlainRow(rows[i]))
  }

  /** `AddSectionRowsSilently<T>`: the rows are appended after the existing ones;
      the section has no pending changes afterwards. */
  method AddSectionRowsSilently(card: Card, t: EnumType, rows: seq<map<string, Value>>)
    modifies card
    ensures var s0 := GetOrAdd(old(card.sections), t.name, Collection);
      card.sections == old(card.sections)[t.name :=
        s0.(rows := s0.rows + PlainRows(rows), hasChanges := false)]
  {
    var cardSection := GetOrAdd(card.sections, t.name, Collection);
    ghost var s0 := cardSection;
    var j := 0;
    while j < |rows|
      invariant 0 <= j <= |rows|
      invariant card.sections == old(card.sections)
      invariant cardSection == s0.(rows := s0.rows + PlainRows(rows[..j]))
    {
      var newRow := NewRow();
      var fields := WriteFields(newRow.fields, rows[j]);
      assert fields == rows[j];
      newRow := newRow.(fields := fields);
      assert PlainRows(rows[..j + 1]) == PlainRows(rows[..j]) + [newRow];
      cardSection := cardSection.(rows := cardSection.rows + [newRow]);
      j := j + 1;
    }
    assert rows[..|rows|] == rows;
    cardSection := RemoveChanges(cardSection);
    card.sections := card.sections[t.name := cardSection];
  }

  /** Appending rows one list at a time is appending their concatenation. */
  lemma PlainRowsAppend(a: seq<map<string, Value>>, b: seq<map<string, Value>>)
    ensures PlainRows(a + b) == PlainRows(a) + PlainRows(b)
    ensures PlainRows([]) == []
  {
  }
}
