/**
 * The value literaliser (`OrmUtils.Stringify`, both forms) and the
 * table-name-from-type helper (`OrmUtils.GetTableNameByType`).
 */
module OrmUtils {
  import opened Text
  import opened FieldValue

  /** The conventional suffix of record-section class names. */
  const SectionClassSuffix: string := "Class"

  // The scalar literal.

  /** The custom format `yyyy-MM-dd HH:mm:ss`: zero-padded components,
      seconds precision. */
  function DateTimeText(dt: DateTime): string {
    PadNat(dt.year, 4) + "-" + PadNat(dt.month, 2) + "-" + PadNat(dt.day, 2) + " "
      + PadNat(dt.hour, 2) + ":" + PadNat(dt.minute, 2) + ":" + PadNat(dt.second, 2)
  }

  /** `Stringify(object)`: the SQL text of one value. */
  function Stringify(v: Value): (r: string)
    ensures v.Str? || v.GuidValue? || v.DateTimeValue? ==> |r| >= 2 && r[0] == '\'' && r[|r| - 1] == '\''
  {
    match v
    case Null => "NULL"
    case GuidValue(g) => "'" + GuidText(g) + "'"
    case Str(s) => "'" + s + "'"
    case DateTimeValue(dt) => "'" + DateTimeText(dt) + "'"
    case Int(i) => IntToString(i)
    case Bool(b) => if b then "True" else "False"
    case Other(text) => text
  }

  /** A string literal is the string between two quotes, taken verbatim:
      removing the delimiters gives the string back, and an embedded quote
      is not doubled, so the literal has exactly two more quotes than the string. */
  lemma StringLiteralVerbatim(s: string)
    ensures |Stringify(Str(s))| == |s| + 2
    ensures Stringify(Str(s))[1..|s| + 1] == s
    ensures Count(Stringify(Str(s)), '\'') == Count(s, '\'') + 2
  {
    CountAppend("'" + s, "'", '\'');
    CountAppend("'", s, '\'');
  }

  lemma StringLiteralNotEscaped()
    ensures Stringify(Str("a'b")) == "'a'b'"
    ensures Stringify(Null) == "NULL"
  {
  }

  /** A Guid literal is the quoted "D" form; different Guids give different literals. */
  lemma GuidLiteralInjective(g: Guid, h: Guid)
    ensures |Stringify(GuidValue(g))| == 38
    ensures Stringify(GuidValue(g))[1..37] == GuidText(g)
    ensures Stringify(GuidValue(g)) == Stringify(GuidValue(h)) <==> g == h
  {
    GuidTextInjective(g, h);
    GuidTextInjective(h, g);
    if Stringify(GuidValue(g)) == Stringify(GuidValue(h)) {
      assert Stringify(GuidValue(g))[1..37] == GuidText(h);
    }
  }

  /** A date literal of a valid `DateTime` is 21 characters, `'yyyy-MM-dd HH:mm:ss'`,
      and each component reads back from its position. */
  lemma DateTimeLiteralLayout(dt: DateTime)
    requires ValidDateTime(dt)
    ensures var s := Stringify(DateTimeValue(dt));
      && |s| == 21
      && s[0] == '\'' && s[5] == '-' && s[8] == '-' && s[11] == ' '
      && s[14] == ':' && s[17] == ':' && s[20] == '\''
      && IsDigits(s[1..5]) && ParseNat(s[1..5]) == dt.year
      && IsDigits(s[6..8]) && ParseNat(s[6..8]) == dt.month
      && IsDigits(s[9..11]) && ParseNat(s[9..11]) == dt.day
      && IsDigits(s[12..14]) && ParseNat(s[12..14]) == dt.hour
      && IsDigits(s[15..17]) && ParseNat(s[15..17]) == dt.minute
      && IsDigits(s[18..20]) && ParseNat(s[18..20]) == dt.second
  {
    assert Pow10(2) == 100 && Pow10(4) == 10000;
    PadNatRoundTrip(dt.year, 4);
    PadNatRoundTrip(dt.month, 2);
    PadNatRoundTrip(dt.day, 2);
    PadNatRoundTrip(dt.hour, 2);
    PadNatRoundTrip(dt.minute, 2);
    PadNatRoundTrip(dt.second, 2);
    var y, mo, d := PadNat(dt.year, 4), PadNat(dt.month, 2), PadNat(dt.day, 2);
    var h, mi, se := PadNat(dt.hour, 2), PadNat(dt.minute, 2), PadNat(dt.second, 2);
    LiteralPieces(y, mo, d, h, mi, se);
  }

  /** Where the six fixed-width pieces sit in a date literal. */
  lemma LiteralPieces(y: string, mo: string, d: string, h: string, mi: string, se: string)
    requires |y| == 4 && |mo| == 2 && |d| == 2 && |h| == 2 && |mi| == 2 && |se| == 2
    ensures var s := "'" + (y + "-" + mo + "-" + d + " " + h + ":" + mi + ":" + se) + "'";
      && |s| == 21
      && s[0] == '\'' && s[5] == '-' && s[8] == '-' && s[11] == ' '
      && s[14] == ':' && s[17] == ':' && s[20] == '\''
      && s[1..5] == y && s[6..8] == mo && s[9..11] == d
      && s[12..14] == h && s[15..17] == mi && s[18..20] == se
  {
    var s := "'" + (y + "-" + mo + "-" + d + " " + h + ":" + mi + ":" + se) + "'";
    assert s == "'" + y + "-" + mo + "-" + d + " " + h + ":" + mi + ":" + se + "'";
    assert s[1..5] == y;
    assert s[6..8] == mo;
    assert s[9..11] == d;
    assert s[12..14] == h;
    assert s[15..17] == mi;
    assert s[18..20] == se;
  }

  /** Seconds precision: two valid dates give the same literal exactly when
      they agree down to the second (the sub-second part is dropped). */
  lemma DateTimeLiteralSecondsPrecision(a: DateTime, b: DateTime)
    requires ValidDateTime(a) && ValidDateTime(b)
    ensures Stringify(DateTimeValue(a)) == Stringify(DateTimeValue(b)) <==>
      a.(fraction := 0) == b.(fraction := 0)
  {
    DateTimeLiteralLayout(a);
    DateTimeLiteralLayout(b);
  }

  // The list literal.

  /** The elements the list form renders: all of them, or the non-null ones
      when `ignoreNull` holds, in their original order. */
  function Kept(values: seq<Value>, ignoreNull: bool): (r: seq<Value>)
    ensures ignoreNull ==> forall i :: 0 <= i < |r| ==> r[i] != Null
    ensures !ignoreNull ==> r == values
    ensures forall x :: x in r ==> x in values
    ensures forall x :: x in values && (x != Null || !ignoreNull) ==> x in r
    decreases |values|
  {
    if |values| == 0 then []
    else
      var init := values[..|values| - 1];
      var last := values[|values| - 1];
      assert values == init + [last];
      if ignoreNull && last == Null then Kept(init, ignoreNull) else Kept(init, ignoreNull) + [last]
  }

  /** One element is kept unless it is a null that is being ignored. */
  lemma KeptSingle(x: Value, ignoreNull: bool)
    ensures Kept([x], ignoreNull) == if ignoreNull && x == Null then [] else [x]
  {
    assert [x][..0] == [];
  }

  /** Keeping distributes over concatenation, so `Kept` is the filter that
      preserves the order and the multiplicity of the elements it keeps. */
  lemma {:induction false} KeptAppend(a: seq<Value>, b: seq<Value>, ignoreNull: bool)
    ensures Kept(a + b, ignoreNull) == Kept(a, ignoreNull) + Kept(b, ignoreNull)
    decreases |b|
  {
    if |b| == 0 {
      assert a + b == a;
    } else {
      var init := b[..|b| - 1];
      var last := b[|b| - 1];
      assert (a + b)[..|a + b| - 1] == a + init;
      assert (a + b)[|a + b| - 1] == last;
      assert b[..|b| - 1] == init;
      KeptAppend(a, init, ignoreNull);
    }
  }

  function Literals(values: seq<Value>): (r: seq<string>)
    ensures |r| == |values|
    ensures forall i :: 0 <= i < |values| ==> r[i] == Stringify(values[i])
  {
    seq(|values|, i requires 0 <= i < |values| => Stringify(values[i]))
  }

  /** What `Stringify(values, ignoreNull)` produces: the literals of the kept
      elements joined by commas. */
  function ListLiteral(values: seq<Value>, ignoreNull: bool): string {
    Join(",", Literals(Kept(values, ignoreNull)))
  }

  /** `Stringify(IEnumerable, ignoreNull)`: a builder loop with a `needComma` flag. */
  method StringifyList(values: seq<Value>, ignoreNull: bool) returns (s: string)
    ensures s == ListLiteral(values, ignoreNull)
  {
    s := "";
    var needComma := false;
    ghost var lits: seq<string> := [];
    var i := 0;
    while i < |values|
      invariant 0 <= i <= |values|
      invariant lits == Literals(Kept(values[..i], ignoreNull))
      invariant needComma <==> lits != []
      invariant s == Join(",", lits)
    {
      var value := values[i];
      if ignoreNull && value == Null {
        ListDropStep(values, i, ignoreNull);
        i := i + 1;
        continue;
      }
      var literal := Stringify(value);
      ListKeepStep(values, i, ignoreNull);
      JoinStep(",", lits, literal, s, needComma);
      if needComma {
        s := s + ",";
      }
      s := s + literal;
      needComma := true;
      lits := lits + [literal];
      i := i + 1;
    }
    assert values[..|values|] == values;
  }

  /** A dropped null adds nothing to the kept elements. */
  lemma ListDropStep(values: seq<Value>, i: nat, ignoreNull: bool)
    requires i < |values| && ignoreNull && values[i] == Null
    ensures Kept(values[..i + 1], ignoreNull) == Kept(values[..i], ignoreNull)
  {
    assert values[..i + 1][..i] == values[..i];
  }

  /** Any other element adds its literal after the literals of the kept prefix. */
  lemma ListKeepStep(values: seq<Value>, i: nat, ignoreNull: bool)
    requires i < |values| && !(ignoreNull && values[i] == Null)
    ensures Literals(Kept(values[..i + 1], ignoreNull))
      == Literals(Kept(values[..i], ignoreNull)) + [Stringify(values[i])]
  {
    KeptPrefixStep(values, i, ignoreNull);
    LiteralsSnoc(Kept(values[..i], ignoreNull), values[i]);
  }

  /** A kept element extends the kept prefix by itself. */
  lemma KeptPrefixStep(values: seq<Value>, i: nat, ignoreNull: bool)
    requires i < |values| && !(ignoreNull && values[i] == Null)
    ensures Kept(values[..i + 1], ignoreNull) == Kept(values[..i], ignoreNull) + [values[i]]
  {
    assert values[..i + 1][..i] == values[..i];
  }

  /** The literal of an appended element is appended to the literals. */
  lemma LiteralsSnoc(values: seq<Value>, v: Value)
    ensures Literals(values + [v]) == Literals(values) + [Stringify(v)]
  {
  }

  /** An empty list, or one holding only nulls when nulls are ignored, renders as "". */
  lemma ListLiteralEmpty(values: seq<Value>)
    requires forall i :: 0 <= i < |values| ==> values[i] == Null
    ensures ListLiteral(values, true) == ""
    ensures ListLiteral([], false) == ""
  {
    NullsAllDropped(values);
  }

  lemma {:induction false} NullsAllDropped(values: seq<Value>)
    requires forall i :: 0 <= i < |values| ==> values[i] == Null
    ensures Kept(values, true) == []
    decreases |values|
  {
    if |values| > 0 {
      NullsAllDropped(values[..|values| - 1]);
    }
  }

  /** The null in the middle of `[1, null, 2]` is the only element dropped. */
  lemma NullDroppedExample()
    ensures Kept([Int(1), Null, Int(2)], true) == [Int(1), Int(2)]
  {
    KeptSingle(Int(1), true);
    assert [Int(1), Null][..1] == [Int(1)];
    assert Kept([Int(1), Null], true) == [Int(1)];
    assert [Int(1), Null, Int(2)][..2] == [Int(1), Null];
  }

  /** Nulls are dropped or written as NULL, depending on the flag. */
  lemma ListLiteralExample()
    ensures ListLiteral([Int(1), Null, Int(2)], true) == "1,2"
    ensures ListLiteral([Int(1), Null, Int(2)], false) == "1,NULL,2"
  {
    NullDroppedExample();
    var one, two := Stringify(Int(1)), Stringify(Int(2));
    assert one == "1" && two == "2" && Stringify(Null) == "NULL";
    assert Literals([Int(1), Int(2)]) == [one, two];
    assert [one, two][1..] == [two];
    assert Join(",", [one, two]) == one + "," + two;
    assert Literals([Int(1), Null, Int(2)]) == [one, "NULL", two];
    assert [one, "NULL", two][1..] == ["NULL", two] && ["NULL", two][1..] == [two];
    assert Join(",", ["NULL", two]) == "NULL" + "," + two;
    assert Join(",", [one, "NULL", two]) == one + "," + ("NULL" + "," + two);
  }

  /** The list literal is the comma-join of the element literals: splitting it
      on commas gives them back when none of them contains a comma (so there is
      no leading, trailing or doubled comma). */
  lemma ListLiteralSplit(values: seq<Value>, ignoreNull: bool)
    requires Kept(values, ignoreNull) != []
    requires forall x :: x in values ==> ',' !in Stringify(x)
    ensures Split(ListLiteral(values, ignoreNull), ',') == Literals(Kept(values, ignoreNull))
  {
    var parts := Literals(Kept(values, ignoreNull));
    assert forall i :: 0 <= i < |parts| ==> ',' !in parts[i] by {
      forall i | 0 <= i < |parts| ensures ',' !in parts[i] {
        assert Kept(values, ignoreNull)[i] in values;
      }
    }
    SplitJoin(parts, ',');
  }

  // Table names.

  predicate EndsWith(s: string, suffix: string) {
    |suffix| <= |s| && s[|s| - |suffix|..] == suffix
  }

  /** `GetTableNameByType`: the type name without one trailing "Class". */
  function GetTableNameByType(typeName: string): (r: string)
    ensures r <= typeName
    ensures EndsWith(typeName, SectionClassSuffix) ==> r + SectionClassSuffix == typeName
    ensures !EndsWith(typeName, SectionClassSuffix) ==> r == typeName
  {
    if EndsWith(typeName, SectionClassSuffix)
    then typeName[..|typeName| - |SectionClassSuffix|]
    else typeName
  }

  /** Appending the suffix and stripping it again gives the name back; only one
      suffix is stripped. */
  lemma TableNameStripsOnce(name: string)
    ensures GetTableNameByType(name + SectionClassSuffix) == name
    ensures GetTableNameByType("ContractsClassClass") == "ContractsClass"
    ensures GetTableNameByType("Contracts") == "Contracts"
  {
    var s := name + SectionClassSuffix;
    assert s[|s| - |SectionClassSuffix|..] == SectionClassSuffix;
    assert s[..|name|] == name;
    var t := "ContractsClassClass";
    assert t[|t| - 5..] == "Class";
    var u := "Contracts";
    assert u[|u| - 5..] != "Class" by { assert u[|u| - 5] == 'r'; }
  }
}
