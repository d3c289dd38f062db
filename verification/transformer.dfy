/**
 * The row transformer of transformer/agent.py (`Agent`): column specs of the
 * form "src:dest" pick and rename fields of each scraped record, values are
 * cleaned (null markers, numeric-looking text), and empty rows are dropped.
 *
 * Record values are JSON scalars; only `null` and strings are modelled. The
 * decimal branch of the cleaner ends in `round(float(txt), 3)`: the model keeps
 * the text handed to `float` and leaves the conversion uninterpreted.
 */
module Transformer {
  import opened Wrappers
  import opened Strings

  datatype Scalar = Null | Text(s: string)

  /**
   * A cleaned cell: a value passed through unconverted (`Raw(Null)` is
   * Python's `None`), an integer read from digits, or the result of
   * `round(float(mantissa), 3)`.
   */
  datatype Cell = Raw(v: Scalar) | Number(n: nat) | Rounded(mantissa: string)

  type Row = map<string, Scalar>

  const NullMarkers: set<string> := {"n\\a", "n/a", ""}
  /** The characters deleted before the all-digits test. */
  const NumberMarks: set<char> := {'E', '.', ',', '-', '+', '%'}
  /** The characters deleted, one after the other, from a decimal's text. */
  const DecimalMarks: string := ",+%"
  const TickerColumn: string := "ticker"
  const TimestampColumn: string := "timestamp_created_utc"

  predicate IsDigit(c: char)
  {
    '0' <= c <= '9'
  }

  /** Python's `str.isdigit()`, for ASCII digits: non-empty and digits only. */
  predicate IsDigits(s: string)
  {
    |s| > 0 && forall i :: 0 <= i < |s| ==> IsDigit(s[i])
  }

  /** The number a string of decimal digits spells. */
  function DecimalValue(s: string): nat
    requires forall i :: 0 <= i < |s| ==> IsDigit(s[i])
  {
    if s == [] then 0
    else
      assert IsDigit(s[|s| - 1]);
      10 * DecimalValue(s[..|s| - 1]) + (s[|s| - 1] as int - '0' as int)
  }

  /** The digits of `s`, in order. */
  function DigitsOf(s: string): (r: string)
    ensures forall i :: 0 <= i < |r| ==> IsDigit(r[i])
  {
    if s == [] then [] else if IsDigit(s[0]) then [s[0]] + DigitsOf(s[1..]) else DigitsOf(s[1..])
  }

  /** `s.replace(marks[0], "")`, then `.replace(marks[1], "")`, and so on. */
  function RemoveEach(s: string, marks: string): string
  {
    if marks == [] then s else Remove(RemoveEach(s, marks[..|marks| - 1]), {marks[|marks| - 1]})
  }

  /** The text handed to `float` on the decimal branch. */
  function Mantissa(s: string): string
  {
    RemoveEach(if 'E' in s then Before(s, "E") else s, DecimalMarks)
  }

  /** What `_clean_value` returns. */
  function Cleaned(v: Scalar): Cell
  {
    match v
    case Null => Raw(Null)
    case Text(s) =>
      if s in NullMarkers then Raw(Null)
      else if !IsDigits(Remove(s, NumberMarks)) then Raw(v)
      else if '.' in s then Rounded(Mantissa(s))
      else Number(DecimalValue(Remove(s, NumberMarks)))
  }

  /** `_clean_value`, with its loop deleting ",", "+" and "%" from a decimal's text. */
  method CleanValue(value: Scalar) returns (c: Cell)
    ensures c == Cleaned(value)
  {
    if value.Null? || value.s in NullMarkers {
      return Raw(Null);
    }
    var txt := value.s;
    var sanitized := Remove(txt, NumberMarks);
    if IsDigits(sanitized) {
      if '.' in txt {
        if 'E' in txt {
          txt := Before(txt, "E");
        }
        ghost var start := txt;
        for i := 0 to |DecimalMarks|
          invariant txt == RemoveEach(start, DecimalMarks[..i])
        {
          assert DecimalMarks[..i + 1][..i] == DecimalMarks[..i];
          txt := Remove(txt, {DecimalMarks[i]});
        }
        assert DecimalMarks[..|DecimalMarks|] == DecimalMarks;
        return Rounded(txt);
      }
      return Number(DecimalValue(sanitized));
    }
    return Raw(value);
  }

  /** The pieces of a spec: `spec.split(":")`. */
  function Source(spec: string): string
  {
    Split(spec, ':')[0]
  }

  /** `dest[0] if dest else src` after `src, *dest = spec.split(":")`. */
  function Destination(spec: string): string
  {
    var parts := Split(spec, ':');
    if |parts| > 1 then parts[1] else parts[0]
  }

  /** `spec.split(":")[-1]`: the column an empty table gets for this spec. */
  function ColumnName(spec: string): string
  {
    var parts := Split(spec, ':');
    parts[|parts| - 1]
  }

  /** The cell stored for `spec` when its source is present in `row`. */
  function Mapped(row: Row, spec: string): Cell
    requires Source(spec) in row
  {
    if Destination(spec) == TickerColumn then Raw(row[Source(spec)]) else Cleaned(row[Source(spec)])
  }

  /** What `_parse_row` returns: the specs applied first to last. */
  function Parsed(row: Row, mapping: seq<string>): map<string, Cell>
  {
    if mapping == [] then map[]
    else
      var spec := mapping[|mapping| - 1];
      var parsed := Parsed(row, mapping[..|mapping| - 1]);
      if Source(spec) !in row then parsed else parsed[Destination(spec) := Mapped(row, spec)]
  }

  /** `_parse_row`. */
  method ParseRow(row: Row, mapping: seq<string>) returns (parsed: map<string, Cell>)
    ensures parsed == Parsed(row, mapping)
  {
    parsed := map[];
    for i := 0 to |mapping|
      invariant parsed == Parsed(row, mapping[..i])
    {
      var spec := mapping[i];
      assert mapping[..i + 1][..i] == mapping[..i];
      var parts := Split(spec, ':');
      var src := parts[0];
      var dest := if |parts| > 1 then parts[1] else src;
      assert src == Source(spec) && dest == Destination(spec);
      if src !in row {
        continue;
      }
      if dest == TickerColumn {
        parsed := parsed[dest := Raw(row[src])];
      } else {
        var cleaned := CleanValue(row[src]);
        assert cleaned == Mapped(row, spec);
        parsed := parsed[dest := cleaned];
      }
    }
    assert mapping[..|mapping|] == mapping;
  }

  /** `spec` has its source present in `row` and destination `k`. */
  predicate Feeds(row: Row, spec: string, k: string)
  {
    Source(spec) in row && Destination(spec) == k
  }

  /** The index of the last spec that feeds `k`, if any. */
  function LastSpec(row: Row, mapping: seq<string>, k: string): (r: Option<nat>)
    ensures r.Some? ==> r.value < |mapping| && Feeds(row, mapping[r.value], k)
  {
    if mapping == [] then None
    else if Feeds(row, mapping[|mapping| - 1], k) then Some(|mapping| - 1)
    else LastSpec(row, mapping[..|mapping| - 1], k)
  }

  /** `LastSpec` finds the LAST spec feeding `k`, and finds none only when no spec feeds it. */
  lemma {:induction false} LastSpecIsLast(row: Row, mapping: seq<string>, k: string)
    ensures LastSpec(row, mapping, k).Some? ==>
              forall j :: LastSpec(row, mapping, k).value < j < |mapping| ==> !Feeds(row, mapping[j], k)
    ensures LastSpec(row, mapping, k).None? ==>
              forall j :: 0 <= j < |mapping| ==> !Feeds(row, mapping[j], k)
  {
    if mapping != [] && !Feeds(row, mapping[|mapping| - 1], k) {
      var init := mapping[..|mapping| - 1];
      LastSpecIsLast(row, init, k);
      forall j | 0 <= j < |init| ensures init[j] == mapping[j] {}
    }
  }

  /** The empty-table columns: the last `:`-piece of every spec, then the timestamp column. */
  function EmptyColumns(mapping: seq<string>): (cols: seq<string>)
    ensures |cols| == |mapping| + 1 && cols[|mapping|] == TimestampColumn
    ensures forall i :: 0 <= i < |mapping| ==> cols[i] == ColumnName(mapping[i])
  {
    seq(|mapping|, i requires 0 <= i < |mapping| => ColumnName(mapping[i])) + [TimestampColumn]
  }

  /** `[r for r in rows if r]`. */
  function KeepNonEmpty(rows: seq<map<string, Cell>>): (r: seq<map<string, Cell>>)
    ensures |r| <= |rows|
    ensures forall x :: x in r <==> x in rows && x != map[]
    ensures multiset(r) == multiset(rows)[map[] := 0]
  {
    if rows == [] then []
    else
      var rest := KeepNonEmpty(rows[1..]);
      assert rows == [rows[0]] + rows[1..];
      if rows[0] == map[] then rest
      else [rows[0]] + rest
  }

  /** Filtering a concatenation filters each part and keeps them in order. */
  lemma {:induction false} KeepNonEmptyAppend(a: seq<map<string, Cell>>, b: seq<map<string, Cell>>)
    ensures KeepNonEmpty(a + b) == KeepNonEmpty(a) + KeepNonEmpty(b)
  {
    if a != [] {
      assert (a + b)[1..] == a[1..] + b;
      KeepNonEmptyAppend(a[1..], b);
    } else {
      assert a + b == b;
    }
  }

  /** The parsed record of every input record, in input order. */
  function ParsedRows(data: seq<Row>, mapping: seq<string>): (rows: seq<map<string, Cell>>)
    ensures |rows| == |data|
    ensures forall i :: 0 <= i < |data| ==> rows[i] == Parsed(data[i], mapping)
  {
    seq(|data|, i requires 0 <= i < |data| => Parsed(data[i], mapping))
  }

  /** A transformed table: the kept rows, or, when none is left, just the column names. */
  datatype Table = Records(rows: seq<map<string, Cell>>) | NoRecords(columns: seq<string>)

  /**
   * `transform` without the DataFrame and the timestamp value: parse every
   * record, drop the rows that parsed to nothing, and name the columns
   * when no row is left.
   */
  function Transform(data: seq<Row>, mapping: seq<string>): (t: Table)
    ensures t.NoRecords? <==> forall i :: 0 <= i < |data| ==> Parsed(data[i], mapping) == map[]
    ensures t.Records? ==> 0 < |t.rows| <= |data|
    ensures t.Records? ==>
              forall r :: r in t.rows ==> r != map[] && exists i :: 0 <= i < |data| && r == Parsed(data[i], mapping)
    ensures t.Records? ==>
              forall i :: 0 <= i < |data| && Parsed(data[i], mapping) != map[] ==> Parsed(data[i], mapping) in t.rows
    ensures t.Records? ==> multiset(t.rows) == multiset(ParsedRows(data, mapping))[map[] := 0]
    ensures t.Records? ==> t.rows == KeepNonEmpty(ParsedRows(data, mapping))
    ensures t.NoRecords? ==> t.columns == EmptyColumns(mapping)
  {
    var parsed := ParsedRows(data, mapping);
    var rows := KeepNonEmpty(parsed);
    forall i | 0 <= i < |data| && Parsed(data[i], mapping) != map[] ensures Parsed(data[i], mapping) in rows {
      assert parsed[i] in parsed;
    }
    assert rows == [] <==> forall i :: 0 <= i < |data| ==> Parsed(data[i], mapping) == map[] by {
      if rows != [] {
        assert rows[0] in parsed;
      } else {
        forall i | 0 <= i < |data| ensures Parsed(data[i], mapping) == map[] {
          assert parsed[i] in parsed;
        }
      }
    }
    if rows == [] then NoRecords(EmptyColumns(mapping)) else Records(rows)
  }

  // ---------------------------------------------------------------------------
  // Properties of the cleaner
  // ---------------------------------------------------------------------------

  /** `None`, "n\\a", "n/a" and "" become `None`, and nothing else does. */
  lemma CleanedIsNone(v: Scalar)
    ensures Cleaned(v) == Raw(Null) <==> v == Null || v.s in NullMarkers
  {
  }

  lemma {:induction false} RemoveMarksAllDigits(s: string)
    ensures IsDigits(Remove(s, NumberMarks))
        <==> (exists i :: 0 <= i < |s| && IsDigit(s[i]))
             && forall i :: 0 <= i < |s| ==> IsDigit(s[i]) || s[i] in NumberMarks
    ensures (forall i :: 0 <= i < |Remove(s, NumberMarks)| ==> IsDigit(Remove(s, NumberMarks)[i]))
            ==> Remove(s, NumberMarks) == DigitsOf(s)
  {
    if s != [] {
      RemoveMarksAllDigits(s[1..]);
      assert forall i :: 1 <= i < |s| ==> s[i] == s[1..][i - 1];
      if IsDigits(Remove(s, NumberMarks)) {
        assert IsDigit(s[0]) || s[0] in NumberMarks;
      }
      if !(IsDigit(s[0]) || s[0] in NumberMarks) {
        assert Remove(s, NumberMarks)[0] == s[0];
      }
    }
  }

  /**
   * Text counts as numeric exactly when it holds a digit and nothing but
   * digits and the marks E . , - + %; anything else that is not a null
   * marker is returned unchanged.
   */
  lemma {:induction false} CleanedUnchanged(s: string)
    requires s !in NullMarkers
    ensures Cleaned(Text(s)) == Raw(Text(s))
        <==> !((exists i :: 0 <= i < |s| && IsDigit(s[i]))
               && forall i :: 0 <= i < |s| ==> IsDigit(s[i]) || s[i] in NumberMarks)
  {
    RemoveMarksAllDigits(s);
  }

  /**
   * Numeric text without a "." becomes the number its digits spell: signs,
   * separators, "E" and "%" are simply dropped.
   */
  lemma {:induction false} CleanedInteger(s: string)
    requires s !in NullMarkers && '.' !in s
    requires exists i :: 0 <= i < |s| && IsDigit(s[i])
    requires forall i :: 0 <= i < |s| ==> IsDigit(s[i]) || s[i] in NumberMarks
    ensures Cleaned(Text(s)) == Number(DecimalValue(DigitsOf(s)))
  {
    RemoveMarksAllDigits(s);
  }

  lemma {:induction false} RemoveEachIsRemove(s: string, marks: string)
    ensures RemoveEach(s, marks) == Remove(s, set c | c in marks)
  {
    if marks == [] {
      assert (set c | c in marks) == {};
      RemoveNothing(s);
    } else {
      var init, last := marks[..|marks| - 1], marks[|marks| - 1];
      var before, all := set c | c in init, set c | c in marks;
      RemoveEachIsRemove(s, init);
      RemoveTwice(s, before, {last});
      assert marks == init + [last];
      assert before + {last} == all;
      calc {
        RemoveEach(s, marks);
        Remove(RemoveEach(s, init), {last});
        Remove(Remove(s, before), {last});
        Remove(s, all);
      }
    }
  }

  /**
   * The text handed to `float` is the part before the first "E" (all of it
   * if there is none) without its ",", "+" and "%" characters.
   */
  lemma MantissaSpec(s: string)
    ensures var m := Mantissa(s);
            && 'E' !in m && ',' !in m && '+' !in m && '%' !in m
            && m == Remove(Before(s, "E"), {',', '+', '%'})
  {
    var head := Before(s, "E");
    BeforeCharFree(s, 'E');
    if 'E' !in s {
      BeforeMissing(s, 'E');
    }
    RemoveEachIsRemove(head, DecimalMarks);
    assert (set c | c in DecimalMarks) == {',', '+', '%'};
  }

  /** Numeric text with a "." goes to `round(float(m), 3)`, `m` as `MantissaSpec` describes it. */
  lemma CleanedDecimal(s: string)
    requires s !in NullMarkers && '.' in s
    requires exists i :: 0 <= i < |s| && IsDigit(s[i])
    requires forall i :: 0 <= i < |s| ==> IsDigit(s[i]) || s[i] in NumberMarks
    ensures Cleaned(Text(s)) == Rounded(Mantissa(s))
  {
    RemoveMarksAllDigits(s);
  }

  /** "-5" gives 5: the sign is dropped with the other marks. */
  lemma CleanedNegative()
    ensures Cleaned(Text("-5")) == Number(5)
  {
    assert IsDigit("-5"[1]);
    CleanedInteger("-5");
    assert DigitsOf("-5") == "5";
  }

  /** "1,234" gives 1234: thousands separators are dropped. */
  lemma CleanedThousands()
    ensures Cleaned(Text("1,234")) == Number(1234)
  {
    var s := "1,234";
    assert DigitsOf(s) == "1234" by {
      assert s[1..] == ",234" && ",234"[1..] == "234" && "234"[1..] == "34" && "34"[1..] == "4";
    }
    assert DecimalValue("1234") == 1234 by {
      assert "1234"[..3] == "123" && "123"[..2] == "12" && "12"[..1] == "1";
      assert DecimalValue("12") == 12;
    }
    assert IsDigit(s[0]);
    CleanedInteger(s);
  }

  /**
   * An exponent without a "." is not normalised: "1E3" loses its "E" with
   * the other marks and becomes 13, not 1000.
   */
  lemma CleanedExponent()
    ensures Cleaned(Text("1E3")) == Number(13)
  {
    var s := "1E3";
    assert DigitsOf(s) == "13" by {
      assert s[1..] == "E3" && "E3"[1..] == "3";
    }
    assert DecimalValue("13") == 13 by {
      assert "13"[..1] == "1";
    }
    assert IsDigit(s[0]);
    CleanedInteger(s);
  }

  // ---------------------------------------------------------------------------
  // Properties of spec parsing and of the row mapping
  // ---------------------------------------------------------------------------

  /**
   * "src:dest" maps `src` to `dest`; a spec without ":" maps a name to
   * itself; pieces after a second ":" are ignored for the mapping, and the
   * empty-table column is always the last piece.
   */
  lemma {:induction false} SpecPieces(a: string, b: string, rest: string)
    requires ':' !in a && ':' !in b
    ensures Source(a) == a && Destination(a) == a && ColumnName(a) == a
    ensures Source(a + ":" + b) == a && Destination(a + ":" + b) == b && ColumnName(a + ":" + b) == b
    ensures Source(a + ":" + b + ":" + rest) == a && Destination(a + ":" + b + ":" + rest) == b
  {
    SplitNoSeparator(a, ':');
    SplitNoSeparator(b, ':');
    SplitAfterPiece(a, b, ':');
    SplitAfterPiece(b, rest, ':');
    assert a + ":" + b + ":" + rest == a + [':'] + (b + [':'] + rest);
    SplitAfterPiece(a, b + ":" + rest, ':');
  }

  /** The empty-table column of a spec is its part after the last ":", or all of it. */
  lemma {:induction false} ColumnNameIsLastPiece(spec: string)
    ensures ':' !in ColumnName(spec)
    ensures |ColumnName(spec)| <= |spec| && spec[|spec| - |ColumnName(spec)|..] == ColumnName(spec)
    ensures |ColumnName(spec)| < |spec| ==> spec[|spec| - |ColumnName(spec)| - 1] == ':'
  {
    var parts := Split(spec, ':');
    var col := parts[|parts| - 1];
    SplitPiecesFree(spec, ':');
    SplitRejoin(spec, ':');
    assert col == ColumnName(spec);
    JoinEndsWithLast(parts, ':');
    if |parts| == 1 {
      assert col == spec;
    }
  }

  /**
   * A destination key is present exactly when some spec with a present
   * source names it, and it holds the value of the LAST such spec: the raw
   * value for "ticker", the cleaned value otherwise.
   */
  lemma {:induction false} ParsedAt(row: Row, mapping: seq<string>, k: string)
    ensures Lookup(Parsed(row, mapping), k)
         == match LastSpec(row, mapping, k)
            case None => None
            case Some(i) => Some(Mapped(row, mapping[i]))
  {
    if mapping != [] {
      ParsedAt(row, mapping[..|mapping| - 1], k);
    }
  }

  /** The parsed keys are exactly the destinations of the specs whose source is present. */
  lemma {:induction false} ParsedKeys(row: Row, mapping: seq<string>)
    ensures Parsed(row, mapping).Keys
         == set i | 0 <= i < |mapping| && Source(mapping[i]) in row :: Destination(mapping[i])
  {
    forall k | k in Parsed(row, mapping)
      ensures exists i :: 0 <= i < |mapping| && Source(mapping[i]) in row && Destination(mapping[i]) == k
    {
      ParsedAt(row, mapping, k);
    }
    forall i | 0 <= i < |mapping| && Source(mapping[i]) in row
      ensures Destination(mapping[i]) in Parsed(row, mapping)
    {
      ParsedAt(row, mapping, Destination(mapping[i]));
      LastSpecIsLast(row, mapping, Destination(mapping[i]));
      assert Feeds(row, mapping[i], Destination(mapping[i]));
    }
  }
}
