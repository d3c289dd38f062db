/**
 * The field extractor of scraper/ibkr.py (`IBKR._fetch_contract`).
 *
 * A contract page is taken as its table rows, each already split into the
 * text of its `th` cell (the heading) and of its `td` cell (the value); either
 * cell may be missing. Parsing the HTML itself is not part of this model.
 */
module Extractor {
  import opened Wrappers
  import opened Strings

  datatype Row = Row(heading: Option<string>, value: Option<string>)

  /** The labels looked for, in the order they are tried on each row. */
  const Fields: seq<string> :=
    ["ASSETID", "ISIN", "CONID", "Closing Price", "Contract Type", "Exchange", "Country/Region"]

  const Exchange: string := "Exchange"
  /** The field derived from `Exchange`. */
  const PrimaryExchange: string := "Primary Exchange"
  const ExchangeSeparator: string := ", "

  /** A row without a heading, whose heading mentions "Website", or without a value. */
  predicate Skipped(row: Row)
  {
    row.heading.None? || Contains(row.heading.value, "Website") || row.value.None?
  }

  /** A row that is not skipped and whose heading contains `f`. */
  predicate Matches(row: Row, f: string)
  {
    !Skipped(row) && Contains(row.heading.value, f)
  }

  /** The effect of trying field `f` on a row with this heading and value. */
  function StoreField(acc: map<string, string>, heading: string, value: string, f: string): map<string, string>
  {
    if !Contains(heading, f) then acc
    else if f == Exchange then acc[f := Strip(value)][PrimaryExchange := Before(Strip(value), ExchangeSeparator)]
    else acc[f := Strip(value)]
  }

  /** Trying every field of `fs`, in order, on one row. */
  function StoreFields(acc: map<string, string>, heading: string, value: string, fs: seq<string>): map<string, string>
  {
    if fs == [] then acc
    else StoreField(StoreFields(acc, heading, value, fs[..|fs| - 1]), heading, value, fs[|fs| - 1])
  }

  function ApplyRow(acc: map<string, string>, row: Row): map<string, string>
  {
    if Skipped(row) then acc else StoreFields(acc, row.heading.value, row.value.value, Fields)
  }

  /** What the extractor returns for these rows, processed first to last. */
  function ContractFields(rows: seq<Row>): map<string, string>
  {
    if rows == [] then map[] else ApplyRow(ContractFields(rows[..|rows| - 1]), rows[|rows| - 1])
  }

  /** `_fetch_contract`: the loop over rows and, inside it, over the field names. */
  method FetchContract(rows: seq<Row>) returns (result: map<string, string>)
    ensures result == ContractFields(rows)
  {
    result := map[];
    for i := 0 to |rows|
      invariant result == ContractFields(rows[..i])
    {
      var row := rows[i];
      assert rows[..i + 1][..i] == rows[..i];
      if row.heading.None? {
        continue;
      }
      var heading := row.heading.value;
      if Contains(heading, "Website") {
        continue;
      }
      if row.value.None? {
        continue;
      }
      var text := row.value.value;
      for j := 0 to |Fields|
        invariant result == StoreFields(ContractFields(rows[..i]), heading, text, Fields[..j])
      {
        var f := Fields[j];
        assert Fields[..j + 1][..j] == Fields[..j];
        if !Contains(heading, f) {
          continue;
        }
        result := result[f := Strip(text)];
        if f == Exchange {
          result := result[PrimaryExchange := Before(Strip(text), ExchangeSeparator)];
        }
      }
      assert Fields[..|Fields|] == Fields;
    }
    assert rows[..|rows|] == rows;
  }

  /** The index of the last row matching `f`, if any. */
  function LastMatch(rows: seq<Row>, f: string): (r: Option<nat>)
    ensures r.Some? ==> r.value < |rows| && Matches(rows[r.value], f)
    ensures r.Some? ==> forall j :: r.value < j < |rows| ==> !Matches(rows[j], f)
    ensures r.None? ==> forall j :: 0 <= j < |rows| ==> !Matches(rows[j], f)
  {
    if rows == [] then None
    else if Matches(rows[|rows| - 1], f) then Some(|rows| - 1)
    else LastMatch(rows[..|rows| - 1], f)
  }

  // ---------------------------------------------------------------------------
  // Properties of the extractor
  // ---------------------------------------------------------------------------

  lemma {:induction false} StoreFieldsKeys(acc: map<string, string>, heading: string, value: string, fs: seq<string>)
    requires forall i :: 0 <= i < |fs| ==> fs[i] in Fields
    ensures StoreFields(acc, heading, value, fs).Keys <= acc.Keys + (set f | f in Fields) + {PrimaryExchange}
  {
    if fs != [] {
      StoreFieldsKeys(acc, heading, value, fs[..|fs| - 1]);
    }
  }

  /** Only the seven field names and "Primary Exchange" ever appear as keys. */
  lemma {:induction false} ContractFieldsKeys(rows: seq<Row>)
    ensures ContractFields(rows).Keys <= (set f | f in Fields) + {PrimaryExchange}
  {
    if rows != [] {
      ContractFieldsKeys(rows[..|rows| - 1]);
      var last := rows[|rows| - 1];
      if !Skipped(last) {
        StoreFieldsKeys(ContractFields(rows[..|rows| - 1]), last.heading.value, last.value.value, Fields);
      }
    }
  }

  /** Skipped rows contribute nothing: if every row is skipped (or there are none) the result is empty. */
  lemma {:induction false} AllSkippedIsEmpty(rows: seq<Row>)
    requires forall i :: 0 <= i < |rows| ==> Skipped(rows[i])
    ensures ContractFields(rows) == map[]
  {
    if rows != [] {
      AllSkippedIsEmpty(rows[..|rows| - 1]);
    }
  }

  lemma StoreFieldAt(acc: map<string, string>, heading: string, value: string, f: string, g: string)
    requires g != PrimaryExchange
    ensures Lookup(StoreField(acc, heading, value, f), g)
         == if g == f && Contains(heading, g) then Some(Strip(value)) else Lookup(acc, g)
  {
    var stored := acc[f := Strip(value)];
    if Contains(heading, f) && f == Exchange {
      assert StoreField(acc, heading, value, f) == stored[PrimaryExchange := Before(Strip(value), ExchangeSeparator)];
      assert Lookup(stored[PrimaryExchange := Before(Strip(value), ExchangeSeparator)], g) == Lookup(stored, g);
    }
  }

  lemma {:induction false} StoreFieldsAt(acc: map<string, string>, heading: string, value: string, fs: seq<string>, g: string)
    requires g != PrimaryExchange
    ensures Lookup(StoreFields(acc, heading, value, fs), g)
         == if g in fs && Contains(heading, g) then Some(Strip(value)) else Lookup(acc, g)
  {
    if fs != [] {
      var init, f := fs[..|fs| - 1], fs[|fs| - 1];
      StoreFieldsAt(acc, heading, value, init, g);
      StoreFieldAt(StoreFields(acc, heading, value, init), heading, value, f, g);
      assert fs == init + [f];
      assert g in fs <==> g in init || g == f;
    }
  }

  /**
   * For each of the seven fields: it is present exactly when some kept row's
   * heading contains it, and then it holds the stripped value of the LAST such
   * row (a later row overwrites an earlier one; one row may fill several fields).
   */
  lemma {:induction false} ContractFieldsAt(rows: seq<Row>, f: string)
    requires f in Fields
    ensures Lookup(ContractFields(rows), f)
         == match LastMatch(rows, f)
            case None => None
            case Some(i) => Some(Strip(rows[i].value.value))
  {
    if rows != [] {
      var init := rows[..|rows| - 1];
      var last := rows[|rows| - 1];
      ContractFieldsAt(init, f);
      if !Skipped(last) {
        StoreFieldsAt(ContractFields(init), last.heading.value, last.value.value, Fields, f);
      }
    }
  }

  /**
   * The extractor stores the identifier as "CONID"; a record can only carry
   * a "Conid" key if its ticker descriptor already has one.
   */
  lemma ConidNotExtracted(rows: seq<Row>)
    ensures "Conid" !in ContractFields(rows)
  {
    ContractFieldsKeys(rows);
  }

  /** "Primary Exchange" and "Exchange" travel together, the former being the part before the first ", ". */
  predicate PrimaryExchangeConsistent(m: map<string, string>)
  {
    && (PrimaryExchange in m <==> Exchange in m)
    && (Exchange in m ==> m[PrimaryExchange] == Before(m[Exchange], ExchangeSeparator))
  }

  lemma {:induction false} StoreFieldsConsistent(acc: map<string, string>, heading: string, value: string, fs: seq<string>)
    requires PrimaryExchangeConsistent(acc)
    requires forall i :: 0 <= i < |fs| ==> fs[i] != PrimaryExchange
    ensures PrimaryExchangeConsistent(StoreFields(acc, heading, value, fs))
  {
    if fs != [] {
      StoreFieldsConsistent(acc, heading, value, fs[..|fs| - 1]);
    }
  }

  /**
   * "Primary Exchange" is present exactly when "Exchange" is, and equals the
   * stored Exchange value up to its first ", " (all of it when there is none).
   */
  lemma {:induction false} PrimaryExchangeDerived(rows: seq<Row>)
    ensures PrimaryExchangeConsistent(ContractFields(rows))
  {
    if rows != [] {
      PrimaryExchangeDerived(rows[..|rows| - 1]);
      var last := rows[|rows| - 1];
      if !Skipped(last) {
        StoreFieldsConsistent(ContractFields(rows[..|rows| - 1]), last.heading.value, last.value.value, Fields);
      }
    }
  }

  // ---------------------------------------------------------------------------
  // Two concrete pages
  // ---------------------------------------------------------------------------

  /** A Website row is skipped even though its value is present. */
  lemma WebsiteRowFields(isin: string, site: string)
    ensures var m := ContractFields([Row(Some("ISIN"), Some(isin)), Row(Some("Website"), Some(site))]);
            && "ISIN" in m && m["ISIN"] == Strip(isin)
            && forall f | f in Fields && f != "ISIN" :: f !in m
  {
    var rows := [Row(Some("ISIN"), Some(isin)), Row(Some("Website"), Some(site))];
    var m := ContractFields(rows);
    assert Skipped(rows[1]) by { assert OccursAt("Website", "Website", 0); }
    forall f | f in Fields && f != "ISIN" ensures f !in m {
      ContractFieldsAt(rows, f);
      assert |f| > 4;
      assert !Matches(rows[0], f);
    }
    ContractFieldsAt(rows, "ISIN");
    assert OccursAt("ISIN", "ISIN", 0);
    assert Matches(rows[0], "ISIN");
  }

  /** An ISIN row followed by a Website row yields the ISIN alone. */
  lemma WebsiteRowIgnored(isin: string, site: string)
    ensures ContractFields([Row(Some("ISIN"), Some(isin)), Row(Some("Website"), Some(site))])
         == map["ISIN" := Strip(isin)]
  {
    var rows := [Row(Some("ISIN"), Some(isin)), Row(Some("Website"), Some(site))];
    var m := ContractFields(rows);
    WebsiteRowFields(isin, site);
    ContractFieldsKeys(rows);
    PrimaryExchangeDerived(rows);
    assert m.Keys == {"ISIN"} by {
      forall k | k in m ensures k == "ISIN" {
        assert k in Fields || k == PrimaryExchange;
      }
    }
  }

  /** A row headed "Exchange" sets Exchange and no other of the seven fields. */
  lemma ExchangeRowFields(v: string)
    ensures var m := ContractFields([Row(Some(Exchange), Some(v))]);
            && Exchange in m && m[Exchange] == Strip(v)
            && forall f | f in Fields && f != Exchange :: f !in m
  {
    var rows := [Row(Some(Exchange), Some(v))];
    var m := ContractFields(rows);
    assert !Skipped(rows[0]) by { FirstCharMissing(Exchange, "Website"); }
    forall f | f in Fields && f != Exchange ensures f !in m {
      ContractFieldsAt(rows, f);
      FirstCharMissing(Exchange, f);
    }
    ContractFieldsAt(rows, Exchange);
  }

  lemma ExchangeRowKeys(v: string)
    ensures ContractFields([Row(Some(Exchange), Some(v))]).Keys == {Exchange, PrimaryExchange}
  {
    var rows := [Row(Some(Exchange), Some(v))];
    var m := ContractFields(rows);
    ExchangeRowFields(v);
    ContractFieldsKeys(rows);
    PrimaryExchangeDerived(rows);
    forall k | k in m ensures k == Exchange || k == PrimaryExchange {
      assert k in Fields || k == PrimaryExchange;
    }
  }

  /** A lone Exchange row yields Exchange and the Primary Exchange cut from it, nothing else. */
  lemma ExchangeRowOnly(v: string)
    ensures ContractFields([Row(Some(Exchange), Some(v))])
         == map[Exchange := Strip(v), PrimaryExchange := Before(Strip(v), ExchangeSeparator)]
  {
    ExchangeRowKeys(v);
    ExchangeRowFields(v);
    PrimaryExchangeDerived([Row(Some(Exchange), Some(v))]);
  }
}
