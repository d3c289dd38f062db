/**
 * The scrape engine of scraper/ibkr.py (`IBKR.run` and `IBKR.worker`), run
 * as ONE sequential worker: the processes, threads and shared lock only let
 * several copies of the same loop drain the same queue in parallel.
 *
 * A ticker descriptor is a string-valued record with at least "symbol",
 * "exch" and "url"; the network is an oracle that answers a URL with the
 * contract page's rows, or with a failure (a transport error or a
 * non-success HTTP status, both of which `fetch_contract` raises).
 */
module Scraper {
  import opened Wrappers
  import opened Extractor

  type Descriptor = map<string, string>
  type Record = map<string, string>

  datatype Response = Page(rows: seq<Row>) | Failure

  /** The descriptor carries the keys the worker reads before its try block. */
  predicate WellFormed(d: Descriptor)
  {
    "symbol" in d && "exch" in d && "url" in d
  }

  predicate AllWellFormed(q: seq<Descriptor>)
  {
    forall i :: 0 <= i < |q| ==> WellFormed(q[i])
  }

  /** The dedup key `symbol + "." + exch`. */
  function Key(d: Descriptor): string
    requires WellFormed(d)
  {
    d["symbol"] + "." + d["exch"]
  }

  /** The keys of the well-formed descriptors of `q`. */
  function KeysOf(q: seq<Descriptor>): set<string>
  {
    set i | 0 <= i < |q| && WellFormed(q[i]) :: Key(q[i])
  }

  /** The queue and result store once a worker has stopped. */
  datatype Drained = Drained(tasks: seq<Descriptor>, result: map<string, Record>)

  /**
   * What one worker leaves behind, starting from queue `tasks` and store
   * `result`. A descriptor missing "symbol", "exch" or "url" raises outside
   * the worker's try block, so the worker stops there, that task already popped.
   */
  function Drain(tasks: seq<Descriptor>, result: map<string, Record>, fetch: string -> Response): Drained
    decreases |tasks|
  {
    if tasks == [] then Drained([], result)
    else
      var d := tasks[0];
      if !WellFormed(d) then Drained(tasks[1..], result)
      else if Key(d) in result then Drain(tasks[1..], result, fetch)
      else match fetch(d["url"])
        case Failure => Drain(tasks[1..], result, fetch)
        case Page(rows) => Drain(tasks[1..], result[Key(d) := d + ContractFields(rows)], fetch)
  }

  /**
   * The positions of the descriptors `Drain` fetches, in the order it fetches
   * them, counted from `from` for the front of `tasks`: a stored key is skipped
   * before the fetch, so only descriptors with an unstored key appear.
   */
  function Fetched(tasks: seq<Descriptor>, result: map<string, Record>, fetch: string -> Response, from: nat): seq<nat>
    decreases |tasks|
  {
    if tasks == [] || !WellFormed(tasks[0]) then []
    else
      var d := tasks[0];
      if Key(d) in result then Fetched(tasks[1..], result, fetch, from + 1)
      else match fetch(d["url"])
        case Failure => [from] + Fetched(tasks[1..], result, fetch, from + 1)
        case Page(rows) => [from] + Fetched(tasks[1..], result[Key(d) := d + ContractFields(rows)], fetch, from + 1)
  }

  /** The store once the worker has handled the well-formed descriptor `d`. */
  function Handled(d: Descriptor, result: map<string, Record>, fetch: string -> Response): map<string, Record>
    requires WellFormed(d)
  {
    if Key(d) in result then result
    else match fetch(d["url"])
      case Failure => result
      case Page(rows) => result[Key(d) := d + ContractFields(rows)]
  }

  lemma AppendAssociative<T>(a: seq<T>, b: seq<T>, c: seq<T>)
    ensures (a + b) + c == a + (b + c)
  {
  }

  /** The fetched positions lie within the queue and increase: each task is fetched at most once, in queue order. */
  lemma {:induction false} FetchedOrder(tasks: seq<Descriptor>, result: map<string, Record>, fetch: string -> Response, from: nat)
    ensures var r := Fetched(tasks, result, fetch, from);
            forall j :: 0 <= j < |r| ==> from <= r[j] < from + |tasks|
    ensures var r := Fetched(tasks, result, fetch, from);
            forall j, l :: 0 <= j < l < |r| ==> r[j] < r[l]
  {
    if tasks != [] && WellFormed(tasks[0]) {
      FetchedOrder(tasks[1..], Handled(tasks[0], result, fetch), fetch, from + 1);
      FetchedStep(tasks, result, fetch, from);
    }
  }

  /** `Fetched` after a well-formed front task: its position, when it is fetched, then the rest. */
  lemma FetchedStep(tasks: seq<Descriptor>, result: map<string, Record>, fetch: string -> Response, from: nat)
    requires tasks != [] && WellFormed(tasks[0])
    ensures Key(tasks[0]) in result ==>
              Fetched(tasks, result, fetch, from) == Fetched(tasks[1..], result, fetch, from + 1)
    ensures Key(tasks[0]) !in result ==>
              Fetched(tasks, result, fetch, from) == [from] + Fetched(tasks[1..], Handled(tasks[0], result, fetch), fetch, from + 1)
  {
  }

  /**
   * One turn of the worker loop, as `Drain` and `Fetched` see it: a malformed
   * front task ends the drain, any other is handled and the drain goes on
   * with the rest, the trace `trace` gaining the task's position when the
   * task is fetched.
   */
  lemma WorkerTurn(tasks: seq<Descriptor>, result: map<string, Record>, fetch: string -> Response,
                   trace: seq<nat>, from: nat)
    requires tasks != []
    ensures !WellFormed(tasks[0]) ==> Drain(tasks, result, fetch) == Drained(tasks[1..], result)
    ensures !WellFormed(tasks[0]) ==> Fetched(tasks, result, fetch, from) == []
    ensures WellFormed(tasks[0]) ==>
              Drain(tasks, result, fetch) == Drain(tasks[1..], Handled(tasks[0], result, fetch), fetch)
    ensures WellFormed(tasks[0]) ==>
              (trace + if Key(tasks[0]) in result then [] else [from])
                + Fetched(tasks[1..], Handled(tasks[0], result, fetch), fetch, from + 1)
              == trace + Fetched(tasks, result, fetch, from)
  {
    if WellFormed(tasks[0]) && Key(tasks[0]) !in result {
      AppendAssociative(trace, [from], Fetched(tasks[1..], Handled(tasks[0], result, fetch), fetch, from + 1));
    }
  }

  class IBKR {
    const tickers: seq<Descriptor>
    /** The page fetch of `fetch_contract`, before extraction. */
    const fetch: string -> Response
    var tasks: seq<Descriptor>
    var result: map<string, Record>

    constructor (tickers: seq<Descriptor>, fetch: string -> Response)
      ensures this.tickers == tickers && this.fetch == fetch
      ensures tasks == [] && result == map[]
    {
      this.tickers := tickers;
      this.fetch := fetch;
      result := map[];
      tasks := [];
    }

    /**
     * `worker`: pop the front task, skip it if its key is already stored,
     * otherwise fetch it and store the descriptor overlaid with the extracted
     * fields; a failed fetch drops the task. Stops when the queue is empty,
     * or when a descriptor's KeyError escapes the loop. `fetched` lists the
     * positions in the old queue of the tasks whose URL is fetched.
     */
    method Worker() returns (ghost fetched: seq<nat>)
      modifies this
      ensures Drained(tasks, result) == Drain(old(tasks), old(result), fetch)
      ensures fetched == Fetched(old(tasks), old(result), fetch, 0)
      ensures |tasks| <= |old(tasks)| && tasks == old(tasks)[|old(tasks)| - |tasks|..]
      ensures AllWellFormed(old(tasks)) ==> tasks == []
      ensures forall k :: k in old(result) ==> k in result && result[k] == old(result)[k]
      ensures result.Keys <= old(result).Keys + KeysOf(old(tasks))
    {
      ghost var tasks0, result0 := tasks, result;
      fetched := [];
      ghost var popped: nat := 0;
      while tasks != []
        invariant Drain(tasks, result, fetch) == Drain(tasks0, result0, fetch)
        invariant fetched + Fetched(tasks, result, fetch, popped) == Fetched(tasks0, result0, fetch, 0)
        decreases |tasks|
      {
        WorkerTurn(tasks, result, fetch, fetched, popped);
        var raised;
        raised, fetched := Turn(fetched, popped);
        if raised {
          break;
        }
        popped := popped + 1;
      }
      assert Drained(tasks, result) == Drain(tasks0, result0, fetch);
      DrainFacts(tasks0, result0, fetch);
    }

    /**
     * One turn of the `worker` loop: pop the front task and handle it.
     * `raised` is the KeyError of a descriptor without "symbol", "exch" or
     * "url"; `traced` extends the fetch trace `trace` with `from` when the
     * task's URL is fetched.
     */
    method Turn(ghost trace: seq<nat>, ghost from: nat) returns (raised: bool, ghost traced: seq<nat>)
      requires tasks != []
      modifies this
      ensures tasks == old(tasks)[1..]
      ensures raised <==> !WellFormed(old(tasks)[0])
      ensures raised ==> result == old(result) && traced == trace
      ensures !raised ==> result == Handled(old(tasks)[0], old(result), fetch)
      ensures !raised ==> traced == trace + if Key(old(tasks)[0]) in old(result) then [] else [from]
    {
      var ticker := tasks[0];
      tasks := tasks[1..];
      traced := trace;
      if !("symbol" in ticker && "exch" in ticker && "url" in ticker) {
        return true, traced;
      }
      raised := false;
      var key := ticker["symbol"] + "." + ticker["exch"];
      var url := ticker["url"];
      if key in result {
        return;
      }
      traced := trace + [from];
      match fetch(url)
      case Failure =>
      case Page(rows) =>
        var data := FetchContract(rows);
        result := result[key := ticker + data];
    }

    /** `run`: work on a copy of the tickers with a fresh, empty result store. */
    method Run() returns (r: map<string, Record>, ghost fetched: seq<nat>)
      modifies this
      ensures r == result && Drained(tasks, result) == Drain(tickers, map[], fetch)
      ensures fetched == Fetched(tickers, map[], fetch, 0)
      ensures r.Keys <= KeysOf(tickers) && |r| <= |KeysOf(tickers)|
    {
      RunSize(tickers, fetch);
      tasks := tickers;
      result := map[];
      fetched := Worker();
      r := result;
    }
  }

  // ---------------------------------------------------------------------------
  // Properties of the drain loop
  // ---------------------------------------------------------------------------

  /**
   * Each step pops exactly one task from the front, so what is left is a
   * suffix of the queue; with well-formed descriptors the worker only stops
   * on an empty queue.
   */
  lemma {:induction false} DrainQueue(tasks: seq<Descriptor>, result: map<string, Record>, fetch: string -> Response)
    ensures var left := Drain(tasks, result, fetch).tasks;
            |left| <= |tasks| && left == tasks[|tasks| - |left|..]
    ensures AllWellFormed(tasks) ==> Drain(tasks, result, fetch).tasks == []
  {
    if tasks != [] && WellFormed(tasks[0]) {
      var d := tasks[0];
      var next := if Key(d) in result || fetch(d["url"]).Failure? then result
                  else result[Key(d) := d + ContractFields(fetch(d["url"]).rows)];
      DrainQueue(tasks[1..], next, fetch);
      assert tasks[1..][|tasks| - 1 - |Drain(tasks, result, fetch).tasks|..]
          == tasks[|tasks| - |Drain(tasks, result, fetch).tasks|..];
    }
  }

  /** The facts about one drain that `IBKR.Worker` promises. */
  lemma DrainFacts(tasks: seq<Descriptor>, result: map<string, Record>, fetch: string -> Response)
    ensures var left := Drain(tasks, result, fetch).tasks;
            |left| <= |tasks| && left == tasks[|tasks| - |left|..]
    ensures AllWellFormed(tasks) ==> Drain(tasks, result, fetch).tasks == []
    ensures forall k :: k in result ==>
              k in Drain(tasks, result, fetch).result && Drain(tasks, result, fetch).result[k] == result[k]
    ensures Drain(tasks, result, fetch).result.Keys <= result.Keys + KeysOf(tasks)
  {
    DrainQueue(tasks, result, fetch);
    DrainKeepsStored(tasks, result, fetch);
    DrainKeys(tasks, result, fetch);
  }

  /** The store never loses a key and never changes a stored record. */
  lemma {:induction false} DrainKeepsStored(tasks: seq<Descriptor>, result: map<string, Record>, fetch: string -> Response)
    ensures forall k :: k in result ==>
              k in Drain(tasks, result, fetch).result && Drain(tasks, result, fetch).result[k] == result[k]
  {
    if tasks != [] && WellFormed(tasks[0]) {
      var d := tasks[0];
      var next := if Key(d) in result || fetch(d["url"]).Failure? then result
                  else result[Key(d) := d + ContractFields(fetch(d["url"]).rows)];
      DrainKeepsStored(tasks[1..], next, fetch);
    }
  }

  /** Every key added is the dedup key of some input descriptor. */
  lemma {:induction false} DrainKeys(tasks: seq<Descriptor>, result: map<string, Record>, fetch: string -> Response)
    ensures Drain(tasks, result, fetch).result.Keys <= result.Keys + KeysOf(tasks)
  {
    if tasks != [] && WellFormed(tasks[0]) {
      var d := tasks[0];
      var next := if Key(d) in result || fetch(d["url"]).Failure? then result
                  else result[Key(d) := d + ContractFields(fetch(d["url"]).rows)];
      DrainKeys(tasks[1..], next, fetch);
      forall k | k in KeysOf(tasks[1..]) ensures k in KeysOf(tasks) {
        var i :| 0 <= i < |tasks[1..]| && WellFormed(tasks[1..][i]) && Key(tasks[1..][i]) == k;
        assert tasks[i + 1] == tasks[1..][i];
      }
      assert Key(tasks[0]) in KeysOf(tasks);
    }
  }

  /** The index of the first descriptor with key `k` whose fetch succeeds, if any. */
  function FirstFetched(tasks: seq<Descriptor>, k: string, fetch: string -> Response): (r: Option<nat>)
    requires AllWellFormed(tasks)
    ensures r.Some? ==> r.value < |tasks| && Key(tasks[r.value]) == k && fetch(tasks[r.value]["url"]).Page?
    ensures r.Some? ==> forall j :: 0 <= j < r.value ==> !(Key(tasks[j]) == k && fetch(tasks[j]["url"]).Page?)
    ensures r.None? ==> forall j :: 0 <= j < |tasks| ==> !(Key(tasks[j]) == k && fetch(tasks[j]["url"]).Page?)
  {
    if tasks == [] then None
    else if Key(tasks[0]) == k && fetch(tasks[0]["url"]).Page? then Some(0)
    else match FirstFetched(tasks[1..], k, fetch)
      case None => None
      case Some(i) => Some(i + 1)
  }

  /**
   * For a key not yet stored: it ends up stored exactly when some descriptor
   * with that key is fetched successfully, and the record is that of the
   * FIRST such descriptor (later duplicates are skipped, see
   * `FetchedExactly`; failed fetches change nothing): the descriptor overlaid
   * by its extracted fields.
   */
  lemma {:induction false} DrainFirstFetchWins(tasks: seq<Descriptor>, result: map<string, Record>,
                                               fetch: string -> Response, k: string)
    requires AllWellFormed(tasks)
    requires k !in result
    ensures Lookup(Drain(tasks, result, fetch).result, k)
         == match FirstFetched(tasks, k, fetch)
            case None => None
            case Some(i) => Some(tasks[i] + ContractFields(fetch(tasks[i]["url"]).rows))
  {
    if tasks != [] {
      var d := tasks[0];
      assert AllWellFormed(tasks[1..]);
      if Key(d) in result || fetch(d["url"]).Failure? {
        DrainFirstFetchWins(tasks[1..], result, fetch, k);
      } else {
        var next := result[Key(d) := d + ContractFields(fetch(d["url"]).rows)];
        if Key(d) == k {
          DrainKeepsStored(tasks[1..], next, fetch);
        } else {
          DrainFirstFetchWins(tasks[1..], next, fetch, k);
        }
      }
    }
  }

  /**
   * Some descriptor before position `i` has the same key as the one at `i`,
   * and the fetch of its URL succeeds.
   */
  predicate EarlierSuccess(tasks: seq<Descriptor>, i: nat, fetch: string -> Response)
    requires AllWellFormed(tasks) && i < |tasks|
  {
    exists j :: 0 <= j < i && Key(tasks[j]) == Key(tasks[i]) && fetch(tasks[j]["url"]).Page?
  }

  /** `EarlierSuccess` looks at the front descriptor, then at the rest of the queue. */
  lemma EarlierSuccessStep(tasks: seq<Descriptor>, i: nat, fetch: string -> Response)
    requires AllWellFormed(tasks) && 0 < i < |tasks|
    ensures AllWellFormed(tasks[1..])
    ensures EarlierSuccess(tasks, i, fetch)
        <==> (Key(tasks[0]) == Key(tasks[i]) && fetch(tasks[0]["url"]).Page?) || EarlierSuccess(tasks[1..], i - 1, fetch)
  {
    assert AllWellFormed(tasks[1..]);
    if EarlierSuccess(tasks[1..], i - 1, fetch) {
      var j :| 0 <= j < i - 1 && Key(tasks[1..][j]) == Key(tasks[1..][i - 1]) && fetch(tasks[1..][j]["url"]).Page?;
      assert tasks[1..][j] == tasks[j + 1];
    }
    if EarlierSuccess(tasks, i, fetch) && !(Key(tasks[0]) == Key(tasks[i]) && fetch(tasks[0]["url"]).Page?) {
      var j :| 0 <= j < i && Key(tasks[j]) == Key(tasks[i]) && fetch(tasks[j]["url"]).Page?;
      assert tasks[1..][j - 1] == tasks[j];
    }
  }

  /**
   * The descriptor at position `i` is fetched exactly when its key is not
   * stored at the start and no earlier descriptor with that key has a fetch
   * that succeeds: a key already stored, at the start or by an earlier task,
   * is skipped before any fetch, and a failed fetch leaves the key to the
   * next descriptor that carries it.
   */
  lemma {:induction false} FetchedExactly(tasks: seq<Descriptor>, result: map<string, Record>,
                                          fetch: string -> Response, from: nat, i: nat)
    requires AllWellFormed(tasks) && i < |tasks|
    ensures from + i in Fetched(tasks, result, fetch, from)
        <==> Key(tasks[i]) !in result && !EarlierSuccess(tasks, i, fetch)
  {
    var d, k := tasks[0], Key(tasks[i]);
    var next := Handled(d, result, fetch);
    var rest := Fetched(tasks[1..], next, fetch, from + 1);
    FetchedStep(tasks, result, fetch, from);
    FetchedOrder(tasks[1..], next, fetch, from + 1);
    assert from !in rest;
    if i == 0 {
      if Key(d) in result {
        assert from !in Fetched(tasks, result, fetch, from);
      } else {
        assert from in Fetched(tasks, result, fetch, from);
      }
    } else {
      assert from + i in Fetched(tasks, result, fetch, from) <==> from + i in rest;
      assert AllWellFormed(tasks[1..]);
      assert tasks[1..][i - 1] == tasks[i];
      FetchedExactly(tasks[1..], next, fetch, from + 1, i - 1);
      EarlierSuccessStep(tasks, i, fetch);
      if Key(d) == k && fetch(d["url"]).Page? {
        assert k in next;
      } else {
        assert k in next <==> k in result;
      }
    }
  }

  /**
   * A malformed descriptor ends the worker: the store holds what the
   * well-formed prefix before it produced and the tasks after it are left.
   */
  lemma {:induction false} DrainStopsAtMalformed(tasks: seq<Descriptor>, result: map<string, Record>,
                                                 fetch: string -> Response, i: nat)
    requires i < |tasks| && !WellFormed(tasks[i]) && AllWellFormed(tasks[..i])
    ensures Drain(tasks, result, fetch) == Drained(tasks[i + 1..], Drain(tasks[..i], result, fetch).result)
  {
    if i > 0 {
      var d := tasks[0];
      assert WellFormed(tasks[..i][0]);
      assert tasks[..i][1..] == tasks[1..][..i - 1];
      assert AllWellFormed(tasks[1..][..i - 1]);
      var next := if Key(d) in result || fetch(d["url"]).Failure? then result
                  else result[Key(d) := d + ContractFields(fetch(d["url"]).rows)];
      DrainStopsAtMalformed(tasks[1..], next, fetch, i - 1);
      assert tasks[1..][i..] == tasks[i + 1..];
    }
  }

  /**
   * A malformed descriptor ends the fetching too: the trace is that of the
   * well-formed prefix before it, so each task of that prefix is fetched or
   * skipped as `FetchedExactly` says of the prefix alone.
   */
  lemma {:induction false} FetchedStopsAtMalformed(tasks: seq<Descriptor>, result: map<string, Record>,
                                                   fetch: string -> Response, from: nat, i: nat)
    requires i < |tasks| && !WellFormed(tasks[i]) && AllWellFormed(tasks[..i])
    ensures Fetched(tasks, result, fetch, from) == Fetched(tasks[..i], result, fetch, from)
  {
    if i > 0 {
      assert tasks[..i][0] == tasks[0];
      assert tasks[..i][1..] == tasks[1..][..i - 1];
      assert AllWellFormed(tasks[1..][..i - 1]);
      FetchedStep(tasks, result, fetch, from);
      FetchedStep(tasks[..i], result, fetch, from);
      FetchedStopsAtMalformed(tasks[1..], Handled(tasks[0], result, fetch), fetch, from + 1, i - 1);
    }
  }

  /**
   * Three tasks whose second fetch fails: the store ends with exactly the
   * keys of the first and the third, and the run is not interrupted.
   */
  lemma PartialFailure(d1: Descriptor, d2: Descriptor, d3: Descriptor, fetch: string -> Response)
    requires WellFormed(d1) && WellFormed(d2) && WellFormed(d3)
    requires Key(d1) != Key(d2) && Key(d1) != Key(d3) && Key(d2) != Key(d3)
    requires fetch(d1["url"]).Page? && fetch(d2["url"]).Failure? && fetch(d3["url"]).Page?
    ensures Drain([d1, d2, d3], map[], fetch).tasks == []
    ensures Drain([d1, d2, d3], map[], fetch).result.Keys == {Key(d1), Key(d3)}
  {
    var r1 := map[Key(d1) := d1 + ContractFields(fetch(d1["url"]).rows)];
    assert [d1, d2, d3][1..] == [d2, d3] && [d2, d3][1..] == [d3] && [d3][1..] == [];
    assert Drain([d1, d2, d3], map[], fetch) == Drain([d2, d3], r1, fetch);
    assert Drain([d2, d3], r1, fetch) == Drain([d3], r1, fetch);
    var r3 := r1[Key(d3) := d3 + ContractFields(fetch(d3["url"]).rows)];
    assert Drain([d3], r1, fetch) == Drain([], r3, fetch) == Drained([], r3);
  }

  /**
   * Two descriptors with the same dedup key, the first of which is fetched
   * successfully: one entry, that of the first; the second is skipped
   * without being fetched, so the trace holds the first position alone.
   */
  lemma DuplicateKeyFirstWins(d1: Descriptor, d2: Descriptor, fetch: string -> Response)
    requires WellFormed(d1) && WellFormed(d2) && Key(d1) == Key(d2)
    requires fetch(d1["url"]).Page?
    ensures Drain([d1, d2], map[], fetch).result
         == map[Key(d1) := d1 + ContractFields(fetch(d1["url"]).rows)]
    ensures Fetched([d1, d2], map[], fetch, 0) == [0]
  {
    assert [d1, d2][1..] == [d2] && [d2][1..] == [];
    var r1 := map[Key(d1) := d1 + ContractFields(fetch(d1["url"]).rows)];
    assert Drain([d1, d2], map[], fetch) == Drain([d2], r1, fetch);
    assert Drain([d2], r1, fetch) == Drain([], r1, fetch);
    assert Fetched([d1, d2], map[], fetch, 0) == [0] + Fetched([d2], r1, fetch, 1);
    assert Fetched([d2], r1, fetch, 1) == Fetched([], r1, fetch, 2) == [];
  }

  lemma {:induction false} SubsetCardinality<T>(a: set<T>, b: set<T>)
    requires a <= b
    ensures |a| <= |b|
  {
    if a != {} {
      var x :| x in a;
      SubsetCardinality(a - {x}, b - {x});
    }
  }

  /** A run stores at most one record per distinct dedup key of its input. */
  lemma RunSize(tickers: seq<Descriptor>, fetch: string -> Response)
    ensures |Drain(tickers, map[], fetch).result| <= |KeysOf(tickers)|
  {
    DrainKeys(tickers, map[], fetch);
    SubsetCardinality(Drain(tickers, map[], fetch).result.Keys, KeysOf(tickers));
  }
}
