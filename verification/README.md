# ibkr-client: a Dafny model of the scraper and the transformer

ibkr-client collects contract details from Interactive Brokers' public
contract-information pages and turns them into a table. Two parts of it are
modelled here:

- **The scraper** (`scraper/ibkr.py`, class `IBKR`).
  - `run` hands a copy of the ticker list to worker loops.
  - Each `worker` pops ticker descriptors from a shared queue and skips a ticker whose key `symbol.exch` is already stored. Otherwise it fetches the contract page and stores the descriptor overlaid with the fields the extractor finds.
  - The extractor `_fetch_contract` walks the page's table rows. It keeps seven labelled fields and derives "Primary Exchange" from "Exchange".
- **The transformer** (`transformer/agent.py`, class `Agent`).
  - `_parse_row` applies column specs of the form `src:dest` to one record.
  - `_clean_value` turns null markers into `None` and numeric-looking text into numbers.
  - `transform` drops the rows that parsed to nothing. When no row is left, it builds the empty table's column list.

The Dafny modules follow that structure:

| module | file | models |
|---|---|---|
| `Wrappers` | wrappers.dfy | `Option`, and dictionary lookup as `Lookup` |
| `Strings` | strings.dfy | the Python string operations used: `in`, `strip()`, `split(sep)[0]`, `split(c)`, and deleting characters |
| `Extractor` | extractor.dfy | `IBKR._fetch_contract` on a page given as its rows |
| `Scraper` | scraper.dfy | `IBKR` with its queue and result store, `worker` and `run` |
| `Transformer` | transformer.dfy | `Agent._clean_value`, `Agent._parse_row` and the row filtering of `Agent.transform` |

How the model is organised:

- Each loop of the source is a method whose postcondition ties its result or new state to a recursive specification function:
  - `FetchContract` to `ContractFields`.
  - `IBKR.Worker` to `Drain`, and its trace of fetched tasks to `Fetched`.
  - `CleanValue` to `Cleaned`.
  - `ParseRow` to `Parsed`.
- Lemmas then state what those functions guarantee for all inputs.
- A few lemmas work through concrete pages, queues and values.
- The network is a parameter: the class constant `fetch` answers a URL with the page's rows, or with a failure.

## Model

| member | source | states |
|---|---|---|
| Extractor.FetchContract | scraper/ibkr.py:108-140 | The nested loop over rows and field names returns exactly `ContractFields(rows)`, the rows processed first to last. |
| Extractor.LastMatch | scraper/ibkr.py:122-134 | Picks the last row that is not skipped and whose heading contains the field, or reports that no row matches. |
| Extractor.ContractFieldsAt | scraper/ibkr.py:122-136 | Each of the seven fields is present exactly when some kept row's heading contains it. Its value is then the stripped text of the last such row: later rows overwrite earlier ones, and one row can fill several fields. |
| Extractor.StoreFieldAt | scraper/ibkr.py:133-138 | Trying one field name on a row stores the stripped value under that name when the heading contains it. Any other key except "Primary Exchange" is left alone. |
| Extractor.StoreFieldsAt | scraper/ibkr.py:132-136 | Trying the field list on one row changes field `g` only if `g` is listed and the heading contains it. |
| Extractor.StoreFieldsKeys | scraper/ibkr.py:132-138 | Trying the field names on one row adds no key other than a field name or "Primary Exchange". |
| Extractor.ContractFieldsKeys | scraper/ibkr.py:110-138 | The only keys ever returned are the seven field names and "Primary Exchange". |
| Extractor.AllSkippedIsEmpty | scraper/ibkr.py:122-130 | If every row lacks a heading, has "Website" in its heading, or lacks a value, the result is empty. That such rows contribute nothing in general follows from `ContractFieldsAt`, since no skipped row ever matches. |
| Extractor.StoreFieldsConsistent | scraper/ibkr.py:132-138 | Processing one row keeps "Primary Exchange" in step with "Exchange". |
| Extractor.PrimaryExchangeDerived | scraper/ibkr.py:136-138 | "Primary Exchange" is present exactly when "Exchange" is. It equals the stored Exchange value up to its first ", ", or the whole value when there is none. |
| Extractor.ConidNotExtracted | scraper/ibkr.py:110-118 | The extractor never produces a "Conid" key; it stores the identifier as "CONID". |
| Extractor.WebsiteRowFields | scraper/ibkr.py:125-136 | With an ISIN row and then a Website row: ISIN holds the stripped ISIN text, and none of the other six fields is set. |
| Extractor.WebsiteRowIgnored | scraper/ibkr.py:127-128 | An ISIN row followed by a Website row yields exactly `{"ISIN": isin.strip()}`. |
| Extractor.ExchangeRowFields | scraper/ibkr.py:132-136 | A lone "Exchange" row sets Exchange to the stripped value and sets none of the other six fields. |
| Extractor.ExchangeRowKeys | scraper/ibkr.py:136-138 | A lone "Exchange" row yields exactly the keys Exchange and Primary Exchange. |
| Extractor.ExchangeRowOnly | scraper/ibkr.py:136-138 | A lone "Exchange" row yields exactly Exchange and the Primary Exchange cut from it at ", ". |
| Scraper.IBKR.constructor | scraper/ibkr.py:15-20 | A new client keeps its tickers and starts with an empty queue and an empty result store. |
| Scraper.IBKR.Worker | scraper/ibkr.py:73-99 | The final queue and store are those of `Drain` from the old state. The queue left over is a suffix of the old one, and it is empty when every descriptor is well formed. Stored records are never changed or removed. New keys are dedup keys of queued descriptors. The ghost trace it returns lists the positions of the tasks whose URL is fetched, and it equals `Fetched` of the old state. |
| Scraper.IBKR.Turn | scraper/ibkr.py:78-97 | One pass of the loop pops the front task. It raises exactly when the descriptor lacks "symbol", "exch" or "url", and then the store is unchanged. Otherwise the store is `Handled` of the old one, and the trace gains the task's position exactly when its key was not stored. |
| Scraper.IBKR.Run | scraper/ibkr.py:22-28 | Drains a copy of the tickers into a fresh store and returns the store. It holds at most one record per distinct `symbol.exch` of the input, and only those keys. Its ghost trace is `Fetched` of the tickers from an empty store. |
| Scraper.DrainQueue | scraper/ibkr.py:77-85 | Each step pops one task from the front, so what is left is a suffix of the queue. With well-formed descriptors, the worker stops only on an empty queue. |
| Scraper.DrainKeepsStored | scraper/ibkr.py:86-94 | A key already in the store keeps its record: no later descriptor changes or removes it. |
| Scraper.FetchedOrder | scraper/ibkr.py:77-92 | The fetched positions lie within the queue and strictly increase: each task is fetched at most once, in queue order. |
| Scraper.FetchedExactly | scraper/ibkr.py:86-92 | The task at position `i` of a well-formed queue is fetched exactly when its key was not stored at the start and no earlier task with that key has a fetch that succeeds. So a task whose key is already stored is skipped without a fetch, and a failed fetch leaves the key to the next task that carries it. |
| Scraper.FetchedStopsAtMalformed | scraper/ibkr.py:82-92 | A descriptor without "symbol", "exch" or "url" ends the fetching: the trace of the whole queue is that of the well-formed prefix before it, which `FetchedExactly` characterises. |
| Scraper.DrainKeys | scraper/ibkr.py:84-94 | Every key added is `symbol + "." + exch` of some queued descriptor. |
| Scraper.FirstFetched | scraper/ibkr.py:84-99 | Picks the first descriptor with a given key whose fetch succeeds, or reports that there is none. |
| Scraper.DrainFirstFetchWins | scraper/ibkr.py:84-99 | For a key not yet stored: it ends up stored exactly when some descriptor with that key is fetched successfully. The record is the first such descriptor overlaid by the fields extracted from its page. |
| Scraper.DrainStopsAtMalformed | scraper/ibkr.py:82-85 | A descriptor without "symbol", "exch" or "url" raises outside the try block. The worker ends there: the store holds what the well-formed prefix produced, and the later tasks stay queued. |
| Scraper.PartialFailure | scraper/ibkr.py:90-99 | If the middle one of three fetches fails, the other two are still stored and the queue is drained. |
| Scraper.DuplicateKeyFirstWins | scraper/ibkr.py:84-94 | Two descriptors with the same key, the first of which is fetched successfully, yield one entry, that of the first. Only the first is fetched. |
| Scraper.RunSize | scraper/ibkr.py:22-28 | A run stores no more records than there are distinct dedup keys in its input. |
| Transformer.CleanValue | transformer/agent.py:44-58 | The cleaner, including its loop deleting ",", "+" and "%", returns exactly `Cleaned(value)`. |
| Transformer.CleanedIsNone | transformer/agent.py:45-46 | `None`, "n\a", "n/a" and "" become `None`, and no other value does. |
| Transformer.RemoveMarksAllDigits | transformer/agent.py:49-50 | After the characters E . , - + % are deleted, the text is all digits exactly when it had a digit and nothing but digits and those marks. The digits left are then the digits of the input, in order. |
| Transformer.CleanedUnchanged | transformer/agent.py:48-58 | Text that is not a null marker comes back unchanged exactly when it is not numeric in the sense above. |
| Transformer.CleanedInteger | transformer/agent.py:50-57 | Numeric text without "." becomes the number its digits spell. Signs, separators, "E" and "%" are dropped. |
| Transformer.CleanedNegative | transformer/agent.py:49-57 | "-5" becomes 5. |
| Transformer.CleanedThousands | transformer/agent.py:49-57 | "1,234" becomes 1234. |
| Transformer.CleanedExponent | transformer/agent.py:49-57 | "1E3" becomes 13: without a ".", the "E" is deleted with the other marks rather than read as an exponent. |
| Transformer.CleanedDecimal | transformer/agent.py:50-56 | Numeric text with "." goes to `round(float(m), 3)` with `m = Mantissa(s)`. |
| Transformer.MantissaSpec | transformer/agent.py:52-55 | `m` is the text before the first "E" (all of it when there is none) without ",", "+" and "%". It holds none of "E", ",", "+" and "%". |
| Transformer.RemoveEachIsRemove | transformer/agent.py:54-55 | Deleting ",", "+" and "%" one after the other is the same as deleting all three at once. |
| Transformer.ParseRow | transformer/agent.py:61-74 | The loop over the column specs returns exactly `Parsed(row, mapping)`. |
| Transformer.SpecPieces | transformer/agent.py:64-65 | `"a:b"` maps source `a` to destination `b`. A spec without ":" maps a name to itself. Pieces after a second ":" are ignored. |
| Transformer.LastSpec | transformer/agent.py:63-73 | The index it returns is in range and names a spec whose source is present and whose destination is `k`. |
| Transformer.LastSpecIsLast | transformer/agent.py:63-73 | No later spec feeds `k`; when `LastSpec` finds none, no spec at all feeds `k`. |
| Transformer.ParsedAt | transformer/agent.py:61-74 | A destination is present exactly when some spec with a present source names it. It holds the value of the last such spec: the raw value for "ticker", the cleaned value otherwise. |
| Transformer.ParsedKeys | transformer/agent.py:63-71 | The parsed keys are exactly the destinations of the specs whose source is present. |
| Transformer.KeepNonEmpty | transformer/agent.py:30 | Keeps exactly the non-empty rows, each as many times as it occurs in the input (multiset equality with the empty rows removed). |
| Transformer.KeepNonEmptyAppend | transformer/agent.py:30 | Filtering a concatenation filters each part and concatenates the results, so the kept rows stay in input order. |
| Transformer.EmptyColumns | transformer/agent.py:32 | One column per spec, then "timestamp_created_utc" last. |
| Transformer.ColumnNameIsLastPiece | transformer/agent.py:32 | A spec's empty-table column is its part after the last ":", or the whole spec when there is no ":". |
| Transformer.Transform | transformer/agent.py:28-33 | There are no records exactly when every record parses to an empty row. Then the columns are `EmptyColumns(mapping)`. Otherwise the kept rows are the non-empty parsed rows with their multiplicities, and they are `KeepNonEmpty` of the parsed rows in input order. |
| Strings.ContainsOccurs | scraper/ibkr.py:127 | `sub in s` holds exactly when `sub` occurs at some index of `s`. |
| Strings.FirstCharMissing | scraper/ibkr.py:133 | A label whose first letter does not occur in the heading is not contained in it. |
| Strings.StripLeftSuffix | scraper/ibkr.py:136 | Left stripping keeps a suffix and drops only leading white space. |
| Strings.StripRightPrefix | scraper/ibkr.py:136 | Right stripping keeps a prefix and drops only trailing white space. |
| Strings.StripSpec | scraper/ibkr.py:136 | `strip()` gives a slice with only white space around it. The slice neither starts nor ends with white space, and it is empty exactly when the text is all white space. |
| Strings.BeforePrefix | scraper/ibkr.py:138 | `split(sep)[0]` is a prefix in which `sep` does not start anywhere. |
| Strings.BeforeStops | scraper/ibkr.py:138 | `split(sep)[0]` stops short of the end only where `sep` occurs. |
| Strings.BeforeSpec | scraper/ibkr.py:138 | `split(sep)[0]` ends where `sep` first occurs, and it is the whole text exactly when `sep` does not occur. |
| Strings.BeforeCharFree | transformer/agent.py:53 | `txt.split("E")[0]` holds no "E". |
| Strings.BeforeMissing | transformer/agent.py:52-53 | Without the separator, `split(c)[0]` is the whole text. |
| Strings.SplitPiecesFree | transformer/agent.py:64 | No piece of `spec.split(":")` contains ":". |
| Strings.SplitRejoin | transformer/agent.py:64 | Joining the pieces with ":" gives back the spec. |
| Strings.SplitNoSeparator | transformer/agent.py:64-65 | A spec without ":" splits into itself alone. |
| Strings.SplitAfterPiece | transformer/agent.py:64 | Splitting `x + ":" + y` gives `x`, then the pieces of `y`. |
| Strings.SplitJoin | transformer/agent.py:64 | Splitting undoes joining when no piece contains the separator. |
| Strings.JoinEndsWithLast | transformer/agent.py:32 | The last piece ends the spec, right after a ":" when there are several pieces. |
| Strings.Remove | transformer/agent.py:49 | The result is no longer than the input and holds exactly the input's characters that are outside the table. |
| Strings.RemoveAppend | transformer/agent.py:49 | Deleting from a concatenation deletes from each part and concatenates the results; with the one-character cases this fixes order and multiplicity. |
| Strings.RemoveNothing | transformer/agent.py:49 | Deleting no characters changes nothing. |
| Strings.RemoveTwice | transformer/agent.py:54-55 | Deleting two sets of characters in turn deletes their union. |

## Left out

- Scraper.IBKR.Worker: modelled as one sequential worker. The source starts one process per CPU with `THREAD_COUNT` threads each over a manager-shared queue, store and lock (scraper/ibkr.py:30-71). What is left out:
  - the interleavings;
  - the race between the "already stored" test (line 86) and the store (line 94), which lets two threads both fetch a duplicate key, with the later one winning;
  - the other workers going on after one of them dies on a malformed descriptor.
- Scraper.IBKR.Run: `start_workers` replaces the store with a fresh shared dictionary (line 33). The model therefore starts from an empty store, whatever an earlier run left behind.
- HTTP: `Request`, `raise_for_status` and `fetch_contract` are not part of this model. The fetch is an oracle from URL to page rows or failure, and it is fixed for the duration of a run.
- HTML parsing: BeautifulSoup's `find_all("tr")`, `find("th")`, `find("td")` and `.text` are not part of this model. A page is given directly as its rows, each with an optional heading text and an optional value text.
- A heading or value that is present but has empty text: the source treats such an element as present because it tests the element, not its text, and the model does the same.
- Transformer.CleanValue: `round(float(txt), 3)` is kept as `Rounded(txt)`, the text handed to `float`. Floating point is not modelled, and `float(...)` may raise on text such as "1.2.3", which the model does not show.
- Transformer.CleanValue: the integer branch returns `float(sanitized)`. The model returns the exact natural number, and the loss of precision above 2^53 is not modelled.
- Transformer.CleanValue: `str.isdigit()` also accepts non-ASCII digits, but the model accepts only '0'-'9'. Record values other than `null` and strings (numbers, booleans) are not modelled.
- Transformer.Transform: the pandas DataFrame, the `timestamp_created_utc` value from the clock (agent.py:35-41) and the table name argument are not part of this model. `Transform` takes the records as a sequence, standing for `list(data.values())` in `Agent.__init__` (agent.py:23-24), and the column specs as a parameter. The default spec list `Agent.COLUMNS` (agent.py:9-21) is not part of this model.
- Scraper.IBKR.Worker: descriptor values are modelled as strings. Ticker-catalog fields that are numbers or other JSON values, and the stringification of `symbol` and `exch` by the f-string at scraper/ibkr.py:84, are not modelled.
- Logging and `config` settings are not part of this model.
- `main.py` (load tickers, run, transform, insert into the database) is not part of this model.
- `IsSpace` follows the code points Python's `str.isspace()` accepts; no other Unicode handling is modelled.

## Notes

- The transformer's column spec "Conid:conid" (transformer/agent.py:18) looks for a key "Conid". The extractor stores "CONID" (scraper/ibkr.py:113), as `Extractor.ConidNotExtracted` shows, so the "conid" column can only come from a ticker descriptor that carries "Conid" itself.
- Scientific notation is not normalised by the cleaner. Without a ".", the "E" is simply deleted, so "1E3" becomes 13 (`Transformer.CleanedExponent`). With a ".", everything from the first "E" on is dropped, so "1.5E3" becomes `round(float("1.5"), 3)` (`Transformer.MantissaSpec`).
- The dedup key and the URL are read before the `try` block (scraper/ibkr.py:84-85). A descriptor without "symbol", "exch" or "url" therefore stops the worker instead of being skipped.
