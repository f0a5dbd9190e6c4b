# Cluster health monitor: node counts and summary line

This project models the health monitor in `pkg/status/status.go` of a demo
dashboard backend for a distributed database cluster. The monitor:

- polls a data source for the cluster's nodes,
- keeps a map `nodesPerState` from status label (`"LIVE"`, `"DEAD"`, or any
  label a remote source reports) to the number of nodes carrying it,
- renders that map as a one-line summary on demand.

The model has four modules.

- `Wrappers`: `Option`, which stands for a Go pointer that may be nil.
- `Decimal`: `%d` formatting of integers (`NatToDecimal`, `IntToDecimal`). Its
  partner is a parser, `ParseInt`, and the lemmas show that formatting
  round-trips through it.
- `Lexicographic`: Go's `<` on strings (`Less`), with proofs that it is a strict
  total order. `SortStrings` models `sort.Strings`. The module also proves that
  a strictly ascending listing of a set of strings is unique.
- `Status` holds the rest:
  - the node and row types;
  - the reference definitions `Count`, `Labels`, `Tallies` (what a poll must
    leave behind) and `Summary` (what `GetStatus` must return);
  - the class `Status`, whose field `nodesPerState` is updated in place by
    `Poll` (one iteration of `RunHealthCheck`) and read by `GetStatus`;
  - the row loop of `getLocalStatus` (`NodesFromRows`).

What is proved:

- **After a successful poll:**
  - the map's keys are exactly the labels of the fetched nodes, so labels from
    earlier polls are gone;
  - each count equals the number of nodes with that label and is at least 1;
  - the counts add up to the number of nodes.
- **Nil fetch:** a nil fetch stops the loop and leaves the map unchanged.
- **`GetStatus`:**
  - it returns `Summary(nodesPerState)`;
  - if no key other than LIVE is present, that is `"<n> node(s) LIVE"`, where
    `<n>` is the LIVE count or 0;
  - otherwise it is one `"| <count> node(s) <label> |"` segment per key, in
    strictly ascending order of label;
  - it has no `modifies` clause, so it cannot change the map.
- **Row conversion:**
  - each row gives one node, in row order;
  - the name is `node<id>`, the region is `local`, and the status is LIVE
    exactly when the row's liveness flag is set;
  - any scan failure gives nil;
  - distinct ids give distinct names.
- **Segments:** each segment reads `| <count> node(s) <label> |`. Segments are
  concatenated with nothing between them, and a segment determines its count
  and its label.
- **End to end:** `LocalPollSummary` converts the rows, polls them and reads
  the summary.
  - A failed scan ends the loop (`RunHealthCheck` returns at status.go:59-60),
    and the earlier counts keep being served.
  - Otherwise the new map holds the live-row count under LIVE and the dead-row
    count under DEAD, each only when positive, so no label survives from an
    earlier poll.
  - The summary then takes one of three shapes: the live-row count alone; the
    DEAD segment; or the DEAD segment followed by the LIVE segment.

## Model

| member | source | states |
|---|---|---|
| Status.Status.constructor | pkg/status/status.go:51-53 | A new monitor has an empty `nodesPerState`. |
| Status.Status.Poll | pkg/status/status.go:56-72 | A nil fetch returns `stop` and leaves the map as it was. Otherwise the map's keys are exactly the fetched labels, each count is the number of nodes with that label and is at least 1, and the counts over the keys sum to the number of nodes. |
| Status.Status.Clear | pkg/status/status.go:62-65 | Deleting every key one at a time leaves the map empty. |
| Status.TalliesEmpty | pkg/status/status.go:63-67 | The map emptied by the delete loop holds the counts of the empty node list: the starting point of the counting loop. |
| Status.TalliesAppend | pkg/status/status.go:67-69 | Incrementing the count of a node's label, reading a missing key as 0, turns the counts of `nodes` into the counts of `nodes + [n]`. |
| Status.TalliesUnique | pkg/status/status.go:63-69 | The counts a poll must produce are determined by the fetched nodes alone, whatever the map held before. |
| Status.TalliesPositive | pkg/status/status.go:67-69 | Every stored count is at least 1. |
| Status.TalliesSum | pkg/status/status.go:67-69 | Summed over the distinct keys, the counts equal the number of fetched nodes. |
| Status.CountPositive | pkg/status/status.go:67-69 | A label has a positive count exactly when some fetched node carries it. |
| Status.LabelsMembers | pkg/status/status.go:67-68 | A label is a key after a poll exactly when some node at some index carries it. |
| Status.CountAllLabels | pkg/status/status.go:67-69 | Counting the nodes of each label once, over a list that covers every label, counts every node exactly once. |
| Status.LiveCount | pkg/status/status.go:82 | Reading the LIVE count gives the stored value, or Go's zero value 0 when the key is absent. |
| Status.Segment | pkg/status/status.go:92 | A segment opens with a bar and a space and closes with a space and a bar, and its length is the digits of the count plus the label plus 13 fixed characters. |
| Status.SegmentInjective | pkg/status/status.go:92 | Equal segments have equal counts and equal labels, so the count and label can be read back from the text. |
| Status.Status.GetStatus | pkg/status/status.go:74-97 | The result is the summary of the current counts, and the method changes no state. |
| Status.CountNotLive | pkg/status/status.go:76-81 | `notAlive` is the number of keys other than LIVE. |
| Status.OnlyLiveIff | pkg/status/status.go:82-83 | `notAlive == 0` holds exactly when no key other than LIVE is present, which selects the single-count form. |
| Status.CollectKeys | pkg/status/status.go:85-88 | The collected slice lists every key of the map exactly once. |
| Status.RenderSegments | pkg/status/status.go:91-93 | The message is the segments of the keys, one per key, in the order given. |
| Status.SummaryIsAscendingSegments | pkg/status/status.go:83-93 | When some key is not LIVE, the summary is the segments of the keys in strictly ascending label order, and any strictly ascending listing of the keys yields the same text. |
| Status.SummaryAllLive | pkg/status/status.go:82 | With counts `{LIVE: 5}` the summary is `5 node(s) LIVE`. |
| Status.SummaryNoNodes | pkg/status/status.go:82 | With an empty map the summary is `0 node(s) LIVE`. |
| Status.SummaryDeadOnly | pkg/status/status.go:83-93 | With DEAD as the only key, the summary is the single DEAD segment. |
| Status.SummaryDeadAndLive | pkg/status/status.go:83-93 | With keys DEAD and LIVE, the DEAD segment comes before the LIVE segment. |
| Status.SummaryDeadBeforeLive | pkg/status/status.go:83-93 | With counts `{LIVE: 4, DEAD: 1}` the summary is the exact text of the DEAD segment with count 1 followed by the LIVE segment with count 4. |
| Status.SegmentText | pkg/status/status.go:92 | For a single-digit count, a segment is the literal text: bar, space, the digit, ` node(s) `, the label, space, bar. |
| Status.NodesFromRows | pkg/status/status.go:117-146 | The result is nil exactly when some row failed to scan. Otherwise there is one node per row, in row order, named `node<id>` in region `local`, with status LIVE exactly when the row is live and DEAD otherwise. |
| Status.RowNode | pkg/status/status.go:125-145 | The node for a scanned row is named `node<id>` in region `local`, with status LIVE exactly when the row is live and DEAD otherwise. |
| Status.NodeNameInjective | pkg/status/status.go:131 | Distinct node ids give distinct node names. |
| Status.LiveDeadCounts | pkg/status/status.go:125-145 | When every node is LIVE or DEAD, the LIVE and DEAD counts add up to the number of nodes. |
| Status.LiveDeadKeys | pkg/status/status.go:67-69 | After a poll of LIVE/DEAD nodes, only LIVE and DEAD can be keys. LIVE is a key exactly when some node is live, DEAD exactly when some node is dead, and each holds its node count. |
| Status.LiveDeadMapUnique | pkg/status/status.go:67-69 | A map whose only keys are LIVE and DEAD, each present exactly when its count is positive and holding that count, is exactly the map built from the two counts. |
| Status.LiveDeadCountsMap | pkg/status/status.go:63-69 | After a poll of LIVE/DEAD nodes, the whole map is LIVE mapped to the live count and DEAD mapped to the dead count, each present only when positive. |
| Status.SummaryOfLiveDead | pkg/status/status.go:76-93 | The summary of such a map is the LIVE count alone when the dead count is 0. Otherwise it is the DEAD segment alone, or the DEAD segment followed by the LIVE segment when both counts are positive. |
| Status.LiveDeadSummary | pkg/status/status.go:74-97 | After a poll of LIVE/DEAD nodes, the summary is the LIVE count alone when no node is DEAD. Otherwise it is the DEAD segment, followed by the LIVE segment when some node is live. |
| Status.RowCounts | pkg/status/status.go:117-146 | Nodes converted row by row carry as many LIVE labels as there are live rows, and as many DEAD labels as there are dead rows. |
| Status.LocalPollSummary | pkg/status/status.go:56-97 | One local cycle from rows to summary. A failed scan stops the loop, keeps the counts and serves their summary. Otherwise the new map is exactly LIVE mapped to the live-row count and DEAD mapped to the dead-row count, each present only when positive, and the summary is the live-row count alone when no row is dead, else the DEAD segment followed by the LIVE segment when some row is live. |
| Lexicographic.Less | pkg/status/status.go:89 | Go's `<` on strings, the order `sort.Strings` uses: no string is below itself. |
| Lexicographic.LessIsBelow | pkg/status/status.go:89 | Go's `<` coincides with the lexicographic order: a proper prefix, or a smaller element at the first difference. |
| Lexicographic.SortStrings | pkg/status/status.go:89 | The result is ordered by Go's string `<` and is a permutation of the input. For an input with no repeats it is strictly ascending. |
| Lexicographic.InsertOrdered | pkg/status/status.go:89 | Inserting one key into the sorted prefix adds exactly that key, as a multiset. |
| Lexicographic.InsertKeepsOrdered | pkg/status/status.go:89 | Inserting into an ordered sequence keeps it ordered. |
| Lexicographic.InsertKeepsAscending | pkg/status/status.go:89 | Inserting a new key into a strictly ascending sequence keeps it strictly ascending. |
| Lexicographic.LessAsymmetric | pkg/status/status.go:89 | If a < b then not b < a. |
| Lexicographic.LessTransitive | pkg/status/status.go:89 | The string order is transitive. |
| Lexicographic.LessTotal | pkg/status/status.go:89 | Any two different strings are comparable. |
| Lexicographic.AscendingUnique | pkg/status/status.go:89-93 | Two strictly ascending sequences with the same elements are equal, so the sorted key order is unique. |
| Lexicographic.AscendingList | pkg/status/status.go:89 | Every finite set of labels has a strictly ascending listing. |
| Decimal.NatToDecimal | pkg/status/status.go:82 | `%d` of a count is a non-empty run of digits with no leading zero. |
| Decimal.IntToDecimal | pkg/status/status.go:131 | `%d` of a node id is digits with a `-` in front exactly when the id is negative. |
| Decimal.ParseNatToDecimal | pkg/status/status.go:82 | Parsing the decimal text of a count gives back the count. |
| Decimal.ParseIntToDecimal | pkg/status/status.go:131 | Parsing the decimal text of an id gives back the id. |
| Decimal.IntToDecimalInjective | pkg/status/status.go:131 | Distinct ids have distinct decimal texts. |

## Left out

- The database query of `getLocalStatus` (pkg/status/status.go:110), its error path and `rows.Close`. These are foreign library calls. The rows are an input sequence in which each row either scanned or failed.
- `getDedicatedStatus` (pkg/status/status.go:151-186): environment variables, HTTP request, status-code check, body read and JSON decoding. This is I/O. Its outcome is the `Option<seq<NodeInfo>>` that `Poll` receives.
- `getNodesInformation` and the package globals `isLocal` and `dbpool` (pkg/status/status.go:30-31, 99-104). Which source is polled only decides where `Poll`'s input comes from.
- `NewStatus`'s pool configuration, connection and `log.Fatal` exits (pkg/status/status.go:33-49). These are I/O and process exit; only the empty map it returns is modelled, by the constructor.
- `time.Sleep` and the unbounded `for` loop of `RunHealthCheck`. One iteration is modelled as `Poll`, whose `stop` result says whether the loop returns.
- Concurrent access to `nodesPerState` by `RunHealthCheck` and `GetStatus`. The code takes no lock. `GetStatus`'s `range` and index reads (pkg/status/status.go:77-92) can run while the delete and increment at pkg/status/status.go:63-68 write the map. A reader may then see a half-rebuilt map. Go's runtime may also detect the race and abort the whole process ("concurrent map read and map write" or "concurrent map iteration and map write"). Neither interleaving is modelled.
- The logging calls.
- An iteration error that ends `rows.Next()` early is not reported by the code. In the model it is simply a shorter `rows` input.
- main.go and the packages `pkg/websocket` (`Pool`) and `pkg/faker` (`Faker`) that it imports (main.go:10-12). Their source is not part of this model. main.go starts them as goroutines (`go pool.Start()` at main.go:48, `go f.Start()` at main.go:63) and registers HTTP handlers. main.go:59 calls `NewStatus` with no arguments while pkg/status/status.go:33 declares two parameters.
- Status.Status.Poll: counts are unbounded `nat`, whereas Go's `int` has 64 bits on 64-bit targets and 32 bits on 32-bit targets such as 386 and arm. A count wraps to a negative value once 2^63 nodes (2^31 on 32-bit targets) carry one label in a single poll; the model does not capture that wrap.
- Status.NodesFromRows: node ids are unbounded `int`, not bounded to the width of Go's `int` (64 or 32 bits by target); the model accepts ids outside that range, which the scan could not produce.
- Lexicographic.SortStrings: the algorithm of `sort.Strings` is not reproduced. The model is an insertion sort proved to meet the contract `sort.Strings` documents (ordered, a permutation).
- Lexicographic.Less: Go compares the UTF-8 bytes of strings, while the model compares characters. The two orders agree on valid UTF-8 text, and byte sequences that are not valid UTF-8 are not modelled.
- Map iteration order: Go's randomised order is modelled as an arbitrary choice (`:|`) in `Clear`, `CountNotLive` and `CollectKeys`. Their contracts hold for every order.
