# pserver request scheduler in Dafny

This project models the scheduling core of the multi-threaded web server
`src/pserver.c`. Connections that the acceptor admits become `request_t`
records `(conn_fd, filesize, seq)`. They wait in a bounded, array-backed
binary min-heap until a worker takes the least one. The ordering depends on
the policy:

- FIFO orders by the admission number `seq`.
- SFF (smallest file first) orders by the estimated cost `filesize`, then by `seq`.

Under SFF the acceptor estimates the cost with a probe:

1. It peeks at the connection's first bytes.
2. It cuts out the first line and reads three words from it.
3. It turns the request-target into a local path.
4. It `stat`s that path.

A failed `stat` gives the `INT_MAX` sentinel, and so does a file of exactly `INT_MAX` bytes. A dynamic (`cgi`) target whose script exists is costed by the script's file size, so it is not automatically served last.

The modules are:

- `Requests` (`request.dfy`): the request record, the policy, and the comparator `request_cmp` with its total-order lemmas.
- `RequestHeap` (`heap.dfy`): the heap as a class over an `array<Request>`:
  - `Swap` exchanges two slots. `HeapifyUp` and `HeapifyDown` are sift loops with loop invariants. One iteration of the downward sift (choose the least of a slot and its children, swap) is the method `SiftDownTurn`.
  - `Insert` and `ExtractMin` are proved to keep the heap order, to add or remove exactly one request from the contents multiset, and to leave the slots past the heap alone.
  - The `exit(1)` guards for a full or empty heap are preconditions.
- `DispatchOrder` (`dispatch.dfy`): the order in which requests leave. A run of dispatches is a sequence of least-element extractions. Lemmas show that the run is a permutation and is sorted. Under FIFO it is strictly increasing by `seq`. Under SFF it is sorted by `(filesize, seq)`, and unknown-size requests come last.
- `Probe` (`probe.dfy`): the SFF probe:
  - the first-line copy loop, and the C-string view of the line;
  - `sscanf("%s %s %s")` as splitting into words;
  - `strstr` and `strchr`;
  - path derivation and the cost rule.
- `Config` (`config.dfy`): the port range check and the case-insensitive policy name.
- `Server` (`server.dfy`): the sequential abstraction of the acceptor and worker loops.
  - A `Server` object holds the heap and `seq_counter`.
  - `Admit` is one acceptor iteration, and `Dispatch` is one worker extraction.
  - `ServeRounds` is several worker iterations.
- `Scenarios` (`scenarios.dfy`): concrete runs of the server and heap, with their service order proved.

Two details of `sscanf` on a C string are kept as the code has them:

- `sscanf(line, "%s %s %s", ...) != 3` drops a request line only when it has fewer than three words. Words after the third are ignored, so a line is accepted when it has *at least* three words (`ParseRequestLine`, `ParseSpreadLine`).
- The line is a C string. A NUL byte in the peeked data ends what `sscanf` sees (`CString`).

## Model

| member | source | states |
|---|---|---|
| Requests.Compare | src/pserver.c:45-59 | the result is -1, 0 or 1. It is negative exactly when `a`'s key is lexicographically before `b`'s, zero exactly when the keys are equal, and positive exactly when `b`'s key is before `a`'s. The key is `seq` under FIFO and `(filesize, seq)` under SFF |
| Requests.CompareAntisymmetric | src/pserver.c:45-59 | `cmp(a,b) == -cmp(b,a)` |
| Requests.CompareTransitive | src/pserver.c:45-59 | `<=` is transitive, and mixing `<` with `<=` gives `<` |
| Requests.CompareTotal | src/pserver.c:45-59 | any two requests are comparable, and "not `a < b`" is the same as `b <= a` |
| Requests.CompareZeroOnlyOnEqualSeq | src/pserver.c:46-57 | the comparator returns 0 exactly when the `seq` values agree and, under SFF, the filesizes agree too |
| Requests.FifoIgnoresCost | src/pserver.c:46-49 | under FIFO, changing either request's filesize does not change the result, and `a` comes first exactly when its `seq` is smaller |
| Requests.SffCheaperFirst | src/pserver.c:50-57 | under SFF a strictly smaller filesize always gives -1. Equal filesizes, two `INT_MAX` sentinels included, give the FIFO result |
| RequestHeap.HeapRootMinimum | src/pserver.c:105-110 | in a heap the root is ordered no later than every element of the contents |
| RequestHeap.SiftUpStep | src/pserver.c:69-72 | swapping a slot with a parent it is ordered before moves the upward sift's invariant to the parent |
| RequestHeap.SiftUpDone | src/pserver.c:67-76 | the upward sift may stop at the root, or when the slot is not ordered before its parent: the whole prefix is then a heap |
| RequestHeap.SmallestChild | src/pserver.c:80-86 | the choice of `smallest` (left child if it is less than the slot, then right child if it is less than that) picks the least of the slot and its children |
| RequestHeap.SiftDownStep | src/pserver.c:87-89 | swapping a slot with its least child, when that child is less than the slot, moves the downward sift's invariant to the child |
| RequestHeap.SiftDownDone | src/pserver.c:87-91 | when no child is less than the slot, the downward sift stops and the prefix is a heap |
| RequestHeap.SiftDownSwap | src/pserver.c:80-89 | when the choice of `smallest` picks a child, that child lies below the slot, and exchanging the two moves the downward sift's invariant to the child |
| RequestHeap.MoveLastToRoot | src/pserver.c:112-114 | copying the last slot over the root of a heap leaves a downward sift at the root, holding the contents minus the old root |
| RequestHeap.Heap.constructor | src/pserver.c:189-195 | the heap starts with size 0 and empty contents over a fresh array of `capacity` slots |
| RequestHeap.Heap.Swap | src/pserver.c:61-65 | the array after the call is the old one with slots `i` and `j` exchanged |
| RequestHeap.Heap.HeapifyUp | src/pserver.c:67-76 | from a slot out of place only toward its parent, the loop makes the prefix up to `index` a heap. It only permutes that prefix (same multiset), and it leaves every slot past `index` unchanged |
| RequestHeap.Heap.HeapifyDown | src/pserver.c:78-93 | from a slot out of place only toward its children, the loop makes `[0, size)` a heap. It only permutes that range, and it leaves every slot at or past `size` unchanged |
| RequestHeap.Heap.SiftDownTurn | src/pserver.c:80-91 | one iteration of the downward sift. If the slot is no later than its children, nothing changes and the prefix is a heap. Otherwise the slot is exchanged with the least child (the new array is stated exactly), and the sift continues one level down at that child |
| RequestHeap.Heap.Insert | src/pserver.c:95-103 | requires room (the full-heap abort is a precondition). The heap order and `size <= capacity` still hold, the size grows by one, the contents become the old contents plus `req`, and no slot past the new size changes |
| RequestHeap.Heap.ExtractMin | src/pserver.c:105-117 | requires a non-empty heap (the empty-heap abort is a precondition). It returns a pending request that is ordered no later than every pending request. The heap order still holds, the size shrinks by one, the contents lose exactly that request, and no slot past the new size changes |
| RequestHeap.Heap.RefillRoot | src/pserver.c:112-115 | moving the last request to the root and sifting it down leaves a heap over `[0, size)` holding the old heap minus its root, and changes no slot at or past `size` |
| DispatchOrder.DrainExtend | src/pserver.c:119-133 | one more extraction of a least pending request extends a run of dispatches |
| DispatchOrder.DrainPermutation | src/pserver.c:105-117 | the dispatched requests and the still-pending ones together are exactly the requests that were pending |
| DispatchOrder.DrainSorted | src/pserver.c:119-133 | each dispatched request is ordered no later than every request dispatched after it and every request still pending |
| DispatchOrder.DrainStrict | src/pserver.c:119-133 | with unique admission numbers, dispatch order is strict: no two dispatched requests compare equal |
| DispatchOrder.FifoDispatchOrder | src/pserver.c:46-49 | under FIFO, dispatched requests have strictly increasing `seq` |
| DispatchOrder.SffDispatchOrder | src/pserver.c:50-57 | under SFF, dispatched requests are strictly increasing in `(filesize, seq)`, and none costs more than a request still pending |
| DispatchOrder.UnknownCostServedLast | src/pserver.c:265-267 | under SFF, once a request with the unknown-size sentinel `INT_MAX` is dispatched, everything dispatched after it and everything still pending costs at least `INT_MAX`. When every cost fits in an `int`, as the server's invariant keeps, they all cost exactly `INT_MAX` |
| Probe.LineWithin | src/pserver.c:236-239 | the result is a prefix of the data and contains no newline. It stops at the first newline, at the end of the data, or at the length limit |
| Probe.LineWithinUnique | src/pserver.c:236-239 | the three stopping conditions determine the line: any prefix that satisfies them equals `LineWithin` |
| Probe.CopyFirstLine | src/pserver.c:234-240 | the copy loop yields exactly the first line of the peeked bytes, limited to `MAXBUF-1` characters |
| Probe.BeforeChar | src/pserver.c:256-259 | the result is the prefix of `s` before its first `c`, or all of `s` when there is no `c` (`strchr` and the NUL written there) |
| Probe.BeforeCharUnique | src/pserver.c:256-259 | any prefix that stops exactly at the first `c`, or at the end, is the one `BeforeChar` gives |
| Probe.TokenLength | src/pserver.c:243 | the length of the leading run of non-space characters: the run holds no space, and it ends at a space or at the end of the string |
| Probe.Words | src/pserver.c:243 | every word that a `%s` conversion reads is non-empty and holds no whitespace. The layout lemmas below fix the value completely |
| Probe.WordsOfSpread | src/pserver.c:243 | for words laid out with any whitespace runs between them (non-empty), before the first and after the last, splitting gives back exactly those words in order |
| Probe.WordsLayout | src/pserver.c:243 | every line is such a layout of its own words: the words are the line with only whitespace taken out, split at each whitespace run |
| Probe.ParseRequestLine | src/pserver.c:242-246 | the line parses exactly when it has at least three words. The three fields are then non-empty, and the target is the second word |
| Probe.ParseSpreadLine | src/pserver.c:242-246 | a line made of a method, a target, a version and possibly more words, separated by any whitespace, parses to exactly the first three |
| Probe.CrlfRequestLine | src/pserver.c:234-246 | peeked bytes `method SP target SP version CR LF headers` (words without NUL, line shorter than the buffer) give a first line that parses to that method, target and version: the CR is skipped as whitespace |
| Probe.HasSubstring | src/pserver.c:250 | true exactly when the pattern occurs at some index of the string (`strstr`) |
| Probe.DerivePath | src/pserver.c:248-263 | the path starts with `.`. For a target without "cgi" it is `.` plus the target, plus `index.html` exactly when the target ends in `/`. For a "cgi" target it is `.` plus the target cut before its first `?` |
| Probe.DynamicQueryDropped | src/pserver.c:255-262 | `script?query`, where `script` contains "cgi", maps to `.script` |
| Probe.StaticTargetMapsToFile | src/pserver.c:250-254 | a target without "cgi" maps to `.target`, with `index.html` appended for a directory target |
| Probe.ToInt32 | src/pserver.c:269 | the result is within the 32-bit `int` range, is congruent to the input modulo 2^32, and equals the input when the input fits |
| Probe.StatCostAsWritten | src/pserver.c:265-269 | a failed `stat` gives `INT_MAX`. A size that fits in an `int` is kept, and any other size wraps into the 32-bit range |
| Probe.LargeFileOvertakesAsWritten | src/pserver.c:269 | as written, a 2 GiB file gets a negative cost and is ordered before an earlier one-byte file, and a 4 GiB + 10 byte file costs 10 |
| Probe.StatCost | src/pserver.c:265-269 | a failed `stat` gives `INT_MAX`, and a size that fits is kept. Every cost lies in `[0, INT_MAX]` |
| Probe.StatCostMonotone | src/pserver.c:265-269 | a larger file never gets a smaller cost, and no file costs more than a failed `stat`. Below `INT_MAX` this agrees with the as-written rule |
| Probe.ProbeCost | src/pserver.c:228-270 | the probe fails exactly when nothing was peeked or the first line (up to any NUL) has fewer than three words. Otherwise the cost lies in `[0, INT_MAX]` |
| Probe.MeasureCost | src/pserver.c:228-270 | the acceptor's probe computes `ProbeCost` of the peeked bytes |
| Config.ParsePolicy | src/pserver.c:181-184 | the policy is SFF exactly when the name is one of the eight letter-case spellings of "SFF". Anything else is FIFO |
| Config.Configure | src/pserver.c:176-184 | the arguments are rejected exactly when the port lies outside [1024, 65535]. When they are accepted, the port is kept and the policy follows `ParsePolicy` |
| Server.Server.constructor | src/pserver.c:189-195 | the server starts with an empty heap of the given capacity and `seq_counter == 0` |
| Server.Server.Admit | src/pserver.c:225-282 | requires room only when the request will be inserted: under SFF a failed probe drops the connection even when the heap is full, and state and counter are unchanged. Otherwise the request gets the next `seq` and the probed cost (0 under FIFO), the counter grows by one, and the heap gains exactly that request. Heap order, `size <= capacity`, unique admission numbers below the counter, and costs in `[0, INT_MAX]` (0 under FIFO) are preserved |
| Server.Server.Dispatch | src/pserver.c:119-133 | a worker takes a least pending request under the policy. The contents lose exactly that request, and the invariants are kept |
| Server.Server.ServeRounds | src/pserver.c:119-133 | `rounds` worker iterations, with no admissions in between, serve a run of least-element extractions from the pending requests. Under SFF, every request served after an `INT_MAX` one costs exactly `INT_MAX` |
| Scenarios.FifoServesInArrivalOrder | src/pserver.c:46-49 | a FIFO server of capacity 3 serves connections 1, 2 and 3 in arrival order |
| Scenarios.AdmitThreeFifo | src/pserver.c:272-280 | three FIFO admissions give requests with cost 0 and `seq` 0, 1 and 2 |
| Scenarios.FifoIgnoresCosts | src/pserver.c:46-49 | under FIFO, costs of 900, 5 and 50 do not change the arrival order |
| Scenarios.SffServesSmallerFirst | src/pserver.c:50-57 | under SFF a later 100-byte request is served before an earlier 500-byte one |
| Scenarios.SffUnknownSizeLast | src/pserver.c:265-267 | under SFF a known-size request overtakes unknown-size ones, which leave in arrival order |
| Scenarios.TakeThree | src/pserver.c:105-117 | three extractions from a heap of three requests, which the policy orders `a < b < c`, return `a`, `b`, `c` |
| Scenarios.ServeThree | src/pserver.c:119-133 | three worker turns on a server holding three requests ordered `a < b < c` serve `a`, `b`, `c` |
| Scenarios.EmptyPeekIsDropped | src/pserver.c:229-233 | under SFF, a connection with nothing to peek is not admitted and the heap stays empty |
| Scenarios.FullServerDropsFailedProbe | src/pserver.c:228-233 | under SFF with a full heap (capacity 0), a connection with nothing to peek is dropped at once, and no admission number is used |

## Left out

- Threads and synchronisation are left out: the mutex, the `not_empty` and `not_full` condition waits, and `pthread_create`/`pthread_detach`. The model is sequential. `Dispatch` requires a non-empty heap, which is the `exit(1)` guard of `heap_extract_min` written as a precondition. The source does not always ensure it: under SFF, a worker that sees exactly one pending request releases the lock, sleeps and then extracts without checking `heap_size` again (src/pserver.c:126-132). When two workers both see that one request and sleep, the first to wake takes it. Unless a request is admitted meanwhile, the second then extracts from an empty heap and the server exits. The model assumes this interleaving does not happen. The acceptor's wait for room, which guards only the insertion (under SFF, after a successful probe), becomes the precondition of `Admit` for the connections it inserts.
- The SFF delay (`usleep` when exactly one request is pending) is not modelled. It decides which requests are present when the next extraction happens. With two or more workers it also allows the extraction from an empty heap described above.
- Socket and file-system I/O are not modelled. `recv(..., MSG_PEEK)` becomes the `peek` parameter, where an empty peek stands for `n <= 0`. `stat` becomes a map from path to size. `accept`, `close`, `chdir`, the listening socket and `request_handle` (declared in `request.h`) are left out. `request.h` and `io_helper.h` are not part of this model.
- Command-line parsing with `getopt`/`atoi`, and the `malloc` failure paths, are not modelled. `Configure` takes the port as an already-converted integer.
- Fixed C buffers are not modelled: `uri[256]`, `method[16]` and `version[16]` for `sscanf`, the `snprintf` truncation at `MAXBUF`, and `strcpy`/`strcat` into fixed arrays. Strings are unbounded `seq<char>`, and overflow behaviour is not reproduced.
- The query string `cgiargs` is computed but not used in this file, so it is not modelled. Only the path it is cut from is.
- Server.Server.Admit: `seq_counter` is an `unsigned long` and would wrap after 2^64 admissions. The model counts with an unbounded `nat`.
- Probe.CopyFirstLine: the model accepts peeks of any length. `recv` never returns more than `MAXBUF` bytes, and the line is limited to `MAXBUF-1` characters as in the code.
- Probe.ProbeCost: the model uses the saturating cost `StatCost`, not the wrapping conversion the code performs (see Findings).
- Which worker serves which request and the interleaving of admissions with dispatches are not modelled. The order lemmas cover a run of dispatches between admissions (`ServeRounds`). Every single admission and dispatch keeps the invariants.

## Findings

| source | as written | input that shows it | evidently intended | confidence | as-written member | corrected member |
|---|---|---|---|---|---|---|
| src/pserver.c:269 | `filesize = sbuf.st_size` stores a 64-bit `off_t` into a 32-bit `int`, which wraps modulo 2^32 | a file of 2^31 bytes gets cost -2^31 and is served before an earlier one-byte file. A file of 2^32 + 10 bytes costs 10 | a large file should cost at least as much as any smaller file, e.g. by saturating at `INT_MAX` | not executed | Probe.LargeFileOvertakesAsWritten | Probe.StatCostMonotone |
