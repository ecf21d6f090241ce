# Dispatcher core: paged worker registry, slot lifecycle and scheduling cycle

The dispatcher of this IM system accepts connections from worker servers on
an internal port and hands clients the outer address of a worker. This
project models its sequential core in Dafny:

- `Registry` (connections.dfy) is the paged `Connections` list of
  `ConnectionInfo{Connected, InterIP, OuterIP, Count}` records. Records sit
  on fixed-capacity pages. Record `i` lives on page `i / capacity` at offset
  `i % capacity`. The pages are a `seq<seq<ConnectionInfo>>`, and the ghost
  function `Elements` is the flattened view every contract talks about.
- `Common` (common.dfy) holds the fixed-width integers, the big-endian
  4-byte count read `ReadUint32`, and `TrimIP`.
- `InterListener` (inter_listener.dfy) holds the whitelist admission of
  `Listen`, the claim rule `getRealIndex`, and the life of one slot inside
  `handler`: claim, raw OuterIP read, count reports, deferred release.
- `Scheduler` (scheduler.dfy) is one iteration of `distributeWorkIndex`. The
  work list becomes a sorted copy of the live list. A ceiling is derived
  from the largest connected Count. Every connected worker below the ceiling
  has its OuterIP pushed once per missing client. The channel pushes are
  returned as a sequence of strings.
- `Wrappers` (wrappers.dfy) is `Option`, used where Go returns a nil pointer.

A socket read is a `ReadEvent(n, err, data)`. It holds the byte count, the
error, and the buffer afterwards, and it obeys the `io.Reader` contract. A
session's count reports are a finite sequence of such events. Running out of
events is the stream ending. The whitelist is the set of keys of the Go map.

Behaviour of the code worth knowing:
- the channel carries OuterIP strings;
- the ceiling falls back to 10 whenever the largest connected Count is 0;
- the work list is sorted in place after the copy;
- a read of other than four bytes with a nil error yields `(0, nil)`, so the
  handler stores Count 0 (`Common.CoalescedReadYieldsZero`).

## Model

| member | source | states |
|---|---|---|
| Registry.NewConnections | src/distributed/connections.go:45-54 | A new registry is valid and empty: count 0, and one empty page at map index 0. |
| Registry.PagingCount | src/distributed/connections.go:76-84 | Under the paging invariant, count equals currentMapIndex * capacity plus the length of the current page. |
| Registry.Count | src/distributed/connections.go:90-92 | Count is the length of the flattened record sequence, and equals the paged form. |
| Registry.Append | src/distributed/connections.go:75-87 | Append keeps the paging invariant and adds exactly one record at the end. At most one page is added, and only when the current page is full. Every existing page is a prefix of its new version, so no record moves. |
| Registry.AppendAt | src/distributed/connections.go:75-87 | After Append, At(old count) is the appended record, every lower index reads as before, and the index range grows by one. |
| Registry.At | src/distributed/connections.go:95-110 | At(i) is non-nil exactly when i < Count, and then it is record i of the flattened view. |
| Registry.InRange | src/distributed/connections.go:97-106 | The two nil tests of At (page past the current one; offset past the current page's length) together say exactly i >= count. |
| Registry.Locate | src/distributed/connections.go:97-108 | Record k is stored on page k / capacity at offset k % capacity. |
| Registry.Set | src/distributed/connections.go:108 | Writing through the pointer At returns replaces one record of the flattened view. The page layout and every other record stay unchanged. |
| Registry.Canonical | src/distributed/connections.go:122-124 | Two valid registries with the same capacity and the same records are identical, so the layout is fixed by the records. |
| Registry.Copy | src/distributed/connections.go:113-127 | Given equal capacities and c.count <= src.count, the copy equals src. Its count is src's count, which does not decrease c's, and At agrees with src at every index. |
| Registry.OverwritePrefix | src/distributed/connections.go:115-117 | The first Copy loop makes c's records equal to src's first c.count records. |
| Registry.AppendRest | src/distributed/connections.go:118-120 | The second Copy loop appends src's remaining records, so the record sequences become equal. |
| Registry.Insert | src/distributed/connections.go:28-30 | Inserting into a Count-ordered sequence keeps it ordered by Less and adds exactly that record. |
| Registry.SortByCount | src/distributed/connections.go:140 | The result is ordered by Count (Less) and is a permutation of the input. |
| Registry.Sort | src/distributed/connections.go:130-144 | Sort keeps count and layout. It is a no-op when count <= 1. Otherwise the records become a permutation of the old ones, with Count non-decreasing by index. |
| Registry.ReadAll | src/distributed/connections.go:136-139 | The temporary slice holds every record in index order. |
| Registry.WriteAll | src/distributed/connections.go:141-143 | Writing the slice back stores it as the records and keeps the layout. |
| Common.Decode | src/distributed/common.go:26 | Each of the four bytes is one base-256 digit of the result, most significant first. The result is below 2^32 by its type. |
| Common.DecodeEncode | src/distributed/common.go:26 | Decoding the big-endian encoding of any uint32 gives the value back. |
| Common.ReadUint32 | src/distributed/common.go:18-29 | A buffer under 4 bytes gives (0, error) before any read. A read with an error, or with n != 4, gives value 0 and the reader's error, which is nil for a short or over-long read. An exact 4-byte read decodes the buffer's first four bytes. |
| Common.ReadUint32RoundTrip | src/distributed/common.go:18-29 | A 4-byte read of Encode(v) yields (v, nil) whatever the rest of the buffer holds. |
| Common.IndexOf | src/distributed/common.go:33 | strings.Index for one character: -1 exactly when absent, otherwise the position of the first occurrence. |
| Common.TrimIP | src/distributed/common.go:32-38 | The result has no ':' and is a prefix of the input. It stops right before the first ':' when there is one, and it is the whole input otherwise. |
| Common.TrimIPOfHostPort | src/distributed/common.go:32-38 | For a host without ':', TrimIP of host + ":" + port is the host, whatever the port text. |
| InterListener.AdmitIff | src/distributed/interListener.go:76-83 | A worker is handed to handler iff some whitelist key without ':' is its whole address or is followed by ':' in it. |
| InterListener.FirstFree | src/distributed/interListener.go:175-179 | The scan returns the first index with Connected false, or Count when there is none. |
| InterListener.GetRealIndex | src/distributed/interListener.go:171-185 | With a free slot, it returns the lowest free index and leaves the registry unchanged. Otherwise it appends one zero record and returns the old count. The returned slot is below the new count and free. |
| InterListener.ReadLoop | src/distributed/interListener.go:150-167 | Each successful ReadUint32 overwrites only the slot's Count. The loop ends at the first read with an error. The slot keeps the last accepted value. |
| InterListener.Session | src/distributed/interListener.go:104-168 | A handler run claims the getRealIndex slot and marks it Connected with InterIP set to the peer. OuterIP comes from the raw first read; a failed first read ends the session with the claimed record. Count is the last accepted report. The release writes the zero record, and the next claim returns the same slot. |
| InterListener.ReleasedSlotIsReused | src/distributed/interListener.go:118-126 | After the release every lower slot is still taken, so getRealIndex hands out the released slot again without appending. |
| InterListener.ConnectedCountUpdate | src/distributed/interListener.go:111-125 | Overwriting one slot changes the number of taken slots by the change in that slot's Connected flag. |
| InterListener.ClaimAccounting | src/distributed/interListener.go:171-185 | If every free slot holds the zero record, then claiming takes a zero record and keeps that property and the number of taken slots. The records stay the same, possibly with one zero record appended. |
| InterListener.SessionAccounting | src/distributed/interListener.go:104-129 | A running session adds exactly one taken slot. After release the taken count is back to its old value, free slots still hold zero records, and the registry holds the same records, possibly with one extra free zero record. |
| Scheduler.MaxConnected | src/distributed/interListener.go:207-213 | The result bounds the Count of every connected record and is attained by one, or is 0. |
| Scheduler.MaxCount | src/distributed/interListener.go:206-213 | The first loop computes the largest connected Count. |
| Scheduler.Pushes | src/distributed/interListener.go:230-233 | The inner loop pushes exactly ceiling - Count copies of the OuterIP. |
| Scheduler.LastEligibleStep | src/distributed/interListener.go:225-229 | One step of the scan keeps index as the last eligible position so far, or -1 when there is none. |
| Scheduler.Push | src/distributed/interListener.go:225-236 | The second loop pushes, in index order, ceiling - Count copies of the OuterIP of every connected record below the ceiling. It ends with index as the last such record, or -1 when there is none. |
| Scheduler.Scan | src/distributed/interListener.go:206-236 | The ceiling is the largest connected Count (10 when that is 0), plus 10 exactly when the previous index is -1, and stays below 2^32. The pushes and the new index are as in Push. |
| Scheduler.Cycle | src/distributed/interListener.go:196-236 | With both lists empty nothing runs. Otherwise the work list becomes a sorted permutation of the live list. The ceiling depends on the live records only. The new index is -1 exactly when no live record is eligible. |
| Scheduler.PermutationKeepsRecords | src/distributed/interListener.go:203-204 | Copy then Sort keeps the set of records, in both directions. |
| Scheduler.MaxConnectedPermutation | src/distributed/interListener.go:203-213 | The largest connected Count does not depend on the order that Sort produced. |
| Scheduler.HeadroomPermutation | src/distributed/interListener.go:219-223 | The no-overflow condition for the +10 step carries over from the live list to the sorted work list. |
| Scheduler.NoneEligiblePermutation | src/distributed/interListener.go:225-236 | Whether any record is eligible does not depend on the order of the records. |
| Scheduler.EmissionAppend | src/distributed/interListener.go:225-236 | The pushes of a concatenation are the pushes of the first part followed by those of the second. |
| Scheduler.EmissionAt | src/distributed/interListener.go:225-236 | Record i contributes exactly ceiling - Count pushes of its OuterIP when eligible, and none otherwise, between the pushes of the records before and after it. |
| Scheduler.EmissionOnlyEligible | src/distributed/interListener.go:228-233 | Every push carries the OuterIP of a connected record whose Count is below the ceiling. |
| Scheduler.EmissionEmptyIff | src/distributed/interListener.go:225-236 | A cycle pushes nothing exactly when no record is eligible. |
| Scheduler.NoneEligibleEmitsNothing | src/distributed/interListener.go:225-236 | When no record is connected and below the ceiling, the scan pushes nothing. |
| Scheduler.EscalationReachesAll | src/distributed/interListener.go:219-223 | After a cycle that pushed nothing, the escalated ceiling is above the Count of every connected record. |
| Scheduler.CeilingTiers | src/distributed/interListener.go:192-223 | Without escalation the most loaded worker is skipped when its Count is positive. The ceiling is at most one step above the base, since `Ceiling` takes the previous index and no previous ceiling. The initial index 0 means the first cycle does not escalate. |

## Left out

- Socket I/O is not modelled: the accept loops of `Listen`, `conn.Read`, and `SetDeadLine`. A read is a parameter (`ReadEvent`), and a session's reads are a finite sequence.
- Concurrency is not modelled: goroutines, `mutexReal`, and the atomic `currentServerCount`. Each session is modelled as running alone against the registry. Interleavings of concurrent sessions, and the `pInfo` pointer used outside the lock, are out of scope.
- `GetServerIP` (the blocking channel receive with a one-second timeout) is not modelled. The channel pushes of a cycle are returned as a sequence instead.
- The one-second sleep when both lists are empty is modelled as an `Idle` cycle outcome. The unbounded `for` loop of `distributeWorkIndex` is modelled one iteration at a time.
- `Connections.String` and `getServerListInfo` are formatting output with no contract, and are not modelled.
- The outer listener (client admission and its handler), configuration loading, logging and `main` are not part of this model.
- `recover()` and `conn.Close()` in the deferred release have no effect on the registry and are not modelled.
- Scheduler.Scan: the `maxCount += 10` step is not modelled with 32-bit wrap-around. The precondition `Headroom` (every connected Count plus 10 fits in a uint32) is required instead, and only when the previous index is -1.
- Registry.Sort: `sort.Sort` is not stable and its exact output order is unspecified. The model uses an insertion sort and states only what any correct sort gives: ordered by Count and a permutation of the records.
- Registry.NewConnections: a capacity of 0 makes Go's `At` divide by zero, so `capacity > 0` is required. Registry.At likewise requires `index >= 0`, because a negative index panics.
- Registry.Copy: the case `c.count > src.count` is excluded by precondition, as the code's own comment says it is not considered.
