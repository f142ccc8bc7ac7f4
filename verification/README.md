# Verified models of the barrel service, the CA database and some small cores

This project models, in Dafny, the parts of the repository that carry state through loops and
across calls, and proves what they are for.

**The barrel service** (`tBarrel.c`, with `tCollection.c` and `tVector.c`). The heap is one array of
32-byte barrels. Every collection is a node that owns a contiguous run of barrels, read as a ring from
an offset. The table of node records lives in the same heap, at barrel 0. When the table or a node
grows, every node behind it is rolled: barrels move from one end of its run to the other and the
offset is turned back. The main theorem, `Runs.RunRefines`, says that all of this refines a plain
table of byte sequences: over any sequence of creations, growths and writes, exactly those calls are
made, accepted and refused that the plain table makes, accepts and refuses, and each node shows what
the plain table shows. The class `BarrelServices.BarrelService` is the service in the program's own form,
and each of its methods is proved equal to the function the theorems are about.

**The CA database** (`ca.c`, `lib/apps.c`, `ocsp.c` of the vendored OpenSSL applications). The index is
a table of rows that are overwritten in place; three files are replaced by writing and renaming. The
main theorems hold over every history of runs, with any reported failure and any stop in between: rows
only move on, a revocation stays, and the serial file stays ahead of the index. A write that is cut
short without being reported breaks them, and the exact conditions are proved. When a batch passes, when
a command reports success, what is then on disk and what a failed commit leaves are proved exactly. The
OCSP responder's responses are tied to that table.

**Smaller cores**: the signer and key pairing of `cms.c`, the backward list scanner of `cmp.c`, the
output encodings of `passwd.c`, and number printing and reading in `tPreent.c`.

One module per component, one file per module:

| file | subject |
|---|---|
| Ring, Resize, Barrels, Chain | a run read as a ring; growing and shrinking one run; the barrel heap and unit rolls; Barrel_Roll along a chain |
| Bytes, Service, Refinement, Creation | byte addresses; the service's state and invariant; growing by units; creating and writing |
| Runs, Layout | refinement over every run; reachable layouts, links and record addresses |
| BarrelService | the imperative service |
| AsWritten | the copying loops and the shrink arm exactly as they are written, with the exact condition under which each is right |
| Written | whole runs with the loops as they are written |
| Data, Spills | the barrels behind the table hold data over every run; units that do not end inside their run |
| Transcribe, SpinLock | the copy loops between collections; threads and locks |
| RevInfo, CaDb, CaTable, CaFiles, CaRuns, CaSuccess, Ocsp | the revocation field; the database as a value; as objects; its files; its runs; exactly when commands succeed; the responder |
| Cms, Cmp, Passwd, Preent | the smaller cores |
| CText, Sequences, Wrappers | C strings; facts about concatenation; Option |

## Choices

The barrel service is modelled as it is meant to work. Where the code differs, module `AsWritten` (or
the module named below) has the code as written and the exact condition under which it does the same.

- A roll by more than one barrel is a composition of unit rolls. The code passes the whole request as
  the copy length of each pass (tBarrel.c:531-534, 539-543) and repairs the offset for one step only
  (tBarrel.c:522-526): `ForwardRunExact`, `ForwardNextExact`, `BackRunExact`. Over every run of creations
  and writes the loops as written are right: `Written.WrittenReachedSame`. With a growth they are not:
  `Written.GrowthBreaksTable`.
- Growing and shrinking index from the start of the run; the code indexes from barrel 0
  (tBarrel.c:554-558, 573-577): `GrowExact`, `ShrinkExact`. The last passes of Barrel_Grow, which only
  fill the new gap, are not made.
- The end of the heap in use is the end of the last physical node; `heapEnd` is never moved by the code
  (tHeap.c:27-30, 91).
- The arm of Barrel_DeltaSize for fewer units subtracts where slack should be added (tBarrel.c:633). It
  is analysed as written: `ShrinkArm`, `ShrinkArmExact`, `ShrinkArmLoses`.
- The ring offset is the node's own (tBarrel.c:483-489). Barrel_Manage hands out the whole run instead
  (tBarrel.c:720): `Transcribe.HandedOffsetExact`.
- Vector_Transcribe's source index is taken round the ring without the head (tVector.c:16, 19):
  `Transcribe.FoldedHeadExact`.
- A failed roll keeps the locks it has taken (tBarrel.c:600-604). A run of the service stops there;
  `SpinLock.LeakedForEver` says why.
- Barrel_NodeCtor does not check that the new run lies inside the heap (tBarrel.c:787-825). The node is
  placed and linked all the same, as in the code; bytes past the end are not kept, `PastEnd` tells of
  it, and a run of the service stops behind it. `Creation.CreationInside` has the exact condition and
  `Creation.CreationPastEnd` an input.
- Barrel_DeltaSize copies its own node without taking its lock (tBarrel.c:639-653):
  `SpinLock.NoOverlap`, `SpinLock.ResizeOverlaps`.
- Barrel_GetUnitPtr takes only the start of a unit round the ring (tBarrel.c:483-489), so a unit that lies
  across two barrels can end behind its run, over the next node. When it does depends on how often the
  node has rolled: `Creation.TurnsExact`, `Spills.UnitSizeExact`, `Spills.SpillExact`; an input is
  `Spills.UnitSpills`. A run of the service covers exactly the writes that are safe for every turn.
- Collection_Transcribe locks the target first (tCollection.c:270-271), rolls lock upward. A transcribe to
  a node that is not in front of its source can be stopped for ever by one roll:
  `SpinLock.TranscribeStopsExact`, `SpinLock.BackwardStops`.

The CA is modelled as it is written. Five things it is meant to keep fail, each with its exact
condition and an input:

- A write that is cut short is reported as done: save_serial looks at no result of its printing calls,
  save_index at none of the last flush and of the attributes (lib/apps.c:1587-1589, 1787-1802). A short
  serial file can hold a smaller number (`CaRuns.CutSerialExact`, `CaRuns.ShortSerial`), a short index
  fewer rows (`CaRuns.CutIndexExact`, `CaRuns.ShortIndex`).
- A revocation made when the current time is no longer printed as a UTCTime leaves an index that no
  later run can load (`CaDb.RevokeReadable`, `CaDb.RevokedIn2050`).
- `-rand_serial` given as an option does not read the configured serial file but overwrites it
  (`CaRuns.OverwrittenFileAhead`, `CaRuns.OverwrittenSticks`).
- A serial file whose number is already in the index issues nothing any more (`CaRuns.StuckSerial`).
- A responder told which digest to use in responses makes their identifiers without a certificate
  (ocsp.c:1079), so they carry the serial number that the library then gives, a parameter here
  (`Ocsp.AnswerNamesExact`, `Ocsp.AnswerNamesOther`).

Parsers of times and object identifiers, hashes of issuers, the printer of serial numbers and the
success of each file operation are parameters.

## Model

| member | source | states |
|---|---|---|
| `Ring.LogicalAt` | tBarrel.c:483-489 | logical barrel `l` of a run is barrel `(offset + l) mod count` of it |
| `Ring.OffsetStep` | tBarrel.c:521-527 | a step of one, with its unsigned wrap-around and repairs, keeps the offset in 1..count and turns it by one place; the two directions undo each other |
| `Ring.RollForwardKeeps` | tBarrel.c:538-547 | a roll forward by one shows the same logical contents one barrel further up |
| `Ring.RollBackKeeps` | tBarrel.c:528-537 | a roll back by one shows the same logical contents one barrel further down |
| `Resize.GrowKeeps` | tBarrel.c:548-562 | growing by r keeps all old logical barrels as a prefix, in place, and writes nothing outside the grown run |
| `Resize.GrowGap` | tBarrel.c:548-562 | the r new barrels are the last logical ones and lie at the offset |
| `Resize.ShrinkKeeps` | tBarrel.c:564-585 | shrinking by m keeps exactly the first count - m logical barrels, for an offset at the end, of at least m, or below m, and writes nothing outside the run that stays |
| `Resize.GrowThenShrink` | tBarrel.c:548-584 | shrinking by what was just grown restores offset and logical contents |
| `Resize.GrowingDelta` | tBarrel.c:614-637 | for more units the computed barrel delta is the narrowed distance to the tightest fit, for every input, wrap-around of size_t included |
| `Resize.GrowingDeltaExact` | tBarrel.c:614-637 | it is exactly that distance if and only if the distance is an int |
| `Resize.TightestFit` | tBarrel.c:506-513 | the fit holds the bytes and one barrel less does not |
| `Barrels.RollForwardMoves` | tBarrel.c:538-547 | k unit rolls up move the run by k, keep its contents and write only the k barrels behind it and the record |
| `Barrels.RollBackMoves` | tBarrel.c:528-537 | the same downward |
| `Barrels.ForwardThenBack` | tBarrel.c:528-547 | a roll forward undone by a roll back restores the heap but for the one barrel the first roll wrote behind the run |
| `Barrels.BackThenForward` | tBarrel.c:528-547 | the same the other way round |
| `Barrels.RollForwardTurns` | tBarrel.c:521-547 | k unit rolls compose to a rotation by k: the offset has turned back k places |
| `Barrels.TurnedIs` | tBarrel.c:521-527 | turning back k places in 1..count is subtraction modulo count |
| `Chain.RollUp` | tBarrel.c:587-611 | with room behind the last node, a roll up of a chain of any length succeeds, moves every node from the given one on and keeps all contents; nothing else is written |
| `Chain.RollDown` | tBarrel.c:587-611 | with free barrels in front, a roll down moves every node from the given one on and keeps all contents; nothing else is written |
| `Chain.RollUpFails` | tBarrel.c:592-604 | without room the roll fails, and start, offset, contents and every other barrel are as before: only the locks have been taken |
| `Chain.RollMoves` | tBarrel.c:587-610 | Barrel_Roll by any request, as the method of the service computes it: upward it succeeds if and only if there is room behind the last run, and either way moves every node by the request or, failing, takes the locks and nothing else |
| `Chain.Ordered` | tBarrel.c:587-611 | along a tiled chain runs are in physical order and disjoint |
| `Bytes.PutBytesWrites` | tHelpers.c:171-175 | rawTranscribe writes exactly the given bytes at the given address |
| `Bytes.RingAddress` | tBarrel.c:483-489 | the modulo over the run's bytes finds the barrel's slot and the place in it |
| `Bytes.UnitAddressIs` | tBarrel.c:483-489 | an index past the capacity wraps round the ring |
| `Bytes.UnitStays` | tBarrel.c:483-489 | a unit whose size divides a barrel never crosses a barrel, however the run is turned |
| `Bytes.AddressInjective` | tBarrel.c:483-489 | distinct logical bytes have distinct addresses |
| `Service.GrowAfterRoll` | tBarrel.c:639-653 | rolling the nodes behind up and then growing gives the node its barrels, with all contents kept |
| `Service.ShrinkThenRoll` | tBarrel.c:639-653 | shrinking and then rolling the nodes behind down closes the gap, with all contents kept as far as they fit |
| `Service.ResizedTiled` | tBarrel.c:639-653 | after a resize the runs still tile the heap |
| `Refinement.ResizeKeeps` | tBarrel.c:612-656 | growing a node by units is refused exactly when its new barrels do not fit behind the last node; otherwise it has the tightest fit, no element is lost, all other nodes show what they showed, and the invariant holds |
| `Refinement.TableGrows` | tBarrel.c:670-695 | a new record makes the table grow, without a spare one every node roll up by exactly one barrel; refused exactly when the heap is full |
| `Creation.CtorCountExact` | tBarrel.c:787-825 | the barrel count of a new node is the least power of two that holds the needed bytes or covers what is left of the heap |
| `Creation.CtorFits` | tBarrel.c:787-825 | the count fits into what is left if and only if the bytes fit into the largest power of two not above it, or what is left is itself a power of two |
| `Creation.AttachKeeps` | tBarrel.c:827-855 | linking a node behind the last one keeps the invariant and all other contents; the node starts with its initial bytes |
| `Creation.ConstructKeeps` | tBarrel.c:787-855 | the node is always placed behind the last one and linked, as the code has no test for room; every other node keeps its contents, and the invariant holds exactly when the run ends inside the heap; the node then starts with the bytes of its source, as far as they belong to its units, and otherwise with what the heap held |
| `Creation.SourcedKeeps` | tBarrel.c:827-855 | a creation is refused for want of a record exactly when table and heap are full; otherwise the table grows, at most rolling every node by one barrel, and the node is constructed, inside the heap, with the bytes of its source, or past its end |
| `Creation.CreationInside` | tBarrel.c:787-855 | a creation makes a node inside the heap if and only if, before the call, there is a record or a barrel for one and CtorFits' condition holds for what is left behind it |
| `Creation.CreationPastEnd` | tBarrel.c:787-825 | with three barrels left, 96 bytes, which fit them exactly, get a run of four that ends past the heap |
| `Creation.HugeCreation` | tBarrel.c:789-790 | 2^32 units of 2^32 bytes: the byte count wraps to 0, and wherever a barrel is free the node gets one barrel and no unit |
| `Creation.TurnsExact` | tBarrel.c:483-489 | a unit ends inside its run however the node is turned if and only if it lies inside one barrel of the logical contents |
| `Creation.WholeUnit` | tBarrel.c:483-489 | such a unit does not go round the ring, so writing it is an overwrite in one piece |
| `Creation.WriteKeeps` | tBarrel.c:483-489 | writing a unit of any size that ends inside the run replaces exactly that unit of the node's contents round the ring, however the node is turned, and touches no other node and no record |
| `Spills.UnitSizeExact` | tBarrel.c:483-489 | every unit of a run ends inside it however it is turned if and only if the run has one barrel or the unit size divides a barrel |
| `Spills.WriteAnywhere` | tBarrel.c:483-489 | any write of a unit, inside its run or not, leaves every record alone, and each byte of each node is the one written at its address or the one it was |
| `Spills.WriteSpills` | tBarrel.c:483-489 | a unit that does not end inside its run has its last bytes over the front of the next node's run |
| `Spills.SpillExact` | tBarrel.c:483-489 | a write leaves all other nodes as they are, whatever is written, if and only if the unit ends inside the run |
| `Spills.UnitSpills` | tBarrel.c:483-489 | two creations on a fresh heap and one write: the last 16 bytes of a 24-byte unit are the first bytes of the other node |
| `Runs.StepRefines` | tBarrel.c:612-855 | each creation, growth and write on the heap is the same call on a plain table of byte sequences with a size and a number of records: done exactly when the table has room, refused exactly when it has not, with the same effect, the bytes a creation copies from its source included, and the invariant holds unless the call halts the run |
| `Runs.NewEntryUnits` | tBarrel.c:787-825 | a new node has the units asked for if and only if their bytes do not wrap a size_t and fit its run; if they do not fit it has as many as do |
| `Runs.RunRefines` | tBarrel.c:521-855 | over every sequence of calls the heap makes exactly the calls that the plain table makes, accepts and refuses exactly those it does, and afterwards its nodes show what the table shows, its runs tile the heap and the invariant holds |
| `Runs.PlayStops` | tBarrel.c:592-604 | calls are left over only when a roll has just failed, a node has just been placed past the end, or the next call is not covered |
| `Runs.WriteCovered` | tBarrel.c:483-489 | the writes a run covers are exactly those of whole units that end inside their run however it is turned |
| `Runs.GrowCovered` | tBarrel.c:629-633 | the growths a run covers are exactly those by less than 2^31 barrels |
| `Runs.AbsRunSettled` | tBarrel.c:521-855 | how many calls are made, and every node's sizes after them, is settled by the calls and the sizes at the start |
| `Layout.ReachedValid` | tBarrel.c:857-876 | from an initialised service, every state without leaked locks and without a node past the end satisfies the whole invariant |
| `Layout.LinksVisitAll` | tBarrel.c:829-849 | following the links from the table visits every node once, in order of creation, and ends at the last physical node |
| `Layout.OwnerOf` | tBarrel.c:587-656 | every barrel in front of the end belongs to some run |
| `Layout.OneOwner` | tBarrel.c:587-656 | and to no two |
| `Layout.RecordsStay` | tBarrel.c:459-489 | the table is never turned: linear lookup agrees with ring addressing and a node's address never changes |
| `Layout.AbsRunKeepsElements` | tBarrel.c:612-656 | on the plain table no call but a write to an entry changes its elements |
| `Layout.ElementsKept` | tBarrel.c:521-855 | no run of creations, growths and writes to other nodes loses or changes an element of a node |
| `Data.RunData` | tBarrel.c:521-855 | over every run the barrels behind the table hold data and every run lies behind the table: no copy, growth or roll ever touches a record |
| `Data.ReachedData` | tBarrel.c:857-876 | so it is in every state reached from an initialised service |
| `BarrelServices.BarrelService.constructor` | tBarrel.c:857-876 | the initial state is valid, with no lock and no node |
| `BarrelServices.BarrelService.BarrelTranscribe` | tHelpers.c:177-181 | the copy loop is the sequence of barrel assignments in ascending order |
| `BarrelServices.BarrelService.RollForward` | tBarrel.c:538-547 | the loop makes exactly the k unit rolls |
| `BarrelServices.BarrelService.RollBack` | tBarrel.c:528-537 | the loop makes exactly the k unit rolls |
| `BarrelServices.BarrelService.Roll` | tBarrel.c:587-611 | the recursive method is the function whose effect RollUp, RollDown and RollUpFails state |
| `BarrelServices.BarrelService.Grow` | tBarrel.c:548-562 | the descending loop is the function of GrowKeeps, applied to the record's run |
| `BarrelServices.BarrelService.Shrink` | tBarrel.c:564-585 | the ascending loop is the function of ShrinkKeeps, applied to the record's run |
| `BarrelServices.BarrelService.DeltaSize` | tBarrel.c:612-656 | the method is the function of ResizeKeeps and TableGrows |
| `BarrelServices.BarrelService.NextAvailableNodeIx` | tBarrel.c:670-695 | the next index is the number of nodes, with room for its record |
| `BarrelServices.BarrelService.NodeCtor` | tBarrel.c:787-825 | the record made is the one ConstructKeeps places |
| `BarrelServices.BarrelService.Sourced` | tBarrel.c:827-855 | the method is the function of SourcedKeeps |
| `BarrelServices.BarrelService.WriteUnit` | tBarrel.c:483-489 | the method, for a unit anywhere in the heap, is the function of WriteKeeps |
| `AsWritten.ForwardPasses` | tBarrel.c:538-543 | the loop of Barrel_RollForward as written is the passes of ForwardRunExact and ForwardNextExact |
| `AsWritten.BackPasses` | tBarrel.c:528-534 | the loop of Barrel_RollBack as written is the passes of BackRunExact |
| `AsWritten.GrowPasses` | tBarrel.c:548-559 | the loop of Barrel_Grow as written is the function of GrowExact |
| `AsWritten.ForwardRunExact` | tBarrel.c:522-526 | Barrel_RollForward by r as written keeps the run's contents if and only if r <= offset or the offset wraps to the place where the code puts it |
| `AsWritten.ForwardNextExact` | tBarrel.c:539-543 | and leaves the barrels behind the moved run alone if and only if r is 1 |
| `AsWritten.BackRunExact` | tBarrel.c:531-534 | Barrel_RollBack by m as written keeps the run's contents if and only if m is 1, or m is the count and the offset 1 |
| `AsWritten.GrowExact` | tBarrel.c:554-558 | Barrel_Grow as written keeps the contents if and only if the run has not been turned or starts at barrel 0 |
| `AsWritten.ShrinkExact` | tBarrel.c:573-577 | the same for Barrel_Shrink as written |
| `AsWritten.ShrinkArm` | tBarrel.c:627-633 | for fewer units the barrel delta is minus the narrowed difference of slack and freed bytes, rounded up to barrels, wrap-around of size_t included, unless that difference is -2^31, which C cannot negate |
| `AsWritten.ShrinkArmExact` | tBarrel.c:627-633 | with the same exception it keeps room for the units that stay if and only if the narrowed difference, rounded up, is no more than slack and freed bytes together |
| `AsWritten.ShrinkArmInRange` | tBarrel.c:627-633 | while the difference is an int, if and only if rounding overshoots by no more than twice the freed bytes |
| `AsWritten.ShrinkArmLoses` | tBarrel.c:627-633 | one of six 4-byte units given up costs the run its only barrel |
| `AsWritten.HugeGrowthShrinks` | tBarrel.c:629-633 | 2^17 more units of 2^20 bytes are narrowed to one barrel less |
| `Written.ForwardWrites` | tBarrel.c:538-547 | a roll forward as written repeats the run through the 2r - 1 barrels behind it, whoever owns them, and writes the record with the offset repaired for one step only |
| `Written.BackWrites` | tBarrel.c:528-537 | a roll back as written shifts 2m - 1 barrels by the count, and writes the record likewise |
| `Written.GrowthWrites` | tBarrel.c:548-563 | growing a turned run as written shifts barrels of the heap counted from barrel 0, and nothing else but its record |
| `Written.ReductionWrites` | tBarrel.c:564-584 | shrinking a turned run as written likewise |
| `Written.UpwardRecords` | tBarrel.c:587-610 | a roll up as written succeeds if and only if the heap has room behind the last run, and then every record from the node on says r barrels further on and no other has changed |
| `Written.DownwardRecords` | tBarrel.c:587-610 | a roll down as written moves every record from the node on back, and no other |
| `Written.WrittenRunSame` | tBarrel.c:521-656 | over every run in which whatever rolls does so by one barrel and only unturned nodes are resized, the loops as they are written make the calls and reach the state of the service as it is meant to work |
| `Written.WrittenReachedSame` | tBarrel.c:521-855 | so they do over every run of creations and writes on a fresh heap |
| `Written.GrowthBreaksTable` | tBarrel.c:548-563 | two creations on a fresh heap and one growth: as written it puts the first node's old record in place of the second's |
| `Transcribe.CollectionTranscribe` | tCollection.c:286-293 | the per-element loop is the elements copied one after the other round the two rings |
| `Transcribe.VectorTranscribe` | tVector.c:14-19 | the per-byte loop is the bytes copied one after the other round the two rings |
| `Transcribe.StraightExact` | tCollection.c:286-293 | copying an element in one piece is right if and only if it ends before the ring does |
| `Transcribe.CopiesAgree` | tCollection.c:286-293 | both copies agree whenever the unit size divides both rings and positions, even when source and target overlap |
| `Transcribe.PlaceAligned` | tCollection.c:286-293 | a unit size that divides a barrel divides every node's chunk and the place of each unit in it |
| `Transcribe.NodeElementsAreBytes` | tCollection.c:286-293 | so the per-element copy between a buffer and a node, either way, is the per-byte copy of SpanSurvivesRun |
| `Transcribe.SpanCopied` | tCollection.c:251-299 | a copy between disjoint chunks changes exactly the target span to the source span |
| `Transcribe.WriteThenRead` | tCollection.c:251-258 | reading a span back gives what was written |
| `Transcribe.RecordsOpen` | tBarrel.c:459-464 | memory holds a heap whatever bytes the records are stored as |
| `Transcribe.ChunkShowsNode` | tBarrel.c:702-705 | the chunk of a node, from its offset, shows its logical bytes, whatever the records of the heap look like as bytes |
| `Transcribe.SpanSurvivesRun` | tCollection.c:251-299 | a span written into a node reads back the same after any run of creations, growths, rolls and writes to other nodes, in every memory that holds the heap's data barrels |
| `Transcribe.HandedOffsetExact` | tBarrel.c:713-721 | the ring offset that Barrel_Manage hands out is the node's if and only if the node is not turned |
| `Transcribe.FoldedHeadExact` | tVector.c:16-19 | the source index with the head in it is the index alone if and only if the ring's size divides its head |
| `SpinLock.StepInv` | tCollection.c:211-227 | every step of every thread keeps lock words and holders in agreement, with no lock held twice |
| `SpinLock.RunInv` | tCollection.c:211-227 | so does every interleaving |
| `SpinLock.RollRuns` | tBarrel.c:587-610 | a roll over free nodes comes to hold them all, gives them all back, and then is done or grows the node that asked for it |
| `SpinLock.RollCopies` | tBarrel.c:595-607 | on its way it copies each of them: going up on its way back, going down on its way out |
| `SpinLock.GrowRuns` | tBarrel.c:639-654 | growing a node with free nodes behind it rolls those first, then copies its own barrels without a lock, and leaves the locks as they were |
| `SpinLock.ShrinkRuns` | tBarrel.c:639-654 | shrinking copies its own barrels first, then locks and rolls down the nodes behind, and leaves the locks as they were |
| `SpinLock.LastShrinks` | tBarrel.c:639-642 | shrinking the last node takes no lock at all |
| `SpinLock.CopyRuns` | tCollection.c:270-297 | a transcribe between free collections locks the target, then the source, copies, and gives both back |
| `SpinLock.NoOverlap` | tCollection.c:270-296 | in every interleaving two threads copy one collection at the same time only while one of them is resizing it; rolls and transcribes never overlap |
| `SpinLock.ResizeOverlaps` | tBarrel.c:639-653 | while a thread is resizing a node that is not locked, an idle thread can always come to copy the same node: Barrel_DeltaSize does not lock its own node |
| `SpinLock.ShrinkOverlapsTranscribe` | tBarrel.c:639-653 | a run of two threads in which a shrink and a transcribe copy one node at the same time |
| `SpinLock.WaitingGoesUp` | tBarrel.c:592-609 | along a chain of waiting rolls the node waited for only goes up |
| `SpinLock.NoWaitCycle` | tBarrel.c:592-609 | no chain of waiting rolls closes |
| `SpinLock.Progress` | tBarrel.c:592-609 | threads running rolls that have not failed, resizes, span copies and transcribes from a node to one in front of it never come to a stop |
| `SpinLock.TranscribeStopsExact` | tCollection.c:270-271 | a transcribe between two nodes can be stopped if and only if its target is not in front of its source |
| `SpinLock.BackwardStops` | tCollection.c:270-271 | such a transcribe, holding its target, and one roll up from its source stop each other |
| `SpinLock.SelfTranscribeSpins` | tCollection.c:270-271 | a transcribe of a collection onto itself, once it holds the lock, can make no step |
| `SpinLock.CrossingTranscribesStop` | tCollection.c:270-271 | two transcribes between the same nodes in opposite directions can stop each other |
| `SpinLock.FailLeaks` | tBarrel.c:600-604 | a failed roll ends with exactly the nodes from its first to the last locked and held by no one |
| `SpinLock.LeakedForEver` | tBarrel.c:600-604 | over every further run the locks a failed roll has left are never free again |
| `RevInfo.ReasonsDistinct` | openssl-master/apps/ca.c:2322-2336 | no two reasons differ by letter case only |
| `RevInfo.FoldExact` | openssl-master/apps/ca.c:2342-2347 | texts are compared letter by letter, capitals and small letters being the same and nothing else |
| `RevInfo.SearchReasons` | openssl-master/apps/ca.c:2360-2371 | the search loop finds the least matching index, or none |
| `RevInfo.FormatField` | openssl-master/apps/ca.c:2410-2428 | the buffer size computed is exactly enough: nothing is cut off |
| `RevInfo.MakeRevocationStr` | openssl-master/apps/ca.c:2347-2429 | the method prints the field that RoundTrip and PrintsExactly are about |
| `RevInfo.PrintsExactly` | openssl-master/apps/ca.c:2356-2407 | a field is printed if and only if the argument is acceptable for its kind: one of the eight CRL reasons in any case, an object identifier, or a GeneralizedTime |
| `RevInfo.PrintedIs` | openssl-master/apps/ca.c:2336-2428 | the field is, word for word, the time, the table's spelling of the reason or the name of the kind, and the argument as given |
| `RevInfo.CutAtComma` | openssl-master/apps/ca.c:2551-2564 | one cut in place leaves the text before the comma at its position and what follows the comma untouched behind it |
| `RevInfo.CutField` | openssl-master/apps/ca.c:2545-2564 | the two cuts in place yield time, reason and argument, where the argument may contain commas |
| `RevInfo.UnpackRevinfo` | openssl-master/apps/ca.c:2534-2643 | the method reads the field as the function of RoundTrip does |
| `RevInfo.UnpackExact` | openssl-master/apps/ca.c:2534-2643 | the reader takes exactly the fields whose time is a UTCTime and whose reason and argument say something, and gives what they say |
| `RevInfo.RoundTrip` | openssl-master/apps/ca.c:2347-2429 | unpacking what was printed gives back time, argument and the code of section 5.3.1 of RFC 5280 for every kind and accepted argument, if the current time is a UTCTime, and is refused otherwise |
| `RevInfo.UnpackedCode` | openssl-master/apps/ca.c:2580-2633 | whatever text is read, the code is one of section 5.3.1 of RFC 5280 or none, a hold instruction comes only with code 6, an invalidity date only with 1 or 2 |
| `CaDb.LoadSound` | openssl-master/apps/ca.c:684-730 | a file that passes the load checks is a sound database: unique serials, a revocation field exactly in R rows, no two valid rows of one subject under unique_subject |
| `CaDb.LoadExact` | openssl-master/apps/ca.c:684-730 | a file loads if and only if each row passes the three checks, serials are unique and, with unique_subject, so are the subjects of valid rows; the name index is then exactly those |
| `CaDb.IssueExact` | openssl-master/apps/ca.c:1810-1933 | a request is entered if and only if it is signed with a serial and subject not in use, turned down if and only if it is rejected or refused after those checks, and anything else is an error; only the new row and the name index change |
| `CaDb.IssueKeeps` | openssl-master/apps/ca.c:1810-1933 | issuing keeps the database sound, removes no row, and lets rows only move on |
| `CaDb.RevokeKeeps` | openssl-master/apps/ca.c:2099-2203 | revoking keeps it sound, also when the certificate is first added, and rows only move on |
| `CaDb.ExpireKeeps` | openssl-master/apps/ca.c:2272-2320 | expiring keeps it sound, also when the pass fails half way, and rows only move on |
| `CaDb.ExpireExact` | openssl-master/apps/ca.c:2288-2316 | the pass fails if and only if a valid row has a date that does not parse; otherwise exactly the valid rows whose date has come are expired |
| `CaDb.ExpireCount` | openssl-master/apps/ca.c:2288-2316 | the count returned is the number of those rows |
| `CaDb.RevokeExact` | openssl-master/apps/ca.c:2132-2197 | a revocation reports success if and only if the row is there, not yet revoked and of the same name, or is not there and can be added, and the argument is acceptable |
| `CaDb.RevokeFound` | openssl-master/apps/ca.c:2176-2198 | a row found has its type and field replaced and keeps the rest; all other rows and the name index stay |
| `CaDb.RevokeMissing` | openssl-master/apps/ca.c:2137-2175 | for a missing serial exactly one row is added, revoked if the argument was accepted, and still valid if no revocation was asked for or the argument was refused |
| `CaDb.RevokedRow` | openssl-master/apps/ca.c:2186-2198 | after success the row is revoked and its field reads back as what the caller said |
| `CaDb.RunMakes` | openssl-master/apps/ca.c:1810-2320 | a run makes its operations one after another, each on what the ones before have left |
| `CaDb.RunKeeps` | openssl-master/apps/ca.c:1810-2320 | over every run of issuing, revoking, expiring and reloading the database stays sound and rows only move on |
| `CaDb.RevokedForEver` | openssl-master/apps/ca.c:2099-2203 | once revoked, a serial number keeps its row unchanged over every run, and revoking it again is refused |
| `CaDb.RevokeReadable` | openssl-master/apps/ca.c:684-702 | a successful revocation leaves a file that the next run can load if and only if the current time is printed as a UTCTime |
| `CaDb.RevokedIn2050` | openssl-master/apps/ca.c:2410-2428 | a revocation on 1 January 2050 succeeds and leaves an index that cannot be loaded |
| `CaDb.RunLoads` | openssl-master/apps/ca.c:684-730 | from a file that loads, every run whose dates parse leaves a file that loads |
| `CaTable.Table.Lookup` | openssl-master/apps/ca.c:2132-2136 | the lookup by serial number finds the row with that number |
| `CaTable.Table.Index` | openssl-master/apps/ca.c:684-730 | the load checks and both indexes accept exactly the files that Load accepts, with the name index over the valid rows |
| `CaTable.Table.IndexSerials` | openssl-master/apps/lib/apps.c:1736-1759 | the serial index can be built if and only if the numbers are unique |
| `CaTable.Table.IndexNames` | openssl-master/apps/lib/apps.c:1736-1759 | the name index can be built if and only if no two valid rows share a subject |
| `CaTable.Table.DoBody` | openssl-master/apps/ca.c:1781-1933 | inserting through the indexes is the function of IssueKeeps |
| `CaTable.Table.RevokeAt` | openssl-master/apps/ca.c:2176-2198 | overwriting the found row in place is the function of RevokedRow |
| `CaTable.Table.DoRevoke` | openssl-master/apps/ca.c:2099-2203 | the method, which calls itself once after adding a missing row, is the function of RevokeKeeps |
| `CaTable.Table.DoUpdateDb` | openssl-master/apps/ca.c:2272-2320 | the loop over the rows in place is the function of ExpireExact and ExpireCount |
| `CaFiles.CommitBothBetween` | openssl-master/apps/ca.c:1046-1119 | at every moment of a commit after issuing, wherever it fails and whatever write is cut short, the written index is never there before the written serial file; if it reports success the files are the new ones if and only if none of the three writes was cut short |
| `CaFiles.CommitIndexBetween` | openssl-master/apps/ca.c:1289-1300 | at every moment of a commit after expiring or revoking the index is the old one, the written one or missing, and the serial file is untouched; if it reports success index and attributes are the new ones if and only if neither write was cut short |
| `CaFiles.CommitBothExact` | openssl-master/apps/lib/apps.c:1602-1873 | a commit after issuing reports success if and only if no write reports a failure, the certificates are written and no rename of a file that is there fails; each file replaced is then kept under its old name |
| `CaFiles.CommitIndexExact` | openssl-master/apps/lib/apps.c:1761-1873 | the same for a commit of the index alone |
| `CaFiles.CommitBothFails` | openssl-master/apps/ca.c:1046-1119 | what a failed commit after issuing leaves: all as it was if a write fails, the serial file as its undo leaves it, or the new serial file with index and attributes as theirs do |
| `CaFiles.CommitIndexFails` | openssl-master/apps/ca.c:1289-1300 | what a failed commit of the index alone leaves |
| `CaFiles.CommitBothMoments` | openssl-master/apps/ca.c:1046-1119 | the thirteen file states of a commit after issuing that succeeds, one by one |
| `CaFiles.CommitIndexMoments` | openssl-master/apps/ca.c:1289-1300 | the nine of a commit of the index alone |
| `CaFiles.RotateSerialBetween` | openssl-master/apps/lib/apps.c:1602-1644 | through every rename of rotating the serial file, its undo included, the number is the old one or the written one and the index untouched |
| `CaFiles.RotateSerialUndone` | openssl-master/apps/lib/apps.c:1602-1644 | when rotating the serial file fails it is unchanged if the first rename failed, and otherwise what it was if and only if the undo worked |
| `CaFiles.RotateIndexShows` | openssl-master/apps/lib/apps.c:1808-1873 | through every rename of rotating index and attributes, each undo included, the index is the old one, the written one or missing and the serial file untouched |
| `CaFiles.RotateIndexUndone` | openssl-master/apps/lib/apps.c:1808-1873 | when rotating the index fails: after the first rename nothing has changed; after the second the index is what it was if and only if the third, the undo, worked; after the fourth or fifth the index is put back if and only if both its undos worked, and the attributes if and only if theirs did |
| `CaFiles.Disk.WriteSerial` | openssl-master/apps/lib/apps.c:1551-1600 | save_serial: only a failure to open or convert is reported; a write cut short is not |
| `CaFiles.Disk.WriteIndex` | openssl-master/apps/lib/apps.c:1761-1806 | save_index: a failure of the table's writer is reported, one of the last flush or of the attributes is not |
| `CaFiles.NoticedExact` | openssl-master/apps/lib/apps.c:1587-1589 | a cut that is noticed is one after which whatever can be read is all that was written |
| `CaFiles.Disk.Serial` | openssl-master/apps/lib/apps.c:1602-1644 | the renames of rotate_serial, in order, each of which may fail |
| `CaFiles.Disk.Index` | openssl-master/apps/lib/apps.c:1808-1873 | the renames of rotate_index, in order, each of which may fail |
| `CaFiles.Disk.WriteAndRotate` | openssl-master/apps/ca.c:1289-1300 | the order of writes and renames after expiring and revoking |
| `CaFiles.Disk.Commit` | openssl-master/apps/ca.c:1046-1119 | the order of writes and renames after issuing |
| `CaRuns.CertifyAll` | openssl-master/apps/ca.c:934-1018 | the certify loop is the function of IssueAllEnters |
| `CaRuns.IssueAllEnters` | openssl-master/apps/ca.c:934-1018 | a batch enters exactly the serial numbers it counted off, none of which was there before |
| `CaRuns.PerformStates` | openssl-master/apps/ca.c:733-755 | with no index cut short to something readable, each command leaves the index as it was, as it made it, or unreadable, at every moment; if it reports success, as it made it or unreadable |
| `CaSuccess.BatchExact` | openssl-master/apps/ca.c:934-1018 | a batch passes if and only if each request is rejected outright, or is free of faults with a serial and, under unique_subject, a subject used neither in the table nor by a request signed before it; the signed requests are then entered in order, numbered one after another, and nothing else changes |
| `CaSuccess.UpdateExact` | openssl-master/apps/ca.c:733-755 | expiring reports success if and only if every valid row's date parses and, if the date of one has come, the index is replaced; exactly those rows are then expired on disk |
| `CaSuccess.WithdrawExact` | openssl-master/apps/ca.c:1275-1302 | revoking reports success if and only if the certificate can be revoked, as in RevokeExact, and the index is replaced; the index on disk then holds the revocation |
| `CaSuccess.CertifyExact` | openssl-master/apps/ca.c:830-1119 | issuing reports success if and only if the serial file, where needed, can be read, the batch passes and, if anything was signed, the operator agrees and the files are replaced; they then hold the new rows and the number after the last one used |
| `CaSuccess.ExecReaches` | openssl-master/apps/ca.c:675-1302 | a run goes on while its commands report success and passes through every file state of each |
| `CaSuccess.InvokeReaches` | openssl-master/apps/ca.c:675-730 | it starts on every index that loads, with the attributes file's unique_subject where that can be read |
| `CaSuccess.AfterReaches` | openssl-master/apps/ca.c:675-1302 | every state it passes through may be where it is stopped and the next run starts |
| `CaRuns.IndexOnlyMovesOn` | openssl-master/apps/ca.c:675-1300 | over every history of runs, whatever reports a failure and wherever runs stop, with no index cut short to something readable, a readable index on disk has unique serials, revocation fields exactly in R rows, and every earlier row, moved on at most |
| `CaRuns.RevokedOnDisk` | openssl-master/apps/ca.c:1275-1302 | under the same condition a revocation on disk when a run ends is there, unchanged, whenever the index can be read after any further runs |
| `CaRuns.CutIndexExact` | openssl-master/apps/lib/apps.c:1787-1802 | a command whose index is cut short reports success all the same; when the rows from the k-th on are missing, the index follows on from the one before if and only if that had at most k rows |
| `CaRuns.ShortIndex` | openssl-master/apps/lib/apps.c:1787-1802 | a run in which a cut index loses a revocation |
| `CaRuns.UnreadableStays` | openssl-master/apps/ca.c:675-683 | without a readable index no run changes any file |
| `CaRuns.SerialFileAhead` | openssl-master/apps/ca.c:1112-1119 | every serial number issued from the serial file is in the index, if it can be read, and below the file's number, at every moment of every history without -rand_serial as an option in which no write is cut short to something readable, also between the two renames |
| `CaRuns.CutSerialExact` | openssl-master/apps/lib/apps.c:1587-1589 | a batch whose serial file is cut short reports success all the same; the file is still ahead if and only if what is left cannot be read or reads as no smaller number |
| `CaRuns.ShortSerial` | openssl-master/apps/lib/apps.c:1587-1589 | a run that leaves 0x12 in the serial file after issuing 0x1234 |
| `CaRuns.OverwrittenFileAhead` | openssl-master/apps/ca.c:830-836 | with -rand_serial as an option, at every moment of the run, the serial file is ahead if and only if it has not been overwritten or the random numbers begin above all it had issued |
| `CaRuns.OverwrittenEnd` | openssl-master/apps/ca.c:1112-1119 | such a run that reports success leaves the number after its last one in the serial file |
| `CaRuns.StuckSerial` | openssl-master/apps/ca.c:1820-1829 | if the serial file's number is in the index, a batch from the file enters nothing and changes no file |
| `CaRuns.OverwrittenSticks` | openssl-master/apps/ca.c:830-836 | two runs of one certificate each: a random number puts the file behind, and one from the file leaves it where StuckSerial applies |
| `Ocsp.MakeResponse` | openssl-master/apps/ocsp.c:1034-1180 | the response is malformed if and only if there are no identifiers, successful if and only if there are some, every digest is known, no known certificate's R row has an unreadable time and signing works, and otherwise an internal error; when successful it has exactly one answer, the right one, for each identifier whose row is not silent, in the order of the request |
| `Ocsp.ResponseExact` | openssl-master/apps/ocsp.c:1034-1180 | the same of the function the other theorems speak about |
| `Ocsp.AnswersRight` | openssl-master/apps/ocsp.c:1062-1143 | the answers are the right ones in order: under the identifier asked about, or hashed again over the first issuer with the digest asked for in responses; for a field that cannot be read as a whole, with its time alone |
| `Ocsp.StatusExact` | openssl-master/apps/ocsp.c:1096-1141 | section 2.2 of RFC 6960: good exactly for a known issuer and a V row, revoked exactly for a known issuer and an R row, unknown exactly without issuer or row; any other row is not answered |
| `Ocsp.AnswerNamesExact` | openssl-master/apps/ocsp.c:1079 | the answers name the certificate asked about if and only if there are none, or no digest was asked for in responses, or the issuer is not known, or the certificate has the number the library gives without one |
| `Ocsp.AnswerNamesOther` | openssl-master/apps/ocsp.c:1079 | a responder that answers about number 0 when asked about number 5 |
| `Ocsp.AnswersInOrder` | openssl-master/apps/ocsp.c:1062-1143 | the answers come in the order of the request |
| `Ocsp.RevokedAnswers` | openssl-master/apps/ocsp.c:1115-1141 | after a revocation every later run leaves the responder answering revoked, with the time, code and argument given |
| `Ocsp.RevokedOnDiskAnswers` | openssl-master/apps/ocsp.c:1115-1141 | the same through the files: after a revocation that reported success, every later history of runs leaves the responder, with the index then on disk, answering revoked with the time, code and argument given |
| `Ocsp.ExpiredUnanswered` | openssl-master/apps/ocsp.c:1107-1114 | a valid certificate is answered good until its row is marked expired, and then not at all |
| `Cms.CommandLine.Parse` | openssl-master/apps/cms.c:582-620 | the option loop and closing step accept exactly the option lists that stand for some pairs, and give equally long stacks and options by index that are those pairs |
| `Cms.CommandLine.TakeSigner` | openssl-master/apps/cms.c:582-598 | after one -signer the pairs made and still to come are those of all options |
| `Cms.CommandLine.TakeInkey` | openssl-master/apps/cms.c:602-620 | after one -inkey likewise; it is refused only when the options stand for no pairs |
| `Cms.CommandLine.TakeKeyOpt` | openssl-master/apps/cms.c:641-672 | after one -keyopt likewise; it is refused only when the options stand for no pairs |
| `Cms.CommandLine.Finish` | openssl-master/apps/cms.c:748-770 | the closing step accepts exactly when there are pairs, and leaves them on the stacks |
| `Cms.AddedFound` | openssl-master/apps/cms.c:641-672 | an option added is found under its pair's index and no other option is lost or moved |
| `Cms.KeyOptReaches` | openssl-master/apps/cms.c:641-672 | every -keyopt reaches the pair pending when it is given: the one of the last -signer or -inkey before it, whose index is the number of pairs complete by then |
| `Cms.GroupContains` | openssl-master/apps/cms.c:582-770 | every -signer, every -inkey and every -keyopt is in the pairs once and in order, and a signer without a key has its own file |
| `Cms.GroupExact` | openssl-master/apps/cms.c:582-770 | an option list is accepted if and only if no -keyopt comes first and its signers and keys can be divided, in any way, into signers alone and neighbouring signers and keys |
| `Cms.FileTaken` | openssl-master/apps/cms.c:582-620 | every -signer and -inkey is a part of the pair whose index is the number of pairs complete once it has been taken |
| `Cmp.Scanner.PrevItem` | openssl-master/apps/cmp.c:2363-2393 | one call fills the buffer with the run in front of `end`, cut to 40 characters, and steps back over it and the separators before it |
| `Cmp.ItemsAre` | openssl-master/apps/cmp.c:2363-2393 | repeated calls yield the maximal separator-free runs once each, last first, cut to 40 characters, after one empty item if the list ends in a separator |
| `Cmp.StepBack` | openssl-master/apps/cmp.c:2368-2391 | each step back removes exactly the last run, or the separators at the end |
| `Cmp.NamesAre` | openssl-master/apps/cmp.c:2363-2393 | the names of a list are exactly its maximal runs without comma or white space, from left to right |
| `Cmp.Scanner.ConfGetString` | openssl-master/apps/cmp.c:2397-2408 | the lookup returns the value from the last section listed that has one, the empty section coming first if the list ends in a separator |
| `Cmp.ValueExact` | openssl-master/apps/cmp.c:2397-2408 | the value found is the empty section's for a list that ends in a separator, or else that of the last section that defines one, and none only if no section does |
| `Passwd.B64From24Bit` | openssl-master/apps/passwd.c:709-718 | the macro's loop writes the low six bits first |
| `Passwd.CharIs` | openssl-master/apps/passwd.c:25-35 | the 64 characters are dot, slash, digits, capitals and small letters in this order |
| `Passwd.Base64Injective` | openssl-master/apps/passwd.c:709-718 | n characters determine a number of at most 6n bits |
| `Passwd.SourcePermutes` | openssl-master/apps/passwd.c:448-453 | stepping by 6 modulo 17 with the two fixed entries is a permutation of 0..15 |
| `Passwd.Permute` | openssl-master/apps/passwd.c:448-453 | the permutation loop fills the buffer with it |
| `Passwd.UnrolledIs` | openssl-master/apps/passwd.c:464-471 | the four characters written out by hand are those of the loop of b64_from_24bit |
| `Passwd.EncodeMd5` | openssl-master/apps/passwd.c:448-475 | permutation and unrolled encoder together are the table-driven encoding |
| `Passwd.EncodeInjective` | openssl-master/apps/passwd.c:709-757 | an encoding whose table covers the digest determines it |
| `Passwd.Md5Injective` | openssl-master/apps/passwd.c:448-475 | the output of md5crypt determines the digest |
| `Passwd.Md5Text` | openssl-master/apps/passwd.c:448-475 | the text of md5crypt character by character: bytes t, t + 6, t + 12 for t from 0 to 3, then 4, 10, 5, then 11, each three from the lowest six bits of the last to the highest of the first |
| `Passwd.EncodeSha` | openssl-master/apps/passwd.c:720-757 | the lines of shacrypt are the table-driven encoding |
| `Passwd.Sha256Injective` | openssl-master/apps/passwd.c:721-732 | the SHA-256 output determines the digest |
| `Passwd.Sha256Text` | openssl-master/apps/passwd.c:721-732 | the SHA-256 text character by character: line r has bytes 21r, 21r + 10 and 21r + 20 modulo 30, the last line bytes 31 and 30 |
| `Passwd.Sha512Injective` | openssl-master/apps/passwd.c:734-756 | the SHA-512 output determines the digest |
| `Passwd.Sha512Text` | openssl-master/apps/passwd.c:734-756 | the SHA-512 text character by character: line r has bytes 22r, 22r + 21 and 22r + 42 modulo 63, the last line byte 63 |
| `Passwd.Sequence` | openssl-master/apps/passwd.c:652-673 | the P and S loops build the digest repeated to the wanted length |
| `Passwd.RepeatedAt` | openssl-master/apps/passwd.c:652-673 | byte k of that is byte k modulo the digest's size, for any length |
| `Preent.IntegerConvert` | tPreent.c:43-60 | the text returned is the number's digits, and for every 32-bit number and base 2..16 it stays inside the 50-byte buffer |
| `Preent.Uint32Digits` | tPreent.c:43-60 | a 32-bit number has at most 32 digits |
| `Preent.DigitsExact` | tPreent.c:43-60 | the text of a number in any base from 2 to 16 has only digits of that base, none of them a zero in front, and stands for the number |
| `Preent.StrToInt` | tPreent.c:68-99 | the loop reads the first run of digits, negative after any minus sign before it, and on the way to a number of 32 bits nothing overflows |
| `Preent.RoundTrip` | tPreent.c:43-99 | reading a printed number gives it back, also with any text that does not begin with a digit behind it |
| `Preent.SignedRoundTrip` | tPreent.c:43-99 | behind any text without a digit the printed number is read back, negative if and only if there is a minus sign in that text |
| `Preent.NoDigitIsZero` | tPreent.c:68-99 | a text without a digit reads as 0 |

## Left out

- Node recycling through `_nextAvailable`, user-supplied EMPTY and FILL flags, the REQUEST dispatch and the type registries: nothing frees a node, and the dispatch only forwards.
- Runs of Barrel_DeltaSize with fewer units: analysed one call at a time in `AsWritten`, because the arm as written does not compute a size that keeps the elements.
- What the heap holds before anything is written: `Layout.Init` takes zeros, which HeapAlloc does not promise; nothing but the witnesses depends on it.
- The byte image of a table record: a record is a barrel of its own kind, so a raw copy of table bytes is not modelled.
- Heaps of more than 2^30 barrels.
- Service.ShrinkThenRoll: leaves out giving up the whole run, after which the code divides by zero in its next address (tBarrel.c:483-489).
- Refinement.ResizeKeeps: leaves out growths whose distance to the fit is not an int; `Resize.GrowingDeltaExact` has the exact condition and `AsWritten.HugeGrowthShrinks` an input.
- AsWritten.GrowPasses: leaves out requests beyond the offset, whose passes read in front of the heap.
- Console, threads, HeapAlloc and HeapFree, tHashMap.c, tQues.c, tMutation.c: system calls, dead or unfinished code.
- BarrelServices.BarrelService.DeltaSize: leaves out table deltas other than one record, which the code never asks for (tBarrel.c:670-695), and shrinking a run to nothing, which it does not guard against.
- Runs.RunRefines: a run stops as `Runs.PlayStops` says; not covered are a unit size of zero, a growth by more barrels than an int holds, and the write of a unit that does not lie inside one barrel, whose effect depends on how the node is turned (`Creation.TurnsExact`, `Spills.WriteAnywhere`).
- Runs.StepRefines: the same.
- Creation.WriteKeeps: leaves out a unit that ends behind its run, for which `Spills.WriteAnywhere` and `Spills.WriteSpills` speak.
- AsWritten.ShrinkArm: says nothing of C for a narrowed difference of -2^31, whose negation is undefined there.
- CaRuns.PerformStates: leaves out an index cut short to something readable, for which `CaRuns.CutIndexExact` has the exact condition.
- CaRuns.SerialFileAhead: leaves out runs with -rand_serial given as an option and writes cut short to something readable, for which `CaRuns.OverwrittenFileAhead` and `CaRuns.CutSerialExact` have the exact conditions.
- CaRuns.IndexOnlyMovesOn: leaves out an index cut short to something readable, for which `CaRuns.CutIndexExact` has the exact condition.
- CaRuns.RevokedOnDisk: leaves out the same.
- What a file cut short reads as: the library's readers are not part of this model; it is a parameter of each write.
- The option -create_serial, an operator restoring files by hand, and the renewed reading of the serial file after its loss.
- Hexadecimal spelling, letter case and signs of serial numbers in the index, file names and the text form of the index: txt_db.c is not part of this model; its table and indexes are modelled by what they hold.
- Policies, extensions, signing, hashing and the CRL: they decide whether a request is signed, which is a parameter.
- Ocsp.MakeResponse: nonces, signing and the validity interval of a response are a single parameter saying whether they succeed; a revoked status without a readable time is taken to be refused by the library.
- -keyopt for recipients of an encryption, and all other options of the CMS tool.
- The default section that the configuration library adds to each lookup: `lookup` in `Cmp.Scanner.ConfGetString` is the whole library call.
- The digest rounds of md5crypt and shacrypt around the loops modelled: digests are arbitrary bytes.
- Preent.StrToInt: numbers that do not fit an int, where C leaves the overflow undefined; the other printers of tPreent.c.
