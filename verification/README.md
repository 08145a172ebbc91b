# Longene server model

Longene runs a port of the Wine server inside the Linux kernel. This project models the data structures and
protocols of that server (the C files under `module/`) in Dafny and proves properties of them:

- **Regions** (`Allocations`, `Spans`, `RowSweep`, `Bands`, `BandSweep`, `SweepSteps`, `Extents`, `Regions`,
  `RegionAlgebra`, `RegionWire`): rectangle arrays sorted in bands. The sweep over two arrays is modelled loop by loop on a growable
  array that may be one of the operands. Union, intersection, difference and exclusive or are the set operations on
  points, and canonical form is kept and unique.
- **File locks** (`LockRanges`, `HoleLinks`, `LinkedHoles`, `LockedHoles`, `LockOrder`, `HoleBuffers`, `LockSpec`,
  `LockOutcomes`, `LockMirrors`, `LockRuns`, `LockSafety`, `LockKinds`, `LockExamples`, `FileLocks`): the linked list of
  unlocked holes in its buffer, the lock lists as a step system, the outcome of every request, the class that refines
  the steps, and the Unix locks that mirror them. Positions are 64-bit numbers with wrap-around.
- **Timers** (`Timers`): the sorted list, and what a pass over it fires and leaves while callbacks change the list and
  the clock goes on.
- **Named pipes** (`NamedPipes`): server and client ends as objects, with the assertions of the source.
- **Debug events** (`DebugSpec`, `DebugOutcomes`, `DebugServer`, `Suspends`): the event queues and suspend counts as a
  step system, what each step does and what becomes of an event, the class that refines the steps, and the threads that
  are stopped for suspend counts, which the class uses.
- **Asynchronous requests** (`AsyncSpec`, `Async`): the mutual recursion of terminating, reselecting, polling, waking up
  and destroying requests.
- **Atoms** (`Atoms`, `AtomTables`): slots, reference counts and hash chains.
- **Mappings** (`Mapping`): the committed ranges of a mapping, extended and merged in place.
- **Handles** (`Bits`, `HandleValues`, `Handles`, `HandleServers`): handle values, tables that grow and shrink, and the
  references that handles own.
- **Process and thread ids** (`Ptids`): an array with a free list linked through it.
- **Process memory** (`WordMemory`, `Ptrace`): bytes read and written through words.
- **Namespace** (`Namespace`, `Directories`): named objects, paths and full names.
- `Lists` has what several of these share.

State that the source updates in place is a class whose methods are proved against functions on values; the lemmas
about whole runs are about those functions. A step system has a function that applies one step, a lemma that every
step keeps the invariant, and a function for runs. Memory allocation and other outcomes that the server does not
control are parameters; regions, which ask for memory many times, share an allocator whose answers are one. An assertion of the source that fails is only reported (module/lib.c,
lines 100-104), and the model goes on as the code does.

`dafny verify dfyconfig.toml` verifies everything.

## Where the code departs from its intent

- `mirror_region` writes one rectangle to both places of an exchange (module/region.c, lines 737-739).
  `RegionWire.MirrorExact` says for which regions the result is right, `RegionWire.MirrorFails` shows one for which it
  is not.
- `remove_unix_locks` does not set the link back to a new hole (module/fd.c, lines 1631-1633). A hole that is later taken
  out over such a stale link takes others with it, or stays. `LinkedHoles.LinksExactThroughout` says that the links lead
  to the right holes after every lock exactly if no hole is taken out over a stale link; `LockOrder.AscendingClean` and
  `LockRuns.SortedRun` give conditions that a caller can check; `LockExamples.HoleStaysLocked` is a run that leaves bytes
  locked. For the result after the last lock alone there is no such equivalence: a later lock may cover what was lost,
  as in `LockOrder.StaleButRight`, so whether the loss shows depends on all locks that follow.
- If the stale link leads to a hole that has been taken out itself, the hole stays in the list, and what is then
  unlocked lies between its end and the end of the lock: bytes of that lock. `LockedHoles.OnlyFreeThroughout` says that
  no byte of a lock is unlocked after any lock exactly if this does not happen, `LockSafety.GuardedExactly` what follows
  for runs, and `LockExamples.LockIsUnlocked` is a run in which it does. The assertions on the holes (lines 1627, 1637
  and 1638) hold whatever the links are.
- `remove_unix_locks` unlocks nothing if its buffer cannot be allocated (module/fd.c, line 1591).
  `LockMirrors.RemoveLockMirror`, `LockMirrors.RemoveEachMirror` and `LockMirrors.FdDestroyMirror` say exactly when the
  Unix locks are then no longer those of the locks.
- `remove_fd_locks` skips a range of one byte, and asks for nothing when the range is all bytes (module/fd.c, lines
  1715-1718). `LockMirrors.FdDestroyMirror` gives the exact condition, `LockExamples.OneByteStaysLocked` an example.
- A shared lock over an exclusive lock on the same fd turns the Unix write lock on the common bytes into a read lock
  (module/fd.c, lines 1667 and 1746). `LockKinds.KindsAlongExact` gives the exact condition.
- The allocation of an APC and the result of queueing it are not checked (module/async.c, lines 194, 258 and 314), and an
  APC on the queue of a thread that dies is released (module/thread.c, line 1399). A request then ends without being
  complete. `Async.Run` says what holds of every request and exactly when it is more, `AsyncSpec.Terminated` and
  `Async.AsyncFd.SetResult` when an APC is lost; `Async.UnallocatedRequest` and `Async.OrphanedRequest` are runs that
  lose one.
- The loops that wake up a queue read where to go on before they wake up a request (module/async.c, lines 370-381 and
  390-396). If a request is destroyed by that, the next one becomes the head, and may be alerted and destroyed as
  well; the loop then goes on from memory that has been freed. `Async.AsyncFd.AsyncWakeUp` says exactly when this can
  happen, and that it does if the descriptor is ready; `Async.BrokenWakeUp` is a run in which it does, and `Async.Run`
  covers all steps up to such a one.
- Two failed allocations break the invariant of named pipes (module/named_pipe.c, lines 789-792 and 881-898).
  `NamedPipes.Handle` states exactly when, and `NamedPipes.BrokenOpen` is a run that does.
- The hash of an atom is over upper case and the comparison in lower case (module/atom.c, line 179, and module/lib.c,
  line 2075). `Atoms.AddExact` says when a name gets a second atom, `Atoms.NamesDistinctExactly` for which case tables this
  happens in some run, and `Atoms.EqualNamesTwoAtoms` shows it for the case tables of the server.
- The access check before a write steps by the number of ints in a page, but in longs, so that with longs of eight
  bytes it passes over every second page (module/ptrace.c, lines 423-431). `Ptrace.CheckIsComplete` gives the exact
  condition, `Ptrace.WriteStopsHalfway` a write that fails halfway.
- In the kernel the wait for a timer is computed without sign (module/fd.c, lines 1213-1216). `Timers.WaitIfDue` says
  exactly when a timer that is due is not waited for, `Timers.PeriodicThoughDue` shows a pass after which a periodic timer
  is.
- `subtract_overlapping` reads past the last rectangle of a row, a value that it does not use (module/region.c, line
  484). The model reads only where there is a rectangle.

## Model

| member | source | states |
|---|---|---|
| Spans.SpansUnique | module/region.c:138-157 | two rows of spans with gaps between them that cover the same columns are the same row; this is what makes a band canonical |
| RowSweep.UnionRowStep | module/region.c:525-545 | one merge step keeps the output equal to the union of what has been read of both rows, with gaps |
| RowSweep.IntersectRowStep | module/region.c:390-412 | one intersection step keeps the output equal to the common columns of what has been read |
| RowSweep.SubtractKeep | module/region.c:455-471 | keeping the part of a span before the next subtracted span keeps the output equal to the difference of what has been read |
| Bands.FlattenYXBanded | module/region.c:138-157 | the array of a list of bands is properly y-x-banded |
| Bands.SplitIntoBands | module/region.c:138-157 | every properly y-x-banded array is the array of a list of bands |
| Bands.FlattenCovers | module/region.c:96-102 | an array covers exactly the points of its bands |
| BandSweep.BandsUnique | module/region.c:161-217 | coalesced lists of bands with the same points are equal |
| BandSweep.CanonicalUnique | module/region.c:161-217 | two canonical rectangle arrays that cover the same points are identical |
| BandSweep.EmitDone | module/region.c:290-301 | adding the spans of the next rows and coalescing extends the rows for which the result is right |
| SweepSteps.GapDone | module/region.c:261-291 | the rows that only one of two bands has come out as the operation wants them |
| SweepSteps.OverlapDone | module/region.c:293-301 | the rows that both bands have come out as the operation wants them |
| SweepSteps.FlushFirstDone | module/region.c:307-334 | adding what is left of the first operand completes the result for every row |
| SweepSteps.FlushSecondDone | module/region.c:322-334 | adding what is left of the second operand completes the result for every row |
| SweepSteps.FlushExact | module/region.c:307-337 | of the bands that are left over only the first is coalesced with what is there: the result is coalesced exactly if they are |
| SweepSteps.FlattenUnique | module/region.c:138-157 | a list of bands is fixed by its array, so that it is the array which is canonical or not |
| Extents.TightUnique | module/region.c:352-379 | the bounding box is fixed by the points of a region |
| Extents.TightUnion | module/region.c:827-830 | the smallest box around two tight boxes is the tight box of the union |
| Regions.Region.AddRect | module/region.c:121-135 | appends a rectangle and keeps room for one more; memory is asked for exactly if there is no room left, and only a refusal makes it fail, with nothing changed |
| Regions.Region.SetRegionExtents | module/region.c:352-379 | the extents become the tight bounding box of the points, all zero for no points |
| Regions.Region.CoalesceRegion | module/region.c:161-217 | the last two bands become one exactly if they touch and have the same spans, whatever follows them; the array changes in no other way |
| Regions.Region.IntersectOverlapping | module/region.c:382-414 | appends the row of columns that both rows have |
| Regions.Region.SubtractOverlapping | module/region.c:434-500 | appends the row of columns that the first row has and the second has not |
| Regions.Region.UnionOverlapping | module/region.c:520-572 | appends the row of columns that either row has, as spans with gaps |
| Regions.Region.NonOverlapping | module/region.c:417-431 | appends a row unchanged between two y coordinates, or a first part of it if memory runs out |
| Regions.Region.SweepGap | module/region.c:261-291 | the rows above the first common row are added to the result as the operation wants them; on failure there are no points but those of the result |
| Regions.Region.SweepOverlap | module/region.c:293-305 | the same for the common rows |
| Regions.Region.FlushRest | module/region.c:307-344 | what is left of one operand is added or dropped, and the result is then right for every row; on failure there are no points but those of the result |
| Regions.Region.RegionOp | module/region.c:221-349 | the sweep terminates, and the new array is banded and has exactly the points that the operation selects from the operands, also when the new region is one of them; it is coalesced exactly if the bands that are left over of an operand are, those below the other operand; it fails exactly if memory that it asked for was refused, and is then unchanged or has a part of those points |
| RegionAlgebra.CopyRegion | module/region.c:750-769 | the copy has the rectangles and extents of the source; it fails exactly if there is no room and memory is refused, and then nothing changes |
| RegionAlgebra.IntersectRegion | module/region.c:772-787 | the result is canonical whatever the operands, has tight extents, and covers exactly the common points, also when dst is an operand; the extents shortcut agrees with the sweep and never fails; otherwise it fails exactly if memory is refused, and then dst keeps its extents, and its points or a part of the common ones |
| RegionAlgebra.SubtractRegion | module/region.c:790-800 | the result covers exactly the difference, with tight extents, and is canonical exactly if the first operand is, as far as it lies below the second one, or altogether if the extents do not overlap; it fails exactly if memory is refused, and never where it copies and there is room; dst then keeps its extents, and its points or a part of the difference |
| RegionAlgebra.UnionRegion | module/region.c:803-832 | the result covers exactly the union, with tight extents, and is canonical exactly if each operand is, as far as it lies below the other one, except where one operand is copied; the shortcuts agree with the sweep; it fails exactly if memory is refused, and never where it copies and there is room; dst then keeps its extents, and its points or a part of the union |
| RegionAlgebra.XorRegion | module/region.c:835-849 | the result covers exactly the points of one operand and not the other, and is canonical exactly if each operand is, as far as it lies below the other one, or altogether if the other one is empty; it fails exactly if memory is refused, and dst then keeps its points or has a part of these |
| RegionAlgebra.PointInRegion | module/region.c:852-866 | the early exits lose no answer: true exactly if the region covers the point |
| RegionAlgebra.RectInRegion | module/region.c:869-882 | true exactly if some rectangle overlaps, that is, for a non-empty rectangle, if it has a point of the region |
| RegionWire.ValidateRectangles | module/region.c:138-157 | true exactly for properly y-x-banded arrays without empty rectangles |
| RegionWire.CreateRegionFromReqData | module/region.c:596-625 | a region is made exactly from valid data if no memory is refused, with the rectangles of the data and tight extents |
| RegionWire.GetRegionData | module/region.c:653-666 | what is sent decodes to the rectangles of the region, the empty one included; too little room is an overflow and nothing else, and there is a memory error exactly if memory is refused |
| RegionWire.MirrorRegion | module/region.c:727-746 | what the code does: the left half of every band becomes the mirror image of its right half, and the extents are mirrored |
| RegionWire.MirrorExact | module/region.c:727-746 | the result is the mirror image of the region exactly if every band has one rectangle |
| RegionWire.MirrorFails | module/region.c:735-742 | a band with two rectangles for which the result is not the mirror image |
| LockRanges.OverlapMeansCommonByte | module/fd.c:1547-1552 | two non-empty ranges overlap, with an end of zero for no end, exactly if they have a byte in common |
| LockRanges.CutLock | module/fd.c:1607-1642 | on holes kept as a sequence: the holes lose exactly the bytes of the lock and stay sorted and apart; at most one hole more is used |
| LockRanges.FindHoles | module/fd.c:1570-1643 | on holes kept as a sequence: they are sorted and apart, cover exactly the bytes of the area, clipped at the largest Unix offset, that no lock has, and take no more than the count of overlapping locks plus one |
| HoleLinks.SplitKeepsLinks | module/fd.c:1629-1641 | splitting a hole of the linked list keeps it well linked both ways exactly if no hole follows the one that is split |
| HoleLinks.RemoveKeepsLinks | module/fd.c:1619-1622 | taking a hole out of a well-linked list keeps it well linked |
| HoleLinks.RemoveLinked | module/fd.c:1619-1622 | in a list with stale links back: a hole whose link back leads to a hole that leads to it is taken out, and nothing else is |
| HoleLinks.RemoveSkips | module/fd.c:1619-1622 | otherwise the holes between it and the hole that its link back leads to are lost with it |
| HoleLinks.RemoveFails | module/fd.c:1619-1622 | or it stays in the list, if the link back leads to a hole that is no longer there |
| LinkedHoles.CutExact | module/fd.c:1607-1642 | the loop over the linked holes for one lock: if no hole is taken out over a stale link, the list loses exactly the bytes of the lock and stays sorted and apart |
| LinkedHoles.StaleIsWrong | module/fd.c:1607-1642 | and if one is, then the links do not lead to exactly the right holes once the lock is done with: one is missing, or one is there that should be gone |
| LinkedHoles.LinksExact | module/fd.c:1601-1648 | for every list of locks: if no hole is ever taken out over a stale link, the links lead to exactly the bytes that no lock has, sorted and apart |
| LinkedHoles.LinksExactThroughout | module/fd.c:1601-1648 | for every list of locks: they do so after every lock exactly if that never happens |
| LinkedHoles.SameHoles | module/fd.c:1601-1648 | then the links lead to exactly the holes of the search on sequences |
| LinkedHoles.UnlocksExact | module/fd.c:1555-1652 | with right links, and a buffer unless no lock overlaps the area, a byte is unlocked exactly if it is in the area and no lock has it |
| LockedHoles.CutTidy | module/fd.c:1607-1642 | for one lock, whatever links back are stale: no hole that is left unlocks a byte of it, unless a hole stays that was to be taken out, because its link back leads to a hole that is gone, and the lock ends elsewhere than the hole; then a byte of the lock is unlocked |
| LockedHoles.UnlocksOnlyFree | module/fd.c:1601-1648 | for every list of locks: if that never happens, only bytes of the area that no lock has are unlocked, though holes may be lost |
| LockedHoles.OnlyFreeThroughout | module/fd.c:1601-1648 | for every list of locks: this is so after every lock exactly if that never happens |
| LockedHoles.CleanIsSafe | module/fd.c:1601-1648 | it does not happen if no hole is taken out over a stale link |
| LockOrder.AscendingClean | module/fd.c:1601-1648 | if the locks that overlap the area are listed in ascending order of their starts, no hole is ever taken out over a stale link |
| LockOrder.HoleIsLost | module/fd.c:1601-1648 | three locks, after which the links do not lead to an unlocked hole |
| LockOrder.StaleButRight | module/fd.c:1601-1648 | a fourth lock, after which the links lead to the right holes again though one was lost: the last result alone does not tell |
| HoleBuffers.CountLocks | module/fd.c:1574-1581 | counts the non-empty locks that overlap the area |
| HoleBuffers.CutLock | module/fd.c:1607-1642 | the loop ends whatever the links, stays inside the buffer, and refines the specification of one lock |
| HoleBuffers.LinkHoles | module/fd.c:1591-1643 | refines the specification of all locks, early exit included, and the buffer of one hole more than there are overlapping locks is large enough |
| LockSpec.StepKeepsInv | module/fd.c:1655-1784 | lock, unlock, process death and fd close keep the fd, inode and process lists in agreement, whatever allocations fail, and two overlapping locks on a file are both shared, or on one fd with one of them shared |
| LockSpec.Run | module/fd.c:1655-1784 | in every state that a run of any steps reaches, the three lists agree and overlapping locks may coexist |
| LockMirrors.RemoveMirror | module/fd.c:1679-1702 | removing locks and unlocking exactly the bytes that only they have keeps the Unix locks on exactly the locked bytes |
| LockMirrors.RemoveLockMirror | module/fd.c:1679-1691 | with right links, removing a lock keeps the Unix locks exact if and only if there is a buffer, or no other lock overlaps it, or other locks have all its bytes |
| LockMirrors.RemoveComposes | module/fd.c:1694-1702 | removing locks one by one and unlocking the bytes that only they have is the same as removing them all at once |
| LockMirrors.RemoveEachIs | module/fd.c:1694-1702 | with right links and buffers, the death of a process unlocks exactly the bytes that only its locks have |
| LockMirrors.RemoveEachMirror | module/fd.c:1694-1702 | with right links, the death of a process keeps the Unix locks exact if and only if this holds of each removal in turn |
| LockMirrors.FdDestroyMirror | module/fd.c:1706-1719 | with right links, closing an fd keeps the Unix locks exact if and only if no byte is left that was locked by this fd alone: with a buffer where one is needed, that is a byte in which all its locks lie or any byte if they start at zero and have no end; without one, any byte |
| LockRuns.AddMirror | module/fd.c:1487-1543 | adding a lock with its Unix lock keeps the Unix locks on exactly the locked bytes |
| LockRuns.AddUnset | module/fd.c:1519-1524 | adding a lock without its Unix lock keeps them exact if and only if other locks have all its bytes |
| LockRuns.StepMirror | module/fd.c:1655-1784 | with right links, every step keeps the Unix locks exact if and only if the Unix lock it wants is set, the buffers it needs are there and it leaves no byte behind |
| LockRuns.MirrorAlong | module/fd.c:1655-1784 | over every run with right links, the Unix locks are on exactly the locked bytes all along if and only if this holds of every step |
| LockRuns.ReachableMirror | module/fd.c:1655-1784 | and then they are so in the state that the run reaches |
| LockRuns.SortedRun | module/fd.c:1601-1648 | the links stay right over every run in which each new lock starts no earlier than the other locks on its file |
| LockExamples.OneByteStaysLocked | module/fd.c:1706-1719 | a run: an fd with one byte locked, whose Unix lock stays when the fd is closed |
| LockExamples.HoleStaysLocked | module/fd.c:1601-1648 | a run of four locks and an unlock, with a buffer, after which bytes 4 to 9 stay locked though no lock has them |
| LockExamples.LockIsUnlocked | module/fd.c:1601-1648 | a run of five locks and an unlock of bytes 0 to 99, after which bytes 100 to 119 have no Unix lock though a lock on them is left |
| LockSafety.StepGuarded | module/fd.c:1655-1784 | every step in which no hole stays that was to be taken out keeps a Unix lock on every locked byte, with or without buffers and whatever holes are lost, if and only if a lock that is added gets its own or its bytes have one |
| LockSafety.GuardedExactly | module/fd.c:1655-1784 | over every run with such steps, every locked byte has its Unix lock all along if and only if this holds of every step |
| LockSafety.KeptIsSafe | module/fd.c:1601-1648 | a step that takes out no hole over a stale link is such a step |
| LockSafety.GuardedIfSorted | module/fd.c:1655-1784 | over every run without locks at the start in which each new lock starts no earlier than the others on its file: every locked byte has its Unix lock all along if and only if every lock gets its own |
| LockKinds.StepKinds | module/fd.c:1667-1668 | every served step keeps Unix write locks on bytes of exclusive locks only, and on exactly those if and only if no shared lock is set over a byte of an exclusive one |
| LockKinds.ReachableKinds | module/fd.c:1655-1784 | over every served run, a byte with a Unix write lock belongs to an exclusive lock and to no shared one |
| LockKinds.KindsAlongExact | module/fd.c:1655-1784 | over every served run, the Unix write locks are on exactly the bytes of the exclusive locks all along if and only if no shared lock is ever set over an exclusive one |
| LockKinds.KindsFromStart | module/fd.c:1655-1784 | both for every served run that starts without locks |
| FileLocks.LockTable.RemoveUnixLocks | module/fd.c:1555-1652 | unlocks what the linked holes lead to, or nothing if a buffer is needed and cannot be had |
| FileLocks.LockTable.ClearHoles | module/fd.c:1647-1648 | follows the links to the end and unlocks every hole they lead to |
| FileLocks.LockTable.SetUnixLock | module/fd.c:1487-1543 | locks the bytes of the range up to the largest Unix offset, for reading or writing, or nothing; it succeeds exactly if that is granted, not needed, or a write lock on a file that cannot have one |
| FileLocks.LockTable.AddLock | module/fd.c:1655-1676 | the lock is on all three lists, with its Unix lock where one is set, or nothing changes and the error tells why, a missing lock object included |
| FileLocks.LockTable.RemoveLock | module/fd.c:1679-1691 | the lock is off all three lists, and its bytes are unlocked as far as the links of the holes and the buffer go |
| FileLocks.LockTable.LockFd | module/fd.c:1723-1765 | refines the lock step: the outcome and the new lists are those of the step system, of which `LockOutcomes.LockStops` and `LockOutcomes.LockGranted` say what they are |
| LockOutcomes.AskedBytes | module/fd.c:1723-1739 | a request that ends within the 64-bit positions asks for exactly the bytes from its start on, as many as its count |
| LockOutcomes.LockStops | module/fd.c:1723-1765 | a request is stopped exactly if a lock on the file overlaps it and the request is exclusive, or that lock is exclusive and on another fd; it is pending on such a lock if it waits, a conflict if it does not, and then nothing changes |
| LockOutcomes.LockGranted | module/fd.c:1655-1676 | a request that nothing stops adds a lock exactly if there is memory and the Unix lock is granted, not needed, or a write lock on a file that cannot have one; the new lock is last on its lists with exactly what was asked for, nothing else changes but the Unix locks of its bytes, and every error tells why |
| LockOutcomes.UnlockRemoves | module/fd.c:1768-1784 | an unlock removes one lock of the fd with exactly this range, or is a conflict exactly if there is none |
| LockOutcomes.LocksLeft | module/fd.c:1694-1719 | the death of a process removes exactly its locks, and closing an fd exactly those of the fd |
| FileLocks.LockTable.UnlockFd | module/fd.c:1768-1784 | refines the unlock step: removes the first lock of the fd with exactly this range, or reports that there is none |
| FileLocks.LockTable.RemoveProcessLocks | module/fd.c:1694-1702 | refines the step of process death: the locks of the process are removed in the order of its list, with or without a buffer for each |
| FileLocks.LockTable.RemoveFdLocks | module/fd.c:1706-1719 | refines the step of closing an fd: all its locks are gone, and what the code asks for in their hull is unlocked |
| NamedPipes.PipeServer.SetServerState | module/named_pipe.c:331-352 | the state is set and the assertions on the descriptor hold; without a descriptor, requests are told that the pipe is listening or disconnected |
| NamedPipes.PipeServer.NotifyEmpty | module/named_pipe.c:362-373 | ends a pending flush and its event; the assertions hold |
| NamedPipes.PipeServer.DoDisconnect | module/named_pipe.c:375-389 | server and client lose their descriptors and keep their links; the assertions hold |
| NamedPipes.NamedPipe.CreateServer | module/named_pipe.c:979-1042 | exact status for every case; a new server is idle; the invariant is kept exactly unless the server object can be had but not its descriptor, and then the count of instances is one too low, around zero |
| NamedPipes.NamedPipe.Listen | module/named_pipe.c:645-685 | exact status and new state for every state; links and descriptors stay |
| NamedPipes.NamedPipe.Disconnect | module/named_pipe.c:687-715 | exact status and new state for every state; a connected or orphaned server loses its descriptor and pending flush, the client keeps its link |
| NamedPipes.NamedPipe.FindAvailableServer | module/named_pipe.c:813-832 | a listening server if there is one, else an idle one, else none |
| NamedPipes.NamedPipe.Connect | module/named_pipe.c:860-895 | both ends are linked and connected, or nothing but descriptors changes; the invariant is kept exactly unless only the server gets a descriptor |
| NamedPipes.NamedPipe.OpenFile | module/named_pipe.c:834-909 | exact status; the client gets a listening server before an idle one; no other server changes; the invariant is kept exactly unless a server is found, access is allowed, and of the two descriptors only that of the server can be made |
| NamedPipes.NamedPipe.Flush | module/named_pipe.c:582-601 | a flush becomes pending exactly for a connected server with unread data and none pending, if event and timer can be had |
| NamedPipes.NamedPipe.CheckFlushed | module/named_pipe.c:563-580 | polls again while data is left, and otherwise ends the flush and drops the event; the assertion holds |
| NamedPipes.NamedPipe.DetachClient | module/named_pipe.c:417-446 | the server of a closed client is orphaned or waits to be connected, keeps its descriptor and has no pending flush |
| NamedPipes.NamedPipe.DestroyClient | module/named_pipe.c:417-449 | the client is gone and its server is orphaned or waits to be connected; the default branch of the state switch is never taken |
| NamedPipes.NamedPipe.DestroyServer | module/named_pipe.c:391-415 | the server is gone, its client loses link and descriptor, and the count of instances goes down by one from a positive number |
| NamedPipes.Handle | module/named_pipe.c:313-909 | every event keeps the invariant exactly unless it is one of the two failed allocations |
| NamedPipes.Run | module/named_pipe.c:313-909 | over every run, up to the first of these two failures, the state of a server fixes which of server descriptor, client link and client descriptor exist, links are mutual, a pending flush means connected with an event, instances counts the servers, and no assertion fails |
| NamedPipes.BrokenOpen | module/named_pipe.c:860-898 | a run that breaks the invariant, after which the next open finds a server whose descriptor is there already, against the assertion in line 862 |
| DebugSpec.GenerateKeepsInv | module/debugger.c:417-430 | a new event keeps the invariant: queues hold exactly the linked events in order, and suspend counts add up |
| DebugSpec.SendsEarliest | module/debugger.c:268-279 | the event that is sent is the earliest linked event of its thread, and the thread was not stopped for another |
| DebugSpec.SendKeepsInv | module/debugger.c:575-603 | sending an event stops its thread for it and keeps the invariant |
| DebugSpec.FinishKeepsInv | module/debugger.c:359-387 | continuing an event unlinks it, frees its thread, resumes its process once and keeps the invariant |
| DebugSpec.AttachKeepsInv | module/debugger.c:433-466 | attaching keeps the invariant; the suspension taken for it is an outside one |
| DebugSpec.DetachKeepsInv | module/debugger.c:469-510 | detaching continues all events of the process, leaves none linked, and keeps the invariant |
| DebugSpec.StepKeepsInv | module/debugger.c:249-603 | every step keeps: a thread has at most one sent event and it is the one it is stopped for, queues hold exactly the linked events in order, and the suspend count is outside suspensions plus linked events |
| DebugSpec.Run | module/debugger.c:249-603 | in every state that a run of any steps reaches, each thread is stopped for at most one sent event and suspend counts add up |
| DebugSpec.SentInOrder | module/debugger.c:268-279 | over every run, the events of a thread reach the debugger in the order in which the thread generated them |
| DebugSpec.DetachEach | module/process.c:894-905 | detaching a list of processes takes the debugger from those that it debugs, and from no other process |
| DebugSpec.ExitEmptiesQueue | module/debugger.c:556-571 | when all processes of a debugger are detached its queue is empty, so that nothing is freed with it |
| Suspends.SuspendCounts.SuspendProcess | module/process.c:789-802 | exactly the threads with a positive sum of their own and their process's suspend counts stay stopped: the threads are stopped when the count of the process leaves zero |
| Suspends.SuspendCounts.ResumeProcess | module/process.c:804-817 | the same, for threads that are woken when the count gets back to zero; those suspended by themselves stay stopped |
| Suspends.SuspendCounts.SuspendThread | module/thread.c:673-682 | the same for one thread, whose count stops at 127 |
| Suspends.SuspendCounts.ResumeThread | module/thread.c:685-693 | the same for one thread, whose count stops at zero |
| DebugServer.DebugQueues.GenerateDebugEvent | module/debugger.c:417-430 | refines the step, of which `DebugOutcomes.GenerateExact` says what it does; nothing happens for a process without debugger |
| DebugOutcomes.GenerateExact | module/debugger.c:417-430 | the new event is last in the queue of the debugger of its process, queued and with its sender; the suspend count of the process is one more, and nothing else changes |
| DebugOutcomes.AttachExact | module/debugger.c:433-466 | an attach is accepted exactly if it is allowed, the process has no debugger and its flag can be set; the process then has this debugger and the startup threads have reported one event each, in order, at the end of its queue; otherwise nothing changes |
| DebugOutcomes.WaitExact | module/debugger.c:268-279 | a debugger is given the oldest event that is not sent and whose thread is not stopped for another, if there is one, and only this changes |
| DebugOutcomes.ContinueExact | module/debugger.c:359-387 | a continue is accepted exactly if the thread is of the process, the process of the debugger, and an event of the thread has been sent; exactly that event is gone, and the process is resumed once |
| DebugOutcomes.DetachExact | module/debugger.c:469-510 | a detach is accepted exactly if the process has this debugger; exactly its events are gone, and it stays suspended only as often as from outside |
| DebugOutcomes.StepEvents | module/debugger.c:249-603 | an event is there after a step exactly if it was there and the step neither continues it nor detaches its process, and has been sent exactly if it had been or the step sends it |
| DebugOutcomes.EventStays | module/debugger.c:249-603 | over every run, an event that has been reported stays, with its sender, exactly until it is continued or its process is detached |
| DebugOutcomes.SentExactly | module/debugger.c:249-603 | over every run, an event that is still there has been sent exactly if it is in the trace of the run, or had been sent before |
| DebugServer.DebugQueues.FindEventToSend | module/debugger.c:268-279 | the first event of the queue that is not sent and whose thread is not busy |
| DebugServer.DebugQueues.WaitDebugEvent | module/debugger.c:575-603 | refines the step: the debugger gets the first event of a thread that is not busy, and the thread is stopped for it |
| DebugServer.DebugQueues.ContinueDebugEvent | module/debugger.c:359-387 | refines the step; the search through the queue finds the event of the thread exactly if there is one |
| DebugServer.DebugQueues.DebuggerAttach | module/debugger.c:433-466 | refines the step, with the startup events generated before the process is resumed |
| DebugServer.DebugQueues.DebuggerDetach | module/debugger.c:469-510 | refines the step: the loop over the queue continues exactly the events of the process, and the process loses its debugger |
| DebugServer.DebugQueues.DetachDebuggedProcesses | module/process.c:894-905 | the exit of a debugger that does not kill: exactly its processes on the list lose it, with all their events continued, and if these are all that it debugs its queue is empty |
| DebugServer.DebugQueues.StoppedExactly | module/debugger.c:417-430 | in every state: a thread is stopped exactly while it or its process is suspended from outside, or a thread of its process has reported an event that is not continued |
| AsyncSpec.EndedHow | module/async.c:140-152 | a request that is destroyed was complete if and only if its APC was not lost |
| AsyncSpec.CutOffAny | module/async.c:391-396 | waking up a whole queue can be cut off exactly if its first two requests are doomed: they wait for an APC that cannot be queued, and only the queue refers to them |
| AsyncSpec.CutOffHow | module/async.c:391-396 | the request where the loop goes on is destroyed only if all requests up to it were doomed, and then they are all gone |
| AsyncSpec.DoomedGone | module/async.c:169-201 | nothing is left of doomed requests once the head of their queue does not wait |
| AsyncSpec.Terminated | module/async.c:169-201 | terminating a waiting request: its APC is lost exactly if none was allocated or it could not be queued, and the request is destroyed exactly if it is lost and nothing else refers to it |
| Async.AsyncFd.SetFdEvents | module/fd.c:1913-1931 | a descriptor that was removed from polling stays removed; otherwise it is polled for exactly these events |
| Async.AsyncFd.AsyncTerminate | module/async.c:169-201 | the calls end, also where they destroy requests; a request that waits has its APC out or lost, another only gets the status, and beside it only heads of the read and write queues are alerted; the request is gone exactly if its APC is lost and there was no other reference |
| Async.AsyncFd.AsyncRelease | module/async.c:140-152 | the last reference destroys a request, which was complete or had lost its APC, and then only heads are alerted |
| Async.AsyncFd.AsyncReselect | module/async.c:128-131 | ends with the descriptor polled for exactly what the heads wait for; alerts heads only; if the operating system keeps answering that the descriptor is ready, the head of the queue no longer waits |
| Async.AsyncFd.PollEvent | module/fd.c:2699-2707 | one poll event alerts heads only; the old head of each queue that the event is for is gone or no longer waits; an error stops polling |
| Async.AsyncFd.AsyncWakeUpFirst | module/async.c:385-397 | the head of the queue is alerted, if it is still there, and only heads change |
| Async.AsyncFd.Terminate | module/async.c:169-201 | for every caller: the request has the new status, or was alerted as a head, or is gone exactly if its APC is lost and there is no handle; nothing but heads changes beside it, and the invariant is kept |
| Async.AsyncFd.SetResult | module/async.c:300-342 | a final result completes the request, once; a pending result restarts it, with an APC exactly if one can be allocated: it waits, or is alerted again or terminated with the status it was given meanwhile, and its APC is then lost exactly if there is none or it cannot be queued |
| Async.AsyncFd.Restart | module/async.c:308-320 | the same for the restart alone; a request that was alerted waits or is alerted again, and it is gone exactly if its APC is lost and there is no handle |
| Async.AsyncFd.Complete | module/async.c:321-341 | the request is complete with this status, and is gone exactly if there is no handle |
| Async.AsyncFd.QueueAsync | module/fd.c:2709-2741 | a new request waits, with an APC exactly if one can be allocated, unless the file is always ready |
| Async.AsyncFd.ReleaseHandle | module/async.c:140-152 | a request is destroyed by the last reference only, and then was complete or had lost its APC |
| Async.AsyncFd.LoseApc | module/thread.c:509-514 | an APC that is released without a result: the request is neither waiting nor complete and has no APC out, and is gone exactly if there is no handle |
| Async.AsyncFd.ThreadDies | module/thread.c:1399-1413 | every APC on the queue of a dead thread is lost, and no APC can be queued to it any more |
| Async.AsyncFd.AsyncWakeUp | module/async.c:385-397 | every request left on the queue gets the status, except that a head may be alerted again; no request on another queue changes but heads; the request where the loop goes on is destroyed meanwhile only if the first two requests of the queue are doomed, and then always if the operating system answers that the descriptor is ready, as for a regular file |
| Async.AsyncFd.WakeEach | module/async.c:370-381 | the same for selected requests: all of them are visited and counted, and the loop is cut off only if there is a selected request up to and behind which all are doomed, and then always if the operating system answers that the descriptor is ready |
| Async.AsyncFd.AsyncWakeUpBy | module/async.c:362-382 | the same by process, thread or status block; nothing happens and nothing is counted if none of these is given |
| Async.AsyncFd.CancelAsync | module/fd.c:2795-2804 | every selected request left on any queue is cancelled, except that a head may be alerted again; it is an error exactly if a status block is given and no request is for it; exactly when the loops can be cut off |
| Async.Handle | module/async.c:169-397 | every request and event keeps the invariant; it comes to its end except where doomed requests are woken up one after the other, and it does not if the operating system then answers that the descriptor is ready; no APC is lost in a step in which all APCs can be allocated and queued and none is dropped |
| Async.Run | module/async.c:169-397 | over every run, up to a step that does not come to its end: every request ever made waits, has an APC out and is complete at most once in all, and exactly once if and only if its APC was not lost; those destroyed were complete if and only if it was not; the descriptor is polled for exactly what the heads wait for; no APC is lost and every step comes to its end if all APCs can be allocated and queued and none is dropped; otherwise the run stops only where doomed requests are woken up one after the other |
| Async.UnallocatedRequest | module/async.c:258 | a run: a request whose APC could not be allocated is terminated, and is gone without an APC out and without being complete |
| Async.OrphanedRequest | module/async.c:194 | a run: the same for a request whose thread dies before it takes the APC |
| Async.BrokenWakeUp | module/async.c:391-396 | a run: two requests without APCs are woken up while there is data to read, the second is destroyed with the first, and the loop would go on from it |
| Atoms.SameNameSameHash | module/atom.c:175-181 | names that compare equal in lower case have the same hash, for case tables in which equal lower case means equal upper case |
| Atoms.AddExact | module/atom.c:232-271 | adding a name keeps the table right, and keeps names distinct exactly unless a new entry is made while an equal name is in the chain of another hash value |
| Atoms.StepExact | module/atom.c:232-503 | every operation keeps the table right, and only an addition with an equal name in another chain makes names equal |
| Atoms.NeverHidden | module/atom.c:219-229 | with agreeing case tables an equal name is always in the chain that is searched |
| Atoms.NamesDistinctExactly | module/atom.c:175-271 | no two atoms have equal names in any state that a run from a new table reaches, if and only if names that are equal in lower case have the same hash value |
| Atoms.TwoChains | module/atom.c:232-271 | two names that compare equal and have different hash values get two atoms in a new table |
| Atoms.EqualNamesTwoAtoms | module/atom.c:175-229 | with the entries that the case tables (module/lib.c, lines 1139 and 1632) have for capital I with a dot, two names that compare equal get two atoms |
| Atoms.FindAfterAdd | module/atom.c:232-308 | a name that has been added is found, at the atom that adding it returned |
| Atoms.AddThenDelete | module/atom.c:232-287 | deleting the atom that an addition returned restores all atoms, names, counts and pins |
| Atoms.SameAtomsFind | module/atom.c:290-308 | tables with the same atoms find the same names |
| Atoms.PinnedStays | module/atom.c:274-287 | over every run that does not force pinned atoms out, a pinned atom keeps its number and is found by its name |
| Atoms.ReferencesHold | module/atom.c:274-287 | over every run that does not empty the table, an atom keeps its name as long as it is deleted fewer times than it has references |
| Atoms.AddCountsOne | module/atom.c:232-271 | a name can be added exactly if its length is right and it is there, or there is memory and a free slot or room for one; it then has one reference more, and no other atom changes |
| Atoms.GrabExact | module/atom.c:367-381 | a grab adds one reference to the atom and changes nothing else; it fails exactly for a string atom that is not in the table |
| Atoms.PinExact | module/atom.c:453-466 | a pin pins the atom and changes nothing else; it fails exactly if the atom is not in the table |
| Atoms.DeleteExact | module/atom.c:274-287 | a deletion takes one reference, except from a pinned atom unless forced; the atom is gone exactly if none is left |
| Atoms.EmptyExact | module/atom.c:481-503 | after the table is emptied an atom is there exactly if it was, is pinned and pinned ones are spared |
| Atoms.GrabbedStays | module/atom.c:367-381 | over every run that does not empty the table, an atom that was grabbed survives as many deletions as it had references before |
| Atoms.PinnedFromThen | module/atom.c:453-466 | over every run that spares pinned atoms, an atom that was pinned keeps its number and is found by its name |
| Atoms.AtomInRange | module/atom.c:147-172 | over every run, atoms are between 0xc000 and 0xffff |
| AtomTables.AtomTable.constructor | module/atom.c:110-134 | an empty table; a hash size that is out of range is replaced by 37 |
| AtomTables.AtomTable.AtomHash | module/atom.c:175-181 | the loop computes the hash of the name in 16 bits, modulo the number of chains |
| AtomTables.AtomTable.FindAtomEntry | module/atom.c:219-229 | the search of one chain finds what a search of all slots would find |
| AtomTables.AtomTable.AddAtomEntry | module/atom.c:147-172 | the lowest free slot, or the next one after growing by half up to 0x4000 |
| AtomTables.AtomTable.Add | module/atom.c:232-271 | refines adding a name, with the chains kept in step |
| AtomTables.AtomTable.FindByName | module/atom.c:290-308 | refines looking up a name, with its errors |
| AtomTables.AtomTable.DeleteByAtom | module/atom.c:274-287 | refines deleting an atom; a pinned one is refused unless forced |
| AtomTables.AtomTable.GrabByAtom | module/atom.c:367-381 | refines taking another reference; an integer atom needs none |
| AtomTables.AtomTable.SetAtomInformation | module/atom.c:453-466 | refines pinning an atom |
| AtomTables.AtomTable.EmptyAtomTable | module/atom.c:481-503 | refines emptying the table: exactly the pinned atoms stay, unless forced |
| Mapping.MergedCovers | module/mapping.c:246-260 | merging consecutive ranges that touch a new one adds exactly the bytes of the new one |
| Mapping.FileMapping.ExtendRange | module/mapping.c:246-261 | a range that is touched grows and swallows the ranges it reaches: the bytes are the union, and the list stays sorted with gaps |
| Mapping.FileMapping.AddCommittedRange | module/mapping.c:235-278 | the committed bytes become the union with the new range, which is lost exactly if it touches no range, the list is full and cannot grow |
| Mapping.FileMapping.FindCommittedRange | module/mapping.c:282-307 | the status of the byte, and the longest run from it with that status |
| Mapping.FileMapping.GetMappingCommittedRange | module/mapping.c:760-773 | for a page of the mapping its status and the longest run with that status, and an error exactly for anything else |
| Mapping.FileMapping.AddMappingCommittedRange | module/mapping.c:776-793 | accepts exactly whole pages inside the mapping |
| Mapping.FileMapping.AddAll | module/mapping.c:776-793 | after any requests, in any order, the committed bytes are those of the accepted requests, except for requests that are dropped, and only ones for which the list could not grow are |
| HandleValues.LocalOrGlobal | module/handle.c:85-110 | a handle of a process leads back to its index and is never read as global; obfuscated, it is read as global and leads back to the index |
| HandleValues.PseudoHasNoEntry | module/handle.c:399-411 | a pseudo-handle stands for no entry of any table |
| Handles.AllocExact | module/handle.c:230-247 | an allocation takes the lowest unused index, changes no other entry, and fails exactly if all indexes are used and the table cannot grow |
| Handles.ShrinkExact | module/handle.c:329-347 | shrinking a table loses no entry and no reference |
| Handles.CloseExact | module/handle.c:380-396 | closing frees the entry and changes no other; everything below the first possibly free entry stays in use |
| Handles.CopyExact | module/handle.c:351-376 | a new process has exactly the inherited entries, at the same handles |
| Handles.AllocHandle | module/handle.c:250-263 | an allocation succeeds exactly if the process has a table with a free entry or one that can grow; the new handle stands for the new entry, every other handle for what it did |
| Handles.GlobalHandle | module/handle.c:287-298 | a global handle is made exactly if the global table has room or can be created; it stands for its entry in every process |
| Handles.CloseHandleExact | module/handle.c:380-396 | exactly an unprotected, valid handle is closed; afterwards it stands for nothing, and one reference is given up |
| Handles.CopyTableExact | module/handle.c:351-376 | the copy takes one reference for each inherited entry |
| Handles.CloseProcessHandlesExact | module/handle.c:159-193 | a process that exits gives up one reference for each of its handles |
| Handles.SetHandleFlagsExact | module/handle.c:499-520 | exactly the selected flags of the handle change, to the given values; a pseudo-handle or one without entry changes nothing |
| Handles.DuplicateExact | module/handle.c:523-568 | a duplicate stands for the same object, with the source's access, the access asked for if the source has it, or what the access check granted, and is inherited on demand; it is made exactly if there is a source, such an access and a place, and no other entry changes |
| Handles.DupHandleExact | module/handle.c:610-632 | the request leaves the duplicate and closes the source on demand, exactly if that can be closed and was not replaced; no other entry changes |
| Handles.ProtectedStays | module/handle.c:380-396 | over every run, a handle that is protected from closing stands for the same entry until its flags are set or its process ends |
| Handles.StepKeepsInv | module/handle.c:187-630 | every step keeps the tables right and the references that no handle owns |
| Handles.RunConserves | module/handle.c:187-630 | over every run, the references of an object are those of its handles in all tables plus a constant |
| Handles.HandleKeepsObject | module/handle.c:187-630 | over every run, an object with a handle has a positive reference count |
| HandleServers.HandleServer.FindFree | module/handle.c:232-235 | the search that starts at the first possibly free entry finds the first free one |
| HandleServers.HandleServer.GrowHandleTable | module/handle.c:213-227 | fails exactly if there is no memory or the table has 0xffffff entries; otherwise it has strictly more room, twice as much up to that limit, with the same entries and first possibly free entry, and is still a right table |
| HandleServers.HandleServer.AllocTableEntry | module/handle.c:230-247 | refines the allocation in a table: search, growth and the new first possibly free entry |
| HandleServers.HandleServer.AllocEntry | module/handle.c:230-263 | refines the allocation with its reference |
| HandleServers.HandleServer.ShrinkHandleTable | module/handle.c:329-347 | the loop drops exactly the free entries at the end, and the table is halved exactly if it is large and less than a quarter full |
| HandleServers.HandleServer.CloseHandle | module/handle.c:380-396 | refines closing a handle, with the error for an invalid or protected one |
| HandleServers.HandleServer.CopyHandleTable | module/handle.c:351-376 | refines the copy for a new process: the loop takes a reference for each inherited entry and drops the others |
| HandleServers.HandleServer.CloseProcessHandles | module/handle.c:159-193 | refines closing all handles of a process: the loop gives up a reference for each entry |
| Ptids.AllocExact | module/process.c:170-211 | a new id had no owner and leads to its owner, every other id to the owner it had; it is a freed id exactly if no slot is left that was never used and there is one, otherwise the next number; it fails exactly if nothing is free and the array cannot grow |
| Ptids.FreeExact | module/process.c:215-237 | a freed id has no owner, and no other id changes |
| Ptids.FirstInFirstOut | module/process.c:215-237 | over every run: if an id is released, has no owner since, and another is released after it, the second gets no owner before the first does |
| Ptids.ReleasedWaits | module/process.c:215-237 | over every run: an id that has just been released has no owner until every slot never used and every id without owner before it has been taken |
| Ptids.ReusedLate | module/process.c:224-231 | over every run, a freed id has no owner until every slot never used and every id freed before it has been taken |
| Ptids.ReusedInOrder | module/process.c:182-187 | over every run, a freed id gets an owner only after every id freed before it has had one |
| Ptids.PtidTable.AllocPtid | module/process.c:170-211 | the array and its free-list links refine a map of owners and a queue of freed ids |
| Ptids.PtidTable.FreePtid | module/process.c:215-237 | refines freeing an id: it is linked behind the last freed one, so that `Ptids.FirstInFirstOut` and `Ptids.ReleasedWaits` hold of the table |
| Ptids.PtidTable.GetPtidEntry | module/process.c:240-262 | the owner of the id, or none for an id out of range or freed |
| WordMemory.MergeIsOverlay | module/ptrace.c:324-335 | writing a masked word changes exactly the selected bytes |
| WordMemory.ReadBack | module/ptrace.c:351-521 | bytes that have been written are read back |
| Ptrace.CheckIsComplete | module/ptrace.c:421-433 | the access check finds every page that cannot be written exactly if a long has four bytes or the range spans at most two pages, because it steps by a page of ints in longs |
| Ptrace.Target.ReadThreadLong | module/ptrace.c:311-321 | the bytes of the word, or an error if it is not mapped |
| Ptrace.Target.WriteThreadLong | module/ptrace.c:324-335 | exactly the selected bytes of the word change, or nothing if the page cannot be written |
| Ptrace.Target.ReadProcessMemory | module/ptrace.c:351-416 | for every alignment and every length that callers pass, which is not zero, the bytes are exactly those of the range, and it fails exactly if one of them is not mapped |
| Ptrace.Target.CheckProcessWriteAccess | module/ptrace.c:421-433 | changes nothing, and tells whether all tried words can be written |
| Ptrace.Target.WriteProcessMemory | module/ptrace.c:436-521 | for every alignment and every length that callers pass, which is not zero, it changes exactly the bytes of the range, all of them on success; on failure nothing if the check fails, and otherwise exactly the bytes before the first page that cannot be written, none where the check is complete |
| Ptrace.Target.ReadRequest | module/process.c:1251-1271 | the reply to a request of any length: the bytes of the range, or nothing if one is not mapped or there is no memory |
| Ptrace.Target.WriteRequest | module/process.c:1273-1286 | a request of any length: writing nothing is an error and changes nothing, and otherwise the whole range is written if all its words can be |
| Ptrace.WriteStopsHalfway | module/ptrace.c:421-521 | with longs of eight bytes, three pages of which the middle one cannot be written: the write fails after the first page has been written |
| Ptrace.Target.WriteThenRead | module/process.c:1251-1286 | what a request has written the next one reads back, whatever the length, the alignment and the paths taken |
| Timers.InsertSorted | module/fd.c:465-470 | adding a timer keeps the list sorted and loses none |
| Timers.InsertBefore | module/fd.c:465-470 | the new timer comes after those that expire earlier and before all others |
| Timers.FiresExactly | module/fd.c:1199-1205 | callbacks that add and remove timers: only expired timers fire, each once, in order of expiry, and one stays out exactly if a timer that fired before removed it |
| Timers.PerformAllLeaves | module/fd.c:452-484 | a list of additions and removals leaves each timer as often as it was there, unless it is removed, and as often as it is added with no removal after, with its absolute expiry |
| Timers.FireLeaves | module/fd.c:1199-1205 | the same for the callbacks of all timers that fire, together |
| Timers.AddersFireAll | module/fd.c:1199-1205 | if callbacks only add timers, exactly the timers that were due fire, in order |
| Timers.TakenExactly | module/fd.c:1184-1195 | with a new reading of the clock for each timer: every timer that was due at the first reading is taken off the list, and none that is not due at its own |
| Timers.PassExactly | module/fd.c:1174-1205 | a timer that was due when the pass began fires, once, unless one that fired before removed it, and whatever fires was due at its own reading of the clock |
| Timers.PassLeaves | module/fd.c:1184-1205 | a timer is on the list after a pass exactly if it was on it, did not fire and was not removed by a callback that was called, or a callback added it, with this absolute expiry, and none removed it after |
| Timers.PassWaits | module/fd.c:1207-1218 | the result is -1 exactly if no such timer exists, and otherwise the wait for the earliest of them |
| Timers.WaitForFuture | module/fd.c:1207-1218 | the wait for a timer in the future is rounded up to whole milliseconds, exactly if it is less than 2^31 of them |
| Timers.WaitIfDue | module/fd.c:1213-1217 | there is no wait for a timer that is due exactly if it is less than a millisecond overdue or its overdue milliseconds fall in the first half of a period of 2^32 |
| Timers.NoWaitIfDue | module/fd.c:1213-1217 | a timer that is up to eleven days overdue is not waited for |
| Timers.WaitThoughDue | module/fd.c:1213-1217 | a longer overdue timer for which the unsigned difference wraps to a wait of more than 2000000 seconds |
| Timers.PeriodicThoughDue | module/timer.c:142-146 | a pass over the list in which a periodic timer that is long overdue fires and adds its next expiration, one period later: it returns such a wait though the timer is due again |
| Timers.TimerList.AddTimeoutUser | module/fd.c:452-477 | puts the timer before the first that does not expire earlier, and changes nothing else; times that are not positive are relative to now |
| Timers.TimerList.RemoveTimeoutUser | module/fd.c:480-484 | takes the timer off whichever list it is on, and no other |
| Timers.TimerList.TakeExpired | module/fd.c:1184-1195 | moves the timers that have expired at their own readings of the clock, in order, up to the first that has not |
| Timers.TimerList.FireExpired | module/fd.c:1199-1205 | calls the callbacks of the expired timers in order, also when callbacks change the lists |
| Timers.TimerList.GetNextTimeout | module/fd.c:1174-1221 | fires exactly what the specification says, with a new reading of the clock at every use; the list then has exactly the timers that remain, and the result is the wait for the first of them, or -1 exactly if there is none |
| Namespace.FindsItself | module/object.c:354-379 | the search of one chain finds the object with the name |
| Namespace.LeftIsNew | module/directory.c:153-194 | what is left of a path in a directory is a name without backslash that nothing in the directory has |
| Namespace.RoundTripExact | module/directory.c:241-293 | looking up the full name of a named object returns the object with nothing left exactly if all directories above it are still named |
| Namespace.CreateKeepsInv | module/directory.c:296-333 | creating an object keeps names in a directory distinct, plain and in the right chain |
| Namespace.UnlinkKeepsInv | module/object.c:309-313 | unlinking an object keeps names in a directory distinct, plain and in the right chain |
| Namespace.DestroyKeepsInv | module/object.c:334-351 | freeing an object in which nothing is named keeps names in a directory distinct, plain and in the right chain |
| Namespace.FindAfterCreate | module/directory.c:296-333 | an object that was created at a path is found at that path |
| Namespace.CreateExact | module/directory.c:296-333 | an object is created exactly if it needs no name or its path leaves a name in a directory, and there is memory; it has that name, directory and kind and is the only change; a path that leads to an object opens that one, on demand and if the kind is the same; every other case is an error and changes nothing |
| Namespace.CreateExisting | module/directory.c:296-333 | creating under the full name of an object opens that object on demand, if it has the same kind, and is otherwise an error |
| Namespace.CreateInDirectory | module/directory.c:296-333 | creating under a name that nothing in a directory has succeeds exactly if there is memory: the object is in that directory with that name, and the path is its full name |
| Namespace.UnlinkExact | module/object.c:309-313 | the object loses its name, and no other object changes its name or directory |
| Namespace.DestroyExact | module/object.c:334-351 | the object is gone, and no other object changes its name or directory |
| Namespace.ReachableRoundTrip | module/object.c:206-232 | the round trip of full names in every state that a run of create, unlink and free reaches |
| Directories.Directory.FindInChain | module/object.c:362-377 | the first object in the chain whose name matches |
| Directories.Directory.LookupElement | module/directory.c:153-194 | refines the lookup of one element, with its errors |
| Directories.Directory.Walk | module/directory.c:278-287 | the loop follows the path as far as it goes |
| Directories.Directory.FindObject | module/directory.c:241-293 | refines the search by path, with its errors |
| Directories.Directory.CreateObject | module/directory.c:296-333 | refines the creation, with its errors |
| Directories.Directory.FullLength | module/object.c:213-218 | the first pass counts exactly the length of the full name |
| Directories.Directory.GetObjectFullName | module/object.c:206-232 | the second pass fills the buffer from its end and stops exactly at its start: the full name of the object |

## Left out

- Coordinates, reference counts and buffer sizes are unbounded integers; their overflow is not modelled. File
  positions are 64-bit and wrap around.
- `offset_region`, `set_region_rect`, `is_region_empty` and `get_region_extents`: each is an assignment or a test of the
  fields that `Regions.Region` already has, and changes no band structure.
- FileLocks.LockTable.SetUnixLock: the error codes of fcntl are reduced to granted, conflict, file not open for such a
  lock, and failure. That Unix locks are turned off for a file system without them, and the second try with a smaller
  largest offset, are not modelled; clearing a Unix lock always succeeds.
- FileLocks.LockTable.RemoveLock: waking up those who wait for the lock and closing pending descriptors of the inode are
  not modelled.
- LinkedHoles.LinksExactThroughout: exact for the holes after every lock, not for those after the last lock alone.
- NamedPipes.Run: leaves out waiting clients, pipe data and pipe information.
- DebugSpec.Run: the exit of a debugger is a run of detach steps if it does not kill its processes; killing them, the
  exit of a debugged thread, the contents of events, and waiting threads are left out.
- Suspends.SuspendCounts.SuspendProcess: a thread that is told to stop counts as stopped; the signal itself, and threads
  of a process that is still being initialised or inside a debug event, are not modelled.
- Async.Run: leaves out the destruction of a queue with requests on it, completion ports and timeouts of requests;
  setting a result is one step. It stops where the source goes on from freed memory.
- Async.AsyncFd.CancelAsync: that the loops are cut off is necessary and sufficient for the read queue; for the write
  queue it is sufficient only if nothing on the read queue is cancelled before, which can destroy requests there.
- LockedHoles.OnlyFreeThroughout: exact for what is unlocked after every lock, not for that after the last lock alone.
- The bits of handle access rights that hold the two reserved flags are separate fields of an entry; access mapping
  and access checks are parameters. Looking up a handle by type and enumerating handles are not modelled.
- Ptrace.Target.ReadProcessMemory: 32-bit overflow of the length, attaching to the thread and a partial transfer through
  /proc are not modelled. Callers never pass a length of zero (module/process.c, lines 1257 and 1280); the requests
  `Ptrace.Target.ReadRequest` and `Ptrace.Target.WriteRequest` have any length.
- Ptrace.Target.WriteProcessMemory: the same.
- Namespace.RoundTripExact: for names that are compared exactly, in a tree of directories; symbolic links and devices,
  which look up names in their own way, are not modelled.
- Reference counts of named objects: an object is freed when no named object is in it.
- The parts of these files that wait, poll, open files, parse executables or check security, and all other files of
  the server.
