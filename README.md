# FileStack naming server, modelled in Dafny

FileStack is a distributed filesystem. Its naming server keeps the directory tree:
for every file, the storage server that holds its primary copy. It also keeps the
registry of storage servers. Clients lock paths through a tree of per-node fair
reader/writer locks. Shared grants on a file replicate it to other storage servers,
and exclusive grants invalidate those replicas. This project models the core of that
naming server and proves properties of the model.

The model has one module per concern:

- `Paths` (`paths.dfy`) models `common/Path.java` as pure functions on `seq<string>`:
  - parsing and rendering, with the round trip `Parse(Render(p)) == Success(p)`;
  - `parent`/`last`, `isSubpath` and `equals`, each proved equivalent to its sequence
    meaning.
- `Tree` (`tree.dfy`) models `naming/Node.java`:
  - a `class Node` with a mutable `children` map and the persistent `result` list;
  - `GetPathNode` and `GetFilesUnder`/`Aux`, specified against a ghost map from paths to
    nodes that states the tree's shape.
- `Locks` (`locks.dfy`) models `naming/RWLock.java`:
  - a `LockState` value with one transition function per step, and a `class RWLock` whose
    methods are proved against those functions;
  - each blocking acquisition is split into a request step, which draws a ticket, and a
    grant step, which either finds the wait condition still true (`Waiting`) or performs
    what follows the wait loop;
  - the replication and invalidation side effects act on the replica map, which is
    passed in and handed back.
- `Directory` (`directory.dfy`) states the naming server's tree operations as functions
  on a `View`, a map from path to entry (file or directory, and its storage). Their
  properties are proved there: the tree stays a tree, exactly which paths change,
  duplicates, and the remote calls issued.
- `Locking` (`locking.dfy`) states `lock`/`unlock` on the map of lock states along a path,
  and proves what a completed walk holds, what blocks it, and that `unlock` undoes `lock`.
- `Naming` (`naming.dfy`) holds `class NamingServer`:
  - its fields are the tree, the lock states, the directories' `getFilesUnder` lists,
    `storecommandMap`, `replicas` and `Stores`;
  - each public operation is a method proved to change that state exactly as the
    corresponding function of `Directory` or `Locking` says.

Remote calls to storage servers (`create`, `delete`, `copy`) are values of `RemoteCall`.
Their outcomes (a boolean or a network failure) come from an `Outcome` parameter or an
`Oracle` (`nat -> Outcome`, the outcome of the i-th call). Iteration over a `HashMap` or
`HashSet` is modelled as an arbitrary enumeration. Ghost out-parameters (`keyOrder`,
`order`, `chosen`) name the order the code used.

The code is followed where it departs from its own comments or from the documented
design:

- `getFilesUnder` on a directory appends the receiver's own path once per node of its
  subtree, because `aux` reads `this` rather than `n`. Its list also persists across
  calls. So `delete` of a directory, while any file has replicas and the directory has
  no replica entry, throws a NullPointerException before any remote call
  (`Directory.DirectoryDeleteThrows`).
- `delete` of a directory removes only the directory's own replica entry, and only in
  rounds that complete. It does not purge the entries of the paths below it.
- A network failure during `delete` returns false at once, and the remaining storages
  are skipped. A directory then stays in the tree; a file is already gone
  (`Directory.DeleteTree`).
- Replication records the chosen storage as a replica holder even when the copy throws.
  The storage iterator is a single pass over `Stores`, so once it is used up no further
  replica is ever placed. Skipping the primary calls `next()` again, which can throw.
- The exclusive grant's invalidation runs only while some file anywhere has replicas.
  On a file with no replica entry it then throws a NullPointerException.
- `addToTree` replaces an existing file that stands on an intermediate component with a
  new directory.
- `createFile` leaves the inserted file in the tree when the remote create fails on the
  network.
- `unlock` of a path that does not resolve fails with IllegalArgumentException.

## Model

| member | source | states |
|---|---|---|
| Paths.Append | FileStack/src/common/Path.java:41-51 | fails with InvalidArgument exactly when the component is empty or holds '/' or ':'; otherwise the path's components followed by the component |
| Paths.Parse | FileStack/src/common/Path.java:65-79 | succeeds exactly when the string is non-empty, starts with '/' and has no ':'; the components are the non-empty '/'-separated segments |
| Paths.Split | FileStack/src/common/Path.java:74 | the segments between separators: at least one, none holding '/' |
| Paths.SplitJoin | FileStack/src/common/Path.java:74 | joining the segments with '/' gives back the string, so splitting loses and invents nothing |
| Paths.NonEmpty | FileStack/src/common/Path.java:74-78 | the kept segments are the non-empty segments and only those, never more than there were |
| Paths.NonEmptyAppend | FileStack/src/common/Path.java:74-78 | the filter distributes over concatenation, so the kept segments keep their order and multiplicity |
| Paths.NonEmptyOne | FileStack/src/common/Path.java:76-77 | one segment is kept exactly when it is non-empty |
| Paths.EmptySegmentsCollapse | FileStack/src/common/Path.java:73-78 | "/a//b/" and "/a/b" parse to the same path ["a", "b"] |
| Paths.Parent | FileStack/src/common/Path.java:175-187 | fails with InvalidArgument exactly on the root; otherwise drops exactly the final component |
| Paths.Last | FileStack/src/common/Path.java:195-202 | fails with InvalidArgument exactly on the root; otherwise the final component |
| Paths.ParentLastRebuild | FileStack/src/common/Path.java:175-202 | Path(p.parent(), p.last()) is p for every non-root path |
| Paths.Matches | FileStack/src/common/Path.java:223-228 | isSubpath's comparison loop holds exactly when the second sequence is a prefix of the first |
| Paths.IsSubpath | FileStack/src/common/Path.java:214-229 | holds exactly when `other` is a prefix of the path |
| Paths.SubpathReflexive | FileStack/src/common/Path.java:204-214 | every path is a subpath of itself |
| Paths.SubpathTransitive | FileStack/src/common/Path.java:214-229 | the subpath relation is transitive |
| Paths.SubpathOfRoot | FileStack/src/common/Path.java:214-229 | the root is a subpath of every path |
| Paths.Same | FileStack/src/common/Path.java:260-265 | equals' comparison loop holds exactly when the sequences are equal |
| Paths.Equals | FileStack/src/common/Path.java:252-266 | holds exactly when both paths have the same components |
| Paths.Render | FileStack/src/common/Path.java:289-305 | the rendering is non-empty and starts with '/' |
| Paths.RenderParse | FileStack/src/common/Path.java:280-305 | Path(p.toString()) succeeds and equals p |
| Paths.ParseCanonical | FileStack/src/common/Path.java:65-79 | rendering a parsed path and parsing again gives the same result |
| Tree.Node.constructor | FileStack/src/naming/Node.java:20-29 | a node with the given isFile, path and storage, no children, an empty list and a fresh lock in its initial state |
| Tree.Node.GetPathNode | FileStack/src/naming/Node.java:43-57 | follows child links component by component: the node of the extended path when it is in the tree, NotFound otherwise; changes nothing |
| Tree.Node.GetFilesUnder | FileStack/src/naming/Node.java:69-81 | appends the node's own path to its persistent list once for a file, once per node of its subtree for a directory, and returns that list |
| Tree.Node.Aux | FileStack/src/naming/Node.java:84-97 | appends the receiver's path once per node of `n`'s subtree |
| Locks.RWLock.constructor | FileStack/src/naming/RWLock.java:16-22 | a lock in the initial state, which keeps the lock invariant |
| Locks.RWLock.RequestExclusive | FileStack/src/naming/RWLock.java:36-38 | the ticket is the counter, which goes up by one; the ticket joins the tail of the writer queue; the invariant is kept |
| Locks.RWLock.TryGrantExclusive | FileStack/src/naming/RWLock.java:42-66 | waits, changing nothing, unless no reader or writer holds the lock and the ticket heads the queue; then takes the lock, dequeues, restarts the read counter and runs the invalidation |
| Locks.RWLock.RequestShared | FileStack/src/naming/RWLock.java:84-91 | the first request creates the storage iterator; the ticket is the counter, which goes up by one |
| Locks.RWLock.TryGrantShared | FileStack/src/naming/RWLock.java:94-139 | waits, changing nothing, while a writer holds the lock or an earlier writer is queued; then admits the reader and runs the replication policy |
| Locks.RWLock.Replicate | FileStack/src/naming/RWLock.java:106-138 | takes the next storage from the iterator (skipping the primary once), records it as a replica holder and restarts the counter; throws as the iterator does |
| Locks.RWLock.ReleaseShared | FileStack/src/naming/RWLock.java:148-153 | one reader fewer, never below zero; nothing else changes |
| Locks.RWLock.ReleaseExclusive | FileStack/src/naming/RWLock.java:160-164 | the writer flag is cleared; nothing else changes |
| Locks.StepKeepsInv | FileStack/src/naming/RWLock.java:34-164 | every request, grant and release keeps the queue ascending, the queue's tickets issued, and a writer excluding readers |
| Locks.RunKeepsInv | FileStack/src/naming/RWLock.java:34-164 | any run of steps keeps the lock invariant |
| Locks.WriterExcludesReaders | FileStack/src/naming/RWLock.java:42-46 | in every state a fresh lock reaches, a holding writer means no readers |
| Locks.TicketsIncrease | FileStack/src/naming/RWLock.java:36-37 | the tickets drawn in any run are strictly increasing and lie between the counter's old and new values |
| Locks.ExclusiveGoesToOldest | FileStack/src/naming/RWLock.java:42-47 | the exclusive grant goes to the smallest queued ticket |
| Locks.WritersInTicketOrder | FileStack/src/naming/RWLock.java:42-47 | the exclusive grants of any run take effect in strictly increasing ticket order |
| Locks.FifoFromInitial | FileStack/src/naming/RWLock.java:36-47 | from a fresh lock, writers are granted in FIFO ticket order |
| Locks.LateReaderWaits | FileStack/src/naming/RWLock.java:94-97 | a reader whose ticket follows a queued writer's cannot be admitted |
| Locks.EarlyReadersShare | FileStack/src/naming/RWLock.java:94-98 | readers that arrived before the oldest queued writer are admitted together |
| Locks.ExclusiveGrantInvalidates | FileStack/src/naming/RWLock.java:46-65 | an exclusive grant on a replicated file restarts the counter, drops exactly that file's replica entry and sends a delete to each holder |
| Locks.SharedGrantBoundsCounter | FileStack/src/naming/RWLock.java:101-138 | after a shared grant on a file that returns normally, the read counter is at most 20 |
| Locks.SharedGrantKeepsInv | FileStack/src/naming/RWLock.java:98-136 | a shared grant keeps the lock invariant and only adds to the file's own replica set, and only storages of `Stores` other than its primary |
| Locks.QuietReads | FileStack/src/naming/RWLock.java:101-106 | while the counter stays at most 20, shared grants on a file only count readers and reads |
| Locks.ReadPastThresholdReplicates | FileStack/src/naming/RWLock.java:106-137 | the grant that takes the counter past 20 places a replica on a storage other than the primary and restarts the counter, when the iterator has one to give |
| Locks.TwentyFirstReadReplicates | FileStack/src/naming/RWLock.java:101-138 | from a restarted counter, 20 shared grants place no replica and the 21st places exactly one |
| Directory.InsertProperties | FileStack/src/naming/NamingServer.java:169-217 | false for the root or a taken name; NotFound exactly when the parent is missing or a file; otherwise exactly one new child; the tree stays a tree |
| Directory.CreateFileProperties | FileStack/src/naming/NamingServer.java:143-166 | false with no change when no storage is registered; one create call exactly when the node was inserted; then true exactly when the call was answered, and the node stays either way |
| Directory.AddTreeProperties | FileStack/src/naming/NamingServer.java:387-414 | true exactly when the path was new; then the file is on `s`, new prefixes are directories on `s`, a file on a prefix became such a directory, nothing else changed; false leaves the tree as it was |
| Directory.RegisterProperties | FileStack/src/naming/NamingServer.java:364-379 | the tree stays a tree and only grows on the new storage; every non-root file offered is in the tree; the duplicates are offered non-root files, and include every one that was already there |
| Directory.UnionRegistered | FileStack/src/naming/NamingServer.java:258-263 | every storage delete gathers for a directory is registered |
| Directory.RoundsCalls | FileStack/src/naming/NamingServer.java:262-274 | the rounds only delete the path, at the primary or a storage iterated over, at most two calls and one round per storage |
| Directory.RoundsAnswered | FileStack/src/naming/NamingServer.java:265-272 | when every remote call is answered, the rounds never stop on a network failure |
| Directory.RoundsAbortOnFailure | FileStack/src/naming/NamingServer.java:265-290 | from a running loop whose earlier calls were answered, the loop stops on a network failure exactly when one of its calls failed |
| Directory.DeleteTree | FileStack/src/naming/NamingServer.java:221-336 | NotFound exactly for a missing non-root path; root gives false; the tree stays a tree, and loses exactly the subtree at the path or nothing: always for a file, whenever the result is true; a directory stays when delete throws; any network failure among the calls makes the result false and leaves a directory in the tree; the replica map loses at most the path's own entry |
| Directory.DirectoryDeletionTree | FileStack/src/naming/NamingServer.java:242-292 | the directory is cut off when the result is true, and when every remote call is answered and delete returns normally; it stays when delete throws, and a network failure among the calls returns false and keeps it |
| Directory.FileDeletionTree | FileStack/src/naming/NamingServer.java:295-331 | the file is cut off whatever the remote calls return; a network failure among the calls makes the result false |
| Directory.DeleteCalls | FileStack/src/naming/NamingServer.java:252-330 | every remote call of delete deletes the path, at the node's primary or a storage iterated over, at most 2n+1 calls for n storages |
| Directory.DirectoryDeleteThrows | FileStack/src/naming/NamingServer.java:246-261 | while any file has replicas, deleting a directory without an entry of its own throws NullPointer with nothing changed and no remote call |
| Directory.PruneChildNames | FileStack/src/naming/NamingServer.java:297 | removing a node drops exactly its name from its parent's children |
| Locking.FactsAt | FileStack/src/naming/NamingServer.java:446-488 | the root of a longer path is handed null, every other node itself |
| Locking.AcquireKeepsInv | FileStack/src/naming/RWLock.java:34-139 | one acquisition keeps the lock invariant |
| Locking.AcquireHolds | FileStack/src/naming/RWLock.java:42-98 | a granted acquisition holds the lock: exclusive only on a lock with no writer, reader or queued writer; shared adds one reader |
| Locking.WriterBlocksAcquire | FileStack/src/naming/RWLock.java:42-97 | a lock a writer holds lets no request through |
| Locking.LockFromKeys | FileStack/src/naming/NamingServer.java:442-496 | the walk keeps the set of locks, only adds remote calls, and waits only at a prefix it reached |
| Locking.LockFromFrame | FileStack/src/naming/NamingServer.java:442-496 | the walk changes only the locks of the prefixes it reaches |
| Locking.LockFromKeepsInv | FileStack/src/naming/NamingServer.java:442-496 | the walk keeps every lock invariant and registers only registered holders |
| Locking.LockFromHolds | FileStack/src/naming/NamingServer.java:446-488 | a completed walk holds every prefix's lock shared and the path's own lock in the mode asked for |
| Locking.WriterBlocks | FileStack/src/naming/NamingServer.java:446-488 | a writer on any node of the path keeps the walk from completing; it waits there or above |
| Locking.ReadersBlockWriter | FileStack/src/naming/NamingServer.java:473-478 | a reader on the path's node keeps an exclusive walk from completing |
| Locking.LockThenUnlock | FileStack/src/naming/NamingServer.java:509-562 | unlock after a completed lock of the same path and mode gives every lock back its holders as before |
| Naming.ShapedWellFormed | FileStack/src/naming/Node.java:12-16 | a node graph of tree shape under a root directory is a well-formed tree of entries |
| Naming.ShapedChildNames | FileStack/src/naming/NamingServer.java:135-136 | the names a node's children map holds are the names its path lists |
| Naming.RegistryJoin | FileStack/src/naming/NamingServer.java:380-381 | a storage not yet registered is not in `Stores`, and adding it at the end keeps each storage listed once and registered |
| Naming.Enumerate | FileStack/src/naming/NamingServer.java:135-136 | iterating a key set yields each key exactly once |
| Naming.WalkLocks | FileStack/src/naming/NamingServer.java:442-496 | lock's loop computes exactly the walk `LockFrom` |
| Naming.DeleteRound | FileStack/src/naming/NamingServer.java:262-274 | one round of delete's loop is `Round`; a completed round removes the path's replica entry |
| Naming.RunRounds | FileStack/src/naming/NamingServer.java:262-274 | delete's loop runs `Rounds` over some enumeration of the storages, stopping on failure |
| Naming.ReleasePath | FileStack/src/naming/NamingServer.java:522-560 | unlock's loop releases each prefix's lock, the path's own in the mode given |
| Naming.NamingServer.constructor | FileStack/src/naming/NamingServer.java:61-68 | the root directory alone with a fresh lock; no storage, no replica |
| Naming.NamingServer.Resolve | FileStack/src/naming/Node.java:43-57 | the node's entry when the path is in the tree, NotFound otherwise |
| Naming.NamingServer.IsDirectory | FileStack/src/naming/NamingServer.java:118-123 | the negation of the node's isFile; NotFound for a missing path |
| Naming.NamingServer.List | FileStack/src/naming/NamingServer.java:127-139 | exactly the child names, each once, for a directory; NotFound for a missing path or a file |
| Naming.NamingServer.GetStorage | FileStack/src/naming/NamingServer.java:341-348 | a file's primary storage; NotFound for a directory or a missing path |
| Naming.NamingServer.InsertUnder | FileStack/src/naming/NamingServer.java:169-217 | acts as `Insert`, keeping the server invariant; a new node gets a fresh lock and other locks stay |
| Naming.NamingServer.InsertNode | FileStack/src/naming/NamingServer.java:169-195 | acts as `Insert` with a file on `s` |
| Naming.NamingServer.CreateDirectory | FileStack/src/naming/NamingServer.java:199-217 | acts as `Insert` with a directory without storage |
| Naming.NamingServer.CreateFile | FileStack/src/naming/NamingServer.java:143-166 | acts as `CreateFileSpec` on a registered storage the key iterator yields |
| Naming.NamingServer.MakeDirectories | FileStack/src/naming/NamingServer.java:399-404 | addToTree's inner loop makes every prefix before the last a directory on `s`, as `Fill` does |
| Naming.NamingServer.AddToTree | FileStack/src/naming/NamingServer.java:387-414 | acts as `AddTree`; the tree only grows and surviving nodes keep their locks |
| Naming.NamingServer.AddAll | FileStack/src/naming/NamingServer.java:364-379 | register's loop acts as `RegisterFiles` |
| Naming.NamingServer.Register | FileStack/src/naming/NamingServer.java:352-384 | IllegalState with nothing changed for a registered storage; otherwise records it once, at the end of `Stores`, and acts as `RegisterFiles` |
| Naming.NamingServer.ReplicatedBelow | FileStack/src/naming/NamingServer.java:252-254 | exactly the replicated paths at or below the directory, each once |
| Naming.NamingServer.Gather | FileStack/src/naming/NamingServer.java:258-261 | the union of the listed paths' holders; NullPointer exactly when one has no entry |
| Naming.NamingServer.ListUnder | FileStack/src/naming/NamingServer.java:246-254 | the node's list grows by its path once per subtree node, then the replicated paths below it |
| Naming.NamingServer.Delete | FileStack/src/naming/NamingServer.java:221-336 | acts as `DeleteSpec` on the tree, replica map, lists and remote calls; locks of surviving nodes are unchanged |
| Naming.NamingServer.Lock | FileStack/src/naming/NamingServer.java:428-497 | NotFound with nothing changed for a missing path; otherwise acts as the walk `LockFrom` from the root, keeping the server invariant |
| Naming.NamingServer.Unlock | FileStack/src/naming/NamingServer.java:509-562 | InvalidArgument (IllegalArgumentException) with nothing changed for a missing path; otherwise releases the locks along the path as `Released` says |

## Left out

- The RMI transport (`Skeleton`, `Stub`, `ProxyHandler`) and the storage server are not part of this model. A storage server appears only as an opaque reference, and its answers come from `Outcome`/`Oracle` parameters.
- The `NamingServer` skeleton lifecycle (`start`, `stop`, `stopped`) is left out. The constructor is modelled without its skeletons.
- `Path.list`, `pathBuild` and `toFile` (local filesystem walks) and `Path.hashCode` are left out. `Path.iterator` is the component sequence itself, walked by index.
- Paths.Parse: Java string identity is not modelled. `Path(String)` compares the argument with `""` by reference, so an empty string that is not the interned literal would get past that test and throw StringIndexOutOfBoundsException at `charAt(0)`. The model folds that case into `InvalidArgument`, as for the literal `""`.
- Null arguments are left out. Paths and references are never null in the model, so the explicit NullPointerException checks for null arguments do not arise.
- Threads, `wait`/`notifyAll` and `InterruptedException` are left out. A blocked acquisition is one grant attempt that returns `Waiting`, and `lock` then reports `Blocked` at that node instead of sleeping.
- Naming.NamingServer.Lock: does not model the branch at NamingServer.java:490-494, nor unlock's re-lock at 551-559. A path that resolves keeps every component, and only concurrent mutation, which is not modelled, could remove one.
- The NamingServer holds its tree as path-keyed maps (`tree`, `locks`, `lists`), not as linked `Node` objects with an `RWLock` each. `Tree.Node` models the object form separately, and `Naming.ShapedWellFormed` relates the two. Aliasing of nodes and locks is therefore not captured in the server.
- HashMap and HashSet iteration order is not modelled. The storage `createFile` picks, the order of `list`, and the orders `delete` iterates in are arbitrary and exposed as ghost values.
- The outcomes of the invalidation deletes and of the replication copy are ignored, as the code ignores them. The model returns the set of calls issued.
- Locks.RWLock.RequestExclusive: does not model 32-bit wrap-around of `globalIndex`, `readers` or `consecReads`. The model's counters are unbounded, and wrap-around takes 2^31 requests on one node.
- Naming.NamingServer.Register: records the command reference after the loop over the files, not before. The loop never reads `storecommandMap`, so the result is the same.
- Naming.NamingServer.Register: does not model register's `catch`. `addToTree` cannot throw on a valid path, so the catch never runs.
- Naming.NamingServer.List: returns the names as a sequence in some enumeration order rather than as a Java array.
