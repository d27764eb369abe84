# MOB scan resolution and MOB coordination, in Dafny

This project models two pieces of the MOB (medium object) extension of HBase-LOB.

**The reverse MOB store scanner** (`MobScan`, in `reversed_mob_store_scanner.dfy`).
`ReversedMobStoreScanner` decorates the base reverse store scanner. It fixes one flag
when it is built: `cacheMobBlocks`, which says whether resolved MOB blocks go to the
block cache. Each `next` call lets the base scanner fill the caller's buffer first.
Then, unless the scan is raw, it walks the buffer by index. Every cell with a MOB
reference tag is overwritten in place by the cell the MOB store resolves it to. A
resolve failure is an I/O error and propagates to the caller. The function
`ResolveCells` says what the loop leaves in the buffer. The lemmas beside it prove that:

- the buffer keeps its length;
- untagged cells are kept;
- when the loop completes, every tagged cell holds its resolution;
- the loop completes exactly when every tagged cell resolves;
- a failure stops the loop at the first failing tagged cell and leaves the rest as
  they were.

The cell type, the tag test, the MOB store's `resolve`, and the scan's raw and cache
predicates are parameters. `Cell` and `Scan` are type parameters.

**The MOB coordination handle** (`MobCoordination`, in `mob_zookeeper.dfy`, over the
service model `ZooKeeper` in `zookeeper.dfy`). `MobZookeeper` keeps, under one `MOB`
root znode, three kinds of ephemeral znode per store:

- a lock (`-lock`);
- a marker that a sweep job is running (`-sweeper`);
- a parent (`-mc-ephemeral`) whose children name the running major compactions.

The coordination service is one class, `ZooKeeperServer`, whose field `nodes` is the
set of existing znodes. Its primitives are specified as pure functions of that set:

- create an ephemeral znode: it answers `false` if the znode already exists;
- delete: deleting a missing znode raises NoNode;
- check existence;
- list children: a missing znode gives a null list;
- create a znode together with its ancestors.

Each request takes a flag `up` that says whether the service answers it. When the
service does not answer, the request raises a connection-loss `KeeperException` and
changes nothing (a loss reported after the request was applied is left out, see below). A znode path is a tree path. `joinZNode` appends one path element.
`getStoreZNodeName` is a function given to the handle when it is built, and the model
never interprets it.

The methods are verified against pure step functions (`TryCreate`, `TryDelete`,
`AddCompactionStep`, `ConstructStep`, `DeleteNode`, `CompactionChildrenReply`). The
lemmas about those functions prove:

- mutual exclusion of the lock;
- that a store can be locked again after it is unlocked;
- that the sweeper marker is visible after it is added and gone after it is deleted;
- that major compactions are tracked;
- that constructing a handle twice changes the namespace only once;
- that operations on one kind of record never touch another kind's znode, nor the root.

They also show which operations swallow coordination errors (`lockStore`, `unlockStore`,
`addSweeperZNode`, `deleteSweeperZNode`) and which propagate them (the constructor,
`isSweeperZNodeExist`, `hasMajorCompactionChildren`, `addMajorCompactionZNode`,
`deleteMajorCompactionZNode`).

Unlike `unlockStore` and `deleteSweeperZNode`, `deleteMajorCompactionZNode` declares
`throws KeeperException` and has no try block. Its errors, including NoNode for a missing
znode, reach the caller, and the model follows that.

## Model

| member | source | states |
|---|---|---|
| `MobScan.ResolveCells` | src/main/java/org/apache/hadoop/hbase/regionserver/ReversedMobStoreScanner.java:62-68 | the buffer after the resolve loop has the same length as before: cells are only overwritten with `set(i, …)`, never added or removed |
| `MobScan.ResolveStep` | src/main/java/org/apache/hadoop/hbase/regionserver/ReversedMobStoreScanner.java:62-68 | one iteration: position `i` is kept if untagged, and replaced by its resolution if tagged, or else stops the loop with the resolve error |
| `MobScan.AbortedStaysAborted` | src/main/java/org/apache/hadoop/hbase/regionserver/ReversedMobStoreScanner.java:62-68 | once resolve has failed, no later position of the buffer is changed |
| `MobScan.ResolvedAt` | src/main/java/org/apache/hadoop/hbase/regionserver/ReversedMobStoreScanner.java:63-66 | an untagged cell keeps its position; a tagged cell is either untouched or replaced by `resolve(cell, cacheMobBlocks)`; when the loop completes, every tagged cell is replaced by its resolution |
| `MobScan.CompleteIffAllResolve` | src/main/java/org/apache/hadoop/hbase/regionserver/ReversedMobStoreScanner.java:62-68 | the loop completes exactly when every tagged cell of the buffer resolves (both directions) |
| `MobScan.AbortedAtFailure` | src/main/java/org/apache/hadoop/hbase/regionserver/ReversedMobStoreScanner.java:62-68 | a failed loop reports the error of a tagged cell `k` whose resolve failed, and every tagged cell before `k` resolves, so `k` is the first failure; positions before `k` are exactly a completed pass over that prefix, and `k` and the rest are unchanged |
| `MobScan.NoReferenceUnchanged` | src/main/java/org/apache/hadoop/hbase/regionserver/ReversedMobStoreScanner.java:63-64 | a buffer without tagged cells comes out of the loop unchanged and complete |
| `MobScan.KeysPreserved` | src/main/java/org/apache/hadoop/hbase/regionserver/ReversedMobStoreScanner.java:64-66 | assuming the MOB store keeps a cell's key when resolving it, every position keeps its key |
| `MobScan.ResolutionIdempotent` | src/main/java/org/apache/hadoop/hbase/regionserver/ReversedMobStoreScanner.java:62-68 | assuming a resolution is never itself a reference cell, a completed pass leaves no reference cell, and a second pass changes nothing |
| `MobScan.ReversedMobStoreScanner.constructor` | src/main/java/org/apache/hadoop/hbase/regionserver/ReversedMobStoreScanner.java:42-46 | `cacheMobBlocks` is taken from the scan once, at construction; it is a constant, so every `resolve` call of every `next` gets the same flag |
| `MobScan.ReversedMobStoreScanner.Next` | src/main/java/org/apache/hadoop/hbase/regionserver/ReversedMobStoreScanner.java:53-71 | a base failure propagates with the buffer untouched; a raw scan leaves the buffer exactly as the base left it and returns the base's flag; an empty buffer returns the base's flag; otherwise the buffer becomes `ResolveCells` of its old contents, and the result is the base's flag on completion or the resolve error on failure |
| `MobScan.ReversedMobStoreScanner.ResolveReferences` | src/main/java/org/apache/hadoop/hbase/regionserver/ReversedMobStoreScanner.java:61-68 | the in-place index loop leaves the array equal to `ResolveCells` of its old contents and reports a failure exactly when that is `Aborted` |
| `MobCoordination.StoreZNode` | src/main/java/org/apache/hadoop/hbase/mob/MobZookeeper.java:55-59 | defines a store record's znode as `joinZNode(mobZnode, znodeName + suffix)`, the path built at :55-59, :83-86, :107-108, :113-114, :122-123 and :131-132; what it guarantees is proved by `KindsApart` and `StoresApart` |
| `MobCoordination.CompactionZNode` | src/main/java/org/apache/hadoop/hbase/mob/MobZookeeper.java:122-125 | defines a compaction's znode as `joinZNode(mcPath, compactionName)` below the store's `-mc-ephemeral` znode, as built at :122-125 and :131-133 |
| `MobCoordination.KindsApart` | src/main/java/org/apache/hadoop/hbase/mob/MobZookeeper.java:38-40 | the `-lock`, `-sweeper` and `-mc-ephemeral` znodes of any two stores are pairwise distinct; compaction znodes differ from every store record; no record is the `MOB` root |
| `MobCoordination.StoresApart` | src/main/java/org/apache/hadoop/hbase/mob/MobZookeeper.java:55-59 | stores whose znode names differ have different znodes of each kind and different compaction znodes (no claim is made that distinct stores get distinct names) |
| `MobCoordination.TryCreate` | src/main/java/org/apache/hadoop/hbase/mob/MobZookeeper.java:54-67 | `lockStore`/`addSweeperZNode` answer true iff the service answered and the znode was absent; the namespace gains only that znode, and does not change at all on an error |
| `MobCoordination.TryDelete` | src/main/java/org/apache/hadoop/hbase/mob/MobZookeeper.java:69-79 | `unlockStore`/`deleteSweeperZNode` never fail; when the service answered, the znode is absent afterwards, whether or not it existed; nothing else changes |
| `MobCoordination.CompactionChildrenReply` | src/main/java/org/apache/hadoop/hbase/mob/MobZookeeper.java:111-118 | errors propagate; the answer is true iff the `-mc-ephemeral` znode exists and has a child, so a null list (missing znode) and an empty list both give false |
| `MobCoordination.ChildrenListed` | src/main/java/org/apache/hadoop/hbase/mob/MobZookeeper.java:115-117 | the children list of an existing znode is non-null and non-empty iff some znode lies directly below it |
| `MobCoordination.AddCompactionStep` | src/main/java/org/apache/hadoop/hbase/mob/MobZookeeper.java:120-127 | the `-mc-ephemeral` parent is ensured with its create's answer ignored; the reply is exactly whether the child `compactionName` was created; each create's error propagates, and a failing child create leaves the parent created |
| `MobCoordination.ConstructStep` | src/main/java/org/apache/hadoop/hbase/mob/MobZookeeper.java:42-48 | construction succeeds iff the session opens, the existence check is answered, and the root exists or its creation is answered; on success `MOB` exists; it never removes a znode and adds nothing but `MOB` and its ancestors (exactly those, when it creates `MOB`), changes nothing on failure, and changes nothing when `MOB` already exists |
| `MobCoordination.ConstructIdempotent` | src/main/java/org/apache/hadoop/hbase/mob/MobZookeeper.java:44-47 | constructing after a successful construction leaves the namespace unchanged |
| `MobCoordination.LockStoreExclusive` | src/main/java/org/apache/hadoop/hbase/mob/MobZookeeper.java:54-67 | `lockStore` on a store whose lock znode exists returns false and changes nothing; of two `lockStore` calls in a row at most one returns true; when the lock is free and both calls are answered, exactly the first returns true |
| `MobCoordination.UnlockThenLock` | src/main/java/org/apache/hadoop/hbase/mob/MobZookeeper.java:69-79 | after an answered `unlockStore`, an answered `lockStore` returns true |
| `MobCoordination.SweeperMarkerVisible` | src/main/java/org/apache/hadoop/hbase/mob/MobZookeeper.java:81-109 | `isSweeperZNodeExist` is true right after an answered `addSweeperZNode` and false right after an answered `deleteSweeperZNode` |
| `MobCoordination.CompactionSessionsTracked` | src/main/java/org/apache/hadoop/hbase/mob/MobZookeeper.java:111-135 | after an answered `addMajorCompactionZNode` the store has major-compaction children; after its only registered compaction is deleted it has none |
| `MobCoordination.LockOperationsKeepToLocks` | src/main/java/org/apache/hadoop/hbase/mob/MobZookeeper.java:54-79 | lock and unlock of a store leave the root and every store's sweeper, major-compaction and compaction znodes as they were |
| `MobCoordination.SweeperOperationsKeepToSweepers` | src/main/java/org/apache/hadoop/hbase/mob/MobZookeeper.java:81-104 | adding or deleting a sweeper marker leaves the root and every store's lock, major-compaction and compaction znodes as they were |
| `MobCoordination.CompactionOperationsKeepToCompactions` | src/main/java/org/apache/hadoop/hbase/mob/MobZookeeper.java:120-135 | adding or deleting a major compaction leaves the root and every lock and sweeper znode as they were; deleting compaction `c` keeps every other compaction znode and every `-mc-ephemeral` parent |
| `MobCoordination.MobZookeeper.constructor` | src/main/java/org/apache/hadoop/hbase/mob/MobZookeeper.java:36-37 | the handle holds the service connection, the `MOB` root znode and the store-name function, as given; the Java constructor's session, existence check and root creation (:42-48) are done by `NewInstance` |
| `MobCoordination.MobZookeeper.NewInstance` | src/main/java/org/apache/hadoop/hbase/mob/MobZookeeper.java:42-52 | builds a fresh handle exactly when `ConstructStep` succeeds; the handle's root is the `MOB` znode; the namespace becomes `ConstructStep`'s; every error propagates as a failure |
| `MobCoordination.MobZookeeper.ZNode` | src/main/java/org/apache/hadoop/hbase/mob/MobZookeeper.java:55-59 | defines the handle's record znode for a table and store as `StoreZNode` of its root and `storeZNodeName(tableName, storeName)` |
| `MobCoordination.MobZookeeper.LockStore` | src/main/java/org/apache/hadoop/hbase/mob/MobZookeeper.java:54-67 | never raises; result and new namespace are `TryCreate` on the store's `-lock` znode |
| `MobCoordination.MobZookeeper.UnlockStore` | src/main/java/org/apache/hadoop/hbase/mob/MobZookeeper.java:69-79 | never raises; the new namespace is `TryDelete` on the store's `-lock` znode |
| `MobCoordination.MobZookeeper.AddSweeperZNode` | src/main/java/org/apache/hadoop/hbase/mob/MobZookeeper.java:81-95 | never raises; result and new namespace are `TryCreate` on the store's `-sweeper` znode |
| `MobCoordination.MobZookeeper.DeleteSweeperZNode` | src/main/java/org/apache/hadoop/hbase/mob/MobZookeeper.java:97-104 | never raises; the new namespace is `TryDelete` on the store's `-sweeper` znode |
| `MobCoordination.MobZookeeper.IsSweeperZNodeExist` | src/main/java/org/apache/hadoop/hbase/mob/MobZookeeper.java:106-109 | answers whether the store's `-sweeper` znode exists; a coordination error propagates; nothing changes |
| `MobCoordination.MobZookeeper.HasMajorCompactionChildren` | src/main/java/org/apache/hadoop/hbase/mob/MobZookeeper.java:111-118 | answers `CompactionChildrenReply` for the store's `-mc-ephemeral` znode; nothing changes |
| `MobCoordination.MobZookeeper.AddMajorCompactionZNode` | src/main/java/org/apache/hadoop/hbase/mob/MobZookeeper.java:120-127 | reply and new namespace are `AddCompactionStep` on the store's `-mc-ephemeral` znode |
| `MobCoordination.MobZookeeper.DeleteMajorCompactionZNode` | src/main/java/org/apache/hadoop/hbase/mob/MobZookeeper.java:129-135 | succeeds iff the service answered and the compaction znode existed; a missing znode raises NoNode to the caller; only that znode is removed, and nothing changes on failure |

## Left out

- `MobZookeeper.close()`, session liveness and the expiry of ephemeral znodes when a session ends, watches, `DummyLobAbortable`, and all logging. These are the coordination service's own semantics, or have no effect on the state modelled here.
- `MobUtils.getStoreZNodeName` is a function given to the handle when it is built. Its body is not part of this model, so nothing is claimed about collisions between store names.
- `ZKUtil.joinZNode` is modelled as appending one path element. This assumes that the names joined contain no `/`.
- The ZooKeeper rule that a znode's parent must exist is not modelled. Neither is the rule that an ephemeral znode cannot have children. Under the second rule a real ensemble would refuse the child create of `addMajorCompactionZNode`, because its `-mc-ephemeral` parent is itself ephemeral.
- Only two `KeeperException` codes are modelled: connection loss (the service did not answer) and NoNode (delete of a missing znode). Failing to open the session during construction is modelled as connection loss.
- `MobCoordination.TryCreate` / `MobCoordination.TryDelete`: a connection loss is taken to mean the request never reached the service, so nothing changes. In ZooKeeper a connection loss can also be reported after the service applied the request, so `lockStore` could return false while its lock znode exists; this model does not capture that.
- `MobCoordination.MobZookeeper.constructor`: it only stores its three fields. The work of the Java constructor (MobZookeeper.java:42-48) is modelled by `NewInstance` and `ConstructStep`, since a Dafny constructor cannot fail with a `KeeperException`.
- `MobCoordination.ConstructStep`: `createWithParents` is taken to be atomic. A failure part-way through the ancestor chain is not modelled.
- `MobScan.ReversedMobStoreScanner.Next`: the base `ReversedStoreScanner.next` (ordering, the `limit` argument, how it fills the list) is not part of this model. The buffer's contents on entry stand for what the base left in it, and `baseResult` stands for what the base returned or raised. The buffer is a fixed-length array, since resolution never changes its length.
- `MobScan.ReversedMobStoreScanner.ResolveReferences`: the loop body of `next` is its own method here, to keep each proof small. Its behaviour is the loop's.
- `HMobStore.resolve` (file lookup, block cache), `KeyValueUtil.ensureKeyValue` (modelled as the identity), the cast of the store to `HMobStore` (assumed to succeed), and the predicates `MobUtils.isRawMobScan`, `isMobReferenceCell` and `isCacheMobBlocks` are parameters.
- `MobScan.KeysPreserved`: that `resolve` keeps a cell's row, family, qualifier and timestamp belongs to the MOB store. It is stated only as an assumption of that lemma.
- src/test/java/org/apache/hadoop/hbase/mob/compactions/TestSweeper.java: an integration test over a mini cluster, MapReduce and a file system. It has no logic to model.
