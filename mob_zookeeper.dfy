/**
 * The MOB extension's use of the coordination service: a per-store lock, a per-store
 * marker that a sweep job is running, and a per-store set of running major compactions,
 * all kept as ephemeral znodes under one `MOB` root znode.
 *
 * A store is named by `storeZNodeName(tableName, storeName)`, a function this model does
 * not interpret; each record's znode is that name plus a fixed suffix, joined under the
 * root. `up` parameters say whether the coordination service answers a request.
 */
module MobCoordination {
  import opened Wrappers
  import opened ZooKeeper

  const MobRootName: string := "MOB"
  const LockSuffix: string := "-lock"
  const SweeperSuffix: string := "-sweeper"
  const MajorCompactionSuffix: string := "-mc-ephemeral"

  /** The znode of one kind of record (chosen by `suffix`) of the store named `znodeName`. */
  function StoreZNode(mobZnode: Path, znodeName: string, suffix: string): Path {
    JoinZNode(mobZnode, znodeName + suffix)
  }

  /** The znode of the major compaction `compactionName` of the store named `znodeName`. */
  function CompactionZNode(mobZnode: Path, znodeName: string, compactionName: string): Path {
    JoinZNode(StoreZNode(mobZnode, znodeName, MajorCompactionSuffix), compactionName)
  }

  /** The three suffixes end in different characters, so no lock znode of any store is
      the sweeper or major-compaction znode of any store; compaction znodes sit one level
      deeper than every store record; and no record is the root itself. */
  lemma {:induction false} KindsApart(mob: Path, z1: string, z2: string, c: string)
    ensures StoreZNode(mob, z1, LockSuffix) != StoreZNode(mob, z2, SweeperSuffix)
    ensures StoreZNode(mob, z1, LockSuffix) != StoreZNode(mob, z2, MajorCompactionSuffix)
    ensures StoreZNode(mob, z1, SweeperSuffix) != StoreZNode(mob, z2, MajorCompactionSuffix)
    ensures forall k :: CompactionZNode(mob, z1, c) != StoreZNode(mob, z2, k)
    ensures forall k :: StoreZNode(mob, z1, k) != mob
    ensures CompactionZNode(mob, z1, c) != mob
  {
    var lock, sweeper, mc := z1 + LockSuffix, z2 + SweeperSuffix, z2 + MajorCompactionSuffix;
    assert lock[|lock| - 1] == 'k';
    assert sweeper[|sweeper| - 1] == 'r';
    assert mc[|mc| - 1] == 'l';
    var sweeper1 := z1 + SweeperSuffix;
    assert sweeper1[|sweeper1| - 1] == 'r';
  }

  /** Stores with different znode names have different records of every kind. */
  lemma StoresApart(mob: Path, z1: string, z2: string, suffix: string)
    requires z1 != z2
    ensures StoreZNode(mob, z1, suffix) != StoreZNode(mob, z2, suffix)
    ensures forall c, d :: CompactionZNode(mob, z1, c) != CompactionZNode(mob, z2, d)
  {
    assert (z1 + suffix)[..|z1|] == z1 && (z2 + suffix)[..|z2|] == z2;
    var mc1, mc2 := z1 + MajorCompactionSuffix, z2 + MajorCompactionSuffix;
    assert mc1[..|z1|] == z1 && mc2[..|z2|] == z2;
  }

  /** The result of an operation that swallows coordination errors. */
  datatype Outcome<T> = Outcome(value: T, nodes: set<Path>)

  /** A create whose KeeperException is logged and swallowed (lockStore, addSweeperZNode):
      true exactly when the service answered and the znode was absent; the namespace
      changes only by gaining that znode, and not at all on an error. */
  function TryCreate(nodes: set<Path>, p: Path, up: bool): (r: Outcome<bool>)
    ensures r.value <==> up && p !in nodes
    ensures r.nodes == if r.value then nodes + {p} else nodes
  {
    var step := CreateEphemeral(nodes, p, up);
    Outcome(step.reply == Success(true), step.nodes)
  }

  /** A delete whose KeeperException is logged and swallowed (unlockStore,
      deleteSweeperZNode): afterwards the znode is absent whenever the service answered,
      whether or not it existed; nothing else changes. */
  function TryDelete(nodes: set<Path>, p: Path, up: bool): (r: set<Path>)
    ensures up ==> r == nodes - {p}
    ensures !up ==> r == nodes
  {
    DeleteNode(nodes, p, up).nodes
  }

  /** hasMajorCompactionChildren: the errors of the children listing propagate; a missing
      major-compaction znode counts as having no children. */
  function CompactionChildrenReply(nodes: set<Path>, mcPath: Path, up: bool): (r: Result<bool, KeeperError>)
    ensures !up ==> r == Failure(ConnectionLoss)
    ensures up ==> r == Success(mcPath in nodes && exists name :: JoinZNode(mcPath, name) in nodes)
  {
    match ListChildren(nodes, mcPath, up)
    case Failure(e) => Failure(e)
    case Success(children) =>
      ChildrenListed(nodes, mcPath);
      Success(children.Some? && children.value != {})
  }

  /** The children list of an existing znode is non-empty exactly when some znode has it
      as parent. */
  lemma ChildrenListed(nodes: set<Path>, p: Path)
    ensures p in nodes ==>
              (var children := ListChildren(nodes, p, true).value;
               children.Some? && children.value != {} <==> exists name :: JoinZNode(p, name) in nodes)
  {
    var names := set q | q in nodes && q.Child? && q.parent == p :: q.name;
    if names != {} {
      var x :| x in names;
      var q :| q in nodes && q.Child? && q.parent == p && q.name == x;
      assert q == JoinZNode(p, x);
    }
    if exists name :: JoinZNode(p, name) in nodes {
      var name :| JoinZNode(p, name) in nodes;
      assert name in names;
    }
  }

  /** addMajorCompactionZNode: creates the store's major-compaction znode, ignoring whether
      it already existed, then answers whether the child znode `compactionName` was
      created by this call. Both errors propagate; when only the second request fails, the
      parent znode has already been created. */
  function AddCompactionStep(nodes: set<Path>, mcPath: Path, compactionName: string,
                             upParent: bool, upChild: bool): (r: Step<bool>)
    ensures !upParent ==> r == Step(Failure(ConnectionLoss), nodes)
    ensures upParent && !upChild ==> r == Step(Failure(ConnectionLoss), nodes + {mcPath})
    ensures upParent && upChild ==>
              r == Step(Success(JoinZNode(mcPath, compactionName) !in nodes),
                        nodes + {mcPath, JoinZNode(mcPath, compactionName)})
  {
    var parent := CreateEphemeral(nodes, mcPath, upParent);
    match parent.reply
    case Failure(e) => Step(Failure(e), parent.nodes)
    case Success(_) => CreateEphemeral(parent.nodes, JoinZNode(mcPath, compactionName), upChild)
  }

  /** The constructor: opens a session, checks whether the `MOB` root under `baseZNode`
      exists and creates it (with its ancestors) only if it does not. Each of the three
      steps is answered or not (`sessionUp`, `existsUp`, `createUp`) and every error
      propagates. On success the reply is the root znode, which then exists; construction
      never removes a znode, adds nothing but the root and its ancestors (all of them when
      it creates the root), changes nothing when it fails, and changes nothing when the
      root already exists. */
  function ConstructStep(nodes: set<Path>, baseZNode: Path, sessionUp: bool, existsUp: bool,
                         createUp: bool): (r: Step<Path>)
    ensures r.reply.Success? <==> sessionUp && existsUp && (JoinZNode(baseZNode, MobRootName) in nodes || createUp)
    ensures r.reply.Success? ==> r.reply.value == JoinZNode(baseZNode, MobRootName) && r.reply.value in r.nodes
    ensures r.reply.Failure? ==> r.reply.error == ConnectionLoss && r.nodes == nodes
    ensures nodes <= r.nodes <= nodes + Lineage(JoinZNode(baseZNode, MobRootName))
    ensures JoinZNode(baseZNode, MobRootName) in nodes ==> r.nodes == nodes
    ensures r.reply.Success? && JoinZNode(baseZNode, MobRootName) !in nodes ==>
              r.nodes == nodes + Lineage(JoinZNode(baseZNode, MobRootName))
  {
    if !sessionUp then Step(Failure(ConnectionLoss), nodes)
    else
      var mob := JoinZNode(baseZNode, MobRootName);
      match CheckExists(nodes, mob, existsUp)
      case Failure(e) => Step(Failure(e), nodes)
      case Success(found) =>
        if found then Step(Success(mob), nodes)
        else
          var created := CreateWithParents(nodes, mob, createUp);
          match created.reply
          case Failure(e) => Step(Failure(e), created.nodes)
          case Success(_) => Step(Success(mob), created.nodes)
  }

  /** Constructing a second handle after a successful first one leaves the namespace as
      the first left it, whether or not the second succeeds. */
  lemma ConstructIdempotent(nodes: set<Path>, baseZNode: Path, flags1: (bool, bool, bool), flags2: (bool, bool, bool))
    requires ConstructStep(nodes, baseZNode, flags1.0, flags1.1, flags1.2).reply.Success?
    ensures var first := ConstructStep(nodes, baseZNode, flags1.0, flags1.1, flags1.2);
            ConstructStep(first.nodes, baseZNode, flags2.0, flags2.1, flags2.2).nodes == first.nodes
  {
  }

  /** Mutual exclusion: a store whose lock znode exists cannot be locked, and the state is
      left unchanged; of two lockStore calls in a row at most one returns true, and when
      the lock is free and both are answered, exactly the first does. */
  lemma LockStoreExclusive(nodes: set<Path>, lock: Path, up1: bool, up2: bool)
    ensures lock in nodes ==> TryCreate(nodes, lock, up1) == Outcome(false, nodes)
    ensures lock !in nodes ==>
              var first := TryCreate(nodes, lock, true);
              first.value && !TryCreate(first.nodes, lock, true).value
    ensures var first := TryCreate(nodes, lock, up1);
            !(first.value && TryCreate(first.nodes, lock, up2).value)
  {
  }

  /** After unlockStore is answered, the next answered lockStore succeeds. */
  lemma UnlockThenLock(nodes: set<Path>, lock: Path)
    ensures TryCreate(TryDelete(nodes, lock, true), lock, true).value
  {
  }

  /** isSweeperZNodeExist answers true right after an answered addSweeperZNode and false
      right after an answered deleteSweeperZNode. */
  lemma SweeperMarkerVisible(nodes: set<Path>, sweeper: Path)
    ensures CheckExists(TryCreate(nodes, sweeper, true).nodes, sweeper, true) == Success(true)
    ensures CheckExists(TryDelete(nodes, sweeper, true), sweeper, true) == Success(false)
  {
  }

  /** After an answered addMajorCompactionZNode the store has major-compaction children;
      after the only registered compaction is deleted it has none. */
  lemma CompactionSessionsTracked(nodes: set<Path>, mcPath: Path, compactionName: string)
    ensures CompactionChildrenReply(AddCompactionStep(nodes, mcPath, compactionName, true, true).nodes, mcPath, true)
            == Success(true)
    ensures (forall name :: JoinZNode(mcPath, name) in nodes ==> name == compactionName) ==>
            CompactionChildrenReply(DeleteNode(nodes, JoinZNode(mcPath, compactionName), true).nodes, mcPath, true)
            == Success(false)
  {
    var added := AddCompactionStep(nodes, mcPath, compactionName, true, true).nodes;
    assert JoinZNode(mcPath, compactionName) in added;
  }

  /** The lock operations of store `z` leave the root and every sweeper, major-compaction
      and compaction znode of every store `z2` as they were. */
  lemma LockOperationsKeepToLocks(nodes: set<Path>, mob: Path, z: string, z2: string, c: string, up: bool)
    ensures var lock := StoreZNode(mob, z, LockSuffix);
            var others := {mob, StoreZNode(mob, z2, SweeperSuffix), StoreZNode(mob, z2, MajorCompactionSuffix),
                           CompactionZNode(mob, z2, c)};
            && TryCreate(nodes, lock, up).nodes * others == nodes * others
            && TryDelete(nodes, lock, up) * others == nodes * others
  {
    KindsApart(mob, z, z2, c);
    KindsApart(mob, z2, z, c);
  }

  /** The sweeper operations of store `z` leave the root and every lock, major-compaction
      and compaction znode of every store `z2` as they were. */
  lemma SweeperOperationsKeepToSweepers(nodes: set<Path>, mob: Path, z: string, z2: string, c: string, up: bool)
    ensures var sweeper := StoreZNode(mob, z, SweeperSuffix);
            var others := {mob, StoreZNode(mob, z2, LockSuffix), StoreZNode(mob, z2, MajorCompactionSuffix),
                           CompactionZNode(mob, z2, c)};
            && TryCreate(nodes, sweeper, up).nodes * others == nodes * others
            && TryDelete(nodes, sweeper, up) * others == nodes * others
  {
    KindsApart(mob, z, z2, c);
    KindsApart(mob, z2, z, c);
  }

  /** The major-compaction operations of store `z` leave the root and every lock and
      sweeper znode of every store `z2` as they were; deleting compaction `c` of `z` also
      keeps every other compaction znode and every store's major-compaction znode. */
  lemma CompactionOperationsKeepToCompactions(nodes: set<Path>, mob: Path, z: string, c: string,
                                              z2: string, d: string, upParent: bool, upChild: bool,
                                              upDelete: bool)
    ensures var mc := StoreZNode(mob, z, MajorCompactionSuffix);
            var others := {mob, StoreZNode(mob, z2, LockSuffix), StoreZNode(mob, z2, SweeperSuffix)};
            && AddCompactionStep(nodes, mc, c, upParent, upChild).nodes * others == nodes * others
            && DeleteNode(nodes, CompactionZNode(mob, z, c), upDelete).nodes * others == nodes * others
    ensures z != z2 || c != d ==>
              var others := {mob, StoreZNode(mob, z2, MajorCompactionSuffix), CompactionZNode(mob, z2, d)};
              DeleteNode(nodes, CompactionZNode(mob, z, c), upDelete).nodes * others == nodes * others
  {
    KindsApart(mob, z, z2, c);
    KindsApart(mob, z2, z, c);
    if z != z2 {
      StoresApart(mob, z, z2, MajorCompactionSuffix);
    }
  }

  /** A client's handle on the MOB part of the coordination namespace. */
  class MobZookeeper {
    const zkw: ZooKeeperServer
    const mobZnode: Path
    const storeZNodeName: (string, string) -> string

    constructor (zkw: ZooKeeperServer, mobZnode: Path, storeZNodeName: (string, string) -> string)
      ensures this.zkw == zkw && this.mobZnode == mobZnode && this.storeZNodeName == storeZNodeName
    {
      this.zkw := zkw;
      this.mobZnode := mobZnode;
      this.storeZNodeName := storeZNodeName;
    }

    /** Builds a handle: the session is opened, the root `MOB` znode under `baseZNode` is
        created if absent, and every error propagates as a construction failure. */
    static method NewInstance(zkw: ZooKeeperServer, baseZNode: Path, storeZNodeName: (string, string) -> string,
                              sessionUp: bool, existsUp: bool, createUp: bool)
      returns (r: Result<MobZookeeper, KeeperError>)
      modifies zkw
      ensures var spec := ConstructStep(old(zkw.nodes), baseZNode, sessionUp, existsUp, createUp);
              && zkw.nodes == spec.nodes
              && (match r
                  case Success(m) => spec.reply == Success(m.mobZnode)
                  case Failure(e) => spec.reply == Failure(e))
      ensures r.Success? ==> fresh(r.value) && r.value.zkw == zkw && r.value.storeZNodeName == storeZNodeName
    {
      if !sessionUp {
        return Failure(ConnectionLoss);
      }
      var mob := JoinZNode(baseZNode, MobRootName);
      var found := zkw.Exists(mob, existsUp);
      if found.Failure? {
        return Failure(found.error);
      }
      if !found.value {
        var created := zkw.CreateWithParentsOf(mob, createUp);
        if created.Failure? {
          return Failure(created.error);
        }
      }
      var m := new MobZookeeper(zkw, mob, storeZNodeName);
      return Success(m);
    }

    /** The znode of the record kind `suffix` of store `storeName` of table `tableName`. */
    function ZNode(tableName: string, storeName: string, suffix: string): Path {
      StoreZNode(mobZnode, storeZNodeName(tableName, storeName), suffix)
    }

    /** Tries to take the store's lock; never raises. */
    method LockStore(tableName: string, storeName: string, up: bool) returns (locked: bool)
      modifies zkw
      ensures Outcome(locked, zkw.nodes) == TryCreate(old(zkw.nodes), ZNode(tableName, storeName, LockSuffix), up)
    {
      var znodeName := storeZNodeName(tableName, storeName);
      locked := false;
      var created := zkw.CreateEphemeralNodeAndWatch(JoinZNode(mobZnode, znodeName + LockSuffix), up);
      if created.Success? {
        locked := created.value;
      }
    }

    /** Releases the store's lock; never raises, even when the lock znode is absent. */
    method UnlockStore(tableName: string, storeName: string, up: bool)
      modifies zkw
      ensures zkw.nodes == TryDelete(old(zkw.nodes), ZNode(tableName, storeName, LockSuffix), up)
    {
      var znodeName := storeZNodeName(tableName, storeName);
      var _ := zkw.Delete(JoinZNode(mobZnode, znodeName + LockSuffix), up);
    }

    /** Tries to raise the store's sweeper marker; never raises. */
    method AddSweeperZNode(tableName: string, storeName: string, up: bool) returns (add: bool)
      modifies zkw
      ensures Outcome(add, zkw.nodes) == TryCreate(old(zkw.nodes), ZNode(tableName, storeName, SweeperSuffix), up)
    {
      add := false;
      var znodeName := storeZNodeName(tableName, storeName);
      var created := zkw.CreateEphemeralNodeAndWatch(JoinZNode(mobZnode, znodeName + SweeperSuffix), up);
      if created.Success? {
        add := created.value;
      }
    }

    /** Lowers the store's sweeper marker; never raises. */
    method DeleteSweeperZNode(tableName: string, storeName: string, up: bool)
      modifies zkw
      ensures zkw.nodes == TryDelete(old(zkw.nodes), ZNode(tableName, storeName, SweeperSuffix), up)
    {
      var znodeName := storeZNodeName(tableName, storeName);
      var _ := zkw.Delete(JoinZNode(mobZnode, znodeName + SweeperSuffix), up);
    }

    /** Whether the store's sweeper marker exists; errors propagate. */
    method IsSweeperZNodeExist(tableName: string, storeName: string, up: bool) returns (r: Result<bool, KeeperError>)
      ensures up ==> r == Success(ZNode(tableName, storeName, SweeperSuffix) in zkw.nodes)
      ensures !up ==> r == Failure(ConnectionLoss)
    {
      var znodeName := storeZNodeName(tableName, storeName);
      r := zkw.Exists(JoinZNode(mobZnode, znodeName + SweeperSuffix), up);
    }

    /** Whether any major compaction is registered for the store; errors propagate. */
    method HasMajorCompactionChildren(tableName: string, storeName: string, up: bool)
      returns (r: Result<bool, KeeperError>)
      ensures r == CompactionChildrenReply(zkw.nodes, ZNode(tableName, storeName, MajorCompactionSuffix), up)
    {
      var znodeName := storeZNodeName(tableName, storeName);
      var mcPath := JoinZNode(mobZnode, znodeName + MajorCompactionSuffix);
      var children := zkw.ListChildrenNoWatch(mcPath, up);
      if children.Failure? {
        return Failure(children.error);
      }
      return Success(children.value.Some? && children.value.value != {});
    }

    /** Registers the major compaction `compactionName` of the store; errors propagate.
        `upParent` and `upChild` say whether each of its two creates is answered. */
    method AddMajorCompactionZNode(tableName: string, storeName: string, compactionName: string,
                                   upParent: bool, upChild: bool) returns (r: Result<bool, KeeperError>)
      modifies zkw
      ensures Step(r, zkw.nodes) ==
              AddCompactionStep(old(zkw.nodes), ZNode(tableName, storeName, MajorCompactionSuffix),
                                compactionName, upParent, upChild)
    {
      var znodeName := storeZNodeName(tableName, storeName);
      var mcPath := JoinZNode(mobZnode, znodeName + MajorCompactionSuffix);
      var parent := zkw.CreateEphemeralNodeAndWatch(mcPath, upParent);
      if parent.Failure? {
        return Failure(parent.error);
      }
      var eachMcPath := JoinZNode(mcPath, compactionName);
      r := zkw.CreateEphemeralNodeAndWatch(eachMcPath, upChild);
    }

    /** Removes the znode of the major compaction `compactionName` of the store; errors,
        including a missing znode, propagate. */
    method DeleteMajorCompactionZNode(tableName: string, storeName: string, compactionName: string, up: bool)
      returns (r: Result<(), KeeperError>)
      modifies zkw
      ensures Step(r, zkw.nodes) ==
              DeleteNode(old(zkw.nodes), CompactionZNode(mobZnode, storeZNodeName(tableName, storeName), compactionName), up)
      ensures var child := CompactionZNode(mobZnode, storeZNodeName(tableName, storeName), compactionName);
              && (r.Success? <==> up && child in old(zkw.nodes))
              && (up && child !in old(zkw.nodes) ==> r == Failure(NoNode))
              && zkw.nodes == if r.Success? then old(zkw.nodes) - {child} else old(zkw.nodes)
    {
      var znodeName := storeZNodeName(tableName, storeName);
      var mcPath := JoinZNode(mobZnode, znodeName + MajorCompactionSuffix);
      var eachMcPath := JoinZNode(mcPath, compactionName);
      r := zkw.Delete(eachMcPath, up);
    }
  }
}
