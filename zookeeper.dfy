/**
 * The coordination service as the MOB extension uses it: a tree of znodes, and the few
 * client primitives that are called on it. Each primitive is a pure function of the set
 * of existing znodes, the znode it acts on and `up`, which says whether the request
 * reaches the service (when it does not, the client raises a connection-loss
 * KeeperException and nothing changes; a connection loss reported after the service
 * applied the request is not modelled).
 */
module ZooKeeper {
  import opened Wrappers

  /** A znode path: the root, or one named element below a parent path. */
  datatype Path = Root | Child(parent: Path, name: string)

  /** Appends one path element to `prefix`. */
  function JoinZNode(prefix: Path, name: string): Path {
    Child(prefix, name)
  }

  /** The KeeperException codes the model distinguishes. */
  datatype KeeperError = ConnectionLoss | NoNode

  /** A reply together with the set of znodes after the request. */
  datatype Step<T> = Step(reply: Result<T, KeeperError>, nodes: set<Path>)

  /** `p` and every ancestor of `p` below the root. */
  function Lineage(p: Path): set<Path> {
    if p == Root then {} else {p} + Lineage(p.parent)
  }

  /** Creating an ephemeral znode: answers whether this request created it; a znode that
      already exists is answered with `false`, not with an exception. */
  function CreateEphemeral(nodes: set<Path>, p: Path, up: bool): Step<bool> {
    if !up then Step(Failure(ConnectionLoss), nodes)
    else Step(Success(p !in nodes), nodes + {p})
  }

  /** Deleting a znode; deleting one that does not exist raises NoNode. */
  function DeleteNode(nodes: set<Path>, p: Path, up: bool): Step<()> {
    if !up then Step(Failure(ConnectionLoss), nodes)
    else if p !in nodes then Step(Failure(NoNode), nodes)
    else Step(Success(()), nodes - {p})
  }

  /** The existence check: whether `p` is a znode. */
  function CheckExists(nodes: set<Path>, p: Path, up: bool): Result<bool, KeeperError> {
    if !up then Failure(ConnectionLoss) else Success(p in nodes)
  }

  /** The names of the children of `p`, or `None` (a null list) when `p` does not exist. */
  function ListChildren(nodes: set<Path>, p: Path, up: bool): Result<Option<set<string>>, KeeperError> {
    if !up then Failure(ConnectionLoss)
    else if p !in nodes then Success(None)
    else Success(Some(set q | q in nodes && q.Child? && q.parent == p :: q.name))
  }

  /** Creating `p` together with every missing ancestor; existing znodes are left alone. */
  function CreateWithParents(nodes: set<Path>, p: Path, up: bool): Step<()> {
    if !up then Step(Failure(ConnectionLoss), nodes)
    else Step(Success(()), nodes + Lineage(p))
  }

  /** The znodes of one coordination service, shared by every client session. */
  class ZooKeeperServer {
    var nodes: set<Path>

    constructor (nodes: set<Path>)
      ensures this.nodes == nodes
    {
      this.nodes := nodes;
    }

    method CreateEphemeralNodeAndWatch(p: Path, up: bool) returns (created: Result<bool, KeeperError>)
      modifies this
      ensures Step(created, nodes) == CreateEphemeral(old(nodes), p, up)
    {
      var step := CreateEphemeral(nodes, p, up);
      nodes := step.nodes;
      created := step.reply;
    }

    method Delete(p: Path, up: bool) returns (done: Result<(), KeeperError>)
      modifies this
      ensures Step(done, nodes) == DeleteNode(old(nodes), p, up)
    {
      var step := DeleteNode(nodes, p, up);
      nodes := step.nodes;
      done := step.reply;
    }

    method Exists(p: Path, up: bool) returns (found: Result<bool, KeeperError>)
      ensures found == CheckExists(nodes, p, up)
    {
      found := CheckExists(nodes, p, up);
    }

    method ListChildrenNoWatch(p: Path, up: bool) returns (children: Result<Option<set<string>>, KeeperError>)
      ensures children == ListChildren(nodes, p, up)
    {
      children := ListChildren(nodes, p, up);
    }

    method CreateWithParentsOf(p: Path, up: bool) returns (done: Result<(), KeeperError>)
      modifies this
      ensures Step(done, nodes) == CreateWithParents(old(nodes), p, up)
    {
      var step := CreateWithParents(nodes, p, up);
      nodes := step.nodes;
      done := step.reply;
    }
  }
}
