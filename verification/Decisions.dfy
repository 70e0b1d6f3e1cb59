/**
 The decision table and its lineage query.  A decision's id is its position in
 creation order; ids are opaque to callers, who only ever compare them.
 */
module Decisions {
  import opened Wrappers

  type Workspace = string

  datatype Status = Active | Superseded | Reversed | Draft

  datatype Decision = Decision(workspace: Option<Workspace>, status: Status, supersedes: Option<nat>,
        supersededBy: Option<nat>)

  datatype NotFound = NotFound(id: nat)

  const DEPTH_LIMIT := 10

  /** The row filter of every query: an unscoped caller sees all rows. */
  predicate Visible(nodes: seq<Decision>, id: nat, workspace: Option<Workspace>) {
    id < |nodes| && (workspace == None || nodes[id].workspace == workspace)
  }

  function Create(nodes: seq<Decision>, workspace: Option<Workspace>, status: Status,
        supersedes: Option<nat>): Result<seq<Decision>, NotFound> {
    if supersedes.Some? && !Visible(nodes, supersedes.value, workspace) then Err(NotFound(supersedes.value))
    else
      var inserted := nodes + [Decision(workspace, status, supersedes, None)];
      if supersedes == None then Ok(inserted)
      else Ok(inserted[supersedes.value := inserted[supersedes.value].(supersededBy := Some(|nodes|),
          status := Superseded)])
  }

  function UpdateStatus(nodes: seq<Decision>, id: nat, status: Status,
        workspace: Option<Workspace>): Result<seq<Decision>, NotFound> {
    if !Visible(nodes, id, workspace) then Err(NotFound(id)) else Ok(nodes[id := nodes[id].(status := status)])
  }

  class DecisionStore {
    var nodes: seq<Decision>

    constructor ()
      ensures nodes == []
    {
      nodes := [];
    }

    method CreateDecision(workspace: Option<Workspace>, status: Status, supersedes: Option<nat>)
      returns (r: Result<nat, NotFound>)
      modifies this
      ensures match Create(old(nodes), workspace, status, supersedes)
              case Ok(after) => nodes == after && r == Ok(|old(nodes)|)
              case Err(e) => nodes == old(nodes) && r == Err(e)
    {
      if supersedes.Some? && !Visible(nodes, supersedes.value, workspace) {
        return Err(NotFound(supersedes.value));
      }
      var id := |nodes|;
      nodes := nodes + [Decision(workspace, status, supersedes, None)];
      if supersedes.Some? {
        var old' := supersedes.value;
        nodes := nodes[old' := nodes[old'].(supersededBy := Some(id), status := Superseded)];
      }
      return Ok(id);
    }

    method SetStatus(id: nat, status: Status, workspace: Option<Workspace>) returns (r: Result<Decision, NotFound>)
      modifies this
      ensures match UpdateStatus(old(nodes), id, status, workspace)
              case Ok(after) => nodes == after && r == Ok(after[id])
              case Err(e) => nodes == old(nodes) && r == Err(e)
    {
      if !Visible(nodes, id, workspace) {
        return Err(NotFound(id));
      }
      nodes := nodes[id := nodes[id].(status := status)];
      return Ok(nodes[id]);
    }
  }

  // ----- what every run keeps -----

  /** `y` superseded `x`, and no later decision did. */
  ghost predicate LatestSuccessor(nodes: seq<Decision>, x: nat, y: nat) {
    && y < |nodes| && nodes[y].supersedes == Some(x)
    && forall z | 0 <= z < |nodes| && nodes[z].supersedes == Some(x) :: z <= y
  }

  /** The links of one decision: back in creation order, and forward exactly to its latest successor. */
  ghost predicate LinksOk(nodes: seq<Decision>, x: nat)
    requires x < |nodes|
  {
    && (nodes[x].supersedes.Some? ==> nodes[x].supersedes.value < x)
    && match nodes[x].supersededBy
       case Some(y) => x < y && LatestSuccessor(nodes, x, y)
       case None => forall z | 0 <= z < |nodes| :: nodes[z].supersedes != Some(x)
  }

  ghost predicate Sound(nodes: seq<Decision>) {
    forall x | 0 <= x < |nodes| :: LinksOk(nodes, x)
  }

  lemma CreateKeepsSound(nodes: seq<Decision>, workspace: Option<Workspace>, status: Status, supersedes: Option<nat>)
    requires Sound(nodes)
    ensures var r := Create(nodes, workspace, status, supersedes); r.Ok? ==> Sound(r.value)
  {
    var r := Create(nodes, workspace, status, supersedes);
    if r.Ok? {
      var after, n := r.value, |nodes|;
      assert forall z | 0 <= z < n :: after[z].supersedes == nodes[z].supersedes;
      forall x | 0 <= x < |after| ensures LinksOk(after, x) {
        if x < n { assert LinksOk(nodes, x); }
        if x == n {
          forall z | 0 <= z < |after| ensures after[z].supersedes != Some(n) {
            if z < n { assert LinksOk(nodes, z); }
          }
        }
      }
    }
  }

  lemma UpdateKeepsSound(nodes: seq<Decision>, id: nat, status: Status, workspace: Option<Workspace>)
    requires Sound(nodes)
    ensures var r := UpdateStatus(nodes, id, status, workspace); r.Ok? ==> Sound(r.value)
  {
    var r := UpdateStatus(nodes, id, status, workspace);
    if r.Ok? {
      assert forall z | 0 <= z < |nodes| :: r.value[z].supersedes == nodes[z].supersedes
               && r.value[z].supersededBy == nodes[z].supersededBy;
      forall x | 0 <= x < |nodes| ensures LinksOk(r.value, x) { assert LinksOk(nodes, x); }
    }
  }

  datatype Op =
    | CreateOp(workspace: Option<Workspace>, status: Status, supersedes: Option<nat>)
    | UpdateOp(id: nat, newStatus: Status, caller: Option<Workspace>)

  function Apply(nodes: seq<Decision>, op: Op): seq<Decision> {
    var r := match op
      case CreateOp(workspace, status, supersedes) => Create(nodes, workspace, status, supersedes)
      case UpdateOp(id, status, caller) => UpdateStatus(nodes, id, status, caller);
    if r.Ok? then r.value else nodes
  }

  function Run(nodes: seq<Decision>, ops: seq<Op>): seq<Decision>
    decreases |ops|
  {
    if ops == [] then nodes else Run(Apply(nodes, ops[0]), ops[1..])
  }

  /** Over every run, links back go to older decisions and links forward exactly to the latest successor. */
  lemma {:induction false} RunKeepsSound(nodes: seq<Decision>, ops: seq<Op>)
    requires Sound(nodes)
    ensures Sound(Run(nodes, ops))
    decreases |ops|
  {
    if ops != [] {
      match ops[0] {
        case CreateOp(workspace, status, supersedes) => CreateKeepsSound(nodes, workspace, status, supersedes);
        case UpdateOp(id, status, caller) => UpdateKeepsSound(nodes, id, status, caller);
      }
      RunKeepsSound(Apply(nodes, ops[0]), ops[1..]);
    }
  }

  // ----- the lineage query -----

  datatype Direction = Back | Forward

  function Link(nodes: seq<Decision>, x: nat, direction: Direction): Option<nat>
    requires x < |nodes|
  {
    if direction == Back then nodes[x].supersedes else nodes[x].supersededBy
  }

  /** The neighbour the recursive query joins next, if it is visible. */
  function Next(nodes: seq<Decision>, x: nat, direction: Direction, workspace: Option<Workspace>): (r: Option<nat>)
    requires x < |nodes|
    ensures r.Some? ==> Visible(nodes, r.value, workspace) && Link(nodes, x, direction) == r
  {
    var link := Link(nodes, x, direction);
    if link.Some? && Visible(nodes, link.value, workspace) then link else None
  }

  /** The recursive query, at most `depth` rows deep; it ends for every table, sound or not. */
  function Walk(nodes: seq<Decision>, x: nat, direction: Direction, workspace: Option<Workspace>, depth: nat): seq<nat>
    requires x < |nodes|
    decreases depth
  {
    if depth == 0 then []
    else
      match Next(nodes, x, direction, workspace)
      case None => []
      case Some(y) => [y] + Walk(nodes, y, direction, workspace, depth - 1)
  }

  datatype Lineage = Lineage(ancestors: seq<nat>, descendants: seq<nat>, depth: nat, depthLimitReached: bool)

  function GetLineage(nodes: seq<Decision>, id: nat, workspace: Option<Workspace>): Result<Lineage, NotFound> {
    if !Visible(nodes, id, workspace) then Err(NotFound(id))
    else
      var ancestors, descendants := Walk(nodes, id, Back, workspace, DEPTH_LIMIT),
          Walk(nodes, id, Forward, workspace, DEPTH_LIMIT);
      var depth := if |ancestors| >= |descendants| then |ancestors| else |descendants|;
      Ok(Lineage(ancestors, descendants, depth, depth >= DEPTH_LIMIT))
  }

  /** The whole chain in one direction; it ends because the links of a sound table never cycle. */
  ghost function FullChain(nodes: seq<Decision>, x: nat, direction: Direction, workspace: Option<Workspace>): seq<nat>
    requires Sound(nodes) && x < |nodes|
    decreases if direction == Back then x else |nodes| - x
  {
    assert LinksOk(nodes, x);
    match Next(nodes, x, direction, workspace)
    case None => []
    case Some(y) => [y] + FullChain(nodes, y, direction, workspace)
  }

  lemma {:induction false} WalkIsChainPrefix(nodes: seq<Decision>, x: nat, direction: Direction,
        workspace: Option<Workspace>, depth: nat)
    requires Sound(nodes) && x < |nodes|
    ensures var chain := FullChain(nodes, x, direction, workspace);
            Walk(nodes, x, direction, workspace, depth) == chain[..if |chain| < depth then |chain| else depth]
    decreases depth
  {
    assert LinksOk(nodes, x);
    var next := Next(nodes, x, direction, workspace);
    if depth > 0 && next.Some? { WalkIsChainPrefix(nodes, next.value, direction, workspace, depth - 1); }
  }

  /** In a sound table the query lists exactly the first ten links each way, and says whether ten were reached. */
  lemma LineageIsExact(nodes: seq<Decision>, id: nat, workspace: Option<Workspace>)
    requires Sound(nodes) && Visible(nodes, id, workspace)
    ensures var r := GetLineage(nodes, id, workspace);
            var back, forth := FullChain(nodes, id, Back, workspace), FullChain(nodes, id, Forward, workspace);
            && r.Ok?
            && r.value.ancestors == back[..if |back| < 10 then |back| else 10]
            && r.value.descendants == forth[..if |forth| < 10 then |forth| else 10]
            && (r.value.depthLimitReached <==> |back| >= 10 || |forth| >= 10)
            && r.value.depth == (if |r.value.ancestors| >= |r.value.descendants| then |r.value.ancestors|
                                 else |r.value.descendants|)
  {
    WalkIsChainPrefix(nodes, id, Back, workspace, DEPTH_LIMIT);
    WalkIsChainPrefix(nodes, id, Forward, workspace, DEPTH_LIMIT);
  }

  /** Ancestors strictly decrease and descendants strictly increase creation order, and all are visible. */
  lemma {:induction false} WalkIsMonotone(nodes: seq<Decision>, x: nat, direction: Direction,
        workspace: Option<Workspace>, depth: nat, i: nat)
    requires Sound(nodes) && x < |nodes| && i < |Walk(nodes, x, direction, workspace, depth)|
    ensures var w := Walk(nodes, x, direction, workspace, depth);
            var before := if i == 0 then x else w[i - 1];
            && Visible(nodes, w[i], workspace)
            && before < |nodes| && Link(nodes, before, direction) == Some(w[i])
            && (if direction == Back then w[i] < before else before < w[i])
            && (direction == Forward ==> x < w[i])
    decreases i
  {
    assert LinksOk(nodes, x);
    var y := Next(nodes, x, direction, workspace).value;
    if i > 0 {
      WalkIsMonotone(nodes, y, direction, workspace, depth - 1, i - 1);
    }
  }

  /** Each descendant's visible predecessor is the entry listed before it. */
  lemma StepBack(nodes: seq<Decision>, x: nat, workspace: Option<Workspace>, limit: nat, j: nat)
    requires Sound(nodes) && Visible(nodes, x, workspace) && j < |Walk(nodes, x, Forward, workspace, limit)|
    ensures var forth := Walk(nodes, x, Forward, workspace, limit);
            forth[j] < |nodes| && Next(nodes, forth[j], Back, workspace) == Some(if j == 0 then x else forth[j - 1])
  {
    var forth := Walk(nodes, x, Forward, workspace, limit);
    WalkIsMonotone(nodes, x, Forward, workspace, limit, j);
    assert LinksOk(nodes, if j == 0 then x else forth[j - 1]);
    if j > 0 { WalkIsMonotone(nodes, x, Forward, workspace, limit, j - 1); }
  }

  /**
   Walking back from the j-th descendant retraces the walk forward and reaches the queried decision
   after j + 1 steps.
   */
  lemma {:induction false} DescendantsLeadBack(nodes: seq<Decision>, x: nat, workspace: Option<Workspace>,
        limit: nat, j: nat, k: nat, depth: nat)
    requires Sound(nodes) && Visible(nodes, x, workspace)
    requires k <= j < |Walk(nodes, x, Forward, workspace, limit)| && k < depth
    ensures var forth := Walk(nodes, x, Forward, workspace, limit);
            && forth[j] < |nodes|
            && var back := Walk(nodes, forth[j], Back, workspace, depth);
               k < |back| && back[k] == if k == j then x else forth[j - 1 - k]
    decreases k
  {
    StepBack(nodes, x, workspace, limit, j);
    if k > 0 { DescendantsLeadBack(nodes, x, workspace, limit, j - 1, k - 1, depth - 1); }
  }

  /** Every listed descendant lists the queried decision among its own ancestors. */
  lemma LineageIsConsistent(nodes: seq<Decision>, x: nat, workspace: Option<Workspace>, j: nat)
    requires Sound(nodes) && Visible(nodes, x, workspace)
    requires j < |GetLineage(nodes, x, workspace).value.descendants|
    ensures var d := GetLineage(nodes, x, workspace).value.descendants[j];
            && Visible(nodes, d, workspace)
            && j < |GetLineage(nodes, d, workspace).value.ancestors|
                 && GetLineage(nodes, d, workspace).value.ancestors[j] == x
  {
    WalkIsMonotone(nodes, x, Forward, workspace, DEPTH_LIMIT, j);
    WalkIsChainPrefix(nodes, x, Forward, workspace, DEPTH_LIMIT);
    DescendantsLeadBack(nodes, x, workspace, DEPTH_LIMIT, j, j, DEPTH_LIMIT);
  }

  /**
   The other direction holds for the latest successor only: an earlier one keeps its ancestor but is
   no longer listed by it.
   */
  lemma OnlyLatestSuccessorIsListed(nodes: seq<Decision>, x: nat, y: nat, workspace: Option<Workspace>)
    requires Sound(nodes) && Visible(nodes, x, workspace) && Visible(nodes, y, workspace)
               && nodes[y].supersedes == Some(x)
    ensures GetLineage(nodes, y, workspace).value.ancestors[..1] == [x]
    ensures y in GetLineage(nodes, x, workspace).value.descendants <==> LatestSuccessor(nodes, x, y)
  {
    assert LinksOk(nodes, x) && LinksOk(nodes, y);
    var forth := Walk(nodes, x, Forward, workspace, DEPTH_LIMIT);
    assert Next(nodes, y, Back, workspace) == Some(x);
    var latest := nodes[x].supersededBy.value;
    if LatestSuccessor(nodes, x, y) {
      assert latest == y && Next(nodes, x, Forward, workspace) == Some(y);
      assert forth[0] == y;
    } else if y in forth {
      var j :| 0 <= j < |forth| && forth[j] == y;
      WalkIsMonotone(nodes, x, Forward, workspace, DEPTH_LIMIT, 0);
      if j > 0 { ForwardGrows(nodes, x, workspace, DEPTH_LIMIT, j); }
    }
  }

  lemma {:induction false} ForwardGrows(nodes: seq<Decision>, x: nat, workspace: Option<Workspace>, depth: nat, j: nat)
    requires Sound(nodes) && x < |nodes| && 0 < j < |Walk(nodes, x, Forward, workspace, depth)|
    ensures var w := Walk(nodes, x, Forward, workspace, depth); w[0] < w[j]
  {
    WalkIsMonotone(nodes, x, Forward, workspace, depth, j);
    if j > 1 { ForwardGrows(nodes, x, workspace, depth, j - 1); }
  }

  // ----- what a create and an update record -----

  /**
   A create is refused exactly for a superseded decision the caller cannot see.
   Otherwise both ends of a supersession are recorded: the new decision points
   back, and the old one points forward and is superseded; nothing else changes.
   */
  lemma CreateRecordsSupersession(nodes: seq<Decision>, workspace: Option<Workspace>, status: Status,
        supersedes: Option<nat>)
    ensures var r, n := Create(nodes, workspace, status, supersedes), |nodes|;
            && (r == Err(NotFound(if supersedes.Some? then supersedes.value else 0)) <==> r.Err?)
            && (r.Err? <==>
                  supersedes.Some?
                  && (supersedes.value >= n || (workspace.Some? && nodes[supersedes.value].workspace != workspace)))
            && (r.Ok? ==>
                  && |r.value| == n + 1
                  && r.value[n] == Decision(workspace, status, supersedes, None)
                  && (supersedes.Some? ==>
                        r.value[supersedes.value] == nodes[supersedes.value].(supersededBy := Some(n),
                                                                              status := Superseded))
                  && forall i | 0 <= i < n && supersedes != Some(i) :: r.value[i] == nodes[i])
  {}

  /** An update is refused exactly for a decision the caller cannot see, and otherwise changes that status alone. */
  lemma UpdateSetsStatusOnly(nodes: seq<Decision>, id: nat, status: Status, workspace: Option<Workspace>)
    ensures var r := UpdateStatus(nodes, id, status, workspace);
            && (r.Err? <==> id >= |nodes| || (workspace.Some? && nodes[id].workspace != workspace))
            && (r.Err? ==> r.error == NotFound(id))
            && (r.Ok? ==>
                  && |r.value| == |nodes| && r.value[id] == nodes[id].(status := status)
                  && forall i | 0 <= i < |nodes| && i != id :: r.value[i] == nodes[i])
  {}

  /** Where only statuses differ, the new table's walk back over the old rows is that of the old table. */
  lemma {:induction false} WalkBackUnchanged(nodes: seq<Decision>, after: seq<Decision>, x: nat,
        workspace: Option<Workspace>, depth: nat)
    requires Sound(nodes) && x < |nodes| <= |after|
    requires forall i | 0 <= i < |nodes| ::
               after[i].supersedes == nodes[i].supersedes && after[i].workspace == nodes[i].workspace
    ensures Walk(after, x, Back, workspace, depth) == Walk(nodes, x, Back, workspace, depth)
    decreases depth
  {
    assert LinksOk(nodes, x);
    var next := Next(nodes, x, Back, workspace);
    assert Next(after, x, Back, workspace) == next;
    if depth > 0 && next.Some? { WalkBackUnchanged(nodes, after, next.value, workspace, depth - 1); }
  }

  /**
   After a decision supersedes `x`, its creator finds `x` as its first ancestor
   and it as the first and only descendant of `x`, in every table; in a sound
   one the ancestors of `x` follow, as they were before.
   */
  lemma SupersessionIsListed(nodes: seq<Decision>, workspace: Option<Workspace>, status: Status, x: nat)
    requires Create(nodes, workspace, status, Some(x)).Ok?
    ensures var after, n := Create(nodes, workspace, status, Some(x)).value, |nodes|;
            var new', old' := GetLineage(after, n, workspace), GetLineage(after, x, workspace);
            && new'.Ok? && old'.Ok?
            && new'.value.ancestors[..1] == [x] && new'.value.descendants == []
            && old'.value.descendants == [n]
            && (Sound(nodes) ==> new'.value.ancestors == [x] + Walk(nodes, x, Back, workspace, 9))
  {
    var after, n := Create(nodes, workspace, status, Some(x)).value, |nodes|;
    assert Next(after, n, Back, workspace) == Some(x);
    assert Next(after, x, Forward, workspace) == Some(n);
    assert Walk(after, n, Forward, workspace, DEPTH_LIMIT - 1) == [];
    assert Walk(after, x, Forward, workspace, DEPTH_LIMIT) == [n] + Walk(after, n, Forward, workspace, DEPTH_LIMIT - 1);
    if Sound(nodes) { WalkBackUnchanged(nodes, after, x, workspace, DEPTH_LIMIT - 1); }
  }

  /** No call ever removes a decision, moves it to another workspace or changes which one it superseded. */
  lemma {:induction false} RunKeepsHistory(nodes: seq<Decision>, ops: seq<Op>, x: nat)
    requires x < |nodes|
    ensures var end := Run(nodes, ops);
            |nodes| <= |end| && end[x].supersedes == nodes[x].supersedes && end[x].workspace == nodes[x].workspace
    decreases |ops|
  {
    if ops != [] {
      match ops[0] {
        case CreateOp(workspace, status, supersedes) => CreateRecordsSupersession(nodes, workspace, status, supersedes);
        case UpdateOp(id, status, caller) => UpdateSetsStatusOnly(nodes, id, status, caller);
      }
      RunKeepsHistory(Apply(nodes, ops[0]), ops[1..], x);
    }
  }
}
