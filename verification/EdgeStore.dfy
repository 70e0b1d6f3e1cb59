/**
 The table of hub-to-hub edges, the human decisions on it and the producer
 that adds inferred rows.  An edge's id is its position in the table; hub ids
 are ordered values in canonical spelling; confidences are in thousandths.
 */
module EdgeStore {
  import opened Wrappers

  type HubId = nat
  type Workspace = string

  const ALL_TYPES := {"parent", "related", "duplicate", "overlaps", "supports", "part_of", "contradicts"}
  const VALID_STATUSES := {"inferred", "manual", "approved", "rejected", "needs_review", "archived"}
  const VALID_ORIGINS := {"manual", "inferred_approved", "inferred_rejected", "ai_suggested", "migration_localStorage"}

  /** Both endpoints in order, and the type: the same for an edge and its reverse, whatever the type. */
  datatype EdgeKey = EdgeKey(low: HubId, high: HubId, kind: string)

  function ComputeEdgeKey(source: HubId, target: HubId, kind: string): EdgeKey {
    if source <= target then EdgeKey(source, target, kind) else EdgeKey(target, source, kind)
  }

  lemma KeyForgetsDirection(a: HubId, b: HubId, c: HubId, d: HubId, kind: string, kind': string)
    ensures ComputeEdgeKey(a, b, kind) == ComputeEdgeKey(c, d, kind') <==>
              kind == kind' && ((a == c && b == d) || (a == d && b == c))
  {}

  datatype Details = Details(confidence: Option<int>, reason: Option<string>, note: Option<string>,
        createdBy: Option<string>)

  datatype Edge = Edge(source: HubId, target: HubId, workspace: Option<Workspace>, kind: string, status: string,
        origin: string, details: Details, key: EdgeKey, archived: bool)

  datatype EdgeError = InvalidValue | HubNotInWorkspace | ActiveKeyExists | ConstraintViolation

  /** The hubs table: each hub's workspace, if it has one. */
  type Hubs = map<HubId, Option<Workspace>>

  /** Two distinct hubs of the workspace; an unscoped caller is not checked. */
  predicate HubsInWorkspace(hubs: Hubs, source: HubId, target: HubId, workspace: Option<Workspace>) {
    workspace.Some? ==>
      && source != target && source in hubs && target in hubs
      && hubs[source] == workspace && hubs[target] == workspace
  }

  /** The table's own constraints: the foreign keys and the column checks. */
  predicate RowAllowed(hubs: Hubs, e: Edge) {
    && e.source in hubs && e.target in hubs
    && e.kind in ALL_TYPES && e.status in VALID_STATUSES && e.origin in VALID_ORIGINS
    && (e.details.confidence.Some? ==> 0 <= e.details.confidence.value <= 1000)
  }

  /** The row the partial unique index finds for a key. */
  function ActiveAt(edges: seq<Edge>, key: EdgeKey): (r: Option<nat>)
    ensures r.Some? ==> r.value < |edges| && edges[r.value].key == key && !edges[r.value].archived
    ensures r.None? ==> forall i | 0 <= i < |edges| :: edges[i].key == key ==> edges[i].archived
  {
    if edges == [] then None
    else
      var last := |edges| - 1;
      if edges[last].key == key && !edges[last].archived then Some(last) else ActiveAt(edges[..last], key)
  }

  predicate Scoped(e: Edge, workspace: Option<Workspace>) {
    workspace.Some? ==> e.workspace == workspace
  }

  // ----- what each call does -----

  function Create(hubs: Hubs, edges: seq<Edge>, source: HubId, target: HubId, kind: string, status: string,
        origin: string, details: Details, workspace: Option<Workspace>): Result<seq<Edge>, EdgeError> {
    var e := Edge(source, target, workspace, kind, status, origin, details, ComputeEdgeKey(source, target, kind),
        false);
    if kind !in ALL_TYPES || status !in VALID_STATUSES || origin !in VALID_ORIGINS then Err(InvalidValue)
    else if !HubsInWorkspace(hubs, source, target, workspace) then Err(HubNotInWorkspace)
    else if !RowAllowed(hubs, e) then Err(ConstraintViolation)
    else if ActiveAt(edges, e.key).Some? then Err(ActiveKeyExists)
    else Ok(edges + [e])
  }

  function Coalesce<T>(a: Option<T>, b: Option<T>): Option<T> {
    if a.Some? then a else b
  }

  datatype Verdict = Approved | Rejected

  /** The human gate: insert the decision, or turn the active row of the same key into it. */
  function Decide(hubs: Hubs, edges: seq<Edge>, verdict: Verdict, source: HubId, target: HubId, kind: string,
        details: Details, workspace: Option<Workspace>): Result<seq<Edge>, EdgeError> {
    var status := if verdict == Approved then "approved" else "rejected";
    var origin := if verdict == Approved then "inferred_approved" else "inferred_rejected";
    var given := if verdict == Approved then details else details.(confidence := None);
    var e := Edge(source, target, workspace, kind, status, origin, given, ComputeEdgeKey(source, target, kind), false);
    if !HubsInWorkspace(hubs, source, target, workspace) then Err(HubNotInWorkspace)
    else if !RowAllowed(hubs, e) then Err(ConstraintViolation)
    else match ActiveAt(edges, e.key)
      case None => Ok(edges + [e])
      case Some(i) =>
        var was := edges[i].details;
        var now := Details(if verdict == Approved then details.confidence else was.confidence,
                           Coalesce(details.reason, was.reason), Coalesce(details.note, was.note), was.createdBy);
        Ok(edges[i := edges[i].(status := status, origin := origin, details := now)])
  }

  function Archive(edges: seq<Edge>, id: nat, workspace: Option<Workspace>): seq<Edge> {
    if id < |edges| && !edges[id].archived && Scoped(edges[id], workspace)
    then edges[id := edges[id].(status := "archived", archived := true)]
    else edges
  }

  datatype Changes = Changes(kind: Option<string>, status: Option<string>, confidence: Option<Option<int>>,
        reason: Option<Option<string>>, note: Option<Option<string>>)

  const NO_CHANGES := Changes(None, None, None, None, None)

  function Or<T>(change: Option<T>, was: T): T {
    if change.Some? then change.value else was
  }

  /** A changed type does not change the key. */
  function Changed(e: Edge, c: Changes): Edge {
    e.(kind := Or(c.kind, e.kind), status := Or(c.status, e.status),
       details := Details(Or(c.confidence, e.details.confidence), Or(c.reason, e.details.reason),
           Or(c.note, e.details.note), e.details.createdBy))
  }

  function Update(hubs: Hubs, edges: seq<Edge>, id: nat, c: Changes, workspace: Option<Workspace>)
    : Result<seq<Edge>, EdgeError>
  {
    if c == NO_CHANGES then Ok(edges)
    else if (c.kind.Some? && c.kind.value !in ALL_TYPES)
        || (c.status.Some? && c.status.value !in VALID_STATUSES) then Err(InvalidValue)
    else if id >= |edges| || !Scoped(edges[id], workspace) then Ok(edges)
    else if !RowAllowed(hubs, Changed(edges[id], c)) then Err(ConstraintViolation)
    else Ok(edges[id := Changed(edges[id], c)])
  }

  datatype Proposal = Proposal(source: HubId, target: HubId, kind: string, confidence: int, reason: string,
        createdBy: string)

  function ProposalKey(p: Proposal): EdgeKey {
    ComputeEdgeKey(p.source, p.target, p.kind)
  }

  function Inferred(p: Proposal, workspace: Workspace): Edge {
    Edge(p.source, p.target, Some(workspace), p.kind, "inferred", "ai_suggested",
         Details(Some(p.confidence), Some(p.reason), None, Some(p.createdBy)), ProposalKey(p), false)
  }

  /** Insert each proposal whose key has no active row; one refused row undoes the whole call. */
  function Persist(hubs: Hubs, edges: seq<Edge>, proposals: seq<Proposal>, workspace: Workspace)
    : Result<seq<Edge>, EdgeError>
    decreases |proposals|
  {
    if proposals == [] then Ok(edges)
    else if !RowAllowed(hubs, Inferred(proposals[0], workspace)) then Err(ConstraintViolation)
    else
      var next := if ActiveAt(edges, ProposalKey(proposals[0])).Some? then edges
                  else edges + [Inferred(proposals[0], workspace)];
      Persist(hubs, next, proposals[1..], workspace)
  }

  class HubEdgeStore {
    const hubs: Hubs
    var edges: seq<Edge>

    constructor (hubs: Hubs)
      ensures edges == [] && this.hubs == hubs
    {
      this.hubs := hubs;
      edges := [];
    }

    method CreateEdge(source: HubId, target: HubId, kind: string, status: string, origin: string, details: Details,
          workspace: Option<Workspace>)
      returns (r: Result<Edge, EdgeError>)
      modifies this
      ensures match Create(hubs, old(edges), source, target, kind, status, origin, details, workspace)
              case Ok(after) => edges == after && r == Ok(after[|old(edges)|])
              case Err(e) => edges == old(edges) && r == Err(e)
    {
      if kind !in ALL_TYPES || status !in VALID_STATUSES || origin !in VALID_ORIGINS {
        return Err(InvalidValue);
      }
      var key := ComputeEdgeKey(source, target, kind);
      if !HubsInWorkspace(hubs, source, target, workspace) {
        return Err(HubNotInWorkspace);
      }
      var e := Edge(source, target, workspace, kind, status, origin, details, key, false);
      if !RowAllowed(hubs, e) {
        return Err(ConstraintViolation);
      }
      if ActiveAt(edges, key).Some? {
        return Err(ActiveKeyExists);
      }
      edges := edges + [e];
      return Ok(e);
    }

    method ApproveInferredEdge(source: HubId, target: HubId, kind: string, details: Details,
          workspace: Option<Workspace>)
      returns (r: Result<(), EdgeError>)
      modifies this
      ensures match Decide(hubs, old(edges), Approved, source, target, kind, details, workspace)
              case Ok(after) => edges == after && r == Ok(())
              case Err(e) => edges == old(edges) && r == Err(e)
    {
      var key := ComputeEdgeKey(source, target, kind);
      if !HubsInWorkspace(hubs, source, target, workspace) {
        return Err(HubNotInWorkspace);
      }
      var e := Edge(source, target, workspace, kind, "approved", "inferred_approved", details, key, false);
      if !RowAllowed(hubs, e) {
        return Err(ConstraintViolation);
      }
      var at := ActiveAt(edges, key);
      if at.None? {
        edges := edges + [e];
      } else {
        var was := edges[at.value].details;
        var now := Details(details.confidence, Coalesce(details.reason, was.reason), Coalesce(details.note, was.note),
            was.createdBy);
        edges := edges[at.value := edges[at.value].(status := "approved", origin := "inferred_approved",
            details := now)];
      }
      return Ok(());
    }

    /** Rejection keeps the confidence the producer gave. */
    method RejectInferredEdge(source: HubId, target: HubId, kind: string, details: Details,
          workspace: Option<Workspace>)
      returns (r: Result<(), EdgeError>)
      modifies this
      ensures match Decide(hubs, old(edges), Rejected, source, target, kind, details, workspace)
              case Ok(after) => edges == after && r == Ok(())
              case Err(e) => edges == old(edges) && r == Err(e)
    {
      var key := ComputeEdgeKey(source, target, kind);
      if !HubsInWorkspace(hubs, source, target, workspace) {
        return Err(HubNotInWorkspace);
      }
      var e := Edge(source, target, workspace, kind, "rejected", "inferred_rejected", details.(confidence := None),
          key, false);
      if !RowAllowed(hubs, e) {
        return Err(ConstraintViolation);
      }
      var at := ActiveAt(edges, key);
      if at.None? {
        edges := edges + [e];
      } else {
        var was := edges[at.value].details;
        var now := Details(was.confidence, Coalesce(details.reason, was.reason), Coalesce(details.note, was.note),
            was.createdBy);
        edges := edges[at.value := edges[at.value].(status := "rejected", origin := "inferred_rejected",
            details := now)];
      }
      return Ok(());
    }

    method ArchiveEdge(id: nat, workspace: Option<Workspace>) returns (r: Option<Edge>)
      modifies this
      ensures edges == Archive(old(edges), id, workspace)
      ensures r.Some? <==> id < |old(edges)| && !old(edges)[id].archived && Scoped(old(edges)[id], workspace)
      ensures r.Some? ==> r.value == edges[id]
    {
      if id >= |edges| || edges[id].archived || !Scoped(edges[id], workspace) {
        return None;
      }
      edges := edges[id := edges[id].(status := "archived", archived := true)];
      return Some(edges[id]);
    }

    method UpdateEdge(id: nat, changes: Changes, workspace: Option<Workspace>)
      returns (r: Result<Option<Edge>, EdgeError>)
      modifies this
      ensures match Update(hubs, old(edges), id, changes, workspace)
              case Ok(after) =>
                && edges == after
                && r == Ok(if id < |after| && Scoped(after[id], workspace) then Some(after[id]) else None)
              case Err(e) => edges == old(edges) && r == Err(e)
    {
      if changes == NO_CHANGES {
        return Ok(if id < |edges| && Scoped(edges[id], workspace) then Some(edges[id]) else None);
      }
      if (changes.kind.Some? && changes.kind.value !in ALL_TYPES)
          || (changes.status.Some? && changes.status.value !in VALID_STATUSES) {
        return Err(InvalidValue);
      }
      if id >= |edges| || !Scoped(edges[id], workspace) {
        return Ok(None);
      }
      var e := Changed(edges[id], changes);
      if !RowAllowed(hubs, e) {
        return Err(ConstraintViolation);
      }
      edges := edges[id := e];
      return Ok(Some(e));
    }

    method PersistEdgeProposals(proposals: seq<Proposal>, workspace: Workspace)
      returns (r: Result<(nat, nat), EdgeError>)
      modifies this
      ensures match Persist(hubs, old(edges), proposals, workspace)
              case Ok(after) =>
                edges == after && r == Ok((|after| - |old(edges)|, |proposals| - (|after| - |old(edges)|)))
              case Err(e) => edges == old(edges) && r == Err(e)
    {
      var rows, inserted, skipped := edges, 0, 0;
      for i := 0 to |proposals|
        invariant Persist(hubs, edges, proposals, workspace) == Persist(hubs, rows, proposals[i..], workspace)
        invariant inserted == |rows| - |edges| && inserted + skipped == i && edges == old(edges)
      {
        var p := proposals[i];
        assert proposals[i..][0] == p && proposals[i..][1..] == proposals[i + 1..];
        if !RowAllowed(hubs, Inferred(p, workspace)) {
          return Err(ConstraintViolation);
        }
        if ActiveAt(rows, ProposalKey(p)).None? {
          rows := rows + [Inferred(p, workspace)];
          inserted := inserted + 1;
        } else {
          skipped := skipped + 1;
        }
      }
      edges := rows;
      return Ok((inserted, skipped));
    }
  }

  // ----- runs -----

  datatype Op =
    | CreateOp(source: HubId, target: HubId, kind: string, status: string, origin: string, details: Details,
        workspace: Option<Workspace>)
    | DecideOp(verdict: Verdict, source: HubId, target: HubId, kind: string, details: Details,
        workspace: Option<Workspace>)
    | ArchiveOp(id: nat, workspace: Option<Workspace>)
    | UpdateOp(id: nat, changes: Changes, workspace: Option<Workspace>)
    | ProduceOp(proposals: seq<Proposal>, producerWorkspace: Workspace)

  function OrSame(edges: seq<Edge>, r: Result<seq<Edge>, EdgeError>): seq<Edge> {
    if r.Ok? then r.value else edges
  }

  function Apply(hubs: Hubs, edges: seq<Edge>, op: Op): seq<Edge> {
    match op
    case CreateOp(s, t, kind, status, origin, details, w) =>
      OrSame(edges, Create(hubs, edges, s, t, kind, status, origin, details, w))
    case DecideOp(verdict, s, t, kind, details, w) =>
      OrSame(edges, Decide(hubs, edges, verdict, s, t, kind, details, w))
    case ArchiveOp(id, w) => Archive(edges, id, w)
    case UpdateOp(id, changes, w) => OrSame(edges, Update(hubs, edges, id, changes, w))
    case ProduceOp(proposals, w) => OrSame(edges, Persist(hubs, edges, proposals, w))
  }

  function Run(hubs: Hubs, edges: seq<Edge>, ops: seq<Op>): seq<Edge>
    decreases |ops|
  {
    if ops == [] then edges else Run(hubs, Apply(hubs, edges, ops[0]), ops[1..])
  }

  // ----- what a producer run adds -----

  function NextRows(edges: seq<Edge>, p: Proposal, workspace: Workspace): seq<Edge> {
    if ActiveAt(edges, ProposalKey(p)).Some? then edges else edges + [Inferred(p, workspace)]
  }

  ghost predicate FromProposal(e: Edge, proposals: seq<Proposal>, workspace: Workspace) {
    exists p | p in proposals :: InferredFor(e, p, workspace)
  }

  /** What a proposal may become: an unarchived inferred row that no human has seen, with the proposal's own data. */
  predicate InferredFor(e: Edge, p: Proposal, workspace: Workspace) {
    && e.status == "inferred" && e.origin == "ai_suggested" && !e.archived && e.workspace == Some(workspace)
    && e.source == p.source && e.target == p.target && e.kind == p.kind
    && e.key == ComputeEdgeKey(p.source, p.target, p.kind)
    && e.details == Details(Some(p.confidence), Some(p.reason), None, Some(p.createdBy))
  }

  /** A producer run changes no existing row: it only appends inferred rows, each for one of its proposals. */
  lemma {:induction false} PersistAppends(hubs: Hubs, edges: seq<Edge>, proposals: seq<Proposal>, workspace: Workspace)
    requires Persist(hubs, edges, proposals, workspace).Ok?
    ensures var after := Persist(hubs, edges, proposals, workspace).value;
            edges <= after && forall i | |edges| <= i < |after| :: FromProposal(after[i], proposals, workspace)
    decreases |proposals|
  {
    if proposals != [] {
      var p, rest, next := proposals[0], proposals[1..], NextRows(edges, proposals[0], workspace);
      PersistAppends(hubs, next, rest, workspace);
      var after := Persist(hubs, next, rest, workspace).value;
      forall i | |edges| <= i < |after| ensures FromProposal(after[i], proposals, workspace) {
        if i < |next| {
          assert p in proposals && InferredFor(after[i], p, workspace);
        } else {
          assert FromProposal(after[i], rest, workspace);
        }
      }
    }
  }

  // ----- one active row per key -----

  ghost predicate OnePerKey(edges: seq<Edge>) {
    forall i, j | 0 <= i < j < |edges| && !edges[i].archived && !edges[j].archived :: edges[i].key != edges[j].key
  }

  lemma AppendKeepsOne(edges: seq<Edge>, e: Edge)
    requires OnePerKey(edges) && ActiveAt(edges, e.key).None?
    ensures OnePerKey(edges + [e])
  {}

  /** Replacing a row by one with the same key that is active only if the old one was. */
  lemma ReplaceKeepsOne(edges: seq<Edge>, i: nat, e: Edge)
    requires OnePerKey(edges) && i < |edges| && e.key == edges[i].key && (edges[i].archived ==> e.archived)
    ensures OnePerKey(edges[i := e])
  {}

  lemma {:induction false} PersistKeepsOne(hubs: Hubs, edges: seq<Edge>, proposals: seq<Proposal>, workspace: Workspace)
    requires OnePerKey(edges)
    ensures var r := Persist(hubs, edges, proposals, workspace); r.Ok? ==> OnePerKey(r.value)
    decreases |proposals|
  {
    if proposals != [] && RowAllowed(hubs, Inferred(proposals[0], workspace)) {
      var e := Inferred(proposals[0], workspace);
      if ActiveAt(edges, e.key).Some? {
        PersistKeepsOne(hubs, edges, proposals[1..], workspace);
      } else {
        AppendKeepsOne(edges, e);
        PersistKeepsOne(hubs, edges + [e], proposals[1..], workspace);
      }
    }
  }

  lemma ApplyKeepsOne(hubs: Hubs, edges: seq<Edge>, op: Op)
    requires OnePerKey(edges)
    ensures OnePerKey(Apply(hubs, edges, op))
  {
    match op
    case CreateOp(s, t, kind, status, origin, details, w) =>
      var r := Create(hubs, edges, s, t, kind, status, origin, details, w);
      if r.Ok? {
        AppendKeepsOne(edges, r.value[|edges|]);
      }
    case DecideOp(verdict, s, t, kind, details, w) =>
      var r, at := Decide(hubs, edges, verdict, s, t, kind, details, w), ActiveAt(edges, ComputeEdgeKey(s, t, kind));
      if r.Ok? {
        if at.None? { AppendKeepsOne(edges, r.value[|edges|]); }
        else { ReplaceKeepsOne(edges, at.value, r.value[at.value]); }
      }
    case ArchiveOp(id, w) =>
      if id < |edges| { ReplaceKeepsOne(edges, id, edges[id].(status := "archived", archived := true)); }
    case UpdateOp(id, changes, w) =>
      if id < |edges| { ReplaceKeepsOne(edges, id, Changed(edges[id], changes)); }
    case ProduceOp(proposals, w) =>
      PersistKeepsOne(hubs, edges, proposals, w);
  }

  /** Over every run of calls, type changes included, a key has at most one unarchived row. */
  lemma {:induction false} RunKeepsOne(hubs: Hubs, edges: seq<Edge>, ops: seq<Op>)
    requires OnePerKey(edges)
    ensures OnePerKey(Run(hubs, edges, ops))
    decreases |ops|
  {
    if ops != [] {
      ApplyKeepsOne(hubs, edges, ops[0]);
      RunKeepsOne(hubs, Apply(hubs, edges, ops[0]), ops[1..]);
    }
  }

  // ----- keys agree with rows -----

  /** The key of the row's own endpoints and type. */
  function RowKey(e: Edge): EdgeKey {
    ComputeEdgeKey(e.source, e.target, e.kind)
  }

  predicate KeyAgrees(e: Edge) {
    e.key == RowKey(e)
  }

  ghost predicate KeysAgree(edges: seq<Edge>) {
    forall i | 0 <= i < |edges| :: KeyAgrees(edges[i])
  }

  /** An accepted update of a visible row that gives it another type. */
  predicate Retypes(hubs: Hubs, edges: seq<Edge>, op: Op) {
    && op.UpdateOp? && op.id < |edges| && Scoped(edges[op.id], op.workspace)
    && op.changes.kind.Some? && op.changes.kind.value != edges[op.id].kind && op.changes.kind.value in ALL_TYPES
    && (op.changes.status.Some? ==> op.changes.status.value in VALID_STATUSES)
    && RowAllowed(hubs, Changed(edges[op.id], op.changes))
  }

  predicate NeverRetypes(hubs: Hubs, edges: seq<Edge>, ops: seq<Op>)
    decreases |ops|
  {
    ops == [] || (!Retypes(hubs, edges, ops[0]) && NeverRetypes(hubs, Apply(hubs, edges, ops[0]), ops[1..]))
  }

  ghost predicate AlwaysAgree(hubs: Hubs, edges: seq<Edge>, ops: seq<Op>)
    decreases |ops|
  {
    KeysAgree(edges) && (ops == [] || AlwaysAgree(hubs, Apply(hubs, edges, ops[0]), ops[1..]))
  }

  lemma {:induction false} PersistKeepsAgreement(hubs: Hubs, edges: seq<Edge>, proposals: seq<Proposal>,
        workspace: Workspace)
    requires KeysAgree(edges)
    ensures var r := Persist(hubs, edges, proposals, workspace); r.Ok? ==> KeysAgree(r.value)
    decreases |proposals|
  {
    if proposals != [] && RowAllowed(hubs, Inferred(proposals[0], workspace)) {
      var e := Inferred(proposals[0], workspace);
      var next := if ActiveAt(edges, e.key).Some? then edges else edges + [e];
      PersistKeepsAgreement(hubs, next, proposals[1..], workspace);
    }
  }

  /** From agreeing rows a call keeps every key that of its row if and only if it is not an accepted type change. */
  lemma ApplyKeepsAgreementIff(hubs: Hubs, edges: seq<Edge>, op: Op)
    requires KeysAgree(edges)
    ensures KeysAgree(Apply(hubs, edges, op)) <==> !Retypes(hubs, edges, op)
  {
    match op
    case CreateOp(s, t, kind, status, origin, details, w) =>
    case DecideOp(verdict, s, t, kind, details, w) =>
      var r, at := Decide(hubs, edges, verdict, s, t, kind, details, w), ActiveAt(edges, ComputeEdgeKey(s, t, kind));
      if r.Ok? && at.Some? {
        assert KeyAgrees(edges[at.value]) && KeyAgrees(r.value[at.value]);
      }
    case ArchiveOp(id, w) =>
      if id < |edges| { assert KeyAgrees(edges[id]); }
    case UpdateOp(id, changes, w) =>
      UpdateKeepsAgreementIff(hubs, edges, id, changes, w);
    case ProduceOp(proposals, w) =>
      PersistKeepsAgreement(hubs, edges, proposals, w);
  }

  lemma UpdateKeepsAgreementIff(hubs: Hubs, edges: seq<Edge>, id: nat, changes: Changes, workspace: Option<Workspace>)
    requires KeysAgree(edges)
    ensures var op := UpdateOp(id, changes, workspace); KeysAgree(Apply(hubs, edges, op)) <==> !Retypes(hubs, edges, op)
  {
    var r := Update(hubs, edges, id, changes, workspace);
    if r.Ok? && id < |edges| && Scoped(edges[id], workspace) {
      assert KeyAgrees(edges[id]);
      assert KeyAgrees(r.value[id]) <==> r.value[id].kind == edges[id].kind;
    }
  }

  /**
   Over a whole run each row's key is that of its endpoints and type in every state if and only if
   no update changes a type.
   */
  lemma {:induction false} RunKeepsAgreementIff(hubs: Hubs, edges: seq<Edge>, ops: seq<Op>)
    requires KeysAgree(edges)
    ensures AlwaysAgree(hubs, edges, ops) <==> NeverRetypes(hubs, edges, ops)
    decreases |ops|
  {
    if ops != [] {
      ApplyKeepsAgreementIff(hubs, edges, ops[0]);
      if !Retypes(hubs, edges, ops[0]) { RunKeepsAgreementIff(hubs, Apply(hubs, edges, ops[0]), ops[1..]); }
    }
  }

  // ----- one active row per pair and type -----

  /** No two unarchived rows join the same two hubs, in either direction, with the same type. */
  ghost predicate PairsUnique(edges: seq<Edge>) {
    forall i, j | 0 <= i < j < |edges| && !edges[i].archived && !edges[j].archived ::
      RowKey(edges[i]) != RowKey(edges[j])
  }

  /** Some unarchived row joins the key's hubs with its type, whatever key it is stored under. */
  ghost predicate Joined(edges: seq<Edge>, key: EdgeKey) {
    exists i :: 0 <= i < |edges| && !edges[i].archived && RowKey(edges[i]) == key
  }

  ghost predicate JoinedByOther(edges: seq<Edge>, id: nat, key: EdgeKey) {
    exists i :: 0 <= i < |edges| && i != id && !edges[i].archived && RowKey(edges[i]) == key
  }

  /** The key has no active row, yet its hubs are already joined with its type: the unique index sees no conflict. */
  ghost predicate Hidden(edges: seq<Edge>, key: EdgeKey) {
    ActiveAt(edges, key).None? && Joined(edges, key)
  }

  /** The row a human decision inserts when its key has no active row. */
  function DecisionRow(verdict: Verdict, source: HubId, target: HubId, kind: string, details: Details,
        workspace: Option<Workspace>): Edge {
    if verdict == Approved then Edge(source, target, workspace, kind, "approved", "inferred_approved", details,
        ComputeEdgeKey(source, target, kind), false)
    else Edge(source, target, workspace, kind, "rejected", "inferred_rejected", details.(confidence := None),
        ComputeEdgeKey(source, target, kind), false)
  }

  predicate Permitted(hubs: Hubs, e: Edge) {
    HubsInWorkspace(hubs, e.source, e.target, e.workspace) && RowAllowed(hubs, e)
  }

  /**
   The calls that add a second active row for a pair and type: a permitted
   insert under a key that hides such a row, or an accepted type change of an
   unarchived row to the type of another one for its pair.
   */
  ghost predicate Doubles(hubs: Hubs, edges: seq<Edge>, op: Op) {
    match op
    case CreateOp(s, t, kind, status, origin, details, w) =>
      Hidden(edges, ComputeEdgeKey(s, t, kind))
      && Permitted(hubs, Edge(s, t, w, kind, status, origin, details, ComputeEdgeKey(s, t, kind), false))
    case DecideOp(verdict, s, t, kind, details, w) =>
      Hidden(edges, ComputeEdgeKey(s, t, kind)) && Permitted(hubs, DecisionRow(verdict, s, t, kind, details, w))
    case ArchiveOp(_, _) => false
    case UpdateOp(id, changes, _) =>
      Retypes(hubs, edges, op) && !edges[id].archived
      && JoinedByOther(edges, id, RowKey(Changed(edges[id], changes)))
    case ProduceOp(proposals, w) =>
      (forall p | p in proposals :: RowAllowed(hubs, Inferred(p, w)))
      && exists p :: p in proposals && Hidden(edges, ProposalKey(p))
  }

  /** Appending an active row under its own key. */
  lemma AppendKeepsUniqueIff(edges: seq<Edge>, e: Edge)
    requires PairsUnique(edges) && !e.archived
    ensures PairsUnique(edges + [e]) <==> !Joined(edges, RowKey(e))
  {
    var more := edges + [e];
    if i :| 0 <= i < |edges| && !edges[i].archived && RowKey(edges[i]) == RowKey(e) {
      assert more[i] == edges[i] && more[|edges|] == e;
    }
  }

  /** Replacing a row by one for the same pair and type that is active only if the old one was. */
  lemma ReplaceKeepsUnique(edges: seq<Edge>, i: nat, e: Edge)
    requires PairsUnique(edges) && i < |edges| && RowKey(e) == RowKey(edges[i]) && (edges[i].archived ==> e.archived)
    ensures PairsUnique(edges[i := e])
  {}

  lemma UpdateKeepsUniqueIff(hubs: Hubs, edges: seq<Edge>, op: Op)
    requires PairsUnique(edges) && op.UpdateOp?
    ensures PairsUnique(Apply(hubs, edges, op)) <==> !Doubles(hubs, edges, op)
  {
    var after := Apply(hubs, edges, op);
    if Retypes(hubs, edges, op) {
      RetypeKeepsUniqueIff(edges, op.id, Changed(edges[op.id], op.changes));
    } else if op.id < |edges| {
      assert after[op.id].kind == edges[op.id].kind;
      ReplaceKeepsUnique(edges, op.id, after[op.id]);
      assert after == edges[op.id := after[op.id]];
    }
  }

  lemma RetypeKeepsUniqueIff(edges: seq<Edge>, id: nat, e: Edge)
    requires PairsUnique(edges) && id < |edges| && e.archived == edges[id].archived
    ensures PairsUnique(edges[id := e]) <==> e.archived || !JoinedByOther(edges, id, RowKey(e))
  {
    var after := edges[id := e];
    if !e.archived {
      if i :| 0 <= i < |edges| && i != id && !edges[i].archived && RowKey(edges[i]) == RowKey(e) {
        assert after[i] == edges[i] && after[id] == e;
      }
    }
  }

  lemma {:induction false} PersistOkIff(hubs: Hubs, edges: seq<Edge>, proposals: seq<Proposal>, workspace: Workspace)
    ensures Persist(hubs, edges, proposals, workspace).Ok? <==>
              forall p | p in proposals :: RowAllowed(hubs, Inferred(p, workspace))
    decreases |proposals|
  {
    if proposals != [] {
      PersistOkIff(hubs, NextRows(edges, proposals[0], workspace), proposals[1..], workspace);
      assert forall p :: p in proposals <==> p == proposals[0] || p in proposals[1..];
    }
  }

  /** A new row hides no key but its own, which it makes active. */
  lemma HiddenAfterAppend(edges: seq<Edge>, e: Edge, key: EdgeKey)
    requires !e.archived && e.key == RowKey(e)
    ensures Hidden(edges + [e], key) <==> key != e.key && Hidden(edges, key)
  {
    var more := edges + [e];
    assert more[..|edges|] == edges && more[|edges|] == e;
    if i :| 0 <= i < |edges| && !edges[i].archived && RowKey(edges[i]) == key {
      assert more[i] == edges[i];
    }
  }

  lemma UnhiddenNext(edges: seq<Edge>, p: Proposal, workspace: Workspace)
    requires PairsUnique(edges) && !Hidden(edges, ProposalKey(p))
    ensures var next := NextRows(edges, p, workspace);
            PairsUnique(next) && forall key :: Hidden(next, key) <==> Hidden(edges, key)
  {
    if ActiveAt(edges, ProposalKey(p)).None? {
      AppendKeepsUniqueIff(edges, Inferred(p, workspace));
      forall key ensures Hidden(edges + [Inferred(p, workspace)], key) <==> Hidden(edges, key) {
        HiddenAfterAppend(edges, Inferred(p, workspace), key);
      }
    }
  }

  lemma HiddenNextDoubles(hubs: Hubs, edges: seq<Edge>, p: Proposal, rest: seq<Proposal>, workspace: Workspace)
    requires PairsUnique(edges) && Hidden(edges, ProposalKey(p))
    requires Persist(hubs, NextRows(edges, p, workspace), rest, workspace).Ok?
    ensures !PairsUnique(Persist(hubs, NextRows(edges, p, workspace), rest, workspace).value)
  {
    var next := edges + [Inferred(p, workspace)];
    AppendKeepsUniqueIff(edges, Inferred(p, workspace));
    PersistAppends(hubs, next, rest, workspace);
    var after := Persist(hubs, next, rest, workspace).value;
    if PairsUnique(after) { PrefixUnique(next, after); }
  }

  lemma {:induction false} PersistKeepsUniqueIff(hubs: Hubs, edges: seq<Edge>, proposals: seq<Proposal>,
        workspace: Workspace)
    requires PairsUnique(edges) && Persist(hubs, edges, proposals, workspace).Ok?
    ensures PairsUnique(Persist(hubs, edges, proposals, workspace).value) <==>
              forall p | p in proposals :: !Hidden(edges, ProposalKey(p))
    decreases |proposals|
  {
    if proposals != [] {
      var p, rest := proposals[0], proposals[1..];
      assert Persist(hubs, edges, proposals, workspace)
          == Persist(hubs, NextRows(edges, p, workspace), rest, workspace);
      if Hidden(edges, ProposalKey(p)) {
        HiddenNextDoubles(hubs, edges, p, rest, workspace);
      } else {
        UnhiddenNext(edges, p, workspace);
        PersistKeepsUniqueIff(hubs, NextRows(edges, p, workspace), rest, workspace);
        assert forall q :: q in proposals <==> q == p || q in rest;
      }
    }
  }

  lemma PrefixUnique(edges: seq<Edge>, more: seq<Edge>)
    requires edges <= more && PairsUnique(more)
    ensures PairsUnique(edges)
  {
    forall i | 0 <= i < |edges| ensures edges[i] == more[i] {}
  }

  /** From a table with unique active pairs a call keeps them unique if and only if it does not double one. */
  lemma ApplyKeepsUniqueIff(hubs: Hubs, edges: seq<Edge>, op: Op)
    requires PairsUnique(edges)
    ensures PairsUnique(Apply(hubs, edges, op)) <==> !Doubles(hubs, edges, op)
  {
    match op
    case CreateOp(s, t, kind, status, origin, details, w) =>
      AppendKeepsUniqueIff(edges, Edge(s, t, w, kind, status, origin, details, ComputeEdgeKey(s, t, kind), false));
    case DecideOp(verdict, s, t, kind, details, w) =>
      var e, at := DecisionRow(verdict, s, t, kind, details, w), ActiveAt(edges, ComputeEdgeKey(s, t, kind));
      if at.None? {
        AppendKeepsUniqueIff(edges, e);
      } else {
        var after := Apply(hubs, edges, op);
        ReplaceKeepsUnique(edges, at.value, after[at.value]);
      }
    case ArchiveOp(id, w) =>
      if id < |edges| { ReplaceKeepsUnique(edges, id, edges[id].(status := "archived", archived := true)); }
    case UpdateOp(id, changes, w) =>
      UpdateKeepsUniqueIff(hubs, edges, op);
    case ProduceOp(proposals, w) =>
      PersistOkIff(hubs, edges, proposals, w);
      if Persist(hubs, edges, proposals, w).Ok? { PersistKeepsUniqueIff(hubs, edges, proposals, w); }
  }

  ghost predicate NeverDoubles(hubs: Hubs, edges: seq<Edge>, ops: seq<Op>)
    decreases |ops|
  {
    ops == [] || (!Doubles(hubs, edges, ops[0]) && NeverDoubles(hubs, Apply(hubs, edges, ops[0]), ops[1..]))
  }

  ghost predicate AlwaysUnique(hubs: Hubs, edges: seq<Edge>, ops: seq<Op>)
    decreases |ops|
  {
    PairsUnique(edges) && (ops == [] || AlwaysUnique(hubs, Apply(hubs, edges, ops[0]), ops[1..]))
  }

  /** Over a whole run active pairs are unique in every state if and only if no call doubles one. */
  lemma {:induction false} RunKeepsUniqueIff(hubs: Hubs, edges: seq<Edge>, ops: seq<Op>)
    requires PairsUnique(edges)
    ensures AlwaysUnique(hubs, edges, ops) <==> NeverDoubles(hubs, edges, ops)
    decreases |ops|
  {
    if ops != [] {
      ApplyKeepsUniqueIff(hubs, edges, ops[0]);
      if !Doubles(hubs, edges, ops[0]) { RunKeepsUniqueIff(hubs, Apply(hubs, edges, ops[0]), ops[1..]); }
    }
  }

  /** Where keys agree with rows, the unique index does what it is for. */
  lemma AgreeingPairsAreUnique(edges: seq<Edge>)
    requires OnePerKey(edges) && KeysAgree(edges)
    ensures PairsUnique(edges)
  {
    forall i | 0 <= i < |edges| ensures RowKey(edges[i]) == edges[i].key {
      assert KeyAgrees(edges[i]);
    }
  }

  /** So active pairs stay unique over every run without a type change. */
  lemma {:induction false} ActivePairsAreUnique(hubs: Hubs, edges: seq<Edge>, ops: seq<Op>)
    requires OnePerKey(edges) && KeysAgree(edges) && NeverRetypes(hubs, edges, ops)
    ensures AlwaysUnique(hubs, edges, ops) && NeverDoubles(hubs, edges, ops)
    decreases |ops|
  {
    AgreeingPairsAreUnique(edges);
    if ops != [] {
      ApplyKeepsOne(hubs, edges, ops[0]);
      ApplyKeepsAgreementIff(hubs, edges, ops[0]);
      ActivePairsAreUnique(hubs, Apply(hubs, edges, ops[0]), ops[1..]);
    }
    RunKeepsUniqueIff(hubs, edges, ops);
  }

  /** After a type change the table accepts a second active row for the same pair and type. */
  lemma TypeChangeAllowsDuplicates(hubs: Hubs, a: HubId, b: HubId, details: Details)
    requires a in hubs && b in hubs && details.confidence == None
    ensures var create := kind => CreateOp(a, b, kind, "manual", "manual", details, None);
            var retype := UpdateOp(0, Changes(Some("supports"), None, None, None, None), None);
            var after := Run(hubs, [], [create("related"), retype, create("supports")]);
            && |after| == 2 && !after[0].archived && !after[1].archived
            && after[0].kind == after[1].kind && after[0].source == after[1].source
            && after[0].target == after[1].target && !PairsUnique(after)
  {
    var create := kind => CreateOp(a, b, kind, "manual", "manual", details, None);
    var retype := UpdateOp(0, Changes(Some("supports"), None, None, None, None), None);
    var first := Edge(a, b, None, "related", "manual", "manual", details, ComputeEdgeKey(a, b, "related"), false);
    var second := Edge(a, b, None, "supports", "manual", "manual", details, ComputeEdgeKey(a, b, "supports"), false);
    assert Apply(hubs, [], create("related")) == [first];
    var retyped := first.(kind := "supports");
    assert Changed(first, Changes(Some("supports"), None, None, None, None)) == retyped;
    assert Apply(hubs, [first], retype) == [retyped];
    assert "related" != "supports" by { assert "related"[0] != "supports"[0]; }
    assert ActiveAt([retyped], second.key).None?;
    assert Apply(hubs, [retyped], create("supports")) == [retyped, second];
    var ops := [create("related"), retype, create("supports")];
    assert ops[1..] == [retype, create("supports")] && ops[1..][1..] == [create("supports")]
        && ops[1..][1..][1..] == [];
    assert Run(hubs, [retyped], ops[1..][1..]) == [retyped, second];
  }

  // ----- the producer and the human gate -----

  ghost function ActiveKeys(edges: seq<Edge>): set<EdgeKey> {
    set i | 0 <= i < |edges| && !edges[i].archived :: edges[i].key
  }

  ghost function ProposedKeys(proposals: seq<Proposal>): set<EdgeKey> {
    set p | p in proposals :: ProposalKey(p)
  }

  /** A producer run inserts one row per proposed key without an active row, which fixes both reported counts. */
  lemma {:induction false} PersistCounts(hubs: Hubs, edges: seq<Edge>, proposals: seq<Proposal>, workspace: Workspace)
    requires Persist(hubs, edges, proposals, workspace).Ok?
    ensures var after := Persist(hubs, edges, proposals, workspace).value;
            && ActiveKeys(after) == ActiveKeys(edges) + ProposedKeys(proposals)
            && |after| - |edges| == |ProposedKeys(proposals) - ActiveKeys(edges)|
    decreases |proposals|
  {
    if proposals == [] {
      assert ProposedKeys(proposals) == {};
      assert {} - ActiveKeys(edges) == {} && ActiveKeys(edges) + {} == ActiveKeys(edges);
    } else {
      var p, rest, k := proposals[0], proposals[1..], ProposalKey(proposals[0]);
      ProposedSplit(p, rest);
      assert proposals == [p] + rest;
      ActiveAtIffKey(edges, k);
      if ActiveAt(edges, k).Some? {
        PersistCounts(hubs, edges, rest, workspace);
        NoneMore(ProposedKeys(rest), ActiveKeys(edges), k);
      } else {
        PersistCounts(hubs, edges + [Inferred(p, workspace)], rest, workspace);
        AppendActive(edges, Inferred(p, workspace));
        OneMore(ProposedKeys(rest), ActiveKeys(edges), k);
      }
    }
  }

  lemma ProposedSplit(p: Proposal, rest: seq<Proposal>)
    ensures ProposedKeys([p] + rest) == {ProposalKey(p)} + ProposedKeys(rest)
  {}

  lemma ActiveAtIffKey(edges: seq<Edge>, key: EdgeKey)
    ensures ActiveAt(edges, key).Some? <==> key in ActiveKeys(edges)
  {}

  lemma NoneMore<T>(a: set<T>, b: set<T>, k: T)
    requires k in b
    ensures ({k} + a) - b == a - b && b + ({k} + a) == b + a
  {}

  lemma OneMore<T>(a: set<T>, b: set<T>, k: T)
    requires k !in b
    ensures |({k} + a) - b| == 1 + |a - (b + {k})| && b + ({k} + a) == (b + {k}) + a
  {
    assert ({k} + a) - b == {k} + (a - (b + {k}));
  }

  lemma AppendActive(edges: seq<Edge>, e: Edge)
    requires !e.archived
    ensures ActiveKeys(edges + [e]) == ActiveKeys(edges) + {e.key}
  {
    var more := edges + [e];
    assert more[|edges|] == e;
    forall k | k in ActiveKeys(edges) ensures k in ActiveKeys(more) {
      var i :| 0 <= i < |edges| && !edges[i].archived && edges[i].key == k;
      assert more[i] == edges[i];
    }
  }

  /** Running the same proposals again, in any later state where their keys are still active, inserts nothing. */
  lemma RerunInsertsNothing(hubs: Hubs, edges: seq<Edge>, proposals: seq<Proposal>, workspace: Workspace)
    requires Persist(hubs, edges, proposals, workspace).Ok?
    ensures var after := Persist(hubs, edges, proposals, workspace).value;
            Persist(hubs, after, proposals, workspace) == Ok(after)
  {
    var after := Persist(hubs, edges, proposals, workspace).value;
    PersistCounts(hubs, edges, proposals, workspace);
    KnownKeysInsertNothing(hubs, edges, after, proposals, workspace);
  }

  lemma {:induction false} KnownKeysInsertNothing(hubs: Hubs, edges: seq<Edge>, later: seq<Edge>,
        proposals: seq<Proposal>, workspace: Workspace)
    requires Persist(hubs, edges, proposals, workspace).Ok? && ProposedKeys(proposals) <= ActiveKeys(later)
    ensures Persist(hubs, later, proposals, workspace) == Ok(later)
    decreases |proposals|
  {
    if proposals != [] {
      var k := ProposalKey(proposals[0]);
      assert k in ProposedKeys(proposals);
      var i :| 0 <= i < |later| && !later[i].archived && later[i].key == k;
      assert ActiveAt(later, k).Some?;
      var next := if ActiveAt(edges, k).Some? then edges else edges + [Inferred(proposals[0], workspace)];
      assert ProposedKeys(proposals[1..]) <= ProposedKeys(proposals);
      KnownKeysInsertNothing(hubs, next, later, proposals[1..], workspace);
    }
  }

  /** The calls that may change row `i`: a decision on its key, or a human naming the row itself. */
  predicate Addresses(op: Op, edges: seq<Edge>, i: nat)
    requires i < |edges|
  {
    match op
    case CreateOp(_, _, _, _, _, _, _) => false
    case DecideOp(_, s, t, kind, _, _) => !edges[i].archived && edges[i].key == ComputeEdgeKey(s, t, kind)
    case ArchiveOp(id, _) => id == i
    case UpdateOp(id, _, _) => id == i
    case ProduceOp(_, _) => false
  }

  /** No call touches a row it does not address, and no row ever disappears. */
  lemma ApplyFrame(hubs: Hubs, edges: seq<Edge>, op: Op, i: nat)
    requires i < |edges|
    ensures |edges| <= |Apply(hubs, edges, op)|
    ensures !Addresses(op, edges, i) ==> Apply(hubs, edges, op)[i] == edges[i]
  {
    if op.ProduceOp? && Persist(hubs, edges, op.proposals, op.producerWorkspace).Ok? {
      PersistAppends(hubs, edges, op.proposals, op.producerWorkspace);
    }
  }

  /** The calls by which a human reopens the decision on row `i`. */
  predicate Reopens(op: Op, edges: seq<Edge>, i: nat)
    requires i < |edges|
  {
    Addresses(op, edges, i) && !(op.DecideOp? && op.verdict == Rejected)
  }

  predicate NeverReopened(hubs: Hubs, edges: seq<Edge>, ops: seq<Op>, i: nat)
    decreases |ops|
  {
    i < |edges| && (ops == [] || (!Reopens(ops[0], edges, i)
        && NeverReopened(hubs, Apply(hubs, edges, ops[0]), ops[1..], i)))
  }

  ghost predicate RejectedAt(edges: seq<Edge>, i: nat, key: EdgeKey) {
    i < |edges| && edges[i].status == "rejected" && !edges[i].archived && edges[i].key == key
  }

  /**
   A rejected row stays rejected, and stays the only active row of its key, over
   every run of producer calls and other calls in which no human reopens it.
   */
  lemma {:induction false} RejectedStaysRejected(hubs: Hubs, edges: seq<Edge>, ops: seq<Op>, i: nat, key: EdgeKey)
    requires OnePerKey(edges) && RejectedAt(edges, i, key) && NeverReopened(hubs, edges, ops, i)
    ensures RejectedAt(Run(hubs, edges, ops), i, key)
    ensures ActiveAt(Run(hubs, edges, ops), key) == Some(i)
    decreases |ops|
  {
    RunKeepsOne(hubs, edges, ops);
    if ops != [] {
      var next := Apply(hubs, edges, ops[0]);
      ApplyFrame(hubs, edges, ops[0], i);
      ApplyKeepsOne(hubs, edges, ops[0]);
      RejectedStaysRejected(hubs, next, ops[1..], i, key);
    }
  }

  /** An unarchived row of these endpoints, workspace and type, under their key. */
  predicate NewRow(e: Edge, source: HubId, target: HubId, workspace: Option<Workspace>, kind: string) {
    && e.source == source && e.target == target && e.workspace == workspace && e.kind == kind && !e.archived
    && e.key == ComputeEdgeKey(source, target, kind)
  }

  /**
   What a decision leaves of the details given and the ones before: an approval
   sets the confidence, a rejection keeps it; a missing reason or note is kept,
   and so is the creator.
   */
  predicate DecidedDetails(now: Details, verdict: Verdict, given: Details, was: Option<Details>) {
    && now.confidence == (if verdict == Approved then given.confidence
                          else if was.Some? then was.value.confidence else None)
    && now.reason == (if given.reason.Some? || was.None? then given.reason else was.value.reason)
    && now.note == (if given.note.Some? || was.None? then given.note else was.value.note)
    && now.createdBy == (if was.Some? then was.value.createdBy else given.createdBy)
  }

  /**
   An accepted decision leaves exactly one active row for its key, with its
   status, origin and details; an existing row is reused and keeps its identity.
   */
  lemma DecisionTakesEffect(hubs: Hubs, edges: seq<Edge>, verdict: Verdict, source: HubId, target: HubId,
        kind: string, details: Details, workspace: Option<Workspace>)
    requires OnePerKey(edges) && Decide(hubs, edges, verdict, source, target, kind, details, workspace).Ok?
    ensures var after := Decide(hubs, edges, verdict, source, target, kind, details, workspace).value;
            var key := ComputeEdgeKey(source, target, kind);
            var was, at := ActiveAt(edges, key), ActiveAt(after, key);
            && OnePerKey(after) && at.Some?
            && after[at.value].status == (if verdict == Approved then "approved" else "rejected")
            && (was.None? ==> after == edges + [after[|edges|]] && at.value == |edges|)
            && (was.Some? ==>
                  && at == was && |after| == |edges|
                  && forall i | 0 <= i < |edges| && i != at.value :: after[i] == edges[i])
            && (was.Some? ==> var old', new' := edges[at.value], after[at.value];
                  new' == old'.(status := new'.status, origin := new'.origin, details := new'.details))
            && (was.None? ==> NewRow(after[at.value], source, target, workspace, kind))
            && after[at.value].origin == (if verdict == Approved then "inferred_approved" else "inferred_rejected")
            && DecidedDetails(after[at.value].details, verdict, details,
                 if was.Some? then Some(edges[at.value].details) else None)
  {
    var op := DecideOp(verdict, source, target, kind, details, workspace);
    ApplyKeepsOne(hubs, edges, op);
    var after, key := Apply(hubs, edges, op), ComputeEdgeKey(source, target, kind);
    var was := ActiveAt(edges, key);
    OnlyActive(after, key, if was.Some? then was.value else |edges|);
  }

  lemma OnlyActive(edges: seq<Edge>, key: EdgeKey, i: nat)
    requires OnePerKey(edges) && i < |edges| && edges[i].key == key && !edges[i].archived
    ensures ActiveAt(edges, key) == Some(i)
  {}

  /** Of two accepted decisions on one pair and type, in whichever directions, the later one stands, on the same row. */
  lemma LastDecisionWins(hubs: Hubs, edges: seq<Edge>, first: Verdict, second: Verdict, a: HubId, b: HubId, c: HubId,
        d: HubId, kind: string, given: Details, later: Details, workspace: Option<Workspace>,
        workspace': Option<Workspace>)
    requires OnePerKey(edges) && Decide(hubs, edges, first, a, b, kind, given, workspace).Ok?
    requires (c == a && d == b) || (c == b && d == a)
    requires Decide(hubs, Decide(hubs, edges, first, a, b, kind, given, workspace).value, second, c, d, kind, later,
               workspace').Ok?
    ensures var once := Decide(hubs, edges, first, a, b, kind, given, workspace).value;
            var twice := Decide(hubs, once, second, c, d, kind, later, workspace').value;
            var key := ComputeEdgeKey(a, b, kind);
            && |twice| == |once| && ActiveAt(twice, key) == ActiveAt(once, key) != None
            && twice[ActiveAt(twice, key).value].status == (if second == Approved then "approved" else "rejected")
  {
    var once := Decide(hubs, edges, first, a, b, kind, given, workspace).value;
    DecisionTakesEffect(hubs, edges, first, a, b, kind, given, workspace);
    DecisionTakesEffect(hubs, once, second, c, d, kind, later, workspace');
    KeyForgetsDirection(a, b, c, d, kind, kind);
  }

  /**
   A valid edge of an active row's pair and type is refused in either direction; archiving that row
   lets it through.
   */
  lemma ArchiveFreesKey(hubs: Hubs, edges: seq<Edge>, id: nat, workspace: Option<Workspace>,
        kind: string, status: string, origin: string, details: Details)
    requires OnePerKey(edges) && KeysAgree(edges)
    requires id < |edges| && !edges[id].archived && Scoped(edges[id], workspace)
    requires var e := edges[id];
             && HubsInWorkspace(hubs, e.source, e.target, workspace) && kind == e.kind
             && RowAllowed(hubs, Edge(e.source, e.target, workspace, kind, status, origin, details, e.key, false))
    ensures var e := edges[id];
            && Create(hubs, edges, e.source, e.target, kind, status, origin, details, workspace) == Err(ActiveKeyExists)
            && Create(hubs, edges, e.target, e.source, kind, status, origin, details, workspace) == Err(ActiveKeyExists)
            && Create(hubs, Archive(edges, id, workspace), e.source, e.target, kind, status, origin, details,
                 workspace).Ok?
  {
    assert KeyAgrees(edges[id]);
  }

  // ----- what the other calls record -----

  /**
   A create is refused for an invalid value, a hub outside the workspace, a row
   the table forbids or an active key, in this order; otherwise it appends the
   row asked for and changes no other.
   */
  lemma CreateTakesEffect(hubs: Hubs, edges: seq<Edge>, source: HubId, target: HubId, kind: string, status: string,
        origin: string, details: Details, workspace: Option<Workspace>)
    ensures var r := Create(hubs, edges, source, target, kind, status, origin, details, workspace);
            var valid := kind in ALL_TYPES && status in VALID_STATUSES && origin in VALID_ORIGINS;
            var inside := workspace.Some? ==>
                            && source != target && source in hubs && target in hubs
                            && hubs[source] == workspace == hubs[target];
            var allowed := source in hubs && target in hubs
                           && (details.confidence.Some? ==> 0 <= details.confidence.value <= 1000);
            var taken := exists i :: 0 <= i < |edges| && !edges[i].archived
                                     && edges[i].key == ComputeEdgeKey(source, target, kind);
            && (r == Err(InvalidValue) <==> !valid)
            && (r == Err(HubNotInWorkspace) <==> valid && !inside)
            && (r == Err(ConstraintViolation) <==> valid && inside && !allowed)
            && (r == Err(ActiveKeyExists) <==> valid && inside && allowed && taken)
            && (r.Ok? <==> valid && inside && allowed && !taken)
            && (r.Ok? ==>
                  && r.value == edges + [r.value[|edges|]] && NewRow(r.value[|edges|], source, target, workspace, kind)
                  && r.value[|edges|].status == status && r.value[|edges|].origin == origin
                  && r.value[|edges|].details == details)
  {}

  /** A decision is refused exactly for a hub outside the workspace or a row the table forbids. */
  lemma DecideRefusedIff(hubs: Hubs, edges: seq<Edge>, verdict: Verdict, source: HubId, target: HubId, kind: string,
        details: Details, workspace: Option<Workspace>)
    ensures var r := Decide(hubs, edges, verdict, source, target, kind, details, workspace);
            var inside := workspace.Some? ==>
                            && source != target && source in hubs && target in hubs
                            && hubs[source] == workspace == hubs[target];
            var allowed := source in hubs && target in hubs && kind in ALL_TYPES
                           && (verdict == Approved && details.confidence.Some? ==>
                                 0 <= details.confidence.value <= 1000);
            && (r == Err(HubNotInWorkspace) <==> !inside)
            && (r == Err(ConstraintViolation) <==> inside && !allowed)
            && (r.Ok? <==> inside && allowed)
  {}

  /** The fields of a row after an update: each one given is set, and every other stays. */
  predicate UpdatedRow(now: Edge, was: Edge, c: Changes) {
    && now.kind == (if c.kind.Some? then c.kind.value else was.kind)
    && now.status == (if c.status.Some? then c.status.value else was.status)
    && now.details.confidence == (if c.confidence.Some? then c.confidence.value else was.details.confidence)
    && now.details.reason == (if c.reason.Some? then c.reason.value else was.details.reason)
    && now.details.note == (if c.note.Some? then c.note.value else was.details.note)
    && now == was.(kind := now.kind, status := now.status,
                   details := Details(now.details.confidence, now.details.reason, now.details.note,
                                      was.details.createdBy))
  }

  /** An update sets the given fields of its visible row, never the key, and changes no other row. */
  lemma UpdateTakesEffect(hubs: Hubs, edges: seq<Edge>, id: nat, c: Changes, workspace: Option<Workspace>)
    ensures var r := Update(hubs, edges, id, c, workspace);
            var valid := (c.kind.Some? ==> c.kind.value in ALL_TYPES)
                         && (c.status.Some? ==> c.status.value in VALID_STATUSES);
            var visible := id < |edges| && (workspace.Some? ==> edges[id].workspace == workspace);
            && (r == Err(InvalidValue) <==> !valid)
            && (r.Ok? && !visible ==> r.value == edges)
            && (r.Ok? && visible ==>
                  && |r.value| == |edges| && UpdatedRow(r.value[id], edges[id], c)
                  && forall i | 0 <= i < |edges| && i != id :: r.value[i] == edges[i])
  {
    var r := Update(hubs, edges, id, c, workspace);
    if c == NO_CHANGES && id < |edges| { assert UpdatedRow(edges[id], edges[id], c); }
  }

  /** Archiving marks its visible unarchived row and changes nothing else. */
  lemma ArchiveTakesEffect(edges: seq<Edge>, id: nat, workspace: Option<Workspace>)
    ensures var after := Archive(edges, id, workspace);
            && |after| == |edges|
            && (forall i | 0 <= i < |edges| && i != id :: after[i] == edges[i])
            && (id < |edges| ==>
                  after[id] == if !edges[id].archived && (workspace.Some? ==> edges[id].workspace == workspace)
                               then edges[id].(status := "archived", archived := true) else edges[id])
  {}

  // ----- no decision without a human -----

  predicate Decided(e: Edge) {
    e.status == "approved" || e.status == "rejected"
  }

  /** A human call that appends row `i`, decides on its key or updates it. */
  predicate TouchedByHuman(op: Op, edges: seq<Edge>, i: nat) {
    match op
    case CreateOp(_, _, _, _, _, _, _) => i == |edges|
    case DecideOp(_, s, t, kind, _, _) =>
      i == |edges| || (i < |edges| && !edges[i].archived && edges[i].key == ComputeEdgeKey(s, t, kind))
    case ArchiveOp(_, _) => false
    case UpdateOp(id, _, _) => i == id
    case ProduceOp(_, _) => false
  }

  predicate EverTouched(hubs: Hubs, edges: seq<Edge>, ops: seq<Op>, i: nat)
    decreases |ops|
  {
    ops != [] && (TouchedByHuman(ops[0], edges, i) || EverTouched(hubs, Apply(hubs, edges, ops[0]), ops[1..], i))
  }

  lemma ApplyDecidesOnlyTouched(hubs: Hubs, edges: seq<Edge>, op: Op, i: nat)
    requires i < |Apply(hubs, edges, op)| && Decided(Apply(hubs, edges, op)[i]) && !TouchedByHuman(op, edges, i)
    ensures i < |edges| && Decided(edges[i])
  {
    if op.ProduceOp? && Persist(hubs, edges, op.proposals, op.producerWorkspace).Ok? {
      PersistAppends(hubs, edges, op.proposals, op.producerWorkspace);
    }
  }

  /**
   The human gate over whole runs: a row that is approved or rejected at the end
   was so before, or a create, decide or update call named it; producer runs and
   archiving never decide.
   */
  lemma {:induction false} OnlyHumansDecide(hubs: Hubs, edges: seq<Edge>, ops: seq<Op>, i: nat)
    requires i < |Run(hubs, edges, ops)| && Decided(Run(hubs, edges, ops)[i])
    ensures (i < |edges| && Decided(edges[i])) || EverTouched(hubs, edges, ops, i)
    decreases |ops|
  {
    if ops != [] {
      var next := Apply(hubs, edges, ops[0]);
      OnlyHumansDecide(hubs, next, ops[1..], i);
      if i < |next| && Decided(next[i]) && !TouchedByHuman(ops[0], edges, i) {
        ApplyDecidesOnlyTouched(hubs, edges, ops[0], i);
      }
    }
  }

  // ----- what every row keeps -----

  /** The table's constraints, and for a row of a workspace that both its hubs are different hubs of it. */
  predicate InPlace(hubs: Hubs, e: Edge) {
    && e.source in hubs && e.target in hubs
    && e.kind in {"parent", "related", "duplicate", "overlaps", "supports", "part_of", "contradicts"}
    && e.status in {"inferred", "manual", "approved", "rejected", "needs_review", "archived"}
    && e.origin in {"manual", "inferred_approved", "inferred_rejected", "ai_suggested", "migration_localStorage"}
    && (e.details.confidence.Some? ==> 0 <= e.details.confidence.value <= 1000)
    && (e.workspace.Some? ==>
          e.source != e.target && hubs[e.source] == e.workspace && hubs[e.target] == e.workspace)
  }

  ghost predicate AllInPlace(hubs: Hubs, edges: seq<Edge>) {
    forall i | 0 <= i < |edges| :: InPlace(hubs, edges[i])
  }

  /** The producer proposes pairs of different hubs of its workspace, as it reads them from there. */
  ghost predicate ProposesInside(hubs: Hubs, op: Op) {
    op.ProduceOp? ==> forall p | p in op.proposals ::
                        p.source in hubs && p.target in hubs && p.source != p.target
                        && hubs[p.source] == Some(op.producerWorkspace) == hubs[p.target]
  }

  lemma {:induction false} PersistKeepsInPlace(hubs: Hubs, edges: seq<Edge>, proposals: seq<Proposal>,
        workspace: Workspace)
    requires AllInPlace(hubs, edges) && ProposesInside(hubs, ProduceOp(proposals, workspace))
    ensures var r := Persist(hubs, edges, proposals, workspace); r.Ok? ==> AllInPlace(hubs, r.value)
    decreases |proposals|
  {
    if proposals != [] && RowAllowed(hubs, Inferred(proposals[0], workspace)) {
      assert proposals[0] in proposals && InPlace(hubs, Inferred(proposals[0], workspace));
      assert forall p | p in proposals[1..] :: p in proposals;
      PersistKeepsInPlace(hubs, NextRows(edges, proposals[0], workspace), proposals[1..], workspace);
    }
  }

  lemma ApplyKeepsInPlace(hubs: Hubs, edges: seq<Edge>, op: Op)
    requires AllInPlace(hubs, edges) && ProposesInside(hubs, op)
    ensures AllInPlace(hubs, Apply(hubs, edges, op))
  {
    match op
    case CreateOp(s, t, kind, status, origin, details, w) =>
    case DecideOp(verdict, s, t, kind, details, w) =>
      var at := ActiveAt(edges, ComputeEdgeKey(s, t, kind));
      if at.Some? { assert InPlace(hubs, edges[at.value]); }
    case ArchiveOp(id, w) =>
      if id < |edges| { assert InPlace(hubs, edges[id]); }
    case UpdateOp(id, changes, w) =>
      if id < |edges| { assert InPlace(hubs, edges[id]); }
    case ProduceOp(proposals, w) =>
      PersistKeepsInPlace(hubs, edges, proposals, w);
  }

  ghost predicate AlwaysInside(hubs: Hubs, ops: seq<Op>) {
    forall op | op in ops :: ProposesInside(hubs, op)
  }

  /** Over every run all rows meet the table's constraints, and a row of a workspace joins two hubs of it. */
  lemma {:induction false} RunKeepsInPlace(hubs: Hubs, edges: seq<Edge>, ops: seq<Op>)
    requires AllInPlace(hubs, edges) && AlwaysInside(hubs, ops)
    ensures AllInPlace(hubs, Run(hubs, edges, ops))
    decreases |ops|
  {
    if ops != [] {
      assert ops[0] in ops && forall op | op in ops[1..] :: op in ops;
      ApplyKeepsInPlace(hubs, edges, ops[0]);
      RunKeepsInPlace(hubs, Apply(hubs, edges, ops[0]), ops[1..]);
    }
  }
}
