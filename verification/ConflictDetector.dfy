/**
 The detector's check for competing current items: within one scope, the items
 that are current are grouped by memory type and state identity, and a group of
 two or more becomes a conflict candidate.
 */
module ConflictDetector {
  import opened Wrappers
  import CurrentState

  type Id = string

  /**
   A joined source row; the empty string stands for a missing content id. `scope` is the row's scope
   after markers.
   */
  datatype SourceRow = SourceRow(
    content: Id, workspace: Id, memoryType: Option<string>, isCurrent: Option<bool>, identity: Option<string>,
        scope: string)

  datatype Group = Group(memoryType: Option<string>, identity: Option<string>)

  datatype Candidate = Candidate(scope: string, group: Group, first: Id, second: Id)

  function GroupOf(r: SourceRow): Group {
    Group(r.memoryType, r.identity)
  }

  // ----- what the loops compute -----

  predicate Selected(r: SourceRow, workspace: Id, scope: Option<string>, memoryType: Option<string>) {
    && r.content != "" && r.workspace == workspace
    && (memoryType.Some? ==> r.memoryType == memoryType)
    && (scope.Some? ==> r.scope == scope.value)
  }

  function Select(rows: seq<SourceRow>, workspace: Id, scope: Option<string>,
        memoryType: Option<string>): (r: seq<SourceRow>)
    ensures forall x :: x in r <==> x in rows && Selected(x, workspace, scope, memoryType)
  {
    if rows == [] then []
    else
      var first := if Selected(rows[0], workspace, scope, memoryType) then [rows[0]] else [];
      first + Select(rows[1..], workspace, scope, memoryType)
  }

  function Contents(rows: seq<SourceRow>): set<Id> {
    set r | r in rows :: r.content
  }

  /** The first current row of each content in one scope. */
  function ActiveRows(rows: seq<SourceRow>, scope: string): seq<SourceRow> {
    if rows == [] then []
    else
      var n := |rows| - 1;
      var before := ActiveRows(rows[..n], scope);
      var isNew := rows[n].scope == scope && rows[n].isCurrent == Some(true) && rows[n].content !in Contents(before);
      if isNew then before + [rows[n]] else before
  }

  function Members(rows: seq<SourceRow>, group: Group): seq<SourceRow> {
    if rows == [] then []
    else
      var n := |rows| - 1;
      Members(rows[..n], group) + (if GroupOf(rows[n]) == group then [rows[n]] else [])
  }

  lemma {:induction false} MembersAre(rows: seq<SourceRow>, group: Group, x: SourceRow)
    ensures x in Members(rows, group) <==> x in rows && GroupOf(x) == group
  {
    if rows != [] {
      var n := |rows| - 1;
      MembersAre(rows[..n], group, x);
      assert rows == rows[..n] + [rows[n]];
    }
  }

  /** Active rows are current rows of the scope, and every current row of the scope has its content among them. */
  lemma {:induction false} ActiveRowsAre(rows: seq<SourceRow>, scope: string, x: SourceRow)
    ensures x in ActiveRows(rows, scope) ==> x in rows && x.scope == scope && x.isCurrent == Some(true)
    ensures x in rows && x.scope == scope && x.isCurrent == Some(true) ==>
              exists y :: y in ActiveRows(rows, scope) && y.content == x.content
  {
    if rows != [] {
      var n := |rows| - 1;
      ActiveRowsAre(rows[..n], scope, x);
      assert rows == rows[..n] + [rows[n]];
      var before, after := ActiveRows(rows[..n], scope), ActiveRows(rows, scope);
      assert forall y | y in before :: y in after;
      if x == rows[n] && x.scope == scope && x.isCurrent == Some(true) && x.content !in Contents(before) {
        assert x in after;
      }
    }
  }

  lemma {:induction false} ActiveRowsDistinct(rows: seq<SourceRow>, scope: string)
    ensures DistinctContents(ActiveRows(rows, scope))
  {
    if rows != [] { ActiveRowsDistinct(rows[..|rows| - 1], scope); }
  }

  ghost predicate DistinctContents(rows: seq<SourceRow>) {
    forall i, j | 0 <= i < j < |rows| :: rows[i].content != rows[j].content
  }

  lemma {:induction false} MembersDistinct(rows: seq<SourceRow>, group: Group)
    requires DistinctContents(rows)
    ensures DistinctContents(Members(rows, group))
  {
    if rows != [] {
      var n := |rows| - 1;
      var before := Members(rows[..n], group);
      MembersDistinct(rows[..n], group);
      forall i | 0 <= i < |before| ensures before[i].content != rows[n].content {
        MembersAre(rows[..n], group, before[i]);
        var k :| 0 <= k < n && rows[..n][k] == before[i];
      }
    }
  }

  /** The groups in order of first appearance. */
  function GroupOrder(rows: seq<SourceRow>): seq<Group> {
    if rows == [] then []
    else
      var n := |rows| - 1;
      var before := GroupOrder(rows[..n]);
      if GroupOf(rows[n]) in before then before else before + [GroupOf(rows[n])]
  }

  /** The scopes in order of first appearance. */
  function ScopeOrder(rows: seq<SourceRow>): seq<string> {
    if rows == [] then []
    else
      var n := |rows| - 1;
      var before := ScopeOrder(rows[..n]);
      if rows[n].scope in before then before else before + [rows[n].scope]
  }

  lemma {:induction false} OrdersComplete(rows: seq<SourceRow>, x: SourceRow)
    requires x in rows
    ensures GroupOf(x) in GroupOrder(rows) && x.scope in ScopeOrder(rows)
  {
    var n := |rows| - 1;
    assert rows == rows[..n] + [rows[n]];
    if x in rows[..n] { OrdersComplete(rows[..n], x); }
  }

  /** A group of two or more current rows is reported by its first two. */
  function GroupCandidate(active: seq<SourceRow>, scope: string, g: Group): seq<Candidate> {
    var m := Members(active, g);
    if |m| > 1 then [Candidate(scope, g, m[0].content, m[1].content)] else []
  }

  function GroupCandidates(active: seq<SourceRow>, scope: string, order: seq<Group>): seq<Candidate> {
    if order == [] then []
    else GroupCandidates(active, scope, order[..|order| - 1]) + GroupCandidate(active, scope, order[|order| - 1])
  }

  function ScopeCandidates(rows: seq<SourceRow>, scope: string): seq<Candidate> {
    GroupCandidates(ActiveRows(rows, scope), scope, GroupOrder(ActiveRows(rows, scope)))
  }

  function Candidates(rows: seq<SourceRow>, scopes: seq<string>): seq<Candidate> {
    if scopes == [] then []
    else Candidates(rows, scopes[..|scopes| - 1]) + ScopeCandidates(rows, scopes[|scopes| - 1])
  }

  // ----- the loops -----

  method CollectActive(rows: seq<SourceRow>, scope: string) returns (active: seq<SourceRow>)
    ensures active == ActiveRows(rows, scope)
  {
    active := [];
    for i := 0 to |rows|
      invariant active == ActiveRows(rows[..i], scope)
    {
      assert rows[..i + 1][..i] == rows[..i];
      if rows[i].scope == scope && rows[i].isCurrent == Some(true) && rows[i].content !in Contents(active) {
        active := active + [rows[i]];
      }
    }
    assert rows[..|rows|] == rows;
  }

  function Lookup(groups: map<Group, seq<SourceRow>>, g: Group): seq<SourceRow> {
    if g in groups then groups[g] else []
  }

  method GroupActive(active: seq<SourceRow>) returns (groups: map<Group, seq<SourceRow>>, order: seq<Group>)
    ensures order == GroupOrder(active)
    ensures forall g :: Lookup(groups, g) == Members(active, g)
  {
    groups, order := map[], [];
    for i := 0 to |active|
      invariant order == GroupOrder(active[..i])
      invariant forall g :: g in order <==> g in groups
      invariant forall g :: Lookup(groups, g) == Members(active[..i], g)
    {
      var g := GroupOf(active[i]);
      assert active[..i + 1][..i] == active[..i];
      assert Lookup(groups, g) == Members(active[..i], g);
      if g !in groups {
        order := order + [g];
      }
      groups := groups[g := Lookup(groups, g) + [active[i]]];
    }
    assert active[..|active|] == active;
  }

  method ReportGroups(active: seq<SourceRow>, groups: map<Group, seq<SourceRow>>, order: seq<Group>, scope: string)
    returns (candidates: seq<Candidate>)
    requires forall g :: Lookup(groups, g) == Members(active, g)
    ensures candidates == GroupCandidates(active, scope, order)
  {
    candidates := [];
    for i := 0 to |order|
      invariant candidates == GroupCandidates(active, scope, order[..i])
    {
      assert order[..i + 1][..i] == order[..i];
      var members := Lookup(groups, order[i]);
      if |members| > 1 {
        candidates := candidates + [Candidate(scope, order[i], members[0].content, members[1].content)];
      }
    }
    assert order[..|order|] == order;
  }

  /** One scope: collect the current rows, group them, and report every group with two members. */
  method DetectInScope(rows: seq<SourceRow>, scope: string) returns (candidates: seq<Candidate>)
    ensures candidates == ScopeCandidates(rows, scope)
  {
    var active := CollectActive(rows, scope);
    var groups, order := GroupActive(active);
    candidates := ReportGroups(active, groups, order, scope);
  }

  method CollectScopes(rows: seq<SourceRow>) returns (scopes: seq<string>)
    ensures scopes == ScopeOrder(rows)
  {
    scopes := [];
    for i := 0 to |rows|
      invariant scopes == ScopeOrder(rows[..i])
    {
      assert rows[..i + 1][..i] == rows[..i];
      if rows[i].scope !in scopes {
        scopes := scopes + [rows[i].scope];
      }
    }
    assert rows[..|rows|] == rows;
  }

  method DetectInScopes(rows: seq<SourceRow>, scopes: seq<string>) returns (candidates: seq<Candidate>)
    ensures candidates == Candidates(rows, scopes)
  {
    candidates := [];
    for i := 0 to |scopes|
      invariant candidates == Candidates(rows, scopes[..i])
    {
      var found := DetectInScope(rows, scopes[i]);
      candidates := candidates + found;
      CandidatesSnoc(rows, scopes, i);
    }
    assert scopes[..|scopes|] == scopes;
  }

  lemma CandidatesSnoc(rows: seq<SourceRow>, scopes: seq<string>, i: nat)
    requires i < |scopes|
    ensures Candidates(rows, scopes[..i + 1]) == Candidates(rows, scopes[..i]) + ScopeCandidates(rows, scopes[i])
  {
    assert scopes[..i + 1][..i] == scopes[..i];
  }

  method DetectCompeting(rows: seq<SourceRow>, workspace: Id, scope: Option<string>, memoryType: Option<string>)
    returns (candidates: seq<Candidate>)
    ensures candidates == Competing(rows, workspace, scope, memoryType)
  {
    if workspace == "" {
      return [];
    }
    var parsed := Select(rows, workspace, scope, memoryType);
    var scopes := CollectScopes(parsed);
    candidates := DetectInScopes(parsed, scopes);
  }

  function Detected(rows: seq<SourceRow>): seq<Candidate> {
    Candidates(rows, ScopeOrder(rows))
  }

  /** What is reported of these rows to a caller who asks about a workspace, and maybe one scope or memory type. */
  function Competing(rows: seq<SourceRow>, workspace: Id, scope: Option<string>, memoryType: Option<string>)
    : seq<Candidate>
  {
    if workspace == "" then [] else Detected(Select(rows, workspace, scope, memoryType))
  }

  // ----- what is reported -----

  lemma {:induction false} GroupCandidatesAre(active: seq<SourceRow>, scope: string, order: seq<Group>, c: Candidate)
    ensures c in GroupCandidates(active, scope, order) <==>
              c.group in order && c in GroupCandidate(active, scope, c.group)
  {
    if order != [] { GroupCandidatesAre(active, scope, order[..|order| - 1], c); }
  }

  lemma {:induction false} CandidatesAre(rows: seq<SourceRow>, scopes: seq<string>, c: Candidate)
    ensures c in Candidates(rows, scopes) <==> c.scope in scopes && c in ScopeCandidates(rows, c.scope)
  {
    if scopes != [] {
      var last := scopes[|scopes| - 1];
      CandidatesAre(rows, scopes[..|scopes| - 1], c);
      GroupCandidatesAre(ActiveRows(rows, last), last, GroupOrder(ActiveRows(rows, last)), c);
    }
  }

  /** Two different contents, both current, in one scope and group. */
  predicate Compete(r: SourceRow, q: SourceRow) {
    r.content != q.content && r.isCurrent == q.isCurrent == Some(true) && r.scope == q.scope && GroupOf(r) == GroupOf(q)
  }

  /** Every candidate names two competing rows. */
  lemma DetectedAreCompeting(rows: seq<SourceRow>, c: Candidate)
    requires c in Detected(rows)
    ensures exists r, q :: r in rows && q in rows && Compete(r, q) && r.content == c.first && q.content == c.second
              && r.scope == c.scope && GroupOf(r) == c.group
  {
    CandidatesAre(rows, ScopeOrder(rows), c);
    var active := ActiveRows(rows, c.scope);
    GroupCandidatesAre(active, c.scope, GroupOrder(active), c);
    ActiveRowsDistinct(rows, c.scope);
    MembersDistinct(active, c.group);
    var m := Members(active, c.group);
    MembersAre(active, c.group, m[0]);
    MembersAre(active, c.group, m[1]);
    ActiveRowsAre(rows, c.scope, m[0]);
    ActiveRowsAre(rows, c.scope, m[1]);
    assert Compete(m[0], m[1]);
  }

  /** A row of the workspace shows the content as current in the candidate's scope and group. */
  ghost predicate ShownCurrent(rows: seq<SourceRow>, workspace: Id, c: Candidate, id: Id) {
    exists r :: r in rows && r.content == id && r.workspace == workspace && r.isCurrent == Some(true)
                && r.scope == c.scope && GroupOf(r) == c.group
  }

  /**
   A caller is told only what it asked about: two different current contents of
   its workspace, and in the scope and of the memory type it names.
   */
  lemma ReportedAsAsked(rows: seq<SourceRow>, workspace: Id, scope: Option<string>, memoryType: Option<string>,
        c: Candidate)
    requires c in Competing(rows, workspace, scope, memoryType)
    ensures c.first != c.second && c.first != "" && c.second != ""
    ensures (scope.Some? ==> c.scope == scope.value) && (memoryType.Some? ==> c.group.memoryType == memoryType)
    ensures ShownCurrent(rows, workspace, c, c.first) && ShownCurrent(rows, workspace, c, c.second)
  {
    var parsed := Select(rows, workspace, scope, memoryType);
    DetectedAreCompeting(parsed, c);
    var r, q :| r in parsed && q in parsed && Compete(r, q) && r.content == c.first && q.content == c.second
        && r.scope == c.scope && GroupOf(r) == c.group;
    assert r in rows && q in rows && GroupOf(q) == c.group;
  }

  /** The first current row of its content in the scope. */
  ghost predicate FirstCurrent(rows: seq<SourceRow>, scope: string, i: int) {
    && 0 <= i < |rows| && rows[i].scope == scope && rows[i].isCurrent == Some(true)
    && forall j | 0 <= j < i && rows[j].scope == scope && rows[j].isCurrent == Some(true) ::
         rows[j].content != rows[i].content
  }

  /** Every active row is the first current one of its content. */
  lemma {:induction false} ActiveIsFirst(rows: seq<SourceRow>, scope: string, x: SourceRow) returns (i: nat)
    requires x in ActiveRows(rows, scope)
    ensures FirstCurrent(rows, scope, i) && rows[i] == x
  {
    var n := |rows| - 1;
    if x in ActiveRows(rows[..n], scope) {
      i := ActiveIsFirst(rows[..n], scope, x);
      FirstInFront(rows, scope, i);
    } else {
      i := n;
      LastIsFirst(rows, scope);
    }
  }

  lemma {:induction false} FirstIsActive(rows: seq<SourceRow>, scope: string, i: nat)
    requires FirstCurrent(rows, scope, i)
    ensures rows[i] in ActiveRows(rows, scope)
  {
    var n := |rows| - 1;
    if i < n {
      FirstInFront(rows, scope, i);
      FirstIsActive(rows[..n], scope, i);
      assert rows[..n][i] == rows[i];
    } else {
      LastIsFirst(rows, scope);
    }
  }

  lemma FirstInFront(rows: seq<SourceRow>, scope: string, i: nat)
    requires i < |rows| - 1
    ensures FirstCurrent(rows[..|rows| - 1], scope, i) <==> FirstCurrent(rows, scope, i)
  {
    var front := rows[..|rows| - 1];
    assert forall j | 0 <= j <= i :: front[j] == rows[j];
  }

  /** The last row is the first current one of its content exactly when the rows before have no active one of it. */
  lemma LastIsFirst(rows: seq<SourceRow>, scope: string)
    requires rows != []
    ensures var n := |rows| - 1; var last := rows[n];
            FirstCurrent(rows, scope, n) <==>
              last.scope == scope && last.isCurrent == Some(true)
                  && last.content !in Contents(ActiveRows(rows[..n], scope))
  {
    var n := |rows| - 1;
    var front, before := rows[..n], ActiveRows(rows[..n], scope);
    forall j | 0 <= j < n && rows[j].scope == scope && rows[j].isCurrent == Some(true)
      ensures rows[j].content in Contents(before)
    {
      ActiveRowsAre(front, scope, front[j]);
    }
    forall y | y in before
      ensures exists j :: 0 <= j < n && rows[j] == y && y.scope == scope && y.isCurrent == Some(true)
    {
      ActiveRowsAre(front, scope, y);
      var j :| 0 <= j < n && front[j] == y;
      assert rows[j] == y;
    }
  }

  /**
   A group is reported in a scope if and only if two different contents have
   their first current rows there in that group, whatever their later rows show.
   */
  lemma ReportedIff(rows: seq<SourceRow>, scope: string, group: Group)
    ensures (exists c :: c in Detected(rows) && c.scope == scope && c.group == group) <==>
            (exists i, j :: FirstCurrent(rows, scope, i) && FirstCurrent(rows, scope, j)
                && rows[i].content != rows[j].content
               && GroupOf(rows[i]) == group == GroupOf(rows[j]))
  {
    if c :| c in Detected(rows) && c.scope == scope && c.group == group {
      ReportedPair(rows, c);
    }
    if i, j :| FirstCurrent(rows, scope, i) && FirstCurrent(rows, scope, j) && rows[i].content != rows[j].content
               && GroupOf(rows[i]) == group == GroupOf(rows[j]) {
      FirstIsActive(rows, scope, i);
      FirstIsActive(rows, scope, j);
      ActivePairReported(rows, rows[i], rows[j]);
    }
  }

  lemma ReportedPair(rows: seq<SourceRow>, c: Candidate)
    requires c in Detected(rows)
    ensures exists i, j :: FirstCurrent(rows, c.scope, i) && FirstCurrent(rows, c.scope, j)
              && rows[i].content != rows[j].content
              && GroupOf(rows[i]) == c.group == GroupOf(rows[j])
  {
    var active := ActiveRows(rows, c.scope);
    CandidatesAre(rows, ScopeOrder(rows), c);
    GroupCandidatesAre(active, c.scope, GroupOrder(active), c);
    ActiveRowsDistinct(rows, c.scope);
    MembersDistinct(active, c.group);
    var m := Members(active, c.group);
    MembersAre(active, c.group, m[0]);
    MembersAre(active, c.group, m[1]);
    var i := ActiveIsFirst(rows, c.scope, m[0]);
    var j := ActiveIsFirst(rows, c.scope, m[1]);
  }

  lemma ActivePairReported(rows: seq<SourceRow>, r: SourceRow, q: SourceRow)
    requires r in ActiveRows(rows, r.scope) && q in ActiveRows(rows, r.scope) && r.content != q.content
               && GroupOf(r) == GroupOf(q)
    ensures exists c :: c in Detected(rows) && c.scope == r.scope && c.group == GroupOf(r)
  {
    var active, g := ActiveRows(rows, r.scope), GroupOf(r);
    var m := Members(active, g);
    MembersAre(active, g, r);
    MembersAre(active, g, q);
    TwoMembers(m, r, q);
    OrdersComplete(active, r);
    ActiveRowsAre(rows, r.scope, r);
    OrdersComplete(rows, r);
    var c := Candidate(r.scope, g, m[0].content, m[1].content);
    assert c in GroupCandidate(active, r.scope, g);
    GroupCandidatesAre(active, r.scope, GroupOrder(active), c);
    CandidatesAre(rows, ScopeOrder(rows), c);
  }

  lemma TwoMembers(m: seq<SourceRow>, r: SourceRow, q: SourceRow)
    requires r in m && q in m && r != q
    ensures |m| > 1
  {
  }

  // ----- the detector over resolver states -----

  /**
   The row shows the stored current-state columns of its content, whatever chunk, scope marker or
   anchor it was joined with.
   */
  predicate RowOf(st: CurrentState.State, r: SourceRow) {
    && r.content in st.items
    && var item := st.items[r.content];
       r.workspace == item.workspace && r.memoryType == Some(item.memoryType) && r.isCurrent == item.isCurrent
           && r.identity == item.identity
  }

  /** Rows that each show the stored columns of their content. */
  ghost predicate RowsOf(st: CurrentState.State, rows: seq<SourceRow>) {
    forall r | r in rows :: RowOf(st, r)
  }

  /**
   Whatever rows are read from the state, however often a content is repeated per chunk or re-scoped
   by markers, and whatever is asked for, no competing current items are reported for an identity.
   */
  ghost predicate Undetected(st: CurrentState.State) {
    forall rows, workspace, scope, memoryType, c |
      RowsOf(st, rows) && c in Competing(rows, workspace, scope, memoryType) :: c.group.identity == None
  }

  /** Two different current contents hold one identity in one workspace and memory type. */
  predicate Rivals(st: CurrentState.State, x: Id, y: Id) {
    && x in st.items && y in st.items && x != y && x != "" && y != ""
    && var a, b := st.items[x], st.items[y];
       a.isCurrent == b.isCurrent == Some(true) && a.workspace == b.workspace != "" && a.memoryType == b.memoryType
           && a.identity.Some? && a.identity == b.identity
  }

  ghost predicate NoRivals(st: CurrentState.State) {
    forall x, y :: !Rivals(st, x, y)
  }

  function StoredRow(st: CurrentState.State, id: Id): SourceRow
    requires id in st.items
  {
    var item := st.items[id];
    SourceRow(id, item.workspace, Some(item.memoryType), item.isCurrent, item.identity, "")
  }

  /** Some rows of a state have an identity reported exactly when the state has rivals. */
  lemma NoRivalsIffUndetected(st: CurrentState.State)
    ensures NoRivals(st) <==> Undetected(st)
  {
    if x, y :| Rivals(st, x, y) {
      RivalsAreReported(st, x, y);
    }
    forall rows, workspace, scope, memoryType, c |
      RowsOf(st, rows) && c in Competing(rows, workspace, scope, memoryType) && c.group.identity != None
      ensures !NoRivals(st)
    {
      ReportedAreRivals(st, rows, workspace, scope, memoryType, c);
    }
  }

  lemma ReportedAreRivals(st: CurrentState.State, rows: seq<SourceRow>, workspace: Id, scope: Option<string>,
        memoryType: Option<string>, c: Candidate)
    requires RowsOf(st, rows) && c in Competing(rows, workspace, scope, memoryType) && c.group.identity != None
    ensures Rivals(st, c.first, c.second)
  {
    var parsed := Select(rows, workspace, scope, memoryType);
    DetectedAreCompeting(parsed, c);
    var r, q :| r in parsed && q in parsed && Compete(r, q) && r.content == c.first && q.content == c.second
        && r.scope == c.scope && GroupOf(r) == c.group;
    assert RowOf(st, r) && RowOf(st, q);
  }

  lemma {:induction false} SelectKeepsAll(rows: seq<SourceRow>, workspace: Id)
    requires forall r | r in rows :: Selected(r, workspace, None, None)
    ensures Select(rows, workspace, None, None) == rows
  {
    if rows != [] { SelectKeepsAll(rows[1..], workspace); }
  }

  lemma RivalsAreReported(st: CurrentState.State, x: Id, y: Id)
    requires Rivals(st, x, y)
    ensures !Undetected(st)
  {
    var r, q := StoredRow(st, x), StoredRow(st, y);
    var rows := [r, q];
    SelectKeepsAll(rows, r.workspace);
    assert FirstCurrent(rows, "", 0) && FirstCurrent(rows, "", 1);
    assert rows[0].content != rows[1].content && GroupOf(rows[0]) == GroupOf(r) == GroupOf(rows[1]);
    ReportedIff(rows, "", GroupOf(r));
    var c :| c in Detected(rows) && c.scope == "" && c.group == GroupOf(r);
    assert RowsOf(st, rows) && c in Competing(rows, r.workspace, None, None);
  }

  // ----- exactly which calls make two contents compete -----

  /**
   `y` is another current content of the identity the call gives its content, in the workspace and
   memory type stored for that content, and the call does not supersede it.
   */
  predicate Meets(st: CurrentState.State, call: CurrentState.Call, y: Id) {
    && call.content in st.items && y in st.items && y != call.content && y != ""
    && CurrentState.SupersededBy(st, call) != Some(y)
    && var x, other := st.items[call.content], st.items[y];
       other.isCurrent == Some(true) && other.identity == Some(call.identity)
           && other.workspace == x.workspace != "" && other.memoryType == x.memoryType
  }

  /** The call makes its content current beside another content of the same identity. */
  ghost predicate MakesRival(st: CurrentState.State, op: CurrentState.Op) {
    op.Resolve? && CurrentState.Confirms(st, op.call) && exists y :: Meets(st, op.call, y)
  }

  ghost predicate NeverMakesRival(st: CurrentState.State, ops: seq<CurrentState.Op>)
    decreases |ops|
  {
    ops == [] || (!MakesRival(st, ops[0]) && NeverMakesRival(CurrentState.Apply(st, ops[0]), ops[1..]))
  }

  ghost predicate AlwaysUndetected(st: CurrentState.State, ops: seq<CurrentState.Op>)
    decreases |ops|
  {
    Undetected(st) && (ops == [] || AlwaysUndetected(CurrentState.Apply(st, ops[0]), ops[1..]))
  }

  /** The columns of a content after a confirming call. */
  ghost predicate AfterConfirm(st: CurrentState.State, call: CurrentState.Call, id: Id, item: CurrentState.Item)
    requires id in st.items
  {
    var before := st.items[id];
    && item.workspace == before.workspace && item.memoryType == before.memoryType
    && if id == call.content then item.isCurrent == Some(true) && item.identity == Some(call.identity)
       else item.identity == before.identity && item.isCurrent
              == if CurrentState.SupersededBy(st, call) == Some(id) then Some(false) else before.isCurrent
  }

  lemma ConfirmedItem(st: CurrentState.State, call: CurrentState.Call, id: Id)
    requires CurrentState.Linked(st) && CurrentState.Confirms(st, call) && id in st.items
    ensures var after := CurrentState.Step(st, call).0.items; id in after && AfterConfirm(st, call, id, after[id])
  {
    if CurrentState.Inserts(st, call) {
      CurrentState.InsertShape(st, call);
      InsertedItem(st.items, call, CurrentState.SupersededBy(st, call), id);
    }
  }

  lemma InsertedItem(items: map<Id, CurrentState.Item>, call: CurrentState.Call, previous: Option<Id>, id: Id)
    requires id in items
    ensures var after :=
              CurrentState.SetCurrent(CurrentState.SetObsolete(items, previous, call.scope), call, previous);
            && id in after && after[id].workspace == items[id].workspace && after[id].memoryType == items[id].memoryType
            && if id == call.content
               then after[id].isCurrent == Some(true) && after[id].identity == Some(call.identity)
               else after[id].identity == items[id].identity
                    && after[id].isCurrent == if previous == Some(id) then Some(false) else items[id].isCurrent
  {}

  lemma CallKeepsNoRivalsIff(st: CurrentState.State, call: CurrentState.Call)
    requires CurrentState.Linked(st) && NoRivals(st)
    ensures NoRivals(CurrentState.Step(st, call).0) <==> !MakesRival(st, CurrentState.Resolve(call))
  {
    var after := CurrentState.Step(st, call).0;
    if CurrentState.Confirms(st, call) {
      if y :| Meets(st, call, y) {
        ConfirmedItem(st, call, y);
        ConfirmedItem(st, call, call.content);
        assert Rivals(after, call.content, y);
      }
      if x, y :| Rivals(after, x, y) {
        ConfirmedItem(st, call, x);
        ConfirmedItem(st, call, y);
        assert !Rivals(st, x, y);
        assert Meets(st, call, if x == call.content then y else x);
      }
    } else {
      forall x, y ensures Rivals(after, x, y) <==> Rivals(st, x, y) {}
    }
  }

  /** From a state without rivals a step leaves none if and only if it does not make one. */
  lemma ApplyKeepsNoRivalsIff(st: CurrentState.State, op: CurrentState.Op)
    requires CurrentState.Linked(st) && NoRivals(st)
    ensures CurrentState.Linked(CurrentState.Apply(st, op))
    ensures NoRivals(CurrentState.Apply(st, op)) <==> !MakesRival(st, op)
  {
    match op
    case SaveItem(_, _, _) =>
      if x, y :| Rivals(CurrentState.Apply(st, op), x, y) {
        assert !Rivals(st, x, y);
      }
    case Resolve(call) =>
      CurrentState.CallKeepsLinked(st, call);
      CallKeepsNoRivalsIff(st, call);
  }

  /**
   Over a whole run the detector never has competing current items to report
   for an identity, in any state and from any rows of it, if and only if no call
   makes its content current beside another content of the same identity.
   */
  lemma {:induction false} NoCompetingIdentities(st: CurrentState.State, ops: seq<CurrentState.Op>)
    requires CurrentState.Linked(st) && NoRivals(st)
    ensures AlwaysUndetected(st, ops) <==> NeverMakesRival(st, ops)
    decreases |ops|
  {
    NoRivalsIffUndetected(st);
    if ops != [] {
      var next := CurrentState.Apply(st, ops[0]);
      ApplyKeepsNoRivalsIff(st, ops[0]);
      NoRivalsIffUndetected(next);
      if !MakesRival(st, ops[0]) { NoCompetingIdentities(next, ops[1..]); }
    }
  }

  // ----- calls that name contents as stored make no rival -----

  /** The call names its content's stored workspace and memory type. */
  predicate CallAsStored(st: CurrentState.State, op: CurrentState.Op) {
    op.Resolve? && CurrentState.Inserts(st, op.call) ==>
      var item := st.items[op.call.content];
      op.call.workspace == item.workspace && op.call.memoryType == item.memoryType
  }

  predicate CallsAsStored(st: CurrentState.State, ops: seq<CurrentState.Op>)
    decreases |ops|
  {
    ops == [] || (CallAsStored(st, ops[0]) && CallsAsStored(CurrentState.Apply(st, ops[0]), ops[1..]))
  }

  /** The anchor's content has a row, with the anchor's workspace and memory type. */
  predicate AsStored(items: map<Id, CurrentState.Item>, a: CurrentState.Anchor) {
    a.content.Some? ==>
      && a.content.value in items
      && a.workspace == items[a.content.value].workspace && a.memoryType == items[a.content.value].memoryType
  }

  ghost predicate AllAsStored(st: CurrentState.State) {
    forall a | a in st.anchors :: AsStored(st.items, a)
  }

  /** Rows never lose their workspace or memory type. */
  lemma ItemsKeepKind(st: CurrentState.State, op: CurrentState.Op, id: Id)
    requires id in st.items
    ensures var after := CurrentState.Apply(st, op).items;
            && id in after && after[id].workspace == st.items[id].workspace
            && after[id].memoryType == st.items[id].memoryType
  {}

  lemma CallKeepsAllAsStored(st: CurrentState.State, op: CurrentState.Op)
    requires CurrentState.Linked(st) && AllAsStored(st) && CallAsStored(st, op)
    ensures AllAsStored(CurrentState.Apply(st, op))
  {
    var after := CurrentState.Apply(st, op);
    forall a | a in after.anchors ensures AsStored(after.items, a) {
      if op.Resolve? && CurrentState.Inserts(st, op.call) {
        InsertKeepsAsStored(st, op, a);
      } else {
        assert AsStored(st.items, a);
        if a.content.Some? { ItemsKeepKind(st, op, a.content.value); }
      }
    }
  }

  lemma InsertKeepsAsStored(st: CurrentState.State, op: CurrentState.Op, a: CurrentState.Anchor)
    requires CurrentState.Linked(st) && AllAsStored(st) && CallAsStored(st, op)
    requires op.Resolve? && CurrentState.Inserts(st, op.call) && a in CurrentState.Apply(st, op).anchors
    ensures AsStored(CurrentState.Apply(st, op).items, a)
  {
    var call, after := op.call, CurrentState.Apply(st, op).anchors;
    var previous := CurrentState.LastContent(CurrentState.Chain(st.anchors, CurrentState.KeyOf(call)));
    CurrentState.InsertShape(st, call);
    CurrentState.AnchorOrigin(st.anchors, call, previous, after, a);
    ItemsKeepKind(st, op, call.content);
    if a != CurrentState.NewAnchor(call, previous) && a.content.Some? {
      var b :| b in st.anchors && a == CurrentState.Retired(b, CurrentState.KeyOf(call), call.content, call.now);
      assert AsStored(st.items, b);
      ItemsKeepKind(st, op, a.content.value);
    }
  }

  /** Current contents whose anchors all carry their stored columns are not rivals. */
  lemma AsStoredHasNoRivals(st: CurrentState.State)
    requires CurrentState.Linked(st) && CurrentState.IdentityHeld(st) && AllAsStored(st)
    ensures NoRivals(st)
  {
    if x, y :| Rivals(st, x, y) {
      var a := ActiveAnchorOf(st, x);
      var b := ActiveAnchorOf(st, y);
      var key := CurrentState.Key(a.workspace, a.memoryType, a.identity.value);
      CurrentState.OnlyLastActive(st, key, a);
      CurrentState.OnlyLastActive(st, key, b);
    }
  }

  /** The active anchor behind a current content, under its stored columns. */
  lemma ActiveAnchorOf(st: CurrentState.State, id: Id) returns (a: CurrentState.Anchor)
    requires CurrentState.IdentityHeld(st) && AllAsStored(st)
    requires id in st.items && st.items[id].isCurrent == Some(true) && st.items[id].identity.Some?
    ensures a in st.anchors && a.content == Some(id) && a.status == CurrentState.Active
    ensures var item := st.items[id];
            a.workspace == item.workspace && a.memoryType == item.memoryType && a.identity == item.identity
  {
    var identity := st.items[id].identity;
    assert CurrentState.HasActiveAs(st.anchors, id, identity.value);
    a :| a in st.anchors && a.content == Some(id) && a.status == CurrentState.Active && a.identity == identity;
    assert AsStored(st.items, a);
  }

  lemma {:induction false} AsStoredNeverDetected(st: CurrentState.State, ops: seq<CurrentState.Op>)
    requires CurrentState.Linked(st) && CurrentState.IdentityHeld(st) && AllAsStored(st) && CallsAsStored(st, ops)
    ensures AlwaysUndetected(st, ops)
    decreases |ops|
  {
    AsStoredHasNoRivals(st);
    NoRivalsIffUndetected(st);
    if ops != [] {
      CallKeepsAllAsStored(st, ops[0]);
      if ops[0].Resolve? {
        CurrentState.CallKeepsLinked(st, ops[0].call);
        CurrentState.StepKeepsIdentityHeld(st, ops[0].call);
      }
      AsStoredNeverDetected(CurrentState.Apply(st, ops[0]), ops[1..]);
    }
  }

  /** So no run whose inserting calls name each content as stored makes a rival, or has one detected. */
  lemma CallsAsStoredDoNotCompete(ops: seq<CurrentState.Op>)
    requires CallsAsStored(CurrentState.EMPTY, ops)
    ensures NeverMakesRival(CurrentState.EMPTY, ops) && AlwaysUndetected(CurrentState.EMPTY, ops)
  {
    assert forall key :: CurrentState.Chain(CurrentState.EMPTY.anchors, key) == [];
    AsStoredNeverDetected(CurrentState.EMPTY, ops);
    NoCompetingIdentities(CurrentState.EMPTY, ops);
  }

  /** Two contents stored as decisions, resolved under one identity, the second under another memory type. */
  function MistypedRun(): seq<CurrentState.Op> {
    var call := CurrentState.CallFor("b", "i").(memoryType := "principle");
    [CurrentState.SaveItem("a", "w", "decision"), CurrentState.SaveItem("b", "w", "decision"),
     CurrentState.Resolve(CurrentState.CallFor("a", "i")), CurrentState.Resolve(call)]
  }

  /** Then both are current under that identity, and rows that show them are reported. */
  lemma MistypedContentsCompete()
    ensures var st := CurrentState.Run(CurrentState.EMPTY, MistypedRun());
            Rivals(st, "a", "b") && !Undetected(st)
  {
    var first, second := CurrentState.CallFor("a", "i"), CurrentState.CallFor("b", "i").(memoryType := "principle");
    var ops := [];
    CurrentState.RunSnoc(CurrentState.EMPTY, ops, CurrentState.SaveItem("a", "w", "decision"));
    ops := ops + [CurrentState.SaveItem("a", "w", "decision")];
    CurrentState.RunSnoc(CurrentState.EMPTY, ops, CurrentState.SaveItem("b", "w", "decision"));
    ops := ops + [CurrentState.SaveItem("b", "w", "decision")];
    assert CurrentState.Run(CurrentState.EMPTY, ops).anchors == [];
    CurrentState.RunSnoc(CurrentState.EMPTY, ops, CurrentState.Resolve(first));
    ops := ops + [CurrentState.Resolve(first)];
    assert CurrentState.Run(CurrentState.EMPTY, ops).anchors == [CurrentState.NewAnchor(first, None)];
    CurrentState.RunSnoc(CurrentState.EMPTY, ops, CurrentState.Resolve(second));
    ops := ops + [CurrentState.Resolve(second)];
    assert ops == MistypedRun();
    RivalsAreReported(CurrentState.Run(CurrentState.EMPTY, ops), "a", "b");
  }
}
