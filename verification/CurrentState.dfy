/**
 The current-state resolver as a state machine over two tables: the anchors,
 in insertion order, and the current-state columns of the content items.  Each
 call is one committed step; an insert that breaks a table constraint fails
 and leaves both tables as they were.
 */
module CurrentState {
  import opened Wrappers

  type Id = string

  datatype Status = Active | Superseded | Archived

  datatype Key = Key(workspace: Id, memoryType: string, identity: string)

  datatype Anchor = Anchor(
    workspace: Id, memoryType: string, identity: Option<string>, scope: string,
    content: Option<Id>, supersedes: Option<Id>, rank: nat, validFrom: int, validUntil: Option<int>, status: Status)

  datatype Item = Item(
    workspace: Id, memoryType: string,
    isCurrent: Option<bool>, scope: Option<string>, identity: Option<string>, supersedes: Option<Id>)

  datatype State = State(anchors: seq<Anchor>, items: map<Id, Item>)

  /** One resolver call; the empty string stands for a missing value, `scope` is the outcome of the scope pipeline. */
  datatype Call = Call(
    workspace: Id, content: Id, memoryType: string, confidence: Option<real>,
    setBy: string, scope: string, identity: string, now: int)

  datatype NoopReason = LowConfidence | MissingWorkspace | MissingContentId | MissingMemoryType | InvalidSetBy

  datatype Outcome =
    | Noop(reason: NoopReason)
    | Grouped
    | Idempotent(supersedes: Option<Id>)
    | Resolved(supersedes: Option<Id>)
    | ConstraintViolation

  const MEMORY_TYPES := {"milestone", "decision", "principle", "anchor", "evidence", "plan_roadmap", "raw_memory"}
  const ALLOWED_SET_BY := {"auto_classify", "human_override", "mcp_tool", "api", "reconcile_job"}

  function Gate(call: Call): Option<NoopReason> {
    if call.confidence == None || call.confidence.value < 0.70 then Some(LowConfidence)
    else if call.workspace == "" then Some(MissingWorkspace)
    else if call.content == "" then Some(MissingContentId)
    else if call.memoryType == "" then Some(MissingMemoryType)
    else if call.setBy !in ALLOWED_SET_BY then Some(InvalidSetBy)
    else None
  }

  function KeyOf(call: Call): Key {
    Key(call.workspace, call.memoryType, call.identity)
  }

  // ----- the queries and updates -----

  predicate HasKey(a: Anchor, key: Key) {
    a.workspace == key.workspace && a.memoryType == key.memoryType && a.identity == Some(key.identity)
  }

  predicate ActiveUnder(a: Anchor, key: Key) {
    HasKey(a, key) && a.status == Active
  }

  /** The active anchor of this content under this key, if any. */
  function FindSame(anchors: seq<Anchor>, key: Key, content: Id): (r: Option<Anchor>)
    ensures r.Some? ==> r.value in anchors && ActiveUnder(r.value, key) && r.value.content == Some(content)
    ensures r.None? ==> forall a | a in anchors :: !(ActiveUnder(a, key) && a.content == Some(content))
  {
    if anchors == [] then None
    else if ActiveUnder(anchors[0], key) && anchors[0].content == Some(content) then Some(anchors[0])
    else FindSame(anchors[1..], key, content)
  }

  /** The query's order: lower rank first, then later start of validity. */
  predicate Before(a: Anchor, b: Anchor) {
    a.rank < b.rank || (a.rank == b.rank && a.validFrom >= b.validFrom)
  }

  /** The first active anchor with a content under this key, in the query's order. */
  function FindPrevious(anchors: seq<Anchor>, key: Key): (r: Option<Anchor>)
    ensures r.Some? ==> r.value in anchors && ActiveUnder(r.value, key) && r.value.content.Some?
    ensures r.None? ==> forall a | a in anchors :: !(ActiveUnder(a, key) && a.content.Some?)
  {
    if anchors == [] then None
    else
      var rest := FindPrevious(anchors[1..], key);
      if ActiveUnder(anchors[0], key) && anchors[0].content.Some? && (rest == None || Before(anchors[0], rest.value))
      then Some(anchors[0]) else rest
  }

  function Retired(a: Anchor, key: Key, content: Id, now: int): Anchor {
    if ActiveUnder(a, key) && a.content != Some(content) then a.(status := Superseded, validUntil := Some(now)) else a
  }

  /** Every active anchor under the key with another content, or none, becomes superseded. */
  function RetireOthers(anchors: seq<Anchor>, key: Key, content: Id, now: int): (r: seq<Anchor>)
    ensures |r| == |anchors|
    ensures forall i | 0 <= i < |r| :: r[i] == Retired(anchors[i], key, content, now)
  {
    seq(|anchors|, i requires 0 <= i < |anchors| => Retired(anchors[i], key, content, now))
  }

  function NewAnchor(call: Call, supersedes: Option<Id>): Anchor {
    Anchor(call.workspace, call.memoryType, Some(call.identity), call.scope, Some(call.content), supersedes, 1,
        call.now, None, Active)
  }

  /** An UPDATE of one row by content id: nothing happens when there is no such row. */
  function Update(items: map<Id, Item>, id: Id, f: Item -> Item): map<Id, Item> {
    if id in items then items[id := f(items[id])] else items
  }

  function SetScope(items: map<Id, Item>, id: Id, scope: string): map<Id, Item> {
    Update(items, id, (i: Item) => i.(scope := Some(scope)))
  }

  function SetCurrent(items: map<Id, Item>, call: Call, supersedes: Option<Id>): map<Id, Item> {
    Update(items, call.content, (i: Item) => i.(isCurrent := Some(true), scope := Some(call.scope),
        identity := Some(call.identity), supersedes := supersedes))
  }

  function SetObsolete(items: map<Id, Item>, id: Option<Id>, scope: string): map<Id, Item> {
    if id == None then items else Update(items, id.value,
        (i: Item) => i.(isCurrent := Some(false), scope := Some(scope)))
  }

  // ----- one call -----

  function Content(previous: Option<Anchor>): Option<Id> {
    if previous == None then None else previous.value.content
  }

  function Step(st: State, call: Call): (State, Outcome) {
    if Gate(call).Some? then (st, Noop(Gate(call).value))
    else if call.identity == "" then (st.(items := SetScope(st.items, call.content, call.scope)), Grouped)
    else
      var same := FindSame(st.anchors, KeyOf(call), call.content);
      if same.Some? then
        (st.(items := SetCurrent(st.items, call, same.value.supersedes)), Idempotent(same.value.supersedes))
      else if call.content !in st.items || call.memoryType !in MEMORY_TYPES then (st, ConstraintViolation)
      else
        var supersedes := Content(FindPrevious(st.anchors, KeyOf(call)));
        (State(RetireOthers(st.anchors, KeyOf(call), call.content, call.now) + [NewAnchor(call, supersedes)],
               SetCurrent(SetObsolete(st.items, supersedes, call.scope), call, supersedes)),
         Resolved(supersedes))
  }

  class CurrentStateStore {
    var anchors: seq<Anchor>
    var items: map<Id, Item>

    ghost function Tables(): State
      reads this
    {
      State(anchors, items)
    }

    method ResolveAfterIngest(call: Call) returns (outcome: Outcome)
      modifies this
      ensures (Tables(), outcome) == Step(old(Tables()), call)
    {
      var gate := Gate(call);
      if gate.Some? {
        return Noop(gate.value);
      }
      if call.identity == "" {
        items := SetScope(items, call.content, call.scope);
        return Grouped;
      }
      var key := KeyOf(call);
      var same := FindSame(anchors, key, call.content);
      if same.Some? {
        items := SetCurrent(items, call, same.value.supersedes);
        return Idempotent(same.value.supersedes);
      }
      var previous := FindPrevious(anchors, key);
      var supersedes := Content(previous);
      var retired := RetireOthers(anchors, key, call.content, call.now);
      if call.content !in items || call.memoryType !in MEMORY_TYPES {
        // The insert below is refused and the transaction undone.
        return ConstraintViolation;
      }
      anchors := retired;
      items := SetObsolete(items, supersedes, call.scope);
      anchors := anchors + [NewAnchor(call, supersedes)];
      items := SetCurrent(items, call, supersedes);
      return Resolved(supersedes);
    }
  }

  // ----- the chain of a key -----

  /** The anchors of one key, in insertion order. */
  function Chain(anchors: seq<Anchor>, key: Key): (r: seq<Anchor>)
    ensures forall a :: a in r <==> a in anchors && HasKey(a, key)
  {
    if anchors == [] then [] else (if HasKey(anchors[0], key) then [anchors[0]] else []) + Chain(anchors[1..], key)
  }

  /** Link `i` supersedes its predecessor's content, and is active exactly when it is the last. */
  ghost predicate LinkOk(chain: seq<Anchor>, i: nat)
    requires i < |chain|
  {
    && chain[i].content.Some?
    && chain[i].status == (if i + 1 == |chain| then Active else Superseded)
    && chain[i].supersedes == (if i == 0 then None else chain[i - 1].content)
  }

  ghost predicate Linear(chain: seq<Anchor>) {
    forall i | 0 <= i < |chain| :: LinkOk(chain, i)
  }

  ghost predicate Linked(st: State) {
    forall key :: Linear(Chain(st.anchors, key))
  }

  lemma {:induction false} ChainConcat(a: seq<Anchor>, b: seq<Anchor>, key: Key)
    ensures Chain(a + b, key) == Chain(a, key) + Chain(b, key)
  {
    if a == [] {
      assert a + b == b;
    } else {
      ChainConcat(a[1..], b, key);
      assert (a + b)[1..] == a[1..] + b;
      Regroup(if HasKey(a[0], key) then [a[0]] else [], Chain(a[1..], key), Chain(b, key));
    }
  }

  lemma ChainCons(a: Anchor, rest: seq<Anchor>, key: Key)
    ensures Chain([a] + rest, key) == (if HasKey(a, key) then [a] else []) + Chain(rest, key)
  {
    assert ([a] + rest)[1..] == rest;
  }

  lemma RetireCons(a: Anchor, rest: seq<Anchor>, key: Key, content: Id, now: int)
    ensures RetireOthers([a] + rest, key, content, now) == [Retired(a, key, content, now)]
              + RetireOthers(rest, key, content, now)
  {}

  lemma {:induction false} ChainRetire(anchors: seq<Anchor>, key: Key, content: Id, now: int, k: Key)
    ensures Chain(RetireOthers(anchors, key, content, now), k)
         == if k == key then RetireOthers(Chain(anchors, k), key, content, now) else Chain(anchors, k)
  {
    if anchors == [] {
      assert RetireOthers(anchors, key, content, now) == [];
    } else {
      var a, rest := anchors[0], anchors[1..];
      var a', rest' := Retired(a, key, content, now), RetireOthers(rest, key, content, now);
      assert anchors == [a] + rest;
      RetireCons(a, rest, key, content, now);
      ChainRetire(rest, key, content, now, k);
      ChainCons(a, rest, k);
      ChainCons(a', rest', k);
      if HasKey(a, k) {
        RetireCons(a, Chain(rest, k), key, content, now);
      }
    }
  }

  /** In a linear chain the only active anchor is the last one. */
  lemma OnlyLastActive(st: State, key: Key, a: Anchor)
    requires Linked(st) && a in st.anchors && ActiveUnder(a, key)
    ensures var chain := Chain(st.anchors, key); chain != [] && a == chain[|chain| - 1] && a.content.Some?
  {
    var chain := Chain(st.anchors, key);
    assert Linear(chain) && a in chain;
    var i :| 0 <= i < |chain| && chain[i] == a;
    assert LinkOk(chain, i);
  }

  /** At most one active anchor per key. */
  lemma AtMostOneActive(st: State, key: Key, i: nat, j: nat)
    requires Linked(st) && i < j < |st.anchors|
    ensures !(ActiveUnder(st.anchors[i], key) && ActiveUnder(st.anchors[j], key))
  {
    if ActiveUnder(st.anchors[i], key) {
      var a, b, chain := st.anchors[..j], st.anchors[j..], Chain(st.anchors, key);
      assert st.anchors == a + b && a[i] in Chain(a, key);
      ChainConcat(a, b, key);
      var p :| 0 <= p < |Chain(a, key)| && Chain(a, key)[p] == a[i];
      assert Linear(chain) && chain[p] == a[i] && LinkOk(chain, p);
      assert Chain(b, key) == [] && b[0] in b;
    }
  }

  // ----- what one call does to the anchors -----

  predicate Inserts(st: State, call: Call) {
    && Gate(call) == None && call.identity != ""
    && FindSame(st.anchors, KeyOf(call), call.content) == None
    && call.content in st.items && call.memoryType in MEMORY_TYPES
  }

  function LastContent(chain: seq<Anchor>): Option<Id> {
    if chain == [] then None else chain[|chain| - 1].content
  }

  /** What an inserting call finds: the last link of its chain, with another content. */
  lemma PreviousIsLast(st: State, call: Call)
    requires Linked(st) && Inserts(st, call)
    ensures var chain := Chain(st.anchors, KeyOf(call));
            Content(FindPrevious(st.anchors, KeyOf(call))) == LastContent(chain) != Some(call.content)
  {
    var key, chain := KeyOf(call), Chain(st.anchors, KeyOf(call));
    var previous := FindPrevious(st.anchors, key);
    assert Linear(chain);
    if previous.Some? { OnlyLastActive(st, key, previous.value); }
    if chain != [] { assert LinkOk(chain, |chain| - 1) && chain[|chain| - 1] in chain; }
  }

  /**
   Extending a linear chain by a new link that supersedes its last one: the old links keep
   everything but their status.
   */
  lemma ExtendLinear(chain: seq<Anchor>, call: Call)
    requires Linear(chain) && LastContent(chain) != Some(call.content)
    requires forall a | a in chain :: HasKey(a, KeyOf(call))
    ensures var r := RetireOthers(chain, KeyOf(call), call.content, call.now);
            && (forall i | 0 <= i < |chain| :: r[i] == chain[i].(status := Superseded, validUntil := r[i].validUntil))
            && Linear(r + [NewAnchor(call, LastContent(chain))])
  {
    var r := RetireOthers(chain, KeyOf(call), call.content, call.now);
    forall i | 0 <= i < |chain| ensures r[i] == chain[i].(status := Superseded, validUntil := r[i].validUntil) {
      assert chain[i] in chain && LinkOk(chain, i);
    }
    var s := r + [NewAnchor(call, LastContent(chain))];
    forall i | 0 <= i < |s| ensures LinkOk(s, i) {
      if i < |chain| { assert LinkOk(chain, i); }
    }
  }

  /** The call's own chain gains one link that supersedes the old last one; every other chain is untouched. */
  lemma ChainsAfterCall(st: State, call: Call, key: Key)
    requires Linked(st)
    ensures var after := Chain(Step(st, call).0.anchors, key); var before := Chain(st.anchors, key);
            after == if Inserts(st, call) && key == KeyOf(call)
                     then RetireOthers(before, key, call.content, call.now) + [NewAnchor(call, LastContent(before))]
                     else before
  {
    if Inserts(st, call) { ChainsAfterInsert(st, call, key); }
  }

  lemma ChainsAfterInsert(st: State, call: Call, key: Key)
    requires Linked(st) && Inserts(st, call)
    ensures var after := Chain(Step(st, call).0.anchors, key); var before := Chain(st.anchors, key);
            after == if key == KeyOf(call)
                     then RetireOthers(before, key, call.content, call.now) + [NewAnchor(call, LastContent(before))]
                     else before
  {
    var retired := RetireOthers(st.anchors, KeyOf(call), call.content, call.now);
    PreviousIsLast(st, call);
    var link := NewAnchor(call, LastContent(Chain(st.anchors, KeyOf(call))));
    assert Step(st, call).0.anchors == retired + [link];
    ChainConcat(retired, [link], key);
    ChainRetire(st.anchors, KeyOf(call), call.content, call.now, key);
    ChainOfOne(link, key);
  }

  lemma ChainOfOne(a: Anchor, key: Key)
    ensures Chain([a], key) == if HasKey(a, key) then [a] else []
  {
    assert [a][1..] == [];
  }

  lemma CallKeepsLinked(st: State, call: Call)
    requires Linked(st)
    ensures Linked(Step(st, call).0)
  {
    forall key ensures Linear(Chain(Step(st, call).0.anchors, key)) {
      var before := Chain(st.anchors, key);
      assert Linear(before);
      ChainsAfterCall(st, call, key);
      if Inserts(st, call) && key == KeyOf(call) {
        PreviousIsLast(st, call);
        ExtendLinear(before, call);
      }
    }
  }

  /**
   Repeating a call, at any later time and even with another scope, changes neither the anchors nor
   any `isCurrent`.
   */
  lemma RepeatIsIdempotent(st: State, call: Call, now: int, scope: string)
    ensures var once := Step(st, call).0; var twice := Step(once, call.(now := now, scope := scope)).0;
            && twice.anchors == once.anchors
            && twice.items.Keys == once.items.Keys
            && (forall id | id in once.items :: twice.items[id] == once.items[id].(scope := twice.items[id].scope))
            && (scope == call.scope ==> twice == once)
  {
    var once, again := Step(st, call).0, call.(now := now, scope := scope);
    if Inserts(st, call) {
      FindSameAfterInsert(st, call);
    }
  }

  lemma FindSameAfterInsert(st: State, call: Call)
    requires Inserts(st, call)
    ensures var after := Step(st, call).0.anchors;
            FindSame(after, KeyOf(call), call.content) == Some(after[|after| - 1])
  {
    var after := Step(st, call).0.anchors;
    assert forall i | 0 <= i < |st.anchors| :: st.anchors[i] in st.anchors
             && after[i] == Retired(st.anchors[i], KeyOf(call), call.content, call.now);
    assert after[|after| - 1] in after;
  }

  // ----- isCurrent against the anchors -----

  ghost predicate HasActive(anchors: seq<Anchor>, id: Id) {
    exists a :: a in anchors && a.content == Some(id) && a.status == Active
  }

  /** The key of an anchor, which has no identity in rows older than identities. */
  datatype AnchorKey = AnchorKey(workspace: Id, memoryType: string, identity: Option<string>)

  function AnchorKeyOf(a: Anchor): AnchorKey {
    AnchorKey(a.workspace, a.memoryType, a.identity)
  }

  ghost predicate AllUnder(anchors: seq<Anchor>, id: Id, key: AnchorKey) {
    forall a | a in anchors && a.content == Some(id) :: AnchorKeyOf(a) == key
  }

  /** All anchors of the content lie under one key. */
  ghost predicate OneKey(anchors: seq<Anchor>, id: Id) {
    exists key :: AllUnder(anchors, id, key)
  }

  /**
   `isCurrent` is never TRUE without an active anchor; for a content resolved
   under a single key it is TRUE exactly with one, and the stored identity is
   that key's.
   */
  ghost predicate ItemAgrees(anchors: seq<Anchor>, id: Id, item: Item) {
    && (item.isCurrent == Some(true) ==> HasActive(anchors, id))
    && (OneKey(anchors, id) ==>
          && (HasActive(anchors, id) ==> item.isCurrent == Some(true))
          && (forall a | a in anchors && a.content == Some(id) && a.identity.Some? :: item.identity == a.identity))
  }

  /** Every anchored content has a row, as the foreign key demands. */
  ghost predicate Grounded(st: State) {
    forall a | a in st.anchors && a.content.Some? :: a.content.value in st.items
  }

  ghost predicate Agrees(st: State) {
    && Grounded(st)
    && (forall id | id in st.items :: ItemAgrees(st.anchors, id, st.items[id]))
  }

  /** The anchors after an insert, in terms of the chain of the call's key. */
  ghost predicate InsertedInto(before: seq<Anchor>, call: Call, previous: Option<Id>, after: seq<Anchor>) {
    && after == RetireOthers(before, KeyOf(call), call.content, call.now) + [NewAnchor(call, previous)]
    && previous != Some(call.content)
    && (forall a | a in before && ActiveUnder(a, KeyOf(call)) :: a.content == previous && a.content.Some?)
  }

  lemma InsertShape(st: State, call: Call)
    requires Linked(st) && Inserts(st, call)
    ensures var previous := LastContent(Chain(st.anchors, KeyOf(call))); var after := Step(st, call).0;
            && InsertedInto(st.anchors, call, previous, after.anchors)
            && after.items == SetCurrent(SetObsolete(st.items, previous, call.scope), call, previous)
            && (previous.Some? ==> exists a :: a in st.anchors && HasKey(a, KeyOf(call)) && a.content == previous)
  {
    PreviousIsLast(st, call);
    var chain := Chain(st.anchors, KeyOf(call));
    if chain != [] { assert chain[|chain| - 1] in chain; }
    forall a | a in st.anchors && ActiveUnder(a, KeyOf(call))
      ensures a.content == LastContent(chain) && a.content.Some?
    {
      OnlyLastActive(st, KeyOf(call), a);
    }
  }

  /** Every anchor after an insert is the new one, or an old one that changed at most its status. */
  lemma AnchorOrigin(before: seq<Anchor>, call: Call, previous: Option<Id>, after: seq<Anchor>, a: Anchor)
    requires InsertedInto(before, call, previous, after) && a in after
    ensures a == NewAnchor(call, previous) ||
            exists b :: b in before && a == Retired(b, KeyOf(call), call.content, call.now)
  {
    var i :| 0 <= i < |after| && after[i] == a;
    if i < |before| { assert before[i] in before && a == Retired(before[i], KeyOf(call), call.content, call.now); }
  }

  lemma AnchorStays(before: seq<Anchor>, call: Call, previous: Option<Id>, after: seq<Anchor>, b: Anchor)
    requires InsertedInto(before, call, previous, after) && b in before
    ensures Retired(b, KeyOf(call), call.content, call.now) in after
  {
    var i :| 0 <= i < |before| && before[i] == b;
    assert after[i] == Retired(b, KeyOf(call), call.content, call.now);
  }

  lemma OneKeyBefore(before: seq<Anchor>, call: Call, previous: Option<Id>, after: seq<Anchor>, id: Id)
    requires InsertedInto(before, call, previous, after) && OneKey(after, id)
    ensures OneKey(before, id)
    ensures id == call.content ==> AllUnder(after, id, AnchorKey(call.workspace, call.memoryType, Some(call.identity)))
  {
    var key :| AllUnder(after, id, key);
    forall b | b in before && b.content == Some(id) ensures AnchorKeyOf(b) == key {
      AnchorStays(before, call, previous, after, b);
      assert AnchorKeyOf(Retired(b, KeyOf(call), call.content, call.now)) == key;
    }
    assert AllUnder(before, id, key);
    assert after[|after| - 1] == NewAnchor(call, previous);
  }

  /** Activity of the contents an insert does not name is unchanged. */
  lemma OthersKeepActivity(before: seq<Anchor>, call: Call, previous: Option<Id>, after: seq<Anchor>, id: Id)
    requires InsertedInto(before, call, previous, after) && id != call.content && Some(id) != previous
    ensures HasActive(after, id) <==> HasActive(before, id)
  {
    if HasActive(before, id) {
      var a :| a in before && a.content == Some(id) && a.status == Active;
      AnchorStays(before, call, previous, after, a);
    }
    if HasActive(after, id) {
      var a :| a in after && a.content == Some(id) && a.status == Active;
      AnchorOrigin(before, call, previous, after, a);
    }
  }

  /** A superseded content whose anchors all lie under the call's key has no active anchor left. */
  lemma PreviousGoesInactive(before: seq<Anchor>, call: Call, id: Id, after: seq<Anchor>)
    requires InsertedInto(before, call, Some(id), after)
    requires AllUnder(before, id, AnchorKey(call.workspace, call.memoryType, Some(call.identity)))
    ensures !HasActive(after, id)
  {
    if HasActive(after, id) {
      var a :| a in after && a.content == Some(id) && a.status == Active;
      AnchorOrigin(before, call, Some(id), after, a);
    }
  }

  lemma IdentityAfterInsert(before: seq<Anchor>, call: Call, previous: Option<Id>, after: seq<Anchor>, id: Id,
        item: Item, a: Anchor)
    requires InsertedInto(before, call, previous, after) && id != call.content
    requires ItemAgrees(before, id, item) && OneKey(before, id)
    requires a in after && a.content == Some(id) && a.identity.Some?
    ensures item.identity == a.identity
  {
    AnchorOrigin(before, call, previous, after, a);
  }

  /** An item that is neither the new nor the superseded content keeps agreeing. */
  lemma OtherItemAgrees(before: seq<Anchor>, call: Call, previous: Option<Id>, after: seq<Anchor>, id: Id, item: Item)
    requires InsertedInto(before, call, previous, after) && id != call.content && Some(id) != previous
    requires ItemAgrees(before, id, item)
    ensures ItemAgrees(after, id, item)
  {
    OthersKeepActivity(before, call, previous, after, id);
    if OneKey(after, id) {
      OneKeyBefore(before, call, previous, after, id);
      forall a | a in after && a.content == Some(id) && a.identity.Some? ensures item.identity == a.identity {
        IdentityAfterInsert(before, call, previous, after, id, item, a);
      }
    }
  }

  lemma PreviousItemAgrees(before: seq<Anchor>, call: Call, id: Id, after: seq<Anchor>, item: Item, last: Anchor)
    requires InsertedInto(before, call, Some(id), after) && id != call.content
    requires last in before && HasKey(last, KeyOf(call)) && last.content == Some(id)
    requires ItemAgrees(before, id, item)
    ensures ItemAgrees(after, id, item.(isCurrent := Some(false), scope := Some(call.scope)))
  {
    if OneKey(after, id) {
      OneKeyBefore(before, call, Some(id), after, id);
      var key :| AllUnder(before, id, key);
      assert key == AnchorKeyOf(last);
      PreviousGoesInactive(before, call, id, after);
      forall a | a in after && a.content == Some(id) && a.identity.Some? ensures item.identity == a.identity {
        IdentityAfterInsert(before, call, Some(id), after, id, item, a);
      }
    }
  }

  lemma NewItemAgrees(before: seq<Anchor>, call: Call, previous: Option<Id>, after: seq<Anchor>, item: Item)
    requires InsertedInto(before, call, previous, after)
    requires item.isCurrent == Some(true) && item.identity == Some(call.identity)
    ensures ItemAgrees(after, call.content, item)
  {
    assert after[|after| - 1] == NewAnchor(call, previous) && after[|after| - 1] in after;
    if OneKey(after, call.content) { OneKeyBefore(before, call, previous, after, call.content); }
  }

  lemma InsertKeepsAgreement(st: State, call: Call)
    requires Linked(st) && Agrees(st) && Inserts(st, call)
    ensures Agrees(Step(st, call).0)
  {
    var after, previous := Step(st, call).0, LastContent(Chain(st.anchors, KeyOf(call)));
    InsertShape(st, call);
    forall id | id in after.items ensures ItemAgrees(after.anchors, id, after.items[id]) {
      assert ItemAgrees(st.anchors, id, st.items[id]);
      if id == call.content {
        NewItemAgrees(st.anchors, call, previous, after.anchors, after.items[id]);
      } else if Some(id) == previous {
        var last :| last in st.anchors && HasKey(last, KeyOf(call)) && last.content == previous;
        PreviousItemAgrees(st.anchors, call, id, after.anchors, st.items[id], last);
      } else {
        OtherItemAgrees(st.anchors, call, previous, after.anchors, id, st.items[id]);
      }
    }
    forall a | a in after.anchors && a.content.Some?
      ensures a.content.value in after.items
    {
      AnchorOrigin(st.anchors, call, previous, after.anchors, a);
    }
  }

  lemma CallKeepsAgreement(st: State, call: Call)
    requires Linked(st) && Agrees(st)
    ensures Agrees(Step(st, call).0)
  {
    var after := Step(st, call).0;
    if Inserts(st, call) {
      InsertKeepsAgreement(st, call);
    } else {
      forall id | id in after.items ensures ItemAgrees(after.anchors, id, after.items[id]) {
        assert ItemAgrees(st.anchors, id, st.items[id]);
        assert after.anchors == st.anchors;
      }
    }
  }

  // ----- whole runs -----

  /** A content item is saved with its workspace and memory type, or a call is resolved. */
  datatype Op = SaveItem(id: Id, workspace: Id, memoryType: string) | Resolve(call: Call)

  function Apply(st: State, op: Op): State {
    match op
    case SaveItem(id, workspace, memoryType) =>
      if id in st.items then st else st.(items := st.items[id := Item(workspace, memoryType, None, None, None, None)])
    case Resolve(call) => Step(st, call).0
  }

  function Run(st: State, ops: seq<Op>): State
    decreases |ops|
  {
    if ops == [] then st else Run(Apply(st, ops[0]), ops[1..])
  }

  lemma SaveKeepsAgreement(st: State, op: Op)
    requires op.SaveItem? && Agrees(st)
    ensures Agrees(Apply(st, op))
  {
    var after := Apply(st, op);
    forall id | id in after.items ensures ItemAgrees(after.anchors, id, after.items[id]) {
      if id in st.items { assert ItemAgrees(st.anchors, id, st.items[id]); }
    }
  }

  /**
   In every state reachable by any run of saves and resolver calls each key's
   anchors form one linear chain, `isCurrent` is never TRUE without an active
   anchor, and the two agree on every content resolved under one key.
   */
  lemma {:induction false} RunKeepsInvariants(st: State, ops: seq<Op>)
    requires Linked(st) && Agrees(st)
    ensures Linked(Run(st, ops)) && Agrees(Run(st, ops))
    decreases |ops|
  {
    if ops != [] {
      match ops[0] {
        case SaveItem(_, _, _) => SaveKeepsAgreement(st, ops[0]);
        case Resolve(call) =>
          CallKeepsLinked(st, call);
          CallKeepsAgreement(st, call);
      }
      RunKeepsInvariants(Apply(st, ops[0]), ops[1..]);
    }
  }

  const EMPTY := State([], map[])

  lemma ReachableFromEmpty(ops: seq<Op>)
    ensures Linked(Run(EMPTY, ops)) && Agrees(Run(EMPTY, ops))
  {
    assert forall key :: Chain(EMPTY.anchors, key) == [];
    RunKeepsInvariants(EMPTY, ops);
  }

  /**
   In reachable states `isCurrent` is TRUE exactly for the contents with an active anchor, if each
   was resolved under one key.
   */
  lemma CurrentIffActive(ops: seq<Op>, id: Id)
    requires id in Run(EMPTY, ops).items && OneKey(Run(EMPTY, ops).anchors, id)
    ensures var st := Run(EMPTY, ops); st.items[id].isCurrent == Some(true) <==> HasActive(st.anchors, id)
  {
    ReachableFromEmpty(ops);
    assert ItemAgrees(Run(EMPTY, ops).anchors, id, Run(EMPTY, ops).items[id]);
  }

  // ----- exactly when the flag and the anchors agree -----

  /** The content is current exactly when it has an active anchor. */
  ghost predicate ItemExact(st: State, id: Id) {
    (id in st.items && st.items[id].isCurrent == Some(true)) <==> HasActive(st.anchors, id)
  }

  ghost predicate Exact(st: State) {
    Grounded(st) && forall id | id in st.items :: ItemExact(st, id)
  }

  /** The call makes its own content current. */
  predicate Confirms(st: State, call: Call) {
    Gate(call) == None && call.identity != "" && (Inserts(st, call)
        || FindSame(st.anchors, KeyOf(call), call.content).Some?)
  }

  /** The content the call supersedes, if it supersedes one. */
  function SupersededBy(st: State, call: Call): Option<Id> {
    if Inserts(st, call) then LastContent(Chain(st.anchors, KeyOf(call))) else None
  }

  /** The content the call would supersede is also active under another key. */
  ghost predicate HeldElsewhere(st: State, call: Call) {
    exists a :: a in st.anchors && a.status == Active && !HasKey(a, KeyOf(call))
                && a.content.Some? && a.content == LastContent(Chain(st.anchors, KeyOf(call)))
  }

  /** Whether the content agrees after the call, from what the caller sees before it. */
  ghost predicate AgreesNext(st: State, call: Call, id: Id, now: bool) {
    if Confirms(st, call) && id == call.content then true
    else if SupersededBy(st, call) == Some(id) then !HeldElsewhere(st, call)
    else now
  }

  lemma StepKeepsGrounded(st: State, call: Call)
    requires Linked(st) && Grounded(st)
    ensures Grounded(Step(st, call).0)
  {
    var after := Step(st, call).0;
    if Inserts(st, call) {
      InsertShape(st, call);
      forall a | a in after.anchors && a.content.Some? ensures a.content.value in after.items {
        AnchorOrigin(st.anchors, call, LastContent(Chain(st.anchors, KeyOf(call))), after.anchors, a);
      }
    }
  }

  /** A superseded content keeps an active anchor exactly when it was held elsewhere. */
  lemma SupersededActivity(st: State, call: Call, id: Id)
    requires Linked(st) && Inserts(st, call) && LastContent(Chain(st.anchors, KeyOf(call))) == Some(id)
    ensures HasActive(Step(st, call).0.anchors, id) <==> HeldElsewhere(st, call)
  {
    var after := Step(st, call).0.anchors;
    InsertShape(st, call);
    if HasActive(after, id) {
      var a :| a in after && a.content == Some(id) && a.status == Active;
      AnchorOrigin(st.anchors, call, Some(id), after, a);
      assert a in st.anchors && !HasKey(a, KeyOf(call));
    }
    if HeldElsewhere(st, call) {
      var a :| a in st.anchors && a.status == Active && !HasKey(a, KeyOf(call)) && a.content == Some(id);
      AnchorStays(st.anchors, call, Some(id), after, a);
    }
  }

  /** One call decides each content's agreement exactly. */
  lemma StepDecidesItem(st: State, call: Call, id: Id)
    requires Linked(st) && Grounded(st)
    ensures ItemExact(Step(st, call).0, id) <==> AgreesNext(st, call, id, ItemExact(st, id))
  {
    var after := Step(st, call).0;
    if Inserts(st, call) {
      InsertDecidesItem(st, call, id);
    } else if Confirms(st, call) && id == call.content {
      var same := FindSame(st.anchors, KeyOf(call), call.content).value;
      assert same in after.anchors && same.content == Some(id);
    }
  }

  lemma InsertDecidesItem(st: State, call: Call, id: Id)
    requires Linked(st) && Grounded(st) && Inserts(st, call)
    ensures ItemExact(Step(st, call).0, id) <==> AgreesNext(st, call, id, ItemExact(st, id))
  {
    var after, previous := Step(st, call).0, LastContent(Chain(st.anchors, KeyOf(call)));
    InsertShape(st, call);
    if id == call.content {
      assert after.anchors[|after.anchors| - 1] == NewAnchor(call, previous);
      assert NewAnchor(call, previous) in after.anchors;
    } else if previous == Some(id) {
      SupersededActivity(st, call, id);
    } else {
      OthersKeepActivity(st.anchors, call, previous, after.anchors, id);
    }
  }

  /**
   From an agreeing state a call keeps the agreement if and only if it does not
   supersede a content that is also active under another key.
   */
  lemma StepKeepsExactIff(st: State, call: Call)
    requires Linked(st) && Exact(st)
    ensures Exact(Step(st, call).0) <==> !(Inserts(st, call) && HeldElsewhere(st, call))
  {
    var after := Step(st, call).0;
    StepKeepsGrounded(st, call);
    forall id | id in after.items ensures ItemExact(after, id) <==> AgreesNext(st, call, id, true) {
      StepDecidesItem(st, call, id);
      assert ItemExact(st, id);
    }
    if Inserts(st, call) && HeldElsewhere(st, call) {
      PreviousIsLast(st, call);
      var a :| a in st.anchors && a.content.Some? && a.content == LastContent(Chain(st.anchors, KeyOf(call)));
      assert a.content.value in after.items;
      assert !AgreesNext(st, call, a.content.value, true);
    }
  }

  ghost predicate Breaks(st: State, op: Op) {
    op.Resolve? && Inserts(st, op.call) && HeldElsewhere(st, op.call)
  }

  ghost predicate NeverBreaks(st: State, ops: seq<Op>)
    decreases |ops|
  {
    ops == [] || (!Breaks(st, ops[0]) && NeverBreaks(Apply(st, ops[0]), ops[1..]))
  }

  ghost predicate AlwaysExact(st: State, ops: seq<Op>)
    decreases |ops|
  {
    Exact(st) && (ops == [] || AlwaysExact(Apply(st, ops[0]), ops[1..]))
  }

  lemma ApplyKeepsExactIff(st: State, op: Op)
    requires Linked(st) && Exact(st)
    ensures Linked(Apply(st, op)) && (Exact(Apply(st, op)) <==> !Breaks(st, op))
  {
    match op
    case SaveItem(_, _, _) =>
      var after := Apply(st, op);
      forall id | id in after.items ensures ItemExact(after, id) {
        if id in st.items { assert ItemExact(st, id); }
      }
    case Resolve(call) =>
      CallKeepsLinked(st, call);
      StepKeepsExactIff(st, call);
  }

  /**
   Over a whole run flag and anchors agree in every state if and only if no call supersedes a
   content held elsewhere.
   */
  lemma {:induction false} RunExactIff(st: State, ops: seq<Op>)
    requires Linked(st) && Exact(st)
    ensures AlwaysExact(st, ops) <==> NeverBreaks(st, ops)
    decreases |ops|
  {
    if ops != [] {
      ApplyKeepsExactIff(st, ops[0]);
      if !Breaks(st, ops[0]) { RunExactIff(Apply(st, ops[0]), ops[1..]); }
    }
  }

  /** The verdict of the last call that names the content, and the initial one if none does. */
  ghost predicate AgreesAtEnd(st: State, ops: seq<Op>, id: Id, now: bool)
    decreases |ops|
  {
    if ops == [] then now
    else
      var next := if ops[0].Resolve? then AgreesNext(st, ops[0].call, id, now) else now;
      AgreesAtEnd(Apply(st, ops[0]), ops[1..], id, next)
  }

  /**
   At the end of any run a content agrees if and only if the last call that
   confirmed or superseded it did not supersede it while it was active under
   another key.
   */
  lemma {:induction false} LastCallDecides(st: State, ops: seq<Op>, id: Id)
    requires Linked(st) && Grounded(st)
    ensures ItemExact(Run(st, ops), id) <==> AgreesAtEnd(st, ops, id, ItemExact(st, id))
    decreases |ops|
  {
    if ops != [] {
      var next := Apply(st, ops[0]);
      if ops[0].Resolve? {
        CallKeepsLinked(st, ops[0].call);
        StepKeepsGrounded(st, ops[0].call);
        StepDecidesItem(st, ops[0].call, id);
      }
      LastCallDecides(next, ops[1..], id);
    }
  }

  // ----- what each outcome means -----

  /** A call that lacks something is refused, with the first thing it lacks, and changes nothing; no other is. */
  lemma RefusedCallsChangeNothing(st: State, call: Call)
    ensures var (after, outcome) := Step(st, call);
            && (outcome.Noop? <==>
                  call.confidence == None || call.confidence.value < 0.70 || call.workspace == ""
                  || call.content == "" || call.memoryType == ""
                  || call.setBy !in {"auto_classify", "human_override", "mcp_tool", "api", "reconcile_job"})
            && (outcome.Noop? ==> after == st)
            && (outcome == Noop(LowConfidence) <==> call.confidence == None || call.confidence.value < 0.70)
            && (outcome == Noop(MissingWorkspace) ==> call.workspace == "")
            && (outcome == Noop(MissingContentId) ==> call.content == "" && call.workspace != "")
            && (outcome == Noop(MissingMemoryType) ==>
                  call.memoryType == "" && call.content != "" && call.workspace != "")
            && (outcome == Noop(InvalidSetBy) ==>
                  call.memoryType != "" && call.content != "" && call.workspace != "")
  {}

  /**
   A call without an identity groups: its row's scope becomes the call's and
   nothing else changes, in particular no anchor.
   */
  lemma GroupingSetsScopeOnly(st: State, call: Call)
    requires Gate(call) == None && call.identity == ""
    ensures var (after, outcome) := Step(st, call);
            && outcome == Grouped && after.anchors == st.anchors && after.items.Keys == st.items.Keys
            && (forall id | id in st.items && id != call.content :: after.items[id] == st.items[id])
            && (call.content in st.items ==>
                  after.items[call.content] == st.items[call.content].(scope := Some(call.scope)))
  {}

  /** A call with an identity that repeats no anchor is refused by the table exactly for an unknown row or type. */
  lemma IdentityOutcomes(st: State, call: Call)
    requires Gate(call) == None && call.identity != ""
    ensures var (after, outcome) := Step(st, call);
            var repeated := exists a :: a in st.anchors && ActiveUnder(a, KeyOf(call))
                                        && a.content == Some(call.content);
            && (outcome.Idempotent? <==> repeated) && (repeated ==> after.anchors == st.anchors)
            && (outcome == ConstraintViolation <==>
                  !repeated && (call.content !in st.items
                      || call.memoryType !in {"milestone", "decision", "principle", "anchor", "evidence",
                                              "plan_roadmap", "raw_memory"}))
            && (outcome == ConstraintViolation ==> after == st)
            && (outcome.Resolved? <==> Inserts(st, call))
            && after.items.Keys == st.items.Keys
  {}

  /** An active anchor of the call's content and key supersedes this content. */
  ghost predicate RepeatsAnchor(st: State, call: Call, supersedes: Option<Id>) {
    exists a :: a in st.anchors && ActiveUnder(a, KeyOf(call)) && a.content == Some(call.content)
                && a.supersedes == supersedes
  }

  /** What the call does to one row of the contents. */
  lemma StepSetsColumns(st: State, call: Call, id: Id)
    requires Linked(st) && id in st.items
    ensures var before, after := st.items[id], Step(st, call).0.items[id];
            if Confirms(st, call) && id == call.content then
              && after.isCurrent == Some(true) && after.scope == Some(call.scope)
              && after.identity == Some(call.identity)
              && after.workspace == before.workspace && after.memoryType == before.memoryType
              && (Inserts(st, call) ==> after.supersedes == LastContent(Chain(st.anchors, KeyOf(call))))
              && (!Inserts(st, call) ==> RepeatsAnchor(st, call, after.supersedes))
            else if SupersededBy(st, call) == Some(id) then
              after == before.(isCurrent := Some(false), scope := Some(call.scope))
            else if Gate(call) == None && call.identity == "" && id == call.content then
              after == before.(scope := Some(call.scope))
            else after == before
  {
    if Inserts(st, call) {
      InsertShape(st, call);
      InsertSetsColumns(st.items, call, SupersededBy(st, call), id);
    }
  }

  lemma InsertSetsColumns(items: map<Id, Item>, call: Call, previous: Option<Id>, id: Id)
    requires id in items && previous != Some(call.content)
    ensures var after := SetCurrent(SetObsolete(items, previous, call.scope), call, previous);
            && id in after
            && after[id] == if id == call.content
                            then items[id].(isCurrent := Some(true), scope := Some(call.scope),
                                            identity := Some(call.identity), supersedes := previous)
                            else if previous == Some(id)
                            then items[id].(isCurrent := Some(false), scope := Some(call.scope))
                            else items[id]
  {}

  /** The accepted call groups, confirms or supersedes the content. */
  predicate Names(st: State, call: Call, id: Id) {
    || (Gate(call) == None && call.identity == "" && id == call.content)
    || (Confirms(st, call) && id == call.content)
    || SupersededBy(st, call) == Some(id)
  }

  /** The scope the last call that names the content brings, and the initial one if none does. */
  function ScopeAtEnd(st: State, ops: seq<Op>, id: Id, now: Option<string>): Option<string>
    decreases |ops|
  {
    if ops == [] then now
    else
      var next := if ops[0].Resolve? && Names(st, ops[0].call, id) then Some(ops[0].call.scope) else now;
      ScopeAtEnd(Apply(st, ops[0]), ops[1..], id, next)
  }

  /**
   At the end of any run a content's scope is the one brought by the last
   accepted call that grouped, confirmed or superseded it.
   */
  lemma {:induction false} LastCallSetsScope(st: State, ops: seq<Op>, id: Id)
    requires Linked(st) && id in st.items
    ensures var end := Run(st, ops);
            id in end.items && end.items[id].scope == ScopeAtEnd(st, ops, id, st.items[id].scope)
    decreases |ops|
  {
    if ops != [] {
      if ops[0].Resolve? {
        CallKeepsLinked(st, ops[0].call);
        StepSetsColumns(st, ops[0].call, id);
      }
      LastCallSetsScope(Apply(st, ops[0]), ops[1..], id);
    }
  }

  /** Saving adds a row without current-state columns for a new content, and leaves everything else alone. */
  lemma SaveAddsRow(st: State, id: Id, workspace: Id, memoryType: string)
    ensures var after := Apply(st, SaveItem(id, workspace, memoryType));
            && after.anchors == st.anchors && after.items.Keys == st.items.Keys + {id}
            && (forall x | x in st.items :: after.items[x] == st.items[x])
            && (id !in st.items ==> after.items[id] == Item(workspace, memoryType, None, None, None, None))
  {}

  // ----- validity without gaps -----

  /** Each link is valid until the next one starts, and the last one without end. */
  ghost predicate Abuts(chain: seq<Anchor>, i: nat)
    requires i < |chain|
  {
    chain[i].validUntil == if i + 1 == |chain| then None else Some(chain[i + 1].validFrom)
  }

  ghost predicate Seamless(chain: seq<Anchor>) {
    forall i | 0 <= i < |chain| :: Abuts(chain, i)
  }

  ghost predicate AllSeamless(st: State) {
    forall key :: Seamless(Chain(st.anchors, key))
  }

  /** The new link carries what the call brings, and the one it supersedes ends when it starts. */
  lemma ExtendSeamless(chain: seq<Anchor>, call: Call)
    requires Linear(chain) && Seamless(chain) && LastContent(chain) != Some(call.content)
    requires forall a | a in chain :: HasKey(a, KeyOf(call))
    ensures var link := NewAnchor(call, LastContent(chain));
            && Seamless(RetireOthers(chain, KeyOf(call), call.content, call.now) + [link])
            && HasKey(link, KeyOf(call)) && link.scope == call.scope && link.content == Some(call.content)
            && link.supersedes == LastContent(chain) && link.validFrom == call.now && link.rank == 1
  {
    var r := RetireOthers(chain, KeyOf(call), call.content, call.now);
    var s := r + [NewAnchor(call, LastContent(chain))];
    forall i | 0 <= i < |s| ensures Abuts(s, i) {
      if i < |chain| {
        assert chain[i] in chain && LinkOk(chain, i) && Abuts(chain, i);
        assert r[i] == Retired(chain[i], KeyOf(call), call.content, call.now);
        if i + 1 < |chain| { assert s[i + 1].validFrom == chain[i + 1].validFrom; }
      }
    }
  }

  lemma CallKeepsSeamless(st: State, call: Call)
    requires Linked(st) && AllSeamless(st)
    ensures AllSeamless(Step(st, call).0)
  {
    forall key ensures Seamless(Chain(Step(st, call).0.anchors, key)) {
      var before := Chain(st.anchors, key);
      assert Linear(before) && Seamless(before);
      ChainsAfterCall(st, call, key);
      if Inserts(st, call) && key == KeyOf(call) {
        PreviousIsLast(st, call);
        ExtendSeamless(before, call);
      }
    }
  }

  /** Over every run the anchors of a key are valid one after the other, without gap or overlap. */
  lemma {:induction false} RunKeepsSeamless(st: State, ops: seq<Op>)
    requires Linked(st) && AllSeamless(st)
    ensures AllSeamless(Run(st, ops))
    decreases |ops|
  {
    if ops != [] {
      if ops[0].Resolve? {
        CallKeepsLinked(st, ops[0].call);
        CallKeepsSeamless(st, ops[0].call);
      }
      RunKeepsSeamless(Apply(st, ops[0]), ops[1..]);
    }
  }

  // ----- a run that breaks the agreement -----

  function CallFor(content: Id, identity: string): Call {
    Call("w", content, "decision", Some(1.0), "api", "global", identity, 0)
  }

  lemma RunSnoc(st: State, ops: seq<Op>, op: Op)
    ensures Run(st, ops + [op]) == Apply(Run(st, ops), op)
    decreases |ops|
  {
    if ops == [] {
      assert [op][1..] == [];
    } else {
      RunSnoc(Apply(st, ops[0]), ops[1..], op);
      assert (ops + [op])[1..] == ops[1..] + [op];
    }
  }

  /** Contents "a" and "b" saved, then "a" resolved under two keys. */
  function TwoKeysRun(): seq<Op> {
    [SaveItem("a", "w", "decision"), SaveItem("b", "w", "decision"), Resolve(CallFor("a", "i")),
        Resolve(CallFor("a", "j"))]
  }

  lemma TwoKeysBefore()
    ensures var st := Run(EMPTY, TwoKeysRun());
            && st.anchors == [NewAnchor(CallFor("a", "i"), None), NewAnchor(CallFor("a", "j"), None)]
            && st.items.Keys == {"a", "b"}
  {
    var ops := [];
    RunSnoc(EMPTY, ops, SaveItem("a", "w", "decision"));
    ops := ops + [SaveItem("a", "w", "decision")];
    RunSnoc(EMPTY, ops, SaveItem("b", "w", "decision"));
    ops := ops + [SaveItem("b", "w", "decision")];
    assert Run(EMPTY, ops).anchors == [] && Run(EMPTY, ops).items.Keys == {"a", "b"};
    RunSnoc(EMPTY, ops, Resolve(CallFor("a", "i")));
    ops := ops + [Resolve(CallFor("a", "i"))];
    assert Run(EMPTY, ops).anchors == [NewAnchor(CallFor("a", "i"), None)];
    RunSnoc(EMPTY, ops, Resolve(CallFor("a", "j")));
    ops := ops + [Resolve(CallFor("a", "j"))];
    assert ops == TwoKeysRun();
  }

  /** Superseding "a" under the first of its two keys leaves it active under the second but not current. */
  lemma TwoKeysDisagree()
    ensures var st := Run(EMPTY, TwoKeysRun() + [Resolve(CallFor("b", "i"))]);
            "a" in st.items && HasActive(st.anchors, "a") && st.items["a"].isCurrent == Some(false)
  {
    TwoKeysBefore();
    var st, call := Run(EMPTY, TwoKeysRun()), CallFor("b", "i");
    var first, second := st.anchors[0], st.anchors[1];
    assert st.anchors[1..] == [second] && [second][1..] == [];
    assert Inserts(st, call);
    assert FindPrevious(st.anchors, KeyOf(call)) == Some(first);
    var after := Step(st, call).0;
    assert after.anchors[1] == second && second in after.anchors;
    RunSnoc(EMPTY, TwoKeysRun(), Resolve(call));
  }

  // ----- identities of current contents -----

  ghost predicate HasActiveAs(anchors: seq<Anchor>, id: Id, identity: string) {
    exists a :: a in anchors && a.content == Some(id) && a.status == Active && a.identity == Some(identity)
  }

  /** A current content is active under its stored identity, whatever else it was resolved under. */
  ghost predicate IdentityHeld(st: State) {
    forall id | id in st.items && st.items[id].isCurrent == Some(true) && st.items[id].identity.Some? ::
      HasActiveAs(st.anchors, id, st.items[id].identity.value)
  }

  lemma OthersKeepIdentity(before: seq<Anchor>, call: Call, previous: Option<Id>, after: seq<Anchor>, id: Id,
        identity: string)
    requires InsertedInto(before, call, previous, after) && id != call.content && Some(id) != previous
    requires HasActiveAs(before, id, identity)
    ensures HasActiveAs(after, id, identity)
  {
    var a :| a in before && a.content == Some(id) && a.status == Active && a.identity == Some(identity);
    AnchorStays(before, call, previous, after, a);
  }

  lemma StepKeepsIdentityHeld(st: State, call: Call)
    requires Linked(st) && IdentityHeld(st)
    ensures IdentityHeld(Step(st, call).0)
  {
    var after := Step(st, call).0;
    forall id | id in after.items && after.items[id].isCurrent == Some(true) && after.items[id].identity.Some?
      ensures HasActiveAs(after.anchors, id, after.items[id].identity.value)
    {
      if Inserts(st, call) {
        InsertKeepsIdentity(st, call, id);
      } else if Confirms(st, call) && id == call.content {
        assert FindSame(st.anchors, KeyOf(call), call.content).value in after.anchors;
      }
    }
  }

  lemma InsertKeepsIdentity(st: State, call: Call, id: Id)
    requires Linked(st) && IdentityHeld(st) && Inserts(st, call)
    requires var items := Step(st, call).0.items;
             id in items && items[id].isCurrent == Some(true) && items[id].identity.Some?
    ensures var after := Step(st, call).0; HasActiveAs(after.anchors, id, after.items[id].identity.value)
  {
    var after, previous := Step(st, call).0, LastContent(Chain(st.anchors, KeyOf(call)));
    InsertShape(st, call);
    if id == call.content {
      assert after.anchors[|after.anchors| - 1] == NewAnchor(call, previous);
      assert NewAnchor(call, previous) in after.anchors;
    } else if Some(id) != previous {
      OthersKeepIdentity(st.anchors, call, previous, after.anchors, id, st.items[id].identity.value);
    }
  }

  lemma {:induction false} RunKeepsIdentityHeld(st: State, ops: seq<Op>)
    requires Linked(st) && IdentityHeld(st)
    ensures Linked(Run(st, ops)) && IdentityHeld(Run(st, ops))
    decreases |ops|
  {
    if ops != [] {
      if ops[0].Resolve? {
        CallKeepsLinked(st, ops[0].call);
        StepKeepsIdentityHeld(st, ops[0].call);
      }
      RunKeepsIdentityHeld(Apply(st, ops[0]), ops[1..]);
    }
  }

  /** A superseding call leaves the old content not current and in the scope of the new one, which is current. */
  lemma SupersessionAlignsScopes(st: State, call: Call, old': Id)
    requires Linked(st) && Agrees(st) && Inserts(st, call)
    requires LastContent(Chain(st.anchors, KeyOf(call))) == Some(old')
    ensures var items := Step(st, call).0.items;
            && old' in items && call.content in items && old' != call.content
            && items[old'].isCurrent == Some(false) && items[old'].scope == Some(call.scope)
            && items[call.content].isCurrent == Some(true) && items[call.content].scope == Some(call.scope)
            && items[call.content].supersedes == Some(old')
  {
    PreviousIsLast(st, call);
    var chain := Chain(st.anchors, KeyOf(call));
    assert chain[|chain| - 1] in st.anchors;
  }
}
