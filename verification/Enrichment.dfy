/**
 Current-state awareness of retrieved evidence: items are annotated from the
 resolver's columns, and superseded items sink below the others when a current
 item of their scope is present.
 */
module Enrichment {
  import opened Wrappers
  import CurrentState
  import Sorting

  type Id = string

  datatype Evidence = Evidence(
    content: Id, rank: int, isCurrent: Option<bool>, scope: Option<string>, supersedes: Option<Id>, demotedReason: bool)

  function Annotated(e: Evidence, item: CurrentState.Item): Evidence {
    e.(isCurrent := item.isCurrent, scope := item.scope, supersedes := item.supersedes)
  }

  /** Only items with an evaluated current-state row are annotated. */
  function AnnotateOne(e: Evidence, rows: map<Id, CurrentState.Item>): Evidence {
    if e.content in rows && rows[e.content].isCurrent.Some? then Annotated(e, rows[e.content]) else e
  }

  function Annotate(evidence: seq<Evidence>, rows: map<Id, CurrentState.Item>): seq<Evidence> {
    seq(|evidence|, i requires 0 <= i < |evidence| => AnnotateOne(evidence[i], rows))
  }

  /** The scopes that have a current item in the list. */
  function CurrentScopes(es: seq<Evidence>): set<string> {
    set e | e in es && e.isCurrent == Some(true) && e.scope.Some? && e.scope.value != "" :: e.scope.value
  }

  predicate Demoted(e: Evidence, scopes: set<string>) {
    e.isCurrent == Some(false) && e.scope.Some? && e.scope.value in scopes
  }

  /** The sort key order: the demotion flag, false before true. */
  function ByDemotion(scopes: set<string>): (Evidence, Evidence) -> bool {
    (a: Evidence, b: Evidence) => Demoted(a, scopes) ==> Demoted(b, scopes)
  }

  function Reorder(es: seq<Evidence>, scopes: set<string>): seq<Evidence> {
    Sorting.Sort(es, ByDemotion(scopes))
  }

  function Finish(e: Evidence, rank: int, scopes: set<string>): Evidence {
    if Demoted(e, scopes) then e.(rank := rank, demotedReason := true) else e.(rank := rank)
  }

  function Renumber(es: seq<Evidence>, scopes: set<string>): seq<Evidence> {
    seq(|es|, i requires 0 <= i < |es| => Finish(es[i], i + 1, scopes))
  }

  function Enriched(evidence: seq<Evidence>, rows: map<Id, CurrentState.Item>, historical: bool): seq<Evidence> {
    if evidence == [] || rows == map[] then evidence
    else
      var annotated := Annotate(evidence, rows);
      var scopes := CurrentScopes(annotated);
      if historical || forall e | e in annotated :: !Demoted(e, scopes) then annotated
      else Renumber(Reorder(annotated, scopes), scopes)
  }

  method Enrich(evidence: seq<Evidence>, rows: map<Id, CurrentState.Item>, historical: bool)
    returns (result: seq<Evidence>)
    ensures result == Enriched(evidence, rows, historical)
  {
    if evidence == [] || rows == map[] {
      return evidence;
    }
    var annotated: seq<Evidence> := [];
    for i := 0 to |evidence|
      invariant annotated == Annotate(evidence[..i], rows)
    {
      var e := evidence[i];
      if e.content in rows && rows[e.content].isCurrent.Some? {
        annotated := annotated + [Annotated(e, rows[e.content])];
      } else {
        annotated := annotated + [e];
      }
    }
    assert evidence[..|evidence|] == evidence;
    var scopes := CurrentScopes(annotated);
    if historical || forall e | e in annotated :: !Demoted(e, scopes) {
      return annotated;
    }
    var reordered := Reorder(annotated, scopes);
    result := [];
    for i := 0 to |reordered|
      invariant result == Renumber(reordered[..i], scopes)
    {
      result := result + [Finish(reordered[i], i + 1, scopes)];
    }
    assert reordered[..|reordered|] == reordered;
  }

  // ----- the reordering is a stable partition -----

  function Pick(es: seq<Evidence>, scopes: set<string>, demoted: bool): seq<Evidence> {
    if es == [] then []
    else (if Demoted(es[0], scopes) == demoted then [es[0]] else []) + Pick(es[1..], scopes, demoted)
  }

  lemma {:induction false} PickAll(es: seq<Evidence>, scopes: set<string>, demoted: bool)
    ensures forall e | e in Pick(es, scopes, demoted) :: e in es && Demoted(e, scopes) == demoted
  {
    if es != [] { PickAll(es[1..], scopes, demoted); }
  }

  lemma {:induction false} InsertKeeps(e: Evidence, kept: seq<Evidence>, sunk: seq<Evidence>, scopes: set<string>)
    requires forall x | x in kept :: !Demoted(x, scopes)
    requires forall x | x in sunk :: Demoted(x, scopes)
    ensures Sorting.Insert(e, kept + sunk, ByDemotion(scopes)) ==
            if Demoted(e, scopes) then kept + ([e] + sunk) else ([e] + kept) + sunk
  {
    if kept == [] {
      assert kept + sunk == sunk;
      assert sunk != [] ==> sunk[0] in sunk;
    } else {
      assert kept[0] in kept && (kept + sunk)[0] == kept[0];
      if Demoted(e, scopes) {
        InsertKeeps(e, kept[1..], sunk, scopes);
        assert (kept + sunk)[1..] == kept[1..] + sunk;
        assert [kept[0]] + (kept[1..] + ([e] + sunk)) == kept + ([e] + sunk);
      } else {
        assert [e] + (kept + sunk) == ([e] + kept) + sunk;
      }
    }
  }

  /** Retained items first, demoted ones after them, each in their old order. */
  function Partition(es: seq<Evidence>, scopes: set<string>): seq<Evidence> {
    Pick(es, scopes, false) + Pick(es, scopes, true)
  }

  /** The stable sort is that partition. */
  lemma {:induction false} ReorderIsPartition(es: seq<Evidence>, scopes: set<string>)
    ensures Reorder(es, scopes) == Partition(es, scopes)
  {
    if es != [] {
      var kept, sunk := Pick(es[1..], scopes, false), Pick(es[1..], scopes, true);
      ReorderIsPartition(es[1..], scopes);
      PickAll(es[1..], scopes, false);
      PickAll(es[1..], scopes, true);
      InsertKeeps(es[0], kept, sunk, scopes);
      assert Reorder(es, scopes) == Sorting.Insert(es[0], kept + sunk, ByDemotion(scopes));
    }
  }

  lemma PartitionPermutes(es: seq<Evidence>, scopes: set<string>)
    ensures multiset(Partition(es, scopes)) == multiset(es) && |Partition(es, scopes)| == |es|
  {
    ReorderIsPartition(es, scopes);
    Sorting.SortPermutes(es, ByDemotion(scopes));
  }

  lemma PartitionSplits(es: seq<Evidence>, scopes: set<string>, i: nat, j: nat)
    requires i < |Partition(es, scopes)| && j < |Partition(es, scopes)|
    requires Demoted(Partition(es, scopes)[i], scopes) && !Demoted(Partition(es, scopes)[j], scopes)
    ensures j < i
  {
    PickAll(es, scopes, false);
    PickAll(es, scopes, true);
    var kept := Pick(es, scopes, false);
    var order := Partition(es, scopes);
    assert forall k | 0 <= k < |kept| :: order[k] in kept;
    assert forall k | |kept| <= k < |order| :: order[k] in Pick(es, scopes, true);
  }

  // ----- what a reader of the evidence sees -----

  ghost predicate Demotes(evidence: seq<Evidence>, rows: map<Id, CurrentState.Item>, historical: bool) {
    evidence != [] && rows != map[] && !historical &&
    exists e :: e in Annotate(evidence, rows) && Demoted(e, CurrentScopes(Annotate(evidence, rows)))
  }

  /** Without a demotion, and for historical questions, the order and the ranks are untouched. */
  lemma OrderKept(evidence: seq<Evidence>, rows: map<Id, CurrentState.Item>, historical: bool)
    requires !Demotes(evidence, rows, historical)
    ensures Enriched(evidence, rows, historical) == Annotate(evidence, rows)
  {
    assert rows == map[] ==> Annotate(evidence, rows) == evidence;
  }

  /**
   With a demotion the result is the annotated list, retained items first and demoted ones after,
   each in order, ranked from 1.
   */
  lemma OrderPartitioned(evidence: seq<Evidence>, rows: map<Id, CurrentState.Item>, historical: bool)
    requires Demotes(evidence, rows, historical)
    ensures var annotated := Annotate(evidence, rows); var scopes := CurrentScopes(annotated);
            && Enriched(evidence, rows, historical) == Renumber(Partition(annotated, scopes), scopes)
            && multiset(Partition(annotated, scopes)) == multiset(annotated)
            && |Partition(annotated, scopes)| == |evidence|
  {
    var annotated := Annotate(evidence, rows);
    ReorderIsPartition(annotated, CurrentScopes(annotated));
    PartitionPermutes(annotated, CurrentScopes(annotated));
  }

  /** The columns of an item come from the row of its content, where that was evaluated; the rest is its own. */
  predicate ShownAs(now: Evidence, was: Evidence, rows: map<Id, CurrentState.Item>) {
    && now.content == was.content
    && if was.content in rows && rows[was.content].isCurrent.Some?
       then now.isCurrent == rows[was.content].isCurrent && now.scope == rows[was.content].scope
            && now.supersedes == rows[was.content].supersedes
       else now.isCurrent == was.isCurrent && now.scope == was.scope && now.supersedes == was.supersedes
  }

  /** Without a demotion every item keeps its place, its rank and its reason, and shows the columns of its content. */
  lemma UndemotedKeepPlace(evidence: seq<Evidence>, rows: map<Id, CurrentState.Item>, historical: bool)
    requires !Demotes(evidence, rows, historical)
    ensures var result := Enriched(evidence, rows, historical);
            && |result| == |evidence|
            && forall i | 0 <= i < |result| ::
                 ShownAs(result[i], evidence[i], rows) && result[i].rank == evidence[i].rank
                 && result[i].demotedReason == evidence[i].demotedReason
  {
    OrderKept(evidence, rows, historical);
  }

  /**
   With a demotion the ranks are the places counted from 1, and exactly the
   demoted items gain the reason; each is one of the given items with the columns
   of its content.
   */
  lemma RanksFollowPlaces(evidence: seq<Evidence>, rows: map<Id, CurrentState.Item>, i: nat)
    requires Demotes(evidence, rows, false) && i < |Enriched(evidence, rows, false)|
    ensures var e, scopes := Enriched(evidence, rows, false)[i], CurrentScopes(Annotate(evidence, rows));
            && e.rank == i + 1
            && exists k :: 0 <= k < |evidence| && ShownAs(e, evidence[k], rows)
                           && e.demotedReason == (evidence[k].demotedReason || Demoted(e, scopes))
  {
    var a := RankedFrom(evidence, rows, i);
    var annotated := Annotate(evidence, rows);
    var k :| 0 <= k < |annotated| && annotated[k] == a;
    assert ShownAs(Enriched(evidence, rows, false)[i], evidence[k], rows);
  }

  lemma {:induction false} PickHas(es: seq<Evidence>, scopes: set<string>, e: Evidence)
    requires e in es
    ensures e in Pick(es, scopes, Demoted(e, scopes))
  {
    if e != es[0] {
      assert e in es[1..];
      PickHas(es[1..], scopes, e);
    }
  }

  /** Every retained item stands above every demoted one. */
  lemma RetainedAboveDemoted(evidence: seq<Evidence>, rows: map<Id, CurrentState.Item>, i: nat, j: nat)
    requires Demotes(evidence, rows, false) && i < |Enriched(evidence, rows, false)|
               && j < |Enriched(evidence, rows, false)|
    requires var result := Enriched(evidence, rows, false); var scopes := CurrentScopes(Annotate(evidence, rows));
             !Demoted(result[j], scopes) && Demoted(result[i], scopes)
    ensures j < i
  {
    var annotated := Annotate(evidence, rows);
    OrderPartitioned(evidence, rows, false);
    PartitionSplits(annotated, CurrentScopes(annotated), i, j);
  }

  /** Above every demoted item stands a current item of the same scope. */
  lemma DemotedBelowCurrent(evidence: seq<Evidence>, rows: map<Id, CurrentState.Item>, i: nat)
    requires Demotes(evidence, rows, false) && i < |Enriched(evidence, rows, false)|
    requires Demoted(Enriched(evidence, rows, false)[i], CurrentScopes(Annotate(evidence, rows)))
    ensures var result := Enriched(evidence, rows, false);
            exists j :: 0 <= j < i && result[j].isCurrent == Some(true) && result[j].scope == result[i].scope
  {
    var annotated, result := Annotate(evidence, rows), Enriched(evidence, rows, false);
    var e := CurrentOfScope(annotated, result[i].scope.value);
    var j := RetainedPlace(evidence, rows, e);
    RetainedAboveDemoted(evidence, rows, i, j);
  }

  /** An item sinks exactly when it was superseded and a current item of its scope, which has a name, is in the list. */
  lemma DemotedIff(es: seq<Evidence>, e: Evidence)
    ensures Demoted(e, CurrentScopes(es)) <==>
              && e.isCurrent == Some(false) && e.scope.Some? && e.scope.value != ""
              && exists x :: x in es && x.isCurrent == Some(true) && x.scope == e.scope
  {
    if x :| x in es && x.isCurrent == Some(true) && x.scope == e.scope && e.scope.Some? && e.scope.value != "" {
      assert e.scope.value in CurrentScopes(es);
    }
  }

  lemma CurrentOfScope(es: seq<Evidence>, scope: string) returns (e: Evidence)
    requires scope in CurrentScopes(es)
    ensures e in es && e.isCurrent == Some(true) && e.scope == Some(scope)
  {
    e :| e in es && e.isCurrent == Some(true) && e.scope.Some? && e.scope.value == scope;
  }

  /** Where a retained item ends up. */
  lemma RetainedPlace(evidence: seq<Evidence>, rows: map<Id, CurrentState.Item>, e: Evidence) returns (j: nat)
    requires Demotes(evidence, rows, false)
    requires var annotated := Annotate(evidence, rows); e in annotated && !Demoted(e, CurrentScopes(annotated))
    ensures var result, scopes := Enriched(evidence, rows, false), CurrentScopes(Annotate(evidence, rows));
            j < |result| && result[j] == Finish(e, j + 1, scopes)
  {
    OrderPartitioned(evidence, rows, false);
    j := PickedPlace(Annotate(evidence, rows), CurrentScopes(Annotate(evidence, rows)), e);
  }

  lemma PickedPlace(es: seq<Evidence>, scopes: set<string>, e: Evidence) returns (j: nat)
    requires e in es && !Demoted(e, scopes)
    ensures j < |Partition(es, scopes)| && Partition(es, scopes)[j] == e
  {
    PickHas(es, scopes, e);
    j :| 0 <= j < |Pick(es, scopes, false)| && Pick(es, scopes, false)[j] == e;
  }

  /**
   After the resolver superseded one content by another, a present-tense
   question whose evidence holds both always ranks the new content's items
   above the old content's.
   */
  lemma SupersededSinksBelowSuccessor(st: CurrentState.State, call: CurrentState.Call, old': Id,
        evidence: seq<Evidence>, i: nat, j: nat)
    requires CurrentState.Linked(st) && CurrentState.Agrees(st) && CurrentState.Inserts(st, call) && call.scope != ""
    requires CurrentState.LastContent(CurrentState.Chain(st.anchors, CurrentState.KeyOf(call))) == Some(old')
    requires var result := Enriched(evidence, CurrentState.Step(st, call).0.items, false);
             i < |result| && j < |result| && result[i].content == old' && result[j].content == call.content
    ensures j < i
  {
    CurrentState.SupersessionAlignsScopes(st, call, old');
    SupersededSinks(CurrentState.Step(st, call).0.items, call.content, old', call.scope, evidence, i, j);
  }

  lemma SupersededSinks(rows: map<Id, CurrentState.Item>, new': Id, old': Id, scope: string, evidence: seq<Evidence>,
        i: nat, j: nat)
    requires new' in rows && old' in rows && scope != ""
    requires rows[new'].isCurrent == Some(true) && rows[new'].scope == Some(scope)
    requires rows[old'].isCurrent == Some(false) && rows[old'].scope == Some(scope)
    requires var result := Enriched(evidence, rows, false);
             i < |result| && j < |result| && result[i].content == old' && result[j].content == new'
    ensures j < i
  {
    var annotated, result := Annotate(evidence, rows), Enriched(evidence, rows, false);
    var scopes := CurrentScopes(annotated);
    FromAnnotated(evidence, rows, i);
    FromAnnotated(evidence, rows, j);
    assert scope in scopes;
    RetainedAboveDemoted(evidence, rows, i, j);
  }

  ghost predicate Comes(e: Evidence, annotated: seq<Evidence>) {
    exists a :: a in annotated && a == e.(rank := a.rank, demotedReason := a.demotedReason)
  }

  lemma AnnotatedColumns(evidence: seq<Evidence>, rows: map<Id, CurrentState.Item>, e: Evidence)
    requires Comes(e, Annotate(evidence, rows))
    ensures e.content in rows && rows[e.content].isCurrent.Some? ==>
              e.isCurrent == rows[e.content].isCurrent && e.scope == rows[e.content].scope
  {
    var annotated := Annotate(evidence, rows);
    var a :| a in annotated && a == e.(rank := a.rank, demotedReason := a.demotedReason);
    var k :| 0 <= k < |annotated| && annotated[k] == a;
    assert a == AnnotateOne(evidence[k], rows);
  }

  /** The annotated item at a place of the reordered result. */
  lemma RankedFrom(evidence: seq<Evidence>, rows: map<Id, CurrentState.Item>, i: nat) returns (a: Evidence)
    requires Demotes(evidence, rows, false) && i < |Enriched(evidence, rows, false)|
    ensures var annotated := Annotate(evidence, rows);
            a in annotated && Enriched(evidence, rows, false)[i] == Finish(a, i + 1, CurrentScopes(annotated))
  {
    var annotated := Annotate(evidence, rows);
    var scopes := CurrentScopes(annotated);
    OrderPartitioned(evidence, rows, false);
    a := PartitionedFrom(annotated, scopes, i);
  }

  lemma PartitionedFrom(es: seq<Evidence>, scopes: set<string>, i: nat) returns (a: Evidence)
    requires i < |Partition(es, scopes)|
    ensures a in es && Renumber(Partition(es, scopes), scopes)[i] == Finish(a, i + 1, scopes)
  {
    PartitionPermutes(es, scopes);
    a := Partition(es, scopes)[i];
    assert a in multiset(Partition(es, scopes));
  }

  lemma FinishedComes(a: Evidence, annotated: seq<Evidence>, rank: int, scopes: set<string>)
    requires a in annotated
    ensures Comes(Finish(a, rank, scopes), annotated) && Comes(a, annotated)
  {
    var e := Finish(a, rank, scopes);
    assert a == e.(rank := a.rank, demotedReason := a.demotedReason);
    assert a == a.(rank := a.rank, demotedReason := a.demotedReason);
  }

  /** Every item of the result is an annotated item, up to its rank and the demotion reason. */
  lemma FromAnnotated(evidence: seq<Evidence>, rows: map<Id, CurrentState.Item>, i: nat)
    requires i < |Enriched(evidence, rows, false)|
    ensures var e := Enriched(evidence, rows, false)[i];
            && Comes(e, Annotate(evidence, rows))
            && (e.content in rows && rows[e.content].isCurrent.Some? ==>
                 e.isCurrent == rows[e.content].isCurrent && e.scope == rows[e.content].scope)
  {
    var annotated, result := Annotate(evidence, rows), Enriched(evidence, rows, false);
    if Demotes(evidence, rows, false) {
      var a := RankedFrom(evidence, rows, i);
      FinishedComes(a, annotated, i + 1, CurrentScopes(annotated));
    } else {
      OrderKept(evidence, rows, false);
      FinishedComes(result[i], annotated, 0, {});
    }
    AnnotatedColumns(evidence, rows, result[i]);
  }
}
