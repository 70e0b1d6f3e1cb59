/**
 The deterministic producer of inferred hub edges: shared-content evidence per
 hub pair, merging by edge key, and the persisted run.  Confidences are in
 thousandths, so rounding them to three decimals is exact.
 */
module EdgeInference {
  import opened Wrappers
  import Sorting
  import opened EdgeStore

  type ContentId = nat

  const PROPOSED_EDGE_TYPE := "related"
  const BASE_CONFIDENCE := 750
  const CONFIDENCE_STEP := 10
  const CONFIDENCE_CAP := 950

  /** A row of the hub membership table; either side may be missing. */
  datatype Link = Link(hub: Option<HubId>, content: Option<ContentId>)

  datatype EdgeProposal = EdgeProposal(source: HubId, target: HubId, kind: string, confidence: int, reason: string,
        rules: set<string>, evidence: nat)

  function Key(p: EdgeProposal): EdgeKey {
    ComputeEdgeKey(p.source, p.target, p.kind)
  }

  function Max(a: int, b: int): int {
    if a >= b then a else b
  }

  function ScaledConfidence(evidence: int, threshold: int): int {
    var raised := BASE_CONFIDENCE + CONFIDENCE_STEP * (evidence - threshold);
    if raised < CONFIDENCE_CAP then raised else CONFIDENCE_CAP
  }

  /**
   Evidence that reaches the threshold scores in [0.75, 0.95], more evidence never scores less, and
   20 above is the cap.
   */
  lemma ConfidenceScale(evidence: int, more: int, threshold: int)
    requires Max(1, threshold) <= evidence <= more
    ensures BASE_CONFIDENCE <= ScaledConfidence(evidence, threshold)
              <= ScaledConfidence(more, threshold) <= CONFIDENCE_CAP
    ensures ScaledConfidence(evidence, threshold) == ScaledConfidence(more, threshold) <==>
              evidence == more || evidence >= threshold + 20
  {}

  // ----- pairs of hubs and their evidence -----

  type Pair = (HubId, HubId)

  function PairsWith(a: HubId, bs: seq<HubId>): seq<Pair> {
    seq(|bs|, i requires 0 <= i < |bs| => (a, bs[i]))
  }

  /** All pairs of distinct positions, as `itertools.combinations` lists them. */
  function Combinations(hubs: seq<HubId>): seq<Pair> {
    if hubs == [] then [] else PairsWith(hubs[0], hubs[1..]) + Combinations(hubs[1..])
  }

  ghost predicate Increasing(s: seq<HubId>) {
    forall i, j | 0 <= i < j < |s| :: s[i] < s[j]
  }

  ghost predicate Distinct<T>(s: seq<T>) {
    forall i, j | 0 <= i < j < |s| :: s[i] != s[j]
  }

  lemma {:induction false} CombinationsExact(hubs: seq<HubId>)
    requires Increasing(hubs)
    ensures forall x: Pair :: x in Combinations(hubs) <==> x.0 in hubs && x.1 in hubs && x.0 < x.1
    ensures Distinct(Combinations(hubs))
    decreases |hubs|
  {
    if hubs != [] {
      var a, bs := hubs[0], hubs[1..];
      assert hubs == [a] + bs;
      CombinationsExact(bs);
      PairsWithExact(a, bs);
      DistinctConcat(PairsWith(a, bs), Combinations(bs));
    }
  }

  lemma PairsWithExact(a: HubId, bs: seq<HubId>)
    requires Increasing([a] + bs)
    ensures forall x: Pair :: x in PairsWith(a, bs) <==> x.0 == a && x.1 in bs
    ensures Distinct(PairsWith(a, bs)) && forall b | b in bs :: a < b
  {
    var s := [a] + bs;
    forall i | 0 <= i < |bs| ensures a < bs[i] { assert s[0] < s[i + 1]; }
    forall x: Pair | x.0 == a && x.1 in bs ensures x in PairsWith(a, bs) {
      var i :| 0 <= i < |bs| && bs[i] == x.1;
      assert PairsWith(a, bs)[i] == x;
    }
    forall i, j | 0 <= i < j < |bs| ensures bs[i] != bs[j] { assert s[i + 1] < s[j + 1]; }
  }

  lemma DistinctConcat<T>(a: seq<T>, b: seq<T>)
    requires Distinct(a) && Distinct(b) && forall x | x in a :: x !in b
    ensures Distinct(a + b)
  {
    forall i, j | 0 <= i < |a| && 0 <= j < |b| ensures a[i] != b[j] { assert a[i] in a && b[j] in b; }
  }

  function PairProposal(rule: string, threshold: int, x: Pair, evidence: nat): EdgeProposal {
    EdgeProposal(x.0, x.1, PROPOSED_EDGE_TYPE, ScaledConfidence(evidence, threshold), rule, {rule}, evidence)
  }

  /** The pairs whose evidence reaches the threshold, each as a proposal. */
  function Proposals(rule: string, threshold: int, evidence: Pair -> nat, pairs: seq<Pair>): seq<EdgeProposal> {
    if pairs == [] then []
    else
      var x := pairs[0];
      var head := if evidence(x) >= Max(1, threshold) then [PairProposal(rule, threshold, x, evidence(x))] else [];
      head + Proposals(rule, threshold, evidence, pairs[1..])
  }

  /** `p` is the proposal for a pair in order with enough evidence. */
  predicate Warranted(rule: string, threshold: int, evidence: Pair -> nat, p: EdgeProposal) {
    var x := (p.source, p.target);
    p.source < p.target && evidence(x) >= Max(1, threshold) && p == PairProposal(rule, threshold, x, evidence(x))
  }

  /** A warranted proposal says which rule and how much evidence it rests on. */
  lemma WarrantedStates(rule: string, threshold: int, evidence: Pair -> nat, p: EdgeProposal)
    requires Warranted(rule, threshold, evidence, p)
    ensures p.reason == rule && p.rules == {rule} && p.kind == "related"
    ensures p.evidence == evidence((p.source, p.target)) >= 1 && p.evidence >= threshold
  {}

  lemma {:induction false} ProposalsExact(rule: string, threshold: int, evidence: Pair -> nat, pairs: seq<Pair>)
    requires Distinct(pairs) && forall x | x in pairs :: x.0 < x.1
    ensures forall p :: p in Proposals(rule, threshold, evidence, pairs) <==>
              (p.source, p.target) in pairs && Warranted(rule, threshold, evidence, p)
    ensures UniqueKeys(Proposals(rule, threshold, evidence, pairs))
    decreases |pairs|
  {
    if pairs != [] {
      var x, rest := pairs[0], pairs[1..];
      assert pairs == [x] + rest;
      ProposalsExact(rule, threshold, evidence, rest);
      if evidence(x) >= Max(1, threshold) {
        var head := PairProposal(rule, threshold, x, evidence(x));
        var tail := Proposals(rule, threshold, evidence, rest);
        forall j | 0 <= j < |tail| ensures Key(tail[j]) != Key(head) {
          assert tail[j] in tail && (tail[j].source, tail[j].target) in rest && tail[j].source < tail[j].target;
        }
      }
    }
  }

  // ----- co-membership -----

  function Contents(links: seq<Link>, hub: HubId): set<ContentId> {
    set l | l in links && l.hub == Some(hub) && l.content.Some? :: l.content.value
  }

  function HubsOf(links: seq<Link>): set<HubId> {
    set l | l in links && l.hub.Some? && l.content.Some? :: l.hub.value
  }

  function Shared(links: seq<Link>): Pair -> nat {
    (x: Pair) => |Contents(links, x.0) * Contents(links, x.1)|
  }

  function Elements(s: seq<HubId>): set<HubId> {
    set h | h in s
  }

  /** The content sets of the hubs seen so far, the hubs also in order of appearance. */
  ghost predicate Grouped(links: seq<Link>, byHub: map<HubId, set<ContentId>>, names: seq<HubId>) {
    && byHub.Keys == HubsOf(links) && Elements(names) == byHub.Keys && Distinct(names)
    && forall h | h in byHub :: byHub[h] == Contents(links, h)
  }

  method GroupByHub(links: seq<Link>) returns (byHub: map<HubId, set<ContentId>>, names: seq<HubId>)
    ensures Grouped(links, byHub, names)
  {
    byHub, names := map[], [];
    for i := 0 to |links|
      invariant Grouped(links[..i], byHub, names)
    {
      var l := links[i];
      assert links[..i + 1] == links[..i] + [l];
      GroupStep(links[..i], l, byHub, names);
      if l.hub.Some? && l.content.Some? {
        var h := l.hub.value;
        if h !in byHub {
          names := names + [h];
        }
        byHub := WithContent(byHub, h, l.content.value);
      }
    }
    assert links[..|links|] == links;
  }

  function WithContent(byHub: map<HubId, set<ContentId>>, h: HubId, content: ContentId): map<HubId, set<ContentId>> {
    byHub[h := (if h in byHub then byHub[h] else {}) + {content}]
  }

  lemma GroupStep(links: seq<Link>, l: Link, byHub: map<HubId, set<ContentId>>, names: seq<HubId>)
    requires Grouped(links, byHub, names)
    ensures l.hub.None? || l.content.None? ==> Grouped(links + [l], byHub, names)
    ensures l.hub.Some? && l.content.Some? ==>
              Grouped(links + [l], WithContent(byHub, l.hub.value, l.content.value),
                  if l.hub.value in byHub then names else names + [l.hub.value])
  {
    OneMoreHub(links, l);
    if l.hub.None? || l.content.None? {
      forall h | h in byHub ensures byHub[h] == Contents(links + [l], h) { OneMoreContent(links, l, h); }
    } else {
      GroupedMore(links, l, byHub, names);
    }
  }

  lemma GroupedMore(links: seq<Link>, l: Link, byHub: map<HubId, set<ContentId>>, names: seq<HubId>)
    requires Grouped(links, byHub, names) && l.hub.Some? && l.content.Some?
    ensures Grouped(links + [l], WithContent(byHub, l.hub.value, l.content.value),
              if l.hub.value in byHub then names else names + [l.hub.value])
  {
    var h' := l.hub.value;
    var more := WithContent(byHub, h', l.content.value);
    OneMoreHub(links, l);
    OneMoreName(names, h');
    assert h' in names <==> h' in Elements(names);
    if h' !in byHub { NewHubIsEmpty(links, h'); }
    forall h | h in more ensures more[h] == Contents(links + [l], h) { OneMoreContent(links, l, h); }
  }

  lemma OneMoreName(names: seq<HubId>, h: HubId)
    ensures Elements(names + [h]) == Elements(names) + {h}
  {}

  lemma OneMoreHub(links: seq<Link>, l: Link)
    ensures HubsOf(links + [l]) == HubsOf(links) + (if l.hub.Some? && l.content.Some? then {l.hub.value} else {})
  {}

  lemma OneMoreContent(links: seq<Link>, l: Link, h: HubId)
    ensures Contents(links + [l], h) == Contents(links, h)
              + (if l.hub == Some(h) && l.content.Some? then {l.content.value} else {})
  {}

  lemma NewHubIsEmpty(links: seq<Link>, h: HubId)
    requires h !in HubsOf(links)
    ensures Contents(links, h) == {}
  {
    assert forall l | l in links && l.hub.Some? && l.content.Some? :: l.hub.value in HubsOf(links);
  }

  function SortedHubs(names: seq<HubId>): seq<HubId> {
    Sorting.Sort(names, (x: HubId, y: HubId) => x <= y)
  }

  lemma SortedHubsExact(names: seq<HubId>)
    requires Distinct(names)
    ensures Increasing(SortedHubs(names)) && forall h :: h in SortedHubs(names) <==> h in names
  {
    var le, s := (x: HubId, y: HubId) => x <= y, SortedHubs(names);
    Sorting.SortPermutes(names, le);
    Sorting.SortSorts(names, le);
    DistinctCounts(names);
    forall i, j | 0 <= i < j < |s| ensures s[i] < s[j] {
      assert le(s[i], s[j]);
      if s[i] == s[j] {
        TwiceCounts(s, i, j);
      }
    }
    forall h ensures h in s <==> h in names {
      assert h in s <==> h in multiset(s);
      assert h in names <==> h in multiset(names);
    }
  }

  lemma TwiceCounts(s: seq<HubId>, i: nat, j: nat)
    requires i < j < |s| && s[i] == s[j]
    ensures multiset(s)[s[i]] >= 2
  {
    assert s == s[..j] + [s[j]] + s[j + 1..];
    assert s[..j][i] in multiset(s[..j]);
  }

  lemma {:induction false} DistinctCounts(s: seq<HubId>)
    requires Distinct(s)
    ensures forall h :: multiset(s)[h] <= 1
    decreases |s|
  {
    if s != [] {
      var last := |s| - 1;
      assert s == s[..last] + [s[last]];
      DistinctCounts(s[..last]);
      assert s[last] !in s[..last];
    }
  }

  lemma NextProposal(rule: string, threshold: int, evidence: Pair -> nat, pairs: seq<Pair>, i: nat,
        done: seq<EdgeProposal>)
    requires i < |pairs|
    ensures var x := pairs[i];
            var p := PairProposal(rule, threshold, x, evidence(x));
            done + Proposals(rule, threshold, evidence, pairs[i..])
            == (if evidence(x) >= Max(1, threshold) then done + [p] else done)
                + Proposals(rule, threshold, evidence, pairs[i + 1..])
  {
    var x, rest := pairs[i], Proposals(rule, threshold, evidence, pairs[i + 1..]);
    assert pairs[i..][0] == x && pairs[i..][1..] == pairs[i + 1..];
    Regroup(done, [PairProposal(rule, threshold, x, evidence(x))], rest);
    assert [] + rest == rest;
  }

  method ProposeShared(rule: string, minShared: int, byHub: map<HubId, set<ContentId>>, pairs: seq<Pair>,
        ghost evidence: Pair -> nat)
    returns (proposals: seq<EdgeProposal>)
    requires forall x | x in pairs :: x.0 in byHub && x.1 in byHub && |byHub[x.0] * byHub[x.1]| == evidence(x)
    ensures proposals == Proposals(rule, minShared, evidence, pairs)
  {
    proposals := [];
    for i := 0 to |pairs|
      invariant Proposals(rule, minShared, evidence, pairs) == proposals
                  + Proposals(rule, minShared, evidence, pairs[i..])
    {
      var x := pairs[i];
      assert x in pairs;
      NextProposal(rule, minShared, evidence, pairs, i, proposals);
      var common: set<ContentId> := byHub[x.0] * byHub[x.1];
      var shared := |common|;
      if shared >= Max(1, minShared) {
        proposals := proposals + [PairProposal(rule, minShared, x, shared)];
      }
    }
  }

  /** Each unordered pair of hubs is proposed once, and exactly when its content overlap reaches the threshold. */
  method ProposeFromCoMembership(links: seq<Link>, minShared: int) returns (proposals: seq<EdgeProposal>)
    ensures forall p :: p in proposals <==> Warranted("co_membership_v1", minShared, Shared(links), p)
    ensures UniqueKeys(proposals)
  {
    var byHub, names := GroupByHub(links);
    SortedHubsExact(names);
    var hubs := SortedHubs(names);
    CombinationsExact(hubs);
    assert forall h | h in hubs :: h in Elements(names);
    proposals := ProposeShared("co_membership_v1", minShared, byHub, Combinations(hubs), Shared(links));
    ProposalsExact("co_membership_v1", minShared, Shared(links), Combinations(hubs));
    SharersAreHubs(links, hubs);
  }

  lemma SharersAreHubs(links: seq<Link>, hubs: seq<HubId>)
    requires forall h | h in HubsOf(links) :: h in hubs
    ensures forall x: Pair | Shared(links)(x) > 0 :: x.0 in hubs && x.1 in hubs
  {
    forall x: Pair | Shared(links)(x) > 0 ensures x.0 in hubs && x.1 in hubs {
      if x.0 !in hubs { NewHubIsEmpty(links, x.0); }
      if x.1 !in hubs { NewHubIsEmpty(links, x.1); }
    }
  }

  // ----- tag alignment -----

  const NOISE_TAGS := {"placeholder", "system_generated", "no_content", "fallback"}

  /** A hub's normalised title, aliases and related terms. */
  datatype HubTerms = HubTerms(hub: HubId, terms: set<string>)

  datatype Doc = Doc(content: ContentId, tags: seq<string>)

  function NormTags(norm: string -> string, tags: seq<string>): set<string> {
    (set t | t in tags && t != "" && t !in NOISE_TAGS :: norm(t)) - {""}
  }

  function HubIds(index: seq<HubTerms>): seq<HubId> {
    seq(|index|, i requires 0 <= i < |index| => index[i].hub)
  }

  /** The hubs one of whose terms is among the tags, in index order. */
  function Mentioned(index: seq<HubTerms>, tags: set<string>): seq<HubId> {
    if index == [] then []
    else (if index[0].terms * tags != {} then [index[0].hub] else []) + Mentioned(index[1..], tags)
  }

  function MentionedBy(index: seq<HubTerms>, norm: string -> string, d: Doc): seq<HubId> {
    Mentioned(index, NormTags(norm, d.tags))
  }

  function CoDocs(index: seq<HubTerms>, norm: string -> string, docs: seq<Doc>, x: Pair): set<ContentId> {
    set d | d in docs && x.0 in MentionedBy(index, norm, d) && x.1 in MentionedBy(index, norm, d) :: d.content
  }

  function CoMentions(index: seq<HubTerms>, norm: string -> string, docs: seq<Doc>): Pair -> nat {
    (x: Pair) => |CoDocs(index, norm, docs, x)|
  }

  /** A document mentions a hub exactly when one of its tags, noise and empty ones aside, is one of the hub's terms. */
  lemma {:induction false} MentionedIff(index: seq<HubTerms>, norm: string -> string, d: Doc, h: HubId)
    ensures h in MentionedBy(index, norm, d) <==>
              exists i, t :: 0 <= i < |index| && index[i].hub == h && t in d.tags && t != ""
                             && t !in {"placeholder", "system_generated", "no_content", "fallback"}
                             && norm(t) != "" && norm(t) in index[i].terms
    decreases |index|
  {
    if index != [] {
      MentionedIff(index[1..], norm, d, h);
      assert index == [index[0]] + index[1..];
      assert MentionedBy(index, norm, d)
          == (if index[0].terms * NormTags(norm, d.tags) != {} then [index[0].hub] else [])
             + MentionedBy(index[1..], norm, d);
      FirstMentioned(index[0].terms, norm, d.tags);
    }
  }

  lemma FirstMentioned(terms: set<string>, norm: string -> string, tags: seq<string>)
    ensures terms * NormTags(norm, tags) != {} <==>
              exists t :: t in tags && t != "" && t !in {"placeholder", "system_generated", "no_content", "fallback"}
                          && norm(t) != "" && norm(t) in terms
  {
    if terms * NormTags(norm, tags) != {} {
      var x :| x in terms && x in NormTags(norm, tags);
    }
    if t :| t in tags && t != "" && t !in NOISE_TAGS && norm(t) != "" && norm(t) in terms {
      assert norm(t) in terms * NormTags(norm, tags);
    }
  }

  /** A document whose tags are all noise supports no pair. */
  lemma NoiseSupportsNothing(index: seq<HubTerms>, norm: string -> string, docs: seq<Doc>, d: Doc, x: Pair)
    requires forall t | t in d.tags :: t in {"", "placeholder", "system_generated", "no_content", "fallback"}
    ensures CoMentions(index, norm, docs + [d])(x) == CoMentions(index, norm, docs)(x)
  {
    MentionedIff(index, norm, d, x.0);
    assert CoDocs(index, norm, docs + [d], x) == CoDocs(index, norm, docs, x);
  }

  lemma {:induction false} MentionedDistinct(index: seq<HubTerms>, tags: set<string>)
    requires Distinct(HubIds(index))
    ensures Distinct(Mentioned(index, tags)) && forall h | h in Mentioned(index, tags) :: h in HubIds(index)
    decreases |index|
  {
    if index != [] {
      assert HubIds(index) == [index[0].hub] + HubIds(index[1..]);
      forall i, j | 0 <= i < j < |index| - 1 ensures HubIds(index[1..])[i] != HubIds(index[1..])[j] {
        assert HubIds(index)[i + 1] != HubIds(index)[j + 1];
      }
      MentionedDistinct(index[1..], tags);
      forall i | 0 <= i < |index| - 1 ensures HubIds(index[1..])[i] != index[0].hub {
        assert HubIds(index)[0] != HubIds(index)[i + 1];
      }
      DistinctConcat(if index[0].terms * tags != {} then [index[0].hub] else [], Mentioned(index[1..], tags));
    }
  }

  /** No tag left means no hub mentioned, so skipping the row loses nothing. */
  lemma {:induction false} NoTagsNoMention(index: seq<HubTerms>)
    ensures Mentioned(index, {}) == []
  {
    if index != [] {
      NoTagsNoMention(index[1..]);
      assert index[0].terms * {} == {};
    }
  }

  function DocsOf(pairDocs: map<Pair, set<ContentId>>, x: Pair): set<ContentId> {
    if x in pairDocs then pairDocs[x] else {}
  }

  /** The pairs with documents, in order of first appearance. */
  ghost predicate Listed(pairDocs: map<Pair, set<ContentId>>, order: seq<Pair>) {
    Distinct(order) && (forall x :: x in order <==> x in pairDocs) && forall x | x in order :: x.0 < x.1
  }

  method AddDoc(pairs: seq<Pair>, content: ContentId, pairDocs0: map<Pair, set<ContentId>>, order0: seq<Pair>)
    returns (pairDocs: map<Pair, set<ContentId>>, order: seq<Pair>)
    requires Listed(pairDocs0, order0) && forall x | x in pairs :: x.0 < x.1
    ensures Listed(pairDocs, order)
    ensures forall x: Pair :: DocsOf(pairDocs, x) == DocsOf(pairDocs0, x) + (if x in pairs then {content} else {})
  {
    pairDocs, order := pairDocs0, order0;
    for i := 0 to |pairs|
      invariant Listed(pairDocs, order)
      invariant forall x: Pair :: DocsOf(pairDocs, x) == DocsOf(pairDocs0, x)
                  + (if x in pairs[..i] then {content} else {})
    {
      var x := pairs[i];
      assert pairs[..i + 1] == pairs[..i] + [x];
      assert x in pairs;
      if x !in pairDocs {
        order := order + [x];
      }
      pairDocs := pairDocs[x := DocsOf(pairDocs, x) + {content}];
    }
    assert pairs[..|pairs|] == pairs;
  }

  lemma CoDocsStep(index: seq<HubTerms>, norm: string -> string, docs: seq<Doc>, d: Doc, x: Pair)
    ensures CoDocs(index, norm, docs + [d], x)
         == CoDocs(index, norm, docs, x)
          + (if x.0 in MentionedBy(index, norm, d) && x.1 in MentionedBy(index, norm, d) then {d.content} else {})
  {}

  method CollectPairs(index: seq<HubTerms>, norm: string -> string, docs: seq<Doc>)
    returns (pairDocs: map<Pair, set<ContentId>>, order: seq<Pair>)
    requires Distinct(HubIds(index))
    ensures Listed(pairDocs, order)
    ensures forall x: Pair | x.0 < x.1 :: DocsOf(pairDocs, x) == CoDocs(index, norm, docs, x)
  {
    pairDocs, order := map[], [];
    for i := 0 to |docs|
      invariant Listed(pairDocs, order)
      invariant forall x: Pair | x.0 < x.1 :: DocsOf(pairDocs, x) == CoDocs(index, norm, docs[..i], x)
    {
      var d := docs[i];
      assert docs[..i + 1] == docs[..i] + [d];
      forall x: Pair { CoDocsStep(index, norm, docs[..i], d, x); }
      var tags := NormTags(norm, d.tags);
      if tags == {} {
        NoTagsNoMention(index);
      } else {
        MentionedDistinct(index, tags);
        SortedHubsExact(Mentioned(index, tags));
        var mentioned := SortedHubs(Mentioned(index, tags));
        CombinationsExact(mentioned);
        pairDocs, order := AddDoc(Combinations(mentioned), d.content, pairDocs, order);
      }
    }
    assert docs[..|docs|] == docs;
  }

  method ProposeCoMentioned(rule: string, minCooccur: int, pairDocs: map<Pair, set<ContentId>>, pairs: seq<Pair>,
        ghost evidence: Pair -> nat)
    returns (proposals: seq<EdgeProposal>)
    requires forall x | x in pairs :: x in pairDocs && |pairDocs[x]| == evidence(x)
    ensures proposals == Proposals(rule, minCooccur, evidence, pairs)
  {
    proposals := [];
    for i := 0 to |pairs|
      invariant Proposals(rule, minCooccur, evidence, pairs) == proposals
                  + Proposals(rule, minCooccur, evidence, pairs[i..])
    {
      var x := pairs[i];
      assert x in pairs;
      NextProposal(rule, minCooccur, evidence, pairs, i, proposals);
      var count := |pairDocs[x]|;
      if count >= Max(1, minCooccur) {
        proposals := proposals + [PairProposal(rule, minCooccur, x, count)];
      }
    }
  }

  /** Each unordered pair of hubs is proposed once, and exactly when enough documents mention both. */
  method ProposeFromTagAlignment(index: seq<HubTerms>, norm: string -> string, docs: seq<Doc>, minCooccur: int)
    returns (proposals: seq<EdgeProposal>)
    requires Distinct(HubIds(index))
    ensures forall p :: p in proposals <==> Warranted("tag_alignment_v1", minCooccur, CoMentions(index, norm, docs), p)
    ensures UniqueKeys(proposals)
  {
    if |index| < 2 {
      LoneHubHasNoPair(index, norm, docs);
      return [];
    }
    var pairDocs, order := CollectPairs(index, norm, docs);
    ghost var evidence := CoMentions(index, norm, docs);
    assert forall x | x in order :: pairDocs[x] == DocsOf(pairDocs, x) == CoDocs(index, norm, docs, x);
    proposals := ProposeCoMentioned("tag_alignment_v1", minCooccur, pairDocs, order, evidence);
    ProposalsExact("tag_alignment_v1", minCooccur, evidence, order);
    UnlistedHasNoEvidence(index, norm, docs, pairDocs, order);
  }

  lemma UnlistedHasNoEvidence(index: seq<HubTerms>, norm: string -> string, docs: seq<Doc>,
        pairDocs: map<Pair, set<ContentId>>, order: seq<Pair>)
    requires Listed(pairDocs, order)
    requires forall x: Pair | x.0 < x.1 :: DocsOf(pairDocs, x) == CoDocs(index, norm, docs, x)
    ensures forall x: Pair | x.0 < x.1 && CoMentions(index, norm, docs)(x) > 0 :: x in order
  {
    forall x: Pair | x.0 < x.1 && CoMentions(index, norm, docs)(x) > 0 ensures x in order {
      assert DocsOf(pairDocs, x) == CoDocs(index, norm, docs, x);
    }
  }

  lemma LoneHubHasNoPair(index: seq<HubTerms>, norm: string -> string, docs: seq<Doc>)
    requires |index| < 2
    ensures forall x: Pair | x.0 < x.1 :: CoMentions(index, norm, docs)(x) == 0
  {
    forall x: Pair | x.0 < x.1 ensures CoDocs(index, norm, docs, x) == {} {
      forall d: Doc ensures x.0 !in MentionedBy(index, norm, d) || x.1 !in MentionedBy(index, norm, d) {
        LoneMention(index, NormTags(norm, d.tags));
      }
    }
  }

  lemma LoneMention(index: seq<HubTerms>, tags: set<string>)
    requires |index| < 2
    ensures |Mentioned(index, tags)| <= 1
  {}

  // ----- merging -----

  /** Two proposals for one key: the more confident is kept, the earlier on a tie, with both rule sets. */
  function Combine(existing: EdgeProposal, p: EdgeProposal): EdgeProposal {
    var (keep, other) := if p.confidence > existing.confidence then (p, existing) else (existing, p);
    keep.(rules := keep.rules + other.rules, reason := keep.reason + "; " + other.reason)
  }

  function IndexOf(table: seq<EdgeProposal>, key: EdgeKey): (r: Option<nat>)
    ensures r.Some? ==> r.value < |table| && Key(table[r.value]) == key
    ensures r.None? ==> forall i | 0 <= i < |table| :: Key(table[i]) != key
  {
    if table == [] then None
    else if Key(table[|table| - 1]) == key then Some(|table| - 1)
    else IndexOf(table[..|table| - 1], key)
  }

  function MergeInto(table: seq<EdgeProposal>, p: EdgeProposal): seq<EdgeProposal> {
    var at := IndexOf(table, Key(p));
    if at.None? then table + [p] else table[at.value := Combine(table[at.value], p)]
  }

  function MergeAll(ps: seq<EdgeProposal>): seq<EdgeProposal> {
    if ps == [] then [] else MergeInto(MergeAll(ps[..|ps| - 1]), ps[|ps| - 1])
  }

  function Flatten(lists: seq<seq<EdgeProposal>>): seq<EdgeProposal> {
    if lists == [] then [] else Flatten(lists[..|lists| - 1]) + lists[|lists| - 1]
  }

  ghost predicate UniqueKeys(ps: seq<EdgeProposal>) {
    forall i, j | 0 <= i < j < |ps| :: Key(ps[i]) != Key(ps[j])
  }

  function RulesFor(ps: seq<EdgeProposal>, key: EdgeKey): set<string> {
    set p, r | p in ps && Key(p) == key && r in p.rules :: r
  }

  /** Input `n` is the first of the most confident ones for its key. */
  ghost predicate FirstBest(ps: seq<EdgeProposal>, n: int) {
    && 0 <= n < |ps|
    && forall m | 0 <= m < |ps| && Key(ps[m]) == Key(ps[n]) ::
         if m < n then ps[m].confidence < ps[n].confidence else ps[m].confidence <= ps[n].confidence
  }

  /** `t` differs from `p` in its rules and reason at most. */
  predicate SameOffer(t: EdgeProposal, p: EdgeProposal) {
    t.source == p.source && t.target == p.target && t.kind == p.kind && t.confidence == p.confidence
        && t.evidence == p.evidence
  }

  /** `t` is what merging makes of all inputs with its key. */
  ghost predicate MergedFrom(t: EdgeProposal, ps: seq<EdgeProposal>) {
    && t.rules == RulesFor(ps, Key(t))
    && exists n :: FirstBest(ps, n) && SameOffer(t, ps[n])
  }

  ghost predicate MergeOk(table: seq<EdgeProposal>, ps: seq<EdgeProposal>) {
    && UniqueKeys(table)
    && (forall t | t in table :: MergedFrom(t, ps))
    && (forall p | p in ps :: IndexOf(table, Key(p)).Some?)
  }

  lemma RulesStep(ps: seq<EdgeProposal>, p: EdgeProposal, key: EdgeKey)
    ensures RulesFor(ps + [p], key) == RulesFor(ps, key) + (if Key(p) == key then p.rules else {})
  {}

  lemma FirstBestStep(ps: seq<EdgeProposal>, p: EdgeProposal, n: int)
    requires FirstBest(ps, n) && (Key(p) != Key(ps[n]) || p.confidence <= ps[n].confidence)
    ensures FirstBest(ps + [p], n)
  {}

  lemma OtherKeyKept(t: EdgeProposal, ps: seq<EdgeProposal>, p: EdgeProposal)
    requires MergedFrom(t, ps) && Key(t) != Key(p)
    ensures MergedFrom(t, ps + [p])
  {
    RulesStep(ps, p, Key(t));
    var n :| FirstBest(ps, n) && SameOffer(t, ps[n]);
    FirstBestStep(ps, p, n);
    assert (ps + [p])[n] == ps[n];
  }

  lemma CombinedMerges(t: EdgeProposal, ps: seq<EdgeProposal>, p: EdgeProposal)
    requires MergedFrom(t, ps) && Key(t) == Key(p)
    ensures MergedFrom(Combine(t, p), ps + [p]) && Key(Combine(t, p)) == Key(t)
  {
    RulesStep(ps, p, Key(t));
    var n :| FirstBest(ps, n) && SameOffer(t, ps[n]);
    var more := ps + [p];
    if p.confidence > t.confidence {
      assert more[|ps|] == p && FirstBest(more, |ps|);
    } else {
      FirstBestStep(ps, p, n);
      assert more[n] == ps[n];
    }
  }

  lemma NewKeyMerges(ps: seq<EdgeProposal>, p: EdgeProposal)
    requires forall q | q in ps :: Key(q) != Key(p)
    ensures MergedFrom(p, ps + [p])
  {
    RulesStep(ps, p, Key(p));
    var more := ps + [p];
    assert RulesFor(ps, Key(p)) == {};
    assert more[|ps|] == p && FirstBest(more, |ps|);
  }

  lemma MergeStep(table: seq<EdgeProposal>, ps: seq<EdgeProposal>, p: EdgeProposal)
    requires MergeOk(table, ps)
    ensures MergeOk(MergeInto(table, p), ps + [p])
  {
    var at, after := IndexOf(table, Key(p)), MergeInto(table, p);
    if at.Some? {
      CombinedMerges(table[at.value], ps, p);
    } else {
      forall q | q in ps ensures Key(q) != Key(p) { assert IndexOf(table, Key(q)).Some?; }
      NewKeyMerges(ps, p);
    }
    assert forall i | 0 <= i < |table| :: Key(after[i]) == Key(table[i]);
    forall t | t in after ensures MergedFrom(t, ps + [p]) {
      var i :| 0 <= i < |after| && after[i] == t;
      if i < |table| && (at.None? || i != at.value) {
        assert table[i] in table && Key(table[i]) != Key(p);
        OtherKeyKept(t, ps, p);
      }
    }
    forall q | q in ps + [p] ensures IndexOf(after, Key(q)).Some? {
      if q in ps {
        var k := IndexOf(table, Key(q)).value;
        assert Key(after[k]) == Key(q);
      } else {
        assert Key(after[if at.Some? then at.value else |table|]) == Key(q);
      }
    }
  }

  lemma MergeSnoc(ps: seq<EdgeProposal>, p: EdgeProposal)
    ensures MergeAll(ps + [p]) == MergeInto(MergeAll(ps), p)
  {
    var more := ps + [p];
    assert more[..|more| - 1] == ps;
  }

  lemma {:induction false} MergeAllOk(ps: seq<EdgeProposal>)
    ensures MergeOk(MergeAll(ps), ps)
    decreases |ps|
  {
    if ps == [] {
      NothingMerged();
    } else {
      var front, p := ps[..|ps| - 1], ps[|ps| - 1];
      assert ps == front + [p];
      MergeSnoc(front, p);
      MergeAllOk(front);
      MergeStep(MergeAll(front), front, p);
    }
  }

  lemma NothingMerged()
    ensures MergeOk([], [])
  {}

  // ----- what merging makes of one key -----

  /** The proposals of one key combined one after the other. */
  function KeyFold(start: Option<EdgeProposal>, ps: seq<EdgeProposal>, key: EdgeKey): Option<EdgeProposal> {
    if ps == [] then start
    else
      var before, p := KeyFold(start, ps[..|ps| - 1], key), ps[|ps| - 1];
      if Key(p) != key then before else if before.None? then Some(p) else Some(Combine(before.value, p))
  }

  /** The merged table holds for each key what its proposals combine to. */
  lemma {:induction false} MergedIsFold(ps: seq<EdgeProposal>, key: EdgeKey)
    ensures var at := IndexOf(MergeAll(ps), key);
            KeyFold(None, ps, key) == if at.None? then None else Some(MergeAll(ps)[at.value])
    decreases |ps|
  {
    if ps != [] {
      var front, p := ps[..|ps| - 1], ps[|ps| - 1];
      MergedIsFold(front, key);
      MergeAllOk(front);
      InsertedLookup(MergeAll(front), p, key);
    }
  }

  lemma InsertedLookup(table: seq<EdgeProposal>, p: EdgeProposal, key: EdgeKey)
    requires UniqueKeys(table)
    ensures var before, after := IndexOf(table, key), IndexOf(MergeInto(table, p), key);
            if Key(p) != key then
              (before.None? <==> after.None?)
              && (before.Some? ==> MergeInto(table, p)[after.value] == table[before.value])
            else
              && after.Some?
              && MergeInto(table, p)[after.value] == if before.None? then p else Combine(table[before.value], p)
  {
    var at, more := IndexOf(table, Key(p)), MergeInto(table, p);
    assert forall i | 0 <= i < |table| :: Key(more[i]) == Key(table[i]);
    if at.None? { assert more[|table|] == p; }
  }

  lemma {:induction false} FoldConcat(start: Option<EdgeProposal>, a: seq<EdgeProposal>, b: seq<EdgeProposal>,
        key: EdgeKey)
    ensures KeyFold(start, a + b, key) == KeyFold(KeyFold(start, a, key), b, key)
    decreases |b|
  {
    if b == [] {
      assert a + b == a;
    } else {
      assert (a + b)[..|a + b| - 1] == a + b[..|b| - 1];
      FoldConcat(start, a, b[..|b| - 1], key);
    }
  }

  /** A list with one proposal for the key contributes that one. */
  lemma {:induction false} FoldUnique(start: Option<EdgeProposal>, ps: seq<EdgeProposal>, key: EdgeKey)
    requires UniqueKeys(ps)
    ensures (forall p | p in ps :: Key(p) != key) ==> KeyFold(start, ps, key) == start
    ensures forall p | p in ps && Key(p) == key ::
              KeyFold(start, ps, key) == Some(if start.None? then p else Combine(start.value, p))
    decreases |ps|
  {
    if ps != [] {
      var front, last := ps[..|ps| - 1], ps[|ps| - 1];
      assert ps == front + [last];
      FoldUnique(start, front, key);
      assert Key(last) == key ==> forall p | p in front :: Key(p) != key;
    }
  }

  ghost predicate KeyOrder(keyLe: (EdgeKey, EdgeKey) -> bool) {
    Sorting.TotalPreorder(keyLe) && Sorting.Antisymmetric(keyLe)
  }

  /** Confidence descending, then key ascending. */
  function Before(keyLe: (EdgeKey, EdgeKey) -> bool): (EdgeProposal, EdgeProposal) -> bool {
    (p: EdgeProposal, q: EdgeProposal) => p.confidence > q.confidence
        || (p.confidence == q.confidence && keyLe(Key(p), Key(q)))
  }

  method MergeList(table: seq<EdgeProposal>, ghost done: seq<EdgeProposal>, list: seq<EdgeProposal>)
    returns (merged: seq<EdgeProposal>)
    requires table == MergeAll(done)
    ensures merged == MergeAll(done + list)
  {
    merged := table;
    ghost var offered := done;
    for j := 0 to |list|
      invariant offered == done + list[..j] && merged == MergeAll(offered)
    {
      MergeSnoc(offered, list[j]);
      merged := MergeInto(merged, list[j]);
      offered := offered + [list[j]];
      OfferedSnoc(done, list, j);
    }
    assert list[..|list|] == list;
  }

  lemma OfferedSnoc(done: seq<EdgeProposal>, list: seq<EdgeProposal>, j: nat)
    requires j < |list|
    ensures done + list[..j + 1] == (done + list[..j]) + [list[j]]
  {}

  method MergeProposals(lists: seq<seq<EdgeProposal>>, keyLe: (EdgeKey, EdgeKey) -> bool)
    returns (merged: seq<EdgeProposal>)
    ensures merged == Sorting.Sort(MergeAll(Flatten(lists)), Before(keyLe))
  {
    merged := [];
    for i := 0 to |lists|
      invariant merged == MergeAll(Flatten(lists[..i]))
    {
      assert lists[..i + 1][..i] == lists[..i];
      merged := MergeList(merged, Flatten(lists[..i]), lists[i]);
    }
    assert lists[..|lists|] == lists;
    merged := Sorting.Sort(merged, Before(keyLe));
  }

  /** Rearranging a merged table keeps it one. */
  lemma MergeOkPermuted(a: seq<EdgeProposal>, b: seq<EdgeProposal>, ps: seq<EdgeProposal>)
    requires MergeOk(a, ps) && multiset(a) == multiset(b)
    ensures MergeOk(b, ps)
  {
    forall t | t in b ensures t in a { assert t in multiset(b); }
    forall t | t in a ensures t in b { assert t in multiset(a); }
    forall i, j | 0 <= i < j < |b| ensures Key(b[i]) != Key(b[j]) {
      if Key(b[i]) == Key(b[j]) {
        SameKeySame(a, b[i], b[j]);
        assert b == b[..j] + [b[j]] + b[j + 1..];
        assert b[..j][i] in multiset(b[..j]);
        assert multiset(b)[b[i]] >= 2;
        OnceInTable(a, b[i]);
      }
    }
    forall p | p in ps ensures IndexOf(b, Key(p)).Some? {
      var k := IndexOf(a, Key(p)).value;
      assert a[k] in b;
    }
  }

  lemma SameKeySame(a: seq<EdgeProposal>, p: EdgeProposal, q: EdgeProposal)
    requires UniqueKeys(a) && p in a && q in a && Key(p) == Key(q)
    ensures p == q
  {}

  lemma {:induction false} OnceInTable(a: seq<EdgeProposal>, p: EdgeProposal)
    requires UniqueKeys(a)
    ensures multiset(a)[p] <= 1
    decreases |a|
  {
    if a != [] {
      var last := |a| - 1;
      assert a == a[..last] + [a[last]];
      OnceInTable(a[..last], p);
      if p == a[last] { assert p !in a[..last]; }
    }
  }

  /** Confidences descend, and keys strictly ascend among equal ones. */
  ghost predicate StrictlySorted(ps: seq<EdgeProposal>, keyLe: (EdgeKey, EdgeKey) -> bool) {
    forall i, j | 0 <= i < j < |ps| ::
      ps[i].confidence > ps[j].confidence
      || (ps[i].confidence == ps[j].confidence && keyLe(Key(ps[i]), Key(ps[j])) && Key(ps[i]) != Key(ps[j]))
  }

  /**
   The merged list has exactly one proposal per proposed key; it is the first of
   the most confident ones with the union of all their rules; and the list is
   strictly sorted by confidence descending, then key.
   */
  lemma MergeIsExact(ps: seq<EdgeProposal>, keyLe: (EdgeKey, EdgeKey) -> bool)
    requires KeyOrder(keyLe)
    ensures var merged := Sorting.Sort(MergeAll(ps), Before(keyLe));
            MergeOk(merged, ps) && StrictlySorted(merged, keyLe)
  {
    var le := Before(keyLe);
    MergeAllOk(ps);
    Sorting.SortPermutes(MergeAll(ps), le);
    MergeOkPermuted(MergeAll(ps), Sorting.Sort(MergeAll(ps), le), ps);
    BeforeIsTotal(keyLe);
    Sorting.SortSorts(MergeAll(ps), le);
    var merged := Sorting.Sort(MergeAll(ps), le);
    forall i, j | 0 <= i < j < |merged| ensures le(merged[i], merged[j]) {}
  }

  lemma BeforeIsTotal(keyLe: (EdgeKey, EdgeKey) -> bool)
    requires KeyOrder(keyLe)
    ensures Sorting.TotalPreorder(Before(keyLe))
  {
    var le := Before(keyLe);
    forall x, y, z | le(x, y) && le(y, z) ensures le(x, z) {
      assert keyLe(Key(x), Key(y)) && keyLe(Key(y), Key(z)) ==> keyLe(Key(x), Key(z));
    }
    forall x, y ensures le(x, y) || le(y, x) {
      assert keyLe(Key(x), Key(y)) || keyLe(Key(y), Key(x));
    }
  }

  // ----- the order of the inputs does not matter -----

  datatype Rank = Rank(confidence: int, key: EdgeKey)

  function RankOf(p: EdgeProposal): Rank {
    Rank(p.confidence, Key(p))
  }

  function Ranks(ps: seq<EdgeProposal>): seq<Rank> {
    seq(|ps|, i requires 0 <= i < |ps| => RankOf(ps[i]))
  }

  function RankLe(keyLe: (EdgeKey, EdgeKey) -> bool): (Rank, Rank) -> bool {
    (p: Rank, q: Rank) => p.confidence > q.confidence || (p.confidence == q.confidence && keyLe(p.key, q.key))
  }

  lemma RankLeIsOrder(keyLe: (EdgeKey, EdgeKey) -> bool)
    requires KeyOrder(keyLe)
    ensures Sorting.TotalPreorder(RankLe(keyLe)) && Sorting.Antisymmetric(RankLe(keyLe))
  {
    var le := RankLe(keyLe);
    forall x, y, z | le(x, y) && le(y, z) ensures le(x, z) {
      assert keyLe(x.key, y.key) && keyLe(y.key, z.key) ==> keyLe(x.key, z.key);
    }
    forall x, y ensures le(x, y) || le(y, x) {
      assert keyLe(x.key, y.key) || keyLe(y.key, x.key);
    }
    forall x, y | le(x, y) && le(y, x) ensures x == y {
      assert keyLe(x.key, y.key) && keyLe(y.key, x.key) ==> x.key == y.key;
    }
  }

  lemma NoMoreConfident(ps: seq<EdgeProposal>, qs: seq<EdgeProposal>, t: EdgeProposal, u: EdgeProposal)
    requires MergedFrom(t, ps) && MergedFrom(u, qs) && Key(t) == Key(u) && forall p | p in ps :: p in qs
    ensures t.confidence <= u.confidence
  {
    var n :| FirstBest(ps, n) && SameOffer(t, ps[n]);
    var m :| FirstBest(qs, m) && SameOffer(u, qs[m]);
    assert ps[n] in ps;
    var n' :| 0 <= n' < |qs| && qs[n'] == ps[n];
    assert Key(qs[n']) == Key(qs[m]);
  }

  lemma RulesFromMembers(ps: seq<EdgeProposal>, qs: seq<EdgeProposal>, key: EdgeKey)
    requires forall p :: p in ps <==> p in qs
    ensures RulesFor(ps, key) == RulesFor(qs, key)
  {}

  lemma MergedKeyOffered(t: EdgeProposal, ps: seq<EdgeProposal>) returns (p: EdgeProposal)
    requires MergedFrom(t, ps)
    ensures p in ps && Key(p) == Key(t)
  {
    var n :| FirstBest(ps, n) && SameOffer(t, ps[n]);
    p := ps[n];
  }

  /** The counterpart, in the other table, of a merged proposal. */
  lemma Counterpart(ps: seq<EdgeProposal>, qs: seq<EdgeProposal>, a: seq<EdgeProposal>, b: seq<EdgeProposal>,
        t: EdgeProposal)
    returns (u: EdgeProposal)
    requires MergeOk(a, ps) && MergeOk(b, qs) && (forall p :: p in ps <==> p in qs) && t in a
    ensures u in b && RankOf(u) == RankOf(t) && u.rules == t.rules
  {
    var p := MergedKeyOffered(t, ps);
    assert p in qs;
    u := b[IndexOf(b, Key(t)).value];
    NoMoreConfident(ps, qs, t, u);
    NoMoreConfident(qs, ps, u, t);
    RulesFromMembers(ps, qs, Key(t));
  }

  lemma {:induction false} RankOnce(a: seq<EdgeProposal>, r: Rank)
    requires UniqueKeys(a)
    ensures multiset(Ranks(a))[r] == if r in Ranks(a) then 1 else 0
    decreases |a|
  {
    if a != [] {
      var last := |a| - 1;
      RankOnce(a[..last], r);
      assert Ranks(a) == Ranks(a[..last]) + [RankOf(a[last])];
    }
  }

  lemma SameRanks(ps: seq<EdgeProposal>, qs: seq<EdgeProposal>, a: seq<EdgeProposal>, b: seq<EdgeProposal>)
    requires MergeOk(a, ps) && MergeOk(b, qs) && (forall p :: p in ps <==> p in qs)
    ensures multiset(Ranks(a)) == multiset(Ranks(b))
  {
    forall r: Rank ensures multiset(Ranks(a))[r] == multiset(Ranks(b))[r] {
      RankOnce(a, r);
      RankOnce(b, r);
      if r in Ranks(a) {
        var i :| 0 <= i < |a| && Ranks(a)[i] == r;
        var u := Counterpart(ps, qs, a, b, a[i]);
        var j :| 0 <= j < |b| && b[j] == u;
        assert Ranks(b)[j] == r;
      }
      if r in Ranks(b) {
        var i :| 0 <= i < |b| && Ranks(b)[i] == r;
        var u := Counterpart(qs, ps, b, a, b[i]);
        var j :| 0 <= j < |a| && a[j] == u;
        assert Ranks(a)[j] == r;
      }
    }
  }

  /** Keys, confidences and rules of the merged list, place by place, depend only on which proposals were offered. */
  lemma MergeOrderIrrelevant(ps: seq<EdgeProposal>, qs: seq<EdgeProposal>, keyLe: (EdgeKey, EdgeKey) -> bool)
    requires KeyOrder(keyLe) && (forall p :: p in ps <==> p in qs)
    ensures var a, b := Sorting.Sort(MergeAll(ps), Before(keyLe)), Sorting.Sort(MergeAll(qs), Before(keyLe));
            && |a| == |b|
            && forall i | 0 <= i < |a| :: RankOf(a[i]) == RankOf(b[i]) && a[i].rules == b[i].rules
  {
    var a, b := Sorting.Sort(MergeAll(ps), Before(keyLe)), Sorting.Sort(MergeAll(qs), Before(keyLe));
    MergeIsExact(ps, keyLe);
    MergeIsExact(qs, keyLe);
    SameRanks(ps, qs, a, b);
    RankLeIsOrder(keyLe);
    Sorting.SortedUnique(Ranks(a), Ranks(b), RankLe(keyLe));
    assert |a| == |Ranks(a)| == |Ranks(b)| == |b|;
    forall i | 0 <= i < |a| ensures RankOf(a[i]) == RankOf(b[i]) && a[i].rules == b[i].rules {
      assert Ranks(a)[i] == Ranks(b)[i];
      var u := Counterpart(ps, qs, a, b, a[i]);
      SameKeySame(b, u, b[i]);
    }
  }

  // ----- a persisted run -----

  function Rows(ps: seq<EdgeProposal>, createdBy: string): seq<Proposal> {
    seq(|ps|, i requires 0 <= i < |ps| => Proposal(ps[i].source, ps[i].target, ps[i].kind, ps[i].confidence,
        ps[i].reason, createdBy))
  }

  function Capped(ps: seq<EdgeProposal>, maxProposals: int): seq<EdgeProposal> {
    if maxProposals <= 0 then [] else if maxProposals < |ps| then ps[..maxProposals] else ps
  }

  /** What the producer may propose: a known pair of hubs, the fixed type and a confidence on the scale. */
  predicate Proposable(hubs: Hubs, p: EdgeProposal) {
    p.source in hubs && p.target in hubs && p.kind == PROPOSED_EDGE_TYPE
        && BASE_CONFIDENCE <= p.confidence <= CONFIDENCE_CAP
  }

  /** What co-membership proposes over known hubs is proposable. */
  lemma CoMembershipIsProposable(hubs: Hubs, links: seq<Link>, minShared: int, p: EdgeProposal)
    requires Warranted("co_membership_v1", minShared, Shared(links), p) && HubsOf(links) <= hubs.Keys
    ensures Proposable(hubs, p)
  {
    var x := (p.source, p.target);
    ConfidenceScale(Shared(links)(x), Shared(links)(x), minShared);
    if p.source !in HubsOf(links) { NewHubIsEmpty(links, p.source); }
    if p.target !in HubsOf(links) { NewHubIsEmpty(links, p.target); }
  }

  /** So is what tag alignment proposes. */
  lemma TagAlignmentIsProposable(hubs: Hubs, index: seq<HubTerms>, norm: string -> string, docs: seq<Doc>,
        minCooccur: int, p: EdgeProposal)
    requires Warranted("tag_alignment_v1", minCooccur, CoMentions(index, norm, docs), p)
    requires Distinct(HubIds(index)) && forall h | h in HubIds(index) :: h in hubs
    ensures Proposable(hubs, p)
  {
    var x := (p.source, p.target);
    var evidence := CoDocs(index, norm, docs, x);
    ConfidenceScale(|evidence|, |evidence|, minCooccur);
    var content :| content in evidence;
    var d :| d in docs && x.0 in MentionedBy(index, norm, d) && x.1 in MentionedBy(index, norm, d)
        && d.content == content;
    MentionedDistinct(index, NormTags(norm, d.tags));
  }

  lemma {:induction false} ProposableNeverRefused(hubs: Hubs, edges: seq<Edge>, rows: seq<Proposal>,
        workspace: Workspace)
    requires forall p | p in rows :: p.source in hubs && p.target in hubs && p.kind == PROPOSED_EDGE_TYPE
               && 0 <= p.confidence <= 1000
    ensures Persist(hubs, edges, rows, workspace).Ok?
    decreases |rows|
  {
    if rows != [] {
      assert rows[0] in rows;
      ProposableNeverRefused(hubs, NextRows(edges, rows[0], workspace), rows[1..], workspace);
    }
  }

  lemma MergedAreProposable(hubs: Hubs, ps: seq<EdgeProposal>, merged: seq<EdgeProposal>)
    requires MergeOk(merged, ps) && forall p | p in ps :: Proposable(hubs, p)
    ensures forall t | t in merged :: Proposable(hubs, t)
  {
    forall t | t in merged ensures Proposable(hubs, t) {
      var n :| FirstBest(ps, n) && SameOffer(t, ps[n]);
      assert ps[n] in ps;
    }
  }

  lemma KeyAbsent(ps: seq<EdgeProposal>, createdBy: string, key: EdgeKey)
    requires forall i | 0 <= i < |ps| :: Key(ps[i]) != key
    ensures key !in ProposedKeys(Rows(ps, createdBy))
  {
    var rows := Rows(ps, createdBy);
    forall p | p in rows ensures ProposalKey(p) != key {
      var i :| 0 <= i < |rows| && rows[i] == p;
      assert ProposalKey(p) == Key(ps[i]);
    }
  }

  lemma {:induction false} DistinctRowKeys(ps: seq<EdgeProposal>, createdBy: string)
    requires UniqueKeys(ps)
    ensures |ProposedKeys(Rows(ps, createdBy))| == |ps|
    decreases |ps|
  {
    if ps != [] {
      var first, rest := ps[0], ps[1..];
      DistinctRowKeys(rest, createdBy);
      var row := Rows(ps, createdBy)[0];
      assert Rows(ps, createdBy) == [row] + Rows(rest, createdBy);
      ProposedSplit(row, Rows(rest, createdBy));
      KeyAbsent(rest, createdBy, Key(first));
    }
  }

  lemma CappedProposals(hubs: Hubs, ps: seq<EdgeProposal>, keyLe: (EdgeKey, EdgeKey) -> bool, maxProposals: int)
    requires KeyOrder(keyLe) && forall p | p in ps :: Proposable(hubs, p)
    ensures var kept := Capped(Sorting.Sort(MergeAll(ps), Before(keyLe)), maxProposals);
            UniqueKeys(kept) && forall t | t in kept :: Proposable(hubs, t)
  {
    var merged := Sorting.Sort(MergeAll(ps), Before(keyLe));
    MergeIsExact(ps, keyLe);
    MergedAreProposable(hubs, ps, merged);
  }

  lemma RowsProposable(hubs: Hubs, ps: seq<EdgeProposal>, createdBy: string)
    requires forall t | t in ps :: Proposable(hubs, t)
    ensures forall p | p in Rows(ps, createdBy) ::
              p.source in hubs && p.target in hubs && p.kind == PROPOSED_EDGE_TYPE && 0 <= p.confidence <= 1000
  {
    var rows := Rows(ps, createdBy);
    forall p | p in rows
      ensures p.source in hubs && p.target in hubs && p.kind == PROPOSED_EDGE_TYPE && 0 <= p.confidence <= 1000
    {
      var i :| 0 <= i < |rows| && rows[i] == p;
      assert ps[i] in ps;
    }
  }

  /** Persisting the rows is never refused, inserts all of them where their keys are free, and works once only. */
  ghost predicate PersistsOnce(hubs: Hubs, edges: seq<Edge>, rows: seq<Proposal>, workspace: Workspace) {
    var first := Persist(hubs, edges, rows, workspace);
    && first.Ok? && Persist(hubs, first.value, rows, workspace) == Ok(first.value)
    && (ProposedKeys(rows) !! ActiveKeys(edges) ==> |first.value| == |edges| + |rows|)
  }

  /**
   A run over proposals of known hubs is never refused; on a table without
   active rows for the kept pairs it inserts all of them, and repeating the run
   inserts nothing, whatever the cap.
   */
  lemma RepeatedRunIsIdle(hubs: Hubs, edges: seq<Edge>, ps: seq<EdgeProposal>, keyLe: (EdgeKey, EdgeKey) -> bool,
        maxProposals: int, createdBy: string, workspace: Workspace)
    requires KeyOrder(keyLe) && forall p | p in ps :: Proposable(hubs, p)
    ensures PersistsOnce(hubs, edges, Rows(Capped(Sorting.Sort(MergeAll(ps), Before(keyLe)), maxProposals), createdBy),
              workspace)
  {
    CappedProposals(hubs, ps, keyLe, maxProposals);
    KeptPersistOnce(hubs, edges, Capped(Sorting.Sort(MergeAll(ps), Before(keyLe)), maxProposals), createdBy, workspace);
  }

  lemma KeptPersistOnce(hubs: Hubs, edges: seq<Edge>, kept: seq<EdgeProposal>, createdBy: string, workspace: Workspace)
    requires UniqueKeys(kept) && forall t | t in kept :: Proposable(hubs, t)
    ensures PersistsOnce(hubs, edges, Rows(kept, createdBy), workspace)
  {
    var rows := Rows(kept, createdBy);
    RowsProposable(hubs, kept, createdBy);
    ProposableNeverRefused(hubs, edges, rows, workspace);
    RerunInsertsNothing(hubs, edges, rows, workspace);
    PersistCounts(hubs, edges, rows, workspace);
    DistinctRowKeys(kept, createdBy);
    if ProposedKeys(rows) !! ActiveKeys(edges) {
      assert ProposedKeys(rows) - ActiveKeys(edges) == ProposedKeys(rows);
    }
  }

  // ----- a whole run -----

  lemma FlattenTwo(a: seq<EdgeProposal>, b: seq<EdgeProposal>)
    ensures Flatten([a, b]) == a + b
  {
    var lists := [a, b];
    assert lists[..1] == [a] && lists[..1][..0] == [];
    assert Flatten([a]) == [] + a == a;
  }

  /** The evidence each signal finds for a pair, with its threshold. */
  datatype Evidence = Evidence(shared: Pair -> nat, minShared: int, mentions: Pair -> nat, minCooccur: int)

  function EvidenceOf(links: seq<Link>, minShared: int, index: seq<HubTerms>, norm: string -> string, docs: seq<Doc>,
        minCooccur: int): Evidence {
    Evidence(Shared(links), minShared, CoMentions(index, norm, docs), minCooccur)
  }

  predicate EnoughShared(ev: Evidence, x: Pair) {
    ev.shared(x) >= Max(1, ev.minShared)
  }

  predicate EnoughMentions(ev: Evidence, x: Pair) {
    ev.mentions(x) >= Max(1, ev.minCooccur)
  }

  /** The pair is in order and has enough shared content or enough documents that mention both hubs. */
  predicate Supported(ev: Evidence, x: Pair) {
    x.0 < x.1 && (EnoughShared(ev, x) || EnoughMentions(ev, x))
  }

  /** The greater confidence of the signals that support the pair. */
  function Strength(ev: Evidence, x: Pair): int {
    Max(if EnoughShared(ev, x) then ScaledConfidence(ev.shared(x), ev.minShared) else 0,
        if EnoughMentions(ev, x) then ScaledConfidence(ev.mentions(x), ev.minCooccur) else 0)
  }

  /** The rules that support the pair, the one of the greater confidence first and co-membership on a tie. */
  function ReasonFor(ev: Evidence, x: Pair): string {
    if !EnoughMentions(ev, x) then "co_membership_v1"
    else if !EnoughShared(ev, x) then "tag_alignment_v1"
    else if ScaledConfidence(ev.mentions(x), ev.minCooccur) > ScaledConfidence(ev.shared(x), ev.minShared)
    then "tag_alignment_v1; co_membership_v1"
    else "co_membership_v1; tag_alignment_v1"
  }

  function PairKey(x: Pair): EdgeKey {
    ComputeEdgeKey(x.0, x.1, PROPOSED_EDGE_TYPE)
  }

  function PairOf(p: Proposal): Pair {
    (p.source, p.target)
  }

  predicate Outranks(ev: Evidence, keyLe: (EdgeKey, EdgeKey) -> bool, x: Pair, y: Pair) {
    Strength(ev, x) > Strength(ev, y)
        || (Strength(ev, x) == Strength(ev, y) && x != y && keyLe(PairKey(x), PairKey(y)))
  }

  ghost predicate Written(rows: seq<Proposal>, x: Pair) {
    exists p :: p in rows && PairOf(p) == x
  }

  predicate RowFor(ev: Evidence, createdBy: string, p: Proposal) {
    && Supported(ev, PairOf(p)) && p.kind == PROPOSED_EDGE_TYPE
    && p.confidence == Strength(ev, PairOf(p)) && p.reason == ReasonFor(ev, PairOf(p)) && p.createdBy == createdBy
  }

  /**
   The rows are those of the strongest supported pairs, strongest first: a
   supported pair is left out only when the cap is reached and every row
   outranks it.
   */
  ghost predicate Strongest(ev: Evidence, keyLe: (EdgeKey, EdgeKey) -> bool, maxProposals: int, createdBy: string,
        rows: seq<Proposal>) {
    && |rows| <= Max(0, maxProposals)
    && (forall p | p in rows :: RowFor(ev, createdBy, p))
    && (forall i, j | 0 <= i < j < |rows| :: Outranks(ev, keyLe, PairOf(rows[i]), PairOf(rows[j])))
    && (forall x | Supported(ev, x) && !Written(rows, x) ::
          |rows| == Max(0, maxProposals) && forall p | p in rows :: Outranks(ev, keyLe, PairOf(p), x))
  }

  /** Exactly what the two signals propose. */
  ghost predicate Signals(ev: Evidence, ps: seq<EdgeProposal>) {
    forall p :: p in ps <==> Warranted("co_membership_v1", ev.minShared, ev.shared, p)
                             || Warranted("tag_alignment_v1", ev.minCooccur, ev.mentions, p)
  }

  function SharedProposal(ev: Evidence, x: Pair): EdgeProposal {
    PairProposal("co_membership_v1", ev.minShared, x, ev.shared(x))
  }

  function MentionProposal(ev: Evidence, x: Pair): EdgeProposal {
    PairProposal("tag_alignment_v1", ev.minCooccur, x, ev.mentions(x))
  }

  lemma NoneMoreConfident(ps: seq<EdgeProposal>, n: int, p: EdgeProposal)
    requires FirstBest(ps, n) && p in ps && Key(p) == Key(ps[n])
    ensures p.confidence <= ps[n].confidence
  {
    var m :| 0 <= m < |ps| && ps[m] == p;
  }

  /** A merged proposal has the strength of its pair. */
  lemma MergedStrength(ev: Evidence, ps: seq<EdgeProposal>, t: EdgeProposal)
    requires Signals(ev, ps) && MergedFrom(t, ps)
    ensures var x := (t.source, t.target);
            Supported(ev, x) && t.kind == PROPOSED_EDGE_TYPE && Key(t) == PairKey(x) && t.confidence == Strength(ev, x)
  {
    var n :| FirstBest(ps, n) && SameOffer(t, ps[n]);
    assert ps[n] in ps;
    var x := (t.source, t.target);
    if EnoughShared(ev, x) {
      ConfidenceScale(ev.shared(x), ev.shared(x), ev.minShared);
      NoneMoreConfident(ps, n, SharedProposal(ev, x));
    }
    if EnoughMentions(ev, x) {
      ConfidenceScale(ev.mentions(x), ev.mentions(x), ev.minCooccur);
      NoneMoreConfident(ps, n, MentionProposal(ev, x));
    }
  }

  /** The two lists of proposals, each with one proposal per supported pair. */
  ghost predicate SignalLists(ev: Evidence, shared: seq<EdgeProposal>, aligned: seq<EdgeProposal>) {
    && UniqueKeys(shared) && UniqueKeys(aligned)
    && (forall p :: p in shared <==> Warranted("co_membership_v1", ev.minShared, ev.shared, p))
    && (forall p :: p in aligned <==> Warranted("tag_alignment_v1", ev.minCooccur, ev.mentions, p))
  }

  lemma SharedFold(ev: Evidence, shared: seq<EdgeProposal>, aligned: seq<EdgeProposal>, x: Pair)
    requires SignalLists(ev, shared, aligned) && x.0 < x.1
    ensures KeyFold(None, shared, PairKey(x)) == if EnoughShared(ev, x) then Some(SharedProposal(ev, x)) else None
  {
    FoldUnique(None, shared, PairKey(x));
    if EnoughShared(ev, x) { assert SharedProposal(ev, x) in shared; }
  }

  lemma AlignedFold(ev: Evidence, shared: seq<EdgeProposal>, aligned: seq<EdgeProposal>, x: Pair,
        start: Option<EdgeProposal>)
    requires SignalLists(ev, shared, aligned) && x.0 < x.1
    ensures KeyFold(start, aligned, PairKey(x)) ==
            if !EnoughMentions(ev, x) then start
            else if start.None? then Some(MentionProposal(ev, x))
            else Some(Combine(start.value, MentionProposal(ev, x)))
  {
    FoldUnique(start, aligned, PairKey(x));
    if EnoughMentions(ev, x) { assert MentionProposal(ev, x) in aligned; }
  }

  lemma TableEntryIsFold(ps: seq<EdgeProposal>, t: EdgeProposal)
    requires t in MergeAll(ps)
    ensures KeyFold(None, ps, Key(t)) == Some(t)
  {
    MergeAllOk(ps);
    MergedIsFold(ps, Key(t));
    SameKeySame(MergeAll(ps), t, MergeAll(ps)[IndexOf(MergeAll(ps), Key(t)).value]);
  }

  /** What both signals' proposals for a supported pair combine to gives the pair's reasons. */
  lemma FoldReason(ev: Evidence, shared: seq<EdgeProposal>, aligned: seq<EdgeProposal>, x: Pair)
    requires SignalLists(ev, shared, aligned) && Supported(ev, x)
    ensures var t := KeyFold(None, shared + aligned, PairKey(x)); t.Some? && t.value.reason == ReasonFor(ev, x)
  {
    FoldConcat(None, shared, aligned, PairKey(x));
    SharedFold(ev, shared, aligned, x);
    AlignedFold(ev, shared, aligned, x, KeyFold(None, shared, PairKey(x)));
    assert "co_membership_v1" + "; " + "tag_alignment_v1" == "co_membership_v1; tag_alignment_v1";
    assert "tag_alignment_v1" + "; " + "co_membership_v1" == "tag_alignment_v1; co_membership_v1";
  }

  /** A merged proposal gives the reasons of its pair. */
  lemma MergedReason(ev: Evidence, shared: seq<EdgeProposal>, aligned: seq<EdgeProposal>, t: EdgeProposal)
    requires SignalLists(ev, shared, aligned) && t in MergeAll(shared + aligned)
    requires var x := (t.source, t.target); Supported(ev, x) && Key(t) == PairKey(x)
    ensures t.reason == ReasonFor(ev, (t.source, t.target))
  {
    TableEntryIsFold(shared + aligned, t);
    FoldReason(ev, shared, aligned, (t.source, t.target));
  }

  /** Every supported pair has a merged proposal. */
  lemma SupportedIsMerged(ev: Evidence, ps: seq<EdgeProposal>, merged: seq<EdgeProposal>, x: Pair) returns (k: nat)
    requires Signals(ev, ps) && MergeOk(merged, ps) && Supported(ev, x)
    ensures k < |merged| && (merged[k].source, merged[k].target) == x
  {
    var p := if EnoughShared(ev, x) then SharedProposal(ev, x) else MentionProposal(ev, x);
    assert p in ps && Key(p) == PairKey(x);
    k := IndexOf(merged, Key(p)).value;
    assert merged[k] in merged;
    MergedStrength(ev, ps, merged[k]);
  }

  function PairAt(ps: seq<EdgeProposal>, i: nat): Pair
    requires i < |ps|
  {
    (ps[i].source, ps[i].target)
  }

  /** All supported pairs with their strengths, strongest first. */
  ghost predicate Ranked(ev: Evidence, keyLe: (EdgeKey, EdgeKey) -> bool, merged: seq<EdgeProposal>) {
    && (forall i | 0 <= i < |merged| ::
          Supported(ev, PairAt(merged, i)) && merged[i].kind == PROPOSED_EDGE_TYPE
          && merged[i].confidence == Strength(ev, PairAt(merged, i))
          && merged[i].reason == ReasonFor(ev, PairAt(merged, i)))
    && (forall i, j | 0 <= i < j < |merged| :: Outranks(ev, keyLe, PairAt(merged, i), PairAt(merged, j)))
    && (forall x | Supported(ev, x) :: exists k :: 0 <= k < |merged| && PairAt(merged, k) == x)
  }

  lemma MergedAreRanked(ev: Evidence, shared: seq<EdgeProposal>, aligned: seq<EdgeProposal>,
        keyLe: (EdgeKey, EdgeKey) -> bool, merged: seq<EdgeProposal>)
    requires SignalLists(ev, shared, aligned) && multiset(merged) == multiset(MergeAll(shared + aligned))
    requires MergeOk(merged, shared + aligned) && StrictlySorted(merged, keyLe)
    ensures Ranked(ev, keyLe, merged)
  {
    var ps := shared + aligned;
    forall i | 0 <= i < |merged|
      ensures var x := PairAt(merged, i);
              Supported(ev, x) && merged[i].kind == PROPOSED_EDGE_TYPE && Key(merged[i]) == PairKey(x)
              && merged[i].confidence == Strength(ev, x) && merged[i].reason == ReasonFor(ev, x)
    {
      assert merged[i] in merged && merged[i] in multiset(merged);
      MergedStrength(ev, ps, merged[i]);
      MergedReason(ev, shared, aligned, merged[i]);
    }
    forall i, j | 0 <= i < j < |merged| ensures Outranks(ev, keyLe, PairAt(merged, i), PairAt(merged, j)) {
      assert Key(merged[i]) == PairKey(PairAt(merged, i)) && Key(merged[j]) == PairKey(PairAt(merged, j));
    }
    forall x | Supported(ev, x) ensures exists k :: 0 <= k < |merged| && PairAt(merged, k) == x {
      var k := SupportedIsMerged(ev, ps, merged, x);
      assert PairAt(merged, k) == x;
    }
  }

  /** The rows of the first `n` ranked proposals are the strongest. */
  lemma FirstRowsAreStrongest(ev: Evidence, keyLe: (EdgeKey, EdgeKey) -> bool, merged: seq<EdgeProposal>, n: int,
        createdBy: string)
    requires Ranked(ev, keyLe, merged)
    ensures Strongest(ev, keyLe, n, createdBy, Rows(Capped(merged, n), createdBy))
  {
    var rows := Rows(Capped(merged, n), createdBy);
    assert |rows| == if n < |merged| then Max(0, n) else |merged|;
    forall i | 0 <= i < |rows| ensures RowFor(ev, createdBy, rows[i]) && PairOf(rows[i]) == PairAt(merged, i) {
      assert Capped(merged, n)[i] == merged[i];
    }
    forall x | Supported(ev, x) && !Written(rows, x)
      ensures |rows| == Max(0, n) && forall p | p in rows :: Outranks(ev, keyLe, PairOf(p), x)
    {
      var k :| 0 <= k < |merged| && PairAt(merged, k) == x;
      forall p | p in rows ensures Outranks(ev, keyLe, PairOf(p), x) {
        var i :| 0 <= i < |rows| && rows[i] == p;
        assert Outranks(ev, keyLe, PairAt(merged, i), PairAt(merged, k));
      }
    }
  }

  lemma SignalsAreProposable(hubs: Hubs, links: seq<Link>, minShared: int, index: seq<HubTerms>, norm: string -> string,
        docs: seq<Doc>, minCooccur: int, ps: seq<EdgeProposal>)
    requires HubsOf(links) <= hubs.Keys && Distinct(HubIds(index)) && forall h | h in HubIds(index) :: h in hubs
    requires Signals(EvidenceOf(links, minShared, index, norm, docs, minCooccur), ps)
    ensures forall p | p in ps :: Proposable(hubs, p)
  {
    forall p | p in ps ensures Proposable(hubs, p) {
      if Warranted("co_membership_v1", minShared, Shared(links), p) {
        CoMembershipIsProposable(hubs, links, minShared, p);
      } else {
        TagAlignmentIsProposable(hubs, index, norm, docs, minCooccur, p);
      }
    }
  }

  /**
   A whole inference run over known hubs: both signals, merged and capped.  The
   rows are those of the strongest supported pairs, none missing below the cap,
   and on any table persisting them is accepted and repeating it inserts nothing.
   */
  method RunEdgeInference(hubs: Hubs, links: seq<Link>, minShared: int, index: seq<HubTerms>, norm: string -> string,
        docs: seq<Doc>, minCooccur: int, keyLe: (EdgeKey, EdgeKey) -> bool, maxProposals: int, createdBy: string)
    returns (rows: seq<Proposal>)
    requires KeyOrder(keyLe) && HubsOf(links) <= hubs.Keys
    requires Distinct(HubIds(index)) && forall h | h in HubIds(index) :: h in hubs
    ensures Strongest(EvidenceOf(links, minShared, index, norm, docs, minCooccur), keyLe, maxProposals, createdBy, rows)
    ensures forall edges, workspace :: PersistsOnce(hubs, edges, rows, workspace)
  {
    var shared := ProposeFromCoMembership(links, minShared);
    var aligned := ProposeFromTagAlignment(index, norm, docs, minCooccur);
    var merged := MergeProposals([shared, aligned], keyLe);
    FlattenTwo(shared, aligned);
    rows := Rows(Capped(merged, maxProposals), createdBy);
    ghost var ev := EvidenceOf(links, minShared, index, norm, docs, minCooccur);
    MergeIsExact(shared + aligned, keyLe);
    Sorting.SortPermutes(MergeAll(shared + aligned), Before(keyLe));
    MergedAreRanked(ev, shared, aligned, keyLe, merged);
    FirstRowsAreStrongest(ev, keyLe, merged, maxProposals, createdBy);
    SignalsAreProposable(hubs, links, minShared, index, norm, docs, minCooccur, shared + aligned);
    forall edges, workspace ensures PersistsOnce(hubs, edges, rows, workspace) {
      RepeatedRunIsIdle(hubs, edges, shared + aligned, keyLe, maxProposals, createdBy, workspace);
    }
  }
}
