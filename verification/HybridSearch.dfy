/**
 Rescue-limited hybrid search, up to the caller's rerank: primary rows first,
 expanded graph queries only when primary retrieval found too little.  The
 vector search is any function from a query to rows.
 */
module HybridSearch {
  import opened Wrappers

  const MIN_PRIMARY_FLOOR := 3
  const MAX_RESCUE_ADD := 2

  /** What a retrieved row brings along; the empty string stands for a missing field, `text` is in lower case. */
  datatype Core = Core(workspace: string, content: string, chunk: string, text: string)

  datatype Path = Primary | ZeroResultRescue | NonzeroRescue

  datatype Row = Row(core: Core, sourceQueries: seq<string>, rescued: bool, path: Path, graphMatch: seq<string>)

  datatype CandidateKey =
    | ChunkKey(workspace: string, content: string, chunk: string)
    | ContentKey(workspace: string, content: string)

  function KeyOf(c: Core): CandidateKey {
    if c.chunk != "" then ChunkKey(c.workspace, c.content, c.chunk) else ContentKey(c.workspace, c.content)
  }

  /** Rows with one key are rows of one chunk, or of one content when the chunk is missing, in one workspace. */
  lemma SameKeyIff(c: Core, d: Core)
    ensures KeyOf(c) == KeyOf(d) <==> c.workspace == d.workspace && c.content == d.content && c.chunk == d.chunk
  {}

  predicate Usable(c: Core, workspace: string) {
    workspace == "" || c.workspace == "" || c.workspace == workspace
  }

  predicate Contains(text: string, term: string) {
    exists i | 0 <= i <= |text| :: term <= text[i..]
  }

  function MatchedTerms(c: Core, terms: seq<string>): seq<string> {
    if terms == [] then []
    else (if Contains(c.text, terms[0]) then [terms[0]] else []) + MatchedTerms(c, terms[1..])
  }

  function MergeTerms(existing: seq<string>, terms: seq<string>): (merged: seq<string>)
    ensures existing <= merged
    decreases |terms|
  {
    if terms == [] then existing
    else MergeTerms(if terms[0] in existing then existing else existing + [terms[0]], terms[1..])
  }

  // ----- what is admitted -----

  function Cores(rows: seq<Row>): seq<Core> {
    seq(|rows|, i requires 0 <= i < |rows| => rows[i].core)
  }

  function Keys(cores: seq<Core>): set<CandidateKey> {
    set c | c in cores :: KeyOf(c)
  }

  function Filter(cores: seq<Core>, eligible: Core -> bool): seq<Core> {
    if cores == [] then [] else (if eligible(cores[0]) then [cores[0]] else []) + Filter(cores[1..], eligible)
  }

  function UsableIn(workspace: string): Core -> bool {
    (c: Core) => Usable(c, workspace)
  }

  /** A shortage-fill candidate must be usable and carry some expanded term in its own text. */
  predicate Corroborated(c: Core, workspace: string, terms: seq<string>) {
    Usable(c, workspace) && MatchedTerms(c, terms) != []
  }

  function CorroboratedIn(workspace: string, terms: seq<string>): Core -> bool {
    (c: Core) => Corroborated(c, workspace, terms)
  }

  function UsableRows(cores: seq<Core>, workspace: string): seq<Core> {
    Filter(cores, UsableIn(workspace))
  }

  function CorroboratedRows(cores: seq<Core>, workspace: string, terms: seq<string>): seq<Core> {
    Filter(cores, CorroboratedIn(workspace, terms))
  }

  /** The first row of each key not seen before, in order. */
  function Admit(cores: seq<Core>, seen: set<CandidateKey>): seq<Core>
    decreases |cores|
  {
    if cores == [] then []
    else if KeyOf(cores[0]) in seen then Admit(cores[1..], seen)
    else [cores[0]] + Admit(cores[1..], seen + {KeyOf(cores[0])})
  }

  function UpTo(cores: seq<Core>, n: nat): seq<Core> {
    if |cores| <= n then cores else cores[..n]
  }

  ghost predicate DistinctKeys(cores: seq<Core>) {
    forall i, j | 0 <= i < j < |cores| :: KeyOf(cores[i]) != KeyOf(cores[j])
  }

  lemma {:induction false} FilterConcat(a: seq<Core>, b: seq<Core>, eligible: Core -> bool)
    ensures Filter(a + b, eligible) == Filter(a, eligible) + Filter(b, eligible)
    decreases |a|
  {
    if a == [] {
      assert a + b == b;
    } else {
      assert (a + b)[1..] == a[1..] + b;
      FilterConcat(a[1..], b, eligible);
      Regroup(if eligible(a[0]) then [a[0]] else [], Filter(a[1..], eligible), Filter(b, eligible));
    }
  }

  lemma {:induction false} FilterMembers(cores: seq<Core>, eligible: Core -> bool, c: Core)
    ensures c in Filter(cores, eligible) <==> c in cores && eligible(c)
  {
    if cores != [] {
      assert cores == [cores[0]] + cores[1..];
      FilterMembers(cores[1..], eligible, c);
    }
  }

  lemma FilterOne(c: Core, eligible: Core -> bool)
    ensures Filter([c], eligible) == if eligible(c) then [c] else []
  {
    assert [c][1..] == [];
  }

  lemma {:induction false} AdmitConcat(a: seq<Core>, b: seq<Core>, seen: set<CandidateKey>)
    ensures Admit(a + b, seen) == Admit(a, seen) + Admit(b, seen + Keys(a))
    decreases |a|
  {
    if a == [] {
      assert a + b == b && seen + Keys(a) == seen;
    } else {
      var k := KeyOf(a[0]);
      assert (a + b)[1..] == a[1..] + b;
      assert Keys(a) == {k} + Keys(a[1..]) by { assert a == [a[0]] + a[1..]; }
      if k in seen {
        AdmitConcat(a[1..], b, seen);
        assert seen + Keys(a) == seen + Keys(a[1..]);
      } else {
        AdmitConcat(a[1..], b, seen + {k});
        assert seen + Keys(a) == (seen + {k}) + Keys(a[1..]);
        Regroup([a[0]], Admit(a[1..], seen + {k}), Admit(b, seen + Keys(a)));
      }
    }
  }

  /** Capped admission may be done piecewise: stop when the cap is reached, otherwise go on with what is left of it. */
  lemma AdmitUpTo(a: seq<Core>, b: seq<Core>, seen: set<CandidateKey>, n: nat)
    ensures var x := UpTo(Admit(a, seen), n);
            UpTo(Admit(a + b, seen), n) == x + UpTo(Admit(b, seen + Keys(a)), n - |x|)
  {
    AdmitConcat(a, b, seen);
  }

  lemma KeysConcat(a: seq<Core>, b: seq<Core>)
    ensures Keys(a + b) == Keys(a) + Keys(b)
  {
    forall c | c in a || c in b ensures KeyOf(c) in Keys(a + b) { assert c in a + b; }
  }

  /** Admission yields distinct keys, none of them seen, drawn from the offered rows and covering their keys. */
  lemma {:induction false} AdmitProperties(cores: seq<Core>, seen: set<CandidateKey>)
    ensures var r := Admit(cores, seen);
            && DistinctKeys(r) && Keys(r) !! seen && seen + Keys(r) == seen + Keys(cores)
            && forall c | c in r :: c in cores
    decreases |cores|
  {
    if cores != [] {
      var k, rest := KeyOf(cores[0]), cores[1..];
      assert cores == [cores[0]] + rest;
      KeysConcat([cores[0]], rest);
      assert Keys(cores) == {k} + Keys(rest);
      if k in seen {
        AdmitProperties(rest, seen);
      } else {
        AdmitProperties(rest, seen + {k});
        var r := Admit(rest, seen + {k});
        AdmittedHead(cores[0], r);
      }
    }
  }

  lemma AdmittedHead(c: Core, r: seq<Core>)
    requires DistinctKeys(r) && KeyOf(c) !in Keys(r)
    ensures DistinctKeys([c] + r) && Keys([c] + r) == {KeyOf(c)} + Keys(r)
  {
    forall i | 0 <= i < |r| ensures KeyOf(r[i]) != KeyOf(c) { assert r[i] in r; }
    KeysConcat([c], r);
    assert Keys([c]) == {KeyOf(c)};
  }

  lemma DistinctConcat(a: seq<Core>, b: seq<Core>)
    requires DistinctKeys(a) && DistinctKeys(b) && Keys(a) !! Keys(b)
    ensures DistinctKeys(a + b)
  {
    forall i, j | 0 <= i < |a| && 0 <= j < |b| ensures KeyOf(a[i]) != KeyOf(b[j]) {
      assert a[i] in a && b[j] in b;
      assert KeyOf(a[i]) in Keys(a) && KeyOf(b[j]) in Keys(b);
    }
  }

  // ----- what the search returns -----

  function PrimaryCores(query: string, search: string -> seq<Core>, workspace: string): seq<Core> {
    Admit(UsableRows(search(query), workspace), {})
  }

  function RescueQuery(query: string, term: string): string {
    query + " " + term
  }

  /** Everything the expanded queries return, in query order. */
  function RescueStream(query: string, terms: seq<string>, search: string -> seq<Core>): seq<Core> {
    if terms == [] then []
    else RescueStream(query, terms[..|terms| - 1], search) + search(RescueQuery(query, terms[|terms| - 1]))
  }

  /** What is added for each number of primary rows: none, a few, or enough. */
  function Added(query: string, terms: seq<string>, search: string -> seq<Core>, workspace: string): seq<Core> {
    var primary, stream := PrimaryCores(query, search, workspace), RescueStream(query, terms, search);
    if primary == [] then Admit(UsableRows(stream, workspace), {})
    else if |primary| < MIN_PRIMARY_FLOOR then
      UpTo(Admit(CorroboratedRows(stream, workspace, terms), Keys(primary)), MAX_RESCUE_ADD)
    else []
  }

  function Candidates(query: string, terms: seq<string>, search: string -> seq<Core>, workspace: string): seq<Core> {
    PrimaryCores(query, search, workspace) + Added(query, terms, search, workspace)
  }

  /** No candidate appears twice, whatever the searches return; primary rows are never displaced. */
  lemma CandidatesAreDistinct(query: string, terms: seq<string>, search: string -> seq<Core>, workspace: string)
    ensures DistinctKeys(Candidates(query, terms, search, workspace))
    ensures PrimaryCores(query, search, workspace) <= Candidates(query, terms, search, workspace)
    ensures Keys(PrimaryCores(query, search, workspace)) == Keys(UsableRows(search(query), workspace))
  {
    var primary, stream := PrimaryCores(query, search, workspace), RescueStream(query, terms, search);
    AdmitProperties(UsableRows(search(query), workspace), {});
    if primary == [] {
      AdmitProperties(UsableRows(stream, workspace), {});
      assert primary + Added(query, terms, search, workspace) == Added(query, terms, search, workspace);
    } else if |primary| < MIN_PRIMARY_FLOOR {
      var all := Admit(CorroboratedRows(stream, workspace, terms), Keys(primary));
      AdmitProperties(CorroboratedRows(stream, workspace, terms), Keys(primary));
      assert Keys(UpTo(all, MAX_RESCUE_ADD)) <= Keys(all);
      DistinctConcat(primary, UpTo(all, MAX_RESCUE_ADD));
    }
  }

  /**
   With one or two primary rows at most two are added, each corroborated by its
   own text, and adding fewer means that no eligible row was left out; with three
   or more primary rows nothing is added.
   */
  lemma RescueIsLimited(query: string, terms: seq<string>, search: string -> seq<Core>, workspace: string)
    requires PrimaryCores(query, search, workspace) != []
    ensures var primary, added := PrimaryCores(query, search, workspace), Added(query, terms, search, workspace);
            && (|primary| >= MIN_PRIMARY_FLOOR ==> added == [])
            && |added| <= MAX_RESCUE_ADD
            && (forall c | c in added :: Corroborated(c, workspace, terms) && c in RescueStream(query, terms, search))
            && (|primary| < MIN_PRIMARY_FLOOR && |added| < MAX_RESCUE_ADD ==>
                  forall c | c in RescueStream(query, terms, search) && Corroborated(c, workspace, terms) ::
                    KeyOf(c) in Keys(primary) || KeyOf(c) in Keys(added))
  {
    var primary, stream := PrimaryCores(query, search, workspace), RescueStream(query, terms, search);
    var eligible := CorroboratedRows(stream, workspace, terms);
    forall c ensures c in eligible <==> c in stream && Corroborated(c, workspace, terms) {
      FilterMembers(stream, CorroboratedIn(workspace, terms), c);
    }
    AdmitProperties(eligible, Keys(primary));
    forall c | c in stream && Corroborated(c, workspace, terms)
      ensures KeyOf(c) in Keys(primary) || KeyOf(c) in Keys(Admit(eligible, Keys(primary)))
    {
      assert KeyOf(c) in Keys(eligible);
    }
  }

  // ----- which rows those are, in terms of the searches alone -----

  /** A row of the answer to one of several queries. */
  datatype Place = Place(query: nat, row: nat)

  predicate IsPlace(queries: seq<string>, search: string -> seq<Core>, p: Place) {
    p.query < |queries| && p.row < |search(queries[p.query])|
  }

  function CoreAt(queries: seq<string>, search: string -> seq<Core>, p: Place): Core
    requires IsPlace(queries, search, p)
  {
    search(queries[p.query])[p.row]
  }

  /** Query order, then row order. */
  predicate Earlier(p: Place, q: Place) {
    p.query < q.query || (p.query == q.query && p.row < q.row)
  }

  /** The first eligible row of its key, which is not taken. */
  ghost predicate FirstPlace(queries: seq<string>, search: string -> seq<Core>, eligible: Core -> bool,
        taken: set<CandidateKey>, p: Place) {
    && IsPlace(queries, search, p)
    && var c := CoreAt(queries, search, p);
       && eligible(c) && KeyOf(c) !in taken
       && forall q | IsPlace(queries, search, q) && Earlier(q, p) && eligible(CoreAt(queries, search, q)) ::
            KeyOf(CoreAt(queries, search, q)) != KeyOf(c)
  }

  /** All first places, each once, in order. */
  ghost predicate Lists(queries: seq<string>, search: string -> seq<Core>, eligible: Core -> bool,
        taken: set<CandidateKey>, places: seq<Place>) {
    && (forall k | 0 <= k < |places| :: FirstPlace(queries, search, eligible, taken, places[k]))
    && (forall j, k | 0 <= j < k < |places| :: Earlier(places[j], places[k]))
    && (forall p | FirstPlace(queries, search, eligible, taken, p) :: p in places)
  }

  ghost predicate AllPlaces(queries: seq<string>, search: string -> seq<Core>, places: seq<Place>) {
    forall k | 0 <= k < |places| :: IsPlace(queries, search, places[k])
  }

  ghost function CoresAt(queries: seq<string>, search: string -> seq<Core>, places: seq<Place>): seq<Core>
    requires AllPlaces(queries, search, places)
  {
    seq(|places|, k requires 0 <= k < |places| => CoreAt(queries, search, places[k]))
  }

  function Stream(queries: seq<string>, search: string -> seq<Core>): seq<Core> {
    if queries == [] then [] else Stream(queries[..|queries| - 1], search) + search(queries[|queries| - 1])
  }

  lemma KeyOffered(cores: seq<Core>, eligible: Core -> bool, key: CandidateKey)
    ensures key in Keys(Filter(cores, eligible)) <==>
              exists i :: 0 <= i < |cores| && eligible(cores[i]) && KeyOf(cores[i]) == key
  {
    if key in Keys(Filter(cores, eligible)) {
      var c :| c in Filter(cores, eligible) && KeyOf(c) == key;
      FilterMembers(cores, eligible, c);
      var i :| 0 <= i < |cores| && cores[i] == c;
    }
    if i :| 0 <= i < |cores| && eligible(cores[i]) && KeyOf(cores[i]) == key {
      FilterMembers(cores, eligible, cores[i]);
    }
  }

  lemma {:induction false} PlaceInStream(queries: seq<string>, search: string -> seq<Core>, q: Place) returns (k: nat)
    requires IsPlace(queries, search, q)
    ensures k < |Stream(queries, search)| && Stream(queries, search)[k] == CoreAt(queries, search, q)
    decreases |queries|
  {
    var n := |queries| - 1;
    if q.query < n {
      k := PlaceInStream(queries[..n], search, q);
    } else {
      k := |Stream(queries[..n], search)| + q.row;
    }
  }

  lemma {:induction false} StreamPlace(queries: seq<string>, search: string -> seq<Core>, k: nat) returns (q: Place)
    requires k < |Stream(queries, search)|
    ensures IsPlace(queries, search, q) && CoreAt(queries, search, q) == Stream(queries, search)[k]
    decreases |queries|
  {
    var n := |queries| - 1;
    var before := |Stream(queries[..n], search)|;
    if k < before {
      q := StreamPlace(queries[..n], search, k);
    } else {
      q := Place(n, k - before);
    }
  }

  /** What the answers offer before row `m` of answer `n`. */
  function OfferedBefore(queries: seq<string>, search: string -> seq<Core>, n: nat, m: nat): seq<Core>
    requires n <= |queries| && (m > 0 ==> n < |queries| && m <= |search(queries[n])|)
  {
    Stream(queries[..n], search) + (if m > 0 then search(queries[n])[..m] else [])
  }

  lemma PlaceOffered(queries: seq<string>, search: string -> seq<Core>, p: Place, q: Place) returns (k: nat)
    requires IsPlace(queries, search, p) && IsPlace(queries, search, q) && Earlier(q, p)
    ensures var offered := OfferedBefore(queries, search, p.query, p.row);
            k < |offered| && offered[k] == CoreAt(queries, search, q)
  {
    var front := queries[..p.query];
    if q.query < p.query {
      k := PlaceInStream(front, search, q);
    } else {
      k := |Stream(front, search)| + q.row;
    }
  }

  lemma OfferedPlace(queries: seq<string>, search: string -> seq<Core>, p: Place, k: nat) returns (q: Place)
    requires IsPlace(queries, search, p) && k < |OfferedBefore(queries, search, p.query, p.row)|
    ensures IsPlace(queries, search, q) && Earlier(q, p)
    ensures CoreAt(queries, search, q) == OfferedBefore(queries, search, p.query, p.row)[k]
  {
    var front := queries[..p.query];
    if k < |Stream(front, search)| {
      q := StreamPlace(front, search, k);
    } else {
      q := Place(p.query, k - |Stream(front, search)|);
    }
  }

  /** A place is first exactly when admission has not seen its key. */
  lemma FirstIffNew(queries: seq<string>, search: string -> seq<Core>, eligible: Core -> bool,
        taken: set<CandidateKey>, p: Place)
    requires IsPlace(queries, search, p)
    ensures var c := CoreAt(queries, search, p);
            FirstPlace(queries, search, eligible, taken, p) <==>
              eligible(c)
              && KeyOf(c) !in taken + Keys(Filter(OfferedBefore(queries, search, p.query, p.row), eligible))
  {
    var offered, key := OfferedBefore(queries, search, p.query, p.row), KeyOf(CoreAt(queries, search, p));
    KeyOffered(offered, eligible, key);
    if key in Keys(Filter(offered, eligible)) {
      var k :| 0 <= k < |offered| && eligible(offered[k]) && KeyOf(offered[k]) == key;
      var q := OfferedPlace(queries, search, p, k);
      assert !FirstPlace(queries, search, eligible, taken, p);
    } else {
      forall q | IsPlace(queries, search, q) && Earlier(q, p) && eligible(CoreAt(queries, search, q))
        ensures KeyOf(CoreAt(queries, search, q)) != key
      {
        var k := PlaceOffered(queries, search, p, q);
      }
    }
  }

  /** The first places before row `m` of answer `n`, in order. */
  ghost function FirstPlaces(queries: seq<string>, search: string -> seq<Core>, eligible: Core -> bool,
        taken: set<CandidateKey>, n: nat, m: nat): seq<Place>
    requires n <= |queries| && (m > 0 ==> n < |queries| && m <= |search(queries[n])|)
    decreases n, m
  {
    if m > 0 then
      var before := FirstPlaces(queries, search, eligible, taken, n, m - 1);
      if FirstPlace(queries, search, eligible, taken, Place(n, m - 1)) then before + [Place(n, m - 1)] else before
    else if n > 0 then FirstPlaces(queries, search, eligible, taken, n - 1, |search(queries[n - 1])|)
    else []
  }

  lemma {:induction false} FirstPlacesMember(queries: seq<string>, search: string -> seq<Core>, eligible: Core -> bool,
        taken: set<CandidateKey>, n: nat, m: nat, p: Place)
    requires n <= |queries| && (m > 0 ==> n < |queries| && m <= |search(queries[n])|)
    ensures p in FirstPlaces(queries, search, eligible, taken, n, m) <==>
              FirstPlace(queries, search, eligible, taken, p) && Earlier(p, Place(n, m))
    decreases n, m
  {
    if m > 0 {
      FirstPlacesMember(queries, search, eligible, taken, n, m - 1, p);
    } else if n > 0 {
      FirstPlacesMember(queries, search, eligible, taken, n - 1, |search(queries[n - 1])|, p);
    }
  }

  lemma {:induction false} FirstPlacesOrdered(queries: seq<string>, search: string -> seq<Core>,
        eligible: Core -> bool, taken: set<CandidateKey>, n: nat, m: nat, j: nat, k: nat)
    requires n <= |queries| && (m > 0 ==> n < |queries| && m <= |search(queries[n])|)
    requires j < k < |FirstPlaces(queries, search, eligible, taken, n, m)|
    ensures var places := FirstPlaces(queries, search, eligible, taken, n, m); Earlier(places[j], places[k])
    decreases n, m
  {
    if m > 0 {
      var before := FirstPlaces(queries, search, eligible, taken, n, m - 1);
      if k < |before| {
        FirstPlacesOrdered(queries, search, eligible, taken, n, m - 1, j, k);
      } else {
        assert before[j] in before;
        FirstPlacesMember(queries, search, eligible, taken, n, m - 1, before[j]);
      }
    } else if n > 0 {
      FirstPlacesOrdered(queries, search, eligible, taken, n - 1, |search(queries[n - 1])|, j, k);
    }
  }

  lemma FirstPlacesList(queries: seq<string>, search: string -> seq<Core>, eligible: Core -> bool,
        taken: set<CandidateKey>)
    ensures Lists(queries, search, eligible, taken, FirstPlaces(queries, search, eligible, taken, |queries|, 0))
  {
    var places := FirstPlaces(queries, search, eligible, taken, |queries|, 0);
    forall p ensures p in places <==> FirstPlace(queries, search, eligible, taken, p) {
      FirstPlacesMember(queries, search, eligible, taken, |queries|, 0, p);
    }
    forall k | 0 <= k < |places| ensures FirstPlace(queries, search, eligible, taken, places[k]) {
      assert places[k] in places;
    }
    forall j, k | 0 <= j < k < |places| ensures Earlier(places[j], places[k]) {
      FirstPlacesOrdered(queries, search, eligible, taken, |queries|, 0, j, k);
    }
  }

  lemma AdmitOne(c: Core, eligible: Core -> bool, seen: set<CandidateKey>)
    ensures Admit(Filter([c], eligible), seen) == if eligible(c) && KeyOf(c) !in seen then [c] else []
  {
    FilterOne(c, eligible);
  }

  lemma OfferedSnoc(queries: seq<string>, search: string -> seq<Core>, n: nat, m: nat)
    requires n < |queries| && 0 < m <= |search(queries[n])|
    ensures OfferedBefore(queries, search, n, m)
         == OfferedBefore(queries, search, n, m - 1) + [search(queries[n])[m - 1]]
  {
    assert search(queries[n])[..m] == search(queries[n])[..m - 1] + [search(queries[n])[m - 1]];
  }

  lemma OfferedAll(queries: seq<string>, search: string -> seq<Core>, n: nat)
    requires 0 < n <= |queries|
    ensures OfferedBefore(queries, search, n, 0) == OfferedBefore(queries, search, n - 1, |search(queries[n - 1])|)
  {
    assert queries[..n][..n - 1] == queries[..n - 1];
    var found := search(queries[n - 1]);
    assert found[..|found|] == found;
  }

  /** One more row offered: it is admitted exactly when it is at a first place. */
  lemma AdmitNext(queries: seq<string>, search: string -> seq<Core>, eligible: Core -> bool,
        taken: set<CandidateKey>, p: Place)
    requires IsPlace(queries, search, p)
    ensures var offered, more := OfferedBefore(queries, search, p.query, p.row),
                OfferedBefore(queries, search, p.query, p.row + 1);
            Admit(Filter(more, eligible), taken) == Admit(Filter(offered, eligible), taken)
              + (if FirstPlace(queries, search, eligible, taken, p) then [CoreAt(queries, search, p)] else [])
  {
    var offered, c := OfferedBefore(queries, search, p.query, p.row), CoreAt(queries, search, p);
    OfferedSnoc(queries, search, p.query, p.row + 1);
    FilterConcat(offered, [c], eligible);
    AdmitConcat(Filter(offered, eligible), Filter([c], eligible), taken);
    AdmitOne(c, eligible, taken + Keys(Filter(offered, eligible)));
    FirstIffNew(queries, search, eligible, taken, p);
  }

  /** Admitting what the answers offer yields the rows at the first places. */
  lemma {:induction false} AdmitFirstPlaces(queries: seq<string>, search: string -> seq<Core>, eligible: Core -> bool,
        taken: set<CandidateKey>, n: nat, m: nat)
    requires n <= |queries| && (m > 0 ==> n < |queries| && m <= |search(queries[n])|)
    ensures AllPlaces(queries, search, FirstPlaces(queries, search, eligible, taken, n, m))
    ensures Admit(Filter(OfferedBefore(queries, search, n, m), eligible), taken)
         == CoresAt(queries, search, FirstPlaces(queries, search, eligible, taken, n, m))
    decreases n, m
  {
    if m > 0 {
      AdmitFirstPlaces(queries, search, eligible, taken, n, m - 1);
      AdmitNext(queries, search, eligible, taken, Place(n, m - 1));
    } else if n > 0 {
      OfferedAll(queries, search, n);
      AdmitFirstPlaces(queries, search, eligible, taken, n - 1, |search(queries[n - 1])|);
    }
  }

  /** The rows at all first places are what admission of the whole stream yields. */
  lemma AdmitLists(queries: seq<string>, search: string -> seq<Core>, eligible: Core -> bool,
        taken: set<CandidateKey>)
    returns (places: seq<Place>)
    ensures Lists(queries, search, eligible, taken, places) && AllPlaces(queries, search, places)
    ensures Admit(Filter(Stream(queries, search), eligible), taken) == CoresAt(queries, search, places)
  {
    places := FirstPlaces(queries, search, eligible, taken, |queries|, 0);
    FirstPlacesList(queries, search, eligible, taken);
    AdmitFirstPlaces(queries, search, eligible, taken, |queries|, 0);
    assert queries[..|queries|] == queries;
    assert OfferedBefore(queries, search, |queries|, 0) == Stream(queries, search);
  }

  function RescueQueries(query: string, terms: seq<string>): seq<string> {
    seq(|terms|, i requires 0 <= i < |terms| => query + " " + terms[i])
  }

  lemma {:induction false} RescueStreamIs(query: string, terms: seq<string>, search: string -> seq<Core>)
    ensures RescueStream(query, terms, search) == Stream(RescueQueries(query, terms), search)
    decreases |terms|
  {
    if terms != [] {
      var n := |terms| - 1;
      RescueStreamIs(query, terms[..n], search);
      assert RescueQueries(query, terms)[..n] == RescueQueries(query, terms[..n]);
    }
  }

  /** A usable row: of the workspace asked for, where both name one. */
  ghost predicate IsUsable(eligible: Core -> bool, workspace: string) {
    forall c :: eligible(c) <==> workspace == "" || c.workspace == "" || c.workspace == workspace
  }

  /** A usable row whose own text holds some expanded term. */
  ghost predicate IsCorroborated(eligible: Core -> bool, workspace: string, terms: seq<string>) {
    forall c :: eligible(c) <==>
      && (workspace == "" || c.workspace == "" || c.workspace == workspace)
      && exists t, i :: t in terms && 0 <= i <= |c.text| && t <= c.text[i..]
  }

  /**
   What the whole search returns, in terms of the searches alone: the first
   usable row of each key that answers the query.  If there is none, the first
   usable row of each key that answers the query extended by some term, in term
   order and then row order.  If there are one or two, the first two such rows
   with a new key and with some term in their own text.  Otherwise nothing more.
   */
  ghost predicate Retrieved(query: string, terms: seq<string>, search: string -> seq<Core>, workspace: string,
        cores: seq<Core>)
  {
    exists usable, corroborated, primary, rescue ::
      && IsUsable(usable, workspace) && IsCorroborated(corroborated, workspace, terms)
      && Lists([query], search, usable, {}, primary) && AllPlaces([query], search, primary)
      && Rescues(query, terms, search, usable, corroborated, CoresAt([query], search, primary), rescue, cores)
  }

  ghost predicate Rescues(query: string, terms: seq<string>, search: string -> seq<Core>, usable: Core -> bool,
        corroborated: Core -> bool, primary: seq<Core>, rescue: seq<Place>, cores: seq<Core>)
  {
    var queries := RescueQueries(query, terms);
    && AllPlaces(queries, search, rescue)
    && Lists(queries, search, if primary == [] then usable else corroborated, Keys(primary), rescue)
    && var added := CoresAt(queries, search, rescue);
       cores == if primary == [] then added
                else if |primary| >= 3 then primary
                else primary + (if |added| <= 2 then added else added[..2])
  }

  lemma {:induction false} MatchedMember(c: Core, terms: seq<string>, t: string)
    ensures t in MatchedTerms(c, terms) <==> t in terms && exists i :: 0 <= i <= |c.text| && t <= c.text[i..]
  {
    if terms != [] {
      MatchedMember(c, terms[1..], t);
      assert terms == [terms[0]] + terms[1..];
    }
  }

  lemma CorroboratedIffTerm(c: Core, terms: seq<string>)
    ensures MatchedTerms(c, terms) != [] <==> exists t, i :: t in terms && 0 <= i <= |c.text| && t <= c.text[i..]
  {
    if MatchedTerms(c, terms) != [] { MatchedMember(c, terms, MatchedTerms(c, terms)[0]); }
    if t, i :| t in terms && 0 <= i <= |c.text| && t <= c.text[i..] {
      MatchedMember(c, terms, t);
    }
  }

  lemma WorkspaceFilters(workspace: string, terms: seq<string>)
    ensures IsUsable(UsableIn(workspace), workspace)
    ensures IsCorroborated(CorroboratedIn(workspace, terms), workspace, terms)
  {
    forall c ensures CorroboratedIn(workspace, terms)(c) <==>
        (workspace == "" || c.workspace == "" || c.workspace == workspace)
        && exists t, i :: t in terms && 0 <= i <= |c.text| && t <= c.text[i..] {
      CorroboratedIffTerm(c, terms);
    }
  }

  lemma RescuesHold(query: string, terms: seq<string>, search: string -> seq<Core>, workspace: string,
        primary: seq<Core>, rescue: seq<Place>)
    requires primary == PrimaryCores(query, search, workspace)
    requires var queries := RescueQueries(query, terms);
             var eligible := if primary == [] then UsableIn(workspace) else CorroboratedIn(workspace, terms);
             && Lists(queries, search, eligible, Keys(primary), rescue) && AllPlaces(queries, search, rescue)
             && Admit(Filter(Stream(queries, search), eligible), Keys(primary)) == CoresAt(queries, search, rescue)
    ensures Rescues(query, terms, search, UsableIn(workspace), CorroboratedIn(workspace, terms), primary, rescue,
              Candidates(query, terms, search, workspace))
  {
    RescueStreamIs(query, terms, search);
    assert primary == [] ==> Keys(primary) == {};
  }

  lemma PrimaryListed(query: string, search: string -> seq<Core>, workspace: string) returns (places: seq<Place>)
    ensures Lists([query], search, UsableIn(workspace), {}, places) && AllPlaces([query], search, places)
    ensures PrimaryCores(query, search, workspace) == CoresAt([query], search, places)
  {
    assert [query][..0] == [] && Stream([query], search) == search(query);
    places := AdmitLists([query], search, UsableIn(workspace), {});
  }

  /** The candidate list is exactly that. */
  lemma CandidatesAreRetrieved(query: string, terms: seq<string>, search: string -> seq<Core>, workspace: string)
    ensures Retrieved(query, terms, search, workspace, Candidates(query, terms, search, workspace))
  {
    var usable, corroborated := UsableIn(workspace), CorroboratedIn(workspace, terms);
    WorkspaceFilters(workspace, terms);
    var primary := PrimaryListed(query, search, workspace);
    var first := CoresAt([query], search, primary);
    var rescue := AdmitLists(RescueQueries(query, terms), search, if first == [] then usable else corroborated,
        Keys(first));
    RescuesHold(query, terms, search, workspace, first, rescue);
  }

  // ----- the search -----

  /** The accumulated rows and the keys seen so far agree. */
  ghost predicate InSync(rows: seq<Row>, seen: set<CandidateKey>) {
    seen == Keys(Cores(rows))
  }

  /** What may happen to a row once it is in the list: place and identity stay, provenance only grows. */
  ghost predicate Kept(before: Row, after: Row, marked: bool) {
    && after.core == before.core && after.path == before.path
    && after.rescued == (before.rescued || marked)
    && before.graphMatch <= after.graphMatch && before.sourceQueries <= after.sourceQueries
  }

  /** The effect of adding one query's rows: old rows are kept, new ones carry the query and the rescue mark. */
  ghost predicate Grown(before: seq<Row>, after: seq<Row>, rescued: bool) {
    && |before| <= |after|
    && (forall i | 0 <= i < |before| :: Kept(before[i], after[i], false)
          || (rescued && Kept(before[i], after[i], true)))
    && forall i | |before| <= i < |after| :: after[i].rescued == rescued
         && after[i].path == (if rescued then ZeroResultRescue else Primary)
  }

  ghost predicate AllFrom(rows: seq<Row>, query: string) {
    forall i | 0 <= i < |rows| :: rows[i].sourceQueries == [query]
  }

  /** The expanded terms, the rescue queries they make, and the search that answers those. */
  datatype Ask = Ask(terms: seq<string>, queries: seq<string>, search: string -> seq<Core>)

  function AskFor(query: string, terms: seq<string>, search: string -> seq<Core>): Ask {
    Ask(terms, RescueQueries(query, terms), search)
  }

  /**
   The effect of the shortage fill: old rows only gain graph provenance, new ones are marked,
   corroborated, and have as their one query one of those asked that they answer.
   */
  ghost predicate Filled(before: seq<Row>, after: seq<Row>, ask: Ask) {
    && |before| <= |after|
    && (forall i | 0 <= i < |before| :: Kept(before[i], after[i], false)
          && after[i].sourceQueries == before[i].sourceQueries)
    && forall i | |before| <= i < |after| :: FilledIn(after[i], ask)
  }

  ghost predicate FilledIn(r: Row, ask: Ask) {
    && r.rescued && r.path == NonzeroRescue && MatchedTerms(r.core, ask.terms) != []
    && MatchedTerms(r.core, ask.terms) <= r.graphMatch
    && |r.sourceQueries| == 1 && r.sourceQueries[0] in ask.queries && r.core in ask.search(r.sourceQueries[0])
  }

  /** A row met again under `sourceQuery`, or under no query of its own. */
  function Enriched(r: Row, sourceQuery: Option<string>, rescued: bool, terms: seq<string>): Row {
    var isNew := sourceQuery.Some? && sourceQuery.value !in r.sourceQueries;
    r.(sourceQueries := if isNew then r.sourceQueries + [sourceQuery.value] else r.sourceQueries,
       rescued := rescued || r.rescued,
       graphMatch := MergeTerms(r.graphMatch, terms))
  }

  /** A usable row met under a query. */
  datatype Met = Met(query: string, core: Core)

  function MetUnder(query: string, cores: seq<Core>): seq<Met> {
    seq(|cores|, i requires 0 <= i < |cores| => Met(query, cores[i]))
  }

  predicate MetWith(met: seq<Met>, k: int, r: Row) {
    0 <= k < |met| && KeyOf(met[k].core) == KeyOf(r.core)
  }

  /** The row names exactly the queries and the terms under which its key was met. */
  ghost predicate RowTraced(r: Row, met: seq<Met>, terms: seq<string>) {
    && (forall q :: q in r.sourceQueries <==> exists k :: MetWith(met, k, r) && met[k].query == q)
    && (forall t :: t in r.graphMatch <==> exists k :: MetWith(met, k, r) && t in MatchedTerms(met[k].core, terms))
  }

  /** The rows stand for the keys met, each once and with its provenance. */
  ghost predicate Traced(rows: seq<Row>, met: seq<Met>, terms: seq<string>) {
    && DistinctKeys(Cores(rows))
    && (forall k | 0 <= k < |met| :: KeyOf(met[k].core) in Keys(Cores(rows)))
    && (forall i | 0 <= i < |rows| :: RowTraced(rows[i], met, terms))
  }

  lemma {:induction false} MergedMember(existing: seq<string>, terms: seq<string>, t: string)
    ensures t in MergeTerms(existing, terms) <==> t in existing || t in terms
    decreases |terms|
  {
    if terms != [] {
      assert terms == [terms[0]] + terms[1..];
      MergedMember(if terms[0] in existing then existing else existing + [terms[0]], terms[1..], t);
    }
  }

  lemma EnrichedTraced(r: Row, met: seq<Met>, m: Met, rescued: bool, terms: seq<string>)
    requires RowTraced(r, met, terms) && KeyOf(m.core) == KeyOf(r.core)
    ensures RowTraced(Enriched(r, Some(m.query), rescued, MatchedTerms(m.core, terms)), met + [m], terms)
  {
    var now, more := Enriched(r, Some(m.query), rescued, MatchedTerms(m.core, terms)), met + [m];
    assert MetWith(more, |met|, now);
    assert forall k | 0 <= k < |met| :: more[k] == met[k] && (MetWith(more, k, now) <==> MetWith(met, k, r));
    forall t ensures t in now.graphMatch <==> t in r.graphMatch || t in MatchedTerms(m.core, terms) {
      MergedMember(r.graphMatch, MatchedTerms(m.core, terms), t);
    }
  }

  lemma OtherTraced(r: Row, met: seq<Met>, m: Met, terms: seq<string>)
    requires RowTraced(r, met, terms) && KeyOf(m.core) != KeyOf(r.core)
    ensures RowTraced(r, met + [m], terms)
  {
    var more := met + [m];
    assert forall k :: MetWith(more, k, r) <==> MetWith(met, k, r);
  }

  /** A row met again enriches its one row. */
  lemma AgainTraced(before: seq<Row>, after: seq<Row>, met: seq<Met>, m: Met, rescued: bool, terms: seq<string>)
    requires Traced(before, met, terms) && KeyOf(m.core) in Keys(Cores(before))
    requires |after| == |before| && Cores(after) == Cores(before)
    requires forall i | 0 <= i < |before| ::
               after[i] == if FirstWithKey(before, i, KeyOf(m.core))
                           then Enriched(before[i], Some(m.query), rescued, MatchedTerms(m.core, terms)) else before[i]
    ensures Traced(after, met + [m], terms)
  {
    forall i | 0 <= i < |after| ensures RowTraced(after[i], met + [m], terms) {
      assert RowTraced(before[i], met, terms);
      if KeyOf(before[i].core) == KeyOf(m.core) {
        forall j | 0 <= j < i ensures KeyOf(before[j].core) != KeyOf(m.core) {
          assert KeyOf(Cores(before)[j]) != KeyOf(Cores(before)[i]);
        }
        EnrichedTraced(before[i], met, m, rescued, terms);
      } else {
        OtherTraced(before[i], met, m, terms);
      }
    }
  }

  lemma FreshTraced(r: Row, met: seq<Met>, terms: seq<string>)
    requires |r.sourceQueries| == 1 && r.graphMatch == MatchedTerms(r.core, terms)
    requires forall k | 0 <= k < |met| :: KeyOf(met[k].core) != KeyOf(r.core)
    ensures RowTraced(r, met + [Met(r.sourceQueries[0], r.core)], terms)
  {
    var more := met + [Met(r.sourceQueries[0], r.core)];
    forall k ensures MetWith(more, k, r) <==> k == |met| {
      if 0 <= k < |met| { assert more[k] == met[k]; }
    }
    assert MetWith(more, |met|, r) && more[|met|].query == r.sourceQueries[0];
  }

  /** A row with a new key starts with its own query and terms. */
  lemma NewTraced(before: seq<Row>, r: Row, met: seq<Met>, terms: seq<string>)
    requires Traced(before, met, terms) && KeyOf(r.core) !in Keys(Cores(before)) && |r.sourceQueries| == 1
    requires r.graphMatch == MatchedTerms(r.core, terms)
    ensures Traced(before + [r], met + [Met(r.sourceQueries[0], r.core)], terms)
  {
    var m, after := Met(r.sourceQueries[0], r.core), before + [r];
    var more := met + [m];
    CoresSnoc(before, r);
    forall i | 0 <= i < |before| ensures KeyOf(before[i].core) != KeyOf(r.core) {
      assert Cores(before)[i] in Cores(before);
    }
    forall i, j | 0 <= i < j < |after| ensures KeyOf(Cores(after)[i]) != KeyOf(Cores(after)[j]) {
      if j < |before| { assert KeyOf(Cores(before)[i]) != KeyOf(Cores(before)[j]); }
    }
    forall i | 0 <= i < |after| ensures RowTraced(after[i], more, terms) {
      if i < |before| {
        OtherTraced(before[i], met, m, terms);
      } else {
        FreshTraced(r, met, terms);
      }
    }
  }

  ghost predicate FirstWithKey(rows: seq<Row>, i: nat, key: CandidateKey)
    requires i < |rows|
  {
    KeyOf(rows[i].core) == key && forall j | 0 <= j < i :: KeyOf(rows[j].core) != key
  }

  /** Enrich the first existing row with this key, and no other. */
  method EnrichExisting(rows: seq<Row>, key: CandidateKey, sourceQuery: Option<string>, rescued: bool,
        terms: seq<string>)
    returns (after: seq<Row>)
    ensures |after| == |rows| && Cores(after) == Cores(rows)
    ensures forall i | 0 <= i < |rows| ::
              after[i] == if FirstWithKey(rows, i, key) then Enriched(rows[i], sourceQuery, rescued, terms) else rows[i]
  {
    after := rows;
    for i := 0 to |rows|
      invariant after == rows
      invariant forall j | 0 <= j < i :: KeyOf(rows[j].core) != key
    {
      var r := rows[i];
      if KeyOf(r.core) == key {
        if sourceQuery.Some? && sourceQuery.value !in r.sourceQueries {
          r := r.(sourceQueries := r.sourceQueries + [sourceQuery.value]);
        }
        if rescued {
          r := r.(rescued := true);
        }
        r := r.(graphMatch := MergeTerms(r.graphMatch, terms));
        after := rows[i := r];
        return;
      }
    }
  }

  lemma CoresSnoc(rows: seq<Row>, r: Row)
    ensures Cores(rows + [r]) == Cores(rows) + [r.core]
    ensures Keys(Cores(rows + [r])) == Keys(Cores(rows)) + {KeyOf(r.core)}
  {
    KeysConcat(Cores(rows), [r.core]);
    assert Keys([r.core]) == {KeyOf(r.core)};
  }

  method AddRow(rows0: seq<Row>, seen0: set<CandidateKey>, c: Core, sourceQuery: string, rescued: bool,
        newTerms: seq<string>, workspace: string, ghost met: seq<Met>)
    returns (rows: seq<Row>, seen: set<CandidateKey>)
    requires InSync(rows0, seen0) && Traced(rows0, met, newTerms)
    ensures Traced(rows, met + MetUnder(sourceQuery, UsableRows([c], workspace)), newTerms)
    ensures InSync(rows, seen) && seen == seen0 + Keys(UsableRows([c], workspace))
    ensures Cores(rows) == Cores(rows0) + Admit(UsableRows([c], workspace), seen0)
    ensures Grown(rows0, rows, rescued)
    ensures AllFrom(rows0, sourceQuery) ==> AllFrom(rows, sourceQuery)
  {
    rows, seen := rows0, seen0;
    FilterOne(c, UsableIn(workspace));
    if Usable(c, workspace) {
      var key := KeyOf(c);
      assert Keys([c]) == {key};
      if key !in seen {
        seen := seen + {key};
        var row := Row(c, [sourceQuery], rescued, if rescued then ZeroResultRescue else Primary,
            MatchedTerms(c, newTerms));
        rows := rows + [row];
        CoresSnoc(rows0, row);
        NewTraced(rows0, row, met, newTerms);
      } else {
        rows := EnrichExisting(rows, key, Some(sourceQuery), rescued, MatchedTerms(c, newTerms));
        AgainTraced(rows0, rows, met, Met(sourceQuery, c), rescued, newTerms);
      }
      assert MetUnder(sourceQuery, [c]) == [Met(sourceQuery, c)];
    } else {
      assert met + MetUnder(sourceQuery, []) == met;
    }
  }

  lemma GrownStep(a: seq<Row>, b: seq<Row>, c: seq<Row>, rescued: bool)
    requires Grown(a, b, rescued) && Grown(b, c, rescued)
    ensures Grown(a, c, rescued)
  {}

  method AddResults(rows0: seq<Row>, seen0: set<CandidateKey>, found: seq<Core>, sourceQuery: string, rescued: bool,
        newTerms: seq<string>, workspace: string, ghost met: seq<Met>)
    returns (rows: seq<Row>, seen: set<CandidateKey>)
    requires InSync(rows0, seen0) && Traced(rows0, met, newTerms)
    ensures Traced(rows, met + MetUnder(sourceQuery, UsableRows(found, workspace)), newTerms)
    ensures InSync(rows, seen) && seen == seen0 + Keys(UsableRows(found, workspace))
    ensures Cores(rows) == Cores(rows0) + Admit(UsableRows(found, workspace), seen0)
    ensures Grown(rows0, rows, rescued)
    ensures AllFrom(rows0, sourceQuery) ==> AllFrom(rows, sourceQuery)
  {
    rows, seen := rows0, seen0;
    assert met + MetUnder(sourceQuery, UsableRows(found[..0], workspace)) == met;
    for i := 0 to |found|
      invariant Traced(rows, met + MetUnder(sourceQuery, UsableRows(found[..i], workspace)), newTerms)
      invariant InSync(rows, seen) && seen == seen0 + Keys(UsableRows(found[..i], workspace))
      invariant Cores(rows) == Cores(rows0) + Admit(UsableRows(found[..i], workspace), seen0)
      invariant Grown(rows0, rows, rescued)
      invariant AllFrom(rows0, sourceQuery) ==> AllFrom(rows, sourceQuery)
    {
      ghost var before := rows;
      ghost var done := MetUnder(sourceQuery, UsableRows(found[..i], workspace));
      rows, seen := AddRow(rows, seen, found[i], sourceQuery, rescued, newTerms, workspace, met + done);
      MetSnoc(sourceQuery, found, i, workspace, met);
      GrownStep(rows0, before, rows, rescued);
      OfferedNext(Cores(rows0), found, i, seen0, workspace);
    }
    assert found[..|found|] == found;
  }

  lemma MetSnoc(query: string, found: seq<Core>, i: nat, workspace: string, met: seq<Met>)
    requires i < |found|
    ensures met + MetUnder(query, UsableRows(found[..i + 1], workspace))
         == (met + MetUnder(query, UsableRows(found[..i], workspace)))
            + MetUnder(query, UsableRows([found[i]], workspace))
  {
    assert found[..i + 1] == found[..i] + [found[i]];
    FilterConcat(found[..i], [found[i]], UsableIn(workspace));
  }

  lemma OfferedNext(base: seq<Core>, found: seq<Core>, i: nat, seen: set<CandidateKey>, workspace: string)
    requires i < |found|
    ensures var done, next := UsableRows(found[..i], workspace), UsableRows([found[i]], workspace);
            && base + Admit(UsableRows(found[..i + 1], workspace), seen) == base + Admit(done, seen)
                 + Admit(next, seen + Keys(done))
            && Keys(UsableRows(found[..i + 1], workspace)) == Keys(done) + Keys(next)
  {
    var done, next := UsableRows(found[..i], workspace), UsableRows([found[i]], workspace);
    assert found[..i + 1] == found[..i] + [found[i]];
    FilterConcat(found[..i], [found[i]], UsableIn(workspace));
    AdmitConcat(done, next, seen);
    KeysConcat(done, next);
    Regroup(base, Admit(done, seen), Admit(next, seen + Keys(done)));
  }

  /** One candidate of the shortage fill. */
  method RescueRow(rows0: seq<Row>, seen0: set<CandidateKey>, c: Core, rescueQuery: string, newTerms: seq<string>,
        workspace: string, ghost ask: Ask)
    returns (rows: seq<Row>, seen: set<CandidateKey>)
    requires InSync(rows0, seen0)
    requires ask.terms == newTerms && rescueQuery in ask.queries && c in ask.search(rescueQuery)
    ensures InSync(rows, seen) && seen == seen0 + Keys(CorroboratedRows([c], workspace, newTerms))
    ensures Cores(rows) == Cores(rows0) + Admit(CorroboratedRows([c], workspace, newTerms), seen0)
    ensures Filled(rows0, rows, ask)
  {
    rows, seen := rows0, seen0;
    FilterOne(c, CorroboratedIn(workspace, newTerms));
    if Usable(c, workspace) {
      var matched := MatchedTerms(c, newTerms);
      if matched != [] {
        var key := KeyOf(c);
        assert Keys([c]) == {key};
        if key in seen {
          rows := EnrichExisting(rows, key, None, false, matched);
        } else {
          seen := seen + {key};
          var row := Row(c, [rescueQuery], true, NonzeroRescue, matched);
          rows := rows + [row];
          CoresSnoc(rows0, row);
        }
      }
    }
  }

  lemma FilledStep(a: seq<Row>, b: seq<Row>, c: seq<Row>, ask: Ask)
    requires Filled(a, b, ask) && Filled(b, c, ask)
    ensures Filled(a, c, ask)
  {
    forall i | 0 <= i < |a| ensures Kept(a[i], c[i], false) && c[i].sourceQueries == a[i].sourceQueries {
      assert Kept(a[i], b[i], false) && Kept(b[i], c[i], false);
    }
    forall i | |a| <= i < |c| ensures FilledIn(c[i], ask) {
      if i < |b| {
        assert FilledIn(b[i], ask) && Kept(b[i], c[i], false);
      }
    }
  }

  /**
   Where the shortage fill stands after `offered`: the capped admissions, and the exact keys seen
   while the cap is not reached.
   */
  ghost predicate Rescued(rows0: seq<Row>, seen0: set<CandidateKey>, offered: seq<Core>, ask: Ask,
        rows: seq<Row>, seen: set<CandidateKey>) {
    && InSync(rows, seen)
    && Cores(rows) == Cores(rows0) + UpTo(Admit(offered, seen0), MAX_RESCUE_ADD)
    && Filled(rows0, rows, ask)
    && (|rows| < |rows0| + MAX_RESCUE_ADD ==> seen == seen0 + Keys(offered))
  }

  lemma KeysRegroup(a: set<CandidateKey>, b: set<CandidateKey>, c: set<CandidateKey>)
    ensures (a + b) + c == a + (b + c)
  {}

  /** One more batch of at most one row, below the cap, is admitted as a whole. */
  lemma AdmitBelowCap(base: seq<Core>, a: seq<Core>, b: seq<Core>, seen0: set<CandidateKey>, n: nat)
    requires |b| <= 1 && |UpTo(Admit(a, seen0), n)| < n
    ensures base + UpTo(Admit(a + b, seen0), n)
         == (base + UpTo(Admit(a, seen0), n)) + Admit(b, seen0 + Keys(a))
  {
    var x, more := UpTo(Admit(a, seen0), n), Admit(b, seen0 + Keys(a));
    AdmitUpTo(a, b, seen0, n);
    AdmitAtMost(b, seen0 + Keys(a));
    assert UpTo(more, n - |x|) == more;
    Regroup(base, x, more);
  }

  lemma {:induction false} AdmitAtMost(cores: seq<Core>, seen: set<CandidateKey>)
    ensures |Admit(cores, seen)| <= |cores|
    decreases |cores|
  {
    if cores != [] { AdmitAtMost(cores[1..], if KeyOf(cores[0]) in seen then seen else seen + {KeyOf(cores[0])}); }
  }

  /** One more offered batch, whose own rows were all looked at. */
  lemma RescuedMore(rows0: seq<Row>, seen0: set<CandidateKey>, a: seq<Core>, b: seq<Core>, ask: Ask,
        rows1: seq<Row>, seen1: set<CandidateKey>, rows: seq<Row>, seen: set<CandidateKey>)
    requires Rescued(rows0, seen0, a, ask, rows1, seen1) && |rows1| < |rows0| + MAX_RESCUE_ADD
    requires InSync(rows, seen) && Filled(rows1, rows, ask) && |b| <= 1
    requires Cores(rows) == Cores(rows1) + Admit(b, seen1) && seen == seen1 + Keys(b)
    ensures Rescued(rows0, seen0, a + b, ask, rows, seen)
  {
    FilledStep(rows0, rows1, rows, ask);
    assert |Cores(rows1)| == |rows1| && |Cores(rows0)| == |rows0|;
    AdmitBelowCap(Cores(rows0), a, b, seen0, MAX_RESCUE_ADD);
    KeysConcat(a, b);
    KeysRegroup(seen0, Keys(a), Keys(b));
  }

  /** Once the cap is reached, further offers change nothing. */
  lemma RescuedFull(rows0: seq<Row>, seen0: set<CandidateKey>, a: seq<Core>, b: seq<Core>, ask: Ask,
        rows: seq<Row>, seen: set<CandidateKey>)
    requires Rescued(rows0, seen0, a, ask, rows, seen) && |rows| >= |rows0| + MAX_RESCUE_ADD
    ensures Rescued(rows0, seen0, a + b, ask, rows, seen)
  {
    AdmitUpTo(a, b, seen0, MAX_RESCUE_ADD);
    assert |Cores(rows)| == |rows|;
  }

  lemma OfferSplit(done: seq<Core>, found: seq<Core>, i: nat, workspace: string, terms: seq<string>)
    requires i <= |found|
    ensures CorroboratedRows(done + found, workspace, terms)
         == CorroboratedRows(done + found[..i], workspace, terms) + CorroboratedRows(found[i..], workspace, terms)
  {
    assert found == found[..i] + found[i..];
    Regroup(done, found[..i], found[i..]);
    FilterConcat(done + found[..i], found[i..], CorroboratedIn(workspace, terms));
  }

  lemma OfferSnoc(done: seq<Core>, found: seq<Core>, i: nat, workspace: string, terms: seq<string>)
    requires i < |found|
    ensures CorroboratedRows(done + found[..i + 1], workspace, terms)
         == CorroboratedRows(done + found[..i], workspace, terms) + CorroboratedRows([found[i]], workspace, terms)
  {
    assert found[..i + 1] == found[..i] + [found[i]];
    Regroup(done, found[..i], [found[i]]);
    FilterConcat(done + found[..i], [found[i]], CorroboratedIn(workspace, terms));
  }

  /** The shortage fill over one rescue query's rows; it stops when the cap is reached. */
  method RescueFrom(rows0: seq<Row>, seen0: set<CandidateKey>, ghost done: seq<Core>, rows1: seq<Row>,
        seen1: set<CandidateKey>, added1: nat,
        found: seq<Core>, rescueQuery: string, newTerms: seq<string>, workspace: string, ghost ask: Ask)
    returns (rows: seq<Row>, seen: set<CandidateKey>, added: nat)
    requires ask.terms == newTerms && rescueQuery in ask.queries && found == ask.search(rescueQuery)
    requires Rescued(rows0, seen0, CorroboratedRows(done, workspace, newTerms), ask, rows1, seen1)
               && |rows1| == |rows0| + added1
    ensures Rescued(rows0, seen0, CorroboratedRows(done + found, workspace, newTerms), ask, rows, seen)
              && |rows| == |rows0| + added
  {
    rows, seen, added := rows1, seen1, added1;
    assert done + found[..0] == done;
    for i := 0 to |found|
      invariant |rows| == |rows0| + added
      invariant Rescued(rows0, seen0, CorroboratedRows(done + found[..i], workspace, newTerms), ask, rows, seen)
    {
      ghost var offered := CorroboratedRows(done + found[..i], workspace, newTerms);
      if added >= MAX_RESCUE_ADD {
        OfferSplit(done, found, i, workspace, newTerms);
        RescuedFull(rows0, seen0, offered, CorroboratedRows(found[i..], workspace, newTerms), ask, rows, seen);
        return;
      }
      ghost var rowsBefore, seenBefore := rows, seen;
      rows, seen := RescueRow(rows, seen, found[i], rescueQuery, newTerms, workspace, ask);
      added := |rows| - |rows0|;
      ghost var next := CorroboratedRows([found[i]], workspace, newTerms);
      FilterOne(found[i], CorroboratedIn(workspace, newTerms));
      RescuedMore(rows0, seen0, offered, next, ask, rowsBefore, seenBefore, rows, seen);
      OfferSnoc(done, found, i, workspace, newTerms);
    }
    assert done + found[..|found|] == done + found;
  }

  /** Once the cap is reached, the remaining rescue queries change nothing. */
  lemma RescuedEarly(rows0: seq<Row>, seen0: set<CandidateKey>, query: string, terms: seq<string>, i: nat,
        search: string -> seq<Core>, workspace: string,
        rows: seq<Row>, seen: set<CandidateKey>)
    requires i <= |terms| && |rows| >= |rows0| + MAX_RESCUE_ADD
    requires Rescued(rows0, seen0, CorroboratedRows(RescueStream(query, terms[..i], search), workspace, terms),
               AskFor(query, terms, search), rows, seen)
    ensures Rescued(rows0, seen0, CorroboratedRows(RescueStream(query, terms, search), workspace, terms),
              AskFor(query, terms, search), rows, seen)
  {
    var done := RescueStream(query, terms[..i], search);
    var rest := StreamSplit(query, terms, i, search);
    FilterConcat(done, rest, CorroboratedIn(workspace, terms));
    RescuedFull(rows0, seen0, CorroboratedRows(done, workspace, terms), CorroboratedRows(rest, workspace, terms),
        AskFor(query, terms, search), rows, seen);
  }

  lemma StreamSnoc(query: string, terms: seq<string>, i: nat, search: string -> seq<Core>)
    requires i < |terms|
    ensures RescueStream(query, terms[..i + 1], search) == RescueStream(query, terms[..i], search)
              + search(RescueQuery(query, terms[i]))
  {
    assert terms[..i + 1][..i] == terms[..i];
  }

  method FillShortage(rows0: seq<Row>, seen0: set<CandidateKey>, query: string, newTerms: seq<string>,
        search: string -> seq<Core>, workspace: string)
    returns (rows: seq<Row>)
    requires InSync(rows0, seen0)
    ensures Rescued(rows0, seen0, CorroboratedRows(RescueStream(query, newTerms, search), workspace, newTerms),
              AskFor(query, newTerms, search), rows, Keys(Cores(rows)))
  {
    var keys, added := seen0, 0;
    rows := rows0;
    NothingRescued(rows0, seen0, query, newTerms, search, workspace);
    for i := 0 to |newTerms|
      invariant |rows| == |rows0| + added && InSync(rows, keys)
      invariant Rescued(rows0, seen0, CorroboratedRows(RescueStream(query, newTerms[..i], search), workspace,
                  newTerms), AskFor(query, newTerms, search), rows, keys)
    {
      if added >= MAX_RESCUE_ADD {
        RescuedEarly(rows0, seen0, query, newTerms, i, search, workspace, rows, keys);
        return;
      }
      var rescueQuery := RescueQuery(query, newTerms[i]);
      assert rescueQuery == RescueQueries(query, newTerms)[i];
      rows, keys, added := RescueFrom(rows0, seen0, RescueStream(query, newTerms[..i], search), rows, keys, added,
          search(rescueQuery), rescueQuery, newTerms, workspace, AskFor(query, newTerms, search));
      StreamSnoc(query, newTerms, i, search);
    }
    assert newTerms[..|newTerms|] == newTerms;
  }

  lemma NothingRescued(rows0: seq<Row>, seen0: set<CandidateKey>, query: string, terms: seq<string>,
        search: string -> seq<Core>, workspace: string)
    requires InSync(rows0, seen0)
    ensures Rescued(rows0, seen0, CorroboratedRows(RescueStream(query, terms[..0], search), workspace, terms),
              AskFor(query, terms, search), rows0, seen0)
  {
    assert RescueStream(query, terms[..0], search) == [];
  }

  lemma {:induction false} StreamSplit(query: string, terms: seq<string>, i: nat, search: string -> seq<Core>)
    returns (rest: seq<Core>)
    requires i <= |terms|
    ensures RescueStream(query, terms, search) == RescueStream(query, terms[..i], search) + rest
    decreases |terms|
  {
    if i == |terms| {
      assert terms[..i] == terms;
      rest := [];
    } else {
      var last := |terms| - 1;
      rest := StreamSplit(query, terms[..last], i, search);
      assert terms[..last][..i] == terms[..i];
      Regroup(RescueStream(query, terms[..i], search), rest, search(RescueQuery(query, terms[last])));
      rest := rest + search(RescueQuery(query, terms[last]));
    }
  }

  /** The usable rows of all answers, with their queries. */
  function MetInAll(queries: seq<string>, search: string -> seq<Core>, workspace: string): seq<Met> {
    if queries == [] then []
    else
      var last := queries[|queries| - 1];
      MetInAll(queries[..|queries| - 1], search, workspace) + MetUnder(last, UsableRows(search(last), workspace))
  }

  /** A usable row with this key answers the query. */
  predicate Answers(search: string -> seq<Core>, workspace: string, query: string, key: CandidateKey, c: Core) {
    c in search(query) && KeyOf(c) == key && (workspace == "" || c.workspace == "" || c.workspace == workspace)
  }

  /**
   The row's source queries are exactly those of the given ones that a usable
   row with its key answers, and its terms exactly those such a row's text holds.
   */
  ghost predicate Provenance(r: Row, queries: seq<string>, search: string -> seq<Core>, workspace: string,
        terms: seq<string>) {
    && (forall q :: q in r.sourceQueries <==>
          q in queries && exists c :: Answers(search, workspace, q, KeyOf(r.core), c))
    && (forall t :: t in r.graphMatch <==>
          t in terms && exists q, c, i :: q in queries && Answers(search, workspace, q, KeyOf(r.core), c)
                                          && 0 <= i <= |c.text| && t <= c.text[i..])
  }

  lemma {:induction false} MetInAllMember(queries: seq<string>, search: string -> seq<Core>, workspace: string, m: Met)
    ensures m in MetInAll(queries, search, workspace) <==>
              m.query in queries && Answers(search, workspace, m.query, KeyOf(m.core), m.core)
    decreases |queries|
  {
    if queries != [] {
      var n := |queries| - 1;
      var front, last := queries[..n], queries[n];
      var rows := UsableRows(search(last), workspace);
      MetInAllMember(front, search, workspace, m);
      FilterMembers(search(last), UsableIn(workspace), m.core);
      assert queries == front + [last];
      assert m in MetUnder(last, rows) <==> m.query == last && m.core in rows by {
        if m.query == last && m.core in rows {
          var i :| 0 <= i < |rows| && rows[i] == m.core;
          assert MetUnder(last, rows)[i] == m;
        }
      }
    }
  }

  /** A traced row has that provenance. */
  lemma TracedProvenance(r: Row, queries: seq<string>, search: string -> seq<Core>, workspace: string,
        terms: seq<string>)
    requires RowTraced(r, MetInAll(queries, search, workspace), terms)
    ensures Provenance(r, queries, search, workspace, terms)
  {
    var met, key := MetInAll(queries, search, workspace), KeyOf(r.core);
    forall q ensures q in r.sourceQueries <==> q in queries && exists c :: Answers(search, workspace, q, key, c) {
      if k :| MetWith(met, k, r) && met[k].query == q { MetInAllMember(queries, search, workspace, met[k]); }
      if c :| q in queries && Answers(search, workspace, q, key, c) {
        var k := MetAt(queries, search, workspace, q, c);
        assert MetWith(met, k, r);
      }
    }
    forall t
      ensures t in r.graphMatch <==>
                t in terms && exists q, c, i :: q in queries && Answers(search, workspace, q, key, c)
                                                && 0 <= i <= |c.text| && t <= c.text[i..]
    {
      if k :| MetWith(met, k, r) && t in MatchedTerms(met[k].core, terms) {
        MetInAllMember(queries, search, workspace, met[k]);
        MatchedMember(met[k].core, terms, t);
      }
      if q, c, i :| t in terms && q in queries && Answers(search, workspace, q, key, c) && 0 <= i <= |c.text|
                    && t <= c.text[i..] {
        var k := MetAt(queries, search, workspace, q, c);
        MatchedMember(c, terms, t);
        assert MetWith(met, k, r);
      }
    }
  }

  lemma MetAt(queries: seq<string>, search: string -> seq<Core>, workspace: string, q: string, c: Core)
    returns (k: nat)
    requires q in queries && Answers(search, workspace, q, KeyOf(c), c)
    ensures var met := MetInAll(queries, search, workspace); k < |met| && met[k] == Met(q, c)
  {
    MetInAllMember(queries, search, workspace, Met(q, c));
    var met := MetInAll(queries, search, workspace);
    k :| 0 <= k < |met| && met[k] == Met(q, c);
  }

  /** One more answer admitted. */
  lemma AdmitAnswer(query: string, terms: seq<string>, i: nat, search: string -> seq<Core>, workspace: string)
    requires i < |terms|
    ensures var done := UsableRows(RescueStream(query, terms[..i], search), workspace);
            var found := UsableRows(search(RescueQuery(query, terms[i])), workspace);
            var all := UsableRows(RescueStream(query, terms[..i + 1], search), workspace);
            && Admit(all, {}) == Admit(done, {}) + Admit(found, Keys(done)) && Keys(all) == Keys(done) + Keys(found)
  {
    var stream, found := RescueStream(query, terms[..i], search), search(RescueQuery(query, terms[i]));
    var done := UsableRows(stream, workspace);
    StreamSnoc(query, terms, i, search);
    FilterConcat(stream, found, UsableIn(workspace));
    AdmitConcat(done, UsableRows(found, workspace), {});
    KeysConcat(done, UsableRows(found, workspace));
    assert {} + Keys(done) == Keys(done);
  }

  /** The state of the zero-result rescue after some rescue queries. */
  ghost predicate RescuedSoFar(query: string, terms: seq<string>, i: nat, search: string -> seq<Core>,
        workspace: string, rows: seq<Row>, seen: set<CandidateKey>)
    requires i <= |terms|
  {
    && InSync(rows, seen) && seen == Keys(UsableRows(RescueStream(query, terms[..i], search), workspace))
    && Cores(rows) == Admit(UsableRows(RescueStream(query, terms[..i], search), workspace), {})
    && Grown([], rows, true)
    && Traced(rows, MetInAll(RescueQueries(query, terms)[..i], search, workspace), terms)
  }

  /** One rescue query of the zero-result rescue. */
  method RescueOne(query: string, newTerms: seq<string>, i: nat, search: string -> seq<Core>, workspace: string,
        rows0: seq<Row>, seen0: set<CandidateKey>)
    returns (rows: seq<Row>, seen: set<CandidateKey>)
    requires i < |newTerms| && RescuedSoFar(query, newTerms, i, search, workspace, rows0, seen0)
    ensures RescuedSoFar(query, newTerms, i + 1, search, workspace, rows, seen)
  {
    ghost var queries := RescueQueries(query, newTerms);
    var rescueQuery := RescueQuery(query, newTerms[i]);
    AdmitAnswer(query, newTerms, i, search, workspace);
    rows, seen := AddResults(rows0, seen0, search(rescueQuery), rescueQuery, true, newTerms, workspace,
        MetInAll(queries[..i], search, workspace));
    assert queries[..i + 1][..i] == queries[..i];
    GrownStep([], rows0, rows, true);
  }

  method RescueAll(query: string, newTerms: seq<string>, search: string -> seq<Core>, workspace: string)
    returns (rows: seq<Row>)
    ensures Cores(rows) == Admit(UsableRows(RescueStream(query, newTerms, search), workspace), {})
    ensures Grown([], rows, true)
    ensures Traced(rows, MetInAll(RescueQueries(query, newTerms), search, workspace), newTerms)
  {
    var seen: set<CandidateKey> := {};
    rows := [];
    for i := 0 to |newTerms|
      invariant RescuedSoFar(query, newTerms, i, search, workspace, rows, seen)
    {
      rows, seen := RescueOne(query, newTerms, i, search, workspace, rows, seen);
    }
    assert RescueQueries(query, newTerms)[..|newTerms|] == RescueQueries(query, newTerms);
    assert newTerms[..|newTerms|] == newTerms;
  }

  lemma MetInOne(query: string, search: string -> seq<Core>, workspace: string)
    ensures [] + MetUnder(query, UsableRows(search(query), workspace)) == MetInAll([query], search, workspace)
  {
    assert [query][..0] == [] && MetInAll([], search, workspace) == [];
  }

  lemma AllProvenance(rows: seq<Row>, queries: seq<string>, search: string -> seq<Core>, workspace: string,
        terms: seq<string>)
    requires Traced(rows, MetInAll(queries, search, workspace), terms)
    ensures forall i | 0 <= i < |rows| :: Provenance(rows[i], queries, search, workspace, terms)
  {
    forall i | 0 <= i < |rows| ensures Provenance(rows[i], queries, search, workspace, terms) {
      TracedProvenance(rows[i], queries, search, workspace, terms);
    }
  }

  /**
   How the rows are labelled after `n` primary ones: those are unmarked and come
   from the query alone; without any, all rows are rescued, with the queries and
   terms that found them; and rows added to fill a shortage say so.
   */
  ghost predicate Labelled(query: string, terms: seq<string>, search: string -> seq<Core>, workspace: string, n: nat,
        rows: seq<Row>) {
    && n <= |rows|
    && (forall i | 0 <= i < n :: rows[i].path == Primary && !rows[i].rescued && rows[i].sourceQueries == [query])
    && (n == 0 ==> forall i | 0 <= i < |rows| :: rows[i].path == ZeroResultRescue && rows[i].rescued)
    && (n == 0 ==> forall i | 0 <= i < |rows| ::
          Provenance(rows[i], RescueQueries(query, terms), search, workspace, terms))
    && (n > 0 ==> forall i | n <= i < |rows| :: FilledIn(rows[i], AskFor(query, terms, search)))
    && (n >= 3 ==> forall i | 0 <= i < n :: Provenance(rows[i], [query], search, workspace, terms))
  }

  lemma RescueLabelled(query: string, terms: seq<string>, search: string -> seq<Core>, workspace: string,
        rows: seq<Row>)
    requires Grown([], rows, true) && Traced(rows, MetInAll(RescueQueries(query, terms), search, workspace), terms)
    ensures Labelled(query, terms, search, workspace, 0, rows)
  {
    AllProvenance(rows, RescueQueries(query, terms), search, workspace, terms);
  }

  lemma FillLabelled(query: string, terms: seq<string>, search: string -> seq<Core>, workspace: string,
        first: seq<Row>, rows: seq<Row>)
    requires 0 < |first| < 3 && Grown([], first, false) && AllFrom(first, query)
    requires Filled(first, rows, AskFor(query, terms, search))
    ensures Labelled(query, terms, search, workspace, |first|, rows)
  {
    forall i | 0 <= i < |first|
      ensures rows[i].path == Primary && !rows[i].rescued && rows[i].sourceQueries == [query]
    {
      assert Kept(first[i], rows[i], false);
    }
  }

  lemma PrimaryLabelled(query: string, terms: seq<string>, search: string -> seq<Core>, workspace: string,
        rows: seq<Row>)
    requires rows != [] && Grown([], rows, false) && AllFrom(rows, query)
    requires Traced(rows, MetInAll([query], search, workspace), terms)
    ensures Labelled(query, terms, search, workspace, |rows|, rows)
  {
    AllProvenance(rows, [query], search, workspace, terms);
  }

  /**
   The candidate list handed to the caller's rerank.  A row with more than one
   source query, the only kind whose score is boosted, can occur in the
   zero-result rescue only.
   */
  method HybridSearch(query: string, newTerms: seq<string>, search: string -> seq<Core>, workspace: string)
    returns (rows: seq<Row>)
    ensures Cores(rows) == Candidates(query, newTerms, search, workspace)
    ensures Retrieved(query, newTerms, search, workspace, Cores(rows))
    ensures Labelled(query, newTerms, search, workspace, |PrimaryCores(query, search, workspace)|, rows)
  {
    var seen: set<CandidateKey>;
    rows, seen := AddResults([], {}, search(query), query, false, newTerms, workspace, []);
    MetInOne(query, search, workspace);
    ghost var first, primary := rows, PrimaryCores(query, search, workspace);
    assert Cores(rows) == primary && |Cores(rows)| == |rows|;
    if |rows| == 0 {
      rows := RescueAll(query, newTerms, search, workspace);
      RescueLabelled(query, newTerms, search, workspace, rows);
      assert Cores(rows) == primary + Added(query, newTerms, search, workspace);
    } else if |rows| < MIN_PRIMARY_FLOOR {
      rows := FillShortage(rows, seen, query, newTerms, search, workspace);
      FillLabelled(query, newTerms, search, workspace, first, rows);
    } else {
      PrimaryLabelled(query, newTerms, search, workspace, rows);
    }
    CandidatesAreRetrieved(query, newTerms, search, workspace);
  }
}
