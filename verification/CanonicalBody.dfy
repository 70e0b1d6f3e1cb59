/**
 Reconstruction of a body from its persisted chunks: the index check, the
 stitching loop, the hash gate and the line-ending diagnostic.  The digest is
 an uninterpreted function from texts to digests.
 */
module CanonicalBody {
  import opened Wrappers
  import opened LineEndings
  import Sorting

  type Digest = string
  type Hash = string -> Digest

  datatype PersistedChunk = PersistedChunk(index: int, text: string)

  datatype Fidelity = HashVerified | Unverifiable | Unavailable

  datatype Reason =
    | MissingStoredContentHash | EmptyBodyHashMatch | NoPersistedChunks
    | DuplicateChunkIndex | ChunkIndexGap
    | VerifiedReconstruction | HashMismatch | HashMismatchPossibleTruncation

  datatype Reconstruction = Reconstruction(candidate: Option<string>, fidelity: Fidelity, reason: Reason,
        computed: Option<Digest>)

  ghost predicate CollisionFree(hash: Hash) {
    forall x, y :: hash(x) == hash(y) ==> x == y
  }

  // ----- the index check -----

  function Indices(rows: seq<PersistedChunk>): seq<int> {
    seq(|rows|, i requires 0 <= i < |rows| => rows[i].index)
  }

  function Elements(s: seq<int>): set<int> {
    set i | i in s
  }

  function Range(n: nat): seq<int> {
    seq(n, i => i)
  }

  function ValidateIndexSet(rows: seq<PersistedChunk>): Option<Reason> {
    var indices := Indices(rows);
    if |indices| != |Elements(indices)| then Some(DuplicateChunkIndex)
    else if Sorting.Sort(indices, (x: int, y: int) => x <= y) != Range(|indices|) then Some(ChunkIndexGap)
    else None
  }

  lemma {:induction false} RangeSize(n: nat)
    ensures |Elements(Range(n))| == n
  {
    if n > 0 {
      RangeSize(n - 1);
      assert Range(n) == Range(n - 1) + [n - 1];
      assert Elements(Range(n)) == Elements(Range(n - 1)) + {n - 1};
    }
  }

  /** The check passes exactly for a permutation of 0..n-1. */
  lemma IndexCheckIsPermutation(rows: seq<PersistedChunk>)
    ensures ValidateIndexSet(rows) == None <==> multiset(Indices(rows)) == multiset(Range(|rows|))
  {
    var indices, le := Indices(rows), (x: int, y: int) => x <= y;
    Sorting.SortPermutes(indices, le);
    if multiset(indices) == multiset(Range(|rows|)) {
      Sorting.SortSorts(indices, le);
      Sorting.SortedUnique(Sorting.Sort(indices, le), Range(|rows|), le);
      assert Elements(indices) == Elements(Range(|rows|)) by {
        forall i ensures i in indices <==> i in Range(|rows|) {
          assert i in indices <==> i in multiset(indices);
          assert i in Range(|rows|) <==> i in multiset(Range(|rows|));
        }
      }
      RangeSize(|rows|);
    }
  }

  /** The duplicate reason is given exactly when two rows share an index. */
  lemma {:induction false} DuplicateReason(rows: seq<PersistedChunk>)
    ensures ValidateIndexSet(rows) == Some(DuplicateChunkIndex) <==>
              exists i, j :: 0 <= i < j < |rows| && rows[i].index == rows[j].index
  {
    var indices := Indices(rows);
    DistinctSize(indices);
    assert forall i, j | 0 <= i < j < |rows| :: rows[i].index == indices[i] && rows[j].index == indices[j];
  }

  ghost predicate Distinct(s: seq<int>) {
    forall i, j | 0 <= i < j < |s| :: s[i] != s[j]
  }

  lemma DistinctCons(x: int, t: seq<int>)
    ensures Distinct([x] + t) <==> x !in t && Distinct(t)
  {
    var s := [x] + t;
    if Distinct(s) {
      forall k | 0 <= k < |t| ensures t[k] != x { assert s[0] != s[k + 1]; }
      forall i, j | 0 <= i < j < |t| ensures t[i] != t[j] { assert s[i + 1] != s[j + 1]; }
    }
  }

  lemma {:induction false} DistinctSize(s: seq<int>)
    ensures |Elements(s)| <= |s|
    ensures |Elements(s)| == |s| <==> Distinct(s)
  {
    if s != [] {
      var t := s[1..];
      DistinctSize(t);
      DistinctCons(s[0], t);
      assert s == [s[0]] + t;
      assert Elements(s) == Elements(t) + {s[0]};
    }
  }

  /** Position k of the index-sorted rows holds the row with index k. */
  lemma SortedRowsAt(rows: seq<PersistedChunk>, k: nat)
    requires ValidateIndexSet(rows) == None && k < |rows|
    ensures var sorted := ByIndex(rows); |sorted| == |rows| && sorted[k] in rows && sorted[k].index == k
  {
    var le := (a: PersistedChunk, b: PersistedChunk) => a.index <= b.index;
    var sorted := ByIndex(rows);
    Sorting.SortPermutes(rows, le);
    Sorting.SortSorts(rows, le);
    IndexCheckIsPermutation(rows);
    IndicesMultiset(rows, sorted);
    Sorting.SortedUnique(Indices(sorted), Range(|rows|), (x: int, y: int) => x <= y);
    assert Indices(sorted)[k] == k;
    assert sorted[k] in multiset(sorted);
  }

  lemma {:induction false} IndicesMultiset(a: seq<PersistedChunk>, b: seq<PersistedChunk>)
    requires multiset(a) == multiset(b)
    ensures multiset(Indices(a)) == multiset(Indices(b))
    decreases |a|
  {
    if a == [] {
      assert |b| == |multiset(b)| == 0;
    } else {
      assert a[0] in multiset(b);
      var j :| 0 <= j < |b| && b[j] == a[0];
      RemoveOne(a, 0);
      RemoveOne(b, j);
      IndicesMultiset(Without(a, 0), Without(b, j));
    }
  }

  function Without(s: seq<PersistedChunk>, j: nat): (r: seq<PersistedChunk>)
    requires j < |s|
    ensures |r| == |s| - 1
  {
    s[..j] + s[j + 1..]
  }

  lemma RemoveOne(s: seq<PersistedChunk>, j: nat)
    requires j < |s|
    ensures multiset(Without(s, j)) == multiset(s) - multiset{s[j]}
    ensures multiset(Indices(s)) == multiset(Indices(Without(s, j))) + multiset{s[j].index}
  {
    assert s == s[..j] + [s[j]] + s[j + 1..];
    assert Indices(s) == Indices(s[..j]) + [s[j].index] + Indices(s[j + 1..]);
    assert Indices(Without(s, j)) == Indices(s[..j]) + Indices(s[j + 1..]);
  }

  // ----- stitching -----

  /** One stitching step: drop the overlap when the windows agree, else append. */
  function Join(result: string, text: string, overlap: int): string {
    if overlap > 0 && |result| >= overlap && |text| >= overlap && result[|result| - overlap..] == text[..overlap]
    then result + text[overlap..]
    else result + text
  }

  function StitchFrom(result: string, texts: seq<string>, overlap: int): string
    decreases |texts|
  {
    if texts == [] then result else StitchFrom(Join(result, texts[0], overlap), texts[1..], overlap)
  }

  function Stitch(texts: seq<string>, overlap: int): string {
    if texts == [] then "" else StitchFrom(texts[0], texts[1..], overlap)
  }

  method StitchTexts(texts: seq<string>, overlap: int) returns (result: string)
    ensures result == Stitch(texts, overlap)
  {
    if texts == [] {
      return "";
    }
    result := texts[0];
    for i := 1 to |texts|
      invariant Stitch(texts, overlap) == StitchFrom(result, texts[i..], overlap)
    {
      var text := texts[i];
      assert texts[i..][0] == text && texts[i..][1..] == texts[i + 1..];
      if overlap > 0 && |result| >= overlap && |text| >= overlap && result[|result| - overlap..] == text[..overlap] {
        result := result + text[overlap..];
      } else {
        result := result + text;
      }
    }
  }

  // ----- reconstruction -----

  function ByIndex(rows: seq<PersistedChunk>): seq<PersistedChunk> {
    Sorting.Sort(rows, (a: PersistedChunk, b: PersistedChunk) => a.index <= b.index)
  }

  function TextsOf(rows: seq<PersistedChunk>): seq<string> {
    seq(|rows|, i requires 0 <= i < |rows| => rows[i].text)
  }

  function Candidate(rows: seq<PersistedChunk>, overlap: int): string {
    Stitch(TextsOf(ByIndex(rows)), overlap)
  }

  function Reconstruct(rows: seq<PersistedChunk>, stored: Option<Digest>, overlap: int, maxChunksGuard: int,
        hash: Hash): Reconstruction {
    if stored == None then Reconstruction(None, Unavailable, MissingStoredContentHash, None)
    else if rows == [] then
      if stored.value == hash("") then Reconstruction(Some(""), HashVerified, EmptyBodyHashMatch, Some(hash("")))
      else Reconstruction(None, Unavailable, NoPersistedChunks, None)
    else
      match ValidateIndexSet(rows)
      case Some(reason) => Reconstruction(None, Unverifiable, reason, None)
      case None =>
        var candidate := Candidate(rows, overlap);
        var computed := hash(candidate);
        if computed == stored.value then Reconstruction(Some(candidate), HashVerified, VerifiedReconstruction,
            Some(computed))
        else Reconstruction(None, Unverifiable,
            if |rows| >= maxChunksGuard then HashMismatchPossibleTruncation else HashMismatch, Some(computed))
  }

  /**
   Fail closed: a body is exposed exactly when it is verified, and then it hashes to the stored
   digest, whatever the rows are.
   */
  lemma FailClosed(rows: seq<PersistedChunk>, stored: Option<Digest>, overlap: int, maxChunksGuard: int, hash: Hash)
    ensures var r := Reconstruct(rows, stored, overlap, maxChunksGuard, hash);
            && (r.fidelity == HashVerified <==> r.candidate.Some?)
            && (r.candidate.Some? ==> stored == Some(hash(r.candidate.value)) && r.computed == stored)
  {
  }

  /** Every outcome has one cause: no digest, no rows, a broken index set, or the digest of the candidate. */
  lemma OutcomesAreExact(rows: seq<PersistedChunk>, stored: Option<Digest>, overlap: int, maxChunksGuard: int,
        hash: Hash)
    ensures var r := Reconstruct(rows, stored, overlap, maxChunksGuard, hash);
            var whole := rows != [] && multiset(Indices(rows)) == multiset(Range(|rows|));
            && (r.reason == MissingStoredContentHash <==> stored == None)
            && (r.reason == EmptyBodyHashMatch <==> rows == [] && stored == Some(hash("")))
            && (r.reason == NoPersistedChunks <==> rows == [] && stored.Some? && stored != Some(hash("")))
            && (r.reason == DuplicateChunkIndex <==> stored.Some? && !NoTwins(rows))
            && (r.reason == ChunkIndexGap <==> stored.Some? && rows != [] && !whole && NoTwins(rows))
            && (r.reason == VerifiedReconstruction <==> whole && stored == Some(hash(Candidate(rows, overlap))))
            && (r.reason == HashMismatchPossibleTruncation <==>
                  whole && stored.Some? && stored != Some(hash(Candidate(rows, overlap))) && |rows| >= maxChunksGuard)
            && (r.fidelity == HashVerified <==> r.reason in {EmptyBodyHashMatch, VerifiedReconstruction})
            && (r.fidelity == Unavailable <==> r.reason in {MissingStoredContentHash, NoPersistedChunks})
            && r.candidate == (if r.reason == VerifiedReconstruction then Some(Candidate(rows, overlap))
                               else if r.reason == EmptyBodyHashMatch then Some("") else None)
            && r.computed == (if r.reason == EmptyBodyHashMatch then Some(hash(""))
                              else if whole && stored.Some? then Some(hash(Candidate(rows, overlap))) else None)
  {
    IndexCheckIsPermutation(rows);
    DuplicateReason(rows);
    assert rows == [] ==> NoTwins(rows);
  }

  ghost predicate NoTwins(rows: seq<PersistedChunk>) {
    forall i, j | 0 <= i < j < |rows| :: rows[i].index != rows[j].index
  }

  /** With a collision-free digest of the submitted body, only that body can be exposed. */
  lemma OnlyTheStoredBody(rows: seq<PersistedChunk>, body: string, overlap: int, maxChunksGuard: int, hash: Hash)
    requires CollisionFree(hash)
    ensures var r := Reconstruct(rows, Some(hash(body)), overlap, maxChunksGuard, hash);
            r.candidate.Some? ==> r.candidate.value == body
  {
    FailClosed(rows, Some(hash(body)), overlap, maxChunksGuard, hash);
  }

  /** Reconstruction depends on the rows only as a collection: reordering them changes nothing. */
  lemma ReorderingIsHarmless(a: seq<PersistedChunk>, b: seq<PersistedChunk>, stored: Option<Digest>, overlap: int,
        maxChunksGuard: int, hash: Hash)
    requires multiset(a) == multiset(b)
    ensures Reconstruct(a, stored, overlap, maxChunksGuard, hash)
              == Reconstruct(b, stored, overlap, maxChunksGuard, hash)
  {
    assert |a| == |multiset(a)| == |multiset(b)| == |b|;
    SameIndexCheck(a, b);
    if a != [] && ValidateIndexSet(a) == None {
      var s, t := ByIndex(a), ByIndex(b);
      SortedRowsAt(a, 0);
      SortedRowsAt(b, 0);
      forall k | 0 <= k < |a| ensures s[k] == t[k] {
        SortedRowsAt(a, k);
        SortedRowsAt(b, k);
        assert t[k] in multiset(b);
        assert t[k] in a;
        UniqueIndex(a, s[k], t[k]);
      }
      assert s == t;
    }
  }

  lemma SameIndexCheck(a: seq<PersistedChunk>, b: seq<PersistedChunk>)
    requires multiset(a) == multiset(b)
    ensures ValidateIndexSet(a) == ValidateIndexSet(b)
  {
    assert |a| == |multiset(a)| == |multiset(b)| == |b|;
    IndicesMultiset(a, b);
    var x, y := Indices(a), Indices(b);
    assert Elements(x) == Elements(y) by {
      forall i ensures i in x <==> i in y {
        assert i in x <==> i in multiset(x);
        assert i in y <==> i in multiset(y);
      }
    }
    IndexCheckIsPermutation(a);
    IndexCheckIsPermutation(b);
  }

  lemma UniqueIndex(rows: seq<PersistedChunk>, r: PersistedChunk, q: PersistedChunk)
    requires ValidateIndexSet(rows) == None && r in rows && q in rows && r.index == q.index
    ensures r == q
  {
    DuplicateReason(rows);
  }

  // ----- the line-ending diagnostic -----

  datatype Diagnostics = Diagnostics(fidelity: Fidelity, reason: Reason, candidate: Option<string>,
        computed: Option<Digest>, possibleLineEndingNormalization: bool)

  function Diagnose(rows: seq<PersistedChunk>, stored: Option<Digest>, overlap: int, maxChunksGuard: int,
        hash: Hash): Diagnostics {
    var r := Reconstruct(rows, stored, overlap, maxChunksGuard, hash);
    if r.fidelity == HashVerified then Diagnostics(r.fidelity, r.reason, r.candidate, r.computed, false)
    else if rows == [] || stored == None || ValidateIndexSet(rows).Some?
    then Diagnostics(r.fidelity, r.reason, None, None, false)
    else
      var candidate := Candidate(rows, overlap);
      Diagnostics(r.fidelity, r.reason, Some(candidate), Some(hash(candidate)),
                  hash(ToCrlf(candidate)) == stored.value || hash(ToCr(candidate)) == stored.value)
  }

  /**
   Diagnostics repeat the reconstruction's outcome; where a whole row set failed
   the digest they also show the candidate and its digest, and the flag tells
   whether a variant of the candidate has the stored digest.
   */
  lemma DiagnosticsShowCandidate(rows: seq<PersistedChunk>, stored: Option<Digest>, overlap: int, maxChunksGuard: int,
        hash: Hash)
    ensures var r, d := Reconstruct(rows, stored, overlap, maxChunksGuard, hash),
                Diagnose(rows, stored, overlap, maxChunksGuard, hash);
            var failed := r.reason in {HashMismatch, HashMismatchPossibleTruncation};
            var candidate := Candidate(rows, overlap);
            && d.fidelity == r.fidelity && d.reason == r.reason
            && d.candidate == (if failed then Some(candidate) else r.candidate)
            && d.computed == r.computed
            && (d.possibleLineEndingNormalization <==>
                  failed && (stored == Some(hash(ToCrlf(candidate))) || stored == Some(hash(ToCr(candidate)))))
  {
    OutcomesAreExact(rows, stored, overlap, maxChunksGuard, hash);
  }
}
