/** The structural risks the chunk scorer looks for, and why chunker output never raises one. */
module ChunkScoring {
  import opened LineEndings
  import opened Chunking

  datatype Risk =
    | NonMonotonicChunkOrder | NonMonotonicCharOffsets | GapBetweenAdjacentChunks | ExcessiveChunkOverlap
    | CharCountMismatch | InvalidCharOffsets

  /** The risks one chunk raises on its own. */
  function MetadataRisks(k: Chunk): seq<Risk> {
    (if k.charCount != |k.text| then [CharCountMismatch] else []) +
    (if |k.text| > 0 && k.charEnd <= k.charStart then [InvalidCharOffsets] else [])
  }

  predicate OrderRisk(chunks: seq<Chunk>, i: nat)
    requires i < |chunks|
  {
    chunks[i].index != i || chunks[i].order != i
  }

  predicate SeamRisk(chunks: seq<Chunk>, expectedOverlap: int, i: nat, risk: Risk)
    requires 0 < i < |chunks|
  {
    var a, b := chunks[i - 1], chunks[i];
    match risk
    case NonMonotonicCharOffsets => b.charStart < a.charStart
    case GapBetweenAdjacentChunks => a.charEnd < b.charStart
    case ExcessiveChunkOverlap => a.charEnd >= b.charStart && a.charEnd - b.charStart > expectedOverlap + 1
    case _ => false
  }

  /** The batch raises the risk at one of its first `n` chunks. */
  ghost predicate Raised(chunks: seq<Chunk>, expectedOverlap: int, n: nat, risk: Risk)
    requires n <= |chunks|
  {
    || (risk == NonMonotonicChunkOrder && exists i | 0 <= i < n :: OrderRisk(chunks, i))
    || (exists i | 0 < i < n :: SeamRisk(chunks, expectedOverlap, i, risk))
  }

  lemma RaisedStep(chunks: seq<Chunk>, expectedOverlap: int, i: nat, risk: Risk)
    requires i < |chunks|
    ensures Raised(chunks, expectedOverlap, i + 1, risk) <==>
              || Raised(chunks, expectedOverlap, i, risk)
              || (risk == NonMonotonicChunkOrder && OrderRisk(chunks, i))
              || (i > 0 && SeamRisk(chunks, expectedOverlap, i, risk))
  {
  }

  /** The risks chunk `i` adds, and the seam before it. */
  predicate RaisedAt(chunks: seq<Chunk>, expectedOverlap: int, i: nat, risk: Risk)
    requires i < |chunks|
  {
    (risk == NonMonotonicChunkOrder && OrderRisk(chunks, i)) || (i > 0 && SeamRisk(chunks, expectedOverlap, i, risk))
  }

  lemma RaisedSteps(chunks: seq<Chunk>, expectedOverlap: int, i: nat)
    requires i < |chunks|
    ensures forall risk :: Raised(chunks, expectedOverlap, i + 1, risk) <==>
              Raised(chunks, expectedOverlap, i, risk) || RaisedAt(chunks, expectedOverlap, i, risk)
  {
    forall risk ensures Raised(chunks, expectedOverlap, i + 1, risk) <==>
        Raised(chunks, expectedOverlap, i, risk) || RaisedAt(chunks, expectedOverlap, i, risk) {
      RaisedStep(chunks, expectedOverlap, i, risk);
    }
  }

  predicate NoDuplicates(s: seq<Risk>) {
    forall i, j | 0 <= i < j < |s| :: s[i] != s[j]
  }

  function AddOnce(s: seq<Risk>, risk: Risk): (r: seq<Risk>)
    ensures forall x :: x in r <==> x in s || x == risk
    ensures NoDuplicates(s) ==> NoDuplicates(r)
  {
    if risk in s then s else s + [risk]
  }

  /** One step of the batch scan: the risks chunk `i` and the seam before it raise are added, each once. */
  method ScanChunk(chunks: seq<Chunk>, expectedOverlap: int, i: nat, found: seq<Risk>) returns (risks: seq<Risk>)
    requires i < |chunks| && NoDuplicates(found)
    ensures NoDuplicates(risks)
    ensures forall risk :: risk in risks <==> risk in found || RaisedAt(chunks, expectedOverlap, i, risk)
  {
    risks := found;
    if chunks[i].index != i || chunks[i].order != i {
      risks := AddOnce(risks, NonMonotonicChunkOrder);
    }
    if i > 0 {
      if chunks[i].charStart < chunks[i - 1].charStart {
        risks := AddOnce(risks, NonMonotonicCharOffsets);
      }
      var overlap := chunks[i - 1].charEnd - chunks[i].charStart;
      if overlap < 0 {
        risks := AddOnce(risks, GapBetweenAdjacentChunks);
      } else if overlap > expectedOverlap + 1 {
        risks := AddOnce(risks, ExcessiveChunkOverlap);
      }
    }
  }

  /** The batch scan: each risk is reported once, and exactly when some chunk or seam raises it. */
  method BatchRisks(chunks: seq<Chunk>, expectedOverlap: int) returns (risks: seq<Risk>)
    ensures NoDuplicates(risks)
    ensures forall risk :: risk in risks <==> Raised(chunks, expectedOverlap, |chunks|, risk)
  {
    risks := [];
    for i := 0 to |chunks|
      invariant NoDuplicates(risks)
      invariant forall risk :: risk in risks <==> Raised(chunks, expectedOverlap, i, risk)
    {
      RaisedSteps(chunks, expectedOverlap, i);
      risks := ScanChunk(chunks, expectedOverlap, i, risks);
    }
  }

  /** Scored with the overlap it was cut with, chunker output raises no structural risk. */
  lemma ChunkerRaisesNoRisk(c: ChunkerConfig, ls: ListScanner, raw: string, risk: Risk)
    requires c.Valid()
    ensures var chunks := Chunks(c, ls, raw);
            && !Raised(chunks, c.overlap, |chunks|, risk)
            && forall k | k in chunks :: MetadataRisks(k) == []
  {
    var text, chunks := Normalize(raw), Chunks(c, ls, raw);
    if chunks != [] {
      assert text != "";
      ChunksStructure(c, ls, text);
      forall k | k in chunks ensures MetadataRisks(k) == [] { assert SlotOk(c, text, k); }
      forall i | 0 < i < |chunks| ensures !SeamRisk(chunks, c.overlap, i, risk) { SeamShape(c, text, chunks, i); }
    }
  }

  predicate Adjoins(a: Chunk, b: Chunk, expectedOverlap: int) {
    a.charStart <= b.charStart <= a.charEnd <= b.charStart + expectedOverlap + 1
  }

  /**
   A batch raises no risk exactly when its chunks are numbered in order, no chunk
   starts before the one it follows or behind its end, and neighbours share at
   most one character more than expected; a chunk raises none exactly when its
   count is its length and a non-empty text has a non-empty range.
   */
  lemma NoRiskIff(chunks: seq<Chunk>, expectedOverlap: int)
    ensures (forall risk :: !Raised(chunks, expectedOverlap, |chunks|, risk)) <==>
              && (forall i | 0 <= i < |chunks| :: chunks[i].index == i && chunks[i].order == i)
              && (forall i | 0 < i < |chunks| :: Adjoins(chunks[i - 1], chunks[i], expectedOverlap))
    ensures forall k | k in chunks :: MetadataRisks(k) == [] <==>
              k.charCount == |k.text| && (k.text == "" || k.charStart < k.charEnd)
  {
    forall i | 0 < i < |chunks|
      ensures (forall risk :: !SeamRisk(chunks, expectedOverlap, i, risk)) <==>
                Adjoins(chunks[i - 1], chunks[i], expectedOverlap)
    {
      if Adjoins(chunks[i - 1], chunks[i], expectedOverlap) {
      } else if chunks[i].charStart < chunks[i - 1].charStart {
        assert SeamRisk(chunks, expectedOverlap, i, NonMonotonicCharOffsets);
      } else if chunks[i - 1].charEnd < chunks[i].charStart {
        assert SeamRisk(chunks, expectedOverlap, i, GapBetweenAdjacentChunks);
      } else {
        assert SeamRisk(chunks, expectedOverlap, i, ExcessiveChunkOverlap);
      }
    }
    if !(forall i | 0 <= i < |chunks| :: chunks[i].index == i && chunks[i].order == i) {
      var i :| 0 <= i < |chunks| && !(chunks[i].index == i && chunks[i].order == i);
      assert OrderRisk(chunks, i) && Raised(chunks, expectedOverlap, |chunks|, NonMonotonicChunkOrder);
    }
    if i :| 0 < i < |chunks| && !Adjoins(chunks[i - 1], chunks[i], expectedOverlap) {
      var risk :| SeamRisk(chunks, expectedOverlap, i, risk);
      assert Raised(chunks, expectedOverlap, |chunks|, risk);
    }
  }

  // ----- what each risk names -----

  lemma OrderRiskNames(chunks: seq<Chunk>, expectedOverlap: int)
    ensures Raised(chunks, expectedOverlap, |chunks|, NonMonotonicChunkOrder) <==>
              exists i :: 0 <= i < |chunks| && !(chunks[i].index == i && chunks[i].order == i)
  {
    forall i | 0 <= i < |chunks|
      ensures OrderRisk(chunks, i) <==> !(chunks[i].index == i && chunks[i].order == i)
    {}
  }

  lemma OffsetRiskNames(chunks: seq<Chunk>, expectedOverlap: int)
    ensures Raised(chunks, expectedOverlap, |chunks|, NonMonotonicCharOffsets) <==>
              exists i :: 0 < i < |chunks| && chunks[i].charStart < chunks[i - 1].charStart
  {
    forall i | 0 < i < |chunks|
      ensures SeamRisk(chunks, expectedOverlap, i, NonMonotonicCharOffsets) <==>
                chunks[i].charStart < chunks[i - 1].charStart
    {}
  }

  lemma GapRiskNames(chunks: seq<Chunk>, expectedOverlap: int)
    ensures Raised(chunks, expectedOverlap, |chunks|, GapBetweenAdjacentChunks) <==>
              exists i :: 0 < i < |chunks| && chunks[i - 1].charEnd < chunks[i].charStart
  {
    forall i | 0 < i < |chunks|
      ensures SeamRisk(chunks, expectedOverlap, i, GapBetweenAdjacentChunks) <==>
                chunks[i - 1].charEnd < chunks[i].charStart
    {}
  }

  lemma OverlapRiskNames(chunks: seq<Chunk>, expectedOverlap: int)
    ensures Raised(chunks, expectedOverlap, |chunks|, ExcessiveChunkOverlap) <==>
              exists i :: 0 < i < |chunks| && chunks[i].charStart <= chunks[i - 1].charEnd
                          && chunks[i - 1].charEnd - chunks[i].charStart > expectedOverlap + 1
  {
    forall i | 0 < i < |chunks|
      ensures SeamRisk(chunks, expectedOverlap, i, ExcessiveChunkOverlap) <==>
                chunks[i].charStart <= chunks[i - 1].charEnd
                && chunks[i - 1].charEnd - chunks[i].charStart > expectedOverlap + 1
    {}
  }

  lemma MetadataRisksName(k: Chunk)
    ensures CharCountMismatch in MetadataRisks(k) <==> k.charCount != |k.text|
    ensures InvalidCharOffsets in MetadataRisks(k) <==> k.text != "" && k.charEnd <= k.charStart
  {}
}
