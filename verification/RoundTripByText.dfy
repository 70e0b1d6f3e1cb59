/**
 The round trip of one text under any configuration.  The stitcher may drop a
 stretch it should have kept, or keep a chunk too short to show its overlap;
 the result then runs ahead of the text or behind it by some drift, and is still
 the text where the text repeats at that distance and the drift is made up.
 */
module RoundTripByText {
  import opened Chunking
  import opened CanonicalBody
  import opened RoundTrip

  /** The `k` characters before `end` are also the first ones of the stretch from `start` to `stop`. */
  predicate WindowsAgree(text: string, end: int, start: int, stop: int, k: int) {
    && 0 < k <= end <= |text| && 0 <= start && start + k <= stop <= |text|
    && text[end - k..end] == text[start..start + k]
  }

  /**
   How far the stitched result is ahead of the text after chunk `j`: the
   characters shared by neighbouring chunks less those dropped at their seams.
   */
  function Drift(c: ChunkerConfig, text: string, chunks: seq<Chunk>, j: nat): int
    requires j < |chunks|
    decreases j, 0
  {
    if j == 0 then 0
    else Drift(c, text, chunks, j - 1) + (chunks[j - 1].charEnd - chunks[j].charStart)
         - (if Drops(c, text, chunks, j) then c.overlap else 0)
  }

  /** The overlap-length window at the start of chunk `j` equals the one where the result ends. */
  predicate Drops(c: ChunkerConfig, text: string, chunks: seq<Chunk>, j: nat)
    requires 0 < j < |chunks|
    decreases j - 1, 1
  {
    var reached := chunks[j - 1].charEnd + Drift(c, text, chunks, j - 1);
    WindowsAgree(text, reached, chunks[j].charStart, chunks[j].charEnd, c.overlap)
  }

  /** Where the stretch that seam `j` appends starts. */
  function AppendedFrom(c: ChunkerConfig, text: string, chunks: seq<Chunk>, j: nat): int
    requires 0 < j < |chunks|
  {
    chunks[j].charStart + (if Drops(c, text, chunks, j) then c.overlap else 0)
  }

  /** The stretch comes again `d` characters later, or earlier when `d` is negative. */
  predicate Repeats(text: string, from: int, to: int, d: int) {
    0 <= from <= to <= |text| && 0 <= from + d && to + d <= |text| && text[from..to] == text[from + d..to + d]
  }

  /** What seam `j` appends of chunk `j` comes again at the distance of the drift. */
  predicate Fits(c: ChunkerConfig, text: string, chunks: seq<Chunk>, j: nat)
    requires 0 < j < |chunks|
  {
    Repeats(text, AppendedFrom(c, text, chunks, j), chunks[j].charEnd, Drift(c, text, chunks, j))
  }

  ghost predicate FitsTo(c: ChunkerConfig, text: string, chunks: seq<Chunk>, j: nat)
    requires j < |chunks|
  {
    forall i | 0 < i <= j :: Fits(c, text, chunks, i)
  }

  /** Joining a slice to a prefix of the text, in terms of windows of the text. */
  lemma JoinSlice(text: string, length: nat, start: nat, end: nat, k: int, from: nat)
    requires length <= |text| && start <= end <= |text|
    requires from == start + (if WindowsAgree(text, length, start, end, k) then k else 0)
    ensures Join(text[..length], text[start..end], k) == text[..length] + text[from..end]
  {
    if 0 < k <= length && k <= end - start {
      PrefixEnd(text, length, k);
      assert text[start..end][..k] == text[start..start + k];
      assert text[start..end][k..] == text[start + k..end];
    }
  }

  /** One seam: from an exact prefix of the text the result stays one exactly when the appended stretch fits. */
  lemma JoinFits(c: ChunkerConfig, text: string, chunks: seq<Chunk>, j: nat, r: string)
    requires c.Valid() && WellCut(c, text, chunks) && 0 < j < |chunks|
    requires var length := chunks[j - 1].charEnd + Drift(c, text, chunks, j - 1);
             0 <= length <= |text| && r == text[..length]
    ensures var s := Join(r, chunks[j].text, c.overlap);
            && (s <= text <==> Fits(c, text, chunks, j))
            && |s| == chunks[j].charEnd + Drift(c, text, chunks, j)
  {
    var b, from := chunks[j], AppendedFrom(c, text, chunks, j);
    assert SlotOk(c, text, b);
    assert Drops(c, text, chunks, j) == WindowsAgree(text, |r|, b.charStart, b.charEnd, c.overlap);
    assert |r| - from == Drift(c, text, chunks, j);
    JoinSlice(text, |r|, b.charStart, b.charEnd, c.overlap, from);
    AppendFits(text, |r|, from, b.charEnd);
  }

  lemma AppendFits(text: string, length: nat, from: nat, to: nat)
    requires length <= |text| && from <= to <= |text|
    ensures text[..length] + text[from..to] <= text <==> Repeats(text, from, to, length - from)
  {
    var s, piece, end := text[..length] + text[from..to], text[from..to], length + to - from;
    if s <= text {
      assert piece == s[length..] == text[..end][length..] == text[length..end];
    }
    if Repeats(text, from, to, length - from) {
      assert piece == text[length..end];
      assert s == text[..end];
    }
  }

  lemma FitsStep(c: ChunkerConfig, text: string, chunks: seq<Chunk>, j: nat)
    requires 0 < j < |chunks|
    ensures FitsTo(c, text, chunks, j) <==> FitsTo(c, text, chunks, j - 1) && Fits(c, text, chunks, j)
  {}

  lemma JoinKeepsPrefix(r: string, t: string, k: int)
    ensures r <= Join(r, t, k)
  {}

  lemma PrefixTransitive(r: string, s: string, text: string)
    requires r <= s <= text
    ensures r <= text
  {}

  lemma JoinFollows(c: ChunkerConfig, text: string, chunks: seq<Chunk>, j: nat, r: string)
    requires c.Valid() && WellCut(c, text, chunks) && 0 < j < |chunks|
    requires r <= text ==> |r| == chunks[j - 1].charEnd + Drift(c, text, chunks, j - 1)
    ensures var s := Join(r, chunks[j].text, c.overlap);
            && (s <= text <==> r <= text && Fits(c, text, chunks, j))
            && (s <= text ==> |s| == chunks[j].charEnd + Drift(c, text, chunks, j))
  {
    if r <= text {
      assert r == text[..|r|];
      JoinFits(c, text, chunks, j, r);
    } else if Join(r, chunks[j].text, c.overlap) <= text {
      JoinKeepsPrefix(r, chunks[j].text, c.overlap);
      PrefixTransitive(r, Join(r, chunks[j].text, c.overlap), text);
    }
  }

  /** Every stitched prefix follows the text exactly as long as all appended stretches fit. */
  lemma {:induction false} StitchedFits(c: ChunkerConfig, text: string, chunks: seq<Chunk>, j: nat)
    requires c.Valid() && WellCut(c, text, chunks) && j < |chunks|
    ensures StitchedTo(c, chunks, j) <= text <==> FitsTo(c, text, chunks, j)
    ensures StitchedTo(c, chunks, j) <= text ==>
              |StitchedTo(c, chunks, j)| == chunks[j].charEnd + Drift(c, text, chunks, j)
  {
    if j == 0 {
      assert SlotOk(c, text, chunks[0]);
    } else {
      StitchedFits(c, text, chunks, j - 1);
      FitsStep(c, text, chunks, j);
      JoinFollows(c, text, chunks, j, StitchedTo(c, chunks, j - 1));
    }
  }

  /** All appended stretches fit, and the last chunk ends the text once its drift is added. */
  ghost predicate Recovers(c: ChunkerConfig, text: string, chunks: seq<Chunk>) {
    && chunks != []
    && var last := |chunks| - 1;
       FitsTo(c, text, chunks, last) && chunks[last].charEnd + Drift(c, text, chunks, last) == |text|
  }

  lemma StitchRecoversIff(c: ChunkerConfig, text: string, chunks: seq<Chunk>)
    requires c.Valid() && WellCut(c, text, chunks)
    ensures Stitch(Texts(chunks), c.overlap) == text <==> Recovers(c, text, chunks)
  {
    StitchIsStitchedTo(c, chunks);
    StitchedFits(c, text, chunks, |chunks| - 1);
    WholePrefix(StitchedTo(c, chunks, |chunks| - 1), text);
  }

  /**
   For every configuration and every text: stitching the chunks gives the text
   back if and only if each stretch a seam appends comes again at the distance of
   its drift, and the last chunk ends the text once its drift is added.  With a
   minimum of at least the overlap this means no truncation and no echo.
   */
  lemma RoundTripDependsOnDrift(c: ChunkerConfig, ls: ListScanner, text: string)
    requires c.Valid() && text != ""
    ensures var chunks := TextChunks(c, ls, text);
            && (Stitch(Texts(chunks), c.overlap) == text <==> Recovers(c, text, chunks))
            && (c.min >= c.overlap ==>
                  (Recovers(c, text, chunks) <==> !Truncated(c, ls, text) && NoEchoes(c, text, chunks)))
  {
    ChunksStructure(c, ls, text);
    StitchRecoversIff(c, text, TextChunks(c, ls, text));
    if c.min >= c.overlap { RoundTripExactly(c, ls, text); }
  }

  lemma WholePrefix(s: string, text: string)
    ensures s == text <==> s <= text && |s| == |text|
  {
    if s <= text && |s| == |text| { assert s == text[..|s|] == text; }
  }

  /**
   While the result follows the text, the drift grows by an overlap exactly at a
   chunk too short to show the overlap it starts with, and shrinks by one
   exactly at a seam without overlap whose windows coincide.
   */
  lemma DriftStep(c: ChunkerConfig, text: string, chunks: seq<Chunk>, j: nat)
    requires c.Valid() && WellCut(c, text, chunks) && 0 < j < |chunks| && FitsTo(c, text, chunks, j - 1)
    ensures var step := Drift(c, text, chunks, j) - Drift(c, text, chunks, j - 1);
            step == if chunks[j].charStart < chunks[j - 1].charEnd
                    then (if VisibleOverlap(c, chunks, j) then 0 else c.overlap)
                    else (if Drops(c, text, chunks, j) then -c.overlap else 0)
  {
    var a, b, k := chunks[j - 1], chunks[j], c.overlap;
    SeamShape(c, text, chunks, j);
    assert SlotOk(c, text, a) && SlotOk(c, text, b) && Seam(c, text, chunks, j);
    if b.charStart < a.charEnd && VisibleOverlap(c, chunks, j) {
      StitchedFits(c, text, chunks, j - 1);
      StitchedEndsWith(c, chunks, j - 1);
      OverlapDropped(c, text, chunks, j);
    }
  }

  lemma StitchedEndsWith(c: ChunkerConfig, chunks: seq<Chunk>, j: nat)
    requires j < |chunks|
    ensures EndsWith(StitchedTo(c, chunks, j), chunks[j].text)
  {
    if j > 0 { JoinEndsWith(StitchedTo(c, chunks, j - 1), chunks[j].text, c.overlap); }
  }

  /** What a prefix of the text ends with is found there in the text. */
  lemma TailInText(text: string, r: string, start: nat, end: nat, k: nat)
    requires r <= text && start + k <= end <= |text| && EndsWith(r, text[start..end])
    ensures k <= |r| && text[|r| - k..|r|] == text[end - k..end]
  {
    var u := text[start..end];
    PrefixEnd(text, |r|, k);
    assert r == text[..|r|];
    assert r[|r| - k..] == r[|r| - |u|..][|u| - k..];
    assert u[|u| - k..] == text[end - k..end];
  }

  lemma OverlapDropped(c: ChunkerConfig, text: string, chunks: seq<Chunk>, j: nat)
    requires c.Valid() && WellCut(c, text, chunks) && 0 < j < |chunks|
    requires chunks[j].charStart < chunks[j - 1].charEnd && VisibleOverlap(c, chunks, j)
    requires var r := StitchedTo(c, chunks, j - 1);
             r <= text && |r| == chunks[j - 1].charEnd + Drift(c, text, chunks, j - 1)
             && EndsWith(r, chunks[j - 1].text)
    ensures Drops(c, text, chunks, j)
  {
    var a, b := chunks[j - 1], chunks[j];
    SeamShape(c, text, chunks, j);
    assert SlotOk(c, text, a) && SlotOk(c, text, b);
    TailInText(text, StitchedTo(c, chunks, j - 1), a.charStart, a.charEnd, c.overlap);
  }
}
