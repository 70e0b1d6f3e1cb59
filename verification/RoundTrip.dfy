/**
 Stitching undoes chunking.  The stitcher is not told where the chunker
 overlapped two chunks and where it did not, so it can be misled only where a
 chunk of exactly the overlap length is followed by a copy of itself.
 */
module RoundTrip {
  import opened Chunking
  import opened CanonicalBody

  function Texts(chunks: seq<Chunk>): seq<string> {
    seq(|chunks|, i requires 0 <= i < |chunks| => chunks[i].text)
  }

  predicate EndsWith(s: string, t: string) {
    |t| <= |s| && s[|s| - |t|..] == t
  }

  // ----- seams -----

  /** The `k` characters on both sides of position `p` coincide. */
  predicate Echo(text: string, p: nat, k: nat) {
    k <= p && p + k <= |text| && text[p - k..p] == text[p..p + k]
  }

  /** Chunks `i - 1` and `i` do not overlap, but the overlap-length windows at their seam coincide. */
  predicate EchoedSeam(c: ChunkerConfig, text: string, chunks: seq<Chunk>, i: nat)
    requires 0 < i < |chunks| && c.overlap >= 0
  {
    var a, b := chunks[i - 1], chunks[i];
    0 < c.overlap <= |b.text| && b.charStart == a.charEnd && Echo(text, a.charEnd, c.overlap)
  }

  ghost predicate NoEchoes(c: ChunkerConfig, text: string, chunks: seq<Chunk>)
    requires c.overlap >= 0
  {
    forall i | 0 < i < |chunks| :: !EchoedSeam(c, text, chunks, i)
  }

  /** Chunk `i` is long enough for the stitcher to see the overlap it starts with. */
  predicate VisibleOverlap(c: ChunkerConfig, chunks: seq<Chunk>, i: nat)
    requires 0 < i < |chunks|
  {
    chunks[i].charStart < chunks[i - 1].charEnd ==> |chunks[i].text| >= c.overlap
  }

  /** When the minimum chunk length is at least the overlap, every overlap is visible. */
  lemma OverlapsVisible(c: ChunkerConfig, text: string, chunks: seq<Chunk>, i: nat)
    requires c.Valid() && c.min >= c.overlap && WellCut(c, text, chunks) && 0 < i < |chunks|
    ensures VisibleOverlap(c, chunks, i)
  {
    SeamShape(c, text, chunks, i);
    assert SlotOk(c, text, chunks[i]) && Seam(c, text, chunks, i);
  }

  /** At a seam without overlap the earlier chunk is no longer than the overlap. */
  lemma ZeroSeamIsShort(c: ChunkerConfig, text: string, chunks: seq<Chunk>, i: nat)
    requires c.Valid() && WellCut(c, text, chunks) && 0 < i < |chunks|
    requires c.overlap > 0 && chunks[i].charStart == chunks[i - 1].charEnd
    ensures c.min <= |chunks[i - 1].text| <= c.overlap
  {
    SeamShape(c, text, chunks, i);
    assert SlotOk(c, text, chunks[i - 1]) && Seam(c, text, chunks, i);
  }

  // ----- sufficiency: no echo, nothing lost -----

  lemma PrefixEnd(text: string, e: nat, k: nat)
    requires k <= e <= |text|
    ensures text[..e][e - k..] == text[e - k..e]
  {}

  /** Joining a prefix of the text with a slice that starts `k` before its end. */
  lemma SharedJoin(text: string, e: nat, s: nat, e': nat, k: nat)
    requires 0 < k && s + k == e <= |text| && e <= e' <= |text|
    ensures Join(text[..e], text[s..e'], k) == text[..e']
  {
    PrefixEnd(text, e, k);
    assert text[s..e'][..k] == text[s..e];
    assert text[..e] + text[s..e'][k..] == text[..e'];
  }

  /** One step from an exact prefix of the text to the next one. */
  lemma JoinExact(c: ChunkerConfig, text: string, chunks: seq<Chunk>, i: nat)
    requires c.Valid() && WellCut(c, text, chunks) && 0 < i < |chunks|
    requires VisibleOverlap(c, chunks, i) && !EchoedSeam(c, text, chunks, i)
    ensures SlotOk(c, text, chunks[i - 1]) && SlotOk(c, text, chunks[i])
    ensures Join(text[..chunks[i - 1].charEnd], chunks[i].text, c.overlap) == text[..chunks[i].charEnd]
  {
    var a, b, k := chunks[i - 1], chunks[i], c.overlap;
    SeamShape(c, text, chunks, i);
    assert SlotOk(c, text, a) && SlotOk(c, text, b);
    var r := text[..a.charEnd];
    if b.charStart < a.charEnd {
      assert a.charEnd - b.charStart == k;
      SharedJoin(text, a.charEnd, b.charStart, b.charEnd, k);
    } else {
      assert r + b.text == text[..b.charEnd];
      if k > 0 && |r| >= k && |b.text| >= k {
        PrefixEnd(text, a.charEnd, k);
        assert b.text[..k] == text[a.charEnd..a.charEnd + k];
      }
    }
  }

  /** The result after stitching chunks 0 to `j`. */
  function StitchedTo(c: ChunkerConfig, chunks: seq<Chunk>, j: nat): string
    requires j < |chunks|
  {
    if j == 0 then chunks[0].text else Join(StitchedTo(c, chunks, j - 1), chunks[j].text, c.overlap)
  }

  lemma {:induction false} StitchFromPrefix(c: ChunkerConfig, chunks: seq<Chunk>, j: nat)
    requires j < |chunks|
    ensures StitchFrom(StitchedTo(c, chunks, j), Texts(chunks)[j + 1..], c.overlap)
              == StitchedTo(c, chunks, |chunks| - 1)
    decreases |chunks| - j
  {
    if j + 1 < |chunks| {
      var r, rest := StitchedTo(c, chunks, j), Texts(chunks)[j + 1..];
      assert rest[0] == chunks[j + 1].text && rest[1..] == Texts(chunks)[j + 2..];
      assert StitchFrom(r, rest, c.overlap) == StitchFrom(Join(r, rest[0], c.overlap), rest[1..], c.overlap);
      assert Join(r, rest[0], c.overlap) == StitchedTo(c, chunks, j + 1);
      StitchFromPrefix(c, chunks, j + 1);
    }
  }

  lemma StitchIsStitchedTo(c: ChunkerConfig, chunks: seq<Chunk>)
    requires chunks != []
    ensures Stitch(Texts(chunks), c.overlap) == StitchedTo(c, chunks, |chunks| - 1)
  {
    StitchFromPrefix(c, chunks, 0);
  }

  lemma {:induction false} StitchExact(c: ChunkerConfig, text: string, chunks: seq<Chunk>, j: nat)
    requires c.Valid() && WellCut(c, text, chunks) && j < |chunks|
    requires forall i | 0 < i < |chunks| :: VisibleOverlap(c, chunks, i)
    requires NoEchoes(c, text, chunks)
    ensures SlotOk(c, text, chunks[j]) && StitchedTo(c, chunks, j) == text[..chunks[j].charEnd]
  {
    assert SlotOk(c, text, chunks[j]);
    if j > 0 {
      StitchExact(c, text, chunks, j - 1);
      assert VisibleOverlap(c, chunks, j) && !EchoedSeam(c, text, chunks, j);
      JoinExact(c, text, chunks, j);
    }
  }

  /** For every configuration: a complete cut with visible overlaps and no echo is stitched back to the text. */
  lemma RoundTripWithoutEchoes(c: ChunkerConfig, text: string, chunks: seq<Chunk>)
    requires c.Valid() && WellCut(c, text, chunks) && chunks[|chunks| - 1].charEnd == |text|
    requires (forall j | 0 < j < |chunks| :: VisibleOverlap(c, chunks, j)) && NoEchoes(c, text, chunks)
    ensures Stitch(Texts(chunks), c.overlap) == text
  {
    StitchIsStitchedTo(c, chunks);
    StitchExact(c, text, chunks, |chunks| - 1);
    assert text[..|text|] == text;
  }

  // ----- necessity: an echo loses text -----

  lemma JoinEndsWith(r: string, t: string, k: int)
    ensures EndsWith(Join(r, t, k), t)
  {
    if k > 0 && |r| >= k && |t| >= k && r[|r| - k..] == t[..k] {
      var s := r + t[k..];
      assert s[|s| - |t|..] == r[|r| - k..] + t[k..];
      assert t == t[..k] + t[k..];
    } else {
      assert (r + t)[|r|..] == t;
    }
  }

  lemma JoinDrops(r: string, u: string, t: string, k: int)
    requires EndsWith(r, u) && 0 < k <= |u| && k <= |t| && u[|u| - k..] == t[..k]
    ensures Join(r, t, k) == r + t[k..]
  {
    assert r[|r| - k..] == r[|r| - |u|..][|u| - k..];
  }

  /** Two slices that share `k` characters, seen from either slice. */
  lemma SharedWindow(text: string, s: nat, e: nat, s': nat, e': nat, k: nat)
    requires s + k <= e <= |text| && s' + k <= e' <= |text|
    requires text[e - k..e] == text[s'..s' + k]
    ensures text[s..e][e - s - k..] == text[s'..e'][..k]
  {
    assert text[s..e][e - s - k..] == text[e - k..e];
    assert text[s'..e'][..k] == text[s'..s' + k];
  }

  /** At an overlap, and at an echo, the end of one chunk equals the start of the next. */
  lemma SeamWindows(c: ChunkerConfig, text: string, chunks: seq<Chunk>, i: nat)
    requires c.Valid() && c.min >= c.overlap && WellCut(c, text, chunks) && 0 < i < |chunks|
    requires chunks[i].charStart < chunks[i - 1].charEnd || EchoedSeam(c, text, chunks, i)
    ensures var u, t, k := chunks[i - 1].text, chunks[i].text, c.overlap;
            0 < k <= |u| && k <= |t| && u[|u| - k..] == t[..k]
  {
    var a, b, k := chunks[i - 1], chunks[i], c.overlap;
    SeamShape(c, text, chunks, i);
    OverlapsVisible(c, text, chunks, i);
    assert SlotOk(c, text, a) && SlotOk(c, text, b);
    if b.charStart == a.charEnd { ZeroSeamIsShort(c, text, chunks, i); }
    SharedWindow(text, a.charStart, a.charEnd, b.charStart, b.charEnd, k);
  }

  /** The characters a stitched prefix lacks never come back: a step keeps the deficit, or enlarges it at an echo. */
  lemma JoinDeficit(c: ChunkerConfig, text: string, chunks: seq<Chunk>, i: nat, r: string)
    requires c.Valid() && c.min >= c.overlap && WellCut(c, text, chunks) && 0 < i < |chunks|
    requires EndsWith(r, chunks[i - 1].text)
    ensures var s := Join(r, chunks[i].text, c.overlap);
            && EndsWith(s, chunks[i].text)
            && |s| - chunks[i].charEnd <= |r| - chunks[i - 1].charEnd
            && (EchoedSeam(c, text, chunks, i) ==> |s| - chunks[i].charEnd < |r| - chunks[i - 1].charEnd)
  {
    var a, b := chunks[i - 1], chunks[i];
    SeamShape(c, text, chunks, i);
    assert SlotOk(c, text, b);
    JoinEndsWith(r, b.text, c.overlap);
    if b.charStart < a.charEnd || EchoedSeam(c, text, chunks, i) {
      SeamWindows(c, text, chunks, i);
      JoinDrops(r, a.text, b.text, c.overlap);
    }
  }

  /** No stitched prefix is longer than the text it stands for, and from an echoed seam on it is shorter. */
  lemma {:induction false} StitchDeficit(c: ChunkerConfig, text: string, chunks: seq<Chunk>, j: nat, e: nat)
    requires c.Valid() && c.min >= c.overlap && WellCut(c, text, chunks) && j < |chunks|
    requires 0 < e < |chunks|
    ensures EndsWith(StitchedTo(c, chunks, j), chunks[j].text) && |StitchedTo(c, chunks, j)| <= chunks[j].charEnd
    ensures e <= j && EchoedSeam(c, text, chunks, e) ==> |StitchedTo(c, chunks, j)| < chunks[j].charEnd
  {
    if j == 0 {
      assert SlotOk(c, text, chunks[0]);
    } else {
      StitchDeficit(c, text, chunks, j - 1, e);
      JoinDeficit(c, text, chunks, j, StitchedTo(c, chunks, j - 1));
    }
  }

  lemma StitchTooShort(c: ChunkerConfig, text: string, chunks: seq<Chunk>, e: nat)
    requires c.Valid() && c.min >= c.overlap && WellCut(c, text, chunks)
    requires chunks[|chunks| - 1].charEnd < |text| || (0 < e < |chunks| && EchoedSeam(c, text, chunks, e))
    ensures |Stitch(Texts(chunks), c.overlap)| < |text|
  {
    assert SlotOk(c, text, chunks[0]) && SlotOk(c, text, chunks[|chunks| - 1]);
    StitchIsStitchedTo(c, chunks);
    if |chunks| > 1 {
      StitchDeficit(c, text, chunks, |chunks| - 1, if 0 < e < |chunks| then e else 1);
    }
  }

  // ----- the theorem and its two easy cases -----

  /**
   The round trip, exactly.  When the minimum chunk length is at least the
   overlap (as in the default configuration), stitching the chunks gives the
   text back if and only if the chunk guard was not hit and no seam without
   overlap lies between two equal windows of overlap length.
   */
  lemma RoundTripExactly(c: ChunkerConfig, ls: ListScanner, text: string)
    requires c.Valid() && c.min >= c.overlap && text != ""
    ensures Stitch(Texts(TextChunks(c, ls, text)), c.overlap) == text <==>
            !Truncated(c, ls, text) && NoEchoes(c, text, TextChunks(c, ls, text))
  {
    var chunks := TextChunks(c, ls, text);
    ChunksStructure(c, ls, text);
    assert SlotOk(c, text, chunks[|chunks| - 1]);
    if Truncated(c, ls, text) {
      StitchTooShort(c, text, chunks, 0);
    } else if !NoEchoes(c, text, chunks) {
      var e :| 0 < e < |chunks| && EchoedSeam(c, text, chunks, e);
      StitchTooShort(c, text, chunks, e);
    } else {
      forall j | 0 < j < |chunks| ensures VisibleOverlap(c, chunks, j) { OverlapsVisible(c, text, chunks, j); }
      RoundTripWithoutEchoes(c, text, chunks);
    }
  }

  /** With a minimum strictly above the overlap there is nothing to check: every untruncated text round-trips. */
  lemma RoundTripStrictMinimum(c: ChunkerConfig, ls: ListScanner, text: string)
    requires c.Valid() && c.min > c.overlap && text != ""
    ensures Stitch(Texts(TextChunks(c, ls, text)), c.overlap) == text <==> !Truncated(c, ls, text)
  {
    var chunks := TextChunks(c, ls, text);
    ChunksStructure(c, ls, text);
    forall i | 0 < i < |chunks| ensures !EchoedSeam(c, text, chunks, i) {
      if EchoedSeam(c, text, chunks, i) { ZeroSeamIsShort(c, text, chunks, i); }
    }
    RoundTripExactly(c, ls, text);
  }

  lemma NewlineCutHasNoEcho(c: ChunkerConfig, ls: ListScanner, text: string, start: nat)
    requires c.Valid() && start + c.max < |text| && 0 < 2 * c.overlap <= c.target
    requires var r := ChooseEnd(c, ls, text, start); r.1 == Newline && r.0 - start <= c.overlap
    ensures !Echo(text, ChooseEnd(c, ls, text, start).0, c.overlap)
  {
    var end, k := ChooseEnd(c, ls, text, start).0, c.overlap;
    NewlineCutFollowsNewline(c, ls, text, start);
    if Echo(text, end, k) {
      assert text[end - 1] == text[end - k..end][k - 1] == text[end..end + k][k - 1] == text[end + k - 1];
      NewlineCutIsLast(c, ls, text, start, end + k);
    }
  }

  /** A seam cut at a newline is never echoed when twice the overlap fits in the target. */
  lemma NewlineSeamNeverEchoed(c: ChunkerConfig, ls: ListScanner, text: string, i: nat)
    requires c.Valid() && 2 * c.overlap <= c.target && text != ""
    requires 0 < i < |TextChunks(c, ls, text)| && TextChunks(c, ls, text)[i - 1].reason == Newline
    ensures !EchoedSeam(c, text, TextChunks(c, ls, text), i)
  {
    var cuts, chunks := CutsOf(c, ls, text), TextChunks(c, ls, text);
    ChunksStructure(c, ls, text);
    if EchoedSeam(c, text, chunks, i) {
      var a := chunks[i - 1];
      ZeroSeamIsShort(c, text, chunks, i);
      assert SlotOk(c, text, a) && Seam(c, text, chunks, i);
      ChunksFollowCuts(c, text, cuts, 0, 0, i - 1);
      assert cuts[a.charStart] == ChooseEnd(c, ls, text, a.charStart);
      NewlineCutHasNoEcho(c, ls, text, a.charStart);
    }
  }
}
