/** Texts on which stitching does not undo chunking, so that the conditions of the round trip cannot be dropped. */
module RoundTripLimits {
  import opened LineEndings
  import opened Chunking
  import opened CanonicalBody
  import opened RoundTrip

  function Repeat(ch: char, n: nat): string {
    seq(n, _ => ch)
  }

  // ----- a first chunk of overlap length, followed by its own copy -----

  /** A chunk of overlap length followed by its copy and a rest that fits one chunk: the copy is dropped. */
  lemma SelfCopyIsLost(c: ChunkerConfig, text: string, cuts: Cuts)
    requires c.Valid() && |cuts| == |text| && SoundCuts(c, cuts) && c.maxChunks >= 2
    requires var k := c.overlap; 0 < k && k + k <= |text| && c.max < |text| <= k + c.max
    requires cuts[0].0 == c.overlap && text[..c.overlap] == text[c.overlap..c.overlap + c.overlap]
    ensures var chunks := ChunksFrom(c, text, cuts, 0, 0);
            && |chunks| == 2 && chunks[1].charEnd == |text|
            && |Stitch(Texts(chunks), c.overlap)| == |text| - c.overlap
  {
    var k, chunks := c.overlap, ChunksFrom(c, text, cuts, 0, 0);
    assert Sound(c, |text|, 0, cuts[0].0) && Sound(c, |text|, k, cuts[k].0);
    assert NextStart(c, 0, k) == k;
    var a, b := CutChunk(c, text, cuts, 0, 0), CutChunk(c, text, cuts, k, 1);
    assert b.charEnd == |text|;
    assert ChunksFrom(c, text, cuts, k, 1) == [b];
    assert chunks == [a, b];
    TwoTexts(a, b, k);
    assert a.text == text[..k] && b.text[..k] == text[k..k + k];
    assert a.text[|a.text| - k..] == a.text;
  }

  lemma TwoTexts(a: Chunk, b: Chunk, k: int)
    ensures Stitch(Texts([a, b]), k) == Join(a.text, b.text, k)
  {
    assert Texts([a, b]) == [a.text, b.text];
    var rest := [b.text];
    assert [a.text, b.text][1..] == rest && rest[1..] == [];
    assert StitchFrom(a.text, rest, k) == StitchFrom(Join(a.text, rest[0], k), rest[1..], k);
  }

  // ----- two equal words -----

  lemma {:induction false} NoMarkNoSentence(w: string, p: nat)
    requires p <= |w| && forall i | 0 <= i < |w| :: w[i] !in ".!?"
    ensures !MarkBefore(w, p)
  {
    if p > 0 { NoMarkNoSentence(w, p - 1); }
  }

  /**
   Two equal words of overlap length, one trailing space included, with further spaces when a chunk
   could hold both.
   */
  function TwoWords(c: ChunkerConfig): string
    requires c.Valid() && c.overlap >= 2
  {
    var spaces := if c.max + 2 - 2 * c.overlap > 1 then c.max + 2 - 2 * c.overlap else 1;
    Repeat('x', c.overlap - 1) + " " + Repeat('x', c.overlap - 1) + Repeat(' ', spaces)
  }

  lemma ScannersSilent(w: string, p: int)
    requires forall i | 0 <= i < |w| :: w[i] == 'x' || w[i] == ' '
    ensures p !in MatchEnds(w, 1, 0) && p !in MatchEnds(w, 2, 0) && p !in MatchEnds(w, 3, 0)
  {
    MatchEndsAre(w, 1, 0, p);
    MatchEndsAre(w, 2, 0, p);
    MatchEndsAre(w, 3, 0, p);
    if 1 <= p <= |w| { NoMarkNoSentence(w, p - 1); }
  }

  lemma OnlyLastScanner(c: ChunkerConfig, found: seq<seq<nat>>, k: nat)
    requires c.Valid() && |found| == 5 && forall i, p | 0 <= i < 4 :: p !in found[i]
    requires k in found[4] && c.min <= k <= c.max
    requires forall p | p in found[4] && c.min <= p <= c.max :: p == k || (c.target < p && k < p)
    ensures ChooseFrom(c, found, 1).0 == k
  {
    assert ChooseFrom(c, found, 5).0 == k;
    assert ChooseFrom(c, found, 4) == ChooseFrom(c, found, 5);
    assert ChooseFrom(c, found, 3) == ChooseFrom(c, found, 4);
    assert ChooseFrom(c, found, 2) == ChooseFrom(c, found, 3);
  }

  /** The window the chunker looks at first has no better boundary than the space after the first word. */
  lemma FirstCutOfTwoWords(c: ChunkerConfig, ls: ListScanner)
    requires c.Valid() && c.min <= c.overlap && c.overlap >= 2 && (c.target < c.max || c.max < 2 * c.overlap)
    requires forall w: string :: StartAtNewlines(ls(w), w)
    ensures ChooseEnd(c, ls, TwoWords(c), 0).0 == c.overlap
  {
    var text, k := TwoWords(c), c.overlap;
    var w := text[0..c.max];
    var found := BoundaryCandidates(ls, w);
    forall i, p | 0 <= i < 4 ensures p !in found[i] {
      ScannersSilent(w, p);
      assert StartAtNewlines(ls(w), w);
    }
    forall p: nat | p in found[4] ensures p == k || (c.target < p && k < p) {
      MatchEndsAre(w, 5, 0, p);
    }
    MatchEndsAre(w, 5, 0, k);
    OnlyLastScanner(c, found, k);
  }

  lemma TwoWordsShape(c: ChunkerConfig)
    requires c.Valid() && c.overlap >= 2
    ensures var text, k := TwoWords(c), c.overlap;
            && k + k <= |text| && c.max < |text| <= k + c.max
            && text[..k] == text[k..k + k] && !Blank(text) && '\r' !in text
  {
    var text, k := TwoWords(c), c.overlap;
    assert text[..k] == Repeat('x', k - 1) + " ";
    assert text[k..k + k] == Repeat('x', k - 1) + " ";
    assert text[0] == 'x';
  }

  /** A text cut first after the overlap and repeating its first chunk does not survive. */
  lemma FirstCutLosesText(c: ChunkerConfig, ls: ListScanner, text: string)
    requires c.Valid() && c.maxChunks >= 2
    requires var k := c.overlap; 0 < k && k + k <= |text| && c.max < |text| <= k + c.max && text[..k] == text[k..k + k]
    requires ChooseEnd(c, ls, text, 0).0 == c.overlap
    ensures !Truncated(c, ls, text) && Stitch(Texts(TextChunks(c, ls, text)), c.overlap) != text
  {
    var cuts := CutsOf(c, ls, text);
    assert cuts[0] == ChooseEnd(c, ls, text, 0);
    SelfCopyIsLost(c, text, cuts);
  }

  /**
   In every configuration with an overlap of at least two, a minimum no larger,
   room for two chunks, and a target below the maximum or two overlaps longer
   than a chunk, some text that is neither blank nor cut short is stitched into
   a different text.
   */
  lemma LowMinimumLosesSomeText(c: ChunkerConfig, ls: ListScanner)
    requires c.Valid() && c.min <= c.overlap && c.overlap >= 2 && c.maxChunks >= 2
    requires c.target < c.max || c.max < 2 * c.overlap
    requires forall w: string :: StartAtNewlines(ls(w), w)
    ensures var text := TwoWords(c);
            && !Blank(text) && '\r' !in text && !Truncated(c, ls, text)
            && Stitch(Texts(TextChunks(c, ls, text)), c.overlap) != text
  {
    TwoWordsShape(c);
    FirstCutOfTwoWords(c, ls);
    FirstCutLosesText(c, ls, TwoWords(c));
  }

  // ----- two full stops -----

  /** Two full-width stops, then a word that fits a chunk together with the second. */
  function TwoStops(c: ChunkerConfig): string
    requires c.Valid()
  {
    "\U{3002}\U{3002}" + Repeat('x', c.max - 1)
  }

  lemma FirstCutOfTwoStops(c: ChunkerConfig, ls: ListScanner)
    requires c.Valid() && c.overlap == 1 && c.target == 1
    ensures ChooseEnd(c, ls, TwoStops(c), 0).0 == 1
  {
    var w := TwoStops(c)[0..c.max];
    var found := BoundaryCandidates(ls, w);
    forall p: nat ensures p !in found[0] && p !in found[1] {
      MatchEndsAre(w, 1, 0, p);
      MatchEndsAre(w, 2, 0, p);
    }
    MatchEndsAre(w, 3, 0, 1);
    assert ChooseFrom(c, found, 3).0 == 1;
    assert ChooseFrom(c, found, 2) == ChooseFrom(c, found, 3);
  }

  /** With overlap and target one, two full-width stops are taken for an overlap. */
  lemma UnitTargetLosesSomeText(c: ChunkerConfig, ls: ListScanner)
    requires c.Valid() && c.overlap == 1 && c.target == 1 && c.maxChunks >= 2
    ensures var text := TwoStops(c);
            && !Blank(text) && '\r' !in text && !Truncated(c, ls, text)
            && Stitch(Texts(TextChunks(c, ls, text)), c.overlap) != text
  {
    var text := TwoStops(c);
    assert text[..1] == "\U{3002}" == text[1..2];
    assert text[0] == '\U{3002}';
    FirstCutOfTwoStops(c, ls);
    FirstCutLosesText(c, ls, text);
  }

  // ----- overlaps too short to be seen -----

  /**
   A chunk shorter than the overlap it starts with is appended whole.  The next
   seam undoes the damage exactly when the duplicated characters come again
   right after the chunk before; otherwise an overlap too much remains.
   */
  lemma HiddenOverlapHealsIff(text: string, start: nat, end: nat, before: nat, next: nat, k: nat)
    requires start < end < before == start + k && end + k <= next <= |text|
    ensures var result := Join(Join(text[..before], text[start..end], k), text[end..next], k);
            && (result == text[..next] <==> text[start..end] == text[before..before + (end - start)])
            && (result != text[..next] ==> |result| == next + k)
  {
    var r, t, n := text[..before] + text[start..end], text[end..next], end - start;
    assert Join(text[..before], text[start..end], k) == r;
    DuplicateTail(text, start, end, before);
    NextPrefix(text, end, before, next, n);
    TailsEqual(text[end..before], text[start..end], text[before..before + n]);
    if text[start..end] == text[before..before + n] {
      HealedJoin(text, end, before, next, n);
    }
  }

  lemma DuplicateTail(text: string, start: nat, end: nat, before: nat)
    requires start < end < before <= |text|
    ensures var r, k := text[..before] + text[start..end], before - start;
            r[|r| - k..] == text[end..before] + text[start..end]
  {
    var r, k := text[..before] + text[start..end], before - start;
    assert |r| - k == end;
    DropConcat(text[..before], text[start..end], end);
    assert text[..before][end..] == text[end..before];
  }

  lemma DropConcat(a: string, b: string, n: nat)
    requires n <= |a|
    ensures (a + b)[n..] == a[n..] + b
  {}

  lemma NextPrefix(text: string, end: nat, before: nat, next: nat, n: nat)
    requires end <= before && before + n <= next <= |text|
    ensures text[end..next][..before + n - end] == text[end..before] + text[before..before + n]
  {}

  lemma HealedJoin(text: string, end: nat, before: nat, next: nat, n: nat)
    requires end <= before && before + n <= next <= |text|
    ensures text[..before] + text[before..before + n] + text[end..next][before + n - end..] == text[..next]
  {
    assert text[end..next][before + n - end..] == text[before + n..next];
  }

  lemma TailsEqual(a: string, b: string, b': string)
    ensures a + b == a + b' <==> b == b'
  {
    if a + b == a + b' {
      assert b == (a + b)[|a|..] && b' == (a + b')[|a|..];
    }
  }

  /** A minimum of at most 2 under an overlap of 5, and a text whose third blank line lies beyond the first window. */
  ghost predicate HiddenOverlap(c: ChunkerConfig, text: string) {
    && c.Valid() && c.target == 7 && c.max == 8 && c.min <= 2 && c.overlap == 5 && c.maxChunks >= 2
    && |text| > 10 && text[..10] == "aa\n\nb\n\n  \n"
  }

  lemma HiddenOverlapFirstCut(c: ChunkerConfig, ls: ListScanner, text: string)
    requires HiddenOverlap(c, text)
    ensures ChooseEnd(c, ls, text, 0).0 == 7
  {
    var w := text[0..8];
    assert w == "aa\n\nb\n\n ";
    MatchEndsAre(w, 1, 0, 7);
    assert NewlineBefore(w, 6) && !NewlineAfter(w, 7);
    assert 7 in BoundaryCandidates(ls, w)[0];
  }

  lemma HiddenOverlapSecondCut(c: ChunkerConfig, ls: ListScanner, text: string)
    requires HiddenOverlap(c, text)
    ensures ChooseEnd(c, ls, text, 2).0 == 4
  {
    var w := text[2..10];
    assert w == "\n\nb\n\n  \n";
    var found := BoundaryCandidates(ls, w);
    forall p: nat | 1 <= p <= 7 ensures p in found[0] <==> p == 2 {
      MatchEndsAre(w, 1, 0, p);
      assert NewlineBefore(w, 1) && !NewlineBefore(w, 3) && !NewlineAfter(w, 2);
      assert NewlineAfter(w, 7) && NewlineAfter(w, 6) && NewlineAfter(w, 5);
    }
    assert 2 in found[0];
    var last := LastIn(found[0], c.min, 7);
    assert last in found[0] && 2 <= last <= 7;
  }

  /** The first two chunks of a text whose first cut is not final. */
  lemma FirstTwoChunks(c: ChunkerConfig, text: string, cuts: Cuts)
    requires c.Valid() && |cuts| == |text| > 0 && SoundCuts(c, cuts) && c.maxChunks >= 2 && cuts[0].0 < |text|
    ensures var chunks, next := ChunksFrom(c, text, cuts, 0, 0), NextStart(c, 0, cuts[0].0);
            && |chunks| >= 2 && next < |text|
            && chunks[0] == CutChunk(c, text, cuts, 0, 0) && chunks[1] == CutChunk(c, text, cuts, next, 1)
            && Join(chunks[0].text, chunks[1].text, c.overlap) <= Stitch(Texts(chunks), c.overlap)
  {
    var chunks, next := ChunksFrom(c, text, cuts, 0, 0), NextStart(c, 0, cuts[0].0);
    var rest := ChunksFrom(c, text, cuts, next, 1);
    assert chunks == [chunks[0]] + rest && rest[0] == CutChunk(c, text, cuts, next, 1);
    var texts := Texts(chunks)[1..];
    StitchKeepsPrefix(Join(chunks[0].text, texts[0], c.overlap), texts[1..], c.overlap);
  }

  lemma {:induction false} StitchKeepsPrefix(r: string, texts: seq<string>, k: int)
    ensures r <= StitchFrom(r, texts, k)
    decreases |texts|
  {
    if texts != [] { StitchKeepsPrefix(Join(r, texts[0], k), texts[1..], k); }
  }

  /** A second chunk that ends inside the first is appended a second time. */
  lemma InnerChunkIsDuplicated(c: ChunkerConfig, text: string, cuts: Cuts)
    requires c.Valid() && |cuts| == |text| > 7 && SoundCuts(c, cuts) && c.maxChunks >= 2 && c.overlap == 5
    requires cuts[0].0 == 7 && cuts[2].0 == 4 && text[2] != text[7]
    ensures Stitch(Texts(ChunksFrom(c, text, cuts, 0, 0)), c.overlap) != text
  {
    FirstTwoChunks(c, text, cuts);
    var chunks := ChunksFrom(c, text, cuts, 0, 0);
    var u, t := chunks[0].text, chunks[1].text;
    assert u == text[0..7] && t == text[2..4];
    assert Join(u, t, c.overlap) == u + t && (u + t)[7] == text[2];
  }

  /** Such chunks occur: an example of text that is duplicated where the texts above lose some. */
  lemma SmallMinimumDuplicatesText(c: ChunkerConfig, ls: ListScanner, text: string)
    requires HiddenOverlap(c, text)
    ensures Stitch(Texts(TextChunks(c, ls, text)), c.overlap) != text
  {
    HiddenOverlapFirstCut(c, ls, text);
    HiddenOverlapSecondCut(c, ls, text);
    var cuts := CutsOf(c, ls, text);
    assert cuts[0] == ChooseEnd(c, ls, text, 0) && cuts[2] == ChooseEnd(c, ls, text, 2);
    assert text[2] == text[..10][2] && text[7] == text[..10][7];
    InnerChunkIsDuplicated(c, text, cuts);
  }
}
