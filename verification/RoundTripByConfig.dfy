/**
 Which chunker settings make the round trip hold for every text: decided by the
 configuration alone, once list matches start at newlines.
 */
module RoundTripByConfig {
  import opened LineEndings
  import opened Chunking
  import opened CanonicalBody
  import opened RoundTrip
  import opened RoundTripLimits

  // ----- what a chosen cut says about its window -----

  /** The priorities whose boundaries are ever chosen. */
  predicate Chosen(k: int) {
    k == 1 || k == 2 || k == 3 || k == 5
  }

  /**
   `r` matches at priority `k`, no later match of it lies up to the target, and no better priority
   matches in range.
   */
  ghost predicate BestMatch(c: ChunkerConfig, w: string, k: int, r: int) {
    && Chosen(k) && c.min <= r <= c.max && MatchEnd(w, k, r)
    && (forall p | r < p <= c.target :: !MatchEnd(w, k, p))
    && (forall j, p | Chosen(j) && j < k && c.min <= p <= c.max :: !MatchEnd(w, j, p))
  }

  ghost predicate NoMatch(c: ChunkerConfig, w: string) {
    forall j, p | Chosen(j) && c.min <= p <= c.max :: !MatchEnd(w, j, p)
  }

  /** Every choice has one of the five boundary reasons or is a hard cut. */
  lemma {:induction false} ReasonIsKnown(c: ChunkerConfig, found: seq<seq<nat>>, priority: nat) returns (k: nat)
    requires c.Valid() && 1 <= priority && |found| == 5
    ensures var r := ChooseFrom(c, found, priority);
            (priority <= k <= 5 && r.1 == ReasonOf(k)) || (k == 0 && r == (c.max, HardCharacter))
    decreases |found| - priority
  {
    if priority > |found| {
      k := 0;
    } else if LastIn(found[priority - 1], c.min, c.target) == -1
        && FirstIn(found[priority - 1], c.target + 1, c.max) == -1 {
      k := ReasonIsKnown(c, found, priority + 1);
    } else {
      k := priority;
    }
  }

  /** A hard cut is made only when no scanner matched in range. */
  lemma {:induction false} HardCutFoundNothing(c: ChunkerConfig, found: seq<seq<nat>>, priority: nat, j: nat, p: nat)
    requires c.Valid() && 1 <= priority <= j <= |found| == 5
    requires ChooseFrom(c, found, priority).1 == HardCharacter && c.min <= p <= c.max
    ensures p !in found[j - 1]
    decreases |found| - priority
  {
    assert LastIn(found[priority - 1], c.min, c.target) == -1
        && FirstIn(found[priority - 1], c.target + 1, c.max) == -1;
    if priority < j { HardCutFoundNothing(c, found, priority + 1, j, p); }
  }

  lemma HardCutMatches(c: ChunkerConfig, ls: ListScanner, w: string, j: int, p: int)
    requires c.Valid() && ChooseFrom(c, BoundaryCandidates(ls, w), 1).1 == HardCharacter
    requires Chosen(j) && c.min <= p <= c.max
    ensures !MatchEnd(w, j, p)
  {
    HardCutFoundNothing(c, BoundaryCandidates(ls, w), 1, j, p);
    MatchEndsAre(w, j, 0, p);
  }

  /** One later match of the chosen priority, or one match of a better one, set against the choice. */
  lemma BoundaryCutMatches(c: ChunkerConfig, ls: ListScanner, w: string, k: int, j: int, p: int)
    requires c.Valid() && Chosen(k) && Chosen(j) && j <= k
               && ChooseFrom(c, BoundaryCandidates(ls, w), 1).1 == ReasonOf(k)
    ensures var r := ChooseFrom(c, BoundaryCandidates(ls, w), 1).0;
            && MatchEnd(w, k, r)
            && (j == k && r < p <= c.target ==> !MatchEnd(w, k, p))
            && (j < k && c.min <= p <= c.max ==> !MatchEnd(w, j, p))
  {
    ChosenFrom(c, BoundaryCandidates(ls, w), 1, k, j, p);
    MatchEndsAre(w, k, 0, ChooseFrom(c, BoundaryCandidates(ls, w), 1).0);
    MatchEndsAre(w, j, 0, p);
  }

  /** What the cut of a window that is not the text's last one says about its matches. */
  lemma CutMatches(c: ChunkerConfig, ls: ListScanner, text: string, start: nat) returns (k: nat)
    requires c.Valid() && start + c.max < |text| && forall w: string :: StartAtNewlines(ls(w), w)
    ensures var w, r := text[start..start + c.max], ChooseEnd(c, ls, text, start).0 - start;
            if k == 0 then r == c.max && NoMatch(c, w) else BestMatch(c, w, k, r)
  {
    var w := text[start..start + c.max];
    k := ReasonIsKnown(c, BoundaryCandidates(ls, w), 1);
    ListBoundaryNeverChosen(c, ls, text, start);
    if k == 0 {
      forall j, p | Chosen(j) && c.min <= p <= c.max ensures !MatchEnd(w, j, p) { HardCutMatches(c, ls, w, j, p); }
    } else {
      var r := ChooseFrom(c, BoundaryCandidates(ls, w), 1).0;
      BoundaryCutMatches(c, ls, w, k, k, 0);
      forall p | r < p <= c.target ensures !MatchEnd(w, k, p) { BoundaryCutMatches(c, ls, w, k, k, p); }
      forall j, p | Chosen(j) && j < k && c.min <= p <= c.max
        ensures !MatchEnd(w, j, p)
      {
        BoundaryCutMatches(c, ls, w, k, j, p);
      }
    }
  }

  // ----- where a match continues -----

  /** A whitespace character lies in a run that ends somewhere, with the same mark before it. */
  lemma RunEndFrom(w: string, q: nat) returns (p: nat)
    requires 1 <= q <= |w| && IsSpace(w[q - 1])
    ensures q <= p <= |w| && SpaceRunEnd(w, p) && (MarkBefore(w, q - 1) ==> MarkBefore(w, p - 1))
    decreases |w| - q
  {
    if q == |w| || !IsSpace(w[q]) {
      p := q;
    } else {
      p := RunEndFrom(w, q + 1);
    }
  }

  lemma NextNewline(w: string, q: nat) returns (n: nat)
    requires q <= |w| && NewlineAfter(w, q) && NewlineBefore(w, q)
    ensures q < n <= |w| && w[n - 1] == '\n' && NewlineBefore(w, n - 1)
    decreases |w| - q
  {
    if w[q] == '\n' {
      n := q + 1;
    } else {
      n := NextNewline(w, q + 1);
    }
  }

  /** A second newline of a whitespace run leads to the end of a paragraph match. */
  lemma ParagraphEndFrom(w: string, q: nat) returns (p: nat)
    requires 1 <= q <= |w| && w[q - 1] == '\n' && NewlineBefore(w, q - 1)
    ensures q <= p <= |w| && ParagraphEnd(w, p)
    decreases |w| - q
  {
    if NewlineAfter(w, q) {
      var n := NextNewline(w, q);
      p := ParagraphEndFrom(w, n);
    } else {
      p := q;
    }
  }

  // ----- a repeated stretch repeats its boundary -----

  /** The first `n` characters come again `d` later. */
  ghost predicate Again(w: string, n: nat, d: nat) {
    n + d <= |w| && forall i | 0 <= i < n :: w[i + d] == w[i]
  }

  lemma {:induction false} NewlineBeforeAgain(w: string, n: nat, d: nat, q: nat)
    requires Again(w, n, d) && q <= n && NewlineBefore(w, q)
    ensures NewlineBefore(w, q + d)
  {
    assert w[q - 1 + d] == w[q - 1];
    if w[q - 1] != '\n' { NewlineBeforeAgain(w, n, d, q - 1); }
  }

  lemma {:induction false} MarkBeforeAgain(w: string, n: nat, d: nat, q: nat)
    requires Again(w, n, d) && q <= n && MarkBefore(w, q)
    ensures MarkBefore(w, q + d)
  {
    assert w[q - 1 + d] == w[q - 1];
    if w[q - 1] !in ".!?" { MarkBeforeAgain(w, n, d, q - 1); }
  }

  /** A match at the end of a stretch that comes again has a later match of its own priority. */
  lemma MatchAgain(w: string, k: int, n: nat, d: nat) returns (p: nat)
    requires Chosen(k) && Again(w, n, d) && d > 0 && MatchEnd(w, k, n)
    ensures n < p <= |w| && MatchEnd(w, k, p)
  {
    assert w[n - 1 + d] == w[n - 1];
    if k == 1 {
      NewlineBeforeAgain(w, n, d, n - 1);
      p := ParagraphEndFrom(w, n + d);
    } else if k == 2 {
      p := n + d;
    } else if k == 5 {
      p := RunEndFrom(w, n + d);
    } else if SpaceRunEnd(w, n) && MarkBefore(w, n - 1) {
      MarkBeforeAgain(w, n, d, n - 1);
      p := RunEndFrom(w, n + d);
    } else {
      p := n + d;
    }
  }

  /** With the target at the maximum and room for two overlaps, a short chunk is never followed by an echo. */
  lemma ShortCutHasNoEcho(c: ChunkerConfig, ls: ListScanner, text: string, start: nat)
    requires c.Valid() && c.target == c.max && 0 < c.overlap && 2 * c.overlap <= c.max
    requires start + c.max < |text| && forall w: string :: StartAtNewlines(ls(w), w)
    requires ChooseEnd(c, ls, text, start).0 - start <= c.overlap
    ensures !Echo(text, ChooseEnd(c, ls, text, start).0, c.overlap)
  {
    var w, end, d := text[start..start + c.max], ChooseEnd(c, ls, text, start).0, c.overlap;
    var n := end - start;
    var k := CutMatches(c, ls, text, start);
    if Echo(text, end, d) {
      EchoRepeats(text, start, end, d, c.max);
      var p := MatchAgain(w, k, n, d);
      assert false;
    }
  }

  lemma EchoRepeats(text: string, start: nat, end: nat, d: nat, max: nat)
    requires start < end <= start + d && end + d <= start + max <= |text| && Echo(text, end, d)
    ensures Again(text[start..start + max], end - start, d)
  {
    var w := text[start..start + max];
    forall i | 0 <= i < end - start ensures w[i + d] == w[i] {
      var j := start + i + d - end;
      assert text[end - d..end][j] == text[end..end + d][j];
    }
  }

  lemma TwinMatches(w: string, k: int)
    requires Chosen(k) && |w| >= 2 && w[0] == w[1] && MatchEnd(w, k, 1)
    ensures MatchEnd(w, k, 2)
  {}

  /** Nor is a chunk of one character, when the overlap is one and the target is not. */
  lemma UnitCutHasNoEcho(c: ChunkerConfig, ls: ListScanner, text: string, start: nat)
    requires c.Valid() && c.overlap == 1 && c.target >= 2
    requires start + c.max < |text| && forall w: string :: StartAtNewlines(ls(w), w)
    requires ChooseEnd(c, ls, text, start).0 == start + 1
    ensures !Echo(text, start + 1, 1)
  {
    var w := text[start..start + c.max];
    var k := CutMatches(c, ls, text, start);
    if Echo(text, start + 1, 1) {
      assert text[start..start + 1][0] == text[start + 1..start + 2][0];
      TwinMatches(w, k);
      assert false;
    }
  }

  // ----- two overlapping windows -----

  /** `w` is the window `d` further on. */
  ghost predicate Later(w': string, w: string, d: nat) {
    0 < d <= |w'| == |w| && forall i | 0 <= i < |w| - d :: w'[i + d] == w[i]
  }

  lemma {:induction false} NewlineBeforeEarlier(w': string, w: string, d: nat, q: nat)
    requires Later(w', w, d) && q + d <= |w| && NewlineBefore(w, q)
    ensures NewlineBefore(w', q + d)
  {
    assert w'[q - 1 + d] == w[q - 1];
    if w[q - 1] != '\n' { NewlineBeforeEarlier(w', w, d, q - 1); }
  }

  lemma {:induction false} MarkBeforeEarlier(w': string, w: string, d: nat, q: nat)
    requires Later(w', w, d) && q + d <= |w| && MarkBefore(w, q)
    ensures MarkBefore(w', q + d)
  {
    assert w'[q - 1 + d] == w[q - 1];
    if w[q - 1] !in ".!?" { MarkBeforeEarlier(w', w, d, q - 1); }
  }

  lemma {:induction false} NewlineAfterLater(w': string, w: string, d: nat, q: nat)
    requires Later(w', w, d) && q + d <= |w| && NewlineAfter(w', q + d)
    ensures NewlineAfter(w, q)
    decreases |w| - q
  {
    assert w'[q + d] == w[q];
    if w[q] != '\n' { NewlineAfterLater(w', w, d, q + 1); }
  }

  /** A match of the later window was a match of the earlier one, unless it lay at or beyond its end. */
  lemma SeenEarlier(w': string, w: string, d: nat, k: int, r: nat)
    requires Later(w', w, d) && Chosen(k) && MatchEnd(w, k, r) && r + d < |w|
    ensures MatchEnd(w', k, r + d)
  {
    assert w'[r - 1 + d] == w[r - 1] && w'[r + d] == w[r];
    if k == 1 {
      NewlineBeforeEarlier(w', w, d, r - 1);
      if NewlineAfter(w', r + d) { NewlineAfterLater(w', w, d, r); }
    } else if k == 3 && SpaceRunEnd(w, r) && MarkBefore(w, r - 1) {
      MarkBeforeEarlier(w', w, d, r - 1);
    }
  }

  /** Whitespace without a newline from the window's start to `q`. */
  ghost predicate PlainTo(w: string, q: int) {
    q <= |w| && forall i | 0 <= i < q :: IsSpace(w[i]) && w[i] != '\n'
  }

  ghost predicate SpacesTo(w: string, q: int) {
    q <= |w| && forall i | 0 <= i < q :: IsSpace(w[i])
  }

  lemma {:induction false} NewlineBeforeLater(w': string, w: string, d: nat, q: nat)
    requires Later(w', w, d) && q + d <= |w| && NewlineBefore(w', q + d)
    ensures NewlineBefore(w, q) || PlainTo(w, q)
  {
    if q > 0 {
      assert w'[q - 1 + d] == w[q - 1];
      if w[q - 1] != '\n' { NewlineBeforeLater(w', w, d, q - 1); }
    }
  }

  lemma {:induction false} MarkBeforeLater(w': string, w: string, d: nat, q: nat)
    requires Later(w', w, d) && q + d <= |w| && MarkBefore(w', q + d)
    ensures MarkBefore(w, q) || SpacesTo(w, q)
  {
    if q > 0 {
      assert w'[q - 1 + d] == w[q - 1];
      if w[q - 1] !in ".!?" { MarkBeforeLater(w', w, d, q - 1); }
    }
  }

  /** Inside leading whitespace nothing but a newline is a boundary. */
  lemma NotInSpaces(w: string, q: nat, k: int, r: nat)
    requires 1 <= r < q <= |w| && Chosen(k) && MatchEnd(w, k, r)
    ensures k >= 3 ==> !SpacesTo(w, q)
    ensures IsSpace(w[q - 1]) ==> !PlainTo(w, q - 1)
  {}

  /**
   A match of the earlier window, not worse than an earlier-placed one of the later window, shows in
   the later window too.
   */
  lemma SeenLater(w': string, w: string, d: nat, k': int, r': nat, k: int, r: nat) returns (p: nat)
    requires Later(w', w, d) && Chosen(k') && Chosen(k) && k' <= k
    requires MatchEnd(w', k', r') && MatchEnd(w, k, r) && r + d < r'
    ensures r' - d <= p <= |w| && MatchEnd(w, k', p)
  {
    var o := r' - d;
    assert w'[o - 1 + d] == w[o - 1];
    if k' == 1 {
      NewlineBeforeLater(w', w, d, o - 1);
      NotInSpaces(w, o, k, r);
      p := ParagraphEndFrom(w, o);
    } else if k' == 2 {
      p := o;
    } else if k' == 5 {
      p := RunEndFrom(w, o);
    } else if SpaceRunEnd(w', r') && MarkBefore(w', r' - 1) {
      MarkBeforeLater(w', w, d, o - 1);
      NotInSpaces(w, o, k, r);
      assert SpacesTo(w, o - 1) ==> SpacesTo(w, o);
      p := RunEndFrom(w, o);
    } else {
      p := o;
    }
  }

  /** With the target at the maximum, a chunk that starts in an overlap reaches at least to the overlap's end. */
  lemma OverlapIsPassed(c: ChunkerConfig, ls: ListScanner, text: string, start': nat, start: nat)
    requires c.Valid() && c.target == c.max && c.min <= c.overlap && forall w: string :: StartAtNewlines(ls(w), w)
    requires start' < start && start + c.max < |text|
    requires start + c.overlap == ChooseEnd(c, ls, text, start').0
    ensures ChooseEnd(c, ls, text, start).0 >= start + c.overlap
  {
    var w', w, d := text[start'..start' + c.max], text[start..start + c.max], start - start';
    var r', r := ChooseEnd(c, ls, text, start').0 - start', ChooseEnd(c, ls, text, start).0 - start;
    var k' := CutMatches(c, ls, text, start');
    var k := CutMatches(c, ls, text, start);
    if r < c.overlap {
      assert Later(w', w, d);
      SeenEarlier(w', w, d, k, r);
      assert MatchEnd(w', k, r + d) && c.min <= r + d <= c.max;
      assert k' != 0 && k' <= k;
      var p := SeenLater(w', w, d, k', r', k, r);
      assert false;
    }
  }

  // ----- whole cuts -----

  /** Where chunk `i` ends is the choice at its start. */
  lemma ChunkEnd(c: ChunkerConfig, ls: ListScanner, text: string, i: nat)
    requires c.Valid() && text != "" && i < |TextChunks(c, ls, text)|
    ensures var k := TextChunks(c, ls, text)[i];
            k.charStart < |text| && k.charEnd == ChooseEnd(c, ls, text, k.charStart).0 && SlotOk(c, text, k)
  {
    var cuts, chunks := CutsOf(c, ls, text), TextChunks(c, ls, text);
    ChunksStructure(c, ls, text);
    ChunksFollowCuts(c, text, cuts, 0, 0, i);
    assert cuts[chunks[i].charStart] == ChooseEnd(c, ls, text, chunks[i].charStart);
    assert chunks[i] in chunks;
  }

  /** A seam without overlap follows a cut that was not final, of at most overlap length. */
  lemma EchoedSeamIsShort(c: ChunkerConfig, ls: ListScanner, text: string, i: nat)
    requires c.Valid() && text != "" && 0 < i < |TextChunks(c, ls, text)|
               && EchoedSeam(c, text, TextChunks(c, ls, text), i)
    ensures var a := TextChunks(c, ls, text)[i - 1];
            && a.charStart + c.max < |text|
            && var end := ChooseEnd(c, ls, text, a.charStart).0;
               c.min <= end - a.charStart <= c.overlap && Echo(text, end, c.overlap)
  {
    var chunks := TextChunks(c, ls, text);
    ChunkEnd(c, ls, text, i - 1);
    ChunksStructure(c, ls, text);
    ZeroSeamIsShort(c, text, chunks, i);
    assert Seam(c, text, chunks, i);
  }

  lemma UnitOverlapHasNoEcho(c: ChunkerConfig, ls: ListScanner, text: string)
    requires c.Valid() && text != "" && c.overlap == 1 && c.target >= 2 && forall w: string :: StartAtNewlines(ls(w), w)
    ensures NoEchoes(c, text, TextChunks(c, ls, text))
  {
    var chunks := TextChunks(c, ls, text);
    forall i | 0 < i < |chunks| ensures !EchoedSeam(c, text, chunks, i) {
      if EchoedSeam(c, text, chunks, i) {
        EchoedSeamIsShort(c, ls, text, i);
        UnitCutHasNoEcho(c, ls, text, chunks[i - 1].charStart);
      }
    }
  }

  lemma RoomyTargetHasNoEcho(c: ChunkerConfig, ls: ListScanner, text: string)
    requires c.Valid() && text != "" && c.target == c.max && 0 < c.overlap && 2 * c.overlap <= c.max
    requires forall w: string :: StartAtNewlines(ls(w), w)
    ensures NoEchoes(c, text, TextChunks(c, ls, text))
  {
    var chunks := TextChunks(c, ls, text);
    forall i | 0 < i < |chunks| ensures !EchoedSeam(c, text, chunks, i) {
      if EchoedSeam(c, text, chunks, i) {
        EchoedSeamIsShort(c, ls, text, i);
        ShortCutHasNoEcho(c, ls, text, chunks[i - 1].charStart);
      }
    }
  }

  lemma FullTargetShowsOverlaps(c: ChunkerConfig, ls: ListScanner, text: string, i: nat)
    requires c.Valid() && text != "" && c.target == c.max && c.min <= c.overlap
    requires forall w: string :: StartAtNewlines(ls(w), w)
    requires 0 < i < |TextChunks(c, ls, text)|
    ensures VisibleOverlap(c, TextChunks(c, ls, text), i)
  {
    var chunks := TextChunks(c, ls, text);
    var a, b := chunks[i - 1], chunks[i];
    ChunksStructure(c, ls, text);
    SeamShape(c, text, chunks, i);
    ChunkEnd(c, ls, text, i - 1);
    ChunkEnd(c, ls, text, i);
    if b.charStart < a.charEnd && b.charStart + c.max < |text| {
      OverlapIsPassed(c, ls, text, a.charStart, b.charStart);
    }
  }

  // ----- the condition -----

  /** Every text the chunk guard does not cut short is stitched back. */
  ghost predicate Restores(c: ChunkerConfig, ls: ListScanner)
    requires c.Valid()
  {
    forall text | text != "" && !Truncated(c, ls, text) :: Stitch(Texts(TextChunks(c, ls, text)), c.overlap) == text
  }

  /**
   No overlap, or a longer minimum, or only one chunk, or a unit overlap below the target, or two
   overlaps within a target at the maximum.
   */
  predicate Restoring(c: ChunkerConfig) {
    || c.overlap == 0 || c.overlap < c.min || c.maxChunks == 1
    || (c.overlap == 1 && c.target >= 2)
    || (c.target == c.max && 2 * c.overlap <= c.max)
  }

  lemma RestoringRestores(c: ChunkerConfig, ls: ListScanner, text: string)
    requires c.Valid() && Restoring(c) && forall w: string :: StartAtNewlines(ls(w), w)
    requires text != "" && !Truncated(c, ls, text)
    ensures Stitch(Texts(TextChunks(c, ls, text)), c.overlap) == text
  {
    var chunks := TextChunks(c, ls, text);
    ChunksStructure(c, ls, text);
    ChunkEnd(c, ls, text, |chunks| - 1);
    if c.overlap < c.min {
      RoundTripStrictMinimum(c, ls, text);
    } else {
      forall i | 0 < i < |chunks| ensures VisibleOverlap(c, chunks, i) {
        if c.overlap > 0 && c.target == c.max { FullTargetShowsOverlaps(c, ls, text, i); }
        ChunkEnd(c, ls, text, i);
      }
      if c.overlap > 0 && |chunks| > 1 {
        if c.overlap == 1 && c.target >= 2 { UnitOverlapHasNoEcho(c, ls, text); }
        else { RoomyTargetHasNoEcho(c, ls, text); }
      }
      RoundTripWithoutEchoes(c, text, chunks);
    }
  }

  /**
   Over every valid configuration: all texts that are not cut short survive the
   round trip if and only if the configuration is one of these.
   */
  lemma RoundTripDependsOnConfig(c: ChunkerConfig, ls: ListScanner)
    requires c.Valid() && forall w: string :: StartAtNewlines(ls(w), w)
    ensures Restores(c, ls) <==> Restoring(c)
  {
    if Restoring(c) {
      forall text | text != "" && !Truncated(c, ls, text)
        ensures Stitch(Texts(TextChunks(c, ls, text)), c.overlap) == text
      {
        RestoringRestores(c, ls, text);
      }
    } else if c.overlap == 1 {
      UnitTargetLosesSomeText(c, ls);
    } else {
      LowMinimumLosesSomeText(c, ls);
    }
  }

  /** The default configuration is not one of them. */
  lemma DefaultConfigLosesSomeText(ls: ListScanner)
    requires forall w: string :: StartAtNewlines(ls(w), w)
    ensures !Restores(DEFAULT_CONFIG, ls)
  {
    RoundTripDependsOnConfig(DEFAULT_CONFIG, ls);
  }
}
