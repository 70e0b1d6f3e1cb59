/**
 The deterministic chunker: boundary scanners, the prioritised choice of a
 chunk end, and the loop that cuts a text into overlapping slices.

 The newline, whitespace, paragraph and sentence scanners are given by the
 positions their regular expressions match; the list scanner is any function.
 Where its matches must start at a newline, as the list expression demands, a
 lemma says so.
 */
module Chunking {
  import opened LineEndings

  datatype ChunkerConfig = ChunkerConfig(target: int, max: int, min: int, overlap: int, maxChunks: int) {
    /** Exactly the configurations the constructor accepts. */
    predicate Valid() {
      1 <= min <= target <= max && 0 <= overlap < max && 1 <= maxChunks
    }
  }

  const DEFAULT_CONFIG := ChunkerConfig(640, 900, 80, 80, 1000)

  datatype Reason =
    | Paragraph | Newline | Sentence | ListItem | Whitespace
    | HardCharacter | FinalChunk | ShortSingleChunk | SingleChunkWithinMax

  datatype Chunk = Chunk(index: nat, order: nat, text: string, charStart: nat, charEnd: nat, charCount: nat,
        reason: Reason)

  /** Reports the start positions of list-item matches in a window. */
  type ListScanner = string -> seq<nat>

  // ----- scanners -----

  /** A `\n` match ends at `p`. */
  predicate NewlineEnd(w: string, p: int) {
    1 <= p <= |w| && w[p - 1] == '\n'
  }

  /** A `\s+` match ends at `p`: the last character of a run, or the window's end. */
  predicate SpaceRunEnd(w: string, p: int) {
    1 <= p <= |w| && IsSpace(w[p - 1]) && (p == |w| || !IsSpace(w[p]))
  }

  /** The whitespace run that reaches back from `p` holds a newline. */
  predicate NewlineBefore(w: string, p: nat)
    requires p <= |w|
  {
    p > 0 && IsSpace(w[p - 1]) && (w[p - 1] == '\n' || NewlineBefore(w, p - 1))
  }

  /** The whitespace run that continues at `p` holds a newline. */
  predicate NewlineAfter(w: string, p: nat)
    requires p <= |w|
    decreases |w| - p
  {
    p < |w| && IsSpace(w[p]) && (w[p] == '\n' || NewlineAfter(w, p + 1))
  }

  /** The whitespace run that reaches back from `p` follows `.`, `!` or `?`. */
  predicate MarkBefore(w: string, p: nat)
    requires p <= |w|
  {
    p > 0 && (w[p - 1] in ".!?" || (IsSpace(w[p - 1]) && MarkBefore(w, p - 1)))
  }

  /** A `\n\s*\n+` match ends at `p`: the last newline of a whitespace run with an earlier newline. */
  predicate ParagraphEnd(w: string, p: int) {
    NewlineEnd(w, p) && NewlineBefore(w, p - 1) && !NewlineAfter(w, p)
  }

  /** A sentence match ends at `p`: a full-width mark, or the whitespace run after `.`, `!` or `?`. */
  predicate SentenceEnd(w: string, p: int) {
    1 <= p <= |w| && (w[p - 1] in "\U{3002}\U{FF01}\U{FF1F}" || (SpaceRunEnd(w, p) && MarkBefore(w, p - 1)))
  }

  function ReasonOf(priority: int): Reason {
    match priority
    case 1 => Paragraph
    case 2 => Newline
    case 3 => Sentence
    case 4 => ListItem
    case _ => Whitespace
  }

  predicate MatchEnd(w: string, priority: int, p: int) {
    match priority
    case 1 => ParagraphEnd(w, p)
    case 2 => NewlineEnd(w, p)
    case 3 => SentenceEnd(w, p)
    case _ => SpaceRunEnd(w, p)
  }

  /** The positions above `lo` where a match of one regular expression ends, in increasing order. */
  function MatchEnds(w: string, priority: int, lo: nat): seq<nat>
    decreases |w| - lo
  {
    if lo >= |w| then []
    else (if MatchEnd(w, priority, lo + 1) then [lo + 1] else []) + MatchEnds(w, priority, lo + 1)
  }

  lemma {:induction false} MatchEndsAre(w: string, priority: int, lo: nat, p: int)
    ensures p in MatchEnds(w, priority, lo) <==> lo < p <= |w| && MatchEnd(w, priority, p)
    decreases |w| - lo
  {
    if lo < |w| { MatchEndsAre(w, priority, lo + 1, p); }
  }

  /** The positions each scanner reports in a window, one list per priority from 1 to 5. */
  function BoundaryCandidates(ls: ListScanner, w: string): (found: seq<seq<nat>>)
    ensures |found| == 5
  {
    [MatchEnds(w, 1, 0), MatchEnds(w, 2, 0), MatchEnds(w, 3, 0), ls(w), MatchEnds(w, 5, 0)]
  }

  // ----- choosing the end of a chunk -----

  /** The greatest of the positions in [lo, hi], or -1 when there is none. */
  function LastIn(ps: seq<nat>, lo: int, hi: int): (r: int)
    ensures r == -1 || (r in ps && lo <= r <= hi)
    ensures forall p | p in ps && lo <= p <= hi :: p <= r
  {
    if ps == [] then -1
    else
      var rest := LastIn(ps[1..], lo, hi);
      assert forall p | p in ps :: p == ps[0] || p in ps[1..];
      if lo <= ps[0] <= hi && ps[0] > rest then ps[0] else rest
  }

  /** The least of the positions in [lo, hi], or -1 when there is none. */
  function FirstIn(ps: seq<nat>, lo: int, hi: int): (r: int)
    ensures r == -1 || (r in ps && lo <= r <= hi)
    ensures forall p | p in ps && lo <= p <= hi :: 0 <= r <= p
  {
    if ps == [] then -1
    else
      var rest := FirstIn(ps[1..], lo, hi);
      assert forall p | p in ps :: p == ps[0] || p in ps[1..];
      if lo <= ps[0] <= hi && (rest == -1 || ps[0] < rest) then ps[0] else rest
  }

  /**
   The cut within a window, looking at the scanners from `priority` on: last match up to the target,
   else first one after it.
   */
  function ChooseFrom(c: ChunkerConfig, found: seq<seq<nat>>, priority: nat): (r: (nat, Reason))
    requires c.Valid() && 1 <= priority
    ensures c.min <= r.0 <= c.max
    decreases |found| - priority
  {
    if priority > |found| then (c.max, HardCharacter)
    else
      var last, first := LastIn(found[priority - 1], c.min, c.target),
          FirstIn(found[priority - 1], c.target + 1, c.max);
      if last != -1 then (last, ReasonOf(priority))
      else if first != -1 then (first, ReasonOf(priority))
      else ChooseFrom(c, found, priority + 1)
  }

  function ChooseEnd(c: ChunkerConfig, ls: ListScanner, text: string, start: nat): (r: (nat, Reason))
    requires c.Valid() && start < |text|
    ensures Sound(c, |text|, start, r.0)
  {
    if |text| - start <= c.max then (|text|, FinalChunk)
    else
      var r := ChooseFrom(c, BoundaryCandidates(ls, text[start..start + c.max]), 1);
      (start + r.0, r.1)
  }

  /** What the cutting loop relies on: progress, the size limits, and a final cut exactly when the rest fits. */
  predicate Sound(c: ChunkerConfig, n: nat, start: nat, end: nat) {
    && start < end <= n && end - start <= c.max
    && (end < n ==> end - start >= c.min)
    && (end == n <==> n - start <= c.max)
  }

  /** The chosen end for every possible start of a text. */
  type Cuts = seq<(nat, Reason)>

  ghost predicate SoundCuts(c: ChunkerConfig, cuts: Cuts) {
    forall i | 0 <= i < |cuts| :: Sound(c, |cuts|, i, cuts[i].0)
  }

  /** The table lists, for every start, the choice the chunker makes there. */
  ghost predicate AreCuts(c: ChunkerConfig, ls: ListScanner, text: string, cuts: Cuts)
    requires c.Valid()
  {
    |cuts| == |text| && forall i {:trigger ChooseEnd(c, ls, text, i)} | 0 <= i < |text| ::
                          cuts[i] == ChooseEnd(c, ls, text, i)
  }

  function CutsOf(c: ChunkerConfig, ls: ListScanner, text: string): (cuts: Cuts)
    requires c.Valid()
    ensures SoundCuts(c, cuts) && AreCuts(c, ls, text, cuts)
  {
    seq(|text|, i requires 0 <= i < |text| => ChooseEnd(c, ls, text, i))
  }

  method FindEnd(c: ChunkerConfig, ls: ListScanner, text: string, start: nat, ghost cuts: Cuts)
    returns (end: nat, reason: Reason)
    requires c.Valid() && start < |text| && AreCuts(c, ls, text, cuts)
    ensures (end, reason) == cuts[start]
  {
    assert cuts[start] == ChooseEnd(c, ls, text, start);
    if |text| - start <= c.max {
      return |text|, FinalChunk;
    }
    var found := BoundaryCandidates(ls, text[start..start + c.max]);
    for priority := 1 to 6
      invariant ChooseFrom(c, found, 1) == ChooseFrom(c, found, priority)
    {
      var last := LastIn(found[priority - 1], c.min, c.target);
      if last != -1 {
        return start + last, ReasonOf(priority);
      }
      var first := FirstIn(found[priority - 1], c.target + 1, c.max);
      if first != -1 {
        return start + first, ReasonOf(priority);
      }
    }
    return start + c.max, HardCharacter;
  }

  /**
   A chosen cut is one of its own scanner's matches: the last one up to the target, or the first one
   past it if there is none before; and no better scanner had one in range.
   */
  lemma {:induction false} ChosenFrom(c: ChunkerConfig, found: seq<seq<nat>>, priority: nat, k: nat, j: nat, p: int)
    requires c.Valid() && 1 <= priority <= j <= k <= |found| <= 5
    requires ChooseFrom(c, found, priority).1 == ReasonOf(k)
    ensures var r := ChooseFrom(c, found, priority).0;
            && r in found[k - 1]
            && (j == k && p in found[k - 1] && r < p && c.min <= p ==> c.target < p)
            && (j == k && p in found[k - 1] && c.min <= p < r ==> r <= c.target)
            && (j < k && p in found[j - 1] ==> !(c.min <= p <= c.max))
    decreases |found| - priority
  {
    if LastIn(found[priority - 1], c.min, c.target) == -1 && FirstIn(found[priority - 1], c.target + 1, c.max) == -1 {
      LaterReasons(c, found, priority + 1);
      if priority < k { ChosenFrom(c, found, priority + 1, k, if j > priority then j else k, p); }
    }
  }

  lemma {:induction false} LaterReasons(c: ChunkerConfig, found: seq<seq<nat>>, priority: nat)
    requires c.Valid() && 1 <= priority && |found| <= 5
    ensures forall k | 1 <= k < priority && k <= 5 :: ChooseFrom(c, found, priority).1 != ReasonOf(k)
    decreases |found| - priority
  {
    if priority <= |found| { LaterReasons(c, found, priority + 1); }
  }

  /** A hard cut is at the maximum, and no scanner had a match between minimum and maximum. */
  lemma {:induction false} HardCutIsLastResort(c: ChunkerConfig, found: seq<seq<nat>>, priority: nat, j: nat, p: int)
    requires c.Valid() && 1 <= priority <= j <= |found| <= 5
    requires ChooseFrom(c, found, priority).1 == HardCharacter
    ensures ChooseFrom(c, found, priority).0 == c.max && (p in found[j - 1] ==> !(c.min <= p <= c.max))
    decreases |found| - priority
  {
    if priority < j {
      HardCutIsLastResort(c, found, priority + 1, j, p);
    } else if priority < |found| {
      HardCutIsLastResort(c, found, priority + 1, priority + 1, p);
    }
  }

  /** List matches start with a newline, as the list expression demands. */
  ghost predicate StartAtNewlines(ps: seq<nat>, w: string) {
    forall p | p in ps :: p < |w| && w[p] == '\n'
  }

  /** A list boundary always loses to the newline it starts with, whatever else the list scanner does. */
  lemma ListBoundaryNeverChosen(c: ChunkerConfig, ls: ListScanner, text: string, start: nat)
    requires c.Valid() && start < |text|
    requires forall w: string :: StartAtNewlines(ls(w), w)
    ensures ChooseEnd(c, ls, text, start).1 != ListItem
  {
    if start + c.max < |text| {
      var w := text[start..start + c.max];
      var found := BoundaryCandidates(ls, w);
      var r := ChooseFrom(c, found, 1);
      if r.1 == ReasonOf(4) {
        ChosenFrom(c, found, 1, 4, 2, r.0 + 1);
        assert StartAtNewlines(found[3], w);
        MatchEndsAre(w, 2, 0, r.0 + 1);
      }
    }
  }

  /** A newline cut follows a newline. */
  lemma NewlineCutFollowsNewline(c: ChunkerConfig, ls: ListScanner, text: string, start: nat)
    requires c.Valid() && start + c.max < |text| && ChooseEnd(c, ls, text, start).1 == Newline
    ensures text[ChooseEnd(c, ls, text, start).0 - 1] == '\n'
  {
    var w := text[start..start + c.max];
    var found := BoundaryCandidates(ls, w);
    var r := ChooseFrom(c, found, 1);
    ChosenFrom(c, found, 1, 2, 2, 0);
    MatchEndsAre(w, 2, 0, r.0);
  }

  /** A cut at a newline no later than the target leaves no newline between the cut and the target. */
  lemma NewlineCutIsLast(c: ChunkerConfig, ls: ListScanner, text: string, start: nat, q: int)
    requires c.Valid() && start + c.max < |text|
    requires var r := ChooseEnd(c, ls, text, start); r.1 == Newline && r.0 < q <= start + c.target
    ensures text[q - 1] != '\n'
  {
    var w := text[start..start + c.max];
    var found := BoundaryCandidates(ls, w);
    ChosenFrom(c, found, 1, 2, 2, q - start);
    MatchEndsAre(w, 2, 0, q - start);
    assert q - start in found[1] <==> text[q - 1] == '\n';
  }

  // ----- the cutting loop -----

  function NextStart(c: ChunkerConfig, start: nat, end: nat): nat
    requires c.Valid()
  {
    var back := if end >= c.overlap then end - c.overlap else 0;
    if back <= start then end else back
  }

  function CutChunk(c: ChunkerConfig, text: string, cuts: Cuts, start: nat, index: nat): Chunk
    requires |cuts| == |text| && SoundCuts(c, cuts) && start < |text|
  {
    var (end, chosen) := cuts[start];
    var reason := if |text| > c.max then chosen
                  else if end - start < c.min then ShortSingleChunk else SingleChunkWithinMax;
    Chunk(index, index, text[start..end], start, end, end - start, reason)
  }

  /** The chunks cut from `start` on, numbered from `index`, up to the chunk guard. */
  function ChunksFrom(c: ChunkerConfig, text: string, cuts: Cuts, start: nat, index: nat): seq<Chunk>
    requires c.Valid() && |cuts| == |text| && SoundCuts(c, cuts) && start < |text|
    decreases |text| - start
  {
    if index >= c.maxChunks then []
    else
      var chunk := CutChunk(c, text, cuts, start, index);
      if chunk.charEnd >= |text| then [chunk]
      else [chunk] + ChunksFrom(c, text, cuts, NextStart(c, start, chunk.charEnd), index + 1)
  }

  /** The chunks of a normalised, non-empty text. */
  function TextChunks(c: ChunkerConfig, ls: ListScanner, text: string): seq<Chunk>
    requires c.Valid() && text != ""
  {
    ChunksFrom(c, text, CutsOf(c, ls, text), 0, 0)
  }

  /** The chunks of a submitted body: none for a blank one. */
  function Chunks(c: ChunkerConfig, ls: ListScanner, raw: string): seq<Chunk>
    requires c.Valid()
  {
    var text := Normalize(raw);
    if Blank(text) then [] else TextChunks(c, ls, text)
  }

  /** True when the chunk guard cut the text short. */
  ghost predicate Truncated(c: ChunkerConfig, ls: ListScanner, text: string)
    requires c.Valid() && text != ""
  {
    var chunks := TextChunks(c, ls, text);
    chunks != [] && chunks[|chunks| - 1].charEnd < |text|
  }

  lemma ChunksStep(c: ChunkerConfig, text: string, cuts: Cuts, done: seq<Chunk>, start: nat)
    requires c.Valid() && |cuts| == |text| && SoundCuts(c, cuts) && start < |text| && |done| < c.maxChunks
    ensures var chunk := CutChunk(c, text, cuts, start, |done|);
            var all := done + ChunksFrom(c, text, cuts, start, |done|);
            && (chunk.charEnd >= |text| ==> all == done + [chunk])
            && (chunk.charEnd < |text| ==>
                  all == (done + [chunk]) + ChunksFrom(c, text, cuts, NextStart(c, start, chunk.charEnd), |done| + 1))
  {
    var chunk := CutChunk(c, text, cuts, start, |done|);
    if chunk.charEnd < |text| {
      var rest := ChunksFrom(c, text, cuts, NextStart(c, start, chunk.charEnd), |done| + 1);
      assert done + ([chunk] + rest) == (done + [chunk]) + rest;
    }
  }

  method NextChunk(c: ChunkerConfig, ls: ListScanner, text: string, start: nat, index: nat, ghost cuts: Cuts)
    returns (chunk: Chunk)
    requires c.Valid() && start < |text| && AreCuts(c, ls, text, cuts) && SoundCuts(c, cuts)
    ensures chunk == CutChunk(c, text, cuts, start, index)
  {
    var end, reason := FindEnd(c, ls, text, start, cuts);
    assert Sound(c, |text|, start, cuts[start].0);
    // The hard boundary guard is never taken.
    if end <= start {
      assert false;
    }
    if |text| <= c.max {
      reason := if end - start < c.min then ShortSingleChunk else SingleChunkWithinMax;
    }
    chunk := Chunk(index, index, text[start..end], start, end, end - start, reason);
  }

  /** The chunking loop on normalised text that is not blank. */
  method CutText(c: ChunkerConfig, ls: ListScanner, text: string, ghost cuts: Cuts)
    returns (chunks: seq<Chunk>, guardHit: bool)
    requires c.Valid() && text != "" && AreCuts(c, ls, text, cuts) && SoundCuts(c, cuts)
    ensures chunks == ChunksFrom(c, text, cuts, 0, 0) && |chunks| > 0
    ensures guardHit <==> chunks[|chunks| - 1].charEnd < |text|
  {
    chunks := [];
    guardHit := false;
    var start := 0;
    while start < |text|
      invariant start < |text| && !guardHit && |chunks| <= c.maxChunks
      invariant ChunksFrom(c, text, cuts, 0, 0) == chunks + ChunksFrom(c, text, cuts, start, |chunks|)
      invariant |chunks| > 0 ==> chunks[|chunks| - 1].charEnd < |text|
      decreases |text| - start
    {
      if |chunks| >= c.maxChunks {
        guardHit := true;
        break;
      }
      var chunk := NextChunk(c, ls, text, start, |chunks|, cuts);
      ChunksStep(c, text, cuts, chunks, start);
      chunks := chunks + [chunk];
      if chunk.charEnd >= |text| {
        break;
      }
      start := NextStart(c, start, chunk.charEnd);
    }
  }

  method ChunkContent(c: ChunkerConfig, ls: ListScanner, raw: string) returns (chunks: seq<Chunk>, degraded: bool)
    requires c.Valid()
    ensures chunks == Chunks(c, ls, raw)
    ensures degraded <==> Blank(raw) || Truncated(c, ls, Normalize(raw))
  {
    var text := Normalize(raw);
    NormalizeKeepsBlank(raw);
    if text == "" || Blank(text) {
      return [], true;
    }
    chunks, degraded := CutText(c, ls, text, CutsOf(c, ls, text));
  }

  // ----- structure of the cut -----

  /** One chunk is a non-empty, bounded slice of the text, and short of the minimum only at the end. */
  ghost predicate SlotOk(c: ChunkerConfig, text: string, k: Chunk) {
    && k.charStart < k.charEnd <= |text| && k.text == text[k.charStart..k.charEnd]
    && k.charCount == |k.text| <= c.max
    && (k.charEnd < |text| ==> |k.text| >= c.min)
  }

  /** Chunk `i` starts where the one before it says. */
  ghost predicate Seam(c: ChunkerConfig, text: string, chunks: seq<Chunk>, i: nat)
    requires c.Valid() && 0 < i < |chunks|
  {
    var a, b := chunks[i - 1], chunks[i];
    a.charEnd < |text| && b.charStart == NextStart(c, a.charStart, a.charEnd)
  }

  /** The invariants of a whole run. */
  ghost predicate WellCut(c: ChunkerConfig, text: string, chunks: seq<Chunk>)
    requires c.Valid()
  {
    && chunks != [] && chunks[0].charStart == 0
    && (forall i | 0 <= i < |chunks| :: chunks[i].index == chunks[i].order == i)
    && (forall k | k in chunks :: SlotOk(c, text, k))
    && (forall i | 0 < i < |chunks| :: Seam(c, text, chunks, i))
  }

  lemma {:induction false} ChunksSlots(c: ChunkerConfig, text: string, cuts: Cuts, start: nat, index: nat)
    requires c.Valid() && |cuts| == |text| && SoundCuts(c, cuts) && start < |text|
    ensures forall k | k in ChunksFrom(c, text, cuts, start, index) :: SlotOk(c, text, k)
    decreases |text| - start
  {
    if index < c.maxChunks && cuts[start].0 < |text| {
      ChunksSlots(c, text, cuts, NextStart(c, start, cuts[start].0), index + 1);
    }
  }

  lemma {:induction false} ChunksExtent(c: ChunkerConfig, text: string, cuts: Cuts, start: nat, index: nat)
    requires c.Valid() && |cuts| == |text| && SoundCuts(c, cuts) && start < |text| && index <= c.maxChunks
    ensures var chunks := ChunksFrom(c, text, cuts, start, index);
            && index + |chunks| <= c.maxChunks
            && (index < c.maxChunks ==> chunks != [] && chunks[0].charStart == start)
            && (chunks != [] && chunks[|chunks| - 1].charEnd < |text| ==> index + |chunks| == c.maxChunks)
    decreases |text| - start
  {
    if index < c.maxChunks && cuts[start].0 < |text| {
      ChunksExtent(c, text, cuts, NextStart(c, start, cuts[start].0), index + 1);
    }
  }

  lemma {:induction false} ChunksSeams(c: ChunkerConfig, text: string, cuts: Cuts, start: nat, index: nat, i: nat)
    requires c.Valid() && |cuts| == |text| && SoundCuts(c, cuts) && start < |text| && index <= c.maxChunks
    requires i < |ChunksFrom(c, text, cuts, start, index)|
    ensures var chunks := ChunksFrom(c, text, cuts, start, index);
            chunks[i].index == chunks[i].order == index + i && (i > 0 ==> Seam(c, text, chunks, i))
    decreases i
  {
    if i > 0 {
      var next := NextStart(c, start, cuts[start].0);
      var chunks, rest := ChunksFrom(c, text, cuts, start, index), ChunksFrom(c, text, cuts, next, index + 1);
      assert chunks[1..] == rest;
      assert chunks[i] == rest[i - 1];
      ChunksSeams(c, text, cuts, next, index + 1, i - 1);
      if i > 1 {
        assert chunks[i - 1] == rest[i - 2];
      } else {
        ChunksExtent(c, text, cuts, next, index + 1);
      }
    }
  }

  /** Every run of the chunker is well cut, and stops early only at the chunk guard. */
  lemma ChunksStructure(c: ChunkerConfig, ls: ListScanner, text: string)
    requires c.Valid() && text != ""
    ensures var chunks := TextChunks(c, ls, text);
            && WellCut(c, text, chunks)
            && |chunks| <= c.maxChunks
            && (Truncated(c, ls, text) ==> |chunks| == c.maxChunks)
  {
    var cuts := CutsOf(c, ls, text);
    var chunks := ChunksFrom(c, text, cuts, 0, 0);
    ChunksSlots(c, text, cuts, 0, 0);
    ChunksExtent(c, text, cuts, 0, 0);
    forall i | 0 <= i < |chunks|
      ensures chunks[i].index == chunks[i].order == i && (i > 0 ==> Seam(c, text, chunks, i))
    {
      ChunksSeams(c, text, cuts, 0, 0, i);
    }
  }

  /** Every chunk of a text too long for one chunk ends where, and for the reason that, the choice at its start says. */
  lemma {:induction false} ChunksFollowCuts(c: ChunkerConfig, text: string, cuts: Cuts, start: nat, index: nat, i: nat)
    requires c.Valid() && |cuts| == |text| && SoundCuts(c, cuts) && start < |text|
    requires i < |ChunksFrom(c, text, cuts, start, index)|
    ensures var k := ChunksFrom(c, text, cuts, start, index)[i];
            k.charStart < |text| && k == CutChunk(c, text, cuts, k.charStart, index + i)
    decreases i
  {
    if i > 0 { ChunksFollowCuts(c, text, cuts, NextStart(c, start, cuts[start].0), index + 1, i - 1); }
  }

  /** A text that fits one chunk is one chunk. */
  lemma ShortTextIsOneChunk(c: ChunkerConfig, ls: ListScanner, text: string)
    requires c.Valid() && 0 < |text| <= c.max
    ensures TextChunks(c, ls, text) == [Chunk(0, 0, text, 0, |text|, |text|,
                                          if |text| < c.min then ShortSingleChunk else SingleChunkWithinMax)]
  {
    var cuts := CutsOf(c, ls, text);
    assert cuts[0] == ChooseEnd(c, ls, text, 0);
    assert text[0..|text|] == text;
  }

  /** In a longer text every chunk ends as chosen at its start, with that reason, and the final one fits the maximum. */
  lemma LongTextIsCutAsChosen(c: ChunkerConfig, ls: ListScanner, text: string, i: nat)
    requires c.Valid() && |text| > c.max && i < |TextChunks(c, ls, text)|
    ensures var k := TextChunks(c, ls, text)[i];
            && k.charStart < |text| && (k.charEnd, k.reason) == ChooseEnd(c, ls, text, k.charStart)
            && (k.reason == FinalChunk <==> |text| - k.charStart <= c.max)
            && (k.reason == FinalChunk <==> k.charEnd == |text|)
  {
    var cuts := CutsOf(c, ls, text);
    ChunksFollowCuts(c, text, cuts, 0, 0, i);
    var start := TextChunks(c, ls, text)[i].charStart;
    assert cuts[start] == ChooseEnd(c, ls, text, start);
    FinalIff(c, ls, text, start);
  }

  lemma FinalIff(c: ChunkerConfig, ls: ListScanner, text: string, start: nat)
    requires c.Valid() && start < |text|
    ensures var (end, reason) := ChooseEnd(c, ls, text, start);
            && (reason == FinalChunk <==> |text| - start <= c.max)
            && (reason == FinalChunk <==> end == |text|)
  {
    if |text| - start > c.max {
      ReasonIsNotFinal(c, BoundaryCandidates(ls, text[start..start + c.max]), 1);
    }
  }

  lemma {:induction false} ReasonIsNotFinal(c: ChunkerConfig, found: seq<seq<nat>>, priority: nat)
    requires c.Valid() && 1 <= priority
    ensures ChooseFrom(c, found, priority).1 != FinalChunk
    decreases |found| - priority
  {
    if priority <= |found| { ReasonIsNotFinal(c, found, priority + 1); }
  }

  /** Starts strictly increase, and neighbours overlap by exactly the configured amount or not at all. */
  lemma SeamShape(c: ChunkerConfig, text: string, chunks: seq<Chunk>, i: nat)
    requires c.Valid() && WellCut(c, text, chunks) && 0 < i < |chunks|
    ensures var a, b := chunks[i - 1], chunks[i];
            && a.charStart < b.charStart <= a.charEnd
            && a.charEnd - b.charStart == (if |a.text| > c.overlap then c.overlap else 0)
  {
    assert Seam(c, text, chunks, i) && SlotOk(c, text, chunks[i - 1]);
  }

  /** The least distance between two chunk starts. */
  function Stride(c: ChunkerConfig): int {
    if c.min - c.overlap > 1 then c.min - c.overlap else 1
  }

  /** The number of chunks is at most 1 + (n - 1) / max(1, min - overlap). */
  lemma ChunkCountBound(c: ChunkerConfig, ls: ListScanner, text: string)
    requires c.Valid() && text != ""
    ensures 1 <= |TextChunks(c, ls, text)| <= 1 + (|text| - 1) / Stride(c)
  {
    ChunksStructure(c, ls, text);
    var chunks := TextChunks(c, ls, text);
    StartsSpread(c, text, chunks, |chunks| - 1);
    assert SlotOk(c, text, chunks[|chunks| - 1]);
    QuotientBound(|chunks| - 1, Stride(c), |text| - 1);
  }

  lemma QuotientBound(m: int, d: int, n: int)
    requires d > 0 && m * d <= n
    ensures m <= n / d
  {
    assert n < (n / d + 1) * d;
    if m > n / d { MulMonotone(n / d + 1, m, d); }
  }

  lemma MulMonotone(a: int, b: int, d: int)
    requires a <= b && d > 0
    ensures a * d <= b * d
  {
  }

  lemma {:induction false} StartsSpread(c: ChunkerConfig, text: string, chunks: seq<Chunk>, i: nat)
    requires c.Valid() && WellCut(c, text, chunks) && i < |chunks|
    ensures i * Stride(c) <= chunks[i].charStart
  {
    if i > 0 {
      StartsSpread(c, text, chunks, i - 1);
      SeamShape(c, text, chunks, i);
      assert SlotOk(c, text, chunks[i - 1]) && Seam(c, text, chunks, i);
      assert i * Stride(c) == (i - 1) * Stride(c) + Stride(c);
    }
  }
}
