/**
 The boundary scanners as left-to-right searches for greedy patterns.  The
 chunker's concrete scanners are defined by what surrounds a position; here they
 are shown to report exactly the ends of the matches that such a search finds.
 */
module ScannerSemantics {
  import opened LineEndings
  import opened Chunking

  predicate Spaces(w: string, from: int, to: int) {
    0 <= from <= to <= |w| && forall k | from <= k < to :: IsSpace(w[k])
  }

  predicate Newlines(w: string, from: int, to: int) {
    0 <= from <= to <= |w| && forall k | from <= k < to :: w[k] == '\n'
  }

  /**
   The stretch from `i` to `j` matches the pattern of that priority: a newline,
   any whitespace and newlines; one newline; a mark and whitespace, or a
   full-width mark; whitespace.
   */
  ghost predicate Matches(w: string, priority: int, i: int, j: int) {
    && 0 <= i < j <= |w|
    && match priority
       case 1 => w[i] == '\n' && exists m :: i < m < j && Spaces(w, i + 1, m) && Newlines(w, m, j)
       case 2 => w[i] == '\n' && j == i + 1
       case 3 => (w[i] in ['.', '!', '?'] && i + 1 < j && Spaces(w, i + 1, j))
                 || (w[i] in ['\U{3002}', '\U{FF01}', '\U{FF1F}'] && j == i + 1)
       case _ => Spaces(w, i, j)
  }

  datatype Span = Span(start: nat, end: nat)

  /** The first match at or after `from`, taken as long as possible. */
  ghost predicate FirstMatch(w: string, priority: int, from: nat, s: Span) {
    && from <= s.start && Matches(w, priority, s.start, s.end)
    && (forall j | s.end < j :: !Matches(w, priority, s.start, j))
    && (forall i, j | from <= i < s.start :: !Matches(w, priority, i, j))
  }

  /** All matches found from `from` on, each search starting where the last match ended. */
  ghost predicate Found(w: string, priority: int, from: nat, spans: seq<Span>)
    decreases |spans|
  {
    if spans == [] then forall i, j | from <= i :: !Matches(w, priority, i, j)
    else FirstMatch(w, priority, from, spans[0]) && Found(w, priority, spans[0].end, spans[1..])
  }

  function Ends(spans: seq<Span>): seq<nat> {
    seq(|spans|, k requires 0 <= k < |spans| => spans[k].end)
  }

  /** No match that started earlier reaches beyond `from`: a search ended there or begins. */
  predicate Clean(w: string, priority: int, from: nat)
    requires from <= |w|
  {
    match priority
    case 1 => from == 0 || !NewlineAfter(w, from)
    case 2 => true
    case 3 => from == 0 || from == |w| || !IsSpace(w[from]) || w[from - 1] in "\U{3002}\U{FF01}\U{FF1F}"
    case _ => true
  }

  // ----- runs of whitespace -----

  lemma {:induction false} NewlineBeforeIs(w: string, p: nat)
    requires p <= |w|
    ensures NewlineBefore(w, p) <==> exists m :: 0 <= m < p && w[m] == '\n' && Spaces(w, m, p)
  {
    if p > 0 {
      NewlineBeforeIs(w, p - 1);
      if m :| 0 <= m < p && w[m] == '\n' && Spaces(w, m, p) && m < p - 1 {
        assert Spaces(w, m, p - 1);
      }
      if IsSpace(w[p - 1]) && w[p - 1] != '\n' && NewlineBefore(w, p - 1) {
        var m :| 0 <= m < p - 1 && w[m] == '\n' && Spaces(w, m, p - 1);
        assert Spaces(w, m, p);
      }
      if w[p - 1] == '\n' { assert Spaces(w, p - 1, p); }
    }
  }

  lemma {:induction false} NewlineAfterIs(w: string, p: nat)
    requires p <= |w|
    ensures NewlineAfter(w, p) <==> exists q :: p <= q < |w| && w[q] == '\n' && Spaces(w, p, q)
    decreases |w| - p
  {
    if p < |w| {
      NewlineAfterIs(w, p + 1);
      if q :| p <= q < |w| && w[q] == '\n' && Spaces(w, p, q) && p < q {
        assert Spaces(w, p + 1, q);
      }
      if IsSpace(w[p]) && w[p] != '\n' && NewlineAfter(w, p + 1) {
        var q :| p + 1 <= q < |w| && w[q] == '\n' && Spaces(w, p + 1, q);
        assert Spaces(w, p, q);
      }
      if w[p] == '\n' { assert Spaces(w, p, p); }
    }
  }

  lemma {:induction false} MarkBeforeIs(w: string, p: nat)
    requires p <= |w|
    ensures MarkBefore(w, p) <==> exists m :: 0 <= m < p && w[m] in ['.', '!', '?'] && Spaces(w, m + 1, p)
  {
    if p > 0 {
      MarkBeforeIs(w, p - 1);
      if m :| 0 <= m < p && w[m] in ['.', '!', '?'] && Spaces(w, m + 1, p) && m < p - 1 {
        assert Spaces(w, m + 1, p - 1);
      }
      if IsSpace(w[p - 1]) && w[p - 1] !in ['.', '!', '?'] && MarkBefore(w, p - 1) {
        var m :| 0 <= m < p - 1 && w[m] in ['.', '!', '?'] && Spaces(w, m + 1, p - 1);
        assert Spaces(w, m + 1, p);
      }
      if w[p - 1] in ['.', '!', '?'] { assert Spaces(w, p, p); }
    }
  }

  lemma NewlineAfterAt(w: string, p: nat, q: nat)
    requires p <= q < |w| && w[q] == '\n' && Spaces(w, p, q)
    ensures NewlineAfter(w, p)
  {
    NewlineAfterIs(w, p);
  }

  // ----- one match -----

  lemma SpaceMatch(w: string, priority: int, i: nat, j: nat)
    requires priority > 3 && i < j && Spaces(w, i, j)
    ensures Matches(w, priority, i, j)
  {}

  lemma ParagraphMatch(w: string, i: nat, q: nat)
    requires i < q < |w| && w[i] == '\n' && w[q] == '\n' && Spaces(w, i, q)
    ensures Matches(w, 1, i, q + 1)
  {
    assert Spaces(w, i + 1, q) && Newlines(w, q, q + 1);
  }

  lemma SentenceMatch(w: string, m: nat, j: nat)
    requires m + 1 < j && Spaces(w, m + 1, j) && w[m] in ['.', '!', '?']
    ensures Matches(w, 3, m, j)
  {}

  /** The first match ends at a position its scanner reports, and none before it is reported. */
  lemma FirstMatchEnds(w: string, priority: int, from: nat, s: Span, p: int)
    requires 1 <= priority && from <= |w| && Clean(w, priority, from) && FirstMatch(w, priority, from, s)
    ensures MatchEnd(w, priority, s.end) && Clean(w, priority, s.end)
    ensures from < p < s.end ==> !MatchEnd(w, priority, p)
  {
    match priority {
      case 1 => ParagraphFirst(w, from, s, p);
      case 2 =>
        assert 0 < p <= |w| && w[p - 1] == '\n' ==> Matches(w, 2, p - 1, p);
      case 3 => SentenceFirst(w, from, s, p);
      case _ => SpaceFirst(w, priority, from, s, p);
    }
  }

  lemma SpaceFirst(w: string, priority: int, from: nat, s: Span, p: int)
    requires priority > 3 && FirstMatch(w, priority, from, s)
    ensures MatchEnd(w, priority, s.end)
    ensures from < p < s.end ==> !MatchEnd(w, priority, p)
  {
    if s.end < |w| && IsSpace(w[s.end]) { SpaceMatch(w, priority, s.start, s.end + 1); }
    if from < p <= s.start && IsSpace(w[p - 1]) { SpaceMatch(w, priority, p - 1, p); }
  }

  /** A paragraph match is whitespace from its first newline to its last. */
  lemma ParagraphShape(w: string, i: nat, j: nat)
    requires Matches(w, 1, i, j)
    ensures i < j - 1 && w[i] == '\n' && w[j - 1] == '\n' && Spaces(w, i, j)
  {
    var m :| i < m < j && Spaces(w, i + 1, m) && Newlines(w, m, j);
    assert forall k | m <= k < j :: IsSpace(w[k]);
  }

  lemma ParagraphFirst(w: string, from: nat, s: Span, p: int)
    requires from <= |w| && Clean(w, 1, from) && FirstMatch(w, 1, from, s)
    ensures MatchEnd(w, 1, s.end) && Clean(w, 1, s.end)
    ensures from < p < s.end ==> !MatchEnd(w, 1, p)
  {
    var i, j := s.start, s.end;
    ParagraphShape(w, i, j);
    assert Spaces(w, i, j - 1);
    NewlineBeforeIs(w, j - 1);
    NewlineAfterIs(w, j);
    if q :| j <= q < |w| && w[q] == '\n' && Spaces(w, j, q) {
      ParagraphMatch(w, i, q);
    }
    if from < p < j { NoEarlierParagraph(w, from, s, p); }
  }

  lemma NoEarlierParagraph(w: string, from: nat, s: Span, p: int)
    requires from <= |w| && Clean(w, 1, from) && FirstMatch(w, 1, from, s) && from < p < s.end
    ensures !MatchEnd(w, 1, p)
  {
    ParagraphShape(w, s.start, s.end);
    if NewlineEnd(w, p) && NewlineBefore(w, p - 1) {
      NewlineBeforeIs(w, p - 1);
      var m :| 0 <= m < p - 1 && w[m] == '\n' && Spaces(w, m, p - 1);
      if m < from {
        NewlineAfterAt(w, from, p - 1);
      } else {
        ParagraphMatch(w, m, p - 1);
        NewlineAfterAt(w, p, s.end - 1);
      }
    }
  }

  lemma SentenceFirst(w: string, from: nat, s: Span, p: int)
    requires from <= |w| && Clean(w, 3, from) && FirstMatch(w, 3, from, s)
    ensures MatchEnd(w, 3, s.end) && Clean(w, 3, s.end)
    ensures from < p < s.end ==> !MatchEnd(w, 3, p)
  {
    var i, j := s.start, s.end;
    if w[i] in ['.', '!', '?'] {
      MarkBeforeIs(w, j - 1);
      assert Spaces(w, i + 1, j - 1);
      if j < |w| && IsSpace(w[j]) { SentenceMatch(w, i, j + 1); }
    }
    if from < p < j { NoEarlierSentence(w, from, s, p); }
  }

  lemma NoEarlierSentence(w: string, from: nat, s: Span, p: int)
    requires from <= |w| && Clean(w, 3, from) && FirstMatch(w, 3, from, s) && from < p < s.end
    ensures !MatchEnd(w, 3, p)
  {
    if w[p - 1] in ['\U{3002}', '\U{FF01}', '\U{FF1F}'] {
      FullWidthMatch(w, p);
    } else if SpaceRunEnd(w, p) && MarkBefore(w, p - 1) {
      MarkBeforeIs(w, p - 1);
      var m :| 0 <= m < p - 1 && w[m] in ['.', '!', '?'] && Spaces(w, m + 1, p - 1);
      if m >= from { SentenceMatch(w, m, p); }
    }
  }

  lemma FullWidthMatch(w: string, p: nat)
    requires 0 < p <= |w| && w[p - 1] in ['\U{3002}', '\U{FF01}', '\U{FF1F}']
    ensures Matches(w, 3, p - 1, p)
  {}

  // ----- the whole search -----

  lemma {:induction false} MatchEndsSkip(w: string, priority: int, from: nat, end: nat)
    requires from < end <= |w| && MatchEnd(w, priority, end)
    requires forall p | from < p < end :: !MatchEnd(w, priority, p)
    ensures MatchEnds(w, priority, from) == [end] + MatchEnds(w, priority, end)
    decreases end - from
  {
    if from + 1 < end { MatchEndsSkip(w, priority, from + 1, end); }
  }

  lemma {:induction false} NothingReported(w: string, priority: int, from: nat)
    requires forall p | from < p <= |w| :: !MatchEnd(w, priority, p)
    ensures MatchEnds(w, priority, from) == []
    decreases |w| - from
  {
    if from < |w| { NothingReported(w, priority, from + 1); }
  }

  /** Where a scanner reports an end, a match ends. */
  lemma EndHasMatch(w: string, priority: int, from: nat, p: int)
    requires 1 <= priority && from <= |w| && Clean(w, priority, from) && from < p && MatchEnd(w, priority, p)
    ensures exists i :: from <= i && Matches(w, priority, i, p)
  {
    match priority {
      case 1 =>
        NewlineBeforeIs(w, p - 1);
        var m :| 0 <= m < p - 1 && w[m] == '\n' && Spaces(w, m, p - 1);
        ParagraphMatch(w, m, p - 1);
        if m < from { NewlineAfterAt(w, from, p - 1); }
      case 2 => assert Matches(w, 2, p - 1, p);
      case 3 =>
        if w[p - 1] in ['\U{3002}', '\U{FF01}', '\U{FF1F}'] {
          assert Matches(w, 3, p - 1, p);
        } else {
          MarkBeforeIs(w, p - 1);
          var m :| 0 <= m < p - 1 && w[m] in ['.', '!', '?'] && Spaces(w, m + 1, p - 1);
          SentenceMatch(w, m, p);
        }
      case _ => assert Matches(w, priority, p - 1, p);
    }
  }

  lemma {:induction false} FoundFrom(w: string, priority: int, from: nat, spans: seq<Span>)
    requires 1 <= priority && from <= |w| && Clean(w, priority, from) && Found(w, priority, from, spans)
    ensures Ends(spans) == MatchEnds(w, priority, from)
    decreases |spans|
  {
    if spans == [] {
      forall p | from < p <= |w| ensures !MatchEnd(w, priority, p) {
        if MatchEnd(w, priority, p) { EndHasMatch(w, priority, from, p); }
      }
      NothingReported(w, priority, from);
    } else {
      var s := spans[0];
      forall p | from < p < s.end ensures !MatchEnd(w, priority, p) { FirstMatchEnds(w, priority, from, s, p); }
      FirstMatchEnds(w, priority, from, s, from);
      MatchEndsSkip(w, priority, from, s.end);
      FoundFrom(w, priority, s.end, spans[1..]);
      assert Ends(spans) == [s.end] + Ends(spans[1..]);
    }
  }

  lemma {:induction false} LongestFrom(w: string, priority: int, i: nat, j: nat) returns (end: nat)
    requires Matches(w, priority, i, j)
    ensures Matches(w, priority, i, end) && forall k | end < k :: !Matches(w, priority, i, k)
    decreases |w| - j
  {
    end := j;
    if k :| j < k && Matches(w, priority, i, k) {
      end := LongestFrom(w, priority, i, k);
    }
  }

  lemma {:induction false} FirstExists(w: string, priority: int, from: nat, i: nat, j: nat) returns (s: Span)
    requires from <= i && Matches(w, priority, i, j)
    ensures FirstMatch(w, priority, from, s)
    decreases i
  {
    if i', j' :| from <= i' < i && Matches(w, priority, i', j') {
      s := FirstExists(w, priority, from, i', j');
    } else {
      var end := LongestFrom(w, priority, i, j);
      s := Span(i, end);
    }
  }

  /** Every search comes to an end. */
  lemma {:induction false} SearchEnds(w: string, priority: int, from: nat) returns (spans: seq<Span>)
    requires from <= |w|
    ensures Found(w, priority, from, spans)
    decreases |w| - from
  {
    spans := [];
    if i, j :| from <= i && Matches(w, priority, i, j) {
      var s := FirstExists(w, priority, from, i, j);
      var rest := SearchEnds(w, priority, s.end);
      spans := [s] + rest;
      assert spans[1..] == rest;
    }
  }

  /** The positions a scanner reports are exactly the ends of the matches a search of the window finds, in order. */
  lemma ScannersAreSearches(ls: ListScanner, w: string, priority: int)
    requires priority in {1, 2, 3, 5}
    ensures exists spans :: Found(w, priority, 0, spans) && BoundaryCandidates(ls, w)[priority - 1] == Ends(spans)
    ensures BoundaryCandidates(ls, w)[3] == ls(w)
  {
    var spans := SearchEnds(w, priority, 0);
    FoundFrom(w, priority, 0, spans);
  }
}
