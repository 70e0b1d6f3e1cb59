/**
 The chunk table and the whole trip of a submitted body: chunk it, persist the
 rows, read them back in any order, and reconstruct against the digest of the
 body as submitted.
 */
module BodyStore {
  import opened Wrappers
  import opened LineEndings
  import opened Chunking
  import opened CanonicalBody
  import opened RoundTrip
  import opened RoundTripByText

  type ContentId = string

  datatype ChunkRow = ChunkRow(contentId: ContentId, index: int, text: string)

  // ----- the table -----

  /** The rows of other contents, in table order. */
  function Others(rows: seq<ChunkRow>, id: ContentId): seq<ChunkRow> {
    if rows == [] then []
    else (if rows[0].contentId != id then [rows[0]] else []) + Others(rows[1..], id)
  }

  function ReadRow(row: ChunkRow, id: ContentId): seq<PersistedChunk> {
    if row.contentId == id then [PersistedChunk(row.index, row.text)] else []
  }

  /** The rows of one content as the reconstruction reads them. */
  function RowsFor(rows: seq<ChunkRow>, id: ContentId): seq<PersistedChunk> {
    if rows == [] then []
    else ReadRow(rows[0], id) + RowsFor(rows[1..], id)
  }

  /** Everything but the rows of one content at one index. */
  function WithoutIndex(rows: seq<ChunkRow>, id: ContentId, index: int): seq<ChunkRow> {
    if rows == [] then []
    else
      var kept := if rows[0].contentId == id && rows[0].index == index then [] else [rows[0]];
      kept + WithoutIndex(rows[1..], id, index)
  }

  function InsertedRow(id: ContentId, p: PersistedChunk): seq<ChunkRow> {
    if p.text != "" then [ChunkRow(id, p.index, p.text)] else []
  }

  /** The rows inserted for a list of pairs: pairs with empty text are skipped. */
  function Inserted(id: ContentId, pairs: seq<PersistedChunk>): seq<ChunkRow> {
    if pairs == [] then []
    else InsertedRow(id, pairs[0]) + Inserted(id, pairs[1..])
  }

  lemma {:induction false} InsertedConcat(id: ContentId, a: seq<PersistedChunk>, b: seq<PersistedChunk>)
    ensures Inserted(id, a + b) == Inserted(id, a) + Inserted(id, b)
  {
    if a == [] {
      assert a + b == b;
    } else {
      InsertedConcat(id, a[1..], b);
      assert (a + b)[1..] == a[1..] + b;
      Regroup(InsertedRow(id, a[0]), Inserted(id, a[1..]), Inserted(id, b));
    }
  }

  lemma {:induction false} RowsForConcat(a: seq<ChunkRow>, b: seq<ChunkRow>, id: ContentId)
    ensures RowsFor(a + b, id) == RowsFor(a, id) + RowsFor(b, id)
  {
    if a == [] {
      assert a + b == b;
    } else {
      RowsForConcat(a[1..], b, id);
      assert (a + b)[1..] == a[1..] + b;
      Regroup(ReadRow(a[0], id), RowsFor(a[1..], id), RowsFor(b, id));
    }
  }

  lemma {:induction false} RowsForOthers(rows: seq<ChunkRow>, id: ContentId, q: ContentId)
    ensures RowsFor(Others(rows, id), q) == if q == id then [] else RowsFor(rows, q)
  {
    if rows != [] {
      RowsForOthers(rows[1..], id, q);
      RowsForConcat(if rows[0].contentId != id then [rows[0]] else [], Others(rows[1..], id), q);
    }
  }

  lemma {:induction false} RowsForInserted(id: ContentId, pairs: seq<PersistedChunk>, q: ContentId)
    ensures q != id ==> RowsFor(Inserted(id, pairs), q) == []
    ensures q == id && (forall p | p in pairs :: p.text != "") ==> RowsFor(Inserted(id, pairs), q) == pairs
  {
    if pairs != [] {
      RowsForInserted(id, pairs[1..], q);
      RowsForConcat(InsertedRow(id, pairs[0]), Inserted(id, pairs[1..]), q);
    }
  }

  lemma InsertedSnoc(id: ContentId, pairs: seq<PersistedChunk>, i: nat)
    requires i < |pairs|
    ensures Inserted(id, pairs[..i + 1]) == Inserted(id, pairs[..i]) + InsertedRow(id, pairs[i])
  {
    InsertedConcat(id, pairs[..i], [pairs[i]]);
    InsertedOne(id, pairs[i]);
    assert pairs[..i + 1] == pairs[..i] + [pairs[i]];
  }

  class ChunkTable {
    var rows: seq<ChunkRow>

    constructor ()
      ensures rows == []
    {
      rows := [];
    }

    /** Full replace: delete every row of the content, then insert the non-empty pairs in order. */
    method PersistMultiChunks(id: ContentId, pairs: seq<PersistedChunk>) returns (written: nat)
      modifies this
      ensures rows == Others(old(rows), id) + Inserted(id, pairs)
      ensures written == |Inserted(id, pairs)|
    {
      rows := Others(rows, id);
      written := 0;
      ghost var others := rows;
      for i := 0 to |pairs|
        invariant rows == others + Inserted(id, pairs[..i])
        invariant written == |Inserted(id, pairs[..i])|
      {
        var PersistedChunk(index, text) := pairs[i];
        InsertedSnoc(id, pairs, i);
        Regroup(others, Inserted(id, pairs[..i]), InsertedRow(id, pairs[i]));
        if text == "" {
          continue;
        }
        rows := rows + [ChunkRow(id, index, text)];
        written := written + 1;
      }
      assert pairs[..|pairs|] == pairs;
    }

    /** Index-0 replace: delete the content's row 0, then insert the text unless it is missing or empty. */
    method PersistBodyChunks(id: ContentId, text: string) returns (written: bool)
      modifies this
      ensures rows == WithoutIndex(old(rows), id, 0) + Inserted(id, [PersistedChunk(0, text)])
      ensures written <==> text != ""
    {
      rows := WithoutIndex(rows, id, 0);
      InsertedOne(id, PersistedChunk(0, text));
      if text == "" {
        return false;
      }
      rows := rows + [ChunkRow(id, 0, text)];
      return true;
    }

    /** The save path: chunk the body and replace its rows, falling back to the raw body when there are no chunks. */
    method SaveBody(id: ContentId, c: ChunkerConfig, ls: ListScanner, body: string)
      requires c.Valid()
      modifies this
      ensures rows == Others(old(rows), id) + Inserted(id, SavedPairs(c, ls, body))
    {
      var chunks, _ := ChunkContent(c, ls, body);
      var pairs: seq<PersistedChunk> := if chunks != [] then seq(|chunks|,
          i requires 0 <= i < |chunks| => PersistedChunk(chunks[i].index, chunks[i].text))
          else [PersistedChunk(0, body)];
      assert pairs == SavedPairs(c, ls, body);
      var _ := PersistMultiChunks(id, pairs);
    }
  }

  function SavedPairs(c: ChunkerConfig, ls: ListScanner, body: string): seq<PersistedChunk>
    requires c.Valid()
  {
    var chunks := Chunks(c, ls, body);
    if chunks != [] then seq(|chunks|, i requires 0 <= i < |chunks| => PersistedChunk(chunks[i].index, chunks[i].text))
    else [PersistedChunk(0, body)]
  }

  /** What one full replace does to every content's rows: its own are replaced, all others stay. */
  lemma ReplaceIsLocal(rows: seq<ChunkRow>, id: ContentId, pairs: seq<PersistedChunk>, q: ContentId)
    requires forall p | p in pairs :: p.text != ""
    ensures RowsFor(Others(rows, id) + Inserted(id, pairs), q) == if q == id then pairs else RowsFor(rows, q)
  {
    RowsForConcat(Others(rows, id), Inserted(id, pairs), q);
    RowsForOthers(rows, id, q);
    RowsForInserted(id, pairs, q);
  }

  // ----- the index-0 replace -----

  function DropIndex(ps: seq<PersistedChunk>, index: int): seq<PersistedChunk> {
    if ps == [] then [] else (if ps[0].index == index then [] else [ps[0]]) + DropIndex(ps[1..], index)
  }

  lemma {:induction false} RowsForWithoutIndex(rows: seq<ChunkRow>, id: ContentId, index: int)
    ensures RowsFor(WithoutIndex(rows, id, index), id) == DropIndex(RowsFor(rows, id), index)
  {
    if rows != [] {
      RowsForWithoutIndex(rows[1..], id, index);
      var rest := RowsFor(rows[1..], id);
      var first := if rows[0].contentId == id && rows[0].index == index then [] else [rows[0]];
      RowsForConcat(first, WithoutIndex(rows[1..], id, index), id);
      if rows[0].contentId == id {
        assert ([PersistedChunk(rows[0].index, rows[0].text)] + rest)[1..] == rest;
      } else {
        assert RowsFor(rows, id) == rest;
      }
    }
  }

  /** An index-0 replace leaves every other content's rows as they were. */
  lemma {:induction false} RowsForWithoutIndexOther(rows: seq<ChunkRow>, id: ContentId, index: int, q: ContentId)
    requires q != id
    ensures RowsFor(WithoutIndex(rows, id, index), q) == RowsFor(rows, q)
  {
    if rows != [] {
      RowsForWithoutIndexOther(rows[1..], id, index, q);
      var first := if rows[0].contentId == id && rows[0].index == index then [] else [rows[0]];
      RowsForConcat(first, WithoutIndex(rows[1..], id, index), q);
      assert [rows[0]][1..] == [] && RowsFor([rows[0]], q) == ReadRow(rows[0], q);
    }
  }

  /**
   What one index-0 replace does to every content's rows: its own row 0 goes and
   the new text, unless empty, comes last; all others stay.
   */
  lemma IndexZeroReplaceIsLocal(rows: seq<ChunkRow>, id: ContentId, text: string, q: ContentId)
    ensures var after := RowsFor(WithoutIndex(rows, id, 0) + Inserted(id, [PersistedChunk(0, text)]), q);
            if q != id then after == RowsFor(rows, q)
            else
              && (forall p | p in RowsFor(rows, id) && p.index != 0 :: p in after)
              && (forall p | p in after :: p == PersistedChunk(0, text) || (p in RowsFor(rows, id) && p.index != 0))
              && (text != "" <==> exists p :: p in after && p.index == 0)
              && (text != "" ==> after[|after| - 1] == PersistedChunk(0, text))
  {
    var new' := PersistedChunk(0, text);
    RowsForConcat(WithoutIndex(rows, id, 0), Inserted(id, [new']), q);
    InsertedOne(id, new');
    if q != id {
      RowsForWithoutIndexOther(rows, id, 0, q);
      RowsForInserted(id, [new'], q);
    } else {
      RowsForWithoutIndex(rows, id, 0);
      forall p ensures p in DropIndex(RowsFor(rows, id), 0) <==> p in RowsFor(rows, id) && p.index != 0 {
        DropIndexMember(RowsFor(rows, id), 0, p);
      }
      if text != "" { RowsForInserted(id, [new'], id); }
    }
  }

  lemma {:induction false} DropIndexMember(ps: seq<PersistedChunk>, index: int, p: PersistedChunk)
    ensures p in DropIndex(ps, index) <==> p in ps && p.index != index
  {
    if ps != [] {
      DropIndexMember(ps[1..], index, p);
      assert ps == [ps[0]] + ps[1..];
    }
  }

  lemma IndicesCons(p: PersistedChunk, ps: seq<PersistedChunk>)
    ensures multiset(Indices([p] + ps)) == multiset{p.index} + multiset(Indices(ps))
  {
    assert Indices([p] + ps) == [p.index] + Indices(ps);
  }

  lemma CountCons(p: PersistedChunk, ps: seq<PersistedChunk>, v: int)
    ensures multiset(Indices([p] + ps))[v] == (if v == p.index then 1 else 0) + multiset(Indices(ps))[v]
  {
    IndicesCons(p, ps);
  }

  lemma {:induction false} DropIndexIndices(ps: seq<PersistedChunk>, index: int, v: int)
    ensures multiset(Indices(DropIndex(ps, index)))[v] == if v == index then 0 else multiset(Indices(ps))[v]
  {
    if ps != [] {
      var rest := DropIndex(ps[1..], index);
      DropIndexIndices(ps[1..], index, v);
      CountCons(ps[0], ps[1..], v);
      assert ps == [ps[0]] + ps[1..];
      if ps[0].index == index {
        assert DropIndex(ps, index) == rest;
      } else {
        CountCons(ps[0], rest, v);
      }
    }
  }

  lemma {:induction false} RangeHoldsZeroOnce(n: nat)
    ensures multiset(Range(n))[0] == if n == 0 then 0 else 1
  {
    if n > 0 {
      RangeHoldsZeroOnce(n - 1);
      assert Range(n) == Range(n - 1) + [n - 1];
    }
  }

  /** A sound, non-empty row set holds index 0 once. */
  lemma DropZero(ps: seq<PersistedChunk>)
    requires ValidateIndexSet(ps) == None && ps != []
    ensures multiset(Indices(ps)) == multiset(Indices(DropIndex(ps, 0))) + multiset{0}
    ensures |DropIndex(ps, 0)| == |ps| - 1
    ensures multiset(Indices(DropIndex(ps, 0)))[0] == 0
  {
    IndexCheckIsPermutation(ps);
    RangeHoldsZeroOnce(|ps|);
    var kept := DropIndex(ps, 0);
    forall v ensures multiset(Indices(ps))[v] == (multiset(Indices(kept)) + multiset{0})[v] {
      DropIndexIndices(ps, 0, v);
    }
    DropIndexIndices(ps, 0, 0);
    assert multiset(Indices(ps)) == multiset(Indices(kept)) + multiset{0};
    assert |Indices(ps)| == |multiset(Indices(ps))| == |multiset(Indices(kept))| + 1 == |Indices(kept)| + 1;
  }

  lemma ReplaceZero(ps: seq<PersistedChunk>, text: string)
    requires ValidateIndexSet(ps) == None
    ensures ValidateIndexSet([PersistedChunk(0, text)] + DropIndex(ps, 0)) == None
  {
    var after := [PersistedChunk(0, text)] + DropIndex(ps, 0);
    IndexCheckIsPermutation(after);
    if ps == [] {
      assert Indices(after) == Range(1);
    } else {
      DropZero(ps);
      IndicesCons(PersistedChunk(0, text), DropIndex(ps, 0));
      IndexCheckIsPermutation(ps);
    }
  }

  lemma RemoveZero(ps: seq<PersistedChunk>)
    requires ValidateIndexSet(ps) == None
    ensures ValidateIndexSet(DropIndex(ps, 0)) == None <==> |ps| <= 1
  {
    var kept := DropIndex(ps, 0);
    if ps != [] {
      DropZero(ps);
      IndexCheckIsPermutation(kept);
      RangeHoldsZeroOnce(|kept|);
    }
  }

  /**
   Replacing row 0 of a sound row set keeps it sound exactly when the new text is not empty or there
   was no other row.
   */
  lemma IndexZeroReplaceKeepsCheck(rows: seq<ChunkRow>, id: ContentId, text: string)
    requires ValidateIndexSet(RowsFor(rows, id)) == None
    ensures var after := RowsFor(WithoutIndex(rows, id, 0) + Inserted(id, [PersistedChunk(0, text)]), id);
            ValidateIndexSet(after) == None <==> text != "" || |RowsFor(rows, id)| <= 1
  {
    var p := PersistedChunk(0, text);
    RowsForConcat(WithoutIndex(rows, id, 0), Inserted(id, [p]), id);
    RowsForWithoutIndex(rows, id, 0);
    var kept := DropIndex(RowsFor(rows, id), 0);
    InsertedOne(id, p);
    if text != "" {
      RowsForInserted(id, [p], id);
      ReplaceZero(RowsFor(rows, id), text);
      assert multiset(kept + [p]) == multiset([p] + kept);
      SameIndexCheck(kept + [p], [p] + kept);
    } else {
      RemoveZero(RowsFor(rows, id));
      assert kept + [] == kept;
    }
  }

  lemma InsertedOne(id: ContentId, p: PersistedChunk)
    ensures Inserted(id, [p]) == InsertedRow(id, p)
  {
    assert [p][1..] == [];
  }

  // ----- the saved rows of a body -----

  /** The rows reconstruction finds after a body was saved. */
  function SavedRows(c: ChunkerConfig, ls: ListScanner, body: string): seq<PersistedChunk>
    requires c.Valid()
  {
    if body == "" then [] else SavedPairs(c, ls, body)
  }

  lemma SaveThenRead(c: ChunkerConfig, ls: ListScanner, rows: seq<ChunkRow>, id: ContentId, body: string, q: ContentId)
    requires c.Valid()
    ensures RowsFor(Others(rows, id) + Inserted(id, SavedPairs(c, ls, body)), q) ==
            if q == id then SavedRows(c, ls, body) else RowsFor(rows, q)
  {
    var text, pairs := Normalize(body), SavedPairs(c, ls, body);
    NormalizeKeepsBlank(body);
    if body == "" {
      assert Inserted(id, pairs) == [];
      RowsForConcat(Others(rows, id), [], q);
      RowsForOthers(rows, id, q);
    } else {
      if !Blank(body) { ChunkPairsNotEmpty(c, ls, body); }
      ReplaceIsLocal(rows, id, pairs, q);
    }
  }

  lemma ChunkPairsNotEmpty(c: ChunkerConfig, ls: ListScanner, body: string)
    requires c.Valid() && !Blank(body)
    ensures var pairs, chunks := SavedPairs(c, ls, body), TextChunks(c, ls, Normalize(body));
            && Normalize(body) != "" && |pairs| == |chunks|
            && (forall i | 0 <= i < |pairs| :: pairs[i] == PersistedChunk(i, chunks[i].text))
            && (forall p | p in pairs :: p.text != "")
  {
    NormalizeKeepsBlank(body);
    var text := Normalize(body);
    ChunksStructure(c, ls, text);
    var chunks := TextChunks(c, ls, text);
    forall i | 0 <= i < |chunks| ensures chunks[i].text != "" { assert SlotOk(c, text, chunks[i]); }
  }

  /** Saved rows always pass the index check. */
  lemma SavedRowsPassIndexCheck(c: ChunkerConfig, ls: ListScanner, body: string)
    requires c.Valid()
    ensures ValidateIndexSet(SavedRows(c, ls, body)) == None
  {
    var rows := SavedRows(c, ls, body);
    NormalizeKeepsBlank(body);
    if !Blank(body) { ChunkPairsNotEmpty(c, ls, body); }
    assert Indices(rows) == Range(|rows|);
    IndexCheckIsPermutation(rows);
  }

  /** Rows that stand at their own index are already sorted. */
  lemma NumberedRowsSorted(rows: seq<PersistedChunk>)
    requires ValidateIndexSet(rows) == None && rows != [] && forall k | 0 <= k < |rows| :: rows[k].index == k
    ensures ByIndex(rows) == rows
  {
    SortedRowsAt(rows, 0);
    forall k | 0 <= k < |rows| ensures ByIndex(rows)[k] == rows[k] {
      SortedRowsAt(rows, k);
    }
  }

  lemma BlankPairs(c: ChunkerConfig, ls: ListScanner, body: string)
    requires c.Valid() && Blank(body)
    ensures SavedPairs(c, ls, body) == [PersistedChunk(0, body)]
  {
    NormalizeKeepsBlank(body);
  }

  lemma SameTexts(rows: seq<PersistedChunk>, chunks: seq<Chunk>)
    requires |rows| == |chunks| && forall i | 0 <= i < |rows| :: rows[i] == PersistedChunk(i, chunks[i].text)
    ensures TextsOf(rows) == Texts(chunks)
  {}

  lemma SavedCandidate(c: ChunkerConfig, ls: ListScanner, body: string)
    requires c.Valid() && body != ""
    ensures Candidate(SavedRows(c, ls, body), c.overlap) ==
            if Blank(body) then body else Stitch(Texts(TextChunks(c, ls, Normalize(body))), c.overlap)
  {
    var rows := SavedRows(c, ls, body);
    SavedRowsPassIndexCheck(c, ls, body);
    if Blank(body) {
      BlankPairs(c, ls, body);
      NumberedRowsSorted(rows);
      assert TextsOf(rows) == [body];
    } else {
      ChunkPairsNotEmpty(c, ls, body);
      NumberedRowsSorted(rows);
      SameTexts(rows, TextChunks(c, ls, Normalize(body)));
    }
  }

  // ----- the end-to-end theorems -----

  lemma {:induction false} StitchHasNoCr(result: string, texts: seq<string>, overlap: int)
    requires '\r' !in result && forall t | t in texts :: '\r' !in t
    ensures '\r' !in StitchFrom(result, texts, overlap)
    decreases |texts|
  {
    if texts != [] {
      assert texts[0] in texts;
      StitchHasNoCr(Join(result, texts[0], overlap), texts[1..], overlap);
    }
  }

  /** Nothing rebuilt from the chunks of a body that is not blank holds a CR. */
  lemma CandidateHasNoCr(c: ChunkerConfig, ls: ListScanner, body: string)
    requires c.Valid() && !Blank(body)
    ensures '\r' !in Candidate(SavedRows(c, ls, body), c.overlap)
  {
    var text := Normalize(body);
    NormalizeKeepsBlank(body);
    NormalizeRemovesCr(body);
    ChunksStructure(c, ls, text);
    var chunks := TextChunks(c, ls, text);
    forall i | 0 <= i < |chunks| ensures '\r' !in chunks[i].text { assert SlotOk(c, text, chunks[i]); }
    SavedCandidate(c, ls, body);
    StitchHasNoCr(Texts(chunks)[0], Texts(chunks)[1..], c.overlap);
  }

  /**
   A saved body verifies on the way back if and only if it is blank, or it has
   no CR and each stretch stitching appends comes again at the distance of its
   drift, which is made up in the end.  With a minimum of at least the overlap
   the latter means that it was not cut short and has no echoed seam.
   */
  lemma SavedBodyVerifies(c: ChunkerConfig, ls: ListScanner, body: string, maxChunksGuard: int, hash: Hash)
    requires c.Valid() && CollisionFree(hash)
    ensures var r := Reconstruct(SavedRows(c, ls, body), Some(hash(body)), c.overlap, maxChunksGuard, hash);
            && (r.candidate.Some? ==> r.candidate.value == body)
            && (r.fidelity == HashVerified <==>
                  Blank(body) || ('\r' !in body && Recovers(c, body, TextChunks(c, ls, body))))
            && (c.min >= c.overlap ==>
                  (r.fidelity == HashVerified <==>
                  Blank(body) || ('\r' !in body && !Truncated(c, ls, body)
                      && NoEchoes(c, body, TextChunks(c, ls, body)))))
  {
    OnlyTheStoredBody(SavedRows(c, ls, body), body, c.overlap, maxChunksGuard, hash);
    SavedRowsPassIndexCheck(c, ls, body);
    if body != "" {
      SavedCandidate(c, ls, body);
      if !Blank(body) {
        NormalizeRemovesCr(body);
        if '\r' in body {
          CandidateHasNoCr(c, ls, body);
        } else {
          RoundTripDependsOnDrift(c, ls, body);
        }
      }
    }
  }

  /** What the diagnostic may say of an unverified candidate without CR. */
  lemma FlagMeansRestored(body: string, candidate: string)
    requires '\r' !in candidate && candidate != body
    ensures ToCrlf(candidate) == body || ToCr(candidate) == body <==>
              '\r' in body && candidate == Normalize(body) && (UniformCrlf(body) || UniformCr(body))
  {
    VariantsNormalizeBack(candidate);
    NormalizeRemovesCr(body);
    CrlfRestores(body);
    CrRestores(body);
  }

  /**
   The line-ending diagnostic of a saved body, exactly: it is true if and only
   if the body is not blank, has a CR, its normalised text is stitched back, and
   its line endings are uniformly CRLF or uniformly CR.  So it is false for every
   verified body and for every body without CR.
   */
  lemma DiagnosticIsExact(c: ChunkerConfig, ls: ListScanner, body: string, maxChunksGuard: int, hash: Hash)
    requires c.Valid() && CollisionFree(hash)
    ensures var d := Diagnose(SavedRows(c, ls, body), Some(hash(body)), c.overlap, maxChunksGuard, hash);
            && (d.possibleLineEndingNormalization <==>
                  && !Blank(body) && '\r' in body && (UniformCrlf(body) || UniformCr(body))
                  && var text := Normalize(body); text != "" && Recovers(c, text, TextChunks(c, ls, text)))
            && (d.possibleLineEndingNormalization ==>
                  d.fidelity == Unverifiable && d.candidate == Some(Normalize(body)))
            && (d.fidelity == HashVerified ==> !d.possibleLineEndingNormalization)
  {
    SavedBodyVerifies(c, ls, body, maxChunksGuard, hash);
    if !Blank(body) {
      var text, candidate := Normalize(body), Candidate(SavedRows(c, ls, body), c.overlap);
      NormalizeKeepsBlank(body);
      NormalizeRemovesCr(body);
      SavedRowsPassIndexCheck(c, ls, body);
      ChunkPairsNotEmpty(c, ls, body);
      SavedCandidate(c, ls, body);
      CandidateHasNoCr(c, ls, body);
      RoundTripDependsOnDrift(c, ls, text);
      if candidate != body { FlagMeansRestored(body, candidate); }
    }
  }
}
