/** Where each chunk goes in the output book: the nested loops of
    `create_processed_epub` visit chapter 1 part 1, chapter 1 part 2, ...,
    then chapter 2, and so on. The plan records, for each page in order,
    its chapter and part numbers and the chunk it shows; the strings the
    page is made of are built from it separately. */
module BookPlan {
  import opened Pages

  /** The pages of chapter `i`: part `j + 1` shows `chunks[j]`. */
  function ChapterPlan(i: nat, chunks: seq<string>): seq<Page> {
    if chunks == [] then []
    else ChapterPlan(i, chunks[..|chunks| - 1]) + [Page(i, |chunks|, chunks[|chunks| - 1])]
  }

  /** The pages of all chapters, chapter 1 first. */
  function Plan(chapters: seq<seq<string>>): seq<Page> {
    if chapters == [] then []
    else Plan(chapters[..|chapters| - 1]) + ChapterPlan(|chapters|, chapters[|chapters| - 1])
  }

  /** The total number of chunks. */
  function TotalParts(chapters: seq<seq<string>>): nat {
    if chapters == [] then 0
    else TotalParts(chapters[..|chapters| - 1]) + |chapters[|chapters| - 1]|
  }

  /** The number of pages before chapter `i` (counted from 0). */
  function Offset(chapters: seq<seq<string>>, i: nat): nat
    requires i <= |chapters|
  {
    TotalParts(chapters[..i])
  }

  /** All chunks, chapter after chapter. */
  function Flatten(chapters: seq<seq<string>>): seq<string> {
    if chapters == [] then []
    else Flatten(chapters[..|chapters| - 1]) + chapters[|chapters| - 1]
  }

  /** The chunks shown by a run of pages, in page order. */
  function Chunks(pages: seq<Page>): seq<string> {
    if pages == [] then []
    else Chunks(pages[..|pages| - 1]) + [pages[|pages| - 1].chunk]
  }

  /** The chapter and part (counted from 0) that page `k` belongs to. */
  function Locate(chapters: seq<seq<string>>, k: nat): (r: (nat, nat))
    requires k < TotalParts(chapters)
    ensures r.0 < |chapters| && r.1 < |chapters[r.0]|
    ensures Offset(chapters, r.0) + r.1 == k
  {
    var init := chapters[..|chapters| - 1];
    if k < TotalParts(init) then
      var r := Locate(init, k);
      assert init[..r.0] == chapters[..r.0];
      r
    else
      assert chapters[..|chapters| - 1] == init;
      (|chapters| - 1, k - TotalParts(init))
  }

  /** Part `j + 1` of chapter `i` shows `chunks[j]`, and there is one part
      per chunk. */
  lemma {:induction false} ChapterPlanAt(i: nat, chunks: seq<string>, j: nat)
    requires j < |chunks|
    ensures |ChapterPlan(i, chunks)| == |chunks|
    ensures ChapterPlan(i, chunks)[j] == Page(i, j + 1, chunks[j])
  {
    var init := chunks[..|chunks| - 1];
    if j < |init| {
      ChapterPlanAt(i, init, j);
    } else if init != [] {
      ChapterPlanAt(i, init, 0);
    }
  }

  /** One page per chunk. */
  lemma {:induction false} PlanLength(chapters: seq<seq<string>>)
    ensures |Plan(chapters)| == TotalParts(chapters)
  {
    if chapters != [] {
      var last := chapters[|chapters| - 1];
      PlanLength(chapters[..|chapters| - 1]);
      if last != [] {
        ChapterPlanAt(|chapters|, last, 0);
      }
    }
  }

  /** Part `j` of chapter `i` (counted from 0) is the page at position
      `Offset(chapters, i) + j`, numbered `i + 1` and `j + 1` and showing
      `chapters[i][j]`. */
  lemma {:induction false} PlanAt(chapters: seq<seq<string>>, i: nat, j: nat)
    requires i < |chapters| && j < |chapters[i]|
    ensures Offset(chapters, i) + j < |Plan(chapters)|
    ensures Plan(chapters)[Offset(chapters, i) + j] == Page(i + 1, j + 1, chapters[i][j])
  {
    var init := chapters[..|chapters| - 1];
    PlanLength(init);
    PlanLength(chapters);
    if i == |chapters| - 1 {
      assert chapters[..i] == init;
      ChapterPlanAt(|chapters|, chapters[i], j);
    } else {
      PlanAt(init, i, j);
      assert init[..i] == chapters[..i];
    }
  }

  /** Two chapters of one chunk each are planned as chapter 1 part 1, then
      chapter 2 part 1. */
  lemma TwoChapterPlan(chapters: seq<seq<string>>, x: string, y: string)
    requires chapters == [[x], [y]]
    ensures Plan(chapters) == [Page(1, 1, x), Page(2, 1, y)]
  {
    var first := chapters[..1];
    assert first == [[x]] && first[..0] == [];
    assert ChapterPlan(1, [x]) == [Page(1, 1, x)] by { assert [x][..0] == []; }
    assert ChapterPlan(2, [y]) == [Page(2, 1, y)] by { assert [y][..0] == []; }
    assert Plan(first) == [Page(1, 1, x)];
    assert Plan(chapters) == Plan(first) + ChapterPlan(2, [y]);
  }

  /** Every page of the plan carries the numbers of the chapter and part
      it was located in. */
  lemma PlanLocated(chapters: seq<seq<string>>, k: nat)
    requires k < |Plan(chapters)|
    ensures k < TotalParts(chapters)
    ensures Plan(chapters)[k]
         == Page(Locate(chapters, k).0 + 1, Locate(chapters, k).1 + 1,
                 chapters[Locate(chapters, k).0][Locate(chapters, k).1])
  {
    PlanLength(chapters);
    var (i, j) := Locate(chapters, k);
    PlanAt(chapters, i, j);
  }

  lemma OffsetStep(chapters: seq<seq<string>>, i: nat)
    requires i < |chapters|
    ensures Offset(chapters, i + 1) == Offset(chapters, i) + |chapters[i]|
  {
    assert chapters[..i + 1][..i] == chapters[..i];
  }

  lemma {:induction false} OffsetMonotone(chapters: seq<seq<string>>, i: nat, i': nat)
    requires i <= i' <= |chapters|
    ensures Offset(chapters, i) <= Offset(chapters, i')
    decreases i' - i
  {
    if i < i' {
      OffsetStep(chapters, i);
      OffsetMonotone(chapters, i + 1, i');
    }
  }

  /** Pages are ordered chapter first, then part: an earlier (chapter, part)
      pair sits at an earlier position. */
  lemma PlanOrder(chapters: seq<seq<string>>, i: nat, j: nat, i': nat, j': nat)
    requires i < |chapters| && j < |chapters[i]|
    requires i' < |chapters| && j' < |chapters[i']|
    requires i < i' || (i == i' && j < j')
    ensures Offset(chapters, i) + j < Offset(chapters, i') + j'
  {
    if i < i' {
      OffsetStep(chapters, i);
      OffsetMonotone(chapters, i + 1, i');
    }
  }

  /** No two pages of the plan have the same chapter and part numbers. */
  lemma PlanPositionsDistinct(chapters: seq<seq<string>>, k: nat, l: nat)
    requires k < l < |Plan(chapters)|
    ensures Plan(chapters)[k].chapter != Plan(chapters)[l].chapter
         || Plan(chapters)[k].part != Plan(chapters)[l].part
  {
    PlanLocated(chapters, k);
    PlanLocated(chapters, l);
  }

  lemma {:induction false} ChunksConcat(a: seq<Page>, b: seq<Page>)
    ensures Chunks(a + b) == Chunks(a) + Chunks(b)
    decreases |b|
  {
    if b == [] {
      assert a + b == a;
    } else {
      var init := b[..|b| - 1];
      assert (a + b)[..|a + b| - 1] == a + init;
      ChunksConcat(a, init);
    }
  }

  lemma {:induction false} ChapterPlanChunks(i: nat, chunks: seq<string>)
    ensures Chunks(ChapterPlan(i, chunks)) == chunks
  {
    if chunks != [] {
      var init := chunks[..|chunks| - 1];
      ChapterPlanChunks(i, init);
      ChunksConcat(ChapterPlan(i, init), [Page(i, |chunks|, chunks[|chunks| - 1])]);
      assert Chunks([Page(i, |chunks|, chunks[|chunks| - 1])]) == [chunks[|chunks| - 1]];
      assert init + [chunks[|chunks| - 1]] == chunks;
    }
  }

  /** The pages show every chunk exactly once, in reading order: chapter by
      chapter, each chapter's chunks in the order the splitter produced
      them. */
  lemma {:induction false} PlanChunks(chapters: seq<seq<string>>)
    ensures Chunks(Plan(chapters)) == Flatten(chapters)
  {
    if chapters != [] {
      var init := chapters[..|chapters| - 1];
      PlanChunks(init);
      ChunksConcat(Plan(init), ChapterPlan(|chapters|, chapters[|chapters| - 1]));
      ChapterPlanChunks(|chapters|, chapters[|chapters| - 1]);
    }
  }
}
