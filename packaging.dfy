/** `create_processed_epub`: the output book that holds one page per chunk.

    The book object of the EPUB library is modelled by the state the program
    touches: its metadata, its item list (extended by `add_item`) and its
    spine. Writing the book to disk is not modelled. */
module Packaging {
  import opened Filtering
  import opened Pages
  import opened BookPlan
  import opened Strings
  import opened Config

  /** The metadata `create_processed_epub` gives the book. */
  const BOOK_IDENTIFIER: string := "processed_epub"
  const BOOK_TITLE: string := "Processed Book"
  const BOOK_LANGUAGE: string := "en"

  /** The items made from a run of planned pages, one each, in order. */
  function Render(pages: seq<Page>): seq<Item> {
    if pages == [] then []
    else Render(pages[..|pages| - 1]) + [ToItem(pages[|pages| - 1])]
  }

  /** The item list the nested loops build. */
  function Layout(chapters: seq<seq<string>>): seq<Item> {
    Render(Plan(chapters))
  }

  /** One item per page. */
  lemma {:induction false} RenderLength(pages: seq<Page>)
    ensures |Render(pages)| == |pages|
  {
    if pages != [] {
      RenderLength(pages[..|pages| - 1]);
    }
  }

  /** Rendering is page by page: item `k` is made from page `k` alone. */
  lemma {:induction false} RenderAt(pages: seq<Page>, k: nat)
    requires k < |pages|
    ensures |Render(pages)| == |pages|
    ensures Render(pages)[k] == ToItem(pages[k])
  {
    var init := pages[..|pages| - 1];
    RenderLength(pages);
    if k < |init| {
      RenderAt(init, k);
    }
  }

  /** Rendering one more page of a chapter appends its item. */
  lemma RenderChapterStep(i: nat, chunks: seq<string>, p: nat)
    requires p < |chunks|
    ensures Render(ChapterPlan(i, chunks[..p + 1]))
         == Render(ChapterPlan(i, chunks[..p])) + [ToItem(Page(i, p + 1, chunks[p]))]
  {
    assert chunks[..p + 1][..p] == chunks[..p];
    var plan := ChapterPlan(i, chunks[..p]) + [Page(i, p + 1, chunks[p])];
    assert plan[..|plan| - 1] == ChapterPlan(i, chunks[..p]);
  }

  /** Appending to a list that was itself extended extends the extension. */
  lemma AppendRegroup<T>(a: seq<T>, b: seq<T>, x: T)
    ensures (a + b) + [x] == a + (b + [x])
  {
  }

  lemma {:induction false} RenderConcat(a: seq<Page>, b: seq<Page>)
    ensures Render(a + b) == Render(a) + Render(b)
    decreases |b|
  {
    if b == [] {
      assert a + b == a;
    } else {
      var init := b[..|b| - 1];
      assert (a + b)[..|a + b| - 1] == a + init;
      assert (a + b)[|a + b| - 1] == b[|b| - 1];
      RenderConcat(a, init);
    }
  }

  /** One page per chunk; part `j` of chapter `i` (counted from 0) is the
      page at position `Offset(chapters, i) + j`, titled
      `Chapter {i+1} Part {j+1}`, stored as `chap_{i+1}_{j+1}.xhtml` and
      showing `chapters[i][j]`. */
  lemma LayoutAt(chapters: seq<seq<string>>, i: nat, j: nat)
    requires i < |chapters| && j < |chapters[i]|
    ensures |Layout(chapters)| == TotalParts(chapters)
    ensures Offset(chapters, i) + j < |Layout(chapters)|
    ensures Layout(chapters)[Offset(chapters, i) + j] == ToItem(Page(i + 1, j + 1, chapters[i][j]))
  {
    PlanAt(chapters, i, j);
    PlanLength(chapters);
    RenderAt(Plan(chapters), Offset(chapters, i) + j);
  }

  /** Two chapters of one chunk each give the pages `chap_1_1.xhtml` and
      `chap_2_1.xhtml`, in that order. */
  lemma TwoChapterScenario(chapters: seq<seq<string>>, x: string, y: string)
    requires chapters == [[x], [y]]
    ensures Layout(chapters) == [ToItem(Page(1, 1, x)), ToItem(Page(2, 1, y))]
  {
    TwoChapterPlan(chapters, x, y);
    RenderPair(Page(1, 1, x), Page(2, 1, y));
  }

  lemma RenderPair(p: Page, q: Page)
    ensures Render([p, q]) == [ToItem(p), ToItem(q)]
  {
    assert [p, q][..1] == [p] && [p][..0] == [];
    assert Render([p]) == [ToItem(p)];
    assert Render([p, q]) == Render([p]) + [ToItem(q)];
  }

  /** What a reader of the book sees for a chunk the processing step made
      from the split piece `piece`: the page titled `Chapter {i+1} Part
      {j+1}` shows the instruction line, a break tag, and the piece with its
      line feeds turned into break tags. */
  lemma PrefixedPageAt(chapters: seq<seq<string>>, i: nat, j: nat, piece: string)
    requires i < |chapters| && j < |chapters[i]|
    requires chapters[i][j] == PREFIX + piece
    ensures Offset(chapters, i) + j < |Layout(chapters)|
    ensures Layout(chapters)[Offset(chapters, i) + j]
         == EpubHtml(PartTitle(i + 1, j + 1), PartFileName(i + 1, j + 1),
                     "<h1>" + PartTitle(i + 1, j + 1) + "</h1><p>"
                     + (PREFIX_LINE + BR + ReplaceNewlines(piece)) + "</p>")
  {
    LayoutAt(chapters, i, j);
    PrefixedChunkRendering(PartTitle(i + 1, j + 1), piece);
  }

  /** Two HTML pages that differ in file name and in title. */
  predicate Distinguishable(a: Item, b: Item) {
    && IsHtml(a) && IsHtml(b)
    && a.fileName != b.fileName
    && a.title != b.title
  }

  /** Two different pages differ in file name and in title. */
  lemma PagesDistinctAt(chapters: seq<seq<string>>, k: nat, l: nat)
    requires k < l < |Layout(chapters)|
    ensures Distinguishable(Layout(chapters)[k], Layout(chapters)[l])
  {
    var plan := Plan(chapters);
    RenderLength(plan);
    RenderAt(plan, k);
    RenderAt(plan, l);
    PlanPositionsDistinct(chapters, k, l);
    ToItemDistinct(plan[k], plan[l]);
  }

  /** No two items share a file name or a title, and all are HTML pages. */
  predicate NamesDistinct(items: seq<Item>) {
    forall k, l :: 0 <= k < l < |items| ==> Distinguishable(items[k], items[l])
  }

  /** Every item is an HTML page whose body holds no line feed. */
  predicate PagesWellFormed(items: seq<Item>) {
    forall k :: 0 <= k < |items| ==> IsHtml(items[k]) && '\n' !in items[k].content
  }

  /** No two pages share a file name or a title. */
  lemma LayoutNamesDistinct(chapters: seq<seq<string>>)
    ensures NamesDistinct(Layout(chapters))
  {
    var items := Layout(chapters);
    forall k, l | 0 <= k < l < |items| ensures Distinguishable(items[k], items[l]) {
      PagesDistinctAt(chapters, k, l);
    }
  }

  /** Every page is an HTML page whose body holds no line feed. */
  lemma LayoutPagesWellFormed(chapters: seq<seq<string>>)
    ensures PagesWellFormed(Layout(chapters))
  {
    var items := Layout(chapters);
    RenderLength(Plan(chapters));
    forall k | 0 <= k < |items|
      ensures IsHtml(items[k]) && '\n' !in items[k].content
    {
      RenderAt(Plan(chapters), k);
      ToItemWellFormed(Plan(chapters)[k]);
    }
  }

  /** The spine comprehension keeps every page of the layout, in order. */
  lemma SpineOfLayout(chapters: seq<seq<string>>)
    ensures Filter(IsHtml, Layout(chapters)) == Layout(chapters)
  {
    LayoutPagesWellFormed(chapters);
    FilterAllPass(IsHtml, Layout(chapters));
  }

  // ------------------------------------------------- the book object

  /** The EPUB library's book, reduced to the state the program sets. */
  class EpubBook {
    var identifier: string
    var title: string
    var language: string
    var items: seq<Item>
    var spine: seq<Item>

    /** A new, empty book. */
    constructor ()
      ensures identifier == "" && title == "" && language == ""
      ensures items == [] && spine == []
    {
      identifier, title, language := "", "", "";
      items, spine := [], [];
    }

    method SetIdentifier(id: string)
      modifies this`identifier
      ensures identifier == id
    {
      identifier := id;
    }

    method SetTitle(t: string)
      modifies this`title
      ensures title == t
    {
      title := t;
    }

    method SetLanguage(lang: string)
      modifies this`language
      ensures language == lang
    {
      language := lang;
    }

    /** Appends an item to the end of the item list. */
    method AddItem(item: Item)
      modifies this`items
      ensures items == old(items) + [item]
    {
      items := items + [item];
    }

    function GetItems(): seq<Item>
      reads this
    {
      items
    }
  }

  /** `create_processed_epub`: a fresh book with the fixed metadata, one page
      per chunk in chapter-then-part order, and a spine equal to that page
      list. */
  method CreateProcessedEpub(splitChapters: seq<seq<string>>) returns (book: EpubBook)
    ensures fresh(book)
    ensures book.identifier == BOOK_IDENTIFIER && book.title == BOOK_TITLE && book.language == BOOK_LANGUAGE
    ensures book.items == Layout(splitChapters)
    ensures book.spine == book.items
  {
    book := new EpubBook();
    book.SetIdentifier(BOOK_IDENTIFIER);
    book.SetTitle(BOOK_TITLE);
    book.SetLanguage(BOOK_LANGUAGE);

    var c := 0;
    while c < |splitChapters|
      invariant c <= |splitChapters|
      invariant book.items == Render(Plan(splitChapters[..c]))
      invariant book.identifier == BOOK_IDENTIFIER && book.title == BOOK_TITLE && book.language == BOOK_LANGUAGE
    {
      var chunks := splitChapters[c];
      ghost var before := book.items;
      var p := 0;
      while p < |chunks|
        invariant p <= |chunks|
        invariant book.items == before + Render(ChapterPlan(c + 1, chunks[..p]))
        invariant book.identifier == BOOK_IDENTIFIER && book.title == BOOK_TITLE && book.language == BOOK_LANGUAGE
      {
        var title := PartTitle(c + 1, p + 1);
        var fileName := PartFileName(c + 1, p + 1);
        var page := EpubHtml(title, fileName, RenderContent(title, chunks[p]));
        ghost var done := Render(ChapterPlan(c + 1, chunks[..p]));
        book.AddItem(page);
        RenderChapterStep(c + 1, chunks, p);
        AppendRegroup(before, done, page);
        p := p + 1;
      }
      assert chunks[..p] == chunks;
      assert splitChapters[..c + 1][..c] == splitChapters[..c];
      RenderConcat(Plan(splitChapters[..c]), ChapterPlan(c + 1, chunks));
      c := c + 1;
    }
    assert splitChapters[..c] == splitChapters;

    book.spine := Filter(IsHtml, book.GetItems());
    SpineOfLayout(splitChapters);
  }
}
