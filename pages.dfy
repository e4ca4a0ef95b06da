/** One page of the output book: its title, file name and body, built
    from the chapter and part numbers and the chunk it shows. */
module Pages {
  import opened Decimal
  import opened Strings
  import opened Config

  /** An entry of the book's item list. The program only ever adds HTML
      pages; other kinds of item stand for whatever else a book may list. */
  datatype Item =
    | EpubHtml(title: string, fileName: string, content: string)
    | OtherItem(fileName: string)

  /** `isinstance(item, epub.EpubHtml)`. */
  predicate IsHtml(item: Item) {
    item.EpubHtml?
  }

  /** The page title `Chapter {i} Part {j}`. It never holds a line feed. */
  function PartTitle(i: nat, j: nat): (r: string)
    ensures '\n' !in r
  {
    assert forall k :: 0 <= k < |NatToString(i)| ==> IsDigit(NatToString(i)[k]);
    assert forall k :: 0 <= k < |NatToString(j)| ==> IsDigit(NatToString(j)[k]);
    "Chapter " + NatToString(i) + " Part " + NatToString(j)
  }

  /** The page file name `chap_{i}_{j}.xhtml`. */
  function PartFileName(i: nat, j: nat): (r: string)
    ensures EndsWith(r, ".xhtml")
  {
    EndsWithConcat("chap_" + NatToString(i) + "_" + NatToString(j), ".xhtml");
    "chap_" + NatToString(i) + "_" + NatToString(j) + ".xhtml"
  }

  /** The page body: the title as a heading, then the chunk as one paragraph
      with every line feed turned into a break tag. The chunk is not
      HTML-escaped. */
  function RenderContent(title: string, chunk: string): string {
    "<h1>" + title + "</h1><p>" + ReplaceNewlines(chunk) + "</p>"
  }

  /** A planned page: part `part` of chapter `chapter` (both counted from
      1) and the chunk it shows. */
  datatype Page = Page(chapter: nat, part: nat, chunk: string)

  /** The HTML item the program creates for a planned page: the loop body
      of `create_processed_epub`. */
  function ToItem(p: Page): Item {
    var title := PartTitle(p.chapter, p.part);
    EpubHtml(title, PartFileName(p.chapter, p.part), RenderContent(title, p.chunk))
  }

  /** Distinct positions have distinct titles. */
  lemma PartTitleInjective(i: nat, j: nat, i': nat, j': nat)
    requires PartTitle(i, j) == PartTitle(i', j')
    ensures i == i' && j == j'
  {
    var head := "Chapter ";
    var a, b, a', b' := NatToString(i), NatToString(j), NatToString(i'), NatToString(j');
    assert head + a + " Part " + b == head + (a + " Part " + b);
    assert head + a' + " Part " + b' == head + (a' + " Part " + b');
    CommonPrefixCancel(head, a + " Part " + b, a' + " Part " + b');
    DigitsThenSeparator(a, b, a', b', " Part ");
    NatToStringInjective(i, i');
    NatToStringInjective(j, j');
  }

  /** Distinct positions have distinct file names. */
  lemma PartFileNameInjective(i: nat, j: nat, i': nat, j': nat)
    requires PartFileName(i, j) == PartFileName(i', j')
    ensures i == i' && j == j'
  {
    var head, tail := "chap_", ".xhtml";
    var a, b, a', b' := NatToString(i), NatToString(j), NatToString(i'), NatToString(j');
    assert head + a + "_" + b + tail == head + (a + "_" + (b + tail));
    assert head + a' + "_" + b' + tail == head + (a' + "_" + (b' + tail));
    CommonPrefixCancel(head, a + "_" + (b + tail), a' + "_" + (b' + tail));
    DigitsThenSeparator(a, b + tail, a', b' + tail, "_");
    assert b == (b + tail)[..|b|] == (b' + tail)[..|b'|] == b';
    NatToStringInjective(i, i');
    NatToStringInjective(j, j');
  }

  /** A page body holds no line feed, whatever the chunk. */
  lemma RenderContentNoNewline(title: string, chunk: string)
    requires '\n' !in title
    ensures '\n' !in RenderContent(title, chunk)
  {
    var r := ReplaceNewlines(chunk);
    assert RenderContent(title, chunk) == "<h1>" + title + "</h1><p>" + r + "</p>";
    forall k | 0 <= k < |RenderContent(title, chunk)|
      ensures RenderContent(title, chunk)[k] != '\n'
    {
      var h := "<h1>" + title + "</h1><p>";
      if k < |"<h1>"| {
      } else if k < |"<h1>" + title| {
        assert RenderContent(title, chunk)[k] == title[k - 4];
      } else if k < |h| {
      } else if k < |h + r| {
        assert RenderContent(title, chunk)[k] == r[k - |h|];
      }
    }
  }

  /** A chunk that opens with a line of its own is rendered as that line,
      a break tag, and the rest. */
  lemma RenderContentAfterLine(title: string, line: string, s: string)
    requires '\n' !in line
    ensures RenderContent(title, line + "\n" + s)
         == "<h1>" + title + "</h1><p>" + (line + BR + ReplaceNewlines(s)) + "</p>"
  {
    ReplaceNewlinesAfterLine(line, s);
  }

  /** How a prefixed chunk is rendered: the instruction line is kept as it
      is and its closing line feed becomes a break tag; the rest of the
      chunk is rendered on its own. */
  lemma PrefixedChunkRendering(title: string, s: string)
    ensures RenderContent(title, PREFIX + s)
         == "<h1>" + title + "</h1><p>" + (PREFIX_LINE + BR + ReplaceNewlines(s)) + "</p>"
  {
    PrefixIsOneLine();
    RenderContentAfterLine(title, PREFIX_LINE, s);
  }

  /** Pages for different positions differ in file name and in title,
      whatever chunks they show. */
  lemma ToItemDistinct(p: Page, q: Page)
    requires p.chapter != q.chapter || p.part != q.part
    ensures ToItem(p).fileName != ToItem(q).fileName
    ensures ToItem(p).title != ToItem(q).title
  {
    if PartFileName(p.chapter, p.part) == PartFileName(q.chapter, q.part) {
      PartFileNameInjective(p.chapter, p.part, q.chapter, q.part);
    }
    if PartTitle(p.chapter, p.part) == PartTitle(q.chapter, q.part) {
      PartTitleInjective(p.chapter, p.part, q.chapter, q.part);
    }
  }

  /** Every created item is an HTML page whose body holds no line feed. */
  lemma ToItemWellFormed(p: Page)
    ensures IsHtml(ToItem(p)) && '\n' !in ToItem(p).content
  {
    RenderContentNoNewline(PartTitle(p.chapter, p.part), p.chunk);
  }
}
