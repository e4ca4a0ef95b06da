# EPUB/TXT chunking pipeline — Dafny model

This project models the processing core of `app.py`, a small tool that turns
a book into translation-ready chunks.

- **Extraction.** The tool loads a book from an uploaded EPUB or ZIP:
  - EPUB: every item for which `item.get_type() == epub.EpubHtml` holds (the parameter `typeIsHtml`, left open) or whose name ends in `.xhtml`, in item-list order. With the EPUB library the code uses, `get_type()` returns an item-kind number and `epub.EpubHtml` is a class, so that comparison never holds and only `.xhtml` names are selected; an HTML document named `ch1.html` is dropped. `Extraction.EpubChaptersWithoutTypeMatch` states what is selected in that case.
  - ZIP: every `.txt` member, directory by directory, each directory's names in `sorted()` order.
- **Chunking.** It splits every chapter with a text splitter and puts the fixed instruction `translate following text from chinese to english` in front of every piece.
- **Packaging.** It builds an output EPUB with one HTML page per chunk:
  - pages titled `Chapter {i} Part {j}` and stored as `chap_{i}_{j}.xhtml`;
  - each page body is `<h1>title</h1><p>chunk</p>`, with the chunk's line feeds turned into `<br/>`;
  - the spine equals the page list.

The modules follow the program's structure:

- `Config`: the configuration constants.
- `Extraction`: the two chapter extractors, as loops proved against specification functions.
- `Chunking`: the prefixing loop.
- `Pages`, `BookPlan` and `Packaging`:
  - one page's strings (`Pages`);
  - where each chunk goes (`BookPlan`);
  - the book object and `create_processed_epub` (`Packaging`). The book is a class whose methods update its fields.
- Support modules for the Python built-ins the code relies on:
  - `Filtering`: order-keeping comprehensions;
  - `Decimal`: `str(int)` inside f-strings;
  - `Strings`: `str.endswith` and `str.replace`;
  - `NameOrder`: `str` comparison and `sorted()`.

External libraries and the file system are function parameters that the model knows nothing about:
- `split`: `CharacterTextSplitter.split_text`;
- `typeIsHtml`: `item.get_type() == epub.EpubHtml`;
- `decode`: UTF-8 decoding with errors ignored;
- `getText`: BeautifulSoup's `get_text`;
- `readText`: reading a file as text;
- the `os.walk` listing: a sequence of `(root, files)` entries.

Facts of `app.py` that the model keeps as written:

- **ZIP member order.** Each directory's names are ordered by plain `sorted(files)` (app.py:49), which compares code points rather than numbers. So members `2_b.txt`, `1_a.txt`, `10_c.txt` are read in the order `10_c`, `1_a`, `2_b`. `Extraction.ZipStringOrderScenario` proves this. The archive itself is saved as `temp.zip` in the same directory and is skipped because its name does not end in `.txt`.
- **Page titles.** Pages are titled `Chapter {i} Part {j}` and named `chap_{i}_{j}.xhtml` (app.py:64-65; `Packaging.TwoChapterScenario`).
- **Decoding.** The code decodes UTF-8 with errors ignored and tries no other encoding (app.py:33, 51).
- **Table of contents and splitting.** No table of contents is built (app.py:55-72). Only `CharacterTextSplitter` with a line-feed separator is used (app.py:94-99).

## Model

| member | source | states |
|---|---|---|
| `Config.ChunkSettingsValid` | app.py:11-12 | The chunk size is positive and the overlap is positive and smaller than it. |
| `Config.PrefixIsOneLine` | app.py:15 | The prefix ends with its only line feed; what comes before it is the instruction line. |
| `Chunking.AddPrefix` | app.py:105 | One prefixed chunk per split piece; each is the prefix followed by the unchanged piece. |
| `Chunking.StripAddPrefix` | app.py:105 | Removing the prefix gives back the split piece (the inverse of prefixing). |
| `Chunking.ProcessChapters` | app.py:102-105 | The loop keeps the number and order of chapters. Chapter `i` becomes `PREFIX + p` for every piece `p` of `split(chapters[i])`, in order. |
| `Filtering.Filter` | app.py:31-32 | A loop or comprehension with a condition keeps only passing elements and never grows the list. |
| `Filtering.KeptIndices` | app.py:31-35 | Kept elements come from strictly increasing positions; a position is kept exactly when its element passes. |
| `Filtering.FilterConcat` | app.py:31-35 | Filtering works piece by piece over a joined list. |
| `Filtering.FilterAllPass` | app.py:71 | When every element passes, nothing is dropped and the order is kept. |
| `Filtering.FilterNonePass` | app.py:31-35 | When no element passes, the result is empty. |
| `Filtering.FilterAgree` | app.py:32 | Two tests that agree on every element keep the same elements. |
| `Filtering.FilterMultiset` | app.py:49-50 | Passing values keep their multiplicity; failing values vanish. |
| `Extraction.ChapterTest` | app.py:32 | Definition of the chapter test `typeIsHtml(item) or name.endswith('.xhtml')`; its properties are `Extraction.EpubChaptersInOrder` and `Extraction.EpubChaptersWithoutTypeMatch`. |
| `Extraction.ChapterItems` | app.py:31-32 | Definition of the items the loop keeps: `book.get_items()` filtered by `Extraction.ChapterTest`; its properties are `Extraction.EpubChaptersInOrder` and `Extraction.EpubChaptersWithoutTypeMatch`. |
| `Extraction.ItemText` | app.py:33-35 | Definition of one chapter's text: `getText` of the content decoded by `decode`; `Extraction.EpubChaptersInOrder` states that chapter `m` is `ItemText` of the `m`-th selected item. |
| `Extraction.EpubChapters` | app.py:31-35 | Definition of the chapter list of an EPUB: the text of each selected item, in order; its properties are `Extraction.EpubChaptersInOrder`, `Extraction.EpubChaptersConcat` and `Extraction.EpubRejectedItemIgnored`, and `Extraction.ExtractEpubChapters` computes it. |
| `Extraction.ExtractEpubChapters` | app.py:31-35 | The loop over `get_items()` returns exactly the specified chapter list. |
| `Extraction.EpubChaptersInOrder` | app.py:31-35 | Chapter `m` is the text of the `m`-th selected item. Selected items keep their item-list order. An item is selected exactly when it is HTML-typed or its name ends in `.xhtml`. |
| `Extraction.EpubChaptersConcat` | app.py:31-35 | Items are handled one at a time: the chapters of a joined item list are the chapters of its parts, joined. |
| `Extraction.EpubChaptersWithoutTypeMatch` | app.py:32 | When the type comparison never holds, the selected items are exactly the `.xhtml`-named ones, in order. |
| `Extraction.EpubRejectedItemIgnored` | app.py:32 | An item that is neither HTML-typed nor named `.xhtml` adds no chapter. |
| `Extraction.IsTxtName` | app.py:50 | Definition of the test `file.endswith('.txt')`; its properties are `Extraction.TxtMembersSelection` and `Extraction.DirWithoutTxt`. |
| `Extraction.TxtMembers` | app.py:49-50 | Definition of the names read from one directory, `sorted` then filtered by `.txt`; its properties are `Extraction.TxtMembersSelection` and `Extraction.TxtMembersCharacterized`. |
| `Extraction.Texts` | app.py:51-52 | Definition of the texts read for a list of names, one `readText` per name in order; its properties are `Extraction.TextsAppend` and `Extraction.TextsOfThree`, and `Extraction.ReadDirectory` computes it. |
| `Extraction.DirChapters` | app.py:49-52 | Definition of one directory's chapters; `Extraction.ReadDirectory` computes it and `Extraction.DirWithoutTxt` is about it. |
| `Extraction.ZipChapters` | app.py:48-52 | Definition of the chapters of the whole walk, directory by directory; `Extraction.ExtractZipChapters` computes it and `Extraction.ZipSingleDirectory` is about it. |
| `Extraction.TxtMembersSelection` | app.py:49-50 | The names read from one directory all end in `.txt`. Each `.txt` name appears as often as in the listing and no other name appears. They are in ascending string order. |
| `Extraction.TxtMembersMultiplicities` | app.py:49-50 | Sorting then filtering keeps every `.txt` name's multiplicity and drops every other name. |
| `Extraction.DirWithoutTxt` | app.py:48-52 | A directory without `.txt` names contributes no chapter; no chapters is an empty list, not an error. |
| `Extraction.TxtMembersFilterThenSort` | app.py:49-50 | Sorting then filtering gives the same names as filtering then sorting. |
| `Extraction.TxtMembersCharacterized` | app.py:49-50 | Any ascending arrangement of exactly the `.txt` names is the order they are read in. |
| `Extraction.TxtMembersStringOrderExample` | app.py:49-50 | `temp.zip`, `2_b.txt`, `1_a.txt`, `10_c.txt` are read as `10_c.txt`, `1_a.txt`, `2_b.txt`. |
| `Extraction.ZipStringOrderScenario` | app.py:48-52 | An archive whose three members sit next to `temp.zip` yields its chapters in the order `10_c`, `1_a`, `2_b`. |
| `Extraction.ZipSingleDirectory` | app.py:48 | An archive that unpacks into one directory yields that directory's chapters. |
| `Extraction.ReadDirectory` | app.py:49-52 | The inner loop reads exactly the `.txt` names of the sorted listing, in that order. |
| `Extraction.ExtractZipChapters` | app.py:48-52 | The directories' chapters are joined in visiting order, each directory's names sorted and filtered. |
| `NameOrder.LessEq` | app.py:49 | Definition of Python's string `<=`; its order properties are the four `NameOrder.LessEq*` lemmas. |
| `NameOrder.LessEqReflexive` | app.py:49 | Python's string `<=` is reflexive. |
| `NameOrder.LessEqTotal` | app.py:49 | Python's string `<=` is total. |
| `NameOrder.LessEqAntisymmetric` | app.py:49 | Python's string `<=` is antisymmetric. |
| `NameOrder.LessEqTransitive` | app.py:49 | Python's string `<=` is transitive. |
| `NameOrder.Insert` | app.py:49 | Inserting into a sorted list keeps it sorted and adds exactly that name. |
| `NameOrder.SortNames` | app.py:49 | `sorted(files)` is ascending and a permutation of the listing. |
| `NameOrder.SortedUnique` | app.py:49 | Two sorted permutations of the same names are equal, so the result does not depend on the sorting algorithm. |
| `NameOrder.SortedSubsequence` | app.py:49-50 | Dropping names in order keeps a list sorted. |
| `Decimal.NatToString` | app.py:64-65 | The `{i}` placeholder renders a non-empty digit string, with no leading zero except for zero itself. |
| `Decimal.ParseNatToString` | app.py:64-65 | Reading the rendered digits back gives the number (the inverse of rendering). |
| `Decimal.NatToStringInjective` | app.py:64-65 | Different numbers render differently. |
| `Decimal.DigitsThenSeparator` | app.py:64-65 | A number followed by a separator starting with a non-digit splits back uniquely. |
| `Strings.EndsWith` | app.py:32 | Definition of `str.endswith` (also app.py:50); its property is `Strings.EndsWithConcat`. |
| `Strings.EndsWithConcat` | app.py:65 | A text with `.xhtml` appended ends with `.xhtml`. |
| `Strings.ReplaceNewlines` | app.py:68 | `replace("\n", "<br/>")` leaves no line feed. |
| `Strings.ReplaceNewlinesLength` | app.py:68 | Each line feed grows the text by four characters. |
| `Strings.NoNewlineCounted` | app.py:68 | A text with no counted line feeds holds none. |
| `Strings.ReplaceNewlinesKeepsLength` | app.py:68 | Replacement keeps the length exactly when the text holds no line feed (both directions). |
| `Strings.ReplaceNewlinesIdentity` | app.py:68 | A text without line feeds is unchanged. |
| `Strings.ReplaceNewlinesConcat` | app.py:68 | Replacement works piece by piece. |
| `Strings.ReplaceNewlinesAfterLine` | app.py:68 | A line ending in a line feed becomes that line followed by `<br/>`. |
| `Pages.IsHtml` | app.py:71 | Definition of `isinstance(item, epub.EpubHtml)`; `Packaging.SpineOfLayout` shows it keeps every page. |
| `Pages.RenderContent` | app.py:68 | Definition of the page body f-string; its properties are `Pages.RenderContentNoNewline`, `Pages.RenderContentAfterLine` and `Pages.PrefixedChunkRendering`. |
| `Pages.ToItem` | app.py:64-68 | Definition of one loop body's page; its properties are `Pages.ToItemDistinct` and `Pages.ToItemWellFormed`. |
| `Pages.PartTitle` | app.py:64 | A page title holds no line feed. |
| `Pages.PartFileName` | app.py:65 | Every page file name ends in `.xhtml`, so the EPUB chapter test would select it again. |
| `Pages.PartTitleInjective` | app.py:64 | Different (chapter, part) pairs get different titles. |
| `Pages.PartFileNameInjective` | app.py:65 | Different (chapter, part) pairs get different file names. |
| `Pages.RenderContentNoNewline` | app.py:68 | A page body holds no line feed, whatever the chunk. |
| `Pages.RenderContentAfterLine` | app.py:68 | A chunk that opens with a line is rendered as heading, that line, `<br/>`, then the rest. |
| `Pages.PrefixedChunkRendering` | app.py:68 | A prefixed chunk shows the instruction line, `<br/>`, then the rendered piece. |
| `Pages.ToItemDistinct` | app.py:64-67 | Pages at different positions differ in title and file name. |
| `Pages.ToItemWellFormed` | app.py:67-68 | Every created page is HTML and its body holds no line feed. |
| `BookPlan.ChapterPlan` | app.py:63 | Definition of the inner loop's positions; its properties are `BookPlan.ChapterPlanAt` and `BookPlan.ChapterPlanChunks`. |
| `BookPlan.Plan` | app.py:62-63 | Definition of the nested loops' positions; its properties are `BookPlan.PlanLength`, `BookPlan.PlanAt`, `BookPlan.PlanOrder` and `BookPlan.PlanChunks`. |
| `BookPlan.Locate` | app.py:62-63 | Every page index belongs to one (chapter, part) pair whose offset gives that index back. |
| `BookPlan.ChapterPlanAt` | app.py:63 | Part `j + 1` of a chapter shows its `j`-th chunk; one part per chunk. |
| `BookPlan.PlanLength` | app.py:62-63 | There is one page per chunk in total. |
| `BookPlan.PlanAt` | app.py:62-63 | Chunk `j` of chapter `i` is the page at `Offset(i) + j`, numbered `i + 1` and `j + 1`. |
| `BookPlan.PlanLocated` | app.py:62-63 | Every page carries the numbers of the position it sits at. |
| `BookPlan.TwoChapterPlan` | app.py:62-63 | Two one-chunk chapters are planned as chapter 1 part 1, then chapter 2 part 1. |
| `BookPlan.OffsetStep` | app.py:62-63 | Each chapter starts right after the previous chapter's parts. |
| `BookPlan.OffsetMonotone` | app.py:62-63 | Later chapters start no earlier than earlier ones. |
| `BookPlan.PlanOrder` | app.py:62-63 | Pages are in chapter-then-part ascending order. |
| `BookPlan.PlanPositionsDistinct` | app.py:62-63 | No two pages share a (chapter, part) pair. |
| `BookPlan.ChunksConcat` | app.py:62-63 | The chunks shown by joined pages are joined. |
| `BookPlan.ChapterPlanChunks` | app.py:63 | A chapter's pages show its chunks in order. |
| `BookPlan.PlanChunks` | app.py:62-63 | The pages show every chunk exactly once, in reading order. |
| `Packaging.Render` | app.py:64-69 | Definition of the items made from planned pages; its properties are `Packaging.RenderLength`, `Packaging.RenderAt` and `Packaging.RenderConcat`. |
| `Packaging.Layout` | app.py:62-69 | Definition of the item list the nested loops build; its properties are `Packaging.LayoutAt`, `Packaging.LayoutNamesDistinct` and `Packaging.LayoutPagesWellFormed`, and `Packaging.CreateProcessedEpub` builds it. |
| `Packaging.RenderLength` | app.py:67-69 | One item is added per planned page. |
| `Packaging.RenderAt` | app.py:64-69 | Item `k` is built from page `k` alone. |
| `Packaging.RenderChapterStep` | app.py:63-69 | One more inner-loop step appends one more item. |
| `Packaging.RenderConcat` | app.py:62-69 | The items of joined page runs are joined. |
| `Packaging.RenderPair` | app.py:64-69 | Two pages yield their two items in order. |
| `Packaging.LayoutAt` | app.py:62-69 | There is one page per chunk. Chunk `j` of chapter `i` is the page at `Offset(i) + j`, titled `Chapter {i+1} Part {j+1}`, named `chap_{i+1}_{j+1}.xhtml` and showing that chunk. |
| `Packaging.TwoChapterScenario` | app.py:62-71 | Two one-chunk chapters give the pages for chapter 1 part 1 and chapter 2 part 1, in that order. |
| `Packaging.PrefixedPageAt` | app.py:64-68 | For a processed chunk `PREFIX + piece`, the page body is heading, instruction line, `<br/>`, then the rendered piece. |
| `Packaging.PagesDistinctAt` | app.py:64-67 | Any two pages of the book differ in title and in file name. |
| `Packaging.LayoutNamesDistinct` | app.py:64-69 | No two pages of the book share a title or a file name. |
| `Packaging.LayoutPagesWellFormed` | app.py:67-69 | Every item of the book is an HTML page whose body holds no line feed. |
| `Packaging.SpineOfLayout` | app.py:71 | The spine comprehension keeps every page, in order. |
| `Packaging.EpubBook.constructor` | app.py:57 | A new book has empty metadata, no items and an empty spine. |
| `Packaging.EpubBook.SetIdentifier` | app.py:58 | Sets the identifier and nothing else. |
| `Packaging.EpubBook.SetTitle` | app.py:59 | Sets the title and nothing else. |
| `Packaging.EpubBook.SetLanguage` | app.py:60 | Sets the language and nothing else. |
| `Packaging.EpubBook.AddItem` | app.py:69 | Appends the item at the end of the item list and changes nothing else. |
| `Packaging.EpubBook.GetItems` | app.py:71 | Definition of `book.get_items()`: the book's current item list; `Packaging.CreateProcessedEpub` filters it into the spine. |
| `Packaging.CreateProcessedEpub` | app.py:55-71 | Returns a fresh book with identifier `processed_epub`, title `Processed Book` and language `en`. Its items are one page per chunk in chapter-then-part order. Its spine equals the item list. |

## Left out

- The Streamlit interface and session state (app.py:17-21, 74-101, 106-114) are not modelled: upload, buttons, messages, download.
- Temporary files are not modelled: creation and deletion, and writing the ZIP archive to disk before unpacking it. `temp.zip` appears only as a name in a directory listing.
- ZIP unpacking and directory traversal are not modelled. `os.walk`'s visiting order is not specified by Python, so it is the input `walk`.
- Opening an EPUB (`epub.read_epub`), `get_type()`, UTF-8 decoding with errors ignored, and BeautifulSoup text extraction are not modelled. They are the parameters `items`, `typeIsHtml`, `decode` and `getText`.
- Reading a `.txt` file is not modelled. It is the parameter `readText`, so text-mode newline translation and UTF-8 decoding with errors ignored are whatever `readText` does.
- `CharacterTextSplitter` is the parameter `split` of `Chunking.ProcessChapters`. The model does not capture:
  - the chunk-size bound;
  - the overlap;
  - the separator behaviour, including that chunks may exceed the size when a single line is longer.
- `CHUNK_SIZE` and `CHUNK_OVERLAP` are declared but reach only the splitter. `LENGTH_FUNCTION_CHOICE` and `SPLITTER_CHOICE` (app.py:13-14) are never read by the code and are not modelled.
- `epub.write_epub` and the return value of `create_processed_epub` (app.py:72) are not modelled. `Packaging.CreateProcessedEpub` returns the book it built instead. The library's item identifiers, table of contents, navigation files and XML serialisation are not modelled.
- `Packaging.EpubBook.constructor`: a new library book is assumed to list no items, so the spine holds exactly the created pages. The library's defaults, such as its reading direction, are not modelled.
- `Extraction.ReadDirectory`: the inner loop of `extract_zip_chapters` over one directory is a method of its own, called from the outer loop. The loops are the same; only the nesting becomes a call.
- `Packaging.CreateProcessedEpub`: the HTML page is a value appended to a sequence field. Object identity of the library's page objects (aliasing between `items` and `spine`) is not modelled.
- Page bodies are not HTML-escaped by the code, and the model does not escape them either. A chunk holding markup reaches the page as markup.
- The f-string at app.py:68 contains a backslash inside its expression. Python only accepts this from version 3.12, and the model gives that version's meaning.
