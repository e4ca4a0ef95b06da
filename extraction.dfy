/** Chapter extraction from an uploaded EPUB or ZIP.

    The archive libraries, the file system and text decoding are not part of
    this model. Their results come in as parameters:
    - an EPUB is the list its reader returns from `get_items()`;
    - `typeIsHtml` stands for the test `item.get_type() == epub.EpubHtml`;
    - `decode` stands for `bytes.decode('utf-8', errors='ignore')`;
    - `getText` stands for `BeautifulSoup(..., 'html.parser').get_text(separator="\n")`;
    - an extracted ZIP is the sequence of `(root, files)` listings that
      `os.walk` visits, in its order;
    - `readText(root, name)` stands for reading that file as UTF-8 text,
      with errors ignored. */
module Extraction {
  import opened Filtering
  import opened Strings
  import opened NameOrder

  newtype byte = x: int | 0 <= x < 256

  /** One entry of an EPUB's item list: its file name and its raw content. */
  datatype EpubItem = EpubItem(name: string, content: seq<byte>)

  /** One directory visited by `os.walk`: its path and the names of its
      files, in listing order. */
  datatype WalkEntry = WalkEntry(root: string, files: seq<string>)

  // ---------------------------------------------------------------- EPUB

  /** The test an EPUB item must pass to become a chapter. */
  function ChapterTest(typeIsHtml: EpubItem -> bool): EpubItem -> bool {
    item => typeIsHtml(item) || EndsWith(item.name, ".xhtml")
  }

  /** The items that become chapters, in item-list order. */
  function ChapterItems(items: seq<EpubItem>, typeIsHtml: EpubItem -> bool): seq<EpubItem> {
    Filter(ChapterTest(typeIsHtml), items)
  }

  /** The visible text of an item. */
  function ItemText(item: EpubItem, decode: seq<byte> -> string, getText: string -> string): string {
    getText(decode(item.content))
  }

  /** The chapters an EPUB yields: the text of each selected item, in order. */
  function EpubChapters(items: seq<EpubItem>, typeIsHtml: EpubItem -> bool,
                        decode: seq<byte> -> string, getText: string -> string): seq<string>
  {
    var kept := ChapterItems(items, typeIsHtml);
    seq(|kept|, m requires 0 <= m < |kept| => ItemText(kept[m], decode, getText))
  }

  /** `extract_epub_chapters` once the book is open: walks the item list and
      appends the text of every item that passes the chapter test. */
  method ExtractEpubChapters(items: seq<EpubItem>, typeIsHtml: EpubItem -> bool,
                             decode: seq<byte> -> string, getText: string -> string)
    returns (chapters: seq<string>)
    ensures chapters == EpubChapters(items, typeIsHtml, decode, getText)
  {
    chapters := [];
    var n := 0;
    while n < |items|
      invariant n <= |items|
      invariant chapters == EpubChapters(items[..n], typeIsHtml, decode, getText)
    {
      var item := items[n];
      assert items[..n + 1][..n] == items[..n];
      if typeIsHtml(item) || EndsWith(item.name, ".xhtml") {
        chapters := chapters + [getText(decode(item.content))];
      }
      n := n + 1;
    }
    assert items[..n] == items;
  }

  /** One chapter per selected item, in item-list order: the `m`-th chapter
      is the text of the `m`-th selected item, the selected items are at
      strictly increasing positions, and an item is selected exactly when it
      passes the test. */
  lemma EpubChaptersInOrder(items: seq<EpubItem>, typeIsHtml: EpubItem -> bool,
                            decode: seq<byte> -> string, getText: string -> string)
    ensures var chapters, idx := EpubChapters(items, typeIsHtml, decode, getText),
                                 KeptIndices(ChapterTest(typeIsHtml), items);
            && |chapters| == |idx|
            && (forall m :: 0 <= m < |idx| ==>
                  idx[m] < |items| && chapters[m] == ItemText(items[idx[m]], decode, getText))
            && (forall m, n :: 0 <= m < n < |idx| ==> idx[m] < idx[n])
            && (forall k :: 0 <= k < |items| ==>
                  (typeIsHtml(items[k]) || EndsWith(items[k].name, ".xhtml") <==> k in idx))
  {
    var p := ChapterTest(typeIsHtml);
    var idx := KeptIndices(p, items);
    forall k | 0 <= k < |items|
      ensures typeIsHtml(items[k]) || EndsWith(items[k].name, ".xhtml") <==> k in idx
    {
      assert p(items[k]) <==> typeIsHtml(items[k]) || EndsWith(items[k].name, ".xhtml");
    }
  }

  /** Items are handled one after another: the chapters of a joined item
      list are the chapters of the first part followed by those of the
      second, so an item failing the test contributes nothing. */
  lemma EpubChaptersConcat(a: seq<EpubItem>, b: seq<EpubItem>, typeIsHtml: EpubItem -> bool,
                           decode: seq<byte> -> string, getText: string -> string)
    ensures EpubChapters(a + b, typeIsHtml, decode, getText)
         == EpubChapters(a, typeIsHtml, decode, getText) + EpubChapters(b, typeIsHtml, decode, getText)
  {
    FilterConcat(ChapterTest(typeIsHtml), a, b);
  }

  /** The name half of the chapter test. */
  predicate XhtmlNamed(item: EpubItem) {
    EndsWith(item.name, ".xhtml")
  }

  /** When the type comparison never holds, the items that become chapters
      are exactly those named `.xhtml`, in item-list order. */
  lemma EpubChaptersWithoutTypeMatch(items: seq<EpubItem>, typeIsHtml: EpubItem -> bool)
    requires forall item :: !typeIsHtml(item)
    ensures ChapterItems(items, typeIsHtml) == Filter(XhtmlNamed, items)
  {
    FilterAgree(ChapterTest(typeIsHtml), XhtmlNamed, items);
  }

  /** An item that fails the test adds no chapter. */
  lemma EpubRejectedItemIgnored(items: seq<EpubItem>, x: EpubItem, typeIsHtml: EpubItem -> bool,
                                decode: seq<byte> -> string, getText: string -> string)
    requires !typeIsHtml(x) && !EndsWith(x.name, ".xhtml")
    ensures EpubChapters(items + [x], typeIsHtml, decode, getText)
         == EpubChapters(items, typeIsHtml, decode, getText)
  {
    EpubChaptersConcat(items, [x], typeIsHtml, decode, getText);
    assert ChapterItems([x], typeIsHtml) == [];
  }

  // ----------------------------------------------------------------- ZIP

  predicate IsTxtName(name: string) {
    EndsWith(name, ".txt")
  }

  /** The names of one directory that become chapters, in the order they are
      read: the directory listing sorted as Python strings, then reduced to
      the names ending in `.txt`. */
  function TxtMembers(files: seq<string>): seq<string> {
    Filter(IsTxtName, SortNames(files))
  }

  /** The texts of the given files of directory `root`, in the given order. */
  function Texts(root: string, names: seq<string>, readText: (string, string) -> string): seq<string> {
    seq(|names|, m requires 0 <= m < |names| => readText(root, names[m]))
  }

  lemma TextsAppend(root: string, names: seq<string>, more: seq<string>, readText: (string, string) -> string)
    ensures Texts(root, names + more, readText) == Texts(root, names, readText) + Texts(root, more, readText)
  {
  }

  /** The chapters of one directory: one per selected name, in that order. */
  function DirChapters(d: WalkEntry, readText: (string, string) -> string): seq<string> {
    Texts(d.root, TxtMembers(d.files), readText)
  }

  /** The chapters of the whole extracted tree, directory by directory in
      visiting order. */
  function ZipChapters(walk: seq<WalkEntry>, readText: (string, string) -> string): seq<string> {
    if walk == [] then []
    else ZipChapters(walk[..|walk| - 1], readText) + DirChapters(walk[|walk| - 1], readText)
  }

  /** What the selection of one directory keeps: only names ending in
      `.txt`, every such name with its full multiplicity, in ascending string
      order. */
  lemma TxtMembersSelection(files: seq<string>)
    ensures forall k :: 0 <= k < |TxtMembers(files)| ==> EndsWith(TxtMembers(files)[k], ".txt")
    ensures forall x :: IsTxtName(x) ==> multiset(TxtMembers(files))[x] == multiset(files)[x]
    ensures forall x :: !IsTxtName(x) ==> multiset(TxtMembers(files))[x] == 0
    ensures Sorted(TxtMembers(files))
  {
    TxtMembersMultiplicities(files);
    var sorted := SortNames(files);
    SortedSubsequence(sorted, KeptIndices(IsTxtName, sorted), TxtMembers(files));
  }

  lemma TxtMembersMultiplicities(files: seq<string>)
    ensures forall x :: IsTxtName(x) ==> multiset(TxtMembers(files))[x] == multiset(files)[x]
    ensures forall x :: !IsTxtName(x) ==> multiset(TxtMembers(files))[x] == 0
  {
    forall x {
      FilterMultiset(IsTxtName, SortNames(files), x);
    }
  }

  /** A directory without `.txt` names contributes no chapter. */
  lemma DirWithoutTxt(d: WalkEntry, readText: (string, string) -> string)
    requires forall k :: 0 <= k < |d.files| ==> !IsTxtName(d.files[k])
    ensures DirChapters(d, readText) == []
  {
    var sorted := SortNames(d.files);
    forall k | 0 <= k < |sorted| ensures !IsTxtName(sorted[k]) {
      assert sorted[k] in multiset(d.files);
    }
    FilterNonePass(IsTxtName, sorted);
  }

  /** Sorting and then filtering, as the program does, gives the same names
      as filtering first and sorting the survivors. */
  lemma TxtMembersFilterThenSort(files: seq<string>)
    ensures TxtMembers(files) == SortNames(Filter(IsTxtName, files))
  {
    var a, b := TxtMembers(files), SortNames(Filter(IsTxtName, files));
    TxtMembersSelection(files);
    forall x ensures multiset(a)[x] == multiset(b)[x] {
      FilterMultiset(IsTxtName, files, x);
    }
    SameMultiplicities(a, b);
    SortedUnique(a, b);
  }

  /** The read order is determined by the `.txt` names alone: any ascending
      arrangement of exactly those names is the order the program reads
      them in. */
  lemma TxtMembersCharacterized(files: seq<string>, names: seq<string>)
    requires Sorted(names)
    requires multiset(names) == multiset(Filter(IsTxtName, files))
    ensures TxtMembers(files) == names
  {
    TxtMembersFilterThenSort(files);
    SortedUnique(SortNames(Filter(IsTxtName, files)), names);
  }

  /** Plain string order, not numeric order: in the root directory of an
      unpacked archive, next to the saved `temp.zip`, the members
      `2_b.txt`, `1_a.txt` and `10_c.txt` are read as `10_c.txt`, `1_a.txt`,
      `2_b.txt`, because `'0'` sorts before `'_'`. */
  lemma TxtMembersStringOrderExample(files: seq<string>, expected: seq<string>)
    requires files == ["temp.zip", "2_b.txt", "1_a.txt", "10_c.txt"]
    requires expected == ["10_c.txt", "1_a.txt", "2_b.txt"]
    ensures TxtMembers(files) == expected
  {
    var txt := ["2_b.txt", "1_a.txt", "10_c.txt"];
    ExampleTxtNames(files, txt);
    ExampleArrangement(txt, expected);
    TxtMembersCharacterized(files, expected);
  }

  /** The whole extraction for an archive whose members sit next to the
      saved `temp.zip` in one directory: the chapters come out in the order
      `10_c.txt`, `1_a.txt`, `2_b.txt`. */
  lemma ZipStringOrderScenario(root: string, files: seq<string>, walk: seq<WalkEntry>,
                               readText: (string, string) -> string)
    requires files == ["temp.zip", "2_b.txt", "1_a.txt", "10_c.txt"]
    requires walk == [WalkEntry(root, files)]
    ensures ZipChapters(walk, readText)
         == [readText(root, "10_c.txt"), readText(root, "1_a.txt"), readText(root, "2_b.txt")]
  {
    var expected := ["10_c.txt", "1_a.txt", "2_b.txt"];
    TxtMembersStringOrderExample(files, expected);
    ZipSingleDirectory(walk, readText);
    TextsOfThree(root, expected, readText);
  }

  /** An archive that unpacks into one directory yields that directory's
      chapters. */
  lemma ZipSingleDirectory(walk: seq<WalkEntry>, readText: (string, string) -> string)
    requires |walk| == 1
    ensures ZipChapters(walk, readText) == DirChapters(walk[0], readText)
  {
    assert walk[..0] == [];
  }

  lemma TextsOfThree(root: string, names: seq<string>, readText: (string, string) -> string)
    requires |names| == 3
    ensures Texts(root, names, readText)
         == [readText(root, names[0]), readText(root, names[1]), readText(root, names[2])]
  {
  }

  lemma ExampleTxtNames(files: seq<string>, txt: seq<string>)
    requires files == ["temp.zip", "2_b.txt", "1_a.txt", "10_c.txt"]
    requires txt == ["2_b.txt", "1_a.txt", "10_c.txt"]
    ensures Filter(IsTxtName, files) == txt
  {
    assert files == [files[0]] + txt;
    assert !IsTxtName(files[0]);
    assert IsTxtName(txt[0]) && IsTxtName(txt[1]) && IsTxtName(txt[2]);
    FilterConcat(IsTxtName, [files[0]], txt);
    FilterAllPass(IsTxtName, txt);
  }

  /** The expected order is an ascending arrangement of the `.txt` names. */
  lemma ExampleArrangement(txt: seq<string>, expected: seq<string>)
    requires txt == ["2_b.txt", "1_a.txt", "10_c.txt"]
    requires expected == ["10_c.txt", "1_a.txt", "2_b.txt"]
    ensures Sorted(expected) && multiset(expected) == multiset(txt)
  {
    ExampleNamesOrdered();
    assert expected == [txt[2], txt[1], txt[0]];
  }

  lemma ExampleNamesOrdered()
    ensures LessEq("10_c.txt", "1_a.txt") && LessEq("1_a.txt", "2_b.txt") && LessEq("10_c.txt", "2_b.txt")
  {
    var a, b, c := "10_c.txt", "1_a.txt", "2_b.txt";
    assert a[0] == b[0] && a[1] < b[1] && a[1..][0] == a[1] && b[1..][0] == b[1];
    assert b[0] < c[0];
  }

  /** The inner loop of `extract_zip_chapters` for one visited directory:
      goes through the sorted listing and reads every name ending in `.txt`. */
  method ReadDirectory(root: string, sorted: seq<string>, readText: (string, string) -> string)
    returns (texts: seq<string>)
    ensures texts == Texts(root, Filter(IsTxtName, sorted), readText)
  {
    texts := [];
    var k := 0;
    while k < |sorted|
      invariant k <= |sorted|
      invariant texts == Texts(root, Filter(IsTxtName, sorted[..k]), readText)
    {
      var name := sorted[k];
      ghost var kept := Filter(IsTxtName, sorted[..k]);
      assert sorted[..k + 1][..k] == sorted[..k];
      if EndsWith(name, ".txt") {
        TextsAppend(root, kept, [name], readText);
        texts := texts + [readText(root, name)];
      } else {
        assert Filter(IsTxtName, sorted[..k + 1]) == kept;
      }
      k := k + 1;
    }
    assert sorted[..k] == sorted;
  }

  /** `extract_zip_chapters` once the archive is unpacked: for each visited
      directory in turn, the chapters of its `.txt` files in sorted order. */
  method ExtractZipChapters(walk: seq<WalkEntry>, readText: (string, string) -> string)
    returns (chapters: seq<string>)
    ensures chapters == ZipChapters(walk, readText)
  {
    chapters := [];
    var w := 0;
    while w < |walk|
      invariant w <= |walk|
      invariant chapters == ZipChapters(walk[..w], readText)
    {
      var texts := ReadDirectory(walk[w].root, SortNames(walk[w].files), readText);
      chapters := chapters + texts;
      assert walk[..w + 1][..w] == walk[..w];
      w := w + 1;
    }
    assert walk[..w] == walk;
  }
}
