/**
  * The structural part of EPUB 3 assembly done by `create_epub`: the
  * metadata, the items in the order they are registered, the table of
  * contents and the spine (the reading order, section 3.4.12 of EPUB 3.2
  * Packages).
  *
  * The book is a plain record. Markdown rendering is the parameter `render`,
  * the re-encoded PNG bytes of the cover are the parameter `coverPng`, and the
  * fresh UUID is the parameter `identifier`. What the EPUB library does inside
  * `set_cover`, `EpubNcx`, `EpubNav` and when writing the file is not part of
  * this model: those calls are only recorded.
  */
module Package {
  import opened Text
  import opened OrderedMap

  newtype byte = x: int | 0 <= x < 256

  /** The metadata record the editor keeps beside the chapters. */
  datatype Metadata = Metadata(description: string, publisher: string, publicationDate: string, rights: string)

  /** One `add_metadata(namespace, name, value)` call. */
  datatype MetaField = MetaField(namespace: string, name: string, value: string)

  /** What the assembler registers with `add_item`. */
  datatype Item =
    | Asset(uid: string, fileName: string, mediaType: string, data: seq<byte>)  // an EpubItem with binary content
    | Document(title: string, fileName: string, content: string)                // an EpubHtml page
    | Stylesheet(uid: string, fileName: string, mediaType: string, css: string) // an EpubItem with text content
    | Ncx                                                                        // EpubNcx(), contents decided by the library
    | Nav                                                                        // EpubNav(), contents decided by the library

  /**
    * The assembled book. `cover` records the arguments of the `set_cover`
    * call (the path and the bytes designated as the cover), if it was made.
    */
  datatype Book = Book(
    identifier: string,
    title: string,
    language: string,
    authors: seq<string>,
    metadata: seq<MetaField>,
    items: seq<Item>,
    cover: Option<(string, seq<byte>)>,
    toc: seq<Item>,
    spine: seq<Item>)

  /** A fresh `EpubBook()` as far as this model looks at it. */
  const NewBook := Book("", "", "", [], [], [], None, [], [])

  function AddItem(book: Book, item: Item): Book
  {
    book.(items := book.items + [item])
  }

  function AddMetadata(book: Book, namespace: string, name: string, value: string): Book
  {
    book.(metadata := book.metadata + [MetaField(namespace, name, value)])
  }

  // ---------------------------------------------------------------------------
  // The pieces
  // ---------------------------------------------------------------------------

  const CoverImagePath := "images/cover.png"

  function CoverImage(png: seq<byte>): Item
  {
    Asset("cover_image", CoverImagePath, "image/png", png)
  }

  /** The page that shows the cover image, centred. */
  const CoverPage := Document("Cover", "cover.xhtml",
    "<html><body><div style=\"text-align: center; padding: 0; margin: 0;\">\n"
    + "            <img src=\"images/cover.png\" alt=\"cover\"/></div></body></html>")

  const TocHead := ["<h1>Table of Contents</h1>", "<nav>", "<ol>"]
  const TocTail := ["</ol>", "</nav>"]

  /** The table-of-contents line for one chapter: a link to the anchor named after its title. */
  function TocEntry(title: string): string
  {
    "<li><a href=\"#" + title + "\">" + title + "</a></li>"
  }

  function TocEntries(titles: seq<string>): seq<string>
  {
    seq(|titles|, i requires 0 <= i < |titles| => TocEntry(titles[i]))
  }

  /** The table-of-contents page: its lines joined by newlines. */
  function TocPage(titles: seq<string>): Item
  {
    Document("Table of Contents", "toc.xhtml", Join(TocHead + TocEntries(titles) + TocTail, "\n"))
  }

  /** `chapter_{idx}.xhtml`: chapter files are named by 1-based position, not by title. */
  function ChapterFileName(idx: nat): string
  {
    "chapter_" + IntToString(idx) + ".xhtml"
  }

  /** The page of chapter number `idx`: a heading whose id is the title, then the rendered body. */
  function ChapterDoc(idx: nat, title: string, body: string, render: string -> string): Item
  {
    Document(title, ChapterFileName(idx), "<h1 id=\"" + title + "\">" + title + "</h1>\n" + render(body))
  }

  /** The chapter pages in collection order, numbered from 1. */
  function ChapterDocs(chapters: seq<Entry>, render: string -> string): seq<Item>
  {
    seq(|chapters|, i requires 0 <= i < |chapters| => ChapterDoc(i + 1, chapters[i].0, chapters[i].1, render))
  }

  /** The stylesheet text, line by line as it is written (eight spaces of indentation each). */
  const StyleText :=
    "\n"
    + "        body { font-family: \"Crimson Text\", Georgia, serif; line-height: 1.6; margin: 2em; }\n"
    + "        h1, h2, h3 { color: #2c3e50; margin-top: 1.5em; }\n"
    + "        p { text-align: justify; margin-bottom: 1em; }\n"
    + "        img { max-width: 100%; display: block; margin: 1em auto; }\n"
    + "        nav { margin: 2em 0; }\n"
    + "        nav ol { list-style-type: none; padding-left: 0; }\n"
    + "        nav ol li { margin-bottom: 0.5em; }\n"
    + "        nav ol li a { color: #2c3e50; text-decoration: none; }\n"
    + "        nav ol li a:hover { text-decoration: underline; }\n"
    + "    "

  const StyleItem := Stylesheet("style", "style/main.css", "text/css", StyleText)

  /** The four `add_metadata` calls, in order. */
  function MetadataFields(metadata: Metadata): seq<MetaField>
  {
    [ MetaField("DC", "description", metadata.description),
      MetaField("DC", "publisher", metadata.publisher),
      MetaField("DC", "date", metadata.publicationDate),
      MetaField("DC", "rights", metadata.rights) ]
  }

  /** The cover image and the cover page, registered only when there is a cover. */
  function CoverItems(coverPng: Option<seq<byte>>): seq<Item>
  {
    if coverPng.Some? then [CoverImage(coverPng.value), CoverPage] else []
  }

  /** The items registered after the chapters: the two navigation documents, then the stylesheet. */
  const Closing := [Ncx, Nav, StyleItem]

  /** Every item, in the order it is registered with `add_item`. */
  function Registered(coverPng: Option<seq<byte>>, chapters: seq<Entry>, render: string -> string): seq<Item>
  {
    CoverItems(coverPng) + [TocPage(Titles(chapters))] + ChapterDocs(chapters, render) + Closing
  }

  /** The spine: the cover page if there is one, the table of contents, the chapters. */
  function ReadingOrder(coverPng: Option<seq<byte>>, chapters: seq<Entry>, render: string -> string): seq<Item>
  {
    (if coverPng.Some? then [CoverPage] else []) + [TocPage(Titles(chapters))] + ChapterDocs(chapters, render)
  }

  /**
    * The book `create_epub` returns: identifier, title, language `en`, one
    * author and the four metadata fields; the registered items; the cover
    * designation; the chapters as the table of contents; and the spine.
    */
  function Assembled(identifier: string, title: string, author: string, coverPng: Option<seq<byte>>,
                     chapters: seq<Entry>, metadata: Metadata, render: string -> string): (book: Book)
    ensures |book.items| == |book.spine| + |Closing| + (if coverPng.Some? then 1 else 0)
    ensures |book.toc| < |book.spine| && book.toc == book.spine[|book.spine| - |book.toc|..]
  {
    Book(
      identifier, title, "en", [author],
      MetadataFields(metadata),
      Registered(coverPng, chapters, render),
      if coverPng.Some? then Some((CoverImagePath, coverPng.value)) else None,
      ChapterDocs(chapters, render),
      ReadingOrder(coverPng, chapters, render))
  }

  // ---------------------------------------------------------------------------
  // create_epub
  // ---------------------------------------------------------------------------

  /** The loop of `create_epub` that writes the table-of-contents lines. */
  method TocLines(titles: seq<string>) returns (lines: seq<string>)
    ensures lines == TocHead + TocEntries(titles) + TocTail
  {
    lines := TocHead;
    for i := 0 to |titles|
      invariant lines == TocHead + TocEntries(titles)[..i]
    {
      lines := lines + [TocEntry(titles[i])];
      assert TocEntries(titles)[..i + 1] == TocEntries(titles)[..i] + [TocEntry(titles[i])];
    }
    assert TocEntries(titles)[..|titles|] == TocEntries(titles);
    lines := lines + TocTail;
  }

  /** The loop of `create_epub` that renders each chapter, registers its page and collects the pages. */
  method AddChapterPages(book0: Book, chapters: seq<Entry>, render: string -> string)
    returns (book: Book, pages: seq<Item>)
    ensures pages == ChapterDocs(chapters, render)
    ensures book == book0.(items := book0.items + pages)
  {
    book, pages := book0, [];
    for i := 0 to |chapters|
      invariant pages == ChapterDocs(chapters, render)[..i]
      invariant book == book0.(items := book0.items + pages)
    {
      var idx := i + 1;
      var html := render(chapters[i].1);
      var chapter := Document(chapters[i].0, ChapterFileName(idx),
                              "<h1 id=\"" + chapters[i].0 + "\">" + chapters[i].0 + "</h1>\n" + html);
      book := AddItem(book, chapter);
      pages := pages + [chapter];
      assert ChapterDocs(chapters, render)[..i + 1] == ChapterDocs(chapters, render)[..i] + [chapter];
    }
    assert ChapterDocs(chapters, render)[..|chapters|] == ChapterDocs(chapters, render);
  }

  /** `create_epub(title, author, cover_image, chapters, metadata)`, built step by step. */
  method CreateEpub(identifier: string, title: string, author: string, coverPng: Option<seq<byte>>,
                    chapters: seq<Entry>, metadata: Metadata, render: string -> string)
    returns (book: Book)
    ensures book == Assembled(identifier, title, author, coverPng, chapters, metadata, render)
  {
    book := NewBook.(identifier := identifier);
    book := book.(title := title);
    book := book.(language := "en");
    book := book.(authors := book.authors + [author]);
    book := AddMetadata(book, "DC", "description", metadata.description);
    book := AddMetadata(book, "DC", "publisher", metadata.publisher);
    book := AddMetadata(book, "DC", "date", metadata.publicationDate);
    book := AddMetadata(book, "DC", "rights", metadata.rights);
    assert book.metadata == MetadataFields(metadata);

    var coverPage: Option<Item> := None;
    if coverPng.Some? {
      var png := coverPng.value;
      book := AddItem(book, CoverImage(png));
      coverPage := Some(CoverPage);
      book := AddItem(book, CoverPage);
      book := book.(cover := Some((CoverImagePath, png)));
    }
    ghost var covers := CoverItems(coverPng);
    assert book.items == covers;

    var tocLines := TocLines(Titles(chapters));
    var tocPage := Document("Table of Contents", "toc.xhtml", Join(tocLines, "\n"));
    book := AddItem(book, tocPage);

    var chapterObjects;
    book, chapterObjects := AddChapterPages(book, chapters, render);
    ghost var docs := ChapterDocs(chapters, render);
    assert book.items == covers + [tocPage] + docs;

    book := book.(toc := chapterObjects);
    book := AddItem(book, Ncx);
    book := AddItem(book, Nav);
    book := AddItem(book, StyleItem);
    assert book.items == covers + [tocPage] + docs + Closing;

    var spine: seq<Item> := [];
    if coverPage.Some? {
      spine := spine + [coverPage.value];
    }
    spine := spine + [tocPage];
    spine := spine + chapterObjects;
    assert spine == ReadingOrder(coverPng, chapters, render);
    book := book.(spine := spine);
    assert book.items == Registered(coverPng, chapters, render);
  }

  // ---------------------------------------------------------------------------
  // What the assembled book guarantees
  // ---------------------------------------------------------------------------

  /**
    * The reading order: the cover page first exactly when a cover was given,
    * then the table of contents, then chapter `k` (0-based) as file
    * `chapter_{k+1}.xhtml` titled with the k-th title; the table of contents
    * of the book lists the same chapter pages in the same order.
    */
  lemma SpineOrder(coverPng: Option<seq<byte>>, chapters: seq<Entry>, render: string -> string)
    ensures var spine := ReadingOrder(coverPng, chapters, render);
      var off := if coverPng.Some? then 1 else 0;
      && |spine| == off + 1 + |chapters|
      && (coverPng.Some? <==> spine[0] == CoverPage)
      && spine[off] == TocPage(Titles(chapters))
      && ChapterDocs(chapters, render) == spine[off + 1..]
      && forall k :: 0 <= k < |chapters| ==>
           spine[off + 1 + k].Document?
           && spine[off + 1 + k].title == chapters[k].0
           && spine[off + 1 + k].fileName == ChapterFileName(k + 1)
  {
    var spine := ReadingOrder(coverPng, chapters, render);
    if coverPng.None? {
      assert spine[0].fileName == "toc.xhtml";
      assert "toc.xhtml" != CoverPage.fileName;
    }
  }

  /** Every page in the spine and in the table of contents is one of the registered items. */
  lemma SpineInItems(coverPng: Option<seq<byte>>, chapters: seq<Entry>, render: string -> string)
    ensures var items := Registered(coverPng, chapters, render);
      && (forall x :: x in ReadingOrder(coverPng, chapters, render) ==> x in items)
      && (forall x :: x in ChapterDocs(chapters, render) ==> x in items)
  {
    var items := Registered(coverPng, chapters, render);
    var docs := ChapterDocs(chapters, render);
    var covers := CoverItems(coverPng);
    var toc := TocPage(Titles(chapters));
    forall x | x in docs ensures x in items {
      var k :| 0 <= k < |docs| && docs[k] == x;
      assert items[|covers| + 1 + k] == x;
    }
    assert items[|covers|] == toc;
    if coverPng.Some? {
      assert items[1] == CoverPage;
    }
  }

  /** The designated cover is the embedded cover image: same path, same bytes. */
  lemma CoverDesignationMatchesImage(identifier: string, title: string, author: string, coverPng: Option<seq<byte>>,
                                     chapters: seq<Entry>, metadata: Metadata, render: string -> string)
    ensures var book := Assembled(identifier, title, author, coverPng, chapters, metadata, render);
      && (book.cover.Some? <==> coverPng.Some?)
      && (book.cover.Some? ==>
            book.items[0].Asset?
            && book.items[0].fileName == book.cover.value.0
            && book.items[0].data == book.cover.value.1 == coverPng.value)
  {
  }

  lemma ChapterFileNameInjective(i: nat, j: nat)
    requires ChapterFileName(i) == ChapterFileName(j)
    ensures i == j
  {
    var a, b := IntToString(i), IntToString(j);
    var s := ChapterFileName(i);
    assert |a| == |b|;
    assert s[8..8 + |a|] == a;
    assert s[8..8 + |b|] == b;
    IntToStringInjective(i, j);
  }

  lemma ChapterFileNameNotFixed(i: nat)
    ensures ChapterFileName(i) != "cover.xhtml" && ChapterFileName(i) != "toc.xhtml"
  {
    var f := ChapterFileName(i);
    assert f[0] == 'c' && f[1] == 'h';
  }

  /** No two pages of the spine share a file name. */
  lemma SpineFileNamesDistinct(coverPng: Option<seq<byte>>, chapters: seq<Entry>, render: string -> string)
    ensures var spine := ReadingOrder(coverPng, chapters, render);
      forall p, q :: 0 <= p < q < |spine| ==>
        spine[p].Document? && spine[q].Document? && spine[p].fileName != spine[q].fileName
  {
    var spine := ReadingOrder(coverPng, chapters, render);
    forall p, q | 0 <= p < q < |spine|
      ensures spine[p].Document? && spine[q].Document? && spine[p].fileName != spine[q].fileName
    {
      SpinePairDistinct(coverPng, chapters, render, p, q);
    }
  }

  /** The file name at position `p` of the spine. */
  function SpineFileName(hasCover: bool, p: nat): string
  {
    var off := if hasCover then 2 else 1;
    if p + 1 < off then "cover.xhtml"
    else if p + 1 == off then "toc.xhtml"
    else ChapterFileName(p - off + 1)
  }

  lemma SpineFileNameAt(coverPng: Option<seq<byte>>, chapters: seq<Entry>, render: string -> string, p: nat)
    requires p < |ReadingOrder(coverPng, chapters, render)|
    ensures var spine := ReadingOrder(coverPng, chapters, render);
      spine[p].Document? && spine[p].fileName == SpineFileName(coverPng.Some?, p)
  {
    var off := if coverPng.Some? then 2 else 1;
    if p >= off {
      assert ReadingOrder(coverPng, chapters, render)[p] == ChapterDocs(chapters, render)[p - off];
    }
  }

  lemma SpinePairDistinct(coverPng: Option<seq<byte>>, chapters: seq<Entry>, render: string -> string, p: nat, q: nat)
    requires p < q < |ReadingOrder(coverPng, chapters, render)|
    ensures var spine := ReadingOrder(coverPng, chapters, render);
      spine[p].Document? && spine[q].Document? && spine[p].fileName != spine[q].fileName
  {
    SpineFileNameAt(coverPng, chapters, render, p);
    SpineFileNameAt(coverPng, chapters, render, q);
    SpineFileNamesDiffer(coverPng.Some?, p, q);
  }

  lemma SpineFileNamesDiffer(hasCover: bool, p: nat, q: nat)
    requires p < q
    ensures SpineFileName(hasCover, p) != SpineFileName(hasCover, q)
  {
    var off := if hasCover then 2 else 1;
    var fp, fq := SpineFileName(hasCover, p), SpineFileName(hasCover, q);
    if q + 1 <= off {
      assert fp == "cover.xhtml" && fq == "toc.xhtml";
    } else {
      var j := q - off + 1;
      assert fq == ChapterFileName(j);
      ChapterFileNameNotFixed(j);
      if p + 1 <= off {
        assert fp == "cover.xhtml" || fp == "toc.xhtml";
      } else {
        var i := p - off + 1;
        assert fp == ChapterFileName(i);
        if fp == fq {
          ChapterFileNameInjective(i, j);
        }
      }
    }
  }

  /**
    * The table-of-contents page, read back line by line, is the heading, one
    * link per chapter title in collection order, and the closing tags; the
    * link of the k-th line targets the id of the k-th chapter's heading.
    */
  lemma TocLinesListChapters(chapters: seq<Entry>)
    requires forall k :: 0 <= k < |chapters| ==> '\n' !in chapters[k].0
    ensures var lines := Split(TocPage(Titles(chapters)).content, '\n');
      && |lines| == |chapters| + 5
      && lines[..3] == TocHead
      && lines[3 + |chapters|..] == TocTail
      && forall k :: 0 <= k < |chapters| ==> lines[3 + k] == TocEntry(chapters[k].0)
  {
    var entries := TocEntries(Titles(chapters));
    var parts := TocHead + entries + TocTail;
    TocFrameNoNewline();
    forall k | 0 <= k < |entries| ensures '\n' !in entries[k] {
      TocEntryNoNewline(chapters[k].0);
    }
    forall i | 0 <= i < |parts| ensures '\n' !in parts[i] {
      if i < 3 {
        assert parts[i] == TocHead[i];
      } else if i < 3 + |entries| {
        assert parts[i] == entries[i - 3];
      } else {
        assert parts[i] == TocTail[i - 3 - |entries|];
      }
    }
    SplitOfJoin(parts, '\n');
  }

  lemma TocEntryNoNewline(t: string)
    requires '\n' !in t
    ensures '\n' !in TocEntry(t)
  {
    assert '\n' !in "<li><a href=\"#";
    assert '\n' !in "\">";
    assert '\n' !in "</a></li>";
  }

  lemma TocFrameNoNewline()
    ensures forall i :: 0 <= i < |TocHead| ==> '\n' !in TocHead[i]
    ensures forall i :: 0 <= i < |TocTail| ==> '\n' !in TocTail[i]
  {
    assert '\n' !in TocHead[0];
    assert '\n' !in TocHead[1];
    assert '\n' !in TocHead[2];
    assert '\n' !in TocTail[0];
    assert '\n' !in TocTail[1];
  }

  /**
    * Two builds from the same inputs differ only in their identifier, which
    * is the fresh UUID of each build.
    */
  lemma BuildsDifferOnlyInIdentifier(id1: string, id2: string, title: string, author: string,
                                     coverPng: Option<seq<byte>>, chapters: seq<Entry>,
                                     metadata: Metadata, render: string -> string)
    ensures Assembled(id2, title, author, coverPng, chapters, metadata, render)
         == Assembled(id1, title, author, coverPng, chapters, metadata, render).(identifier := id2)
  {
  }
}
