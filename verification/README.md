# EPUB creator: chapter collection and book assembly in Dafny

This project models the core of a small EPUB 3 authoring tool (`epub.py`).
The tool keeps a collection of chapters, which are (title, Markdown body)
pairs, in an `OrderedDict`. Four operations edit the collection: add a
chapter, remove one, replace a chapter's body, and rename one. When the user
exports, the tool checks the inputs and then assembles a book. The book has
its metadata, an optional cover, a table-of-contents page, one XHTML page per
chapter, the navigation documents, a stylesheet and a spine, which is the
reading order.

Modules:

- `Text` (`text.dfy`) models the Python built-ins the core relies on:
  - `str.split()`, with Python's full whitespace set;
  - `int()` on a string: optional sign, ASCII digits, single underscores between digits;
  - `str(int)`;
  - `'\n'.join`.

  Both `int()` and `str()` also follow CPython's default limit of 4300 decimal digits (CPython 3.11 and later). A conversion with more digits raises ValueError. `Text` also defines `Split`, a one-character `s.split(sep)`. The program never calls it; it is there so that `Package.TocLinesListChapters` can read the table-of-contents page back line by line.
- `ChapterNumber` (`chapter_num.dfy`) models the sort key `get_chapter_num` and the title `Chapter {n}` that adding a chapter creates.
- `OrderedMap` (`ordered_map.dfy`) models the `OrderedDict` as a sequence of pairs:
  - `Put` is `d[k] = v`: a key that is already present keeps its position;
  - `PutAll` is the loop that refills a fresh dictionary pair by pair.
- `StableSort` (`stable_sort.dfy`) models `sorted(..., key=...)`. The result is ordered by key, is a permutation of the input, and keeps the input order within each key.
- `ChapterStore` (`chapter_store.dfy`) holds the class `Store`:
  - its field `chapters` is the collection;
  - its methods are the four editing operations;
  - adding, removing and renaming are written as the loop that rebuilds the dictionary and rebinds the field, as the program does;
  - updating a body assigns in place, as the program does;
  - each method is proved equal to a function of the old collection (`Added`, `Removed`, `ContentUpdated`, `Renamed`);
  - the lemmas state what those functions do.
- `Package` (`package.dfy`) models `create_epub`. The method `CreateEpub` builds the book step by step and is proved to equal the declarative `Assembled`; lemmas state what the assembled book guarantees.
- `Export` (`export.dfy`) models two rules of the Generate button: the guard that refuses to export, and the download file name.

Behaviours of the code that a reader might not expect, all modelled as written:

- **Sort key.** The key is `int()` of the *second* whitespace-separated word, whatever the first word is; it is not a number read from the end of a `Chapter <N>` title. So `Part 7` sorts as 7, and `Chapter 3 draft` sorts as 3.
- **Unparseable titles sort last.** A title whose key cannot be read counts as `float('inf')`, both for sorting and for the next number. As a result, once any title fails to parse, the next title is `Chapter inf`. A second add then overwrites the body of that `Chapter inf` with an empty string (`AddedWhenSomeUnparseable`).
- **Digit limit.** A second word of more than 4300 digits is refused by `int()`, so its title sorts as infinity. If the largest key is `10^4300 - 1`, `str()` of the next number raises inside `add_chapter`, and the collection stays as it was (`AddFailsExactlyAtLimit`, `Store.AddChapter`).
- **Renaming onto an existing title.** This merges the two entries. The merged entry sits at the earlier of the two positions and keeps the body of the later one, because the later assignment wins (`Renamed`, `Merged`).
- **Fragment-only links.** The links of the table-of-contents page are `#title`. The chapter headings carry the matching `id`, but they live in other files.

## Model

| member | source | states |
|---|---|---|
| Text.Words | epub.py:26 | every element of `split()` is a non-empty word free of whitespace |
| Text.WordsOfBlank | epub.py:26 | a string splits into no words exactly when it is all whitespace |
| Text.ParseInt | epub.py:26 | a string `int()` accepts is non-empty and holds at most 4300 digits; a longer numeral raises ValueError |
| Text.ParseIntIsWord | epub.py:26 | a string `int()` accepts is a single word |
| Text.ParseIntBounded | epub.py:26 | every int `int()` returns is below `10^4300` in magnitude |
| Text.PrintableRange | epub.py:40 | `str(n)` succeeds exactly when `-10^4300 < n < 10^4300` |
| Text.ParseIntToString | epub.py:26-40 | `int(str(n)) == n` whenever `str(n)` succeeds; the digits of a longer int are refused by `int()` too |
| Text.WordsOfUnwords | epub.py:26 | splitting on whitespace recovers words that were joined by single spaces |
| Text.SplitOfJoin | epub.py:114 | joining lines that contain no newline with `'\n'` and splitting again gives back the same lines |
| ChapterNumber.GetChapterNumOfNumberedTitle | epub.py:24-40 | the key of `Chapter {k}` is `k` for infinity and for every int `str()` can print; the digits of a longer int would give infinity |
| ChapterNumber.NumberedTitleInjective | epub.py:40 | different numbers give different synthesised titles |
| ChapterNumber.GetChapterNumIgnoresFirstWord | epub.py:24-26 | for every first word `w` and every second word `x` that `int()` accepts, the title `w x` has key `int(x)`: the first word plays no part |
| ChapterNumber.GetChapterNumIgnoresLaterWords | epub.py:24-26 | for every first word `w`, second word `x` that `int()` accepts and tail `rest`, `w x rest` has key `int(x)`: words after the second do not matter |
| ChapterNumber.GetChapterNumSingleWord | epub.py:26-28 | every one-word title (no second word, `IndexError`) has key infinity |
| ChapterNumber.GetChapterNumNonInteger | epub.py:26-28 | whenever `int()` rejects the second word (`ValueError`), the key is infinity, with or without further words |
| ChapterNumber.GetChapterNumTooManyDigits | epub.py:26-28 | a second word of more than 4300 digits gives key infinity, because `int()` raises ValueError and the bare `except` catches it |
| ChapterNumber.GetChapterNumBounded | epub.py:24-28 | an int key is below `10^4300` in magnitude |
| ChapterNumber.Max | epub.py:32 | `max` of a non-empty list is an element of it and bounds every element |
| ChapterNumber.Succ | epub.py:32 | `+ 1` never decreases; on an int it gives an int strictly above it and at most one above it; infinity stays infinite |
| OrderedMap.Put | epub.py:38-53 | `d[k] = v` replaces the value in place for a present key and appends a new key at the end |
| OrderedMap.PutKeepsDistinct | epub.py:38-53 | assigning keeps keys distinct, and the key is present afterwards |
| OrderedMap.PutAllFresh | epub.py:37-48 | refilling a fresh dictionary with pairs whose keys are distinct reproduces them in order |
| OrderedMap.PutAllConcat | epub.py:59-63 | assigning a sequence of pairs is assigning its prefix, then its suffix |
| StableSort.SortByKey | epub.py:35 | the result is ordered by key and is a permutation of the input |
| StableSort.SortStable | epub.py:35 | the sort is stable: for every key, the entries with that key appear in the same order as in the input |
| StableSort.SortSameEntries | epub.py:35 | an entry is in the sorted result exactly when it is in the input |
| StableSort.SortKeepsDistinct | epub.py:35-38 | sorting keeps the titles distinct |
| ChapterStore.Store.constructor | epub.py:12-13 | a new session starts with the one chapter `Chapter 1` with an empty body |
| ChapterStore.Store.AddChapter | epub.py:30-41 | the add succeeds exactly when `str()` of the next number succeeds; then the loop that refills the sorted entries and assigns the new title yields `Added(old chapters)`; otherwise the collection is unchanged; titles stay distinct |
| ChapterStore.AddFailsExactlyAtLimit | epub.py:31-41 | adding fails exactly when the largest key is `10^4300 - 1`, the one case where the next number has too many digits for `str()` |
| ChapterStore.AddedKeepsOthers | epub.py:30-41 | adding keeps every entry whose title differs from the new title, the new title has the empty body, and the collection grows by one unless that title was already present |
| ChapterStore.AddedToEmpty | epub.py:32-40 | with no chapters the new chapter is `Chapter 1` |
| ChapterStore.AddedWhenAllParse | epub.py:31-41 | when every key is an int, the new number is above every key, and the result is the stably sorted chapters followed by the new empty chapter |
| ChapterStore.AddedWhenSomeUnparseable | epub.py:26-41 | when some key is infinity, the new title is `Chapter inf`; an existing `Chapter inf` is reset to empty in place, otherwise it is appended |
| ChapterStore.AddedPutsNewTitle | epub.py:34-41 | adding assigns the new title on top of the sorted entries: a title already present is reset to the empty body in its sorted position, a new one is appended |
| ChapterStore.AddedIsSorted | epub.py:34-40 | after adding, the collection is ordered by key |
| ChapterStore.AddedKeepsDistinct | epub.py:30-41 | adding keeps titles distinct |
| ChapterStore.SortedTitlesSame | epub.py:35 | sorting neither gains nor loses a title |
| ChapterStore.AddedToSwappedPair | epub.py:30-41 | two entries with int keys in descending order are swapped, and the new chapter is numbered one above the larger key |
| ChapterStore.AddedExample | epub.py:30-41 | `Chapter 3`, `Chapter 1` become `Chapter 1`, `Chapter 3`, `Chapter 4` with the bodies carried along |
| ChapterStore.Store.RemoveChapter | epub.py:43-49 | the filtering loop yields `Removed(old chapters, t)`, keeping titles distinct |
| ChapterStore.WithoutAbsent | epub.py:43-44 | removing an absent title changes nothing |
| ChapterStore.WithoutCutsOut | epub.py:45-48 | when titles are distinct, filtering out the title at position `i` leaves exactly the entries before and after `i`, in order |
| ChapterStore.RemovedEntries | epub.py:43-49 | after removal the entries are exactly the old ones whose title is not the removed title |
| ChapterStore.RemovedCutsOut | epub.py:43-49 | removing a present title cuts out exactly its entry and keeps the order of the rest |
| ChapterStore.RemovedKeepsDistinct | epub.py:43-49 | after removal the title is gone and titles stay distinct |
| ChapterStore.Store.UpdateChapterContent | epub.py:51-53 | assigning the body of a present title changes that body only; an absent title changes nothing |
| ChapterStore.ContentUpdated | epub.py:51-53 | titles and their order are unchanged, every entry with another title is unchanged, and a present title now has the new content |
| ChapterStore.ContentUpdatedKeepsDistinct | epub.py:51-53 | updating a body keeps titles distinct |
| ChapterStore.Store.UpdateChapterTitle | epub.py:55-64 | the relabelling loop yields `Renamed(old chapters, o, n)`, keeping titles distinct |
| ChapterStore.RelabelAll | epub.py:58-63 | the loop that fills a fresh dict assigns each entry in order, under the new title with the saved body where the title is the old one; its result is that sequence of assignments applied to an empty dict |
| ChapterStore.Renamed | epub.py:55-64 | after a real rename the new title is present, and its body is the old body of the renamed chapter, unless the new title already existed further down, in which case it keeps its own old body |
| ChapterStore.Merged | epub.py:59-63 | renaming onto an existing title leaves one entry at the earlier position with the later body, and shifts the rest |
| ChapterStore.RenameLoopGivesRenamed | epub.py:55-64 | the loop that assigns every entry, relabelling the old title, equals the reference `Renamed`: an in-place rename when the new title is fresh, a merge when it is taken |
| ChapterStore.RenamedTitles | epub.py:55-64 | after renaming, the titles are the old ones minus `o` plus `n` |
| ChapterStore.RenamedKeepsDistinct | epub.py:55-64 | renaming keeps titles distinct |
| Package.TocLines | epub.py:107-112 | the table-of-contents lines are the heading, one link per title in order, and the closing tags |
| Package.AddChapterPages | epub.py:118-127 | the chapter loop registers one page per chapter, in collection order, as `chapter_{k+1}.xhtml` with the title heading and the rendered body, and adds nothing else to the book |
| Package.Assembled | epub.py:69-162 | the book registers the spine's pages plus the three closing items, and the cover image when there is one; the toc is the tail of the spine |
| Package.CreateEpub | epub.py:69-162 | building step by step yields the assembled book: identifier, title, `en`, author, four metadata fields, items in registration order, cover designation, toc and spine |
| Package.SpineOrder | epub.py:154-160 | the spine starts with the cover page exactly when there is a cover, then the table of contents, then chapter `k` as `chapter_{k+1}.xhtml`; the toc lists the same chapter pages |
| Package.SpineInItems | epub.py:95-160 | every page in the spine and in the toc is a registered item |
| Package.CoverDesignationMatchesImage | epub.py:84-104 | the designated cover exists exactly when a cover is given and has the path and bytes of the embedded image |
| Package.ChapterFileNameInjective | epub.py:123 | different chapter numbers give different file names |
| Package.SpineFileNamesDistinct | epub.py:99-160 | no two spine pages share a file name |
| Package.TocLinesListChapters | epub.py:107-115 | read back line by line, the table of contents is the heading, a link to each chapter's title in collection order, and the closing tags |
| Package.BuildsDifferOnlyInIdentifier | epub.py:73 | two builds from the same inputs differ only in their identifier |
| Export.AnyContent | epub.py:217 | `any(values)` holds exactly when some body is non-empty |
| Export.CheckExport | epub.py:213-219 | export proceeds exactly when title and author are non-empty and some chapter has text; a missing title or author is reported first |
| Export.LowerAscii | epub.py:228 | lower-casing maps `A`-`Z` to `a`-`z` and leaves other characters alone |
| Export.Slug | epub.py:228 | the file-name stem has the title's length, no spaces and no upper-case ASCII letters, and has an underscore exactly where the title has a space or an underscore |
| Export.DownloadName | epub.py:228 | the download name is five characters longer than the title, ends in `.epub`, and has no spaces and no upper-case ASCII letters before that |
| Export.SlugIdempotent | epub.py:228 | normalising a normalised stem changes nothing |
| Export.SameDownloadName | epub.py:228 | two titles get the same download name exactly when they agree character by character up to ASCII case and space versus underscore |

## Left out

- The Streamlit user interface (`main`: widgets, previews, reruns, the Remove button that is shown only when there are two or more chapters) is not modelled. Only the export guard and the download file name are lifted out of it.
- The wording of the two refusal messages and the MIME type of the download are display constants and are not modelled. Only which refusal applies is modelled.
- Session-state initialisation is modelled only for the chapter collection. The default metadata record reads the clock for its date, and is left out. `Package.Metadata` is a plain parameter.
- Markdown rendering (`convert_markdown_to_html`) is an external library and is the function parameter `render` of `CreateEpub`.
- The fresh UUID is the parameter `identifier`.
- The PNG re-encoding of the cover through the imaging library is the byte parameter `coverPng`.
- What the EPUB library does inside `set_cover`, `EpubNcx`, `EpubNav` and `write_epub` is recorded but not modelled. `Ncx` and `Nav` are opaque items, and `cover` records the `set_cover` arguments.
- `create_epub` is modelled as always succeeding. Exceptions raised by the libraries, and the error message the caller shows for them, are left out. `str()` of a chapter position is taken to succeed, since positions are far below `10^4300`.
- ChapterStore.Store.AddChapter: the ValueError that aborts `add_chapter` is reported as `ok == false`. The traceback Streamlit then shows is not modelled.
- Text.ParseInt: the digit limit is CPython's default of 4300. A limit changed with `sys.set_int_max_str_digits`, and Python versions without the limit, are not modelled.
- Text.ParseInt: does not accept non-ASCII Unicode digits, although `int()` does. Titles whose second word uses them sort as infinity in the model.
- Export.LowerAscii: lower-cases ASCII letters only. Python's `str.lower()` also maps other Unicode letters.
- Export.Slug: its per-character folding, and so its length claim, holds for the ASCII lower-casing modelled here. Python's `'İ'.lower()` yields two code points, and `'É'.lower()` is `'é'`.
- Export.DownloadName: its length and its "no upper-case" claim are stated for ASCII lower-casing. Non-ASCII letters whose lower-case form is longer would lengthen the real name.
- Export.SameDownloadName: "agree after folding" uses ASCII case only. In Python, `CAFÉ` and `café` also get the same name, but in the model they do not.
- ChapterNumber.Max: `max` is modelled over ints and infinity only. No other float values arise from `get_chapter_num`.
- The CSS text is carried as a literal string. Its meaning as a stylesheet is not modelled.
