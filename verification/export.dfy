/**
  * The two rules the Generate button applies around `create_epub`: the
  * guard that refuses to build a book without a title, an author or any
  * chapter text, and the name offered for the downloaded file.
  */
module Export {
  import opened OrderedMap

  /** The outcome of the guard: build, or one of the two refusals. */
  datatype Verdict = Ready | MissingTitleOrAuthor | NoContent

  /** `any(chapters.values())`: some chapter body is a non-empty string. */
  function AnyContent(m: seq<Entry>): (b: bool)
    ensures b <==> exists i :: 0 <= i < |m| && m[i].1 != ""
  {
    if m == [] then false
    else m[0].1 != "" || (assert forall i :: 0 < i < |m| ==> m[i] == m[1..][i - 1]; AnyContent(m[1..]))
  }

  /**
    * The guard: an empty title or author is reported first; then a collection
    * whose bodies are all empty; otherwise the book is built.
    */
  function CheckExport(title: string, author: string, m: seq<Entry>): (v: Verdict)
    ensures v == Ready <==> title != "" && author != "" && exists i :: 0 <= i < |m| && m[i].1 != ""
    ensures v == MissingTitleOrAuthor <==> title == "" || author == ""
  {
    if title == "" || author == "" then MissingTitleOrAuthor
    else if !AnyContent(m) then NoContent
    else Ready
  }

  /** `c.lower()` for ASCII letters; every other character is left as it is. */
  function LowerAscii(c: char): (r: char)
    ensures !('A' <= r <= 'Z')
    ensures 'A' <= c <= 'Z' ==> r as int == c as int + 32
    ensures !('A' <= c <= 'Z') ==> r == c
  {
    if 'A' <= c <= 'Z' then (c as int + 32) as char else c
  }

  /** What one character of the title becomes in the download name. */
  function Fold(c: char): char
  {
    if c == ' ' then '_' else LowerAscii(c)
  }

  /** `title.lower().replace(' ', '_')`: the stem of the download name. */
  function Slug(title: string): (s: string)
    ensures |s| == |title|
    ensures forall i :: 0 <= i < |s| ==> s[i] != ' ' && !('A' <= s[i] <= 'Z')
    ensures forall i :: 0 <= i < |s| ==> (s[i] == '_' <==> title[i] == ' ' || title[i] == '_')
  {
    if title == [] then []
    else [Fold(title[0])] + Slug(title[1..])
  }

  /**
    * The name offered for the downloaded book: the title, lower-cased with
    * spaces turned into underscores, then `.epub`.
    */
  function DownloadName(title: string): (name: string)
    ensures |name| == |title| + 5
    ensures name[|title|..] == ".epub"
    ensures forall i :: 0 <= i < |title| ==> name[i] != ' ' && !('A' <= name[i] <= 'Z')
  {
    var name := Slug(title) + ".epub";
    assert name[..|title|] == Slug(title);
    name
  }

  /** Slugging a slug changes nothing. */
  lemma {:induction false} SlugIdempotent(title: string)
    ensures Slug(Slug(title)) == Slug(title)
  {
    if title != [] {
      var s := Slug(title);
      assert s[1..] == Slug(title[1..]);
      SlugIdempotent(title[1..]);
    }
  }

  /** Character `i` of the slug depends on character `i` of the title alone. */
  lemma {:induction false} SlugAt(title: string, i: nat)
    requires i < |title|
    ensures Slug(title)[i] == Fold(title[i])
  {
    if i > 0 {
      SlugAt(title[1..], i - 1);
    }
  }

  /**
    * Two titles get the same download name exactly when they agree character
    * by character once ASCII case is ignored and a space is read as an
    * underscore.
    */
  lemma SameDownloadName(a: string, b: string)
    ensures DownloadName(a) == DownloadName(b) <==>
      |a| == |b| && forall i :: 0 <= i < |a| ==> Fold(a[i]) == Fold(b[i])
  {
    if |a| == |b| {
      forall i | 0 <= i < |a| ensures Slug(a)[i] == Fold(a[i]) && Slug(b)[i] == Fold(b[i]) {
        SlugAt(a, i);
        SlugAt(b, i);
      }
      if DownloadName(a) == DownloadName(b) {
        assert DownloadName(a)[..|a|] == Slug(a);
        assert DownloadName(b)[..|b|] == Slug(b);
      }
    } else {
      assert |DownloadName(a)| != |DownloadName(b)|;
    }
  }
}
