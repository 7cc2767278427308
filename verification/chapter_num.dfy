/**
  * The sort key of a chapter title (`get_chapter_num`) and the auto-numbered
  * title that `add_chapter` synthesises from it.
  */
module ChapterNumber {
  import opened Text

  /** What `get_chapter_num` returns: a Python int, or `float('inf')`. */
  datatype Num = Finite(n: int) | Inf

  /** Python's `<=` between ints and `float('inf')`. */
  predicate Le(a: Num, b: Num)
  {
    match (a, b)
    case (Finite(x), Finite(y)) => x <= y
    case (_, Inf) => true
    case (Inf, Finite(_)) => false
  }

  /**
    * `get_chapter_num(title)`: the integer value of the second
    * whitespace-separated token, or infinity when there is no second token or
    * `int()` rejects it. The first token is not looked at.
    */
  function GetChapterNum(title: string): Num
  {
    var ws := Words(title);
    if |ws| < 2 then Inf
    else match ParseInt(ws[1])
      case Some(n) => Finite(n)
      case None => Inf
  }

  /** An int key is below `10^4300` in magnitude: `int()` reads at most that many digits. */
  lemma GetChapterNumBounded(title: string)
    ensures var k := GetChapterNum(title);
      k.Finite? ==> -(Pow10(MaxStrDigits) as int) < k.n < Pow10(MaxStrDigits)
  {
    var ws := Words(title);
    if |ws| >= 2 {
      ParseIntBounded(ws[1]);
    }
  }

  /** `k + 1`: the least int above an int; infinity absorbs the increment. */
  function Succ(k: Num): (r: Num)
    ensures Le(k, r)
    ensures k.Finite? ==> r.Finite? && !Le(r, k) && Le(r, Finite(k.n + 1))
  {
    match k
    case Finite(n) => Finite(n + 1)
    case Inf => Inf
  }

  /** `max(nums)` over a non-empty list. */
  function Max(nums: seq<Num>): (m: Num)
    requires |nums| > 0
    ensures m in nums
    ensures forall i :: 0 <= i < |nums| ==> Le(nums[i], m)
  {
    if |nums| == 1 then nums[0]
    else
      var rest := Max(nums[1..]);
      if Le(nums[0], rest) then rest else nums[0]
  }

  /** `str(k)` succeeds: infinity always prints, an int when it has at most `MaxStrDigits` digits. */
  predicate Formattable(k: Num)
  {
    k.Inf? || Printable(k.n)
  }

  /** `str(k)`: the decimal digits of an int, `"inf"` for infinity. */
  function NumText(k: Num): string
  {
    match k
    case Finite(n) => IntToString(n)
    case Inf => "inf"
  }

  /** `f"Chapter {k}"`; for an int that is not `Formattable` CPython raises ValueError instead. */
  function NumberedTitle(k: Num): string
  {
    "Chapter " + NumText(k)
  }

  lemma WordsOfNumberedTitle(k: Num)
    ensures Words(NumberedTitle(k)) == ["Chapter", NumText(k)]
  {
    var t := NumText(k);
    if k.Finite? {
      IntToStringIsWord(k.n);
    } else {
      assert IsWord(t);
    }
    assert NumberedTitle(k) == "Chapter" + " " + t;
    WordsOfSpaced("Chapter", t);
    WordsOfSpaced(t, "");
  }

  /**
    * The synthesised title parses back to the number it was made from; the
    * digits of an int too long for `str()` would be refused by `int()` too.
    */
  lemma GetChapterNumOfNumberedTitle(k: Num)
    ensures GetChapterNum(NumberedTitle(k)) == if Formattable(k) then k else Inf
  {
    WordsOfNumberedTitle(k);
    if k.Finite? {
      ParseIntToString(k.n);
    } else {
      assert ParseInt("inf") == None;
    }
  }

  /** Two numbers give the same synthesised title only if they are equal. */
  lemma NumberedTitleInjective(a: Num, b: Num)
    requires NumberedTitle(a) == NumberedTitle(b)
    ensures a == b
  {
    var ta, tb := NumText(a), NumText(b);
    assert ta == NumberedTitle(a)[8..] == NumberedTitle(b)[8..] == tb;
    NumTextStart(a);
    NumTextStart(b);
    if a.Finite? && b.Finite? {
      IntToStringInjective(a.n, b.n);
    }
  }

  /** `str(k)` begins with `i` exactly for infinity. */
  lemma NumTextStart(k: Num)
    ensures |NumText(k)| > 0 && (NumText(k)[0] == 'i' <==> k.Inf?)
  {
    if k.Finite? && k.n < 0 {
      assert NumText(k)[0] == '-';
    }
  }

  /** The key ignores the first word: `Part 7` sorts as 7 just as `Chapter 7` does. */
  lemma GetChapterNumIgnoresFirstWord(w: string, x: string)
    requires IsWord(w) && ParseInt(x).Some?
    ensures GetChapterNum(w + " " + x) == Finite(ParseInt(x).value)
  {
    ParseIntIsWord(x);
    WordsOfSpacedPair(w, x);
  }

  /** Words after the second are ignored: `Chapter 3 draft` sorts as 3. */
  lemma GetChapterNumIgnoresLaterWords(w: string, x: string, rest: string)
    requires IsWord(w) && ParseInt(x).Some?
    ensures GetChapterNum(w + " " + x + " " + rest) == Finite(ParseInt(x).value)
  {
    ParseIntIsWord(x);
    assert w + " " + x + " " + rest == w + " " + (x + " " + rest);
    WordsOfSpaced(w, x + " " + rest);
    WordsOfSpaced(x, rest);
  }

  /** A title of one word sorts as infinity. */
  lemma GetChapterNumSingleWord(w: string)
    requires IsWord(w)
    ensures GetChapterNum(w) == Inf
  {
    WordsOfSpaced(w, "");
  }

  /** A second word that `int()` rejects makes the title sort as infinity, whatever follows. */
  lemma GetChapterNumNonInteger(w: string, x: string, rest: string)
    requires IsWord(w) && IsWord(x) && ParseInt(x) == None
    ensures GetChapterNum(w + " " + x) == Inf
    ensures GetChapterNum(w + " " + x + " " + rest) == Inf
  {
    WordsOfSpacedPair(w, x);
    assert w + " " + x + " " + rest == w + " " + (x + " " + rest);
    WordsOfSpaced(w, x + " " + rest);
    WordsOfSpaced(x, rest);
  }

  /** A second word of more than `MaxStrDigits` digits makes the title sort as infinity. */
  lemma GetChapterNumTooManyDigits(w: string, x: string, rest: string)
    requires IsWord(w) && IsWord(x) && DigitCount(x) > MaxStrDigits
    ensures GetChapterNum(w + " " + x) == Inf
    ensures GetChapterNum(w + " " + x + " " + rest) == Inf
  {
    GetChapterNumNonInteger(w, x, rest);
  }

  lemma WordsOfSpacedPair(a: string, b: string)
    requires IsWord(a) && IsWord(b)
    ensures Words(a + " " + b) == [a, b]
  {
    WordsOfSpaced(a, b);
    WordsOfSpaced(b, "");
  }
}
