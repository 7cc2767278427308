/**
  * The Python string built-ins the EPUB creator relies on, written out so
  * that their corner cases are explicit: `str.split()` with no argument,
  * `int(str)` and `str(int)` with CPython's limit on decimal digits, and
  * `sep.join(parts)`. `Split`, one-character `s.split(sep)`, is not used by
  * the program; it is here to read a joined page back line by line.
  */
module Text {

  datatype Option<T> = None | Some(value: T)

  // ---------------------------------------------------------------------------
  // str.split() with no argument
  // ---------------------------------------------------------------------------

  /** The characters Python's `str.isspace()` accepts; `str.split()` splits on runs of them. */
  predicate IsSpace(c: char)
  {
    || c == ' ' || c == '\t' || c == '\n' || c == '\r'
    || c == '\U{0B}' || c == '\U{0C}'
    || ('\U{1C}' <= c <= '\U{1F}')
    || c == '\U{85}' || c == '\U{A0}' || c == '\U{1680}'
    || ('\U{2000}' <= c <= '\U{200A}')
    || c == '\U{2028}' || c == '\U{2029}' || c == '\U{202F}' || c == '\U{205F}' || c == '\U{3000}'
  }

  predicate NoSpace(s: string)
  {
    forall i :: 0 <= i < |s| ==> !IsSpace(s[i])
  }

  /** A word: what `str.split()` can return as one element. */
  predicate IsWord(w: string)
  {
    |w| > 0 && NoSpace(w)
  }

  /** The longest prefix of `s` free of whitespace. */
  function Run(s: string): (w: string)
    ensures w <= s && NoSpace(w)
    ensures |w| == |s| || IsSpace(s[|w|])
  {
    if s == [] || IsSpace(s[0]) then [] else [s[0]] + Run(s[1..])
  }

  /** `s.split()`: the maximal whitespace-free runs of `s`, in order. */
  function Words(s: string): (ws: seq<string>)
    ensures forall i :: 0 <= i < |ws| ==> IsWord(ws[i])
    decreases |s|
  {
    if s == [] then []
    else if IsSpace(s[0]) then Words(s[1..])
    else
      var w := Run(s);
      [w] + Words(s[|w|..])
  }

  /** A string splits into no words exactly when it is all whitespace. */
  lemma {:induction false} WordsOfBlank(s: string)
    ensures Words(s) == [] <==> forall i :: 0 <= i < |s| ==> IsSpace(s[i])
    decreases |s|
  {
    if s != [] {
      WordsOfBlank(s[1..]);
      assert forall i :: 1 <= i < |s| ==> s[i] == s[1..][i - 1];
    }
  }

  /** `" ".join(ws)` */
  function Unwords(ws: seq<string>): string
  {
    if ws == [] then "" else if |ws| == 1 then ws[0] else ws[0] + " " + Unwords(ws[1..])
  }

  lemma {:induction false} RunOfWord(w: string, rest: string)
    requires NoSpace(w)
    requires rest == [] || IsSpace(rest[0])
    ensures Run(w + rest) == w
    decreases |w|
  {
    if w != [] {
      assert (w + rest)[1..] == w[1..] + rest;
      RunOfWord(w[1..], rest);
    } else {
      assert w + rest == rest;
    }
  }

  lemma {:induction false} WordsOfSpaced(w: string, rest: string)
    requires IsWord(w)
    ensures Words(w + " " + rest) == [w] + Words(rest)
    ensures Words(w) == [w]
  {
    var s := w + " " + rest;
    assert s == w + (" " + rest);
    RunOfWord(w, " " + rest);
    assert s[|w|..] == " " + rest;
    assert (" " + rest)[1..] == rest;
    RunOfWord(w, []);
    assert w + [] == w;
    assert w[|w|..] == [];
  }

  /** Splitting a space-joined list of words gives the words back. */
  lemma {:induction false} WordsOfUnwords(ws: seq<string>)
    requires forall i :: 0 <= i < |ws| ==> IsWord(ws[i])
    ensures Words(Unwords(ws)) == ws
  {
    if |ws| == 1 {
      WordsOfSpaced(ws[0], "");
    } else if |ws| > 1 {
      WordsOfSpaced(ws[0], Unwords(ws[1..]));
      WordsOfUnwords(ws[1..]);
    }
  }

  // ---------------------------------------------------------------------------
  // int(s) and str(n) for base 10
  // ---------------------------------------------------------------------------

  /**
    * CPython's default `sys.get_int_max_str_digits()` (3.11 and later): a
    * decimal conversion in either direction with more digits than this raises
    * ValueError. A sign and underscores are not digits.
    */
  const MaxStrDigits: nat := 4300

  function Pow10(d: nat): (p: nat)
    ensures p >= 1
  {
    if d == 0 then 1 else 10 * Pow10(d - 1)
  }

  predicate IsDigit(c: char)
  {
    '0' <= c <= '9'
  }

  function DigitValue(c: char): nat
    requires IsDigit(c)
  {
    c as int - '0' as int
  }

  /** How many ASCII digits `s` holds. */
  function DigitCount(s: string): nat
  {
    if s == [] then 0
    else DigitCount(s[..|s| - 1]) + (if IsDigit(s[|s| - 1]) then 1 else 0)
  }

  /**
    * The body of a base-10 integer literal as `int()` reads it: ASCII digits,
    * optionally grouped by single underscores that stand between two digits.
    */
  predicate IsDigitGroup(s: string)
  {
    && |s| > 0
    && IsDigit(s[0]) && IsDigit(s[|s| - 1])
    && (forall i :: 0 <= i < |s| ==> IsDigit(s[i]) || s[i] == '_')
    && (forall i :: 0 <= i < |s| - 1 ==> !(s[i] == '_' && s[i + 1] == '_'))
  }

  /** The value of the digits of `s`, underscores ignored. */
  function DigitsValue(s: string): nat
    requires forall i :: 0 <= i < |s| ==> IsDigit(s[i]) || s[i] == '_'
  {
    if s == [] then 0
    else if s[|s| - 1] == '_' then DigitsValue(s[..|s| - 1])
    else 10 * DigitsValue(s[..|s| - 1]) + DigitValue(s[|s| - 1])
  }

  /**
    * `int(s)` for a string without surrounding whitespace; `None` where Python
    * raises ValueError, which includes a numeral of more than `MaxStrDigits`
    * digits.
    */
  function ParseInt(s: string): (r: Option<int>)
    ensures r.Some? ==> |s| > 0 && DigitCount(s) <= MaxStrDigits
  {
    var signed := |s| > 0 && (s[0] == '+' || s[0] == '-');
    var body := if signed then s[1..] else s;
    if IsDigitGroup(body) && DigitCount(body) <= MaxStrDigits then
      assert DigitCount(s) == DigitCount(body) by {
        if signed {
          DigitCountAfterSign(s);
        }
      }
      var v: int := DigitsValue(body);
      Some(if signed && s[0] == '-' then -v else v)
    else None
  }

  /** A numeral that `int()` accepts is a single word. */
  lemma ParseIntIsWord(s: string)
    ensures ParseInt(s).Some? ==> IsWord(s)
  {
    if ParseInt(s).Some? {
      if s[0] == '+' || s[0] == '-' {
        DigitGroupIsWord(s[1..]);
        SignedWord(s);
      } else {
        DigitGroupIsWord(s);
      }
    }
  }

  lemma SignedWord(s: string)
    requires |s| > 0 && (s[0] == '+' || s[0] == '-') && NoSpace(s[1..])
    ensures NoSpace(s)
  {
    forall i | 0 <= i < |s| ensures !IsSpace(s[i]) {
      if i > 0 {
        assert s[i] == s[1..][i - 1];
      }
    }
  }

  /** Every int that `int()` returns is below `10^4300` in magnitude. */
  lemma ParseIntBounded(s: string)
    ensures ParseInt(s).Some? ==> -(Pow10(MaxStrDigits) as int) < ParseInt(s).value < Pow10(MaxStrDigits)
  {
    if ParseInt(s).Some? {
      var body := if s[0] == '+' || s[0] == '-' then s[1..] else s;
      DigitsValueBound(body);
      PowMonotone(DigitCount(body), MaxStrDigits);
    }
  }

  lemma {:induction false} DigitCountAfterSign(s: string)
    requires |s| > 0 && !IsDigit(s[0])
    ensures DigitCount(s) == DigitCount(s[1..])
  {
    if |s| > 1 {
      var init := s[..|s| - 1];
      assert init[1..] == s[1..][..|s| - 2];
      DigitCountAfterSign(init);
    }
  }

  lemma DigitGroupIsWord(s: string)
    requires forall i :: 0 <= i < |s| ==> IsDigit(s[i]) || s[i] == '_'
    ensures NoSpace(s)
  {
  }

  /** A numeral of `d` digits is below `10^d`. */
  lemma {:induction false} DigitsValueBound(s: string)
    requires forall i :: 0 <= i < |s| ==> IsDigit(s[i]) || s[i] == '_'
    ensures DigitsValue(s) < Pow10(DigitCount(s))
  {
    if s != [] {
      var init := s[..|s| - 1];
      DigitsValueBound(init);
      if s[|s| - 1] != '_' {
        var v, p := DigitsValue(init), Pow10(DigitCount(init));
        assert v + 1 <= p;
        assert 10 * v + 10 <= 10 * p;
      }
    }
  }

  lemma {:induction false} PowMonotone(a: nat, b: nat)
    requires a <= b
    ensures Pow10(a) <= Pow10(b)
    decreases b
  {
    if a < b {
      PowMonotone(a, b - 1);
    }
  }

  lemma {:induction false} AllDigitsCount(s: string)
    requires forall i :: 0 <= i < |s| ==> IsDigit(s[i])
    ensures DigitCount(s) == |s|
  {
    if s != [] {
      AllDigitsCount(s[..|s| - 1]);
    }
  }

  function NatToString(n: nat): (s: string)
    ensures |s| > 0 && forall i :: 0 <= i < |s| ==> IsDigit(s[i])
    ensures DigitsValue(s) == n
  {
    var d := ['0' + (n % 10) as char];
    if n < 10 then d
    else
      var s := NatToString(n / 10) + d;
      assert s[..|s| - 1] == NatToString(n / 10);
      s
  }

  function Abs(n: int): nat
  {
    if n < 0 then -n else n
  }

  /** `str(n)` succeeds: the decimal form of `n` has at most `MaxStrDigits` digits. */
  predicate Printable(n: int)
  {
    |NatToString(Abs(n))| <= MaxStrDigits
  }

  /** The decimal form of `k` has at most `d` digits exactly when `k < 10^d`. */
  lemma {:induction false} NatToStringLength(k: nat, d: nat)
    requires d >= 1
    ensures |NatToString(k)| <= d <==> k < Pow10(d)
    decreases k
  {
    if k >= 10 {
      assert |NatToString(k)| == |NatToString(k / 10)| + 1;
      assert k == 10 * (k / 10) + k % 10;
      if d > 1 {
        NatToStringLength(k / 10, d - 1);
        assert k / 10 < Pow10(d - 1) <==> k < 10 * Pow10(d - 1);
      }
    } else {
      PowMonotone(1, d);
    }
  }

  /** `str(n)` succeeds exactly for `-10^4300 < n < 10^4300`. */
  lemma PrintableRange(n: int)
    ensures Printable(n) <==> -(Pow10(MaxStrDigits) as int) < n < Pow10(MaxStrDigits)
  {
    NatToStringLength(Abs(n), MaxStrDigits);
  }

  /** `str(n)` for a Python int; CPython raises ValueError instead when `n` is not `Printable`. */
  function IntToString(n: int): string
  {
    if n < 0 then "-" + NatToString(-n) else NatToString(n)
  }

  /**
    * `int(str(n)) == n` whenever `str(n)` succeeds; the decimal form of an
    * int too long to print is refused by `int()` as well.
    */
  lemma ParseIntToString(n: int)
    ensures ParseInt(IntToString(n)) == if Printable(n) then Some(n) else None
  {
    var s := IntToString(n);
    var digits := NatToString(Abs(n));
    AllDigitsCount(digits);
    if n < 0 {
      assert s[1..] == digits;
    } else {
      assert s == digits;
      assert IsDigitGroup(digits);
    }
  }

  /** `str` is one-to-one on integers. */
  lemma IntToStringInjective(a: int, b: int)
    requires IntToString(a) == IntToString(b)
    ensures a == b
  {
    var s := IntToString(a);
    assert a < 0 <==> s[0] == '-';
    assert b < 0 <==> IntToString(b)[0] == '-';
    if a < 0 && b < 0 {
      assert s[1..] == NatToString(-a) == NatToString(-b);
    } else if a >= 0 && b >= 0 {
      assert NatToString(a) == NatToString(b);
    }
  }

  lemma IntToStringIsWord(n: int)
    ensures IsWord(IntToString(n))
  {
    var s := IntToString(n);
    if n < 0 {
      assert forall i :: 1 <= i < |s| ==> s[i] == NatToString(-n)[i - 1];
    }
  }

  // ---------------------------------------------------------------------------
  // sep.join(parts) and s.split(sep)
  // ---------------------------------------------------------------------------

  /** `sep.join(parts)` */
  function Join(parts: seq<string>, sep: string): string
  {
    if parts == [] then "" else if |parts| == 1 then parts[0] else parts[0] + sep + Join(parts[1..], sep)
  }

  /** `s.split(sep)` for a one-character separator: never empty, keeps empty pieces. */
  function Split(s: string, sep: char): (pieces: seq<string>)
    ensures |pieces| > 0
  {
    if s == [] then [""]
    else
      var rest := Split(s[1..], sep);
      if s[0] == sep then [""] + rest else [[s[0]] + rest[0]] + rest[1..]
  }

  lemma {:induction false} SplitPiece(p: string, sep: char)
    requires sep !in p
    ensures Split(p, sep) == [p]
  {
    if p != [] {
      SplitPiece(p[1..], sep);
      assert [p[0]] + p[1..] == p;
    }
  }

  lemma {:induction false} SplitPieceThen(p: string, sep: char, rest: string)
    requires sep !in p
    ensures Split(p + [sep] + rest, sep) == [p] + Split(rest, sep)
  {
    var s := p + [sep] + rest;
    if p == [] {
      assert s[1..] == rest;
    } else {
      assert s[1..] == p[1..] + [sep] + rest;
      SplitPieceThen(p[1..], sep, rest);
      assert [p[0]] + p[1..] == p;
    }
  }

  /** Splitting a joined list on its separator gives the pieces back when no piece holds the separator. */
  lemma {:induction false} SplitOfJoin(parts: seq<string>, sep: char)
    requires |parts| > 0
    requires forall i :: 0 <= i < |parts| ==> sep !in parts[i]
    ensures Split(Join(parts, [sep]), sep) == parts
  {
    if |parts| == 1 {
      SplitPiece(parts[0], sep);
    } else {
      SplitPieceThen(parts[0], sep, Join(parts[1..], [sep]));
      SplitOfJoin(parts[1..], sep);
    }
  }
}
