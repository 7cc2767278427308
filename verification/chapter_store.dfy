/**
  * The chapter store: the ordered title -> Markdown body collection the editor
  * keeps, and the four operations that change it (`add_chapter`,
  * `remove_chapter`, `update_chapter_content`, `update_chapter_title`).
  *
  * The functions below give the result of each operation on the old
  * collection; the class `Store` performs the operations the way the program
  * does, by building a new dictionary in a loop and rebinding the field, and
  * proves that it arrives at those results.
  */
module ChapterStore {
  import opened Text
  import opened OrderedMap
  import opened ChapterNumber
  import opened StableSort

  // ---------------------------------------------------------------------------
  // add_chapter
  // ---------------------------------------------------------------------------

  /** The sort keys of all titles, in collection order. */
  function Nums(m: seq<Entry>): seq<Num>
  {
    seq(|m|, i requires 0 <= i < |m| => Key(m[i]))
  }

  /** `max(numbers) + 1 if numbers else 1` */
  function NextNumber(m: seq<Entry>): Num
  {
    if m == [] then Finite(1) else Succ(Max(Nums(m)))
  }

  /**
    * `add_chapter` completes: `str()` of the next number succeeds. Otherwise
    * the f-string raises ValueError and the collection is left as it was.
    */
  predicate CanAdd(m: seq<Entry>)
  {
    Formattable(NextNumber(m))
  }

  /**
    * The collection after `add_chapter` completes: the old entries sorted by
    * key, then the new numbered title assigned the empty body.
    */
  function Added(m: seq<Entry>): seq<Entry>
  {
    Put(SortByKey(m), NumberedTitle(NextNumber(m)), "")
  }

  /**
    * Adding keeps every other entry, gives the new title the empty body, and
    * grows the collection by one unless the new title was already there.
    */
  lemma AddedKeepsOthers(m: seq<Entry>)
    ensures var r, t := Added(m), NumberedTitle(NextNumber(m));
      && (t, "") in r
      && |r| == |m| + (if t in Titles(m) then 0 else 1)
      && forall e :: e in m && e.0 != t ==> e in r
  {
    var t := NumberedTitle(NextNumber(m));
    var s := SortByKey(m);
    var r := Put(s, t, "");
    SortedTitlesSame(m, t);
    assert |s| == |multiset(s)| == |multiset(m)| == |m|;
    forall e | e in m && e.0 != t ensures e in r {
      SortSameEntries(m, e);
      var p :| 0 <= p < |s| && s[p] == e;
      assert r[p] == e;
    }
    if t in Titles(s) {
      assert r[IndexOf(s, t)] == (t, "");
    } else {
      assert r[|s|] == (t, "");
    }
  }

  /**
    * `add_chapter` fails exactly when the largest key is `10^4300 - 1`: every
    * key parsed from a title is below `10^4300` in magnitude, so only the
    * increment past the largest such number yields an int `str()` refuses.
    */
  lemma AddFailsExactlyAtLimit(m: seq<Entry>)
    ensures !CanAdd(m) <==> m != [] && Max(Nums(m)) == Finite(Pow10(MaxStrDigits) - 1)
  {
    if m == [] {
      assert Printable(1) by {
        assert NatToString(Abs(1)) == "1";
      }
    } else {
      var k := Max(Nums(m));
      var limit := Pow10(MaxStrDigits);
      MaxKeyBounded(m);
      if k.Finite? {
        assert CanAdd(m) == Printable(k.n + 1);
        PrintableRange(k.n + 1);
        assert Printable(k.n + 1) <==> k.n + 1 < limit;
      } else {
        assert CanAdd(m) by {
          assert NextNumber(m) == Inf;
        }
      }
    }
  }

  /** The largest key, like every key, is below `10^4300` in magnitude when it is an int. */
  lemma MaxKeyBounded(m: seq<Entry>)
    requires m != []
    ensures var k := Max(Nums(m));
      k.Finite? ==> -(Pow10(MaxStrDigits) as int) < k.n < Pow10(MaxStrDigits)
  {
    var k := Max(Nums(m));
    var q :| 0 <= q < |m| && Nums(m)[q] == k;
    assert k == GetChapterNum(m[q].0);
    GetChapterNumBounded(m[q].0);
  }

  lemma SortedTitlesSame(m: seq<Entry>, t: string)
    ensures t in Titles(SortByKey(m)) <==> t in Titles(m)
  {
    var s := SortByKey(m);
    if t in Titles(s) {
      var p :| 0 <= p < |s| && Titles(s)[p] == t;
      SortSameEntries(m, s[p]);
      var q :| 0 <= q < |m| && m[q] == s[p];
      assert Titles(m)[q] == t;
    }
    if t in Titles(m) {
      var q :| 0 <= q < |m| && Titles(m)[q] == t;
      SortSameEntries(m, m[q]);
      var p :| 0 <= p < |s| && s[p] == m[q];
      assert Titles(s)[p] == t;
    }
  }

  /** Adding to an empty collection gives the single entry `Chapter 1`. */
  lemma AddedToEmpty()
    ensures Added([]) == [("Chapter 1", "")]
  {
    assert NumText(Finite(1)) == "1";
    assert NumberedTitle(NextNumber([])) == "Chapter 1";
    assert SortByKey([]) == [];
  }

  /**
    * When every title parses, adding grows the collection by exactly one: the
    * old entries, sorted, then a title whose number exceeds every existing one.
    */
  lemma {:induction false} AddedWhenAllParse(m: seq<Entry>)
    requires forall i :: 0 <= i < |m| ==> Key(m[i]).Finite?
    ensures NextNumber(m).Finite?
    ensures forall i :: 0 <= i < |m| ==> Key(m[i]).n < NextNumber(m).n
    ensures Added(m) == SortByKey(m) + [(NumberedTitle(NextNumber(m)), "")]
  {
    var next := NextNumber(m);
    if m != [] {
      var nums := Nums(m);
      assert nums[0] == Key(m[0]);
      assert Max(nums) in nums;
      forall i | 0 <= i < |m| ensures Key(m[i]).n < next.n {
        assert nums[i] == Key(m[i]);
      }
    }
    var t := NumberedTitle(next);
    GetChapterNumOfNumberedTitle(next);
    forall q | 0 <= q < |m| ensures Titles(m)[q] != t {
      assert Key(m[q]) != next && Key(m[q]) != Inf;
    }
    SortedTitlesSame(m, t);
  }

  /**
    * When some title does not parse, the new title is `Chapter inf`. If that
    * title already exists, its body is reset in place and the count does not
    * grow; otherwise it is appended.
    */
  lemma AddedWhenSomeUnparseable(m: seq<Entry>, u: nat)
    requires u < |m| && Key(m[u]).Inf?
    ensures NumberedTitle(NextNumber(m)) == "Chapter inf"
    ensures "Chapter inf" in Titles(m) ==>
      var s := SortByKey(m);
      "Chapter inf" in Titles(s) && Added(m) == s[IndexOf(s, "Chapter inf") := ("Chapter inf", "")]
    ensures "Chapter inf" !in Titles(m) ==> Added(m) == SortByKey(m) + [("Chapter inf", "")]
  {
    NextNumberInf(m, u);
    assert NumberedTitle(NextNumber(m)) == "Chapter inf" by {
      assert NumberedTitle(Inf) == "Chapter inf";
    }
    AddedPutsNewTitle(m);
  }

  /** One key of infinity makes the maximum, and so the next number, infinite. */
  lemma NextNumberInf(m: seq<Entry>, u: nat)
    requires u < |m| && Key(m[u]).Inf?
    ensures NextNumber(m) == Inf
  {
    assert Nums(m)[u] == Key(m[u]);
  }

  /** Adding assigns the new title on top of the sorted entries. */
  lemma AddedPutsNewTitle(m: seq<Entry>)
    ensures var t, s := NumberedTitle(NextNumber(m)), SortByKey(m);
      && (t in Titles(m) ==> t in Titles(s) && Added(m) == s[IndexOf(s, t) := (t, "")])
      && (t !in Titles(m) ==> Added(m) == s + [(t, "")])
  {
    SortedTitlesSame(m, NumberedTitle(NextNumber(m)));
  }

  /** Right after an add the whole collection is in key order; unparseable titles come last. */
  lemma AddedIsSorted(m: seq<Entry>)
    ensures SortedByKey(Added(m))
  {
    var s := SortByKey(m);
    var next := NextNumber(m);
    var t := NumberedTitle(next);
    AddedPutsNewTitle(m);
    SortedTitlesSame(m, t);
    if t in Titles(s) {
      ResetKeepsSorted(s, IndexOf(s, t));
    } else {
      GetChapterNumOfNumberedTitle(next);
      SortedBelowNext(m);
      AppendKeepsSorted(s, (t, ""));
    }
  }

  /** Every key is at most the next number. */
  lemma SortedBelowNext(m: seq<Entry>)
    ensures var s := SortByKey(m);
      forall i :: 0 <= i < |s| ==> Le(Key(s[i]), NextNumber(m))
  {
    var s := SortByKey(m);
    var nums := Nums(m);
    forall i | 0 <= i < |s| ensures Le(Key(s[i]), NextNumber(m)) {
      SortSameEntries(m, s[i]);
      var q :| 0 <= q < |m| && m[q] == s[i];
      assert nums[q] == Key(s[i]);
    }
  }

  lemma ResetKeepsSorted(s: seq<Entry>, p: nat)
    requires SortedByKey(s) && p < |s|
    ensures SortedByKey(s[p := (s[p].0, "")])
  {
    var r := s[p := (s[p].0, "")];
    forall i, j | 0 <= i < j < |r| ensures Le(Key(r[i]), Key(r[j])) {
      assert Key(r[i]) == Key(s[i]) && Key(r[j]) == Key(s[j]);
    }
  }

  lemma AppendKeepsSorted(s: seq<Entry>, e: Entry)
    requires SortedByKey(s)
    requires forall i :: 0 <= i < |s| ==> Le(Key(s[i]), Key(e))
    ensures SortedByKey(s + [e])
  {
    var r := s + [e];
    forall i, j | 0 <= i < j < |r| ensures Le(Key(r[i]), Key(r[j])) {
      assert r[i] == s[i];
      if j < |s| {
        assert r[j] == s[j];
      }
    }
  }

  /** Adding keeps the titles distinct. */
  lemma AddedKeepsDistinct(m: seq<Entry>)
    requires DistinctTitles(m)
    ensures DistinctTitles(Added(m))
  {
    SortKeepsDistinct(m);
    PutKeepsDistinct(SortByKey(m), NumberedTitle(NextNumber(m)), "");
  }

  /** Adding to `[Chapter 3, Chapter 1]` sorts them and appends `Chapter 4`. */
  lemma AddedExample(b3: string, b1: string)
    ensures Added([("Chapter 3", b3), ("Chapter 1", b1)])
         == [("Chapter 1", b1), ("Chapter 3", b3), ("Chapter 4", "")]
  {
    assert NumberedTitle(Finite(1)) == "Chapter 1" by {
      assert NumText(Finite(1)) == "1";
    }
    assert NumberedTitle(Finite(3)) == "Chapter 3" by {
      assert NumText(Finite(3)) == "3";
    }
    assert NumberedTitle(Finite(4)) == "Chapter 4" by {
      assert NumText(Finite(4)) == "4";
    }
    var x, y := ("Chapter 3", b3), ("Chapter 1", b1);
    assert Key(x) == Finite(3) && Key(y) == Finite(1) by {
      GetChapterNumOfNumberedTitle(Finite(3));
      GetChapterNumOfNumberedTitle(Finite(1));
    }
    AddedToSwappedPair(x, y);
  }

  /** Adding to two numbered entries in descending order swaps them and appends the number after the larger. */
  lemma AddedToSwappedPair(x: Entry, y: Entry)
    requires Key(x).Finite? && Key(y).Finite? && Key(y).n < Key(x).n
    ensures Added([x, y]) == [y, x, (NumberedTitle(Finite(Key(x).n + 1)), "")]
  {
    var m := [x, y];
    NextAfterPair(x, y);
    SortSwapsTwo(x, y);
    AddedWhenAllParse(m);
  }

  lemma NextAfterPair(x: Entry, y: Entry)
    requires Key(x).Finite? && Key(y).Finite? && Key(y).n < Key(x).n
    ensures NextNumber([x, y]) == Finite(Key(x).n + 1)
  {
    var nums := Nums([x, y]);
    assert nums == [Key(x), Key(y)];
    assert Max(nums) == Key(x) by {
      assert nums[1..] == [Key(y)];
    }
  }

  /** Two entries whose keys are strictly out of order are swapped by the sort. */
  lemma SortSwapsTwo(x: Entry, y: Entry)
    requires !Le(Key(x), Key(y))
    ensures SortByKey([x, y]) == [y, x]
  {
    assert [x, y][1..] == [y];
    assert SortByKey([y]) == [y] by {
      assert [y][1..] == [];
    }
  }


  // ---------------------------------------------------------------------------
  // remove_chapter
  // ---------------------------------------------------------------------------

  /** The entries of `m` other than title `t`, in order. */
  function Without(m: seq<Entry>, t: string): (r: seq<Entry>)
    ensures forall j :: 0 <= j < |r| ==> r[j] in m && r[j].0 != t
  {
    if m == [] then []
    else
      var last := m[|m| - 1];
      var init := Without(m[..|m| - 1], t);
      assert forall j :: 0 <= j < |init| ==> init[j] in m;
      init + (if last.0 != t then [last] else [])
  }

  /** Filtering keeps every entry with another title. */
  lemma {:induction false} WithoutKeepsOthers(m: seq<Entry>, t: string)
    ensures forall e :: e in m && e.0 != t ==> e in Without(m, t)
  {
    if m != [] {
      var init, last := m[..|m| - 1], m[|m| - 1];
      WithoutKeepsOthers(init, t);
      assert forall e :: e in m ==> e in init || e == last by {
        assert m == init + [last];
      }
    }
  }

  /**
    * The collection after `remove_chapter(t)`: exactly the entries whose
    * title is not `t`.
    */
  function Removed(m: seq<Entry>, t: string): seq<Entry>
  {
    if t in Titles(m) then Without(m, t) else m
  }

  /** After `remove_chapter(t)` the entries are exactly the old ones whose title is not `t`. */
  lemma RemovedEntries(m: seq<Entry>, t: string)
    ensures t !in Titles(Removed(m, t))
    ensures forall e :: e in Removed(m, t) <==> e in m && e.0 != t
  {
    var r := Removed(m, t);
    if t in Titles(m) {
      WithoutKeepsOthers(m, t);
      forall j | 0 <= j < |r| ensures Titles(r)[j] != t {
      }
    } else {
      assert forall j :: 0 <= j < |m| ==> Titles(m)[j] == m[j].0;
    }
  }

  lemma {:induction false} WithoutAbsent(m: seq<Entry>, t: string)
    requires t !in Titles(m)
    ensures Without(m, t) == m
  {
    if m != [] {
      var init := m[..|m| - 1];
      assert Titles(m)[|m| - 1] == m[|m| - 1].0;
      assert t !in Titles(init) by {
        forall j | 0 <= j < |init| ensures Titles(init)[j] != t {
          assert Titles(m)[j] == init[j].0;
        }
      }
      WithoutAbsent(init, t);
    }
  }

  /** Filtering out the title at position `i` of a collection with distinct titles cuts out that position. */
  lemma {:induction false} WithoutCutsOut(m: seq<Entry>, i: nat)
    requires DistinctTitles(m) && i < |m|
    ensures Without(m, m[i].0) == m[..i] + m[i + 1..]
  {
    var t := m[i].0;
    var init, last := m[..|m| - 1], m[|m| - 1];
    if i == |m| - 1 {
      assert t !in Titles(init) by {
        forall j | 0 <= j < |init| ensures Titles(init)[j] != t {
          assert init[j] == m[j];
        }
      }
      WithoutAbsent(init, t);
      assert Without(m, t) == Without(init, t);
      assert m[..i] == init;
    } else {
      assert last.0 != t by {
        assert m[i].0 == t;
      }
      assert Without(m, t) == Without(init, t) + [last];
      assert Without(init, t) == init[..i] + init[i + 1..] by {
        assert init[i] == m[i];
        PrefixDistinct(m, |m| - 1);
        WithoutCutsOut(init, i);
      }
      assert m[..i] == init[..i];
      assert m[i + 1..] == init[i + 1..] + [last];
    }
  }

  /**
    * Removing a present title leaves exactly the other entries, in their
    * original order: the collection with that one position cut out.
    */
  lemma RemovedCutsOut(m: seq<Entry>, t: string)
    requires DistinctTitles(m) && t in Titles(m)
    ensures var i := IndexOf(m, t);
      Removed(m, t) == m[..i] + m[i + 1..]
  {
    WithoutCutsOut(m, IndexOf(m, t));
  }

  lemma RemovedKeepsDistinct(m: seq<Entry>, t: string)
    requires DistinctTitles(m)
    ensures DistinctTitles(Removed(m, t))
    ensures t !in Titles(Removed(m, t))
  {
    if t in Titles(m) {
      RemovedCutsOut(m, t);
      CutKeepsDistinct(m, IndexOf(m, t));
    }
  }

  /** Cutting one position out keeps the titles distinct, and that position's title is gone. */
  lemma CutKeepsDistinct(m: seq<Entry>, i: nat)
    requires DistinctTitles(m) && i < |m|
    ensures DistinctTitles(m[..i] + m[i + 1..])
    ensures m[i].0 !in Titles(m[..i] + m[i + 1..])
  {
    var r := m[..i] + m[i + 1..];
    assert forall p :: 0 <= p < |r| ==> r[p] == m[if p < i then p else p + 1];
    forall p | 0 <= p < |r| ensures Titles(r)[p] != m[i].0 {
      assert r[p] == m[if p < i then p else p + 1];
    }
  }


  // ---------------------------------------------------------------------------
  // update_chapter_content
  // ---------------------------------------------------------------------------

  /**
    * The collection after `update_chapter_content(t, c)`: titles and their
    * order are untouched, `t` now reads `c`, and every other entry is as it
    * was.
    */
  function ContentUpdated(m: seq<Entry>, t: string, c: string): (r: seq<Entry>)
    ensures Titles(r) == Titles(m)
    ensures t in Titles(m) ==> Get(r, t) == c
    ensures forall j :: 0 <= j < |m| && m[j].0 != t ==> r[j] == m[j]
  {
    if t in Titles(m) then
      var r := Put(m, t, c);
      var i := IndexOf(m, t);
      assert Titles(r) == Titles(m);
      IndexOfFirst(r, i, t);
      r
    else
      assert forall j :: 0 <= j < |m| ==> Titles(m)[j] == m[j].0;
      m
  }

  lemma ContentUpdatedKeepsDistinct(m: seq<Entry>, t: string, c: string)
    requires DistinctTitles(m)
    ensures DistinctTitles(ContentUpdated(m, t, c))
  {
    PutKeepsDistinct(m, t, c);
  }

  // ---------------------------------------------------------------------------
  // update_chapter_title
  // ---------------------------------------------------------------------------

  /**
    * The collection after `update_chapter_title(o, n)`. When `n` is new, the
    * entry of `o` is relabelled in place. When `n` already names another
    * entry, the two collapse into one at the earlier of the two positions,
    * and it keeps the body of the later one (the last assignment wins).
    */
  function Renamed(m: seq<Entry>, o: string, n: string): (r: seq<Entry>)
    ensures o in Titles(m) && o != n ==>
      && n in Titles(r)
      && Get(r, n) == if n in Titles(m) && IndexOf(m, o) < IndexOf(m, n) then Get(m, n) else Get(m, o)
  {
    if o !in Titles(m) || o == n then m
    else
      var i := IndexOf(m, o);
      if n !in Titles(m) then
        assert forall p :: 0 <= p < |m| ==> Titles(m)[p] == m[p].0;
        IndexOfFirst(m[i := (n, m[i].1)], i, n);
        m[i := (n, m[i].1)]
      else
        var j := IndexOf(m, n);
        var a, b := if i < j then i else j, if i < j then j else i;
        IndexOfFirst(Merged(m, a, b, n), a, n);
        Merged(m, a, b, n)
  }

  /** Positions `a < b` collapsed into one entry titled `n` at `a`, with the body found at `b`. */
  function Merged(m: seq<Entry>, a: nat, b: nat, n: string): (r: seq<Entry>)
    requires a < b < |m|
    ensures |r| == |m| - 1
    ensures r[a] == (n, m[b].1)
    ensures forall p :: 0 <= p < |r| && p != a ==> r[p] == m[if p < b then p else p + 1]
  {
    m[..a] + [(n, m[b].1)] + m[a + 1..b] + m[b + 1..]
  }

  /** What the rename loop assigns at each position: `n` with `o`'s body at `o`, the entry itself elsewhere. */
  function Relabeled(m: seq<Entry>, o: string, n: string, content: string): seq<Entry>
  {
    seq(|m|, k requires 0 <= k < |m| => if m[k].0 == o then (n, content) else m[k])
  }

  lemma RenamedKeepsDistinct(m: seq<Entry>, o: string, n: string)
    requires DistinctTitles(m)
    ensures DistinctTitles(Renamed(m, o, n))
  {
    if o in Titles(m) && o != n {
      var i := IndexOf(m, o);
      if n !in Titles(m) {
        RelabelKeepsDistinct(m, i, n);
      } else {
        var j := IndexOf(m, n);
        if i < j {
          MergedKeepsDistinct(m, i, j, n);
        } else {
          MergedKeepsDistinct(m, j, i, n);
        }
      }
    }
  }

  lemma RelabelKeepsDistinct(m: seq<Entry>, i: nat, n: string)
    requires DistinctTitles(m) && i < |m| && n !in Titles(m)
    ensures DistinctTitles(m[i := (n, m[i].1)])
  {
    var r := m[i := (n, m[i].1)];
    forall p, q | 0 <= p < q < |r| ensures r[p].0 != r[q].0 {
      assert Titles(m)[p] == m[p].0 && Titles(m)[q] == m[q].0;
    }
  }

  lemma MergedKeepsDistinct(m: seq<Entry>, a: nat, b: nat, n: string)
    requires DistinctTitles(m) && a < b < |m|
    requires m[a].0 == n || m[b].0 == n
    ensures DistinctTitles(Merged(m, a, b, n))
  {
    var r := Merged(m, a, b, n);
    forall p, q | 0 <= p < q < |r| ensures r[p].0 != r[q].0 {
      var p' := if p < b then p else p + 1;
      var q' := if q < b then q else q + 1;
      if p == a {
        assert r[q] == m[q'] && q' != a && q' != b;
      } else if q == a {
        assert r[p] == m[p'] && p' != a && p' != b;
      } else {
        assert r[p] == m[p'] && r[q] == m[q'];
      }
    }
  }


  /**
    * A real rename replaces `o` by `n` among the titles, and the collection
    * shrinks by one exactly when `n` was already a title.
    */
  lemma RenamedTitles(m: seq<Entry>, o: string, n: string)
    requires DistinctTitles(m) && o in Titles(m) && o != n
    ensures var r := Renamed(m, o, n);
      && |r| == (if n in Titles(m) then |m| - 1 else |m|)
      && forall t :: t in Titles(r) <==> t == n || (t in Titles(m) && t != o)
  {
    var i := IndexOf(m, o);
    if n !in Titles(m) {
      RelabelTitles(m, i, n);
    } else {
      var j := IndexOf(m, n);
      if i < j {
        MergedTitles(m, i, j, n);
      } else {
        MergedTitles(m, j, i, n);
      }
    }
  }

  lemma RelabelTitles(m: seq<Entry>, i: nat, n: string)
    requires DistinctTitles(m) && i < |m| && n !in Titles(m)
    ensures var r := m[i := (n, m[i].1)];
      forall t :: t in Titles(r) <==> t == n || (t in Titles(m) && t != m[i].0)
  {
    var r := m[i := (n, m[i].1)];
    assert Titles(r)[i] == n;
    forall t | t in Titles(r) && t != n ensures t in Titles(m) && t != m[i].0 {
      var p :| 0 <= p < |r| && Titles(r)[p] == t;
      assert Titles(m)[p] == t;
    }
    forall t | t in Titles(m) && t != m[i].0 ensures t in Titles(r) {
      var p :| 0 <= p < |m| && Titles(m)[p] == t;
      assert Titles(r)[p] == t;
    }
  }

  lemma MergedTitles(m: seq<Entry>, a: nat, b: nat, n: string)
    requires DistinctTitles(m) && a < b < |m|
    requires m[a].0 == n || m[b].0 == n
    ensures var r := Merged(m, a, b, n);
      var o := if m[a].0 == n then m[b].0 else m[a].0;
      forall t :: t in Titles(r) <==> t == n || (t in Titles(m) && t != o)
  {
    var r := Merged(m, a, b, n);
    var o := if m[a].0 == n then m[b].0 else m[a].0;
    assert Titles(r)[a] == n;
    forall t | t in Titles(r) && t != n ensures t in Titles(m) && t != o {
      var p :| 0 <= p < |r| && Titles(r)[p] == t;
      var p' := if p < b then p else p + 1;
      assert r[p] == m[p'];
      assert Titles(m)[p'] == t;
    }
    forall t | t in Titles(m) && t != o && t != n ensures t in Titles(r) {
      var q :| 0 <= q < |m| && Titles(m)[q] == t;
      var p := if q < b then q else q - 1;
      assert r[p] == m[q];
      assert Titles(r)[p] == t;
    }
  }

  /**
    * Assigning the relabelled entries one by one into an empty dictionary, as
    * the rename loop does, gives exactly `Renamed`.
    */
  lemma RenameLoopGivesRenamed(m: seq<Entry>, o: string, n: string)
    requires DistinctTitles(m) && o in Titles(m) && o != n
    ensures PutAll([], Relabeled(m, o, n, Get(m, o))) == Renamed(m, o, n)
  {
    var i := IndexOf(m, o);
    var es := Relabeled(m, o, n, Get(m, o));
    assert es == m[i := (n, m[i].1)];
    RenamedKeepsDistinct(m, o, n);
    if n !in Titles(m) {
      assert [] + es == es;
      PutAllFresh([], es);
    } else {
      var j := IndexOf(m, n);
      if i < j {
        MergeLoop(m, i, i, j, n);
      } else {
        MergeLoop(m, i, j, i, n);
      }
    }
  }

  /**
    * The rename loop when the renamed entry is at `i` and title `n` already
    * occurs at the other one of the positions `a < b`.
    */
  lemma MergeLoop(m: seq<Entry>, i: nat, a: nat, b: nat, n: string)
    requires DistinctTitles(m) && a < b < |m| && (i == a || i == b)
    requires m[a + b - i].0 == n
    requires DistinctTitles(Merged(m, a, b, n))
    ensures PutAll([], m[i := (n, m[i].1)]) == Merged(m, a, b, n)
  {
    var pre := m[i := (n, m[i].1)][..b];
    var e := (n, m[b].1);
    var post := m[b + 1..];
    MergeSplit(m, i, a, b, n);
    assert PutAll([], pre + [e]) == pre[a := e] by {
      PrefixBeforeMergeDistinct(m, i, a, b, n);
      assert [] + pre == pre;
      PutAllFresh([], pre);
      PutAllSnoc([], pre, e);
      IndexOfDistinct(pre, a);
    }
    PutAllConcat([], pre + [e], post);
    PutAllFresh(pre[a := e], post);
  }

  /** The relabelled collection, cut at the later of the two positions. */
  lemma MergeSplit(m: seq<Entry>, i: nat, a: nat, b: nat, n: string)
    requires a < b < |m| && (i == a || i == b)
    requires m[a + b - i].0 == n
    ensures var pre := m[i := (n, m[i].1)][..b];
      && m[i := (n, m[i].1)] == pre + [(n, m[b].1)] + m[b + 1..]
      && pre[a].0 == n
      && pre[a := (n, m[b].1)] + m[b + 1..] == Merged(m, a, b, n)
  {
    var es := m[i := (n, m[i].1)];
    assert es[b] == (n, m[b].1);
    assert es == es[..b] + [es[b]] + es[b + 1..];
    assert es[b + 1..] == m[b + 1..];
  }

  lemma PrefixBeforeMergeDistinct(m: seq<Entry>, i: nat, a: nat, b: nat, n: string)
    requires DistinctTitles(m) && a < b < |m| && (i == a || i == b)
    requires m[a + b - i].0 == n
    ensures DistinctTitles(m[i := (n, m[i].1)][..b])
  {
    var pre := m[i := (n, m[i].1)][..b];
    forall p, q | 0 <= p < q < b ensures pre[p].0 != pre[q].0 {
      if p == a {
        assert pre[q] == m[q];
      } else if q == a {
        assert pre[p] == m[p];
      } else {
        assert pre[p] == m[p] && pre[q] == m[q];
      }
    }
  }

  // ---------------------------------------------------------------------------
  // The store
  // ---------------------------------------------------------------------------

  /**
    * The loop of `update_chapter_title`: every entry is assigned into a fresh
    * dict in order, under `n` with `content` if its title is `o`, and
    * unchanged otherwise.
    */
  method RelabelAll(m: seq<Entry>, o: string, n: string, content: string) returns (rebuilt: seq<Entry>)
    ensures rebuilt == PutAll([], Relabeled(m, o, n, content))
  {
    ghost var es := Relabeled(m, o, n, content);
    rebuilt := [];
    for i := 0 to |m|
      invariant rebuilt == PutAll([], es[..i])
    {
      assert es[..i + 1] == es[..i] + [es[i]];
      PutAllSnoc([], es[..i], es[i]);
      if m[i].0 == o {
        rebuilt := Put(rebuilt, n, content);
      } else {
        rebuilt := Put(rebuilt, m[i].0, m[i].1);
      }
    }
    assert es[..|m|] == es;
  }

  /** The editor's chapter collection, which every operation rebinds to a new value. */
  class Store {
    var chapters: seq<Entry>

    ghost predicate Valid()
      reads this
    {
      DistinctTitles(chapters)
    }

    /** The collection a new editing session starts with. */
    constructor ()
      ensures Valid()
      ensures chapters == [("Chapter 1", "")]
    {
      chapters := [("Chapter 1", "")];
    }

    /**
      * `add_chapter()`. `ok` is false when formatting the new title raises,
      * in which case the collection is left unchanged.
      */
    method AddChapter() returns (ok: bool)
      requires Valid()
      modifies this
      ensures Valid()
      ensures ok == CanAdd(old(chapters))
      ensures chapters == if ok then Added(old(chapters)) else old(chapters)
    {
      var next := NextNumber(chapters);
      var existing := SortByKey(chapters);
      SortKeepsDistinct(chapters);
      var rebuilt: seq<Entry> := [];
      for i := 0 to |existing|
        invariant rebuilt == existing[..i]
      {
        assert existing[i].0 !in Titles(rebuilt) by {
          forall p | 0 <= p < i ensures Titles(rebuilt)[p] != existing[i].0 {
            assert rebuilt[p] == existing[p];
          }
        }
        rebuilt := Put(rebuilt, existing[i].0, existing[i].1);
        assert rebuilt == existing[..i + 1];
      }
      assert rebuilt == existing;
      if !Formattable(next) {
        return false;
      }
      AddedKeepsDistinct(chapters);
      chapters := Put(rebuilt, NumberedTitle(next), "");
      ok := true;
    }

    /** `remove_chapter(t)` */
    method RemoveChapter(t: string)
      requires Valid()
      modifies this
      ensures Valid()
      ensures chapters == Removed(old(chapters), t)
    {
      RemovedKeepsDistinct(chapters, t);
      if t in Titles(chapters) {
        var rebuilt: seq<Entry> := [];
        for i := 0 to |chapters|
          invariant rebuilt == Without(chapters[..i], t)
        {
          assert chapters[..i + 1][..i] == chapters[..i];
          if chapters[i].0 != t {
            assert chapters[i].0 !in Titles(rebuilt) by {
              forall p | 0 <= p < |rebuilt| ensures Titles(rebuilt)[p] != chapters[i].0 {
                assert rebuilt[p] in chapters[..i];
              }
            }
            rebuilt := Put(rebuilt, chapters[i].0, chapters[i].1);
          }
        }
        assert chapters[..|chapters|] == chapters;
        chapters := rebuilt;
      }
    }

    /** `update_chapter_content(t, c)` */
    method UpdateChapterContent(t: string, c: string)
      requires Valid()
      modifies this
      ensures Valid()
      ensures chapters == ContentUpdated(old(chapters), t, c)
    {
      ContentUpdatedKeepsDistinct(chapters, t, c);
      if t in Titles(chapters) {
        chapters := Put(chapters, t, c);
      }
    }

    /** `update_chapter_title(o, n)` */
    method UpdateChapterTitle(o: string, n: string)
      requires Valid()
      modifies this
      ensures Valid()
      ensures chapters == Renamed(old(chapters), o, n)
    {
      RenamedKeepsDistinct(chapters, o, n);
      if o in Titles(chapters) && o != n {
        var rebuilt := RelabelAll(chapters, o, n, Get(chapters, o));
        RenameLoopGivesRenamed(chapters, o, n);
        chapters := rebuilt;
      }
    }
  }
}
