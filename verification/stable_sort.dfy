/**
  * `sorted(chapters.items(), key=lambda x: get_chapter_num(x[0]))`: Python's
  * sort is stable, so the result is the one sequence that is ordered by key
  * and keeps, within every key, the original order of the entries. The model
  * computes it by insertion sort and proves exactly those properties.
  */
module StableSort {
  import opened OrderedMap
  import opened ChapterNumber

  /** The sort key of one chapter. */
  function Key(e: Entry): Num
  {
    GetChapterNum(e.0)
  }

  predicate SortedByKey(m: seq<Entry>)
  {
    forall i, j :: 0 <= i < j < |m| ==> Le(Key(m[i]), Key(m[j]))
  }

  /** The entries of `m` whose key is `k`, in their order in `m`. */
  function WithKey(m: seq<Entry>, k: Num): seq<Entry>
  {
    if m == [] then [] else (if Key(m[0]) == k then [m[0]] else []) + WithKey(m[1..], k)
  }

  lemma LeTotal(a: Num, b: Num)
    ensures Le(a, b) || Le(b, a)
    ensures Le(a, b) && Le(b, a) ==> a == b
  {
  }

  lemma LeTransitive(a: Num, b: Num, c: Num)
    requires Le(a, b) && Le(b, c)
    ensures Le(a, c)
  {
  }

  /** Puts `e` in front of the first entry whose key is not smaller than its own. */
  function Insert(e: Entry, s: seq<Entry>): seq<Entry>
  {
    if s == [] || Le(Key(e), Key(s[0])) then [e] + s else [s[0]] + Insert(e, s[1..])
  }

  lemma {:induction false} InsertPermutes(e: Entry, s: seq<Entry>)
    ensures multiset(Insert(e, s)) == multiset(s) + multiset{e}
  {
    if s != [] && !Le(Key(e), Key(s[0])) {
      InsertPermutes(e, s[1..]);
      assert s == [s[0]] + s[1..];
    }
  }

  lemma {:induction false} InsertSorted(e: Entry, s: seq<Entry>)
    requires SortedByKey(s)
    ensures SortedByKey(Insert(e, s))
  {
    var r := Insert(e, s);
    if s == [] {
    } else if Le(Key(e), Key(s[0])) {
      forall j | 1 <= j < |r| ensures Le(Key(r[0]), Key(r[j])) {
        if j > 1 {
          LeTransitive(Key(e), Key(s[0]), Key(s[j - 1]));
        }
      }
    } else {
      var t := Insert(e, s[1..]);
      InsertSorted(e, s[1..]);
      InsertPermutes(e, s[1..]);
      LeTotal(Key(e), Key(s[0]));
      forall j | 0 <= j < |t| ensures Le(Key(s[0]), Key(t[j])) {
        assert t[j] in multiset(t);
        if t[j] != e {
          assert t[j] in multiset(s[1..]);
          var p :| 0 <= p < |s[1..]| && s[1..][p] == t[j];
          assert s[p + 1] == t[j];
        }
      }
    }
  }

  lemma WithKeyCons(x: Entry, s: seq<Entry>, k: Num)
    ensures WithKey([x] + s, k) == (if Key(x) == k then [x] else []) + WithKey(s, k)
  {
    assert ([x] + s)[1..] == s;
  }

  /**
    * Inserting `e` adds it in front of the entries of its own key and leaves
    * every other key's entries alone: the entries it passes have smaller keys.
    */
  lemma {:induction false} InsertWithKey(e: Entry, s: seq<Entry>, k: Num)
    ensures WithKey(Insert(e, s), k) == (if Key(e) == k then [e] else []) + WithKey(s, k)
  {
    if s == [] || Le(Key(e), Key(s[0])) {
      WithKeyCons(e, s, k);
    } else {
      var x, rest := s[0], s[1..];
      var ke, kx := Key(e), Key(x);
      assert ke != kx by { LeTotal(ke, kx); }
      assert s == [x] + rest;
      InsertWithKey(e, rest, k);
      WithKeyCons(x, Insert(e, rest), k);
      WithKeyCons(x, rest, k);
    }
  }

  lemma {:induction false} InsertDistinct(e: Entry, s: seq<Entry>)
    requires DistinctTitles(s)
    requires forall i :: 0 <= i < |s| ==> s[i].0 != e.0
    ensures DistinctTitles(Insert(e, s))
  {
    if s != [] && !Le(Key(e), Key(s[0])) {
      var t := Insert(e, s[1..]);
      InsertDistinct(e, s[1..]);
      InsertPermutes(e, s[1..]);
      forall j | 0 <= j < |t| ensures t[j].0 != s[0].0 {
        assert t[j] in multiset(t);
        if t[j] != e {
          assert t[j] in multiset(s[1..]);
          var p :| 0 <= p < |s[1..]| && s[1..][p] == t[j];
          assert s[p + 1] == t[j];
        }
      }
      assert Insert(e, s) == [s[0]] + t;
    }
  }

  /** `sorted(m, key=Key)`: ordered by key and a permutation of `m`. */
  function SortByKey(m: seq<Entry>): (r: seq<Entry>)
    ensures SortedByKey(r)
    ensures multiset(r) == multiset(m)
  {
    if m == [] then []
    else
      var rest := SortByKey(m[1..]);
      InsertSorted(m[0], rest);
      InsertPermutes(m[0], rest);
      assert m == [m[0]] + m[1..];
      Insert(m[0], rest)
  }

  /** The sort is stable: for every key, the entries with that key keep their original order. */
  lemma {:induction false} SortStable(m: seq<Entry>, k: Num)
    ensures WithKey(SortByKey(m), k) == WithKey(m, k)
  {
    if m != [] {
      SortStable(m[1..], k);
      InsertWithKey(m[0], SortByKey(m[1..]), k);
    }
  }

  /** Sorting neither gains nor loses an entry. */
  lemma SortSameEntries(m: seq<Entry>, e: Entry)
    ensures e in SortByKey(m) <==> e in m
  {
    var s := SortByKey(m);
    assert e in s <==> e in multiset(s);
    assert e in m <==> e in multiset(m);
  }

  /** Sorting keeps the titles distinct. */
  lemma {:induction false} SortKeepsDistinct(m: seq<Entry>)
    requires DistinctTitles(m)
    ensures DistinctTitles(SortByKey(m))
  {
    if m != [] {
      var rest := SortByKey(m[1..]);
      SortKeepsDistinct(m[1..]);
      forall i | 0 <= i < |rest| ensures rest[i].0 != m[0].0 {
        assert rest[i] in multiset(rest);
        assert rest[i] in multiset(m[1..]);
        var p :| 0 <= p < |m[1..]| && m[1..][p] == rest[i];
        assert m[p + 1] == rest[i];
      }
      InsertDistinct(m[0], rest);
    }
  }
}
