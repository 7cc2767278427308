/**
  * The chapter collection as an `OrderedDict` from title to Markdown body,
  * modelled as a sequence of `(title, body)` pairs in iteration order.
  */
module OrderedMap {

  /** One chapter: its title and its Markdown body. */
  type Entry = (string, string)

  function Titles(m: seq<Entry>): seq<string>
  {
    seq(|m|, i requires 0 <= i < |m| => m[i].0)
  }

  function Bodies(m: seq<Entry>): seq<string>
  {
    seq(|m|, i requires 0 <= i < |m| => m[i].1)
  }

  /** The invariant every `OrderedDict` keeps: no title occurs twice. */
  predicate DistinctTitles(m: seq<Entry>)
  {
    forall i, j :: 0 <= i < j < |m| ==> m[i].0 != m[j].0
  }

  /** The position of key `k`. */
  function IndexOf(m: seq<Entry>, k: string): (i: nat)
    requires k in Titles(m)
    ensures i < |m| && m[i].0 == k
    ensures forall j :: 0 <= j < i ==> m[j].0 != k
  {
    if m[0].0 == k then 0
    else
      assert k in Titles(m[1..]) by {
        var j :| 0 <= j < |m| && Titles(m)[j] == k;
        assert Titles(m[1..])[j - 1] == k;
      }
      1 + IndexOf(m[1..], k)
  }

  lemma IndexOfDistinct(m: seq<Entry>, p: nat)
    requires DistinctTitles(m) && p < |m|
    ensures m[p].0 in Titles(m) && IndexOf(m, m[p].0) == p
  {
    assert Titles(m)[p] == m[p].0;
  }

  /** The first position holding key `k` is its index. */
  lemma IndexOfFirst(m: seq<Entry>, a: nat, k: string)
    requires a < |m| && m[a].0 == k
    requires forall p :: 0 <= p < a ==> m[p].0 != k
    ensures k in Titles(m) && IndexOf(m, k) == a
  {
    assert Titles(m)[a] == k;
  }

  lemma PrefixDistinct(m: seq<Entry>, k: nat)
    requires DistinctTitles(m) && k <= |m|
    ensures DistinctTitles(m[..k])
  {
    forall i, j | 0 <= i < j < k ensures m[..k][i].0 != m[..k][j].0 {
      assert m[..k][i] == m[i] && m[..k][j] == m[j];
    }
  }

  /** `d[k]` for a key that is present. */
  function Get(m: seq<Entry>, k: string): string
    requires k in Titles(m)
  {
    m[IndexOf(m, k)].1
  }

  /**
    * `d[k] = v`: a key already present keeps its position and gets the new
    * value; a new key goes at the end.
    */
  function Put(m: seq<Entry>, k: string, v: string): (r: seq<Entry>)
    ensures k in Titles(m) ==> r == m[IndexOf(m, k) := (k, v)]
    ensures k !in Titles(m) ==> r == m + [(k, v)]
  {
    if m == [] then [(k, v)]
    else if m[0].0 == k then
      assert Titles(m)[0] == k;
      [(k, v)] + m[1..]
    else
      assert k in Titles(m) <==> k in Titles(m[1..]) by {
        assert Titles(m) == [m[0].0] + Titles(m[1..]);
      }
      [m[0]] + Put(m[1..], k, v)
  }

  /** Assigning keeps the keys distinct, and the key is present afterwards. */
  lemma PutKeepsDistinct(m: seq<Entry>, k: string, v: string)
    requires DistinctTitles(m)
    ensures DistinctTitles(Put(m, k, v))
    ensures k in Titles(Put(m, k, v))
  {
    var r := Put(m, k, v);
    assert r[if k in Titles(m) then IndexOf(m, k) else |m|].0 == k;
    assert Titles(r)[if k in Titles(m) then IndexOf(m, k) else |m|] == k;
  }

  /** The dictionary built by assigning every pair of `es`, in order, onto `acc`. */
  function PutAll(acc: seq<Entry>, es: seq<Entry>): seq<Entry>
  {
    if es == [] then acc
    else
      var last := es[|es| - 1];
      Put(PutAll(acc, es[..|es| - 1]), last.0, last.1)
  }

  lemma PutAllSnoc(acc: seq<Entry>, es: seq<Entry>, e: Entry)
    ensures PutAll(acc, es + [e]) == Put(PutAll(acc, es), e.0, e.1)
  {
    assert (es + [e])[..|es + [e]| - 1] == es;
  }

  /** Assigning pairs whose keys are all new and distinct just appends them. */
  lemma {:induction false} PutAllFresh(acc: seq<Entry>, es: seq<Entry>)
    requires DistinctTitles(acc + es)
    ensures PutAll(acc, es) == acc + es
  {
    if es != [] {
      var init, last := es[..|es| - 1], es[|es| - 1];
      assert acc + es == (acc + init) + [last];
      assert DistinctTitles(acc + init) by {
        forall i, j | 0 <= i < j < |acc + init|
          ensures (acc + init)[i].0 != (acc + init)[j].0
        {
          assert (acc + init)[i] == (acc + es)[i] && (acc + init)[j] == (acc + es)[j];
        }
      }
      PutAllFresh(acc, init);
      forall i | 0 <= i < |acc + init|
        ensures Titles(acc + init)[i] != last.0
      {
        assert (acc + init)[i] == (acc + es)[i];
        assert last == (acc + es)[|acc + es| - 1];
      }
    }
  }

  /** Assigning `xs + ys` is assigning `xs`, then `ys`. */
  lemma {:induction false} PutAllConcat(acc: seq<Entry>, xs: seq<Entry>, ys: seq<Entry>)
    ensures PutAll(acc, xs + ys) == PutAll(PutAll(acc, xs), ys)
    decreases |ys|
  {
    if ys == [] {
      assert xs + ys == xs;
    } else {
      var init := ys[..|ys| - 1];
      assert (xs + ys)[..|xs + ys| - 1] == xs + init;
      PutAllConcat(acc, xs, init);
    }
  }
}
