/** The breakpoint store: a sequence of (up-to key, value) pairs kept in key
    order, with the bisect, pop and add operations of a sorted list keyed by
    `up_to_key`. */
module Breakpoints {
  import opened ExtKeys
  import opened Optional

  /** One breakpoint: the entry owns the interval that ends at `upTo`. */
  datatype Pair<V> = Pair(upTo: Key, value: Option<V>)

  /** Keys in non-decreasing order, the order a sorted list maintains. */
  ghost predicate Sorted<V>(s: seq<Pair<V>>)
  {
    forall i, j :: 0 <= i < j < |s| ==> Le(s[i].upTo, s[j].upTo)
  }

  /** Keys in strictly increasing order: no key occurs twice. */
  ghost predicate Ascending<V>(s: seq<Pair<V>>)
  {
    forall i, j :: 0 <= i < j < |s| ==> Lt(s[i].upTo, s[j].upTo)
  }

  lemma AscendingIsSorted<V>(s: seq<Pair<V>>)
    requires Ascending(s)
    ensures Sorted(s)
  {
  }

  /** Binary search for the first index in [lo, hi) whose key is >= k. */
  function SearchLeft<V>(s: seq<Pair<V>>, k: Key, lo: nat, hi: nat): (i: nat)
    requires Sorted(s) && lo <= hi <= |s|
    requires forall m :: 0 <= m < lo ==> Lt(s[m].upTo, k)
    requires forall m :: hi <= m < |s| ==> Le(k, s[m].upTo)
    ensures lo <= i <= hi
    ensures forall m :: 0 <= m < i ==> Lt(s[m].upTo, k)
    ensures forall m :: i <= m < |s| ==> Le(k, s[m].upTo)
    decreases hi - lo
  {
    if lo == hi then lo
    else
      var mid := (lo + hi) / 2;
      if Lt(s[mid].upTo, k) then SearchLeft(s, k, mid + 1, hi) else SearchLeft(s, k, lo, mid)
  }

  /** Binary search for the first index in [lo, hi) whose key is > k. */
  function SearchRight<V>(s: seq<Pair<V>>, k: Key, lo: nat, hi: nat): (i: nat)
    requires Sorted(s) && lo <= hi <= |s|
    requires forall m :: 0 <= m < lo ==> Le(s[m].upTo, k)
    requires forall m :: hi <= m < |s| ==> Lt(k, s[m].upTo)
    ensures lo <= i <= hi
    ensures forall m :: 0 <= m < i ==> Le(s[m].upTo, k)
    ensures forall m :: i <= m < |s| ==> Lt(k, s[m].upTo)
    decreases hi - lo
  {
    if lo == hi then lo
    else
      var mid := (lo + hi) / 2;
      if Le(s[mid].upTo, k) then SearchRight(s, k, mid + 1, hi) else SearchRight(s, k, lo, mid)
  }

  /** `bisect_left`: the first index whose key is >= k (|s| if there is none). */
  function BisectLeft<V>(s: seq<Pair<V>>, k: Key): (i: nat)
    requires Sorted(s)
    ensures i <= |s|
    ensures forall m :: 0 <= m < i ==> Lt(s[m].upTo, k)
    ensures forall m :: i <= m < |s| ==> Le(k, s[m].upTo)
  {
    SearchLeft(s, k, 0, |s|)
  }

  /** `bisect_right`: the first index whose key is > k (|s| if there is none). */
  function BisectRight<V>(s: seq<Pair<V>>, k: Key): (i: nat)
    requires Sorted(s)
    ensures i <= |s|
    ensures forall m :: 0 <= m < i ==> Le(s[m].upTo, k)
    ensures forall m :: i <= m < |s| ==> Lt(k, s[m].upTo)
  {
    SearchRight(s, k, 0, |s|)
  }

  /** The two bisect contracts determine their index uniquely. */
  lemma BisectLeftUnique<V>(s: seq<Pair<V>>, k: Key, i: nat)
    requires Sorted(s) && i <= |s|
    requires forall m :: 0 <= m < i ==> Lt(s[m].upTo, k)
    requires forall m :: i <= m < |s| ==> Le(k, s[m].upTo)
    ensures BisectLeft(s, k) == i
  {
    var b := BisectLeft(s, k);
    var m := if b < i then b else i;
    if m < |s| {
      assert Lt(s[m].upTo, k) || i <= m;
    }
  }

  lemma BisectRightUnique<V>(s: seq<Pair<V>>, k: Key, i: nat)
    requires Sorted(s) && i <= |s|
    requires forall m :: 0 <= m < i ==> Le(s[m].upTo, k)
    requires forall m :: i <= m < |s| ==> Lt(k, s[m].upTo)
    ensures BisectRight(s, k) == i
  {
    var b := BisectRight(s, k);
    var m := if b < i then b else i;
    if m < |s| {
      assert Le(s[m].upTo, k) || i <= m;
    }
  }

  /** `pop(i)`: the sequence without its i-th entry, later entries shifted left. */
  function Pop<V>(s: seq<Pair<V>>, i: nat): (r: seq<Pair<V>>)
    requires i < |s|
    ensures |r| == |s| - 1
    ensures forall m :: 0 <= m < i ==> r[m] == s[m]
    ensures forall m :: i <= m < |r| ==> r[m] == s[m + 1]
    ensures Sorted(s) ==> Sorted(r)
    ensures multiset(r) + multiset{s[i]} == multiset(s)
  {
    assert s == s[..i] + [s[i]] + s[i + 1..];
    s[..i] + s[i + 1..]
  }

  /** `add(p)`: sorted insertion, placed after every entry with an equal key. */
  function Add<V>(s: seq<Pair<V>>, p: Pair<V>): (r: seq<Pair<V>>)
    requires Sorted(s)
    ensures Sorted(r)
    ensures |r| == |s| + 1
  {
    var i := BisectRight(s, p.upTo);
    InsertKeepsOrder(s, p, i);
    s[..i] + [p] + s[i..]
  }

  /** `add` adds exactly the new pair: the entries after it are the old
      entries and p. */
  lemma AddContents<V>(s: seq<Pair<V>>, p: Pair<V>)
    requires Sorted(s)
    ensures multiset(Add(s, p)) == multiset(s) + multiset{p}
  {
    var i := BisectRight(s, p.upTo);
    assert s == s[..i] + s[i..];
  }

  /** Inserting a key between its neighbours keeps the sequence sorted. */
  lemma InsertKeepsOrder<V>(s: seq<Pair<V>>, p: Pair<V>, i: nat)
    requires Sorted(s) && i <= |s|
    requires forall m :: 0 <= m < i ==> Le(s[m].upTo, p.upTo)
    requires forall m :: i <= m < |s| ==> Lt(p.upTo, s[m].upTo)
    ensures Sorted(s[..i] + [p] + s[i..])
  {
    var r := s[..i] + [p] + s[i..];
    assert forall m :: 0 <= m < i ==> r[m] == s[m];
    assert r[i] == p;
    assert forall m :: i < m < |r| ==> r[m] == s[m - 1];
  }

  /** Where `add` puts a key that falls between two runs: after every key
      of the first run and before every key of the second. */
  lemma AddBetween<V>(a: seq<Pair<V>>, b: seq<Pair<V>>, p: Pair<V>)
    requires Sorted(a + b)
    requires forall m :: 0 <= m < |a| ==> Le(a[m].upTo, p.upTo)
    requires forall m :: 0 <= m < |b| ==> Lt(p.upTo, b[m].upTo)
    ensures Add(a + b, p) == a + [p] + b
  {
    var s := a + b;
    assert forall m :: 0 <= m < |a| ==> s[m] == a[m];
    assert forall m :: |a| <= m < |s| ==> s[m] == b[m - |a|];
    BisectRightUnique(s, p.upTo, |a|);
    assert s[..|a|] == a && s[|a|..] == b;
  }
}
