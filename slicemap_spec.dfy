/** The abstract behaviour of a slice map over its breakpoint sequence: the
    container invariant, the owner of a key under each inclusion policy, the
    point and range lookups, the size, the flattened export, and the new
    breakpoint sequence that a range assignment produces. */
module SliceMapSpec {
  import opened ExtKeys
  import opened Optional
  import opened Breakpoints

  /** Which of two adjacent slices owns the key on their shared boundary:
      under Start it belongs to the slice that begins there, under End to
      the slice that ends there. */
  datatype Include = Start | End

  /** The exceptions a range lookup raises: comparing a None bound with a
      key, and indexing past the last entry. */
  datatype QueryError = TypeError | IndexError

  /** The container invariant: never empty, strictly ascending keys, the
      +inf sentinel last, and no breakpoint at -inf. */
  ghost predicate WellFormed<V>(d: seq<Pair<V>>)
  {
    && |d| > 0
    && Ascending(d)
    && d[|d| - 1].upTo == PosInf
    && (forall i :: 0 <= i < |d| ==> d[i].upTo != NegInf)
  }

  /** Entry i owns key k: under Start entry i covers [lower, upTo) and the
      last entry also covers +inf; under End it covers (lower, upTo] and the
      first entry also covers -inf. The lower end is the previous entry's key. */
  ghost predicate Owns<V>(d: seq<Pair<V>>, inc: Include, i: int, k: Key)
  {
    && 0 <= i < |d|
    && match inc
       case Start => (i == 0 || Le(d[i - 1].upTo, k)) && (i == |d| - 1 || Lt(k, d[i].upTo))
       case End => (i == 0 || Lt(d[i - 1].upTo, k)) && Le(k, d[i].upTo)
  }

  /** Two entries never own the same key. */
  lemma OwnersEqual<V>(d: seq<Pair<V>>, inc: Include, k: Key, a: int, b: int)
    requires WellFormed(d) && Owns(d, inc, a, k) && Owns(d, inc, b, k)
    ensures a == b
  {
    var lo := if a < b then a else b;
    var hi := if a < b then b else a;
    var h := if hi > 0 then hi - 1 else 0;
    assert Le(d[lo].upTo, d[h].upTo) || !(lo <= h);
  }

  lemma OwnerUnique<V>(d: seq<Pair<V>>, inc: Include, k: Key, a: int)
    requires WellFormed(d) && Owns(d, inc, a, k)
    ensures forall b :: Owns(d, inc, b, k) ==> b == a
  {
    forall b | Owns(d, inc, b, k)
      ensures b == a
    {
      OwnersEqual(d, inc, k, a, b);
    }
  }

  /** The breakpoint search the policy selects: bisect_right under Start,
      bisect_left under End. */
  function Search<V>(d: seq<Pair<V>>, inc: Include, k: Key): (i: nat)
    requires Sorted(d)
    ensures i <= |d|
  {
    if inc == Start then BisectRight(d, k) else BisectLeft(d, k)
  }

  /** The index a point lookup reads: the sentinel for +inf, the first entry
      for -inf, otherwise the policy's search. It is always in bounds and it
      is the owner of the key. */
  function Locate<V>(d: seq<Pair<V>>, inc: Include, k: Key): (i: nat)
    requires WellFormed(d)
    ensures i < |d|
    ensures Owns(d, inc, i, k)
  {
    if k == PosInf then |d| - 1
    else if k == NegInf then 0
    else Search(d, inc, k)
  }

  /** Point lookup `m[k]`: the value of the entry that owns k. */
  function GetItem<V>(d: seq<Pair<V>>, inc: Include, k: Key): (r: Option<V>)
    requires WellFormed(d)
    ensures forall i :: Owns(d, inc, i, k) ==> r == d[i].value
  {
    var i := Locate(d, inc, k);
    OwnerUnique(d, inc, k, i);
    d[i].value
  }

  /** Away from +inf under Start, the lookup index is the policy's search. */
  lemma LocateIsSearch<V>(d: seq<Pair<V>>, inc: Include, k: Key)
    requires WellFormed(d)
    requires !(inc == Start && k == PosInf)
    ensures Locate(d, inc, k) == Search(d, inc, k)
  {
    if k == NegInf {
      BisectLeftUnique(d, k, 0);
      BisectRightUnique(d, k, 0);
    } else if k == PosInf {
      BisectLeftUnique(d, k, |d| - 1);
    }
  }

  /** `m[+inf]` reads the sentinel and `m[-inf]` the first entry; for a
      finite key the policy's search lands inside the sequence, so a point
      lookup never indexes out of range. */
  lemma PointLookupTotal<V>(d: seq<Pair<V>>, inc: Include, k: Key)
    requires WellFormed(d)
    ensures GetItem(d, inc, PosInf) == d[|d| - 1].value
    ensures GetItem(d, inc, NegInf) == d[0].value
    ensures k.Fin? ==> Search(d, inc, k) < |d| && GetItem(d, inc, k) == d[Search(d, inc, k)].value
  {
    assert Owns(d, inc, |d| - 1, PosInf);
    assert Owns(d, inc, 0, NegInf);
    if k.Fin? {
      LocateIsSearch(d, inc, k);
    }
  }

  /** The search runs past the last entry exactly under Start at +inf. */
  lemma SearchPastEnd<V>(d: seq<Pair<V>>, inc: Include, k: Key)
    requires WellFormed(d)
    ensures Search(d, inc, k) == |d| <==> inc == Start && k == PosInf
  {
    if inc == Start && k == PosInf {
      BisectRightUnique(d, PosInf, |d|);
    } else {
      LocateIsSearch(d, inc, k);
    }
  }

  /** Either search is monotone in the key. */
  lemma SearchMonotone<V>(d: seq<Pair<V>>, inc: Include, a: Key, b: Key)
    requires Sorted(d) && Le(a, b)
    ensures Search(d, inc, a) <= Search(d, inc, b)
  {
    var ia, ib := Search(d, inc, a), Search(d, inc, b);
    if ib < |d| {
      assert Le(d[ib].upTo, d[ib].upTo);
    }
  }

  /** The values of entries i1..i2 inclusive, in entry order. */
  function Values<V>(d: seq<Pair<V>>, i1: nat, i2: nat): (r: seq<Option<V>>)
    requires i1 > i2 || i2 < |d|
    ensures |r| == if i1 <= i2 then i2 - i1 + 1 else 0
    ensures forall m :: 0 <= m < |r| ==> r[m] == d[i1 + m].value
  {
    if i1 > i2 then [] else seq(i2 - i1 + 1, m requires 0 <= m < i2 - i1 + 1 => d[i1 + m].value)
  }

  /** Range lookup `m[lo:hi]`: the values of the entries between the
      policy's search index of lo and that of hi, both inclusive. A None
      bound fails in the key comparison; under Start a stop of +inf makes
      the search return one past the last entry, and reading it fails. */
  function GetRange<V>(d: seq<Pair<V>>, inc: Include, lo: Option<Key>, hi: Option<Key>)
    : (r: Result<seq<Option<V>>, QueryError>)
    requires WellFormed(d)
    ensures r.Failure? <==> lo.None? || hi.None? || (inc == Start && hi == Some(PosInf))
    ensures r.Failure? ==> r.error == if lo.None? || hi.None? then TypeError else IndexError
  {
    if lo.None? || hi.None? then Failure(TypeError)
    else
      var i1 := Search(d, inc, lo.value);
      var i2 := Search(d, inc, hi.value);
      SearchPastEnd(d, inc, hi.value);
      if i1 <= i2 && i2 >= |d| then Failure(IndexError)
      else Success(Values(d, i1, i2))
  }

  /** A successful range lookup over lo <= hi starts with the value at lo,
      ends with the value at hi, and holds the value at every key between. */
  lemma RangeCovers<V>(d: seq<Pair<V>>, inc: Include, lo: Key, hi: Key)
    requires WellFormed(d) && Le(lo, hi)
    requires GetRange(d, inc, Some(lo), Some(hi)).Success?
    ensures var vs := GetRange(d, inc, Some(lo), Some(hi)).value;
      && Search(d, inc, lo) <= Search(d, inc, hi)
      && |vs| == Search(d, inc, hi) - Search(d, inc, lo) + 1
      && vs[0] == GetItem(d, inc, lo)
      && vs[|vs| - 1] == GetItem(d, inc, hi)
      && forall k :: Le(lo, k) && Le(k, hi) ==> GetItem(d, inc, k) in vs
  {
    LocateIsSearch(d, inc, lo);
    LocateIsSearch(d, inc, hi);
    LocateMonotone(d, inc, lo, hi);
    ClampedAgrees(d, inc, lo, hi);
    ClampedRangeCovers(d, inc, lo, hi);
  }

  /** The lookup index is monotone in the key. */
  lemma LocateMonotone<V>(d: seq<Pair<V>>, inc: Include, a: Key, b: Key)
    requires WellFormed(d) && Le(a, b)
    ensures Locate(d, inc, a) <= Locate(d, inc, b)
  {
    if b != PosInf && a != NegInf {
      SearchMonotone(d, inc, a, b);
    }
  }

  /** Range lookup with both ends read as the point lookup reads them, so
      a stop of +inf reads the sentinel instead of one past it. Only a
      missing bound fails. */
  function GetRangeClamped<V>(d: seq<Pair<V>>, inc: Include, lo: Option<Key>, hi: Option<Key>)
    : (r: Result<seq<Option<V>>, QueryError>)
    requires WellFormed(d)
    ensures r.Failure? <==> lo.None? || hi.None?
    ensures r.Failure? ==> r.error == TypeError
  {
    if lo.None? || hi.None? then Failure(TypeError)
    else Success(Values(d, Locate(d, inc, lo.value), Locate(d, inc, hi.value)))
  }

  /** Wherever the unclamped lookup succeeds (its start not +inf under
      Start), the clamped one returns the same values. */
  lemma ClampedAgrees<V>(d: seq<Pair<V>>, inc: Include, lo: Key, hi: Key)
    requires WellFormed(d)
    requires inc == End || lo != PosInf
    requires GetRange(d, inc, Some(lo), Some(hi)).Success?
    ensures GetRangeClamped(d, inc, Some(lo), Some(hi)) == GetRange(d, inc, Some(lo), Some(hi))
  {
    LocateIsSearch(d, inc, lo);
    LocateIsSearch(d, inc, hi);
  }

  /** Under End the two range lookups coincide on every input. */
  lemma ClampedAgreesUnderEnd<V>(d: seq<Pair<V>>, lo: Option<Key>, hi: Option<Key>)
    requires WellFormed(d)
    ensures GetRangeClamped(d, End, lo, hi) == GetRange(d, End, lo, hi)
  {
    if lo.Some? && hi.Some? {
      LocateIsSearch(d, End, lo.value);
      LocateIsSearch(d, End, hi.value);
      SearchPastEnd(d, End, hi.value);
    }
  }

  /** Every range lo <= hi, including one reaching +inf, starts with the
      value at lo, ends with the value at hi and holds the value at every
      key between. */
  lemma ClampedRangeCovers<V>(d: seq<Pair<V>>, inc: Include, lo: Key, hi: Key)
    requires WellFormed(d) && Le(lo, hi)
    ensures var vs := GetRangeClamped(d, inc, Some(lo), Some(hi)).value;
      && |vs| == Locate(d, inc, hi) - Locate(d, inc, lo) + 1
      && vs[0] == GetItem(d, inc, lo)
      && vs[|vs| - 1] == GetItem(d, inc, hi)
      && forall k :: Le(lo, k) && Le(k, hi) ==> GetItem(d, inc, k) in vs
  {
    var vs := GetRangeClamped(d, inc, Some(lo), Some(hi)).value;
    var i1, i2 := Locate(d, inc, lo), Locate(d, inc, hi);
    LocateMonotone(d, inc, lo, hi);
    assert vs == Values(d, i1, i2);
    assert vs[0] == d[i1].value;
    assert vs[|vs| - 1] == d[i2].value;
    forall k | Le(lo, k) && Le(k, hi)
      ensures GetItem(d, inc, k) in vs
    {
      LookupInValues(d, inc, lo, hi, k);
    }
  }

  /** A key between lo and hi has its lookup index between theirs, so its
      value is among the values of that index range. */
  lemma LookupInValues<V>(d: seq<Pair<V>>, inc: Include, lo: Key, hi: Key, k: Key)
    requires WellFormed(d) && Le(lo, k) && Le(k, hi)
    ensures Locate(d, inc, lo) <= Locate(d, inc, k) <= Locate(d, inc, hi)
    ensures GetItem(d, inc, k) == Values(d, Locate(d, inc, lo), Locate(d, inc, hi))[Locate(d, inc, k) - Locate(d, inc, lo)]
  {
    LocateMonotone(d, inc, lo, k);
    LocateMonotone(d, inc, k, hi);
  }

  /** `len(m)`: the number of entries besides the sentinel, which is the
      number of finite breakpoints. */
  function Len<V>(d: seq<Pair<V>>): (n: int)
    ensures WellFormed(d) ==> n >= 0 && forall i :: 0 <= i < |d| ==> (d[i].upTo.Fin? <==> i < n)
  {
    |d| - 1
  }

  /** `export()`: one (lower, upper, value) triple per entry, the lower end
      being the previous entry's key, -inf for the first. */
  function Export<V>(d: seq<Pair<V>>): (r: seq<(Key, Key, Option<V>)>)
    requires |d| > 0
    ensures |r| == |d| && r[0].0 == NegInf
    ensures forall i :: 0 <= i < |r| ==> r[i].1 == d[i].upTo && r[i].2 == d[i].value
    ensures forall i :: 0 < i < |r| ==> r[i].0 == d[i - 1].upTo
  {
    seq(|d|, i requires 0 <= i < |d| => (if i == 0 then NegInf else d[i - 1].upTo, d[i].upTo, d[i].value))
  }

  /** The exported triples of a well-formed map chain from -inf to +inf:
      each lower end is the previous upper end and lies below its own upper end. */
  lemma ExportChains<V>(d: seq<Pair<V>>)
    requires WellFormed(d)
    ensures var r := Export(d);
      && r[0].0 == NegInf
      && r[|r| - 1].1 == PosInf
      && (forall i :: 0 < i < |r| ==> r[i].0 == r[i - 1].1)
      && (forall i :: 0 <= i < |r| ==> Lt(r[i].0, r[i].1))
      && (forall i :: 0 <= i < |r| ==> r[i].2 == d[i].value)
  {
    var r := Export(d);
    forall i | 0 <= i < |r|
      ensures Lt(r[i].0, r[i].1)
    {
      if i > 0 {
        assert Lt(d[i - 1].upTo, d[i].upTo);
      }
    }
  }

  /** Export agrees with lookup: a key strictly inside a triple's interval
      reads that triple's value under either policy. */
  lemma ExportInteriorLookup<V>(d: seq<Pair<V>>, i: nat, k: Key)
    requires WellFormed(d) && i < |d|
    requires Lt(Export(d)[i].0, k) && Lt(k, Export(d)[i].1)
    ensures GetItem(d, Start, k) == Export(d)[i].2
    ensures GetItem(d, End, k) == Export(d)[i].2
  {
    var r := Export(d);
    assert r[i].1 == d[i].upTo;
    assert i > 0 ==> r[i].0 == d[i - 1].upTo;
    assert Owns(d, Start, i, k);
    assert Owns(d, End, i, k);
  }

  /** The boundary keys of a triple: its upper end belongs to it under End,
      its lower end (above -inf) under Start. */
  lemma ExportBoundaryLookup<V>(d: seq<Pair<V>>, i: nat)
    requires WellFormed(d) && i < |d|
    ensures GetItem(d, End, Export(d)[i].1) == Export(d)[i].2
    ensures i > 0 ==> GetItem(d, Start, Export(d)[i].0) == Export(d)[i].2
  {
    var r := Export(d);
    assert r[i].1 == d[i].upTo && r[i].2 == d[i].value;
    assert Owns(d, End, i, d[i].upTo);
    if i > 0 {
      assert r[i].0 == d[i - 1].upTo;
      assert Owns(d, Start, i, d[i - 1].upTo);
    }
  }

  /** The keys that `m[s:t] = v` assigns v to, as the owner rule decides
      them: [s, t) under Start and (s, t] under End. The unbounded ends are
      special: under Start +inf reads v when t is +inf, and under End -inf
      reads v when s is -inf, because point lookups send them to the last
      and the first entry. */
  predicate InSlice(inc: Include, s: Key, t: Key, k: Key)
  {
    match inc
    case Start => (Le(s, k) && Lt(k, t)) || (k == PosInf && t == PosInf)
    case End => (Lt(s, k) && Le(k, t)) || (k == NegInf && s == NegInf)
  }

  /** Removing the run [i, j) of a sorted sequence keeps it sorted. */
  lemma RemoveKeepsOrder<V>(d: seq<Pair<V>>, i: nat, j: nat)
    requires Sorted(d) && i <= j <= |d|
    ensures Sorted(d[..i] + d[j..])
  {
    var r := d[..i] + d[j..];
    assert forall m :: 0 <= m < i ==> r[m] == d[m];
    assert forall m :: i <= m < |r| ==> r[m] == d[m - i + j];
  }

  /** With s < t the entries from bisect_left(s) to bisect_right(t) form a run. */
  lemma BisectOrder<V>(d: seq<Pair<V>>, s: Key, t: Key)
    requires Sorted(d) && Lt(s, t)
    ensures BisectLeft(d, s) <= BisectRight(d, t)
  {
    var j := BisectRight(d, t);
    if j < |d| {
      assert Le(d[j].upTo, d[j].upTo);
    }
  }

  /** The entries an assignment with s < t inserts: (s, kept value) when s
      is finite, then (t, v). */
  function Middle<V>(s: Key, t: Key, keep: Option<V>, v: Option<V>): (mid: seq<Pair<V>>)
    ensures |mid| == if s != NegInf then 2 else 1
    ensures mid[|mid| - 1] == Pair(t, v)
    ensures s != NegInf ==> mid[0] == Pair(s, keep)
  {
    (if s != NegInf then [Pair(s, keep)] else []) + [Pair(t, v)]
  }

  /** The breakpoints after `m[s:t] = v`: unchanged for an empty slice;
      otherwise the run of entries from bisect_left(s) up to bisect_right(t)
      is replaced by (s, v0) when s is finite and (t, v), where v0 is the
      value of the entry at bisect_left(s), the one that governed s. */
  function AssignData<V>(d: seq<Pair<V>>, s: Key, t: Key, v: Option<V>): (r: seq<Pair<V>>)
    requires Sorted(d)
    ensures Le(t, s) ==> r == d
  {
    if Le(t, s) then d
    else
      var i := BisectLeft(d, s);
      var j := BisectRight(d, t);
      var keep := if i < |d| then d[i].value else None;
      BisectOrder(d, s, t);
      d[..i] + Middle(s, t, keep, v) + d[j..]
  }
}
