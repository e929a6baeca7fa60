/** What a range assignment `m[s:t] = v` does to the breakpoints and to
    every lookup: the resulting sequence in closed form, the invariant it
    keeps, the keys it overwrites and those it leaves alone, idempotence,
    and how the number of entries changes. */
module AssignProofs {
  import opened ExtKeys
  import opened Optional
  import opened Breakpoints
  import opened SliceMapSpec

  /** The `else` branch that reads None as the kept value cannot be taken:
      on a well-formed map with s < t, bisect_left(s) is a valid index,
      because the sentinel's key +inf is not below s. The run to pop,
      from bisect_left(s) to bisect_right(t), has non-negative length. */
  lemma KeptIndexInBounds<V>(d: seq<Pair<V>>, s: Key, t: Key)
    requires WellFormed(d) && Lt(s, t)
    ensures BisectLeft(d, s) < |d| && BisectLeft(d, s) <= BisectRight(d, t)
  {
    BisectOrder(d, s, t);
  }

  /** Positions in a sequence of the form d[..i] + mid + d[j..]. */
  lemma SpliceIndex<V>(d: seq<Pair<V>>, i: nat, j: nat, mid: seq<Pair<V>>, n: seq<Pair<V>>)
    requires i <= j <= |d| && n == d[..i] + mid + d[j..]
    ensures |n| == i + |mid| + |d| - j
    ensures forall m :: 0 <= m < i ==> n[m] == d[m]
    ensures forall m :: 0 <= m < |mid| ==> n[i + m] == mid[m]
    ensures forall m :: i + |mid| <= m < |n| ==> n[m] == d[m - i - |mid| + j]
  {
  }

  /** The run removal and the two sorted insertions, on a sequence whose
      keys before i lie below s and whose keys from j on lie above t. */
  lemma SpliceByAdds<V>(d: seq<Pair<V>>, i: nat, j: nat, s: Key, t: Key, keep: Option<V>, v: Option<V>)
    requires Sorted(d) && i <= j <= |d| && Lt(s, t)
    requires forall m :: 0 <= m < i ==> Lt(d[m].upTo, s)
    requires forall m :: j <= m < |d| ==> Lt(t, d[m].upTo)
    requires s == NegInf ==> i == 0
    ensures Sorted(d[..i] + d[j..])
    ensures var rest := d[..i] + d[j..];
      Add(if s != NegInf then Add(rest, Pair(s, keep)) else rest, Pair(t, v))
        == d[..i] + Middle(s, t, keep, v) + d[j..]
  {
    RemoveKeepsOrder(d, i, j);
    var a, b := d[..i], d[j..];
    var ps, pt := Pair(s, keep), Pair(t, v);
    if s != NegInf {
      AddTwoBetween(a, b, ps, pt);
      assert Middle(s, t, keep, v) == [ps, pt];
    } else {
      assert a == [];
      AddBetween(a, b, pt);
      assert Middle(s, t, keep, v) == [pt];
    }
  }

  /** Adding p and then q, with p below q and both between a and b, places
      them in that order between a and b. */
  lemma AddTwoBetween<V>(a: seq<Pair<V>>, b: seq<Pair<V>>, p: Pair<V>, q: Pair<V>)
    requires Sorted(a + b) && Lt(p.upTo, q.upTo)
    requires forall m :: 0 <= m < |a| ==> Lt(a[m].upTo, p.upTo)
    requires forall m :: 0 <= m < |b| ==> Lt(q.upTo, b[m].upTo)
    ensures Add(Add(a + b, p), q) == a + [p, q] + b
  {
    AddBetween(a, b, p);
    var ap := a + [p];
    assert forall m :: 0 <= m < |ap| ==> Le(ap[m].upTo, q.upTo);
    assert a + [p] + b == ap + b;
    AddBetween(ap, b, q);
    assert ap + [q] + b == a + [p, q] + b;
  }

  /** AssignData with its two bisect indices given. */
  lemma AssignDataAt<V>(d: seq<Pair<V>>, s: Key, t: Key, v: Option<V>, i: nat, j: nat)
    requires Sorted(d) && Lt(s, t) && i < |d| && i <= j <= |d|
    requires BisectLeft(d, s) == i && BisectRight(d, t) == j
    ensures AssignData(d, s, t, v) == d[..i] + Middle(s, t, d[i].value, v) + d[j..]
  {
  }

  /** The assignment algorithm: once the run from bisect_left(s) to
      bisect_right(t) is popped, adding (s, kept value) when s is finite and
      then (t, v) yields exactly AssignData. */
  lemma PopsThenAdds<V>(d: seq<Pair<V>>, s: Key, t: Key, v: Option<V>, keep: Option<V>, rest: seq<Pair<V>>)
    requires WellFormed(d) && Lt(s, t)
    requires BisectLeft(d, s) < |d| && keep == d[BisectLeft(d, s)].value
    requires rest == d[..BisectLeft(d, s)] + d[BisectRight(d, t)..]
    ensures Sorted(rest)
    ensures Add(if s != NegInf then Add(rest, Pair(s, keep)) else rest, Pair(t, v)) == AssignData(d, s, t, v)
  {
    var i, j := BisectLeft(d, s), BisectRight(d, t);
    BisectOrder(d, s, t);
    BisectsSplit(d, s, t);
    SpliceByAdds(d, i, j, s, t, keep, v);
    AssignDataAt(d, s, t, v, i, j);
  }

  /** i and j are bisect_left(s) and bisect_right(t): keys before i lie
      below s, keys from i on at or above it, keys before j at or below t,
      keys from j on above it. */
  ghost predicate Splits<V>(d: seq<Pair<V>>, s: Key, t: Key, i: int, j: int)
  {
    && 0 <= i <= j <= |d| && i < |d|
    && (forall m :: 0 <= m < i ==> Lt(d[m].upTo, s))
    && (forall m :: i <= m < |d| ==> Le(s, d[m].upTo))
    && (forall m :: 0 <= m < j ==> Le(d[m].upTo, t))
    && (forall m :: j <= m < |d| ==> Lt(t, d[m].upTo))
  }

  lemma BisectsSplit<V>(d: seq<Pair<V>>, s: Key, t: Key)
    requires WellFormed(d) && Lt(s, t)
    ensures Splits(d, s, t, BisectLeft(d, s), BisectRight(d, t))
    ensures s == NegInf ==> BisectLeft(d, s) == 0
    ensures t == PosInf ==> BisectRight(d, t) == |d|
  {
    KeptIndexInBounds(d, s, t);
    BisectOrder(d, s, t);
    assert BisectLeft(d, s) > 0 ==> Lt(d[0].upTo, s);
  }

  /** The splice is split by s and t the same way, with the new middle
      entries as the run between them. */
  lemma SpliceSplits<V>(d: seq<Pair<V>>, s: Key, t: Key, v: Option<V>, i: nat, j: nat, n: seq<Pair<V>>)
    requires WellFormed(d) && Lt(s, t) && Splits(d, s, t, i, j) && (s == NegInf ==> i == 0)
    requires n == d[..i] + Middle(s, t, d[i].value, v) + d[j..]
    ensures Splits(n, s, t, i, i + |Middle(s, t, d[i].value, v)|)
  {
    var mid := Middle(s, t, d[i].value, v);
    SpliceIndex(d, i, j, mid, n);
    var a := |mid|;
    assert forall m :: i <= m < i + a ==> Le(s, n[m].upTo) && Le(n[m].upTo, t);
    assert forall m :: i + a <= m < |n| ==> n[m] == d[m - i - a + j];
  }

  /** The splice keeps the container invariant. */
  lemma SpliceInvariant<V>(d: seq<Pair<V>>, s: Key, t: Key, v: Option<V>, i: nat, j: nat, n: seq<Pair<V>>)
    requires WellFormed(d) && Lt(s, t) && Splits(d, s, t, i, j) && (s == NegInf ==> i == 0)
    requires n == d[..i] + Middle(s, t, d[i].value, v) + d[j..]
    ensures WellFormed(n)
  {
    var mid := Middle(s, t, d[i].value, v);
    SpliceIndex(d, i, j, mid, n);
    SpliceSplits(d, s, t, v, i, j, n);
    var a := |mid|;
    forall x, y | 0 <= x < y < |n|
      ensures Lt(n[x].upTo, n[y].upTo)
    {
      if y < i {
        assert n[x] == d[x] && n[y] == d[y];
      } else if x < i {
        assert Lt(n[x].upTo, s) && Le(s, n[y].upTo);
      } else if y < i + a {
        assert n[x] == mid[0] && n[y] == mid[1];
      } else if x < i + a {
        assert Le(n[x].upTo, t) && Lt(t, n[y].upTo);
      } else {
        assert n[x] == d[x - i - a + j] && n[y] == d[y - i - a + j];
      }
    }
    if j < |d| {
      assert n[|n| - 1] == d[|d| - 1];
    } else {
      assert Le(d[|d| - 1].upTo, t);
    }
  }


  /** The container invariant holds after every assignment. */
  lemma AssignKeepsInvariant<V>(d: seq<Pair<V>>, s: Key, t: Key, v: Option<V>)
    requires WellFormed(d)
    ensures WellFormed(AssignData(d, s, t, v))
  {
    if Lt(s, t) {
      BisectsSplit(d, s, t);
      SpliceInvariant(d, s, t, v, BisectLeft(d, s), BisectRight(d, t), AssignData(d, s, t, v));
    }
  }

  /** The hypotheses the splice lemmas share: n is d with the run [i, j)
      replaced by the middle entries of `m[s:t] = v`. */
  ghost predicate Spliced<V>(d: seq<Pair<V>>, s: Key, t: Key, v: Option<V>, i: int, j: int, n: seq<Pair<V>>)
  {
    && WellFormed(d) && Lt(s, t) && Splits(d, s, t, i, j)
    && (s == NegInf ==> i == 0)
    && (t == PosInf ==> j == |d|)
    && n == d[..i] + Middle(s, t, d[i].value, v) + d[j..]
  }

  /** Under Start, a key below s reads what it read before. */
  lemma StartBelowSlice<V>(d: seq<Pair<V>>, s: Key, t: Key, v: Option<V>, i: nat, j: nat, n: seq<Pair<V>>, k: Key)
    requires Spliced(d, s, t, v, i, j, n) && WellFormed(n) && Lt(k, s)
    ensures GetItem(n, Start, k) == GetItem(d, Start, k)
  {
    SpliceIndex(d, i, j, Middle(s, t, d[i].value, v), n);
    var o := Locate(d, Start, k);
    if o < i {
      assert Owns(n, Start, o, k);
    } else {
      assert o == i;
      assert Owns(n, Start, i, k);
    }
  }

  /** Under Start, a key in [s, t), or +inf when t is +inf, reads v. */
  lemma StartInSlice<V>(d: seq<Pair<V>>, s: Key, t: Key, v: Option<V>, i: nat, j: nat, n: seq<Pair<V>>, k: Key)
    requires Spliced(d, s, t, v, i, j, n) && WellFormed(n) && InSlice(Start, s, t, k)
    ensures GetItem(n, Start, k) == v
  {
    var mid := Middle(s, t, d[i].value, v);
    SpliceIndex(d, i, j, mid, n);
    if k == PosInf && t == PosInf {
      assert Owns(n, Start, |n| - 1, k);
    } else {
      assert Owns(n, Start, i + |mid| - 1, k);
    }
  }

  /** Under Start, a key at or above t (other than +inf when t is +inf)
      reads what it read before. */
  lemma StartAboveSlice<V>(d: seq<Pair<V>>, s: Key, t: Key, v: Option<V>, i: nat, j: nat, n: seq<Pair<V>>, k: Key)
    requires Spliced(d, s, t, v, i, j, n) && WellFormed(n)
    requires Le(t, k) && !(k == PosInf && t == PosInf)
    ensures GetItem(n, Start, k) == GetItem(d, Start, k)
  {
    var mid := Middle(s, t, d[i].value, v);
    SpliceIndex(d, i, j, mid, n);
    var o := Locate(d, Start, k);
    assert o >= j;
    assert Owns(n, Start, o - j + i + |mid|, k);
  }

  /** The overwrite rule under Start on a splice. */
  lemma SpliceOverwriteStart<V>(d: seq<Pair<V>>, s: Key, t: Key, v: Option<V>, i: nat, j: nat, n: seq<Pair<V>>, k: Key)
    requires Spliced(d, s, t, v, i, j, n)
    ensures WellFormed(n)
    ensures GetItem(n, Start, k) == if InSlice(Start, s, t, k) then v else GetItem(d, Start, k)
  {
    SpliceInvariant(d, s, t, v, i, j, n);
    if InSlice(Start, s, t, k) {
      StartInSlice(d, s, t, v, i, j, n, k);
    } else if Lt(k, s) {
      StartBelowSlice(d, s, t, v, i, j, n, k);
    } else {
      StartAboveSlice(d, s, t, v, i, j, n, k);
    }
  }

  /** Under End, a key at or below a finite s reads what it read before. */
  lemma EndBelowSlice<V>(d: seq<Pair<V>>, s: Key, t: Key, v: Option<V>, i: nat, j: nat, n: seq<Pair<V>>, k: Key)
    requires Spliced(d, s, t, v, i, j, n) && WellFormed(n) && Le(k, s) && s != NegInf
    ensures GetItem(n, End, k) == GetItem(d, End, k)
  {
    SpliceIndex(d, i, j, Middle(s, t, d[i].value, v), n);
    var o := Locate(d, End, k);
    if o < i {
      assert Owns(n, End, o, k);
    } else {
      assert o == i;
      assert Owns(n, End, i, k);
    }
  }

  /** Under End, a key in (s, t], or -inf when s is -inf, reads v. */
  lemma EndInSlice<V>(d: seq<Pair<V>>, s: Key, t: Key, v: Option<V>, i: nat, j: nat, n: seq<Pair<V>>, k: Key)
    requires Spliced(d, s, t, v, i, j, n) && WellFormed(n) && InSlice(End, s, t, k)
    ensures GetItem(n, End, k) == v
  {
    var mid := Middle(s, t, d[i].value, v);
    SpliceIndex(d, i, j, mid, n);
    assert Owns(n, End, i + |mid| - 1, k);
  }

  /** Under End, a key above t reads what it read before. */
  lemma EndAboveSlice<V>(d: seq<Pair<V>>, s: Key, t: Key, v: Option<V>, i: nat, j: nat, n: seq<Pair<V>>, k: Key)
    requires Spliced(d, s, t, v, i, j, n) && WellFormed(n) && Lt(t, k)
    ensures GetItem(n, End, k) == GetItem(d, End, k)
  {
    var mid := Middle(s, t, d[i].value, v);
    SpliceIndex(d, i, j, mid, n);
    var o := Locate(d, End, k);
    assert o >= j;
    assert Owns(n, End, o - j + i + |mid|, k);
  }

  /** The overwrite rule under End on a splice. */
  lemma SpliceOverwriteEnd<V>(d: seq<Pair<V>>, s: Key, t: Key, v: Option<V>, i: nat, j: nat, n: seq<Pair<V>>, k: Key)
    requires Spliced(d, s, t, v, i, j, n)
    ensures WellFormed(n)
    ensures GetItem(n, End, k) == if InSlice(End, s, t, k) then v else GetItem(d, End, k)
  {
    SpliceInvariant(d, s, t, v, i, j, n);
    if InSlice(End, s, t, k) {
      EndInSlice(d, s, t, v, i, j, n, k);
    } else if Lt(t, k) {
      EndAboveSlice(d, s, t, v, i, j, n, k);
    } else {
      EndBelowSlice(d, s, t, v, i, j, n, k);
    }
  }

  /** The central theorem, for both policies and every key, the empty slice
      included: after `m[s:t] = v` a key reads v exactly when s < t and the
      key lies in the slice, and otherwise reads what it read before. */
  lemma AssignOverwrites<V>(d: seq<Pair<V>>, inc: Include, s: Key, t: Key, v: Option<V>)
    requires WellFormed(d)
    ensures WellFormed(AssignData(d, s, t, v))
    ensures forall k :: GetItem(AssignData(d, s, t, v), inc, k)
                     == if Lt(s, t) && InSlice(inc, s, t, k) then v else GetItem(d, inc, k)
  {
    AssignKeepsInvariant(d, s, t, v);
    if Lt(s, t) {
      var i, j, n := BisectLeft(d, s), BisectRight(d, t), AssignData(d, s, t, v);
      BisectsSplit(d, s, t);
      AssignDataAt(d, s, t, v, i, j);
      assert Spliced(d, s, t, v, i, j, n);
      forall k
        ensures GetItem(n, inc, k) == if InSlice(inc, s, t, k) then v else GetItem(d, inc, k)
      {
        if inc == Start {
          SpliceOverwriteStart(d, s, t, v, i, j, n, k);
        } else {
          SpliceOverwriteEnd(d, s, t, v, i, j, n, k);
        }
      }
    }
  }

  /** Assigning the same slice again to a splice reproduces it. */
  lemma SpliceIdempotent<V>(d: seq<Pair<V>>, s: Key, t: Key, v: Option<V>, i: nat, j: nat, n: seq<Pair<V>>)
    requires Spliced(d, s, t, v, i, j, n)
    ensures WellFormed(n)
    ensures AssignData(n, s, t, v) == n
  {
    SpliceInvariant(d, s, t, v, i, j, n);
    var mid := Middle(s, t, d[i].value, v);
    SpliceIndex(d, i, j, mid, n);
    SpliceSplits(d, s, t, v, i, j, n);
    var a := |mid|;
    assert Middle(s, t, n[i].value, v) == mid;
    assert n[..i] == d[..i];
    assert n[i + a..] == d[j..];
    AscendingIsSorted(n);
    BisectLeftUnique(n, s, i);
    BisectRightUnique(n, t, i + a);
    AssignDataAt(n, s, t, v, i, i + a);
  }

  /** Repeating the same assignment leaves the breakpoints as one
      assignment left them. */
  lemma AssignIdempotent<V>(d: seq<Pair<V>>, s: Key, t: Key, v: Option<V>)
    requires WellFormed(d)
    ensures WellFormed(AssignData(d, s, t, v))
    ensures AssignData(AssignData(d, s, t, v), s, t, v) == AssignData(d, s, t, v)
  {
    if Lt(s, t) {
      var i, j := BisectLeft(d, s), BisectRight(d, t);
      BisectsSplit(d, s, t);
      AssignDataAt(d, s, t, v, i, j);
      SpliceIdempotent(d, s, t, v, i, j, AssignData(d, s, t, v));
    }
  }

  /** Everything an assignment promises, for one policy: the invariant, the
      overwrite rule and the growth bound. */
  lemma AssignEffect<V>(d: seq<Pair<V>>, inc: Include, s: Key, t: Key, v: Option<V>, n: seq<Pair<V>>)
    requires WellFormed(d) && n == AssignData(d, s, t, v)
    ensures WellFormed(n)
    ensures forall k :: GetItem(n, inc, k) == if Lt(s, t) && InSlice(inc, s, t, k) then v else GetItem(d, inc, k)
    ensures |n| <= |d| + 2
  {
    AssignOverwrites(d, inc, s, t, v);
    if Lt(s, t) {
      AssignSize(d, s, t, v);
    }
  }

  /** Entries whose key lies in the closed range [s, t]. */
  ghost function Covered<V>(d: seq<Pair<V>>, s: Key, t: Key): nat
  {
    if d == [] then 0
    else (if Le(s, d[0].upTo) && Le(d[0].upTo, t) then 1 else 0) + Covered(d[1..], s, t)
  }

  lemma {:induction false} CoveredConcat<V>(a: seq<Pair<V>>, b: seq<Pair<V>>, s: Key, t: Key)
    ensures Covered(a + b, s, t) == Covered(a, s, t) + Covered(b, s, t)
  {
    if a != [] {
      assert (a + b)[0] == a[0] && (a + b)[1..] == a[1..] + b;
      CoveredConcat(a[1..], b, s, t);
    } else {
      assert a + b == b;
    }
  }

  lemma {:induction false} CoveredAll<V>(a: seq<Pair<V>>, s: Key, t: Key)
    requires forall m :: 0 <= m < |a| ==> Le(s, a[m].upTo) && Le(a[m].upTo, t)
    ensures Covered(a, s, t) == |a|
  {
    if a != [] {
      CoveredAll(a[1..], s, t);
    }
  }

  lemma {:induction false} CoveredNone<V>(a: seq<Pair<V>>, s: Key, t: Key)
    requires forall m :: 0 <= m < |a| ==> !(Le(s, a[m].upTo) && Le(a[m].upTo, t))
    ensures Covered(a, s, t) == 0
  {
    if a != [] {
      CoveredNone(a[1..], s, t);
    }
  }

  /** Size after `m[s:t] = v` with s < t: every entry whose key lies in
      [s, t] is removed and one or two are added, so the map grows by at
      most two entries and shrinks when it covers more than two. */
  lemma AssignSize<V>(d: seq<Pair<V>>, s: Key, t: Key, v: Option<V>)
    requires WellFormed(d) && Lt(s, t)
    ensures |AssignData(d, s, t, v)| == |d| - Covered(d, s, t) + (if s != NegInf then 2 else 1)
    ensures |AssignData(d, s, t, v)| <= |d| + 2
  {
    var i, j := BisectLeft(d, s), BisectRight(d, t);
    BisectsSplit(d, s, t);
    CoveredRun(d, s, t, i, j);
  }

  /** The entries with keys in [s, t] are exactly the run [i, j). */
  lemma CoveredRun<V>(d: seq<Pair<V>>, s: Key, t: Key, i: nat, j: nat)
    requires Splits(d, s, t, i, j)
    ensures Covered(d, s, t) == j - i
  {
    assert d == d[..i] + d[i..j] + d[j..];
    CoveredConcat(d[..i] + d[i..j], d[j..], s, t);
    CoveredConcat(d[..i], d[i..j], s, t);
    CoveredNone(d[..i], s, t);
    CoveredAll(d[i..j], s, t);
    CoveredNone(d[j..], s, t);
  }

  /** Which breakpoints survive a splice: no key strictly inside (s, t)
      remains, and every entry whose key lies outside [s, t] is kept. */
  lemma SpliceKeys<V>(d: seq<Pair<V>>, s: Key, t: Key, v: Option<V>, i: nat, j: nat, n: seq<Pair<V>>)
    requires Spliced(d, s, t, v, i, j, n)
    ensures forall m :: 0 <= m < |n| ==> !(Lt(s, n[m].upTo) && Lt(n[m].upTo, t))
    ensures forall m :: 0 <= m < |d| && !(Le(s, d[m].upTo) && Le(d[m].upTo, t)) ==> d[m] in n
  {
    var mid := Middle(s, t, d[i].value, v);
    SpliceIndex(d, i, j, mid, n);
    var a := |mid|;
    forall m | 0 <= m < |n|
      ensures !(Lt(s, n[m].upTo) && Lt(n[m].upTo, t))
    {
      if m < i {
        assert n[m] == d[m] && Lt(d[m].upTo, s);
      } else if m < i + a {
        assert n[m] == mid[m - i];
      } else {
        assert n[m] == d[m - i - a + j] && Lt(t, d[m - i - a + j].upTo);
      }
    }
    forall m | 0 <= m < |d| && !(Le(s, d[m].upTo) && Le(d[m].upTo, t))
      ensures d[m] in n
    {
      if m < i {
        assert n[m] == d[m];
      } else {
        assert m >= j;
        assert n[m - j + i + a] == d[m];
      }
    }
  }

  /** Which breakpoints survive an assignment: no key strictly inside
      (s, t) remains, and every entry whose key lies outside [s, t] is kept
      unchanged. */
  lemma AssignKeys<V>(d: seq<Pair<V>>, s: Key, t: Key, v: Option<V>)
    requires WellFormed(d) && Lt(s, t)
    ensures var n := AssignData(d, s, t, v);
      && (forall m :: 0 <= m < |n| ==> !(Lt(s, n[m].upTo) && Lt(n[m].upTo, t)))
      && (forall m :: 0 <= m < |d| && !(Le(s, d[m].upTo) && Le(d[m].upTo, t)) ==> d[m] in n)
  {
    var i, j := BisectLeft(d, s), BisectRight(d, t);
    BisectsSplit(d, s, t);
    SpliceKeys(d, s, t, v, i, j, AssignData(d, s, t, v));
  }
}
