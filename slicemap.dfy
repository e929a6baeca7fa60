/** The SliceMap object: a breakpoint sequence that range assignment
    updates in place, and the inclusion policy fixed at construction. */
module SliceMaps {
  import opened ExtKeys
  import opened Optional
  import opened Breakpoints
  import opened SliceMapSpec
  import opened AssignProofs

  class SliceMap<V> {
    var data: seq<Pair<V>>
    const inclusion: Include

    ghost predicate Valid()
      reads this
    {
      WellFormed(data)
    }

    /** A new map holds only the +inf sentinel with value None: its size is
        0 and every key reads None. The policy defaults to "start". */
    constructor (inclusion: Include := Start)
      ensures Valid() && this.inclusion == inclusion
      ensures data == [Pair(PosInf, None)]
      ensures Len(data) == 0
      ensures forall k :: GetItem(data, inclusion, k) == None
    {
      var empty: seq<Pair<V>> := [];
      data := Add(empty, Pair(PosInf, None));
      this.inclusion := inclusion;
      new;
      assert forall k :: Owns(data, inclusion, 0, k);
    }

    /** The removal loop of an assignment: pop the entry at index `at`,
        `count` times, dropping the run d[at .. at + count). */
    method PopRun(at: nat, count: nat)
      requires at + count <= |data|
      modifies this
      ensures data == old(data)[..at] + old(data)[at + count..]
    {
      var removed := 0;
      while removed < count
        invariant 0 <= removed <= count
        invariant data == old(data)[..at] + old(data)[at + removed..]
      {
        data := Pop(data, at);
        removed := removed + 1;
      }
    }

    /** The insertions that close an assignment: the boundary (start, kept
        value) when start is finite, then (stop, value). */
    method AddBoundaries(start: Key, stop: Key, keep: Option<V>, value: Option<V>)
      requires Sorted(data)
      modifies this
      ensures Sorted(data)
      ensures data == Add(if start != NegInf then Add(old(data), Pair(start, keep)) else old(data), Pair(stop, value))
    {
      if start != NegInf {
        data := Add(data, Pair(start, keep));
      }
      data := Add(data, Pair(stop, value));
    }

    /** `m[start:stop] = value`, a missing bound standing for the matching
        infinity. An empty slice changes nothing. Otherwise the entries from
        bisect_left(start) to bisect_right(stop) are popped one by one, then
        (start, value that governed start) is added when start is finite, and
        (stop, value) is added. */
    method SetItem(start: Option<Key>, stop: Option<Key>, value: Option<V>)
      requires Valid()
      modifies this
      ensures Valid()
      ensures data == AssignData(old(data), start.GetOr(NegInf), stop.GetOr(PosInf), value)
      ensures Le(stop.GetOr(PosInf), start.GetOr(NegInf)) ==> data == old(data)
      ensures forall k :: GetItem(data, inclusion, k)
                       == if Lt(start.GetOr(NegInf), stop.GetOr(PosInf))
                             && InSlice(inclusion, start.GetOr(NegInf), stop.GetOr(PosInf), k)
                          then value
                          else GetItem(old(data), inclusion, k)
      ensures |data| <= |old(data)| + 2
    {
      var lo := start.GetOr(NegInf);
      var hi := stop.GetOr(PosInf);
      if Le(hi, lo) {
        AssignEffect(data, inclusion, lo, hi, value, data);
        return;
      }
      ghost var d := data;
      var startIdx := BisectLeft(data, lo);
      var endIdx := BisectRight(data, hi);
      KeptIndexInBounds(data, lo, hi);
      var keep: Option<V>;
      if startIdx < |data| {
        keep := data[startIdx].value;
      } else {
        assert false;
        keep := None;
      }
      PopRun(startIdx, endIdx - startIdx);
      PopsThenAdds(d, lo, hi, value, keep, data);
      AddBoundaries(lo, hi, keep, value);
      AssignEffect(d, inclusion, lo, hi, value, data);
    }
  }
}
