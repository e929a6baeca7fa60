/** Concrete runs of the map: the overwrite, split and range examples
    worked out on small maps. */
module Scenarios {
  import opened ExtKeys
  import opened Optional
  import opened Breakpoints
  import opened SliceMapSpec
  import opened AssignProofs
  import opened SliceMaps

  /** After m[0:10] = "a" and m[10:20] = "b", the boundary key 10 reads "b"
      under Start (intervals own their start) and "a" under End. */
  method OverwriteAtBoundary(inc: Include) returns (at10: Option<string>)
    ensures at10 == if inc == Start then Some("b") else Some("a")
  {
    var m := new SliceMap<string>(inc);
    m.SetItem(Some(Fin(0.0)), Some(Fin(10.0)), Some("a"));
    m.SetItem(Some(Fin(10.0)), Some(Fin(20.0)), Some("b"));
    at10 := GetItem(m.data, m.inclusion, Fin(10.0));
  }

  /** `SliceMap()` with no argument uses the "start" policy, so after
      m[0:10] = "a" and m[10:20] = "b" the key 10 reads "b". */
  method DefaultPolicy() returns (inc: Include, at10: Option<string>)
    ensures inc == Start && at10 == Some("b")
  {
    var m := new SliceMap<string>();
    m.SetItem(Some(Fin(0.0)), Some(Fin(10.0)), Some("a"));
    m.SetItem(Some(Fin(10.0)), Some(Fin(20.0)), Some("b"));
    inc := m.inclusion;
    at10 := GetItem(m.data, m.inclusion, Fin(10.0));
  }

  /** The breakpoints of a fresh map after m[0:10] = "a". */
  function AfterA(): seq<Pair<string>> {
    [Pair(Fin(0.0), None), Pair(Fin(10.0), Some("a")), Pair(PosInf, None)]
  }

  /** ... then after m[10:20] = "b". */
  function AfterAB(): seq<Pair<string>> {
    [Pair(Fin(0.0), None), Pair(Fin(10.0), Some("a")), Pair(Fin(20.0), Some("b")), Pair(PosInf, None)]
  }

  /** ... then after m[5:15] = "c": "c" splits both earlier intervals. */
  function AfterABC(): seq<Pair<string>> {
    [Pair(Fin(0.0), None), Pair(Fin(5.0), Some("a")), Pair(Fin(15.0), Some("c")),
     Pair(Fin(20.0), Some("b")), Pair(PosInf, None)]
  }

  /** The three assignments of the split example, one step each. */
  lemma AssignA()
    ensures AssignData([Pair(PosInf, None)], Fin(0.0), Fin(10.0), Some("a")) == AfterA()
  {
    var d: seq<Pair<string>> := [Pair(PosInf, None)];
    BisectLeftUnique(d, Fin(0.0), 0);
    BisectRightUnique(d, Fin(10.0), 0);
    AssignDataAt(d, Fin(0.0), Fin(10.0), Some("a"), 0, 0);
  }

  lemma AssignB()
    ensures AssignData(AfterA(), Fin(10.0), Fin(20.0), Some("b")) == AfterAB()
  {
    var d := AfterA();
    BisectLeftUnique(d, Fin(10.0), 1);
    BisectRightUnique(d, Fin(20.0), 2);
    AssignDataAt(d, Fin(10.0), Fin(20.0), Some("b"), 1, 2);
  }

  lemma AssignC()
    ensures AssignData(AfterAB(), Fin(5.0), Fin(15.0), Some("c")) == AfterABC()
  {
    var d := AfterAB();
    BisectLeftUnique(d, Fin(5.0), 1);
    BisectRightUnique(d, Fin(15.0), 2);
    AssignDataAt(d, Fin(5.0), Fin(15.0), Some("c"), 1, 2);
  }

  /** The export of the split example's final breakpoints. */
  lemma ExportABC()
    ensures Export(AfterABC()) == [(NegInf, Fin(0.0), None), (Fin(0.0), Fin(5.0), Some("a")),
                                   (Fin(5.0), Fin(15.0), Some("c")), (Fin(15.0), Fin(20.0), Some("b")),
                                   (Fin(20.0), PosInf, None)]
  {
  }

  /** After m[0:10] = "a", m[10:20] = "b" and m[5:15] = "c", the export is
      the five intervals (-inf,0) None, (0,5) "a", (5,15) "c", (15,20) "b",
      (20,+inf) None, and the size is 4. */
  method SplitExport(inc: Include) returns (triples: seq<(Key, Key, Option<string>)>, size: int)
    ensures triples == [(NegInf, Fin(0.0), None), (Fin(0.0), Fin(5.0), Some("a")),
                        (Fin(5.0), Fin(15.0), Some("c")), (Fin(15.0), Fin(20.0), Some("b")),
                        (Fin(20.0), PosInf, None)]
    ensures size == 4
  {
    var m := new SliceMap<string>(inc);
    AssignA();
    m.SetItem(Some(Fin(0.0)), Some(Fin(10.0)), Some("a"));
    AssignB();
    m.SetItem(Some(Fin(10.0)), Some(Fin(20.0)), Some("b"));
    AssignC();
    m.SetItem(Some(Fin(5.0)), Some(Fin(15.0)), Some("c"));
    ExportABC();
    triples := Export(m.data);
    size := Len(m.data);
  }

  lemma AfterAWellFormed()
    ensures WellFormed(AfterA())
  {
  }

  /** On the map after m[0:10] = "a", the range m[0:+inf] as written fails
      under Start: the search for +inf lands one past the sentinel. */
  lemma RangeToInfinity()
    ensures GetRange(AfterA(), Start, Some(Fin(0.0)), Some(PosInf)) == Failure(IndexError)
  {
    AfterAWellFormed();
  }

  /** Clamped, the same range reads entries 1 and 2: ("a", None). */
  lemma RangeToInfinityClamped()
    ensures GetRangeClamped(AfterA(), Start, Some(Fin(0.0)), Some(PosInf)) == Success([Some("a"), None])
  {
    AfterAWellFormed();
    var d := AfterA();
    BisectRightUnique(d, Fin(0.0), 1);
    assert Locate(d, Start, Fin(0.0)) == 1 && Locate(d, Start, PosInf) == 2;
    var vs := Values(d, 1, 2);
    assert vs == [Some("a"), None] by {
      assert |vs| == 2 && vs[0] == d[1].value && vs[1] == d[2].value;
    }
  }

  /** Under End the same range succeeds as written and reads entries 0 to
      2: (None, "a", None). */
  lemma RangeToInfinityUnderEnd()
    ensures GetRange(AfterA(), End, Some(Fin(0.0)), Some(PosInf)) == Success([None, Some("a"), None])
  {
    AfterAWellFormed();
    var d := AfterA();
    BisectLeftUnique(d, Fin(0.0), 0);
    BisectLeftUnique(d, PosInf, 2);
    assert Search(d, End, Fin(0.0)) == 0 && Search(d, End, PosInf) == 2;
    var vs := Values(d, 0, 2);
    assert vs == [None, Some("a"), None] by {
      assert |vs| == 3 && vs[0] == d[0].value && vs[1] == d[1].value && vs[2] == d[2].value;
    }
  }
}
