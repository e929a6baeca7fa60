# SliceMap in Dafny

A model of `SliceMap` from slicemap/slicemap.py, with proofs about it. A `SliceMap` is a total map from the extended real line to values. It is assigned slice by slice (`m[start:stop] = value`) and read at points (`m[k]`) or over ranges (`m[lo:hi]`). Internally it is a sorted list of `Pair(up_to_key, value)` breakpoints. Each entry owns the interval that ends at its key and begins at the previous entry's key, or at -inf for the first entry. A permanent `+inf` sentinel owns the unbounded tail. The inclusion policy, `"start"` or `"end"`, decides which of two adjacent intervals owns the key on their shared boundary.

Files and modules:

- `keys.dfy` (`ExtKeys`): keys are `NegInf | Fin(real) | PosInf`, ordered by `Lt` and `Le`.
- `optional.dfy` (`Optional`): `Option` (Python's `None` is `None`) and `Result`.
- `breakpoints.dfy` (`Breakpoints`): `Pair`, and the sorted-list contract the class relies on. This is `bisect_left`, `bisect_right`, `pop` and `add`, the last inserting after equal keys.
- `slicemap_spec.dfy` (`SliceMapSpec`): the pure part, over a breakpoint sequence `d`.
  - the container invariant `WellFormed`;
  - the owner of a key under each policy (`Owns`);
  - the lookups `__getitem__`, `__len__` and `export`;
  - `AssignData`, the breakpoint sequence an assignment produces.
- `assign_proofs.dfy` (`AssignProofs`): what assignment does.
  - The pop-then-add algorithm produces `AssignData`.
  - `AssignData` keeps the invariant.
  - It overwrites exactly the assigned slice under each policy.
  - It is idempotent.
  - Its size change is bounded.
- `slicemap.dfy` (`SliceMaps`): the class `SliceMap`.
  - It has a mutable field `data` and a constant `inclusion` (the source's `include`).
  - `__init__` is its constructor.
  - `__setitem__` is `SetItem`, which changes `data` in place: two bisects, a loop of pops at a fixed index (`PopRun`), then one or two adds (`AddBoundaries`).
- `scenarios.dfy` (`Scenarios`): the overwrite-at-boundary and split examples, and the range to +inf, worked out on concrete maps.

The queries (`__getitem__`, `__len__`, `export`) compute a value from the current breakpoints. They are functions of `data` and the policy: `GetItem(m.data, m.inclusion, k)`, `GetRange`, `Len`, `Export`.

Two boundary cases follow from the source's special handling of infinite keys. The model states them explicitly in `InSlice`:

- Under `"start"`, `m[s:] = v` also makes `m[+inf]` read `v`. A lookup at +inf reads the sentinel, and that is the entry assigned `v`.
- Under `"end"`, `m[:t] = v` also makes `m[-inf]` read `v`. A lookup at -inf reads the first entry, which becomes `(t, v)`.

## Model

| member | source | states |
|---|---|---|
| Breakpoints.SearchLeft | slicemap/slicemap.py:79 | the binary search over [lo, hi) returns the boundary between keys < k and keys >= k |
| Breakpoints.SearchRight | slicemap/slicemap.py:80 | the binary search over [lo, hi) returns the boundary between keys <= k and keys > k |
| Breakpoints.BisectLeft | slicemap/slicemap.py:79 | `bisect_left` on the key: every entry before the index has key < k, every entry from it on has key >= k |
| Breakpoints.BisectRight | slicemap/slicemap.py:80 | `bisect_right` on the key: every entry before the index has key <= k, every entry from it on has key > k |
| Breakpoints.BisectLeftUnique | slicemap/slicemap.py:79 | any index splitting the keys into < k and >= k is the one `bisect_left` returns |
| Breakpoints.BisectRightUnique | slicemap/slicemap.py:80 | any index splitting the keys into <= k and > k is the one `bisect_right` returns |
| Breakpoints.Pop | slicemap/slicemap.py:95 | `pop(i)` removes exactly entry i: one shorter, entries before i unchanged, entries after shifted down one, order and multiset of the rest kept |
| Breakpoints.Add | slicemap/slicemap.py:36-37 | `add` keeps the list sorted and makes it one entry longer |
| Breakpoints.AddContents | slicemap/slicemap.py:100-101 | `add` adds exactly the new pair: the multiset of entries grows by it and nothing else changes |
| Breakpoints.InsertKeepsOrder | slicemap/slicemap.py:100-101 | inserting at an index between keys <= p and keys > p keeps the list sorted |
| Breakpoints.AddBetween | slicemap/slicemap.py:99-101 | adding a pair whose key is above every key of a and below every key of b places it exactly between a and b |
| AssignProofs.AddTwoBetween | slicemap/slicemap.py:99-101 | adding p and then q, with a < p < q < b by key, places them in that order between a and b |
| SliceMapSpec.OwnersEqual | slicemap/slicemap.py:29-32 | under either policy two entries that own the same key are the same entry |
| SliceMapSpec.OwnerUnique | slicemap/slicemap.py:29-32 | an owner of a key is the only one |
| SliceMapSpec.Search | slicemap/slicemap.py:122-125 | the policy's search (bisect_right under "start", bisect_left under "end") lands within 0..len |
| SliceMapSpec.Locate | slicemap/slicemap.py:117-125 | the index a point lookup reads is in bounds and is the entry that owns the key |
| SliceMapSpec.GetItem | slicemap/slicemap.py:117-133 | `m[k]` is the value of the entry that owns k under the policy |
| SliceMapSpec.LocateIsSearch | slicemap/slicemap.py:117-125 | except for +inf under "start", the lookup index equals the policy's search, so the infinity shortcuts agree with the search |
| SliceMapSpec.PointLookupTotal | slicemap/slicemap.py:117-120 | `m[+inf]` reads the last entry, `m[-inf]` the first, and for a finite key the search index is in bounds, so a point lookup never fails |
| SliceMapSpec.SearchPastEnd | slicemap/slicemap.py:122-130 | the search returns one past the last entry if and only if the policy is "start" and the key is +inf |
| SliceMapSpec.SearchMonotone | slicemap/slicemap.py:122-125 | either search is monotone in the key |
| SliceMapSpec.Values | slicemap/slicemap.py:130 | the values of entries i1..i2 inclusive, in entry order, i2 - i1 + 1 of them |
| SliceMapSpec.GetRange | slicemap/slicemap.py:127-130 | `m[lo:hi]` fails exactly when a bound is None (TypeError) or, under "start", the stop is +inf (IndexError); otherwise it returns the values from the search index of lo to that of hi |
| SliceMapSpec.RangeCovers | slicemap/slicemap.py:127-130 | a successful range lo <= hi has idx2 - idx1 + 1 values, starts with `m[lo]`, ends with `m[hi]`, and holds `m[k]` for every k between |
| SliceMapSpec.LocateMonotone | slicemap/slicemap.py:117-125 | the point lookup index is monotone in the key |
| SliceMapSpec.GetRangeClamped | slicemap/slicemap.py:127-130 | a range lookup that reads both ends as a point lookup does fails only on a None bound, with TypeError |
| SliceMapSpec.ClampedAgrees | slicemap/slicemap.py:127-130 | wherever the range lookup as written succeeds (with a start other than +inf under "start"), the clamped one returns the same values |
| SliceMapSpec.ClampedAgreesUnderEnd | slicemap/slicemap.py:122-130 | under "end" the clamped and the as-written range lookups agree on every input |
| SliceMapSpec.ClampedRangeCovers | slicemap/slicemap.py:127-130 | every clamped range lo <= hi, including one reaching +inf, starts with `m[lo]`, ends with `m[hi]` and holds `m[k]` for every k between |
| SliceMapSpec.LookupInValues | slicemap/slicemap.py:127-133 | a key between lo and hi has its lookup index between theirs, and its value is the matching element of the range |
| SliceMapSpec.Len | slicemap/slicemap.py:135-146 | `len(m)` is non-negative and counts exactly the finite breakpoints, i.e. every entry but the sentinel |
| SliceMapSpec.Export | slicemap/slicemap.py:44-51 | one triple per entry: the first starts at -inf, each other starts at the previous entry's key, each ends at its entry's key and carries its value |
| SliceMapSpec.ExportChains | slicemap/slicemap.py:44-51 | the triples of a well-formed map chain from -inf to +inf with no gap or overlap, each non-empty, values in entry order |
| SliceMapSpec.ExportInteriorLookup | slicemap/slicemap.py:49-51 | a key strictly inside a triple's interval reads that triple's value under either policy |
| SliceMapSpec.ExportBoundaryLookup | slicemap/slicemap.py:49-51 | a triple's upper end reads its value under "end", and its finite lower end under "start" |
| SliceMapSpec.RemoveKeepsOrder | slicemap/slicemap.py:89-95 | removing a run of entries keeps the list sorted |
| SliceMapSpec.BisectOrder | slicemap/slicemap.py:79-85 | for start < stop, bisect_left(start) <= bisect_right(stop), so the pop count is never negative |
| SliceMapSpec.Middle | slicemap/slicemap.py:99-101 | the boundaries re-added: (start, kept value) only for a finite start, then (stop, value) |
| SliceMapSpec.AssignData | slicemap/slicemap.py:71-101 | the breakpoints after `m[start:stop] = v`; an empty slice (start >= stop) leaves them unchanged |
| AssignProofs.KeptIndexInBounds | slicemap/slicemap.py:79-85 | on a well-formed map with start < stop, bisect_left(start) is always in bounds, so the `else` branch at lines 83-84 is dead, and the pop count is non-negative |
| AssignProofs.SpliceIndex | slicemap/slicemap.py:85-101 | element-wise contents of the spliced sequence |
| AssignProofs.SpliceByAdds | slicemap/slicemap.py:89-101 | popping the run and then adding (start, kept) for a finite start and (stop, value) yields the run replaced by those boundaries |
| AssignProofs.AssignDataAt | slicemap/slicemap.py:79-101 | AssignData is the splice at the two bisect indices, keeping the value of the entry at bisect_left(start) |
| AssignProofs.PopsThenAdds | slicemap/slicemap.py:79-101 | once the run from bisect_left(start) to bisect_right(stop) is popped, the list is still sorted, and adding (start, kept) for a finite start and then (stop, value) yields exactly AssignData |
| AssignProofs.BisectsSplit | slicemap/slicemap.py:79-80 | the bisect indices split the entries into keys < start, the run with start <= key <= stop, and keys > stop; a start of -inf gives 0 and a stop of +inf gives len |
| AssignProofs.SpliceSplits | slicemap/slicemap.py:79-101 | after the splice, start and stop split the entries the same way, with the new boundaries as the run between them |
| AssignProofs.SpliceInvariant | slicemap/slicemap.py:85-101 | the splice keeps the container invariant |
| AssignProofs.AssignKeepsInvariant | slicemap/slicemap.py:79-101 | every assignment keeps the map non-empty, strictly ascending, ending in the +inf sentinel and free of -inf keys |
| AssignProofs.StartBelowSlice | slicemap/slicemap.py:122-125 | under "start" a key below the slice reads what it read before |
| AssignProofs.StartInSlice | slicemap/slicemap.py:122-125 | under "start" a key in [start, stop) reads the new value |
| AssignProofs.StartAboveSlice | slicemap/slicemap.py:122-125 | under "start" a key at or above stop reads what it read before, except +inf when stop is +inf |
| AssignProofs.SpliceOverwriteStart | slicemap/slicemap.py:79-101 | the overwrite rule under "start" for the splice |
| AssignProofs.EndBelowSlice | slicemap/slicemap.py:122-125 | under "end" a key at or below a finite start reads what it read before |
| AssignProofs.EndInSlice | slicemap/slicemap.py:122-125 | under "end" a key in (start, stop] reads the new value |
| AssignProofs.EndAboveSlice | slicemap/slicemap.py:122-125 | under "end" a key above stop reads what it read before |
| AssignProofs.SpliceOverwriteEnd | slicemap/slicemap.py:79-101 | the overwrite rule under "end" for the splice: keys in (start, stop] read the new value, all others their old value |
| AssignProofs.AssignOverwrites | slicemap/slicemap.py:53-101 | after `m[s:t] = v` every key in the slice (under the policy) reads v and every other key reads exactly what it read before; an empty slice changes no key |
| AssignProofs.SpliceIdempotent | slicemap/slicemap.py:79-101 | re-running the same assignment on its own result returns that result |
| AssignProofs.AssignIdempotent | slicemap/slicemap.py:79-101 | assigning the same slice and value twice leaves the same breakpoints as once |
| AssignProofs.AssignEffect | slicemap/slicemap.py:75-101 | invariant kept, overwrite rule, and at most two more entries than before |
| AssignProofs.CoveredConcat | slicemap/slicemap.py:62-64 | the count of entries covered by a slice is additive over concatenation |
| AssignProofs.CoveredAll | slicemap/slicemap.py:62-64 | a sequence entirely inside the slice is covered entirely |
| AssignProofs.CoveredNone | slicemap/slicemap.py:62-64 | a sequence entirely outside the slice is not covered at all |
| AssignProofs.CoveredRun | slicemap/slicemap.py:85 | the number of popped entries is the number of entries with start <= key <= stop |
| AssignProofs.AssignSize | slicemap/slicemap.py:62-64 | the new entry count is the old count minus the covered entries plus 2 (1 for a start of -inf), hence at most 2 more; covered slices are dropped and the map can shrink |
| AssignProofs.SpliceKeys | slicemap/slicemap.py:62-64 | after the splice no key lies strictly inside the slice, and every entry outside [start, stop] is kept |
| AssignProofs.AssignKeys | slicemap/slicemap.py:62-64 | no breakpoint remains strictly inside the slice, and every breakpoint outside [start, stop] is kept |
| SliceMaps.SliceMap.constructor | slicemap/slicemap.py:16-38 | the policy defaults to "start"; a new map holds only the +inf sentinel with None, has size 0 and reads None everywhere |
| SliceMaps.SliceMap.PopRun | slicemap/slicemap.py:89-95 | popping at a fixed index count times removes exactly the run of count entries there |
| SliceMaps.SliceMap.AddBoundaries | slicemap/slicemap.py:99-101 | the list stays sorted and becomes the old one with (start, kept) added when start is finite and then (stop, value) added |
| SliceMaps.SliceMap.SetItem | slicemap/slicemap.py:53-101 | the new breakpoints are AssignData of the old ones (a missing bound meaning the matching infinity); an empty slice changes nothing; the invariant is kept; the slice reads the value and every other key its old value; at most two entries are added |
| Scenarios.DefaultPolicy | slicemap/slicemap.py:16-19 | `SliceMap()` with no argument has the "start" policy, so after m[0:10] = "a" and m[10:20] = "b" the key 10 reads "b" |
| Scenarios.OverwriteAtBoundary | slicemap/slicemap.py:29-32 | after m[0:10] = "a" and m[10:20] = "b", the key 10 reads "b" under "start" and "a" under "end" |
| Scenarios.AssignA | slicemap/slicemap.py:79-101 | m[0:10] = "a" on a fresh map gives breakpoints 0 None, 10 "a", +inf None |
| Scenarios.AssignB | slicemap/slicemap.py:79-101 | then m[10:20] = "b" adds 20 "b" |
| Scenarios.AssignC | slicemap/slicemap.py:79-101 | then m[5:15] = "c" splits both intervals, giving 0 None, 5 "a", 15 "c", 20 "b", +inf None |
| Scenarios.SplitExport | slicemap/slicemap.py:44-51 | after the three assignments the export is (-inf,0,None), (0,5,"a"), (5,15,"c"), (15,20,"b"), (20,+inf,None) and the size is 4 |
| Scenarios.ExportABC | slicemap/slicemap.py:44-51 | the export of the split example's final breakpoints is the five expected triples |
| Scenarios.RangeToInfinity | slicemap/slicemap.py:127-130 | on the map after m[0:10] = "a", m[0:+inf] as written fails with IndexError under "start" |
| Scenarios.RangeToInfinityClamped | slicemap/slicemap.py:127-130 | clamped, the same range under "start" reads ("a", None) |
| Scenarios.RangeToInfinityUnderEnd | slicemap/slicemap.py:127-130 | under "end" the same range succeeds as written and reads (None, "a", None) |

## Left out

- `copy` (a `deepcopy` wrapper): a Dafny `seq` of datatype values already has value semantics.
- `__repr__`: string formatting of float keys.
- `plot`: it imports matplotlib and draws a chart, which is I/O.
- Logging: the `logging.debug` calls have no behavioural effect.
- The internals of `SortedList`: only its bisect/pop/add contract over a sorted sequence is modelled, with `add` inserting after equal keys.
- Floating point: keys are exact reals with explicit ±inf. NaN keys, IEEE rounding and mixing int and float keys are not modelled.
- The argument assertions: the `include in ("start", "end")` check on construction is not modelled, because `Include` has only the two values. The `isinstance(slice_key, slice)` and step checks on assignment are not modelled, because `SetItem` takes the two bounds directly.
- Value identity: values are immutable `Option<V>`, while the source stores object references. When an assignment splits one interval (`bisect_left(start) == bisect_right(stop)`), line 100 re-adds the same object taken at line 82, so two entries share it and mutating one changes the other. Sharing between entries is not modelled; the core never mutates values.
- The value returned by `pop` is not used by the source and is not modelled.
- `m[None]`: a point lookup with a `None` key raises TypeError in the key comparison. The model's point lookup takes a key, so this case cannot be written.
- The query operations are not methods of the class. `m[k]`, `m[lo:hi]`, `len(m)` and `export()` are the functions `GetItem`, `GetRange`, `Len` and `Export` applied to `m.data` and `m.inclusion`.

## Findings

| source | as written | input that shows it | evidently intended | confidence | as-written member | corrected member |
|---|---|---|---|---|---|---|
| slicemap/slicemap.py:127-130 | under "start" a range whose stop is +inf is searched with bisect_right, which returns one past the last entry, and `self.data[i]` for that index raises IndexError | `m = SliceMap("start"); m[0:10] = "a"; m[0:float("inf")]` | the range reads up to the sentinel, the entry that a point lookup `m[+inf]` reads, giving ("a", None) | medium, not executed | SliceMapSpec.GetRange, Scenarios.RangeToInfinity | SliceMapSpec.GetRangeClamped, SliceMapSpec.ClampedRangeCovers, Scenarios.RangeToInfinityClamped |
