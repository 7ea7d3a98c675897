/** The address-space partition (`regions.h`): regions keyed by start
    address, split when the analysis classifies part of one and merged
    back with like neighbours, plus the address → role label map. */
module RegionMaps {
  import opened Common
  import opened OrderedKeys
  import opened Types
  import opened ImageObjects
  import opened RegionValues

  type RegionMap = map<nat, Region>

  /** What the region map keeps: each region sits at its own start key, is
      non-empty, ends below 2^32, has an object, and regions do not
      overlap. */
  predicate Partition(m: RegionMap)
  {
    (forall k :: k in m ==> m[k].address == k && 0 < m[k].size && k + m[k].size < U32 && m[k].owner.Some?) &&
    (forall k1, k2 :: k1 in m && k2 in m && k1 < k2 ==> k1 + m[k1].size <= k2)
  }

  /** The region at key `k` covers address `a`. */
  predicate Covers(m: RegionMap, k: nat, a: nat)
  {
    k in m && k <= a < k + m[k].size
  }

  /** `regionContaining(a)`: the region keyed exactly `a`, else the one
      just below `a` if it contains `a`, else none. Checking only those two
      is enough while the regions do not overlap. */
  function RegionContaining(m: RegionMap, a: nat): (r: Option<nat>)
    ensures r.Some? ==> r.value in m && r.value <= a
    ensures Partition(m) ==> (r.Some? ==> Covers(m, r.value, a))
    ensures Partition(m) ==> forall k: nat :: Covers(m, k, a) ==> r == Some(k)
  {
    if a in m then Some(a)
    else
      match Below(m.Keys, a)
      case None => None
      case Some(k) => if m[k].Contains(a) then Some(k) else None
  }

  /** The class of the region containing `a`, if any. */
  function KindAt(m: RegionMap, a: nat): (r: Option<Type>)
    ensures Partition(m) ==> forall k: nat :: Covers(m, k, a) ==> r == Some(m[k].kind)
    ensures Partition(m) && r.None? ==> forall k: nat :: !Covers(m, k, a)
  {
    match RegionContaining(m, a)
    case Some(k) => Some(m[k].kind)
    case None => None
  }

  /** `previousRegion(reg)`: the region with the largest start below
      reg's start. */
  function PreviousRegion(m: RegionMap, address: nat): (r: Option<nat>)
    ensures r.Some? ==> r.value in m && r.value < address
    ensures r.Some? ==> forall k :: k in m && k < address ==> k <= r.value
    ensures r.None? <==> forall k :: k in m ==> k >= address
  {
    Below(m.Keys, address)
  }

  /** `nextRegion(reg)`: the region with the smallest start above reg's
      start, whichever object it lies in. */
  function NextRegion(m: RegionMap, address: nat): (r: Option<nat>)
    ensures r.Some? ==> r.value in m && r.value > address
    ensures r.Some? ==> forall k :: k in m && k > address ==> r.value <= k
    ensures r.None? <==> forall k :: k in m ==> k <= address
  {
    Above(m.Keys, address)
  }

  /** The region `Regions` creates for an object: its base and buffer size
      (`uint32_t`), UNKNOWN if executable and DATA otherwise. */
  function ObjectRegion(obj: ImageObject): (r: Region)
    ensures r.address == obj.baseAddress && r.owner == Some(obj)
    ensures r.kind == if obj.executable then Unknown else Data
    ensures |obj.data| < U32 ==> r.size == |obj.data|
  {
    Region(obj.baseAddress, Wrap32(|obj.data|), if obj.executable then Unknown else Data, Some(obj))
  }

  /** The regions after the constructor has seen the first `n` objects; a
      later object at the same base replaces an earlier one. */
  function InitialRegions(objects: seq<ImageObject>, n: nat): (r: RegionMap)
    requires n <= |objects|
    ensures forall i :: 0 <= i < n ==> objects[i].baseAddress in r
  {
    if n == 0 then map[]
    else InitialRegions(objects, n - 1)[objects[n - 1].baseAddress := ObjectRegion(objects[n - 1])]
  }

  /** Every initial region is the region of one of the objects. */
  lemma {:induction false} InitialKey(objects: seq<ImageObject>, n: nat, k: nat) returns (i: nat)
    requires n <= |objects| && k in InitialRegions(objects, n)
    ensures i < n && objects[i].baseAddress == k && InitialRegions(objects, n)[k] == ObjectRegion(objects[i])
  {
    if objects[n - 1].baseAddress == k {
      i := n - 1;
    } else {
      i := InitialKey(objects, n - 1, k);
    }
  }

  /** The labels after the first `n` objects: a DATA label at the base of
      each non-executable object and no label for an executable one. */
  function InitialLabels(objects: seq<ImageObject>, n: nat): (r: map<nat, Type>)
    requires n <= |objects|
    ensures forall k :: k in r ==> r[k] == Data
    ensures forall i :: 0 <= i < n && !objects[i].executable ==> objects[i].baseAddress in r
  {
    if n == 0 then map[]
    else
      var prior := InitialLabels(objects, n - 1);
      var obj := objects[n - 1];
      if obj.executable then prior else prior[obj.baseAddress := Data]
  }

  /** Every initial label sits at the base of a non-executable object. */
  lemma {:induction false} InitialLabelKey(objects: seq<ImageObject>, n: nat, k: nat) returns (i: nat)
    requires n <= |objects| && k in InitialLabels(objects, n)
    ensures i < n && objects[i].baseAddress == k && !objects[i].executable
  {
    if objects[n - 1].baseAddress == k && !objects[n - 1].executable {
      i := n - 1;
    } else {
      i := InitialLabelKey(objects, n - 1, k);
    }
  }

  /** Objects `i` and `j` occupy disjoint address ranges. */
  predicate Apart(objects: seq<ImageObject>, i: nat, j: nat)
    requires i < |objects| && j < |objects|
  {
    objects[i].baseAddress + |objects[i].data| <= objects[j].baseAddress ||
    objects[j].baseAddress + |objects[j].data| <= objects[i].baseAddress
  }

  /** The objects' buffers are non-empty, end below 2^32 and do not
      overlap: what the loader produces for a well-formed module. */
  predicate DisjointObjects(objects: seq<ImageObject>)
  {
    (forall i :: 0 <= i < |objects| ==> 0 < |objects[i].data| && objects[i].baseAddress + |objects[i].data| < U32) &&
    (forall i, j :: 0 <= i < j < |objects| ==> Apart(objects, i, j))
  }

  /** With disjoint objects each base holds that object's region. */
  lemma {:induction false} InitialShape(objects: seq<ImageObject>, n: nat)
    requires n <= |objects| && DisjointObjects(objects)
    ensures forall i :: 0 <= i < n ==> InitialRegions(objects, n)[objects[i].baseAddress] == ObjectRegion(objects[i])
  {
    if n > 0 {
      InitialShape(objects, n - 1);
      var prior := InitialRegions(objects, n - 1);
      var last := objects[n - 1];
      var m := prior[last.baseAddress := ObjectRegion(last)];
      forall i | 0 <= i < n
        ensures m[objects[i].baseAddress] == ObjectRegion(objects[i])
      {
        if i < n - 1 {
          assert Apart(objects, i, n - 1);
        }
      }
    }
  }

  /** The constructor's regions form a partition, one region per object,
      of the object's class, when the objects do not overlap. */
  lemma InitialPartition(objects: seq<ImageObject>)
    requires DisjointObjects(objects)
    ensures Partition(InitialRegions(objects, |objects|))
    ensures forall i, a :: 0 <= i < |objects| && objects[i].Holds(a) ==>
      KindAt(InitialRegions(objects, |objects|), a) == Some(if objects[i].executable then Unknown else Data)
  {
    var n := |objects|;
    var m := InitialRegions(objects, n);
    InitialShape(objects, n);
    forall k | k in m
      ensures m[k].address == k && 0 < m[k].size && k + m[k].size < U32 && m[k].owner.Some?
    {
      var i := InitialKey(objects, n, k);
    }
    forall k1, k2 | k1 in m && k2 in m && k1 < k2
      ensures k1 + m[k1].size <= k2
    {
      var i := InitialKey(objects, n, k1);
      var j := InitialKey(objects, n, k2);
      if i < j {
        assert Apart(objects, i, j);
      } else {
        assert Apart(objects, j, i);
      }
    }
    assert Partition(m);
    forall i, a | 0 <= i < n && objects[i].Holds(a)
      ensures KindAt(m, a) == Some(if objects[i].executable then Unknown else Data)
    {
      assert Covers(m, objects[i].baseAddress, a);
    }
  }

  /** The two asserts of `splitInsert`: the target is non-empty and lies
      inside the parent region. */
  predicate Inside(m: RegionMap, p: nat, t: Region)
  {
    p in m && 0 < t.size && p <= t.address && t.address + t.size <= p + m[p].size
  }

  /** The split step of `splitInsert`: the parent shrinks to the prefix
      before the target (or is replaced by it when both start together),
      the target takes the parent's object, and a non-empty suffix keeps
      the parent's class and object. */
  function Split(m: RegionMap, p: nat, t: Region): (r: RegionMap)
    requires Inside(m, p, t)
    ensures t.address in r && r[t.address] == t.WithOwner(m[p].owner)
    ensures m.Keys <= r.Keys && r.Keys <= m.Keys + {t.address, t.address + t.size}
  {
    var parent := m[p];
    var reg := t.WithOwner(parent.owner);
    var tEnd := t.address + t.size;
    var next := Region(tEnd, p + parent.size - tEnd, parent.kind, parent.owner);
    var shrunk := if t.address != p then m[p := parent.WithSize(t.address - p)][t.address := reg] else m[p := reg];
    if next.size > 0 then shrunk[tEnd := next] else shrunk
  }

  /** The pieces of a split: prefix, target and suffix replace the parent,
      and every other region is untouched. */
  lemma SplitShape(m: RegionMap, p: nat, t: Region)
    requires Partition(m) && Inside(m, p, t)
    ensures var r := Split(m, p, t); var tEnd := t.address + t.size; var pEnd := p + m[p].size;
      (forall k :: k in r <==> k in m || k == t.address || (k == tEnd && tEnd < pEnd)) &&
      (p < t.address ==> r[p] == Region(p, t.address - p, m[p].kind, m[p].owner)) &&
      r[t.address] == Region(t.address, t.size, t.kind, m[p].owner) &&
      (tEnd < pEnd ==> r[tEnd] == Region(tEnd, pEnd - tEnd, m[p].kind, m[p].owner)) &&
      (forall k :: k in m && k != p ==> r[k] == m[k])
  {
    var pEnd := p + m[p].size;
    var tEnd := t.address + t.size;
    assert t.address != p ==> t.address !in m;
    assert tEnd < pEnd ==> tEnd !in m;
  }

  /** The split map is again a partition. */
  lemma SplitPartition(m: RegionMap, p: nat, t: Region)
    requires Partition(m) && Inside(m, p, t)
    ensures Partition(Split(m, p, t))
  {
    var r := Split(m, p, t);
    SplitShape(m, p, t);
    var pEnd := p + m[p].size;
    forall k1, k2 | k1 in r && k2 in r && k1 < k2
      ensures k1 + r[k1].size <= k2
    {
      if k1 < p {
        assert k2 in m ==> k1 + m[k1].size <= k2;
        assert k1 + m[k1].size <= p;
      } else if k1 > p && k1 in m {
        assert k1 >= pEnd;
      }
    }
  }

  /** Inside the parent, the prefix keeps the parent's class, the target
      has its own and the suffix keeps the parent's. */
  lemma SplitKindsInParent(m: RegionMap, p: nat, t: Region, a: nat)
    requires Partition(m) && Inside(m, p, t) && p <= a < p + m[p].size
    ensures KindAt(Split(m, p, t), a) == if t.address <= a < t.address + t.size then Some(t.kind) else KindAt(m, a)
  {
    var r := Split(m, p, t);
    SplitShape(m, p, t);
    SplitPartition(m, p, t);
    var tEnd := t.address + t.size;
    assert Covers(m, p, a);
    if a < t.address {
      assert Covers(r, p, a);
    } else if a < tEnd {
      assert Covers(r, t.address, a);
    } else {
      assert Covers(r, tEnd, a);
    }
  }

  /** Outside the parent nothing changes. */
  lemma SplitKindsOutside(m: RegionMap, p: nat, t: Region, a: nat)
    requires Partition(m) && Inside(m, p, t) && !(p <= a < p + m[p].size)
    ensures KindAt(Split(m, p, t), a) == KindAt(m, a)
  {
    var r := Split(m, p, t);
    SplitShape(m, p, t);
    SplitPartition(m, p, t);
    var pEnd := p + m[p].size;
    if k :| Covers(m, k, a) {
      assert k != p;
      assert Covers(r, k, a);
    } else {
      forall k: nat
        ensures !Covers(r, k, a)
      {
        if k in m && k != p {
          assert !Covers(m, k, a);
        } else if k in r {
          assert p <= k && k + r[k].size <= pEnd;
        }
      }
    }
  }

  /** After the split, the target's addresses have its class and every
      other address keeps the class it had. */
  lemma SplitKinds(m: RegionMap, p: nat, t: Region, a: nat)
    requires Partition(m) && Inside(m, p, t)
    ensures KindAt(Split(m, p, t), a) == if t.address <= a < t.address + t.size then Some(t.kind) else KindAt(m, a)
  {
    if p <= a < p + m[p].size {
      SplitKindsInParent(m, p, t, a);
    } else {
      SplitKindsOutside(m, p, t, a);
    }
  }

  /** The merge test of `attemptMerge`: same class, contiguous (the first
      ends where the second starts) and the same bitness; the objects
      themselves are not compared. */
  predicate Mergeable(m: RegionMap, a: nat, b: nat)
    requires Partition(m)
  {
    a in m && b in m && m[a].kind == m[b].kind && m[a].End() == b && m[a].Bitness() == m[b].Bitness()
  }

  /** A merge: the earlier region grows by the later one's size and the
      later key is erased. */
  function MergeStep(m: RegionMap, a: nat, b: nat): (r: RegionMap)
    requires Partition(m) && Mergeable(m, a, b)
    ensures r.Keys == m.Keys - {b}
    ensures r[a] == m[a].WithSize(m[a].size + m[b].size)
    ensures forall k :: k in r && k != a ==> r[k] == m[k]
  {
    m[a := m[a].WithSize(m[a].size + m[b].size)] - {b}
  }

  /** A merge keeps the partition. */
  lemma MergePartition(m: RegionMap, a: nat, b: nat)
    requires Partition(m) && Mergeable(m, a, b)
    ensures Partition(MergeStep(m, a, b))
  {
    var r := MergeStep(m, a, b);
    forall k1, k2 | k1 in r && k2 in r && k1 < k2
      ensures k1 + r[k1].size <= k2
    {
      if k1 == a {
        assert k2 >= b;
      }
    }
  }

  /** A merge keeps the class of every address: the two regions had the
      same class and together cover what the grown one covers. */
  lemma MergeKinds(m: RegionMap, a: nat, b: nat, x: nat)
    requires Partition(m) && Mergeable(m, a, b)
    ensures Partition(MergeStep(m, a, b))
    ensures KindAt(MergeStep(m, a, b), x) == KindAt(m, x)
  {
    var r := MergeStep(m, a, b);
    MergePartition(m, a, b);
    var bEnd := b + m[b].size;
    if a <= x < bEnd {
      assert Covers(r, a, x);
      if x < b {
        assert Covers(m, a, x);
      } else {
        assert Covers(m, b, x);
      }
    } else if k :| Covers(m, k, x) {
      assert k != a && k != b;
      assert Covers(r, k, x);
    } else {
      forall k: nat
        ensures !Covers(r, k, x)
      {
        if k in r && k != a {
          assert !Covers(m, k, x);
        }
      }
    }
  }

  /** `attemptMerge(prev, next)`: merges when both exist and are
      mergeable and yields the merged region, else yields `next`. */
  function MergeAttempted(m: RegionMap, prev: Option<nat>, next: Option<nat>): (r: (RegionMap, Option<nat>))
    requires Partition(m)
    requires prev.Some? ==> prev.value in m
    requires next.Some? ==> next.value in m
    ensures Partition(r.0)
    ensures r.1.Some? ==> r.1.value in r.0
    ensures next.Some? ==> r.1.Some?
  {
    if prev.Some? && next.Some? && Mergeable(m, prev.value, next.value) then
      MergePartition(m, prev.value, next.value);
      (MergeStep(m, prev.value, next.value), prev)
    else (m, next)
  }

  /** An attempted merge keeps the class of every address. */
  lemma AttemptMergeKinds(m: RegionMap, prev: Option<nat>, next: Option<nat>, x: nat)
    requires Partition(m)
    requires prev.Some? ==> prev.value in m
    requires next.Some? ==> next.value in m
    ensures KindAt(MergeAttempted(m, prev, next).0, x) == KindAt(m, x)
  {
    if prev.Some? && next.Some? && Mergeable(m, prev.value, next.value) {
      MergeKinds(m, prev.value, next.value, x);
    }
  }

  /** `check_merge_regions(address)`: merge the region with its
      predecessor, then the result with its successor. */
  function MergedAround(m: RegionMap, address: nat): (r: RegionMap)
    requires Partition(m) && address in m
    ensures Partition(r)
  {
    var first := MergeAttempted(m, PreviousRegion(m, address), Some(address));
    var merged := first.1.value;
    MergeAttempted(first.0, Some(merged), NextRegion(first.0, merged)).0
  }

  /** The two merges keep the class of every address. */
  lemma CheckMergeKinds(m: RegionMap, address: nat, x: nat)
    requires Partition(m) && address in m
    ensures KindAt(MergedAround(m, address), x) == KindAt(m, x)
  {
    var first := MergeAttempted(m, PreviousRegion(m, address), Some(address));
    AttemptMergeKinds(m, PreviousRegion(m, address), Some(address), x);
    var merged := first.1.value;
    AttemptMergeKinds(first.0, Some(merged), NextRegion(first.0, merged), x);
  }

  /** `splitInsert(parent, target)`: split, then merge around the target. */
  function SplitInserted(m: RegionMap, p: nat, t: Region): (r: RegionMap)
    requires Partition(m) && Inside(m, p, t)
    ensures Partition(r)
  {
    SplitPartition(m, p, t);
    SplitShape(m, p, t);
    MergedAround(Split(m, p, t), t.address)
  }

  /** The main property of `splitInsert`: the result is a partition, the
      target's addresses take its class, every other address keeps its
      class, and exactly the same addresses are covered. */
  lemma SplitInsertKinds(m: RegionMap, p: nat, t: Region, a: nat)
    requires Partition(m) && Inside(m, p, t)
    ensures KindAt(SplitInserted(m, p, t), a) == if t.address <= a < t.address + t.size then Some(t.kind) else KindAt(m, a)
    ensures KindAt(SplitInserted(m, p, t), a).Some? <==> KindAt(m, a).Some?
  {
    SplitPartition(m, p, t);
    SplitShape(m, p, t);
    SplitKinds(m, p, t, a);
    CheckMergeKinds(Split(m, p, t), t.address, a);
    if t.address <= a < t.address + t.size {
      assert Covers(m, p, a);
    }
  }

  /** The region map and the label map, updated in place. */
  class Regions {
    var regions: RegionMap
    var labelTypes: map<nat, Type>

    /** `Regions(objects)`: one region per object, a DATA label at each
        non-executable object's base. */
    constructor (objects: seq<ImageObject>)
      ensures regions == InitialRegions(objects, |objects|)
      ensures labelTypes == InitialLabels(objects, |objects|)
    {
      var rs: RegionMap := map[];
      var ls: map<nat, Type> := map[];
      var n := 0;
      while n < |objects|
        invariant n <= |objects|
        invariant rs == InitialRegions(objects, n) && ls == InitialLabels(objects, n)
      {
        var obj := objects[n];
        var kind := if obj.executable then Unknown else Data;
        rs := rs[obj.baseAddress := Region(obj.baseAddress, Wrap32(|obj.data|), kind, Some(obj))];
        if kind == Data {
          ls := ls[obj.baseAddress := kind];
        }
        n := n + 1;
      }
      regions := rs;
      labelTypes := ls;
    }

    /** `attemptMerge` on the map held here. */
    method AttemptMerge(prev: Option<nat>, next: Option<nat>) returns (r: Option<nat>)
      requires Partition(regions)
      requires prev.Some? ==> prev.value in regions
      requires next.Some? ==> next.value in regions
      modifies this
      ensures (regions, r) == MergeAttempted(old(regions), prev, next)
      ensures labelTypes == old(labelTypes)
    {
      if prev.Some? && next.Some? {
        var a := regions[prev.value];
        var b := regions[next.value];
        if a.kind == b.kind && a.End() == b.address && a.Bitness() == b.Bitness() {
          regions := regions[prev.value := a.WithSize(a.size + b.size)];
          regions := regions - {b.address};
          return prev;
        }
      }
      r := next;
    }

    /** `check_merge_regions(address)` on the map held here. */
    method CheckMergeRegions(address: nat)
      requires Partition(regions) && address in regions
      modifies this
      ensures regions == MergedAround(old(regions), address)
      ensures labelTypes == old(labelTypes)
    {
      var merged := AttemptMerge(PreviousRegion(regions, address), Some(address));
      var _ := AttemptMerge(merged, NextRegion(regions, merged.value));
    }

    /** The split half of `splitInsert`: the parent's entry shrinks to
        the prefix or becomes the target, the target and a non-empty
        suffix are inserted. */
    method SplitParent(p: nat, target: Region)
      requires Partition(regions) && Inside(regions, p, target)
      modifies this
      ensures regions == Split(old(regions), p, target)
      ensures labelTypes == old(labelTypes)
    {
      var parent := regions[p];
      var reg := target.WithOwner(parent.owner);
      var next := Region(reg.End(), parent.End() - reg.End(), parent.kind, parent.owner);
      if reg.address != parent.address {
        regions := regions[p := parent.WithSize(reg.address - parent.address)];
        regions := regions[reg.address := reg];
      } else {
        regions := regions[p := reg];
      }
      if next.size > 0 {
        regions := regions[reg.End() := next];
      }
    }

    /** `splitInsert(parent, target)`: prefix, target and suffix replace
        the parent, then the target is merged with its neighbours. The
        target's addresses take its class, all others keep theirs, and
        the labels are untouched. */
    method SplitInsert(p: nat, target: Region)
      requires Partition(regions) && Inside(regions, p, target)
      modifies this
      ensures regions == SplitInserted(old(regions), p, target)
      ensures labelTypes == old(labelTypes)
    {
      ghost var before := regions;
      SplitParent(p, target);
      SplitPartition(before, p, target);
      CheckMergeRegions(target.address);
    }
  }
}
