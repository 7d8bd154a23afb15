/**
 * The placement planner shared by both command-line front ends: from the
 * machine topology and the thread stride it lists the starting CPU id of
 * every rank, taking one core from each NUMA zone at each core offset
 * before moving to the next offset.
 */
module Placement {
  import opened Wrappers
  import opened Arith

  /** The machine shape: sockets, physical cores per socket and NUMA zones. */
  datatype Topology = Topology(sockets: nat, coresPerSocket: nat, numaNodes: nat)

  predicate Positive(t: Topology) {
    t.sockets > 0 && t.coresPerSocket > 0 && t.numaNodes > 0
  }

  /**
   * The explicit-argument check: the topology is accepted exactly when all
   * three values are positive, and then it is taken as given.
   */
  function FromArguments(sockets: int, coresPerSocket: int, numaNodes: int): (r: Option<Topology>)
    ensures r.Some? <==> sockets > 0 && coresPerSocket > 0 && numaNodes > 0
    ensures r.Some? ==>
      Positive(r.value) && r.value.sockets == sockets
      && r.value.coresPerSocket == coresPerSocket && r.value.numaNodes == numaNodes
  {
    if sockets <= 0 || coresPerSocket <= 0 || numaNodes <= 0 then None
    else Some(Topology(sockets, coresPerSocket, numaNodes))
  }

  /** `totCores = sockets * cores_per_socket`. */
  function TotalCores(t: Topology): (n: nat)
    ensures Positive(t) ==> n >= t.sockets && n >= t.coresPerSocket && n >= 1
  {
    t.sockets * t.coresPerSocket
  }

  /**
   * `cores_in_numa_node = int(totCores / memZones)`: the truncated share of
   * one zone, so that the zones together never exceed the total.
   */
  function CoresPerZone(total: nat, zones: nat): (c: nat)
    requires zones > 0
    ensures c * zones <= total < (c + 1) * zones
  {
    total / zones
  }

  /** Number of values `range(0, n, step)` yields for a positive step. */
  function CeilDiv(n: nat, step: nat): nat
    requires step >= 1
  {
    (n + step - 1) / step
  }

  /** `range(i, stop, step)` for a positive step. */
  function RangeFrom(i: nat, stop: nat, step: nat): seq<nat>
    requires step >= 1
    decreases stop - i
  {
    if i >= stop then [] else [i] + RangeFrom(i + step, stop, step)
  }

  /**
   * `range(0, c, threads)`: counting up for a positive stride and empty for
   * a negative one (a zero stride raises, so it is excluded here).
   */
  function Offsets(c: nat, threads: int): seq<nat>
    requires threads != 0
  {
    if threads < 0 then [] else RangeFrom(0, c, threads)
  }

  /** The inner comprehension: offset `i` in every zone `j`, in zone order. */
  function ZoneIds(i: nat, c: nat, zones: nat): (ids: seq<nat>)
    ensures |ids| == zones
    ensures forall j :: 0 <= j < zones ==> ids[j] == i + j * c
  {
    seq(zones, j requires 0 <= j < zones => i + j * c)
  }

  function PlanOver(offsets: seq<nat>, c: nat, zones: nat): seq<nat>
  {
    if offsets == [] then [] else ZoneIds(offsets[0], c, zones) + PlanOver(offsets[1..], c, zones)
  }

  /** `cpu_list`: the nested comprehension over offsets (outer) and zones (inner). */
  function Plan(c: nat, zones: nat, threads: int): seq<nat>
    requires threads != 0
  {
    PlanOver(Offsets(c, threads), c, zones)
  }

  lemma DivStep(x: nat, d: nat)
    requires d >= 1
    ensures (x + d) / d == x / d + 1
  {
    DivModUnique(x + d, d, x / d + 1, x % d);
  }

  /** `range(i, stop, step)` has ceil((stop - i) / step) values i, i + step, ... */
  lemma {:induction false} RangeFromShape(i: nat, stop: nat, step: nat)
    requires step >= 1
    ensures |RangeFrom(i, stop, step)| == if i >= stop then 0 else CeilDiv(stop - i, step)
    ensures forall k :: 0 <= k < |RangeFrom(i, stop, step)| ==>
      RangeFrom(i, stop, step)[k] == i + k * step && RangeFrom(i, stop, step)[k] < stop
    decreases stop - i
  {
    if i < stop {
      var rest := RangeFrom(i + step, stop, step);
      RangeFromShape(i + step, stop, step);
      if i + step >= stop {
        DivModUnique(stop - i + step - 1, step, 1, stop - i - 1);
      } else {
        DivStep(stop - (i + step) + step - 1, step);
      }
      forall k | 1 <= k < |RangeFrom(i, stop, step)|
        ensures RangeFrom(i, stop, step)[k] == i + k * step && RangeFrom(i, stop, step)[k] < stop
      {
        assert RangeFrom(i, stop, step)[k] == rest[k - 1];
        assert (k - 1) * step + step == k * step;
      }
    }
  }

  /** For a positive stride the offsets are 0, t, 2t, ... below c: ceil(c / t) of them. */
  lemma OffsetsShape(c: nat, threads: int)
    requires threads >= 1
    ensures |Offsets(c, threads)| == CeilDiv(c, threads)
    ensures forall k :: 0 <= k < |Offsets(c, threads)| ==>
      Offsets(c, threads)[k] == k * threads && Offsets(c, threads)[k] < c
  {
    RangeFromShape(0, c, threads);
    if c == 0 {
      DivModUnique(threads - 1, threads, 0, threads - 1);
    }
  }

  lemma {:induction false} PlanOverLength(offsets: seq<nat>, c: nat, zones: nat)
    ensures |PlanOver(offsets, c, zones)| == |offsets| * zones
  {
    if offsets != [] {
      var rest := offsets[1..];
      PlanOverLength(rest, c, zones);
      assert |PlanOver(offsets, c, zones)| == zones + |rest| * zones;
      MulSucc(|rest|, zones);
    }
  }

  /** Entry q * zones + r of the flattened comprehension is offset q in zone r. */
  lemma {:induction false} PlanOverAtBlock(offsets: seq<nat>, c: nat, zones: nat, q: nat, r: nat)
    requires q < |offsets| && r < zones
    ensures q * zones + r < |PlanOver(offsets, c, zones)|
    ensures PlanOver(offsets, c, zones)[q * zones + r] == offsets[q] + r * c
    decreases q
  {
    var head := ZoneIds(offsets[0], c, zones);
    var rest := offsets[1..];
    assert PlanOver(offsets, c, zones) == head + PlanOver(rest, c, zones);
    if q == 0 {
      assert PlanOver(offsets, c, zones)[r] == head[r];
    } else {
      PlanOverAtBlock(rest, c, zones, q - 1, r);
      MulSucc(q - 1, zones);
      assert rest[q - 1] == offsets[q];
      assert PlanOver(offsets, c, zones)[q * zones + r] == PlanOver(rest, c, zones)[(q - 1) * zones + r];
    }
  }

  /** Entry p of the flattened comprehension is offset p / zones in zone p % zones. */
  lemma PlanOverAt(offsets: seq<nat>, c: nat, zones: nat, p: nat)
    requires zones >= 1 && p < |offsets| * zones
    ensures p / zones < |offsets|
    ensures p < |PlanOver(offsets, c, zones)|
    ensures PlanOver(offsets, c, zones)[p] == offsets[p / zones] + (p % zones) * c
  {
    var q, r := p / zones, p % zones;
    assert p == q * zones + r;
    assert q < |offsets| by {
      if q >= |offsets| {
        MulMonotone(|offsets|, q, zones);
      }
    }
    PlanOverAtBlock(offsets, c, zones, q, r);
  }

  /** A placement has ceil(c / threads) entries per zone. */
  lemma PlanLength(c: nat, zones: nat, threads: int)
    requires threads >= 1
    ensures |Plan(c, zones, threads)| == CeilDiv(c, threads) * zones
  {
    OffsetsShape(c, threads);
    PlanOverLength(Offsets(c, threads), c, zones);
  }

  /**
   * Round-robin order: entry k * zones + j is offset k * threads in zone j,
   * so each block of `zones` consecutive entries visits every zone once, in
   * zone order.
   */
  lemma PlanAt(c: nat, zones: nat, threads: int, k: nat, j: nat)
    requires threads >= 1
    requires k < CeilDiv(c, threads) && j < zones
    ensures k * zones + j < |Plan(c, zones, threads)|
    ensures Plan(c, zones, threads)[k * zones + j] == k * threads + j * c
  {
    OffsetsShape(c, threads);
    PlanOverAtBlock(Offsets(c, threads), c, zones, k, j);
  }

  /** Every entry: offset (p / zones) * threads in zone p % zones. */
  lemma PlanEntry(c: nat, zones: nat, threads: int, p: nat)
    requires threads >= 1 && p < |Plan(c, zones, threads)|
    ensures zones >= 1
    ensures 0 <= (p / zones) * threads < c
    ensures Plan(c, zones, threads)[p] == (p / zones) * threads + (p % zones) * c
  {
    OffsetsShape(c, threads);
    PlanOverLength(Offsets(c, threads), c, zones);
    PlanOverAt(Offsets(c, threads), c, zones, p);
  }

  /** Every placed id lies below zones * c, hence below the total core count. */
  lemma PlanBelow(c: nat, zones: nat, threads: int)
    requires threads >= 1
    ensures forall p :: 0 <= p < |Plan(c, zones, threads)| ==> Plan(c, zones, threads)[p] < zones * c
  {
    forall p | 0 <= p < |Plan(c, zones, threads)|
      ensures Plan(c, zones, threads)[p] < zones * c
    {
      PlanEntry(c, zones, threads, p);
      MulMonotone(p % zones + 1, zones, c);
    }
  }

  /** No CPU id is handed out twice. */
  lemma PlanDistinct(c: nat, zones: nat, threads: int)
    requires threads >= 1
    ensures forall p, q :: 0 <= p < q < |Plan(c, zones, threads)| ==>
      Plan(c, zones, threads)[p] != Plan(c, zones, threads)[q]
  {
    forall p, q | 0 <= p < q < |Plan(c, zones, threads)|
      ensures Plan(c, zones, threads)[p] != Plan(c, zones, threads)[q]
    {
      PlanZones(c, zones, threads, p);
      PlanZones(c, zones, threads, q);
      if Plan(c, zones, threads)[p] == Plan(c, zones, threads)[q] {
        SameZoneAndOffset(p, q, zones, threads);
      }
    }
  }

  lemma SameZoneAndOffset(p: nat, q: nat, zones: nat, threads: int)
    requires zones >= 1 && threads >= 1
    requires p % zones == q % zones && (p / zones) * threads == (q / zones) * threads
    ensures p == q
  {
    var kp, kq := p / zones, q / zones;
    if kp < kq {
      MulAtLeast(threads, kq - kp);
    } else if kq < kp {
      MulAtLeast(threads, kp - kq);
    }
    assert p == kp * zones + p % zones && q == kq * zones + q % zones;
  }

  /**
   * Zone of an entry: entry p sits in NUMA zone p % zones (id / c) at core
   * offset (p / zones) * threads within that zone (id % c).
   */
  lemma PlanZones(c: nat, zones: nat, threads: int, p: nat)
    requires threads >= 1 && p < |Plan(c, zones, threads)|
    ensures c >= 1 && zones >= 1
    ensures Plan(c, zones, threads)[p] / c == p % zones
    ensures Plan(c, zones, threads)[p] % c == (p / zones) * threads
  {
    PlanEntry(c, zones, threads, p);
    DivModUnique(Plan(c, zones, threads)[p], c, p % zones, (p / zones) * threads);
  }

  /** A stride wider than a zone still places offset 0: one rank per zone, not none. */
  lemma PlanWideStride(c: nat, zones: nat, threads: int)
    requires 1 <= c < threads
    ensures Plan(c, zones, threads) == ZoneIds(0, c, zones)
    ensures |Plan(c, zones, threads)| == zones
  {
    assert RangeFrom(threads, c, threads) == [];
    assert RangeFrom(0, c, threads) == [0] + RangeFrom(threads, c, threads) == [0];
    assert Offsets(c, threads) == [0];
    assert [0][1..] == [];
    assert PlanOver([0], c, zones) == ZoneIds(0, c, zones) + PlanOver([], c, zones);
    assert ZoneIds(0, c, zones) + [] == ZoneIds(0, c, zones);
  }

  /** For a positive stride the placement is empty exactly when a zone has no core or there are no zones. */
  lemma PlanEmpty(c: nat, zones: nat, threads: int)
    requires threads >= 1
    ensures Plan(c, zones, threads) == [] <==> c == 0 || zones == 0
  {
    PlanLength(c, zones, threads);
    if c >= 1 {
      DivAtLeastOne(c + threads - 1, threads);
      if zones >= 1 {
        MulAtLeast(zones, CeilDiv(c, threads));
      }
    } else {
      DivModUnique(threads - 1, threads, 0, threads - 1);
    }
  }

  /** A negative stride makes `range` empty, so nothing is placed. */
  lemma PlanNegativeStride(c: nat, zones: nat, threads: int)
    requires threads < 0
    ensures Plan(c, zones, threads) == []
  {
  }

  /**
   * Placement on a whole machine: with the truncated per-zone share, the plan
   * has ceil(c / threads) entries per zone, all distinct and all below the
   * machine's total core count.
   */
  lemma PlanOnMachine(t: Topology, threads: int)
    requires Positive(t) && threads >= 1
    ensures
      var c := CoresPerZone(TotalCores(t), t.numaNodes);
      var plan := Plan(c, t.numaNodes, threads);
      |plan| == CeilDiv(c, threads) * t.numaNodes
      && (forall p :: 0 <= p < |plan| ==> plan[p] < TotalCores(t))
      && (forall p, q :: 0 <= p < q < |plan| ==> plan[p] != plan[q])
  {
    var c := CoresPerZone(TotalCores(t), t.numaNodes);
    PlanLength(c, t.numaNodes, threads);
    PlanBelow(c, t.numaNodes, threads);
    PlanDistinct(c, t.numaNodes, threads);
    assert t.numaNodes * c <= TotalCores(t);
  }

  /** Two sockets of four cores in two zones, one thread per rank. */
  lemma ExampleOneThread()
    ensures Plan(CoresPerZone(TotalCores(Topology(2, 4, 2)), 2), 2, 1) == [0, 4, 1, 5, 2, 6, 3, 7]
  {
    assert CoresPerZone(8, 2) == 4;
    assert RangeFrom(4, 4, 1) == [];
    assert RangeFrom(0, 4, 1) == [0, 1, 2, 3];
  }

  /** The same machine with two threads per rank. */
  lemma ExampleTwoThreads()
    ensures Plan(CoresPerZone(TotalCores(Topology(2, 4, 2)), 2), 2, 2) == [0, 4, 2, 6]
  {
    assert CoresPerZone(8, 2) == 4;
    assert RangeFrom(4, 4, 2) == [];
    assert RangeFrom(0, 4, 2) == [0, 2];
  }
}
