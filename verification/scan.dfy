/** The two early device-tree callbacks: `dt_scan_for_memory_hole`, which punches the holes of
    a node's `qcom,memblock-remove` property into the bank table, and
    `dt_scan_for_memory_reserve`, which hands the same holes, and the range of a
    `qcom,memblock-reserve` property, to memblock. */
module Scan {
  import opened Options
  import opened Banks
  import opened Ideal
  import opened Adjust
  import opened Cells

  /** A flattened device-tree node as the callbacks see it: whether `check_for_compat` finds
      one of the exported compatible strings on it, and its two properties, if present. */
  datatype Node = Node(compatible: bool, remove: Option<seq<byte>>, reserve: Option<seq<byte>>)

  /** A call into memblock, in the order the callback makes it. */
  datatype Request = MemblockRemove(start: nat, size: nat) | MemblockReserve(start: nat, size: nat)

  /** The holes a node asks for: the pairs of a well-formed remove property of a compatible
      node, and none otherwise. */
  function Holes(node: Node): (h: seq<Pair>)
    ensures h != [] ==> node.compatible && node.remove.Some?
                        && DecodeRemove(node.remove.value) == Some(h)
  {
    if node.compatible && node.remove.Some? && DecodeRemove(node.remove.value).Some?
    then DecodeRemove(node.remove.value).value
    else []
  }

  /** No hole reaches past the 32-bit address space. */
  predicate HolesFit(holes: seq<Pair>) {
    forall k :: 0 <= k < |holes| ==> holes[k].start + holes[k].size < WORD
  }

  /** Every hole has a positive size. */
  predicate Positive(holes: seq<Pair>) {
    forall k :: 0 <= k < |holes| ==> holes[k].size > 0
  }

  /** No hole lies inside any bank of `s`. */
  predicate NoneHeld(s: seq<Bank>, holes: seq<Pair>) {
    forall k :: 0 <= k < |holes| ==> Count(s, holes[k].start, holes[k].size) == 0
  }

  /** The holes punched one after another, each in the idealised way. */
  function IdealScan(s: seq<Bank>, holes: seq<Pair>): seq<Bank>
    decreases |holes|
  {
    if |holes| == 0 then s
    else IdealScan(IdealAdjust(s, holes[0].start, holes[0].size), holes[1..])
  }

  lemma IdealScanStep(s: seq<Bank>, holes: seq<Pair>, k: nat)
    requires k < |holes|
    ensures IdealScan(s, holes[k..])
         == IdealScan(IdealAdjust(s, holes[k].start, holes[k].size), holes[k + 1..])
  {
    assert holes[k..][0] == holes[k] && holes[k..][1..] == holes[k + 1..];
  }

  /** Punching holes of positive size into a sorted, merged table leaves it sorted and merged,
      with at most one bank more per hole. */
  lemma {:induction false} IdealScanWellFormed(s: seq<Bank>, holes: seq<Pair>)
    requires WellFormed(s) && Positive(holes)
    ensures WellFormed(IdealScan(s, holes))
    ensures |IdealScan(s, holes)| <= |s| + |holes|
    decreases |holes|
  {
    if |holes| > 0 {
      var h := holes[0];
      var s' := IdealAdjust(s, h.start, h.size);
      IdealWellFormed(s, h.start, h.size);
      IdealLength(s, h.start, h.size);
      CountAtMostOne(s, h.start, h.size);
      IdealScanWellFormed(s', holes[1..]);
    }
  }

  /** The conditions under which the scan is the idealised one: a sorted, merged table, holes
      of positive size, and a free slot for every hole. */
  predicate Roomy(m: MemInfo, holes: seq<Pair>)
    requires Valid(m)
  {
    WellFormed(Live(m)) && Positive(holes) && m.nrBanks + |holes| <= |m.bank|
  }

  /** What the hole scan keeps true of the table `t` once the first `k` holes are punched. */
  ghost predicate Punched(m: MemInfo, holes: seq<Pair>, t: MemInfo, k: nat)
    requires Valid(m)
  {
    && k <= |holes|
    && Valid(t) && |t.bank| == |m.bank| && FitsWord(Live(t))
    && TotalSize(Live(t)) <= TotalSize(Live(m))
    && (NoneHeld(Live(m), holes) ==> t == m)
    && (Roomy(m, holes) ==> t.nrBanks <= m.nrBanks + k)
    && (WellFormed(Live(m)) && Positive(holes) ==>
          && WellFormed(Live(t))
          && IdealScan(Live(m), holes) == IdealScan(Live(t), holes[k..]))
  }

  /** `dt_scan_for_memory_hole`. A node without the remove property, or that is not compatible,
      or whose property is empty or not a whole number of pairs, leaves the table alone;
      otherwise every pair, read from cells 2k and 2k + 1, is passed to `adjust_meminfo`. */
  method DtScanForMemoryHole(m: MemInfo, node: Node) returns (ret: int, r: Outcome)
    requires Valid(m) && FitsWord(Live(m)) && HolesFit(Holes(node))
    ensures ret == 0
    ensures NoneHeld(Live(m), Holes(node)) ==> r == Done(m)
    ensures r.Done? ==> Valid(r.table) && |r.table.bank| == |m.bank| && FitsWord(Live(r.table))
    ensures r.Done? ==> TotalSize(Live(r.table)) <= TotalSize(Live(m))
    ensures r.Done? && WellFormed(Live(m)) && Positive(Holes(node)) ==>
              Live(r.table) == IdealScan(Live(m), Holes(node)) && WellFormed(Live(r.table))
    ensures Roomy(m, Holes(node)) ==> r.Done?
  {
    ret := 0;
    if node.remove.None? || !node.compatible {
      return 0, Done(m);
    }
    var prop := node.remove.value;
    if |prop| == 0 || |prop| % 8 != 0 {
      return 0, Done(m);
    }
    ghost var holes := Holes(node);
    r := PunchHoles(m, prop, holes);
    if r.Done? {
      PunchedAll(m, holes, r.table);
    }
  }

  /** The loop over the cells of a well-formed remove property. */
  method PunchHoles(m: MemInfo, prop: seq<byte>, ghost holes: seq<Pair>) returns (r: Outcome)
    requires Valid(m) && FitsWord(Live(m))
    requires |prop| % 8 == 0 && holes == Pairs(prop) && HolesFit(holes)
    ensures r.Done? ==> Punched(m, holes, r.table, |holes|)
    ensures Roomy(m, holes) || NoneHeld(Live(m), holes) ==> r.Done?
  {
    PairsLength(prop);
    var numHoles := |prop| / 8;
    var t := m;
    var i := 0;
    ghost var k := 0;
    while i < numHoles * 2
      invariant i == 2 * k && k <= numHoles
      invariant Punched(m, holes, t, k)
    {
      var holeStart := Cell(prop, i);
      var holeSize := Cell(prop, i + 1);
      PairsAt(prop, k);
      var o := PunchHole(m, holes, t, k, holeStart, holeSize);
      if o.Overrun? {
        return Overrun;
      }
      t := o.table;
      i, k := i + 2, k + 1;
    }
    r := Done(t);
  }

  /** Once every hole is punched, what `Punched` keeps is what the scan promises. */
  lemma PunchedAll(m: MemInfo, holes: seq<Pair>, t: MemInfo)
    requires Valid(m) && Punched(m, holes, t, |holes|)
    ensures Valid(t) && |t.bank| == |m.bank| && FitsWord(Live(t))
    ensures TotalSize(Live(t)) <= TotalSize(Live(m))
    ensures NoneHeld(Live(m), holes) ==> t == m
    ensures WellFormed(Live(m)) && Positive(holes) ==>
              Live(t) == IdealScan(Live(m), holes) && WellFormed(Live(t))
  {
    assert holes[|holes|..] == [];
  }

  /** One pass of the loop: hole `k` handed to `adjust_meminfo`. */
  method PunchHole(m: MemInfo, ghost holes: seq<Pair>, t: MemInfo, ghost k: nat, start: nat, size: nat)
    returns (o: Outcome)
    requires Valid(m) && HolesFit(holes) && k < |holes| && holes[k] == Pair(start, size)
    requires Punched(m, holes, t, k)
    ensures o.Done? ==> Punched(m, holes, o.table, k + 1)
    ensures Roomy(m, holes) || NoneHeld(Live(m), holes) ==> o.Done?
  {
    ghost var s := Live(t);
    if WellFormed(Live(m)) && Positive(holes) {
      CountAtMostOne(s, start, size);
      IdealLength(s, start, size);
      IdealWellFormed(s, start, size);
      IdealScanStep(s, holes, k);
    }
    if Roomy(m, holes) {
      assert t.nrBanks < |t.bank|;
    }
    if NoneHeld(Live(m), holes) {
      assert Count(s, holes[k].start, holes[k].size) == 0;
    }
    ghost var splits;
    o, splits := AdjustMeminfo(t, start, size);
  }

  /** One `memblock_remove` per hole, in order. */
  function Removals(holes: seq<Pair>): seq<Request>
    decreases |holes|
  {
    if |holes| == 0 then []
    else Removals(holes[..|holes| - 1])
         + [MemblockRemove(holes[|holes| - 1].start, holes[|holes| - 1].size)]
  }

  lemma {:induction false} RemovalsAt(holes: seq<Pair>)
    ensures |Removals(holes)| == |holes|
    ensures forall k :: 0 <= k < |holes| ==>
      Removals(holes)[k] == MemblockRemove(holes[k].start, holes[k].size)
    decreases |holes|
  {
    if |holes| > 0 {
      RemovalsAt(holes[..|holes| - 1]);
    }
  }

  /** The removals for one hole more. */
  lemma RemovalsNext(holes: seq<Pair>, j: nat)
    requires j < |holes|
    ensures Removals(holes[..j + 1]) == Removals(holes[..j]) + [MemblockRemove(holes[j].start, holes[j].size)]
  {
    assert holes[..j + 1][..j] == holes[..j];
  }

  /** The `memblock_reserve` a compatible node with a well-formed reserve property asks for. */
  function Reservation(node: Node): (r: seq<Request>)
    ensures |r| <= 1
    ensures r != [] <==> node.compatible && node.reserve.Some? && |node.reserve.value| == 8
  {
    if node.compatible && node.reserve.Some? && DecodeReserve(node.reserve.value).Some?
    then
      var p := DecodeReserve(node.reserve.value).value;
      [MemblockReserve(p.start, p.size)]
    else []
  }

  /** `dt_scan_for_memory_reserve`, with memblock's two entry points recorded in `log` rather
      than called. The remove property is read as `dt_scan_for_memory_hole` reads it, and every
      one of its pairs goes to memblock; a malformed remove property skips only the removals, a
      malformed reserve property only the reservation. */
  method DtScanForMemoryReserve(node: Node) returns (ret: int, log: seq<Request>)
    ensures ret == 0
    ensures log == Removals(Holes(node)) + Reservation(node)
  {
    ret, log := 0, [];
    if node.remove.None? && node.reserve.None? {
      return;
    }
    if !node.compatible {
      return;
    }
    if node.remove.Some? {
      var prop := node.remove.value;
      if |prop| != 0 && |prop| % 8 == 0 {
        ghost var holes := Pairs(prop);
        PairsLength(prop);
        var numHoles := |prop| / 8;
        var i := 0;
        ghost var k := 0;
        while i < numHoles * 2
          invariant i == 2 * k && k <= numHoles
          invariant log == Removals(holes[..k])
        {
          var memoryStart := Cell(prop, i);
          var memorySize := Cell(prop, i + 1);
          PairsAt(prop, k);
          RemovalsNext(holes, k);
          log := log + [MemblockRemove(memoryStart, memorySize)];
          i, k := i + 2, k + 1;
        }
        assert holes[..k] == holes;
      }
    }
    if node.reserve.Some? {
      var prop := node.reserve.value;
      if |prop| != 8 {
        return;
      }
      log := log + [MemblockReserve(Cell(prop, 0), Cell(prop, 1))];
    }
  }
}
