/** `adjust_meminfo`: punching the hole [start, start + size) into the bank table. */
module Adjust {
  import opened Banks
  import opened Memmove
  import opened Merge
  import opened Ideal
  import opened Options

  /** The body of the split: the tail of the table moves up one slot, the bank at `i` becomes
      the piece below the hole and its copy at `i + 1` the piece above it, which is not high
      memory. The table gains exactly one live slot; nothing is merged yet. */
  method SplitBank(m: MemInfo, i: nat, start: nat, size: nat) returns (r: MemInfo)
    requires Valid(m) && i < m.nrBanks < |m.bank|
    requires Contains(m.bank[i], start, size)
    ensures Valid(r) && |r.bank| == |m.bank|
    ensures r.nrBanks == m.nrBanks + 1
    ensures Live(r) == SplitAt(Live(m), i, start, size)
  {
    var bank := OpenGap(m.bank, i, m.nrBanks);
    var nr := m.nrBanks + 1;
    bank := bank[i := bank[i].(size := start - bank[i].start)];
    bank := bank[i + 1 := bank[i + 1].(start := start + size,
                                       size := bank[i + 1].size - (bank[i].size + size),
                                       highmem := false)];
    r := MemInfo(nr, bank);
  }

  /** The body of the loop's `if` in `adjust_meminfo`: the split followed by the merge. */
  method SplitAndMerge(m: MemInfo, i: nat, start: nat, size: nat) returns (r: MemInfo)
    requires Valid(m) && i < m.nrBanks < |m.bank|
    requires Contains(m.bank[i], start, size)
    ensures Valid(r) && |r.bank| == |m.bank|
    ensures Live(r) == NonZero(SplitAt(Live(m), i, start, size))
  {
    var split := SplitBank(m, i, start, size);
    r := MergeMeminfo(split);
  }

  /** How the loop reaches the over-read of `merge_meminfo`'s move: with one free slot left, a
      split whose hole starts or ends at an edge of its bank fills the array and leaves an empty
      piece, so the merge that follows moves with the count as written on a full table, and
      every such move reads the slot past the array. */
  method SplitFillsTable(m: MemInfo, i: nat, start: nat, size: nat) returns (t: MemInfo)
    requires Valid(m) && i < m.nrBanks && m.nrBanks + 1 == |m.bank|
    requires Contains(m.bank[i], start, size)
    requires start == m.bank[i].start || start + size == End(m.bank[i])
    ensures Valid(t) && t.nrBanks == |t.bank| == |m.bank|
    ensures Live(t) == SplitAt(Live(m), i, start, size)
    ensures t.bank[i].size == 0 || t.bank[i + 1].size == 0
    ensures forall j :: 0 <= j < t.nrBanks ==> CloseGapAsWritten(t.bank, j, t.nrBanks) == None
  {
    t := SplitBank(m, i, start, size);
    assert Live(m)[i] == m.bank[i];
    assert t.bank[i] == Live(t)[i] && t.bank[i + 1] == Live(t)[i + 1];
    forall j | 0 <= j < t.nrBanks
      ensures CloseGapAsWritten(t.bank, j, t.nrBanks) == None
    {
      CloseGapAsWrittenOverreadsFullTable(t.bank, j);
    }
  }

  /** A concrete instance: a two-slot table with one live bank [0x1000, 0x2000), and the hole
      [0x1000, 0x1800) at its lower edge. */
  method OverreadExample() returns (t: MemInfo)
    ensures t == MemInfo(2, [Bank(0x1000, 0, false), Bank(0x1800, 0x800, false)])
    ensures CloseGapAsWritten(t.bank, 0, t.nrBanks) == None
  {
    var m := MemInfo(1, [Bank(0x1000, 0x1000, false), Bank(0, 0, false)]);
    assert Live(m) == [Bank(0x1000, 0x1000, false)];
    t := SplitFillsTable(m, 0, 0x1000, 0x800);
    assert t.bank == Live(t);
  }

  /** Where the loop of `adjust_meminfo` ends up: the live banks it leaves and the number of
      banks it split. */
  datatype Ran = Ran(live: seq<Bank>, splits: nat)

  /** `o` with `d` more splits counted. */
  function Plus(o: Option<Ran>, d: nat): Option<Ran> {
    if o.Some? then Some(Ran(o.value.live, o.value.splits + d)) else None
  }

  /** The loop of `adjust_meminfo` over the live banks `s` of an array of `cap` slots, from
      index `i` on. A bank holding the hole is split, the table merged, and the index moved
      two slots on, past the upper piece; `None` is the gap opened in a full array. */
  function AdjustFrom(s: seq<Bank>, cap: nat, i: nat, start: nat, size: nat): Option<Ran>
    decreases |s| - i
  {
    if i >= |s| then Some(Ran(s, 0))
    else if !Contains(s[i], start, size) then AdjustFrom(s, cap, i + 1, start, size)
    else if cap <= |s| then None
    else Plus(AdjustFrom(NonZero(SplitAt(s, i, start, size)), cap, i + 2, start, size), 1)
  }

  // One step of the loop each.

  lemma AdjustFromEnd(s: seq<Bank>, cap: nat, i: nat, start: nat, size: nat)
    requires |s| <= i
    ensures AdjustFrom(s, cap, i, start, size) == Some(Ran(s, 0))
  {
  }

  lemma AdjustFromSkip(s: seq<Bank>, cap: nat, i: nat, start: nat, size: nat)
    requires i < |s| && !Contains(s[i], start, size)
    ensures AdjustFrom(s, cap, i, start, size) == AdjustFrom(s, cap, i + 1, start, size)
  {
  }

  lemma AdjustFromFull(s: seq<Bank>, cap: nat, i: nat, start: nat, size: nat)
    requires i < |s| && Contains(s[i], start, size) && cap <= |s|
    ensures AdjustFrom(s, cap, i, start, size) == None
  {
  }

  lemma AdjustFromSplit(s: seq<Bank>, cap: nat, i: nat, start: nat, size: nat)
    requires i < |s| < cap && Contains(s[i], start, size)
    ensures AdjustFrom(s, cap, i, start, size)
         == Plus(AdjustFrom(NonZero(SplitAt(s, i, start, size)), cap, i + 2, start, size), 1)
  {
  }

  lemma PlusPlus(o: Option<Ran>, a: nat, b: nat)
    ensures Plus(Plus(o, a), b) == Plus(o, a + b)
  {
  }

  /** The number of banks from index `i` on that hold the hole. */
  function Ahead(s: seq<Bank>, i: nat, start: nat, size: nat): nat {
    Count(Tail(s, i), start, size)
  }

  /** With no bank ahead holding the hole, the loop changes nothing. */
  lemma {:induction false} AdjustFromUnchanged(s: seq<Bank>, cap: nat, i: nat, start: nat, size: nat)
    requires Ahead(s, i, start, size) == 0
    ensures AdjustFrom(s, cap, i, start, size) == Some(Ran(s, 0))
    decreases |s| - i
  {
    if i < |s| {
      AheadStep(s, i, start, size);
      AdjustFromUnchanged(s, cap, i + 1, start, size);
    }
  }

  /** With a free slot for every bank ahead holding the hole, the loop never overruns. */
  lemma {:induction false} AdjustFromRoom(s: seq<Bank>, cap: nat, i: nat, start: nat, size: nat)
    requires |s| + Ahead(s, i, start, size) <= cap
    ensures AdjustFrom(s, cap, i, start, size).Some?
    decreases |s| - i
  {
    if i < |s| {
      if Contains(s[i], start, size) {
        AheadStep(s, i, start, size);
        SplitCount(s, i, start, size);
        AdjustFromRoom(NonZero(SplitAt(s, i, start, size)), cap, i + 2, start, size);
      } else {
        AheadStep(s, i, start, size);
        AdjustFromRoom(s, cap, i + 1, start, size);
      }
    }
  }

  /** At most one split per bank ahead holding the hole, and none only when there is none. */
  lemma {:induction false} AdjustFromSplits(s: seq<Bank>, cap: nat, i: nat, start: nat, size: nat)
    ensures AdjustFrom(s, cap, i, start, size).Some? ==>
      var r := AdjustFrom(s, cap, i, start, size).value;
      && r.splits <= Ahead(s, i, start, size)
      && (r.splits == 0 ==> r.live == s && Ahead(s, i, start, size) == 0)
    decreases |s| - i
  {
    if i < |s| {
      if Contains(s[i], start, size) {
        AheadStep(s, i, start, size);
        SplitCount(s, i, start, size);
        AdjustFromSplits(NonZero(SplitAt(s, i, start, size)), cap, i + 2, start, size);
      } else {
        AheadStep(s, i, start, size);
        AdjustFromSplits(s, cap, i + 1, start, size);
      }
    }
  }

  /** The table stays within its array, grows by at most one bank per split, and has no empty
      bank once a split has been merged. */
  lemma {:induction false} AdjustFromShape(s: seq<Bank>, cap: nat, i: nat, start: nat, size: nat)
    requires |s| <= cap
    ensures AdjustFrom(s, cap, i, start, size).Some? ==>
      var r := AdjustFrom(s, cap, i, start, size).value;
      && |r.live| <= cap
      && |r.live| <= |s| + r.splits
      && (NoZero(s) || r.splits > 0 ==> NoZero(r.live))
    decreases |s| - i
  {
    if i < |s| {
      if Contains(s[i], start, size) && |s| < cap {
        SplitCount(s, i, start, size);
        AdjustFromShape(NonZero(SplitAt(s, i, start, size)), cap, i + 2, start, size);
      } else if Contains(s[i], start, size) {
      } else {
        AdjustFromShape(s, cap, i + 1, start, size);
      }
    }
  }

  /** Every split removes exactly the hole from the covered memory. */
  lemma {:induction false} AdjustFromTotalSize(s: seq<Bank>, cap: nat, i: nat, start: nat, size: nat)
    ensures AdjustFrom(s, cap, i, start, size).Some? ==>
      var r := AdjustFrom(s, cap, i, start, size).value;
      TotalSize(r.live) + size * r.splits == TotalSize(s)
    decreases |s| - i
  {
    if i < |s| {
      if Contains(s[i], start, size) {
        SplitCount(s, i, start, size);
        SplitTotalSize(s, i, start, size);
        var s' := NonZero(SplitAt(s, i, start, size));
        AdjustFromTotalSize(s', cap, i + 2, start, size);
        if AdjustFrom(s', cap, i + 2, start, size).Some? {
          MulSucc(size, AdjustFrom(s', cap, i + 2, start, size).value.splits);
        }
      } else {
        AdjustFromTotalSize(s, cap, i + 1, start, size);
      }
    }
  }

  /** A hole inside the address space leaves every bank inside it. */
  lemma {:induction false} AdjustFromFitsWord(s: seq<Bank>, cap: nat, i: nat, start: nat, size: nat)
    requires FitsWord(s) && start + size < WORD
    ensures AdjustFrom(s, cap, i, start, size).Some? ==>
      FitsWord(AdjustFrom(s, cap, i, start, size).value.live)
    decreases |s| - i
  {
    if i < |s| {
      if Contains(s[i], start, size) {
        SplitCount(s, i, start, size);
        SplitFitsWord(s, i, start, size);
        AdjustFromFitsWord(NonZero(SplitAt(s, i, start, size)), cap, i + 2, start, size);
      } else {
        AdjustFromFitsWord(s, cap, i + 1, start, size);
      }
    }
  }

  /** With at most one bank ahead holding the hole, the loop overruns exactly when there is one
      and the array is already full. */
  lemma {:induction false} AdjustFromOverrun(s: seq<Bank>, cap: nat, i: nat, start: nat, size: nat)
    requires Ahead(s, i, start, size) <= 1
    ensures AdjustFrom(s, cap, i, start, size).None? <==> Ahead(s, i, start, size) == 1 && cap <= |s|
    decreases |s| - i
  {
    if i < |s| {
      if Contains(s[i], start, size) {
        AheadStep(s, i, start, size);
        if |s| < cap {
          SplitCount(s, i, start, size);
          AdjustFromUnchanged(NonZero(SplitAt(s, i, start, size)), cap, i + 2, start, size);
        }
      } else {
        AheadStep(s, i, start, size);
        AdjustFromOverrun(s, cap, i + 1, start, size);
      }
    }
  }

  /** When the only bank holding the hole lies ahead, the loop splits that bank and merges
      once: the banks before it are never touched, and the merge drops every empty bank. */
  lemma {:induction false} AdjustFromSingle(s: seq<Bank>, cap: nat, i: nat, start: nat, size: nat)
    requires Count(s, start, size) == 1
    requires Ahead(s, i, start, size) == 1 && NoneContain(s[..i], start, size)
    ensures AdjustFrom(s, cap, i, start, size).Some? ==>
      AdjustFrom(s, cap, i, start, size).value.live
        == NonZero(SplitAt(s, FirstHolder(s, start, size), start, size))
    decreases |s| - i
  {
    assert i < |s|;
    if Contains(s[i], start, size) {
      FirstHolderUnique(s, i, start, size);
      if |s| < cap {
        SplitCount(s, i, start, size);
        AdjustFromUnchanged(NonZero(SplitAt(s, i, start, size)), cap, i + 2, start, size);
      }
    } else {
      AheadStep(s, i, start, size);
      PrefixStep(s, i, start, size);
      AdjustFromSingle(s, cap, i + 1, start, size);
    }
  }

  /** The index bump after a split can skip a bank holding the hole: of two identical banks
      holding a hole at their lower edge, the first leaves an empty lower piece, the merge slides
      its upper piece under the index, and the loop moves past the second bank unsplit. */
  lemma TwoHoldersOneSplit()
    ensures var s := [Bank(0x1000, 0x1000, false), Bank(0x1000, 0x1000, false)];
      && Count(s, 0x1000, 0x800) == 2
      && AdjustFrom(s, 4, 0, 0x1000, 0x800)
         == Some(Ran([Bank(0x1800, 0x800, false), Bank(0x1000, 0x1000, false)], 1))
  {
    var b := Bank(0x1000, 0x1000, false);
    var s := [b, b];
    assert s[1..] == [b] && [b][1..] == [];
    var l, u := Lower(b, 0x1000), Upper(b, 0x1000, 0x800);
    assert SplitAt(s, 0, 0x1000, 0x800) == [l, u] + [b];
    NonZeroAppend([l, u], [b]);
    NonZeroPair(l, u);
    assert [b][1..] == [];
    assert NonZero([b]) == [b];
    var n := [u, b];
    assert NonZero(SplitAt(s, 0, 0x1000, 0x800)) == n;
    AdjustFromSplit(s, 4, 0, 0x1000, 0x800);
    AdjustFromEnd(n, 4, 2, 0x1000, 0x800);
  }

  /** A hole of size zero on the boundary of two adjacent banks is held by both; the lower
      bank is split into itself and an empty upper piece, which the merge drops, and the loop
      then moves past the upper bank: one split, the table unchanged, its flags included. */
  lemma EmptyHoleOnBoundary()
    ensures var s := [Bank(0x1000, 0x1000, true), Bank(0x2000, 0x1000, true)];
      && Count(s, 0x2000, 0) == 2
      && AdjustFrom(s, 4, 0, 0x2000, 0) == Some(Ran(s, 1))
  {
    var a, c := Bank(0x1000, 0x1000, true), Bank(0x2000, 0x1000, true);
    var s := [a, c];
    assert s[1..] == [c] && [c][1..] == [];
    var l, u := Lower(a, 0x2000), Upper(a, 0x2000, 0);
    assert l == a && u.size == 0;
    assert SplitAt(s, 0, 0x2000, 0) == [l, u] + [c];
    NonZeroAppend([l, u], [c]);
    NonZeroPair(l, u);
    assert NonZero([c]) == [c];
    assert NonZero(SplitAt(s, 0, 0x2000, 0)) == s;
    AdjustFromSplit(s, 4, 0, 0x2000, 0);
    AdjustFromEnd(s, 4, 2, 0x2000, 0);
  }

  /** The properties of the whole loop, from index 0. */
  lemma AdjustFromFacts(s: seq<Bank>, cap: nat, start: nat, size: nat)
    requires |s| <= cap && FitsWord(s) && start + size < WORD
    ensures |s| + Count(s, start, size) <= cap ==> AdjustFrom(s, cap, 0, start, size).Some?
    ensures Count(s, start, size) == 0 ==> AdjustFrom(s, cap, 0, start, size) == Some(Ran(s, 0))
    ensures Count(s, start, size) <= 1 ==>
      (AdjustFrom(s, cap, 0, start, size).None? <==> Count(s, start, size) == 1 && cap == |s|)
    ensures AdjustFrom(s, cap, 0, start, size).Some? ==>
      var r := AdjustFrom(s, cap, 0, start, size).value;
      && |r.live| <= cap && FitsWord(r.live)
      && r.splits <= Count(s, start, size)
      && (r.splits == 0 <==> Count(s, start, size) == 0)
      && |r.live| <= |s| + r.splits
      && TotalSize(r.live) + size * r.splits == TotalSize(s)
      && TotalSize(r.live) <= TotalSize(s)
      && (r.splits > 0 ==> NoZero(r.live))
      && (Count(s, start, size) == 1 ==> r.live == NonZero(IdealAdjust(s, start, size)))
      && (NoZero(s) && Count(s, start, size) <= 1 ==> r.live == IdealAdjust(s, start, size))
  {
    assert Tail(s, 0) == s;
    if |s| + Count(s, start, size) <= cap {
      AdjustFromRoom(s, cap, 0, start, size);
    }
    if Count(s, start, size) == 0 {
      AdjustFromUnchanged(s, cap, 0, start, size);
      IdealUnchanged(s, start, size);
    }
    if Count(s, start, size) <= 1 {
      AdjustFromOverrun(s, cap, 0, start, size);
    }
    AdjustFromSplits(s, cap, 0, start, size);
    AdjustFromShape(s, cap, 0, start, size);
    AdjustFromTotalSize(s, cap, 0, start, size);
    if AdjustFrom(s, cap, 0, start, size).Some? {
      MulNonNegative(size, AdjustFrom(s, cap, 0, start, size).value.splits);
    }
    AdjustFromFitsWord(s, cap, 0, start, size);
    if Count(s, start, size) == 1 {
      assert s[..0] == [];
      AdjustFromSingle(s, cap, 0, start, size);
      SplitIdeal(s, start, size);
    }
  }

  /** `adjust_meminfo`. Every live bank is examined in turn; a bank that holds the hole is
      split and the table merged at once, and the index then moves past the upper piece, so
      when merging removes banks at or below it, the banks that slide under the index are not
      examined. The kernel code never checks the capacity before opening a gap: `Overrun` is
      where it would write past the array. `splits` counts the banks split. */
  method AdjustMeminfo(m: MemInfo, start: nat, size: nat) returns (r: Outcome, ghost splits: nat)
    requires Valid(m) && FitsWord(Live(m)) && start + size < WORD
    ensures m.nrBanks + Count(Live(m), start, size) <= |m.bank| ==> r.Done?
    ensures Count(Live(m), start, size) == 0 ==> r == Done(m)
    ensures Count(Live(m), start, size) <= 1 ==>
              (r.Overrun? <==> Count(Live(m), start, size) == 1 && m.nrBanks == |m.bank|)
    ensures r.Done? ==> Valid(r.table) && |r.table.bank| == |m.bank| && FitsWord(Live(r.table))
    ensures r.Done? ==> splits <= Count(Live(m), start, size)
    ensures r.Done? ==> (splits == 0 <==> Count(Live(m), start, size) == 0)
    ensures r.Done? ==> r.table.nrBanks <= m.nrBanks + splits
    ensures r.Done? ==> TotalSize(Live(r.table)) + size * splits == TotalSize(Live(m))
    ensures r.Done? ==> TotalSize(Live(r.table)) <= TotalSize(Live(m))
    ensures r.Done? && splits > 0 ==> NoZero(Live(r.table))
    ensures r.Done? && Count(Live(m), start, size) == 1 ==>
              Live(r.table) == NonZero(IdealAdjust(Live(m), start, size))
    ensures r.Done? && NoZero(Live(m)) && Count(Live(m), start, size) <= 1 ==>
              Live(r.table) == IdealAdjust(Live(m), start, size)
  {
    var overrun, t;
    overrun, t, splits := AdjustLoop(m, start, size);
    AdjustFromFacts(Live(m), |m.bank|, start, size);
    CountZero(Live(m), start, size);
    r := if overrun then Overrun else Done(t);
  }

  /** The loop itself, run until it ends or is about to open a gap in a full array. It keeps
      to the course `AdjustFrom` describes: what is left of that course from the current table
      and index, plus the splits made so far, is the course from the start. */
  method AdjustLoop(m: MemInfo, start: nat, size: nat) returns (overrun: bool, t: MemInfo, ghost splits: nat)
    requires Valid(m)
    ensures Valid(t) && |t.bank| == |m.bank|
    ensures overrun <==> AdjustFrom(Live(m), |m.bank|, 0, start, size).None?
    ensures !overrun ==> AdjustFrom(Live(m), |m.bank|, 0, start, size) == Some(Ran(Live(t), splits))
    ensures NoneContain(Live(m), start, size) ==> t == m
  {
    t := m;
    var i := 0;
    splits := 0;
    while i < t.nrBanks
      invariant Valid(t) && |t.bank| == |m.bank|
      invariant AdjustFrom(Live(m), |m.bank|, 0, start, size)
             == Plus(AdjustFrom(Live(t), |m.bank|, i, start, size), splits)
      invariant NoneContain(Live(m), start, size) ==> t == m
      decreases t.nrBanks - i
    {
      ghost var s := Live(t);
      assert s[i] == t.bank[i];
      if start + size <= t.bank[i].start + t.bank[i].size && start >= t.bank[i].start {
        if t.nrBanks == |t.bank| {
          AdjustFromFull(s, |m.bank|, i, start, size);
          return true, t, splits;
        }
        AdjustFromSplit(s, |m.bank|, i, start, size);
        t := SplitAndMerge(t, i, start, size);
        PlusPlus(AdjustFrom(Live(t), |m.bank|, i + 2, start, size), 1, splits);
        i, splits := i + 2, splits + 1;
      } else {
        AdjustFromSkip(s, |m.bank|, i, start, size);
        i := i + 1;
      }
    }
    AdjustFromEnd(Live(t), |m.bank|, i, start, size);
    overrun := false;
  }

  /** The banks ahead of index `i`: bank `i` itself, then those ahead of `i + 1`. */
  lemma AheadStep(s: seq<Bank>, i: nat, start: nat, size: nat)
    requires i < |s|
    ensures Ahead(s, i, start, size)
         == (if Contains(s[i], start, size) then 1 else 0) + Ahead(s, i + 1, start, size)
  {
    assert Tail(s, i)[0] == s[i];
    assert Tail(s, i)[1..] == Tail(s, i + 1);
  }

  /** Passing a bank that does not hold the hole keeps the examined prefix free of it. */
  lemma PrefixStep(s: seq<Bank>, i: nat, start: nat, size: nat)
    requires i < |s| && !Contains(s[i], start, size) && NoneContain(s[..i], start, size)
    ensures NoneContain(s[..i + 1], start, size)
  {
    assert s[..i + 1] == s[..i] + [s[i]];
  }

  /** The first bank holding the hole is the one the scan reaches first. */
  lemma FirstHolderUnique(s: seq<Bank>, i: nat, start: nat, size: nat)
    requires i < |s| && Contains(s[i], start, size) && NoneContain(s[..i], start, size)
    ensures Count(s, start, size) > 0 && FirstHolder(s, start, size) == i
  {
    CountZero(s, start, size);
    var j := FirstHolder(s, start, size);
    forall k | 0 <= k < i
      ensures !Contains(s[k], start, size)
    {
      assert s[..i][k] == s[k];
    }
    forall k | 0 <= k < j
      ensures !Contains(s[k], start, size)
    {
      assert s[..j][k] == s[k];
    }
  }

  /** Splitting bank `i` and merging adds at most one bank, and leaves one bank fewer holding
      the hole from index i + 2 on than there were from index `i` on. */
  lemma SplitCount(s: seq<Bank>, i: nat, start: nat, size: nat)
    requires i < |s| && Contains(s[i], start, size)
    ensures var n := NonZero(SplitAt(s, i, start, size));
      && |n| <= |s| + 1
      && Ahead(n, i + 2, start, size) + 1 <= Ahead(s, i, start, size)
  {
    var a, c := s[..i] + [Lower(s[i], start), Upper(s[i], start, size)], s[i + 1..];
    assert SplitAt(s, i, start, size) == a + c;
    NonZeroAppend(a, c);
    var na, nc := NonZero(a), NonZero(c);
    TailAfter(na, nc, i + 2);
    CountTail(nc, i + 2 - |na|, start, size);
    CountNonZero(c, start, size);
    AheadStep(s, i, start, size);
    assert Tail(s, i + 1) == c;
  }

  /** Past the end of `x`, the tail of `x + y` is a tail of `y`. */
  lemma TailAfter(x: seq<Bank>, y: seq<Bank>, k: nat)
    requires |x| <= k
    ensures Tail(x + y, k) == Tail(y, k - |x|)
  {
    if k <= |x + y| {
      assert (x + y)[k..] == y[k - |x|..];
    }
  }

  /** Splitting bank `i` and merging removes exactly the hole from the covered memory. */
  lemma SplitTotalSize(s: seq<Bank>, i: nat, start: nat, size: nat)
    requires i < |s| && Contains(s[i], start, size)
    ensures TotalSize(NonZero(SplitAt(s, i, start, size))) + size == TotalSize(s)
  {
    SplitAtTotalSize(s, i, start, size);
    TotalSizeNonZero(SplitAt(s, i, start, size));
  }

  lemma SplitFitsWord(s: seq<Bank>, i: nat, start: nat, size: nat)
    requires i < |s| && Contains(s[i], start, size)
    ensures FitsWord(s) && start + size < WORD ==>
      FitsWord(NonZero(SplitAt(s, i, start, size)))
  {
    var l, u := Lower(s[i], start), Upper(s[i], start, size);
    var pre, post := s[..i], s[i + 1..];
    assert SplitAt(s, i, start, size) == pre + [l, u] + post;
    if FitsWord(s) && start + size < WORD {
      assert FitsWord(pre) && FitsWord(post);
      assert FitsWord([l, u]);
      FitsWordAppend(pre, [l, u]);
      FitsWordAppend(pre + [l, u], post);
      NonZeroFitsWord(SplitAt(s, i, start, size));
    }
  }

  /** Splitting the one bank that holds the hole and merging is the idealised result with
      its empty banks dropped; in a table without empty banks, it is the idealised result. */
  lemma SplitIdeal(s: seq<Bank>, start: nat, size: nat)
    requires Count(s, start, size) == 1
    ensures var j := FirstHolder(s, start, size);
      && NonZero(SplitAt(s, j, start, size)) == NonZero(IdealAdjust(s, start, size))
      && (NoZero(s) ==> NonZero(SplitAt(s, j, start, size)) == IdealAdjust(s, start, size))
  {
    var j := FirstHolder(s, start, size);
    var pair := [Lower(s[j], start), Upper(s[j], start, size)];
    var pieces := Pieces(s[j], start, size);
    var pre, post := s[..j], s[j + 1..];
    IdealSingle(s, start, size);
    assert SplitAt(s, j, start, size) == pre + pair + post;
    NonZeroAppend(pre + pair, post);
    NonZeroAppend(pre, pair);
    NonZeroAppend(pre + pieces, post);
    NonZeroAppend(pre, pieces);
    NonZeroIdempotent(pair);
    if NoZero(s) {
      SplitNoZero(s, j, start, size);
    }
  }

  lemma SplitNoZero(s: seq<Bank>, i: nat, start: nat, size: nat)
    requires i < |s| && Contains(s[i], start, size) && NoZero(s)
    ensures NonZero(SplitAt(s, i, start, size))
            == s[..i] + Pieces(s[i], start, size) + s[i + 1..]
  {
    var pair := [Lower(s[i], start), Upper(s[i], start, size)];
    var pre, post := s[..i], s[i + 1..];
    assert SplitAt(s, i, start, size) == pre + pair + post;
    assert NoZero(pre) && NoZero(post);
    NonZeroOfNoZero(pre);
    NonZeroOfNoZero(post);
    NonZeroAppend(pre + pair, post);
    NonZeroAppend(pre, pair);
  }
}
