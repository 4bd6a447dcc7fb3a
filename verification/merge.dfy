/** `merge_meminfo`: compacting the bank table by deleting every empty bank. */
module Merge {
  import opened Banks
  import opened Memmove

  /** Walks the live banks; an empty bank is overwritten by closing the gap above it and the
      count drops, without advancing, so the bank moved into its slot is examined next. */
  method MergeMeminfo(m: MemInfo) returns (r: MemInfo)
    requires Valid(m)
    ensures Valid(r) && |r.bank| == |m.bank|
    ensures Live(r) == NonZero(Live(m))
    ensures r.nrBanks + ZeroCount(Live(m)) == m.nrBanks
    ensures NoZero(Live(r))
    ensures NoZero(Live(m)) ==> r == m
  {
    var bank, nr := m.bank, m.nrBanks;
    var i := 0;
    while i < nr
      invariant i <= nr <= |bank| == |m.bank|
      invariant bank[..i] + NonZero(bank[i..nr]) == NonZero(Live(m))
      invariant nr + ZeroCount(Live(m)) == m.nrBanks + ZeroCount(bank[i..nr])
      invariant NoZero(Live(m)) ==> bank == m.bank && nr == m.nrBanks
      decreases nr - i
    {
      if bank[i].size == 0 {
        DropStep(bank, i, nr);
        ghost var oldBank := bank;
        bank := CloseGap(bank, i, nr);
        nr := nr - 1;
        assert oldBank == m.bank && nr + 1 == m.nrBanks ==> oldBank[i] in Live(m);
        continue;
      }
      KeepStep(bank, i, nr);
      i := i + 1;
    }
    r := MemInfo(nr, bank);
    assert bank[nr..nr] == [];
    NonZeroLength(Live(m));
  }

  /** Merging an already merged table changes nothing, so merging twice is merging once. */
  method MergeTwice(m: MemInfo) returns (once: MemInfo, twice: MemInfo)
    requires Valid(m)
    ensures twice == once
    ensures Valid(once) && Live(once) == NonZero(Live(m))
  {
    once := MergeMeminfo(m);
    twice := MergeMeminfo(once);
  }

  /** Closing the gap over an empty bank at slot `i` changes neither the non-empty banks nor
      their order, and removes one empty bank from the unexamined part. */
  lemma DropStep(bank: seq<Bank>, i: nat, nr: nat)
    requires i < nr <= |bank| && bank[i].size == 0
    ensures CloseGap(bank, i, nr)[..i] + NonZero(CloseGap(bank, i, nr)[i..nr - 1])
         == bank[..i] + NonZero(bank[i..nr])
    ensures ZeroCount(CloseGap(bank, i, nr)[i..nr - 1]) + 1 == ZeroCount(bank[i..nr])
  {
    assert bank[i..nr][0] == bank[i] && bank[i..nr][1..] == bank[i + 1..nr];
  }

  /** Stepping over a non-empty bank moves it from the unexamined part to the kept prefix. */
  lemma KeepStep(bank: seq<Bank>, i: nat, nr: nat)
    requires i < nr <= |bank| && bank[i].size != 0
    ensures bank[..i + 1] + NonZero(bank[i + 1..nr]) == bank[..i] + NonZero(bank[i..nr])
    ensures ZeroCount(bank[i + 1..nr]) == ZeroCount(bank[i..nr])
  {
    assert bank[i..nr][0] == bank[i] && bank[i..nr][1..] == bank[i + 1..nr];
    assert bank[..i + 1] == bank[..i] + [bank[i]];
  }
}
