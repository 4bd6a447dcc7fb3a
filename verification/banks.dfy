/** The memory-bank table that early ARM boot code keeps in the global `meminfo`,
    and the facts about sequences of banks that the operations on it rely on. */
module Banks {

  /** Addresses and sizes on this platform are 32-bit (`unsigned long`, `phys_addr_t`). */
  const WORD: nat := 0x1_0000_0000

  /** One `struct membank`: the physical range [start, start + size) and its high-memory flag. */
  datatype Bank = Bank(start: nat, size: nat, highmem: bool)

  /** First address past the bank. */
  function End(b: Bank): nat {
    b.start + b.size
  }

  /** `struct meminfo`: a fixed-capacity array of banks, of which the first `nrBanks` are live.
      The capacity (`NR_BANKS`) is the length of `bank`. */
  datatype MemInfo = MemInfo(nrBanks: nat, bank: seq<Bank>)

  predicate Valid(m: MemInfo) {
    m.nrBanks <= |m.bank|
  }

  /** The live banks, `bank[0 .. nr_banks)`. */
  function Live(m: MemInfo): seq<Bank>
    requires Valid(m)
  {
    m.bank[..m.nrBanks]
  }

  /** The result of an operation that may write past the end of the bank array:
      `Overrun` marks the point where the kernel code would do so. */
  datatype Outcome = Done(table: MemInfo) | Overrun

  /** The suffix of `s` from index `i`, empty once `i` has run past the end. */
  function Tail(s: seq<Bank>, i: nat): seq<Bank> {
    if i <= |s| then s[i..] else []
  }

  /** No bank ends past the 32-bit address space, so `start + size` never wraps. */
  predicate FitsWord(s: seq<Bank>) {
    forall k :: 0 <= k < |s| ==> End(s[k]) < WORD
  }

  lemma FitsWordAppend(a: seq<Bank>, b: seq<Bank>)
    ensures FitsWord(a + b) <==> FitsWord(a) && FitsWord(b)
  {
    forall k | 0 <= k < |a| ensures (a + b)[k] == a[k] { }
    forall k | 0 <= k < |b| ensures (a + b)[|a| + k] == b[k] { }
    if FitsWord(a) && FitsWord(b) {
      forall k | 0 <= k < |a + b|
        ensures End((a + b)[k]) < WORD
      {
        if k >= |a| {
          assert (a + b)[k] == b[k - |a|];
        }
      }
    }
  }

  // ---------------------------------------------------------------------------
  // Empty banks

  predicate NoZero(s: seq<Bank>) {
    forall k :: 0 <= k < |s| ==> s[k].size != 0
  }

  lemma NoZeroAppend(a: seq<Bank>, b: seq<Bank>)
    ensures NoZero(a + b) <==> NoZero(a) && NoZero(b)
  {
    forall k | 0 <= k < |a| ensures (a + b)[k] == a[k] { }
    forall k | 0 <= k < |b| ensures (a + b)[|a| + k] == b[k] { }
    if NoZero(a) && NoZero(b) {
      forall k | 0 <= k < |a + b|
        ensures (a + b)[k].size != 0
      {
        if k >= |a| {
          assert (a + b)[k] == b[k - |a|];
        }
      }
    }
  }

  /** The non-empty banks of `s`, in their original order. */
  function NonZero(s: seq<Bank>): (r: seq<Bank>)
    ensures |r| <= |s|
    ensures NoZero(r)
  {
    if |s| == 0 then []
    else if s[0].size == 0 then NonZero(s[1..])
    else [s[0]] + NonZero(s[1..])
  }

  /** How many banks of `s` are empty. */
  function ZeroCount(s: seq<Bank>): nat {
    if |s| == 0 then 0 else (if s[0].size == 0 then 1 else 0) + ZeroCount(s[1..])
  }

  /** Filtering out the empty banks shortens `s` by exactly the number of empty banks. */
  lemma {:induction false} NonZeroLength(s: seq<Bank>)
    ensures |NonZero(s)| + ZeroCount(s) == |s|
  {
    if |s| > 0 {
      NonZeroLength(s[1..]);
    }
  }

  lemma {:induction false} NonZeroAppend(a: seq<Bank>, b: seq<Bank>)
    ensures NonZero(a + b) == NonZero(a) + NonZero(b)
  {
    if |a| == 0 {
      assert a + b == b;
    } else {
      assert (a + b)[0] == a[0];
      assert (a + b)[1..] == a[1..] + b;
      NonZeroAppend(a[1..], b);
    }
  }

  /** A table without empty banks is left as it is. */
  lemma {:induction false} NonZeroOfNoZero(s: seq<Bank>)
    requires NoZero(s)
    ensures NonZero(s) == s
  {
    if |s| > 0 {
      NonZeroOfNoZero(s[1..]);
    }
  }

  /** Dropping banks keeps every bank inside the address space. */
  lemma {:induction false} NonZeroFitsWord(s: seq<Bank>)
    requires FitsWord(s)
    ensures FitsWord(NonZero(s))
  {
    if |s| > 0 {
      NonZeroFitsWord(s[1..]);
      FitsWordAppend([s[0]], NonZero(s[1..]));
    }
  }

  /** The non-empty banks of a two-element table, spelled out. */
  lemma NonZeroPair(a: Bank, b: Bank)
    ensures NonZero([a, b]) == (if a.size == 0 then [] else [a]) + (if b.size == 0 then [] else [b])
  {
    assert [a, b][1..] == [b] && [b][1..] == [];
  }

  /** Dropping the empty banks twice is the same as dropping them once. */
  lemma NonZeroIdempotent(s: seq<Bank>)
    ensures NonZero(NonZero(s)) == NonZero(s)
  {
    NonZeroOfNoZero(NonZero(s));
  }

  // ---------------------------------------------------------------------------
  // Covered memory

  /** The number of bytes the banks of `s` cover, counted with multiplicity. */
  function TotalSize(s: seq<Bank>): nat {
    if |s| == 0 then 0 else s[0].size + TotalSize(s[1..])
  }

  lemma {:induction false} TotalSizeAppend(a: seq<Bank>, b: seq<Bank>)
    ensures TotalSize(a + b) == TotalSize(a) + TotalSize(b)
  {
    if |a| == 0 {
      assert a + b == b;
    } else {
      assert (a + b)[1..] == a[1..] + b;
      TotalSizeAppend(a[1..], b);
    }
  }

  /** The covered size split around bank `i`. */
  lemma TotalSizeAt(s: seq<Bank>, i: nat)
    requires i < |s|
    ensures TotalSize(s) == TotalSize(s[..i]) + s[i].size + TotalSize(s[i + 1..])
  {
    assert s == s[..i] + s[i..];
    TotalSizeAppend(s[..i], s[i..]);
    assert s[i..][1..] == s[i + 1..];
  }

  /** Empty banks cover nothing, so dropping them keeps the covered size. */
  lemma {:induction false} TotalSizeNonZero(s: seq<Bank>)
    ensures TotalSize(NonZero(s)) == TotalSize(s)
  {
    if |s| > 0 {
      TotalSizeNonZero(s[1..]);
    }
  }

  // ---------------------------------------------------------------------------
  // Banks that hold a hole

  /** The hole [start, start + size) lies inside `b`: the test `adjust_meminfo` makes. */
  predicate Contains(b: Bank, start: nat, size: nat) {
    b.start <= start && start + size <= End(b)
  }

  /** How many banks of `s` hold the hole. */
  function Count(s: seq<Bank>, start: nat, size: nat): nat {
    if |s| == 0 then 0
    else (if Contains(s[0], start, size) then 1 else 0) + Count(s[1..], start, size)
  }

  predicate NoneContain(s: seq<Bank>, start: nat, size: nat) {
    forall k :: 0 <= k < |s| ==> !Contains(s[k], start, size)
  }

  lemma {:induction false} CountZero(s: seq<Bank>, start: nat, size: nat)
    ensures Count(s, start, size) == 0 <==> NoneContain(s, start, size)
  {
    if |s| > 0 {
      CountZero(s[1..], start, size);
      assert forall k :: 1 <= k < |s| ==> s[k] == s[1..][k - 1];
    }
  }

  lemma {:induction false} CountAppend(a: seq<Bank>, b: seq<Bank>, start: nat, size: nat)
    ensures Count(a + b, start, size) == Count(a, start, size) + Count(b, start, size)
  {
    if |a| == 0 {
      assert a + b == b;
    } else {
      assert (a + b)[1..] == a[1..] + b;
      CountAppend(a[1..], b, start, size);
    }
  }

  /** Dropping banks never adds a bank holding the hole. */
  lemma {:induction false} CountNonZero(s: seq<Bank>, start: nat, size: nat)
    ensures Count(NonZero(s), start, size) <= Count(s, start, size)
  {
    if |s| > 0 {
      CountNonZero(s[1..], start, size);
      if s[0].size != 0 {
        assert NonZero(s) == [s[0]] + NonZero(s[1..]);
        CountAppend([s[0]], NonZero(s[1..]), start, size);
      }
    }
  }

  lemma {:induction false} CountTail(s: seq<Bank>, k: nat, start: nat, size: nat)
    ensures Count(Tail(s, k), start, size) <= Count(s, start, size)
  {
    if k <= |s| {
      assert s == s[..k] + s[k..];
      CountAppend(s[..k], s[k..], start, size);
    }
  }

  // ---------------------------------------------------------------------------
  // The two pieces of a split bank

  /** The part of `b` below the hole, [b.start, start); it keeps the high-memory flag. */
  function Lower(b: Bank, start: nat): Bank
    requires b.start <= start
  {
    b.(size := start - b.start)
  }

  /** The part of `b` above the hole, [start + size, End(b)); it is never high memory. */
  function Upper(b: Bank, start: nat, size: nat): Bank
    requires start + size <= End(b)
  {
    Bank(start + size, End(b) - (start + size), false)
  }

  /** The non-empty pieces that replace a bank holding the hole. */
  function Pieces(b: Bank, start: nat, size: nat): seq<Bank>
    requires Contains(b, start, size)
  {
    NonZero([Lower(b, start), Upper(b, start, size)])
  }

  /** The live banks with bank `i` replaced by its two pieces, empty or not: the table as
      `adjust_meminfo` leaves it just before merging. */
  function SplitAt(s: seq<Bank>, i: nat, start: nat, size: nat): seq<Bank>
    requires i < |s| && Contains(s[i], start, size)
  {
    s[..i] + [Lower(s[i], start), Upper(s[i], start, size)] + s[i + 1..]
  }

  /** Splitting a bank loses exactly the hole. */
  lemma SplitAtTotalSize(s: seq<Bank>, i: nat, start: nat, size: nat)
    requires i < |s| && Contains(s[i], start, size)
    ensures TotalSize(SplitAt(s, i, start, size)) + size == TotalSize(s)
  {
    var l, u := Lower(s[i], start), Upper(s[i], start, size);
    TotalSizeAt(s, i);
    TotalSizeAppend(s[..i] + [l, u], s[i + 1..]);
    TotalSizeAppend(s[..i], [l, u]);
    assert [l, u][1..] == [u] && [u][1..] == [];
    PiecesCover(s[i], start, size);
  }

  /** The two pieces together cover the bank less the hole, and lie inside the bank. */
  lemma PiecesCover(b: Bank, start: nat, size: nat)
    requires Contains(b, start, size)
    ensures Lower(b, start).size + Upper(b, start, size).size + size == b.size
    ensures Lower(b, start).start == b.start && End(Lower(b, start)) == start
    ensures Upper(b, start, size).start == start + size && End(Upper(b, start, size)) == End(b)
    ensures !Upper(b, start, size).highmem
  {
  }
}
