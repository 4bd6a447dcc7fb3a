/** The idealised effect of punching a hole into the bank table: every bank that holds the hole
    is replaced by its non-empty pieces, every other bank stays where it is. `adjust_meminfo`
    agrees with this, up to dropping empty banks, whenever at most one bank holds the hole and
    the table has room for the extra bank; at most one bank holds a hole of positive size in a
    table of ordered, disjoint banks. */
module Ideal {
  import opened Banks

  /** What becomes of one bank. */
  function Split(b: Bank, start: nat, size: nat): seq<Bank> {
    if Contains(b, start, size) then Pieces(b, start, size) else [b]
  }

  function IdealAdjust(s: seq<Bank>, start: nat, size: nat): seq<Bank> {
    if |s| == 0 then [] else Split(s[0], start, size) + IdealAdjust(s[1..], start, size)
  }

  /** A hole that no bank holds leaves the table as it is. */
  lemma {:induction false} IdealUnchanged(s: seq<Bank>, start: nat, size: nat)
    requires Count(s, start, size) == 0
    ensures IdealAdjust(s, start, size) == s
  {
    if |s| > 0 {
      IdealUnchanged(s[1..], start, size);
      assert s == [s[0]] + s[1..];
    }
  }

  /** Each bank holding the hole turns into at most two banks. */
  lemma {:induction false} IdealLength(s: seq<Bank>, start: nat, size: nat)
    ensures |IdealAdjust(s, start, size)| <= |s| + Count(s, start, size)
  {
    if |s| > 0 {
      IdealLength(s[1..], start, size);
    }
  }

  /** `e` lies inside `b`. */
  predicate Within(e: Bank, b: Bank) {
    b.start <= e.start && End(e) <= End(b)
  }

  /** Adjacent banks are in ascending order and do not overlap. */
  predicate Ordered(s: seq<Bank>) {
    forall k :: 0 <= k < |s| - 1 ==> End(s[k]) <= s[k + 1].start
  }

  /** The shape of a bank table once it has been sorted and merged. */
  predicate WellFormed(s: seq<Bank>) {
    NoZero(s) && Ordered(s)
  }

  /** The index of the first bank holding the hole. */
  function FirstHolder(s: seq<Bank>, start: nat, size: nat): (j: nat)
    requires Count(s, start, size) > 0
    ensures j < |s| && Contains(s[j], start, size)
    ensures NoneContain(s[..j], start, size)
  {
    if Contains(s[0], start, size) then 0
    else
      var j := 1 + FirstHolder(s[1..], start, size);
      assert s[..j] == [s[0]] + s[1..][..j - 1];
      j
  }

  /** Banks are split independently of each other. */
  lemma {:induction false} IdealAppend(a: seq<Bank>, b: seq<Bank>, start: nat, size: nat)
    ensures IdealAdjust(a + b, start, size) == IdealAdjust(a, start, size) + IdealAdjust(b, start, size)
  {
    if |a| == 0 {
      assert a + b == b;
    } else {
      assert (a + b)[0] == a[0];
      assert (a + b)[1..] == a[1..] + b;
      IdealAppend(a[1..], b, start, size);
    }
  }

  /** With a single bank holding the hole, the ideal result replaces exactly that bank. */
  lemma IdealSingle(s: seq<Bank>, start: nat, size: nat)
    requires Count(s, start, size) == 1
    ensures var j := FirstHolder(s, start, size);
      IdealAdjust(s, start, size) == s[..j] + Pieces(s[j], start, size) + s[j + 1..]
  {
    var j := FirstHolder(s, start, size);
    var pre, post := s[..j], s[j + 1..];
    assert s == pre + [s[j]] + post;
    CountAppend(pre + [s[j]], post, start, size);
    CountAppend(pre, [s[j]], start, size);
    CountZero(pre, start, size);
    assert [s[j]][1..] == [];
    IdealReplacesOne(pre, s[j], post, start, size);
  }

  lemma IdealReplacesOne(pre: seq<Bank>, b: Bank, post: seq<Bank>, start: nat, size: nat)
    requires Count(pre, start, size) == 0 && Count(post, start, size) == 0
    requires Contains(b, start, size)
    ensures IdealAdjust(pre + [b] + post, start, size) == pre + Pieces(b, start, size) + post
  {
    var pieces := Pieces(b, start, size);
    assert [b][1..] == [];
    IdealUnchanged(pre, start, size);
    IdealUnchanged(post, start, size);
    assert pre + [b] + post == pre + ([b] + post);
    IdealAppend(pre, [b] + post, start, size);
    IdealAppend([b], post, start, size);
    assert pre + (pieces + post) == pre + pieces + post;
  }

  /** Every bank holding the hole loses exactly the hole's size. */
  lemma {:induction false} IdealTotalSize(s: seq<Bank>, start: nat, size: nat)
    ensures TotalSize(IdealAdjust(s, start, size)) + size * Count(s, start, size) == TotalSize(s)
  {
    if |s| > 0 {
      var b := s[0];
      var head, rest := Split(b, start, size), IdealAdjust(s[1..], start, size);
      var c := Count(s[1..], start, size);
      IdealTotalSize(s[1..], start, size);
      assert TotalSize(rest) + size * c == TotalSize(s[1..]);
      TotalSizeAppend(head, rest);
      if Contains(b, start, size) {
        PiecesCover(b, start, size);
        TotalSizeNonZero([Lower(b, start), Upper(b, start, size)]);
        assert TotalSize(head) + size == b.size;
        assert Count(s, start, size) == 1 + c;
        MulSucc(size, c);
      } else {
        assert TotalSize(head) == b.size;
        assert Count(s, start, size) == c;
      }
    }
  }

  lemma MulSucc(a: nat, c: nat)
    ensures a * (1 + c) == a + a * c
  {
  }

  lemma MulNonNegative(a: nat, c: nat)
    ensures a * c >= 0
  {
  }

  /** Pieces of a bank lie inside it. */
  lemma SplitWithin(b: Bank, start: nat, size: nat)
    ensures forall k :: 0 <= k < |Split(b, start, size)| ==> Within(Split(b, start, size)[k], b)
  {
    if Contains(b, start, size) {
      NonZeroPair(Lower(b, start), Upper(b, start, size));
    }
  }

  lemma {:induction false} IdealFitsWord(s: seq<Bank>, start: nat, size: nat)
    requires FitsWord(s)
    ensures FitsWord(IdealAdjust(s, start, size))
  {
    if |s| > 0 {
      var head := Split(s[0], start, size);
      SplitWithin(s[0], start, size);
      assert FitsWord(head);
      IdealFitsWord(s[1..], start, size);
      FitsWordAppend(head, IdealAdjust(s[1..], start, size));
    }
  }

  lemma {:induction false} IdealNoZero(s: seq<Bank>, start: nat, size: nat)
    requires NoZero(s)
    ensures NoZero(IdealAdjust(s, start, size))
  {
    if |s| > 0 {
      var head := Split(s[0], start, size);
      assert NoZero(head);
      IdealNoZero(s[1..], start, size);
      NoZeroAppend(head, IdealAdjust(s[1..], start, size));
    }
  }

  lemma {:induction false} OrderedAppend(a: seq<Bank>, b: seq<Bank>)
    requires Ordered(a) && Ordered(b)
    requires |a| > 0 && |b| > 0 ==> End(a[|a| - 1]) <= b[0].start
    ensures Ordered(a + b)
  {
    var ab := a + b;
    forall k | 0 <= k < |ab| - 1
      ensures End(ab[k]) <= ab[k + 1].start
    {
      if k < |a| - 1 {
        assert ab[k] == a[k] && ab[k + 1] == a[k + 1];
      } else if k == |a| - 1 {
        assert ab[k] == a[|a| - 1] && ab[k + 1] == b[0];
      } else {
        assert ab[k] == b[k - |a|] && ab[k + 1] == b[k - |a| + 1];
      }
    }
  }

  /** In an ordered table every bank ends before any later bank starts. */
  lemma {:induction false} OrderedApart(s: seq<Bank>, p: nat, q: nat)
    requires Ordered(s) && p < q < |s|
    ensures End(s[p]) <= s[q].start
    decreases q - p
  {
    if p + 1 < q {
      OrderedApart(s, p + 1, q);
    }
  }

  /** In an ordered table a hole of positive size lies in at most one bank. */
  lemma {:induction false} CountAtMostOne(s: seq<Bank>, start: nat, size: nat)
    requires Ordered(s) && size > 0
    ensures Count(s, start, size) <= 1
  {
    if |s| > 0 {
      CountAtMostOne(s[1..], start, size);
      if Contains(s[0], start, size) {
        forall q | 0 <= q < |s| - 1
          ensures !Contains(s[1..][q], start, size)
        {
          OrderedApart(s, 0, q + 1);
        }
        CountZero(s[1..], start, size);
      }
    }
  }

  /** Every bank of the ideal result starts no lower than the first bank of an ordered table. */
  lemma {:induction false} IdealStartsAbove(s: seq<Bank>, start: nat, size: nat)
    requires Ordered(s) && |s| > 0
    ensures forall k :: 0 <= k < |IdealAdjust(s, start, size)| ==>
      s[0].start <= IdealAdjust(s, start, size)[k].start
  {
    var head: seq<Bank>, rest: seq<Bank> := Split(s[0], start, size), IdealAdjust(s[1..], start, size);
    SplitWithin(s[0], start, size);
    if |s| > 1 {
      IdealStartsAbove(s[1..], start, size);
      assert End(s[0]) <= s[1].start;
    }
    forall k | 0 <= k < |head + rest|
      ensures s[0].start <= (head + rest)[k].start
    {
      if k >= |head| {
        assert (head + rest)[k] == rest[k - |head|];
      }
    }
  }

  lemma SplitOrdered(b: Bank, start: nat, size: nat)
    ensures Ordered(Split(b, start, size))
  {
    if Contains(b, start, size) {
      var l, u := Lower(b, start), Upper(b, start, size);
      NonZeroPair(l, u);
    }
  }

  /** Splitting the banks of a well-formed table keeps it well-formed. */
  lemma {:induction false} IdealWellFormed(s: seq<Bank>, start: nat, size: nat)
    requires WellFormed(s)
    ensures WellFormed(IdealAdjust(s, start, size))
  {
    IdealNoZero(s, start, size);
    if |s| > 0 {
      var head, rest := Split(s[0], start, size), IdealAdjust(s[1..], start, size);
      IdealWellFormed(s[1..], start, size);
      SplitOrdered(s[0], start, size);
      SplitWithin(s[0], start, size);
      if |head| > 0 && |rest| > 0 {
        IdealStartsAbove(s[1..], start, size);
        assert End(head[|head| - 1]) <= End(s[0]) <= s[1].start <= rest[0].start;
      }
      OrderedAppend(head, rest);
    }
  }
}
