/** `memmove` on a fixed-length array, and the two gap moves the bank table uses. */
module Memmove {
  import opened Options

  /** Both the source and the destination range lie inside an array of `len` elements. */
  predicate InBounds(len: nat, dst: nat, src: nat, count: nat) {
    dst + count <= len && src + count <= len
  }

  /** `memmove(base + dst, base + src, count * sizeof(*base))`: the `count` elements starting at
      `src` are copied to `dst`, as if through a temporary buffer, so the ranges may overlap. */
  function Move<T>(s: seq<T>, dst: nat, src: nat, count: nat): (r: seq<T>)
    requires InBounds(|s|, dst, src, count)
    ensures |r| == |s|
    ensures forall k :: dst <= k < dst + count ==> r[k] == s[src + (k - dst)]
    ensures forall k :: 0 <= k < |s| && !(dst <= k < dst + count) ==> r[k] == s[k]
  {
    s[..dst] + s[src..src + count] + s[dst + count..]
  }

  /** Closing the gap at slot `i` of a table with `nr` live slots: slots i+1 .. nr-1 move down
      by one, the slots below `i` and from `nr - 1` on keep their contents. */
  function CloseGap<T>(s: seq<T>, i: nat, nr: nat): (r: seq<T>)
    requires i < nr <= |s|
    ensures |r| == |s|
    ensures r[..i] == s[..i]
    ensures r[i..nr - 1] == s[i + 1..nr]
    ensures r[nr - 1..] == s[nr - 1..]
  {
    Move(s, i, i + 1, nr - i - 1)
  }

  /** The move `merge_meminfo` issues: `nr - i` elements from slot i+1, which is one more than the
      live tail holds. `None` stands for a read past the end of the array. */
  function CloseGapAsWritten<T>(s: seq<T>, i: nat, nr: nat): Option<seq<T>>
    requires i < nr <= |s|
  {
    if InBounds(|s|, i, i + 1, nr - i) then Some(Move(s, i, i + 1, nr - i)) else None
  }

  /** On a full table the move as written reads the slot past the end of the array. */
  lemma CloseGapAsWrittenOverreadsFullTable<T>(s: seq<T>, i: nat)
    requires i < |s|
    ensures CloseGapAsWritten(s, i, |s|) == None
  {
  }

  /** Below capacity the move as written stays in bounds, and it leaves the same live slots as
      the corrected move; the two differ only in the slot that stops being live. */
  lemma CloseGapAsWrittenAgreesOnLive<T>(s: seq<T>, i: nat, nr: nat)
    requires i < nr < |s|
    ensures CloseGapAsWritten(s, i, nr).Some?
    ensures CloseGapAsWritten(s, i, nr).value[..nr - 1] == CloseGap(s, i, nr)[..nr - 1]
  {
    var w := CloseGapAsWritten(s, i, nr).value;
    var c := CloseGap(s, i, nr);
    assert forall k :: 0 <= k < nr - 1 ==> w[k] == c[k];
  }

  /** Opening a gap at slot `i` of a table with `nr` live slots, as `adjust_meminfo` does:
      slots i .. nr-1 move up by one, so slot `i` now appears twice and the table grows into
      slot `nr`, which must exist. */
  function OpenGap<T>(s: seq<T>, i: nat, nr: nat): (r: seq<T>)
    requires i <= nr < |s|
    ensures |r| == |s|
    ensures r[..i + 1] == s[..i + 1]
    ensures r[i + 1..nr + 1] == s[i..nr]
    ensures r[nr + 1..] == s[nr + 1..]
  {
    Move(s, i + 1, i, nr - i)
  }
}
