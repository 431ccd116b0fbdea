/** In-place widening of an array of records. The specification builds the wide records out of
    place; the bridge builds them from the last to the first in one overlapping buffer. */
module Widening {
  import opened Bytes
  import opened Records

  /** The offset of record `i` in an array of records of `size` bytes. */
  function Offset(i: nat, size: nat): (r: nat) {
    i * size
  }

  lemma OffsetNext(i: nat, n: nat, size: nat)
    requires i < n
    ensures Offset(i + 1, size) == Offset(i, size) + size <= Offset(n, size) && Offset(0, size) == 0
  {
  }

  lemma OffsetGrows(n: nat, small: nat, large: nat)
    requires small <= large
    ensures Offset(n, small) <= Offset(n, large) && Offset(small, n) <= Offset(large, n)
  {
  }

  /** The byte string of the `i`-th of several equal-sized records. */
  function RecordAt(m: seq<byte>, base: nat, size: nat, i: nat): (r: seq<byte>)
    requires base + Offset(i, size) + size <= |m|
    ensures |r| == size
  {
    m[base + Offset(i, size)..base + Offset(i, size) + size]
  }

  /** Records `i` to `n - 1`, translated by the plan, one after the other. */
  function Packed(plan: seq<Seg>, m: seq<byte>, base: nat, inSize: nat, outSize: nat, i: nat, n: nat): (r: seq<byte>)
    requires i <= n && base + Offset(n, inSize) <= |m|
    ensures |r| == Offset(n, outSize) - Offset(i, outSize)
    decreases n - i
  {
    if i == n then []
    else
      OffsetNext(i, n, inSize);
      OffsetNext(i, n, outSize);
      Apply(plan, RecordAt(m, base, inSize, i), outSize) + Packed(plan, m, base, inSize, outSize, i + 1, n)
  }

  /** Memory once records `i` to `n - 1` are wide and the rest is as it was. */
  function Progress(plan: seq<Seg>, m: seq<byte>, base: nat, narrow: nat, wide: nat, i: nat, n: nat): (r: seq<byte>)
    requires i <= n && narrow <= wide && base + Offset(n, wide) <= |m|
    ensures |r| == |m|
  {
    OffsetGrows(n, narrow, wide);
    OffsetGrows(wide, i, n);
    m[..base + Offset(i, wide)] + Packed(plan, m, base, narrow, wide, i, n) + m[base + Offset(n, wide)..]
  }

  function Widen(plan: seq<Seg>, m: seq<byte>, base: nat, narrow: nat, wide: nat, n: nat): (r: seq<byte>)
    requires narrow <= wide && base + Offset(n, wide) <= |m|
    ensures |r| == |m|
  {
    Progress(plan, m, base, narrow, wide, 0, n)
  }

  /** Going downwards, the next narrow record is still intact when it is read, and writing it
      out wide is the next step. */
  lemma WidenStep(plan: seq<Seg>, m: seq<byte>, base: nat, narrow: nat, wide: nat, i: nat, n: nat)
    requires i < n && narrow <= wide && base + Offset(n, wide) <= |m|
    ensures base + Offset(i, narrow) + narrow <= |m| && base + Offset(i, wide) + wide <= |m|
    ensures var now := Progress(plan, m, base, narrow, wide, i + 1, n);
      var rec := m[base + Offset(i, narrow)..base + Offset(i, narrow) + narrow];
      now[base + Offset(i, narrow)..base + Offset(i, narrow) + narrow] == rec &&
      Progress(plan, m, base, narrow, wide, i, n) == Blit(now, base + Offset(i, wide), Apply(plan, rec, wide))
  {
    hide Apply, Offset, Packed, Blit;
    OffsetNext(i, n, narrow);
    OffsetNext(i, n, wide);
    OffsetGrows(i + 1, narrow, wide);
    OffsetGrows(n, narrow, wide);
    OffsetGrows(wide, i, n);
    var lo, at, end := base + Offset(i, narrow), base + Offset(i, wide), base + Offset(n, wide);
    var rec, done := m[lo..lo + narrow], Packed(plan, m, base, narrow, wide, i + 1, n);
    assert Packed(plan, m, base, narrow, wide, i, n) == Apply(plan, rec, wide) + done by {
      PackedStep(plan, m, base, narrow, wide, i, n);
    }
    PutBefore(m, at, Apply(plan, rec, wide), done, m[end..], lo, lo + narrow);
  }

  lemma PackedStep(plan: seq<Seg>, m: seq<byte>, base: nat, inSize: nat, outSize: nat, i: nat, n: nat)
    requires i < n && base + Offset(n, inSize) <= |m|
    ensures base + Offset(i, inSize) + inSize <= |m|
    ensures Packed(plan, m, base, inSize, outSize, i, n)
            == Apply(plan, RecordAt(m, base, inSize, i), outSize) + Packed(plan, m, base, inSize, outSize, i + 1, n)
  {
    hide Apply, Offset;
    OffsetNext(i, n, inSize);
  }

  lemma PutBefore(m: seq<byte>, at: nat, r: seq<byte>, done: seq<byte>, tail: seq<byte>, lo: nat, hi: nat)
    requires lo <= hi <= at + |r| <= |m|
    ensures var now := m[..at + |r|] + done + tail;
      now[lo..hi] == m[lo..hi] && Blit(now, at, r) == m[..at] + (r + done) + tail
  {
    var now := m[..at + |r|] + done + tail;
    assert now[..at] == m[..at] && now[at + |r|..] == done + tail;
  }

  /** The widened memory, read record by record. */
  lemma {:induction false} WidenedRecord(plan: seq<Seg>, m: seq<byte>, base: nat, narrow: nat, wide: nat, i: nat,
      n: nat)
    requires i < n && narrow <= wide && base + Offset(n, wide) <= |m|
    ensures base + Offset(i, narrow) + narrow <= |m| && base + Offset(i, wide) + wide <= |m|
    ensures RecordAt(Widen(plan, m, base, narrow, wide, n), base, wide, i)
            == Apply(plan, RecordAt(m, base, narrow, i), wide)
  {
    hide Apply, Offset;
    OffsetNext(i, n, narrow);
    OffsetNext(i, n, wide);
    OffsetGrows(n, narrow, wide);
    PackedRecord(plan, m, base, narrow, wide, 0, i, n);
    var packed := Packed(plan, m, base, narrow, wide, 0, n);
    var w := Widen(plan, m, base, narrow, wide, n);
    assert w[base..base + Offset(n, wide)] == packed;
    SliceOfSlice(w, base, base + Offset(n, wide), Offset(i, wide), Offset(i, wide) + wide);
  }

  lemma {:induction false} PackedRecord(plan: seq<Seg>, m: seq<byte>, base: nat, inSize: nat, outSize: nat,
      from: nat, i: nat, n: nat)
    requires from <= i < n && base + Offset(n, inSize) <= |m|
    ensures base + Offset(i, inSize) + inSize <= |m|
    ensures 0 <= Offset(i, outSize) - Offset(from, outSize) && Offset(i, outSize) + outSize <= Offset(n, outSize)
    ensures Packed(plan, m, base, inSize, outSize, from, n)[Offset(i, outSize) - Offset(from, outSize)..Offset(i, outSize) - Offset(from, outSize) + outSize]
            == Apply(plan, RecordAt(m, base, inSize, i), outSize)
    decreases i - from
  {
    hide Apply, Offset;
    OffsetNext(i, n, inSize);
    OffsetNext(i, n, outSize);
    OffsetNext(from, n, inSize);
    OffsetNext(from, n, outSize);
    OffsetGrows(outSize, from, i);
    var packed := Packed(plan, m, base, inSize, outSize, from, n);
    if from < i {
      OffsetGrows(outSize, from + 1, i);
      PackedRecord(plan, m, base, inSize, outSize, from + 1, i, n);
      var rest := Packed(plan, m, base, inSize, outSize, from + 1, n);
      var at := Offset(i, outSize) - Offset(from, outSize);
      assert packed[outSize..] == rest;
      assert packed[at..at + outSize] == rest[at - outSize..at];
    }
  }

  /** Translating upwards appends one record at a time. */
  lemma {:induction false} PackedAppend(plan: seq<Seg>, m: seq<byte>, base: nat, inSize: nat, outSize: nat, i: nat,
      n: nat)
    requires i <= n && base + Offset(n + 1, inSize) <= |m|
    ensures base + Offset(n, inSize) + inSize <= |m|
    ensures Packed(plan, m, base, inSize, outSize, i, n + 1)
            == Packed(plan, m, base, inSize, outSize, i, n) + Apply(plan, RecordAt(m, base, inSize, n), outSize)
    decreases n - i
  {
    hide Apply, Offset, RecordAt;
    OffsetNext(n, n + 1, inSize);
    PackedStep(plan, m, base, inSize, outSize, i, n + 1);
    if i < n {
      PackedStep(plan, m, base, inSize, outSize, i, n);
      PackedAppend(plan, m, base, inSize, outSize, i + 1, n);
    } else {
      assert Packed(plan, m, base, inSize, outSize, n + 1, n + 1) == [];
      assert Packed(plan, m, base, inSize, outSize, n, n) == [];
    }
  }

  /** Everything outside the `n` wide records is untouched. */
  lemma WidenFrame(plan: seq<Seg>, m: seq<byte>, base: nat, narrow: nat, wide: nat, n: nat)
    requires narrow <= wide && base + Offset(n, wide) <= |m|
    ensures var w := Widen(plan, m, base, narrow, wide, n);
      w[..base] == m[..base] && w[base + Offset(n, wide)..] == m[base + Offset(n, wide)..]
  {
    OffsetGrows(n, narrow, wide);
    var packed := Packed(plan, m, base, narrow, wide, 0, n);
    assert |m[..base]| == base && |packed| == Offset(n, wide);
  }
}
