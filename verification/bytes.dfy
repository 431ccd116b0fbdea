/** Byte memory as the bridge sees it: unsigned bytes, little-endian words, and the
    two helper loops every translation is built from. */
module Bytes {
  type byte = b: int | 0 <= b < 0x100
  type u32 = v: int | 0 <= v < 0x1_0000_0000

  /** The little-endian word at `p`. */
  function Rd32(m: seq<byte>, p: nat): (r: u32)
    requires p + 4 <= |m|
  {
    var b0: int, b1: int, b2: int, b3: int := m[p], m[p + 1], m[p + 2], m[p + 3];
    b0 + 0x100 * b1 + 0x1_0000 * b2 + 0x100_0000 * b3
  }

  /** The `n` low bytes of `v`, least significant first. */
  function LittleEndian(v: nat, n: nat): (r: seq<byte>)
    ensures |r| == n
  {
    if n == 0 then [] else [v % 0x100] + LittleEndian(v / 0x100, n - 1)
  }

  /** `m` with `data` written over it from `at` on. */
  function Blit(m: seq<byte>, at: nat, data: seq<byte>): (r: seq<byte>)
    requires at + |data| <= |m|
    ensures |r| == |m|
    ensures r[..at] == m[..at] && r[at..at + |data|] == data && r[at + |data|..] == m[at + |data|..]
  {
    m[..at] + data + m[at + |data|..]
  }

  function Zeros(n: nat): (r: seq<byte>) {
    seq(n, _ => 0)
  }

  /** Writing a word and reading it back is the identity. */
  lemma Rd32OfLittleEndian(v: u32)
    ensures Rd32(LittleEndian(v, 4), 0) == v
  {
    var v1, v2, v3 := v / 0x100, v / 0x1_0000, v / 0x100_0000;
    assert LittleEndian(v, 4) == [v % 0x100] + LittleEndian(v1, 3);
    assert LittleEndian(v1, 3) == [v1 % 0x100] + LittleEndian(v2, 2);
    assert LittleEndian(v2, 2) == [v2 % 0x100] + LittleEndian(v3, 1);
    assert LittleEndian(v3, 1) == [v3 % 0x100] + LittleEndian(v3 / 0x100, 0);
  }

  /** The number some bytes stand for, least significant first. */
  function Value(b: seq<byte>): (v: nat) {
    if b == [] then 0 else b[0] + 0x100 * Value(b[1..])
  }

  /** The numbers of `n` bytes. */
  function Span(n: nat): (r: nat) {
    if n == 0 then 1 else 0x100 * Span(n - 1)
  }

  /** Writing a number of any width and reading it back is the identity. */
  lemma {:induction false} ValueOfLittleEndian(v: nat, n: nat)
    requires v < Span(n)
    ensures Value(LittleEndian(v, n)) == v
  {
    if n > 0 {
      ValueOfLittleEndian(v / 0x100, n - 1);
      assert LittleEndian(v, n)[1..] == LittleEndian(v / 0x100, n - 1);
    }
  }

  /** A word is the number its four bytes stand for. */
  lemma WordValue(m: seq<byte>, p: nat)
    requires p + 4 <= |m|
    ensures Value(m[p..p + 4]) == Rd32(m, p)
  {
    var w := m[p..p + 4];
    assert Value(w) == w[0] + 0x100 * Value(w[1..]);
    assert Value(w[1..]) == w[1] + 0x100 * Value(w[2..]) by { assert w[1..][1..] == w[2..]; }
    assert Value(w[2..]) == w[2] + 0x100 * Value(w[3..]) by { assert w[2..][1..] == w[3..]; }
    assert Value(w[3..]) == w[3] by { assert w[3..][1..] == []; }
  }

  lemma WordAndDouble()
    ensures Span(4) == 0x1_0000_0000 && Span(8) == 0x1_0000_0000_0000_0000
  {
    assert Span(2) == 0x1_0000;
    assert Span(6) == 0x1_0000_0000_0000;
  }

  /** Reading a word depends on its four bytes only. */
  lemma Rd32Local(m: seq<byte>, p: nat, m': seq<byte>, p': nat)
    requires p + 4 <= |m| && p' + 4 <= |m'|
    requires m[p..p + 4] == m'[p'..p' + 4]
    ensures Rd32(m, p) == Rd32(m', p')
  {
    var w, w' := m[p..p + 4], m'[p'..p' + 4];
    assert m[p] == w[0] && m[p + 1] == w[1] && m[p + 2] == w[2] && m[p + 3] == w[3];
    assert m'[p'] == w'[0] && m'[p' + 1] == w'[1] && m'[p' + 2] == w'[2] && m'[p' + 3] == w'[3];
  }

  lemma SliceOfSlice<T>(s: seq<T>, a: nat, b: nat, c: nat, d: nat)
    requires a <= b <= |s| && c <= d <= b - a
    ensures s[a..b][c..d] == s[a + c..a + d]
  {
    var x, y := s[a..b][c..d], s[a + c..a + d];
    assert forall k :: 0 <= k < d - c ==> x[k] == y[k];
  }

  /** A write inside a window of memory is a write to the window. */
  lemma BlitWindow(m: seq<byte>, at: nat, size: nat, to: nat, data: seq<byte>)
    requires at + size <= |m| && to + |data| <= size
    ensures Blit(m, at + to, data) == Blit(m, at, Blit(m[at..at + size], to, data))
  {
    SliceOfSlice(m, at, at + size, 0, to);
    SliceOfSlice(m, at, at + size, to + |data|, size);
    assert m[..at + to] == m[..at] + m[at..at + to];
    assert m[at + to + |data|..] == m[at + to + |data|..at + size] + m[at + size..];
  }

  /** A second write over the same place hides the first. */
  lemma BlitTwice(m: seq<byte>, at: nat, x: seq<byte>, y: seq<byte>)
    requires at + |x| <= |m| && |x| == |y|
    ensures Blit(Blit(m, at, x), at, y) == Blit(m, at, y)
  {
    var once := Blit(m, at, x);
    assert once[..at] == m[..at] && once[at + |y|..] == m[at + |y|..];
  }

  lemma BlitOutside(m: seq<byte>, at: nat, data: seq<byte>, lo: nat, hi: nat)
    requires at + |data| <= |m| && lo <= hi <= |m| && (hi <= at || at + |data| <= lo)
    ensures Blit(m, at, data)[lo..hi] == m[lo..hi]
  {
    forall k | lo <= k < hi
      ensures Blit(m, at, data)[k] == m[k]
    {
    }
  }

  lemma BlitFront(front: seq<byte>, back: seq<byte>, at: nat, data: seq<byte>)
    requires at + |data| <= |front|
    ensures Blit(front + back, at, data) == Blit(front, at, data) + back
  {
    assert (front + back)[..at] == front[..at];
    assert (front + back)[at + |data|..] == front[at + |data|..] + back;
  }

  lemma BlitAll(m: seq<byte>, data: seq<byte>)
    requires |m| == |data|
    ensures Blit(m, 0, data) == data
  {
  }

  lemma BlitSame(m: seq<byte>, at: nat, n: nat)
    requires at + n <= |m|
    ensures Blit(m, at, m[at..at + n]) == m
  {
  }

  lemma BlitNothing(m: seq<byte>, at: nat)
    requires at <= |m|
    ensures Blit(m, at, []) == m
  {
  }

  lemma BlitNext(m: seq<byte>, at: nat, data: seq<byte>, b: byte)
    requires at + |data| + 1 <= |m|
    ensures Blit(m, at, data)[at + |data| := b] == Blit(m, at, data + [b])
  {
  }

  lemma LittleEndianNext(v: nat, rest: nat, i: nat, n: nat)
    requires i < n && LittleEndian(v, i) + LittleEndian(rest, n - i) == LittleEndian(v, n)
    ensures LittleEndian(v, i + 1) == LittleEndian(v, i) + [rest % 0x100]
    ensures LittleEndian(v, i + 1) + LittleEndian(rest / 0x100, n - i - 1) == LittleEndian(v, n)
  {
    LittleEndianPrefix(v, i + 1, n);
    assert LittleEndian(v, n)[..i + 1] == LittleEndian(v, i) + [rest % 0x100];
  }

  lemma {:induction false} LittleEndianPrefix(v: nat, i: nat, n: nat)
    requires i <= n
    ensures LittleEndian(v, i) == LittleEndian(v, n)[..i]
  {
    if i > 0 {
      LittleEndianPrefix(v / 0x100, i - 1, n - 1);
    }
  }

  method LoadWord(m: array<byte>, p: nat) returns (v: u32)
    requires p + 4 <= m.Length
    ensures v == Rd32(m[..], p)
  {
    var b0: int, b1: int, b2: int, b3: int := m[p], m[p + 1], m[p + 2], m[p + 3];
    v := b0 + 0x100 * b1 + 0x1_0000 * b2 + 0x100_0000 * b3;
  }

  /** `wr32` and `wr64`: a value stored byte by byte, low byte first. */
  method Store(buf: array<byte>, at: nat, v: nat, n: nat)
    requires at + n <= buf.Length
    modifies buf
    ensures buf[..] == Blit(old(buf[..]), at, LittleEndian(v, n))
  {
    hide Blit;
    ghost var before := buf[..];
    var rest := v;
    BlitNothing(before, at);
    for i := 0 to n
      invariant LittleEndian(v, i) + LittleEndian(rest, n - i) == LittleEndian(v, n)
      invariant buf[..] == Blit(before, at, LittleEndian(v, i))
    {
      LittleEndianNext(v, rest, i, n);
      BlitNext(before, at, LittleEndian(v, i), rest % 0x100);
      buf[at + i] := rest % 0x100;
      rest := rest / 0x100;
    }
  }

  /** Two fields written to disjoint places: both are there, and nothing else moved. */
  lemma TwoFields(m: seq<byte>, x: nat, w: seq<byte>, y: nat, v: seq<byte>)
    requires x + |w| <= |m| && y + |v| <= |m| && (x + |w| <= y || y + |v| <= x)
    ensures var r := Blit(Blit(m, x, w), y, v);
      && r[x..x + |w|] == w && r[y..y + |v|] == v
      && forall a :: 0 <= a < |m| && !(x <= a < x + |w|) && !(y <= a < y + |v|) ==> r[a] == m[a]
  {
    var one := Blit(m, x, w);
    BlitOutside(one, y, v, x, x + |w|);
    forall a | 0 <= a < |m| && !(x <= a < x + |w|) && !(y <= a < y + |v|)
      ensures Blit(one, y, v)[a] == m[a]
    {
      BlitOutside(one, y, v, a, a + 1);
      BlitOutside(m, x, w, a, a + 1);
      assert Blit(one, y, v)[a..a + 1][0] == one[a..a + 1][0] == m[a..a + 1][0];
    }
  }

  method MemZero(d: array<byte>, at: nat, n: nat)
    requires at + n <= d.Length
    modifies d
    ensures d[..] == Blit(old(d[..]), at, Zeros(n))
  {
    hide Blit;
    ghost var before := d[..];
    BlitNothing(before, at);
    for i := 0 to n
      invariant d[..] == Blit(before, at, Zeros(i))
    {
      BlitNext(before, at, Zeros(i), 0);
      assert Zeros(i) + [0] == Zeros(i + 1);
      d[at + i] := 0;
    }
  }

  method MemCopy(d: array<byte>, at: nat, s: array<byte>, from: nat, n: nat)
    requires at + n <= d.Length && from + n <= s.Length && d != s
    modifies d
    ensures d[..] == Blit(old(d[..]), at, s[..][from..from + n])
  {
    hide Blit;
    ghost var before, data := d[..], s[..];
    BlitNothing(before, at);
    for i := 0 to n
      invariant s[..] == data && d[..] == Blit(before, at, data[from..from + i])
    {
      BlitNext(before, at, data[from..from + i], data[from + i]);
      assert data[from..from + i] + [data[from + i]] == data[from..from + i + 1];
      d[at + i] := s[from + i];
    }
  }
}
