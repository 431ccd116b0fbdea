/** Record translation between two struct layouts. Every translation of the bridge clears a
    record and then copies a few fields into it; a plan lists those copies in program order. */
module Records {
  import opened Bytes

  /** Copy `len` bytes at offset `from` of the source record to offset `to` of the target. */
  datatype Seg = Seg(to: nat, from: nat, len: nat) {
    predicate Covers(k: nat) { to <= k < to + len }
  }

  datatype Origin = Cleared | Byte(at: nat)

  /** Where byte `k` of the target comes from once all copies are done: the last copy wins. */
  function Source(plan: seq<Seg>, k: nat): (r: Origin)
  {
    if plan == [] then Cleared
    else
      var g := plan[|plan| - 1];
      if g.Covers(k) then Byte(g.from + (k - g.to)) else Source(plan[..|plan| - 1], k)
  }

  predicate Fits(plan: seq<Seg>, from: nat, to: nat)
  {
    forall g :: g in plan ==> g.from + g.len <= from && g.to + g.len <= to
  }

  ghost predicate TargetsApart(plan: seq<Seg>)
  {
    forall i, j :: 0 <= i < j < |plan| ==>
      plan[i].to + plan[i].len <= plan[j].to || plan[j].to + plan[j].len <= plan[i].to
  }

  ghost predicate SourcesApart(plan: seq<Seg>)
  {
    TargetsApart(Inverse(plan))
  }

  /** The same copies made in the other direction. */
  function Inverse(plan: seq<Seg>): (r: seq<Seg>)
  {
    seq(|plan|, i requires 0 <= i < |plan| => Seg(plan[i].from, plan[i].to, plan[i].len))
  }

  function ByteOf(o: Origin, rec: seq<byte>): (r: byte)
  {
    if o.Byte? && o.at < |rec| then rec[o.at] else 0
  }

  /** The target record, byte by byte. */
  function Apply(plan: seq<Seg>, rec: seq<byte>, size: nat): (r: seq<byte>)
    ensures |r| == size
  {
    seq(size, k requires 0 <= k < size => ByteOf(Source(plan, k), rec))
  }

  /** With disjoint targets every copied byte keeps its own, single origin. */
  lemma {:induction false} SourceOfSeg(plan: seq<Seg>, i: nat, k: nat)
    requires TargetsApart(plan) && i < |plan| && plan[i].Covers(k)
    ensures Source(plan, k) == Byte(plan[i].from + (k - plan[i].to))
  {
    if i < |plan| - 1 {
      SourceOfSeg(plan[..|plan| - 1], i, k);
    }
  }

  /** A byte no copy covers is cleared, and only such a byte is. */
  lemma {:induction false} ClearedIffUncovered(plan: seq<Seg>, k: nat)
    ensures Source(plan, k) == Cleared <==> forall g :: g in plan ==> !g.Covers(k)
  {
    if plan != [] {
      var n := |plan| - 1;
      ClearedIffUncovered(plan[..n], k);
      assert plan == plan[..n] + [plan[n]];
    }
  }

  /** Each field arrives whole. */
  lemma FieldArrives(plan: seq<Seg>, i: nat, rec: seq<byte>, size: nat)
    requires Fits(plan, |rec|, size) && TargetsApart(plan) && i < |plan|
    ensures var g := plan[i];
      g.to + g.len <= size && g.from + g.len <= |rec| &&
      Apply(plan, rec, size)[g.to..g.to + g.len] == rec[g.from..g.from + g.len]
  {
    var g := plan[i];
    assert g in plan;
    forall k | g.to <= k < g.to + g.len
      ensures Apply(plan, rec, size)[k] == rec[g.from + (k - g.to)]
    {
      SourceOfSeg(plan, i, k);
    }
  }

  /** A carried byte goes out and comes back along the same segment. */
  lemma OutAndBack(plan: seq<Seg>, p: nat)
    requires TargetsApart(plan) && SourcesApart(plan)
    ensures var o := Source(Inverse(plan), p);
      if Carries(plan, p) then o.Byte? && Source(plan, o.at) == Byte(p) else o == Cleared
  {
    hide Source;
    var back := Inverse(plan);
    if Carries(plan, p) {
      var i :| 0 <= i < |plan| && plan[i].from <= p < plan[i].from + plan[i].len;
      SourceOfSeg(back, i, p);
      SourceOfSeg(plan, i, plan[i].to + (p - plan[i].from));
    } else {
      ClearedIffUncovered(back, p);
    }
  }

  /** Some copy of the plan reads byte `p`. */
  ghost predicate Carries(plan: seq<Seg>, p: nat) {
    exists i :: 0 <= i < |plan| && plan[i].from <= p < plan[i].from + plan[i].len
  }

  lemma SourceInside(plan: seq<Seg>, from: nat, to: nat, k: nat)
    requires Fits(plan, from, to) && Source(plan, k).Byte?
    ensures Source(plan, k).at < from && k < to
  {
    var g := plan[|plan| - 1];
    assert g in plan;
    if !g.Covers(k) {
      SourceInside(plan[..|plan| - 1], from, to, k);
    }
  }

  lemma InverseFits(plan: seq<Seg>, from: nat, to: nat)
    requires Fits(plan, from, to)
    ensures Fits(Inverse(plan), to, from)
  {
    forall h | h in Inverse(plan)
      ensures h.from + h.len <= to && h.to + h.len <= from
    {
      var i :| 0 <= i < |plan| && Inverse(plan)[i] == h;
      assert plan[i] in plan;
    }
  }

  /** Copying back along the inverse plan restores every byte that was carried over and clears
      the rest, so the plan keeps exactly the bytes it names. */
  lemma InverseRestores(plan: seq<Seg>, rec: seq<byte>, size: nat, p: nat)
    requires Fits(plan, |rec|, size) && TargetsApart(plan) && SourcesApart(plan) && p < |rec|
    ensures Apply(Inverse(plan), Apply(plan, rec, size), |rec|)[p] == if Carries(plan, p) then rec[p] else 0
  {
    hide Fits, TargetsApart, SourcesApart, Source, Inverse, Carries;
    OutAndBack(plan, p);
    if Carries(plan, p) {
      InverseFits(plan, |rec|, size);
      SourceInside(Inverse(plan), size, |rec|, p);
      assert Apply(plan, rec, size)[Source(Inverse(plan), p).at] == rec[p];
    }
  }

  lemma {:induction false} CoverOf(plan: seq<Seg>, k: nat) returns (i: nat)
    requires Source(plan, k).Byte?
    ensures i < |plan| && plan[i].Covers(k) && Source(plan, k).at == plan[i].from + (k - plan[i].to)
  {
    i := |plan| - 1;
    if !plan[i].Covers(k) {
      i := CoverOf(plan[..i], k);
    }
  }

  /** With disjoint sources no byte is copied to two places. */
  lemma SourceInjective(plan: seq<Seg>, k: nat, k': nat)
    requires SourcesApart(plan) && Source(plan, k).Byte? && Source(plan, k') == Source(plan, k)
    ensures k == k'
  {
    var i := CoverOf(plan, k);
    var j := CoverOf(plan, k');
    var back := Inverse(plan);
    assert back[i].to == plan[i].from && back[j].to == plan[j].from;
    assert back[i].len == plan[i].len && back[j].len == plan[j].len;
  }

  /** Writing one more segment over a half-built record is one more step of its plan. */
  lemma ApplyStep(done: seq<Seg>, g: Seg, rec: seq<byte>, size: nat)
    requires g.to + g.len <= size && g.from + g.len <= |rec|
    ensures Blit(Apply(done, rec, size), g.to, rec[g.from..g.from + g.len]) == Apply(done + [g], rec, size)
  {
    var w, data := Apply(done, rec, size), rec[g.from..g.from + g.len];
    assert (done + [g])[..|done|] == done;
    forall k | 0 <= k < size
      ensures Blit(w, g.to, data)[k] == Apply(done + [g], rec, size)[k]
    {
      if g.Covers(k) {
        assert Blit(w, g.to, data)[k] == data[k - g.to] == rec[g.from + (k - g.to)];
      } else {
        assert Blit(w, g.to, data)[k] == w[k];
      }
    }
  }

  /** One `mem_copy` of a translation, the `k`-th copy of its plan. Memory is `m` except for the
      half-built record at `at`, which takes one step. */
  method CopySeg(d: array<byte>, at: nat, size: nat, s: array<byte>, from: nat, len: nat,
                 g: Seg, ghost m: seq<byte>, ghost plan: seq<Seg>, ghost k: nat)
    requires d != s && at + size <= d.Length && from + len <= s.Length && |m| == d.Length
    requires k < |plan| && plan[k] == g && g.to + g.len <= size && g.from + g.len <= len
    requires d[..] == Blit(m, at, Apply(plan[..k], s[..][from..from + len], size))
    modifies d
    ensures d[..] == Blit(m, at, Apply(plan[..k + 1], s[..][from..from + len], size))
  {
    hide Apply, Blit;
    ghost var before, rec := d[..], s[..][from..from + len];
    MemCopy(d, at + g.to, s, from + g.from, g.len);
    SliceOfSlice(s[..], from, from + len, g.from, g.from + g.len);
    BlitWindow(before, at, size, g.to, rec[g.from..g.from + g.len]);
    ApplyStep(plan[..k], g, rec, size);
    assert plan[..k] + [g] == plan[..k + 1];
    BlitTwice(m, at, Apply(plan[..k], rec, size), Apply(plan[..k + 1], rec, size));
  }

  /** Fields in the same place in both records, one behind the other. */
  predicate InPlace(plan: seq<Seg>, at: nat, size: nat)
    decreases |plan|
  {
    plan != [] ==>
      var g := plan[0];
      at <= g.to == g.from && g.to + g.len <= size && InPlace(plan[1..], g.to + g.len, size)
  }

  lemma {:induction false} InPlaceAt(plan: seq<Seg>, at: nat, size: nat, i: nat)
    requires InPlace(plan, at, size) && i < |plan|
    ensures at <= plan[i].to == plan[i].from && plan[i].to + plan[i].len <= size
    decreases |plan|
  {
    if i > 0 {
      InPlaceAt(plan[1..], plan[0].to + plan[0].len, size, i - 1);
    }
  }

  lemma {:induction false} InPlaceApart(plan: seq<Seg>, at: nat, size: nat, i: nat, j: nat)
    requires InPlace(plan, at, size) && i < j < |plan|
    ensures plan[i].to + plan[i].len <= plan[j].to
    decreases |plan|
  {
    if i > 0 {
      InPlaceApart(plan[1..], plan[0].to + plan[0].len, size, i - 1, j - 1);
    } else {
      InPlaceAt(plan[1..], plan[0].to + plan[0].len, size, j - 1);
    }
  }

  lemma InPlaceIsProper(plan: seq<Seg>, at: nat, size: nat)
    requires InPlace(plan, at, size)
    ensures Fits(plan, size, size) && TargetsApart(plan) && Inverse(plan) == plan
  {
    hide InPlace;
    forall i | 0 <= i < |plan|
      ensures plan[i].to == plan[i].from && plan[i].to + plan[i].len <= size
    {
      InPlaceAt(plan, at, size, i);
    }
    forall i, j | 0 <= i < j < |plan|
      ensures plan[i].to + plan[i].len <= plan[j].to
    {
      InPlaceApart(plan, at, size, i, j);
    }
  }
}
