/** Rule-add requests: the daemon's rule records are narrowed into a bounded buffer in the old
    layout, and the handle and status the kernel leaves there are copied back. */
module Rules {
  import opened Bytes
  import opened Records
  import opened Widening

  const MAX_RULES := 8
  const ATTR_OLD := 152
  const ATTR_COMMON := 148
  const EQ_SIZE := 184

  /** Where a rule-add record of `size` bytes keeps the kernel's results. */
  datatype Words = Words(size: nat, hdl: nat, status: nat) {
    predicate Inside() {
      hdl + 4 <= size && status + 4 <= size && (hdl + 4 <= status || status + 4 <= hdl)
    }
  }

  /** Offsets in the daemon's rule-add records. The rule is at 0, its match attribute at 12. */
  datatype RuleLayout =
    | Rt(size: nat, maxPrio: nat, atRear: nat, hdl: nat, status: nat)
    | Flt(size: nat, eqAttrib: nat, rtTblIdx: nat, atRear: nat, hdl: nat, status: nat)
  {
    function OldRule(): (r: nat) { if Rt? then 168 else 360 }
    function OldAtRear(): (r: nat) { OldRule() }
    function OldAdd(): (r: nat) { OldRule() + 12 }
    function OldWords(): (r: Words) { Words(OldAdd(), OldRule() + 4, OldRule() + 8) }
    function NewWords(): (r: Words) { Words(size, hdl, status) }

    /** The copies that narrow one rule, in program order. */
    function RulePlan(): (r: seq<Seg>) {
      if Rt? then
        [Seg(0, 0, 12), Seg(12, 12, ATTR_COMMON), Seg(164, maxPrio, 4)]
      else
        [Seg(0, 0, 12), Seg(12, 12, ATTR_COMMON), Seg(164, eqAttrib, EQ_SIZE), Seg(348, rtTblIdx, 12)]
    }

    /** ... and the rule-add record around it. */
    function AddPlan(): (r: seq<Seg>) {
      RulePlan() + [Seg(OldAtRear(), atRear, 1)]
    }

    /** Fields inside the record and apart from each other. */
    ghost predicate Valid() {
      Fits(AddPlan(), size, OldAdd()) && SourcesApart(AddPlan()) && NewWords().Inside()
    }
  }

  /** Every byte of an old rule-add record up to the rear flag is a copy of one byte of the new
      record, except bytes 160 to 163; those and the kernel's result words are clear. No byte of
      the new record is used twice. */
  lemma RuleBytesPartition(lay: RuleLayout, k: nat, k': nat)
    requires lay.Valid() && k < lay.OldAdd() && k' < lay.OldAdd()
    ensures var o := Source(lay.AddPlan(), k);
      && (o == Cleared <==> 160 <= k < 164 || k > lay.OldAtRear())
      && (o.Byte? ==> o.at < lay.size)
      && (o.Byte? && k != k' ==> Source(lay.AddPlan(), k') != o)
  {
    hide SourcesApart, Source;
    var plan := lay.AddPlan();
    ClearedIffUncovered(plan, k);
    Coverage(lay, k);
    if Source(plan, k).Byte? {
      SourceInside(plan, lay.size, lay.OldAdd(), k);
      if Source(plan, k') == Source(plan, k) {
        SourceInjective(plan, k, k');
      }
    }
  }

  lemma Coverage(lay: RuleLayout, k: nat)
    requires k < lay.OldAdd()
    ensures (exists g :: g in lay.AddPlan() && g.Covers(k)) <==> !(160 <= k < 164 || k > lay.OldAtRear())
  {
    var plan := lay.AddPlan();
    assert plan[0] in plan && plan[1] in plan && plan[2] in plan && plan[3] in plan && plan[|plan| - 1] in plan;
    if k < 12 {
      assert plan[0].Covers(k);
    } else if k < 160 {
      assert plan[1].Covers(k);
    } else if k == lay.OldAtRear() {
      assert plan[|plan| - 1].Covers(k);
    } else if 164 <= k < lay.OldRule() {
      assert plan[2].Covers(k) || plan[3].Covers(k);
    }
  }

  lemma TargetsAreApart(lay: RuleLayout)
    ensures TargetsApart(lay.AddPlan())
  {
  }

  /** The fields by name. Both rules start with 12 bytes and the common attribute; a routing rule
      then has its maximal priority, a filter rule its equation and the fields from the routing
      table index on; the rear flag follows. */
  lemma NarrowedFields(lay: RuleLayout, rec: seq<byte>)
    requires lay.Valid() && |rec| == lay.size
    ensures var r := Apply(lay.AddPlan(), rec, lay.OldAdd());
      && lay.size >= 160 && lay.atRear < lay.size
      && r[..160] == rec[..160] && r[160..164] == [0, 0, 0, 0]
      && (lay.Rt? ==> lay.maxPrio + 4 <= lay.size && r[164..168] == rec[lay.maxPrio..lay.maxPrio + 4] && r[168] == rec[lay.atRear])
      && (lay.Flt? ==>
            && lay.eqAttrib + 184 <= lay.size && lay.rtTblIdx + 12 <= lay.size
            && r[164..348] == rec[lay.eqAttrib..lay.eqAttrib + 184] && r[348..360] == rec[lay.rtTblIdx..lay.rtTblIdx + 12]
            && r[360] == rec[lay.atRear])
  {
    var plan, unit := lay.AddPlan(), lay.OldAdd();
    TargetsAreApart(lay);
    hide Apply, Fits, TargetsApart, SourcesApart;
    var r := Apply(plan, rec, unit);
    FieldArrives(plan, 0, rec, unit);
    FieldArrives(plan, 1, rec, unit);
    FieldArrives(plan, 2, rec, unit);
    FieldArrives(plan, 3, rec, unit);
    if lay.Flt? {
      FieldArrives(plan, 4, rec, unit);
    }
    assert r[..160] == r[0..12] + r[12..160] && rec[..160] == rec[0..12] + rec[12..160];
    assert r[lay.OldAtRear()] == r[lay.OldAtRear()..lay.OldAtRear() + 1][0];
    forall k | 160 <= k < 164
      ensures r[k] == 0
    {
      ClearByte(lay, rec, k);
    }
  }

  lemma ClearByte(lay: RuleLayout, rec: seq<byte>, k: nat)
    requires lay.Valid() && |rec| == lay.size && 160 <= k < 164
    ensures k < lay.OldAdd() && Apply(lay.AddPlan(), rec, lay.OldAdd())[k] == 0
  {
    hide SourcesApart, Source, RuleLayout.AddPlan;
    RuleBytesPartition(lay, k, k);
  }

  /** Copying a narrowed rule back along the same offsets restores every byte it retained. */
  lemma RewideningRestores(lay: RuleLayout, rec: seq<byte>, i: nat, p: nat)
    requires lay.Valid() && |rec| == lay.size
    requires i < |lay.AddPlan()| && lay.AddPlan()[i].from <= p < lay.AddPlan()[i].from + lay.AddPlan()[i].len
    ensures p < |rec| && Apply(Inverse(lay.AddPlan()), Apply(lay.AddPlan(), rec, lay.OldAdd()), lay.size)[p] == rec[p]
  {
    TargetsAreApart(lay);
    hide TargetsApart, SourcesApart, Apply, Inverse, RuleLayout.AddPlan;
    assert lay.AddPlan()[i] in lay.AddPlan();
    InverseRestores(lay.AddPlan(), rec, lay.OldAdd(), p);
  }

  /** Clearing bytes no copy has touched changes nothing. */
  lemma ClearUntouched(plan: seq<Seg>, rec: seq<byte>, size: nat, p: nat, len: nat)
    requires p + len <= size
    requires forall g, k :: g in plan && p <= k < p + len ==> !g.Covers(k)
    ensures Blit(Apply(plan, rec, size), p, Zeros(len)) == Apply(plan, rec, size)
  {
    var w := Apply(plan, rec, size);
    forall k | p <= k < p + len
      ensures w[k] == 0
    {
      ClearedIffUncovered(plan, k);
    }
    assert w[p..p + len] == Zeros(len);
    BlitSame(w, p, len);
  }

  /** `mem_zero` of bytes of the record under construction that are still clear. */
  method ClearAgain(buf: array<byte>, at: nat, size: nat, p: nat, len: nat, ghost m: seq<byte>,
      ghost plan: seq<Seg>, ghost rec: seq<byte>)
    requires at + size <= buf.Length && p + len <= size && |m| == buf.Length
    requires forall g, k :: g in plan && p <= k < p + len ==> !g.Covers(k)
    requires buf[..] == Blit(m, at, Apply(plan, rec, size))
    modifies buf
    ensures buf[..] == Blit(m, at, Apply(plan, rec, size))
  {
    hide Apply, Blit;
    ghost var w, before := Apply(plan, rec, size), buf[..];
    MemZero(buf, at + p, len);
    BlitWindow(before, at, size, p, Zeros(len));
    ClearUntouched(plan, rec, size, p, len);
    BlitTwice(m, at, w, w);
  }

  lemma PlanStart(lay: RuleLayout)
    requires lay.Valid()
    ensures lay.AddPlan()[..1] == [Seg(0, 0, 12)] && lay.AddPlan()[..0] == []
    ensures lay.AddPlan()[..|lay.AddPlan()|] == lay.AddPlan()
    ensures forall i :: 0 <= i < |lay.AddPlan()| ==>
      lay.AddPlan()[i].from + lay.AddPlan()[i].len <= lay.size && lay.AddPlan()[i].to + lay.AddPlan()[i].len <= lay.OldAdd()
  {
    forall i | 0 <= i < |lay.AddPlan()|
      ensures lay.AddPlan()[i].from + lay.AddPlan()[i].len <= lay.size && lay.AddPlan()[i].to + lay.AddPlan()[i].len <= lay.OldAdd()
    {
      assert lay.AddPlan()[i] in lay.AddPlan();
    }
  }

  /** Narrows one rule-add record of `mem` into a clear record of `buf`. */
  method NarrowRule(buf: array<byte>, at: nat, mem: array<byte>, from: nat, lay: RuleLayout)
    requires lay.Valid() && buf != mem && at + lay.OldAdd() <= buf.Length && from + lay.size <= mem.Length
    requires buf[..][at..at + lay.OldAdd()] == Zeros(lay.OldAdd())
    modifies buf
    ensures buf[..] == Blit(old(buf[..]), at, Apply(lay.AddPlan(), mem[..][from..from + lay.size], lay.OldAdd()))
  {
    hide Apply, Blit, SourcesApart, Fits;
    ghost var m, plan, rec := buf[..], lay.AddPlan(), mem[..][from..from + lay.size];
    PlanStart(lay);
    var size := lay.OldAdd();
    assert m == Blit(m, at, Apply(plan[..0], rec, size)) by {
      NothingCopied(plan, rec, size);
      BlitSame(m, at, size);
    }
    ClearAgain(buf, at, size, 0, lay.OldRule(), m, plan[..0], rec);
    CopySeg(buf, at, size, mem, from, lay.size, Seg(0, 0, 12), m, plan, 0);
    ClearAgain(buf, at, size, 12, ATTR_OLD, m, plan[..1], rec);
    CopySeg(buf, at, size, mem, from, lay.size, Seg(12, 12, ATTR_COMMON), m, plan, 1);
    if lay.Rt? {
      FinishRt(buf, at, mem, from, lay, m);
    } else {
      FinishFlt(buf, at, mem, from, lay, m);
    }
  }

  /** The fields a routing rule has behind the attribute. */
  method FinishRt(buf: array<byte>, at: nat, mem: array<byte>, from: nat, lay: RuleLayout, ghost m: seq<byte>)
    requires lay.Rt? && lay.Valid() && buf != mem && at + lay.OldAdd() <= buf.Length && from + lay.size <= mem.Length
    requires |m| == buf.Length
    requires buf[..] == Blit(m, at, Apply(lay.AddPlan()[..2], mem[..][from..from + lay.size], lay.OldAdd()))
    modifies buf
    ensures buf[..] == Blit(m, at, Apply(lay.AddPlan(), mem[..][from..from + lay.size], lay.OldAdd()))
  {
    hide Apply, Blit, SourcesApart, Fits;
    ghost var plan := lay.AddPlan();
    PlanStart(lay);
    var size := lay.OldAdd();
    CopySeg(buf, at, size, mem, from, lay.size, Seg(164, lay.maxPrio, 4), m, plan, 2);
    CopySeg(buf, at, size, mem, from, lay.size, Seg(lay.OldAtRear(), lay.atRear, 1), m, plan, 3);
  }

  /** The fields a filter rule has behind the attribute. */
  method FinishFlt(buf: array<byte>, at: nat, mem: array<byte>, from: nat, lay: RuleLayout, ghost m: seq<byte>)
    requires lay.Flt? && lay.Valid() && buf != mem && at + lay.OldAdd() <= buf.Length && from + lay.size <= mem.Length
    requires |m| == buf.Length
    requires buf[..] == Blit(m, at, Apply(lay.AddPlan()[..2], mem[..][from..from + lay.size], lay.OldAdd()))
    modifies buf
    ensures buf[..] == Blit(m, at, Apply(lay.AddPlan(), mem[..][from..from + lay.size], lay.OldAdd()))
  {
    hide Apply, Blit, SourcesApart, Fits;
    ghost var plan := lay.AddPlan();
    PlanStart(lay);
    var size := lay.OldAdd();
    CopySeg(buf, at, size, mem, from, lay.size, Seg(164, lay.eqAttrib, EQ_SIZE), m, plan, 2);
    CopySeg(buf, at, size, mem, from, lay.size, Seg(348, lay.rtTblIdx, 12), m, plan, 3);
    CopySeg(buf, at, size, mem, from, lay.size, Seg(lay.OldAtRear(), lay.atRear, 1), m, plan, 4);
  }

  lemma NothingCopied(plan: seq<Seg>, rec: seq<byte>, size: nat)
    ensures Apply(plan[..0], rec, size) == Zeros(size)
  {
  }
}
