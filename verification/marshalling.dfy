/** The eight rule-add requests. A request is a header followed by rules, either inline or behind
    a pointer; the kernel is given a private buffer in the old layout instead. */
module Marshalling {
  import opened Bytes
  import opened Records
  import opened Rules
  import opened Widening

  datatype Variant =
    | AddRt | AddFlt | AddRtAfter | AddFltAfter | AddRtV2 | AddFltV2 | AddRtAfterV2 | AddFltAfterV2
  {
    function Header(): (r: nat) {
      match this
      case AddRt => 44
      case AddFlt => 16
      case AddRtAfter => 48
      case AddFltAfter => 20
      case AddRtV2 => 64
      case AddFltV2 => 40
      case AddRtAfterV2 => 64
      case AddFltAfterV2 => 40
    }

    predicate IsFilter() { AddFlt? || AddFltAfter? || AddFltV2? || AddFltAfterV2? }

    /** The rules are behind a 64-bit pointer, and the header states the rule size. */
    predicate ByPointer() { AddRtV2? || AddFltV2? || AddRtAfterV2? || AddFltAfterV2? }
  }

  /** Header offsets: the rule count, the first inline rule, the rule size, the rule pointer. */
  datatype HeaderLayout = HeaderLayout(count: nat, inlineRules: nat, ruleSize: nat, pointer: nat)

  /** One variant with the layouts it works between. */
  datatype Form = Form(variant: Variant, head: HeaderLayout, rule: RuleLayout) {
    ghost predicate Valid() {
      && rule.Valid() && (rule.Flt? <==> variant.IsFilter())
      && (variant.ByPointer() ==>
            && head.ruleSize + 4 <= variant.Header() && head.pointer + 8 <= variant.Header()
            && (head.ruleSize + 4 <= head.pointer || head.pointer + 8 <= head.ruleSize))
    }

    function BufferSize(): (r: nat) { variant.Header() + Offset(MAX_RULES, rule.OldAdd()) }
  }

  function CountOf(f: Form, m: seq<byte>, arg: nat): (r: nat)
    requires arg + f.head.count < |m|
  {
    m[arg + f.head.count]
  }

  /** The address of the first rule. Pointers are 32 bits wide, so the upper word is dropped. */
  function RulesOf(f: Form, m: seq<byte>, arg: nat): (r: nat)
    requires f.variant.ByPointer() ==> arg + f.head.pointer + 8 <= |m|
  {
    if f.variant.ByPointer() then Rd32(m, arg + f.head.pointer) else arg + f.head.inlineRules
  }

  /** The request is one the bridge translates: a small positive count, and no null pointer. */
  predicate Translates(f: Form, m: seq<byte>, arg: nat) {
    && arg + f.head.count < |m|
    && 1 <= CountOf(f, m, arg) <= MAX_RULES
    && (f.variant.ByPointer() ==>
          && arg + f.head.pointer + 8 <= |m|
          && (Rd32(m, arg + f.head.pointer) != 0 || Rd32(m, arg + f.head.pointer + 4) != 0))
  }

  /** The caller's pointers are good for what the request announces. */
  predicate RequestFits(f: Form, m: seq<byte>, arg: nat) {
    && arg + f.head.count < |m|
    && (1 <= CountOf(f, m, arg) <= MAX_RULES ==>
          && (f.variant.ByPointer() ==> arg + f.head.pointer + 8 <= |m|)
          && (Translates(f, m, arg) ==>
                && arg + f.variant.Header() <= |m|
                && RulesOf(f, m, arg) + Offset(CountOf(f, m, arg), f.rule.size) <= |m|))
  }

  /** The header the kernel sees: the caller's, except that the pointer forms are told the old rule
      size and where the narrowed rules are. */
  function KernelHeader(f: Form, m: seq<byte>, arg: nat, stack: nat): (h: seq<byte>)
    requires f.Valid() && arg + f.variant.Header() <= |m|
    ensures |h| == f.variant.Header()
  {
    var h := m[arg..arg + f.variant.Header()];
    if f.variant.ByPointer() then
      Blit(Blit(h, f.head.ruleSize, LittleEndian(f.rule.OldAdd(), 4)),
           f.head.pointer, LittleEndian(stack + f.variant.Header(), 8))
    else h
  }

  /** A request the bridge can and will translate. */
  predicate Ready(f: Form, m: seq<byte>, arg: nat) {
    RequestFits(f, m, arg) && Translates(f, m, arg)
  }

  lemma ReadyMeans(f: Form, m: seq<byte>, arg: nat)
    requires Ready(f, m, arg)
    ensures arg + f.head.count < |m| && 1 <= CountOf(f, m, arg) <= MAX_RULES && arg + f.variant.Header() <= |m|
    ensures f.variant.ByPointer() ==> arg + f.head.pointer + 8 <= |m|
    ensures RulesOf(f, m, arg) + Offset(CountOf(f, m, arg), f.rule.size) <= |m|
  {
  }

  /** The buffer when the first `k` rules are narrowed under the header `head`. */
  ghost function Filled(plan: seq<Seg>, size: nat, unit: nat, head: seq<byte>, m: seq<byte>, rules: nat,
      k: nat): (b: seq<byte>)
    requires k <= MAX_RULES && rules + Offset(k, size) <= |m|
    ensures |b| == |head| + Offset(MAX_RULES, unit)
  {
    OffsetGrows(unit, k, MAX_RULES);
    head + Packed(plan, m, rules, size, unit, 0, k) + Zeros(Offset(MAX_RULES, unit) - Offset(k, unit))
  }

  /** What the kernel is given: header, all rules in order, zeros. */
  ghost function KernelRequest(f: Form, m: seq<byte>, arg: nat, stack: nat): (b: seq<byte>)
    requires f.Valid() && Ready(f, m, arg)
    ensures |b| == f.BufferSize()
  {
    ReadyMeans(f, m, arg);
    Filled(f.rule.AddPlan(), f.rule.size, f.rule.OldAdd(), KernelHeader(f, m, arg, stack), m, RulesOf(f, m, arg), CountOf(f, m, arg))
  }

  lemma FilledNone(plan: seq<Seg>, size: nat, unit: nat, head: seq<byte>, m: seq<byte>, rules: nat)
    requires rules + Offset(0, size) <= |m|
    ensures Filled(plan, size, unit, head, m, rules, 0) == head + Zeros(Offset(MAX_RULES, unit))
  {
    assert Packed(plan, m, rules, size, unit, 0, 0) == [];
  }

  /** Narrowing the next rule takes the buffer one step further. */
  lemma FillStep(plan: seq<Seg>, size: nat, unit: nat, head: seq<byte>, m: seq<byte>, rules: nat, k: nat)
    requires k < MAX_RULES && rules + Offset(k + 1, size) <= |m|
    ensures rules + Offset(k, size) + size <= |m|
    ensures var at, from, b := |head| + Offset(k, unit), rules + Offset(k, size), Filled(plan, size, unit, head, m, rules, k);
      && at + unit <= |b|
      && b[at..at + unit] == Zeros(unit)
      && Filled(plan, size, unit, head, m, rules, k + 1) == Blit(b, at, Apply(plan, m[from..from + size], unit))
  {
    hide Offset, Apply, Packed, Blit, Zeros;
    OffsetNext(k, k + 1, size);
    OffsetNext(k, MAX_RULES, unit);
    OffsetNext(0, MAX_RULES, unit);
    OffsetGrows(unit, k + 1, MAX_RULES);
    PackedAppend(plan, m, rules, size, unit, 0, k);
    var done, rec := Packed(plan, m, rules, size, unit, 0, k), Apply(plan, RecordAt(m, rules, size, k), unit);
    var rest := Offset(MAX_RULES, unit) - Offset(k, unit);
    assert Filled(plan, size, unit, head, m, rules, k + 1) == head + (done + rec) + Zeros(rest - unit);
    assert head + (done + rec) == head + done + rec;
    ReplaceZeros(head + done, rec, rest);
  }

  lemma ReplaceZeros(front: seq<byte>, rec: seq<byte>, rest: nat)
    requires |rec| <= rest
    ensures var b := front + Zeros(rest);
      && b[|front|..|front| + |rec|] == Zeros(|rec|)
      && Blit(b, |front|, rec) == front + rec + Zeros(rest - |rec|)
  {
    var b := front + Zeros(rest);
    assert b[..|front|] == front && b[|front| + |rec|..] == Zeros(rest - |rec|);
  }

  lemma FormWords(f: Form)
    requires f.Valid()
    ensures f.rule.NewWords().Inside() && f.rule.OldWords().Inside()
    ensures f.rule.NewWords().size == f.rule.size && f.rule.OldWords().size == f.rule.OldAdd()
  {
  }

  /** What the buffer means: the header, then the narrowed rules, each under its own index. */
  lemma KernelSees(f: Form, m: seq<byte>, arg: nat, stack: nat, i: nat)
    requires f.Valid() && Ready(f, m, arg) && i < CountOf(f, m, arg)
    ensures var b, h := KernelRequest(f, m, arg, stack), f.variant.Header();
      && b[..h] == KernelHeader(f, m, arg, stack)
      && h + Offset(i, f.rule.OldAdd()) + f.rule.OldAdd() <= |b|
      && RulesOf(f, m, arg) + Offset(i, f.rule.size) + f.rule.size <= |m|
      && RecordAt(b, h, f.rule.OldAdd(), i)
         == Apply(f.rule.AddPlan(), RecordAt(m, RulesOf(f, m, arg), f.rule.size, i), f.rule.OldAdd())
  {
    ReadyMeans(f, m, arg);
    FilledRecord(f.rule.AddPlan(), f.rule.size, f.rule.OldAdd(), KernelHeader(f, m, arg, stack), m,
        RulesOf(f, m, arg), CountOf(f, m, arg), i);
  }

  lemma FilledRecord(plan: seq<Seg>, size: nat, unit: nat, head: seq<byte>, m: seq<byte>, rules: nat, n: nat, i: nat)
    requires i < n <= MAX_RULES && rules + Offset(n, size) <= |m|
    ensures var b := Filled(plan, size, unit, head, m, rules, n);
      && b[..|head|] == head && |head| + Offset(i, unit) + unit <= |b|
      && rules + Offset(i, size) + size <= |m|
      && RecordAt(b, |head|, unit, i) == Apply(plan, RecordAt(m, rules, size, i), unit)
  {
    hide Offset, Apply, Packed, Zeros;
    OffsetNext(i, n, unit);
    OffsetNext(0, n, unit);
    OffsetNext(i, n, size);
    OffsetGrows(unit, n, MAX_RULES);
    PackedRecord(plan, m, rules, size, unit, 0, i, n);
    MiddleSlice(head, Packed(plan, m, rules, size, unit, 0, n), Zeros(Offset(MAX_RULES, unit) - Offset(n, unit)),
                Offset(i, unit), Offset(i, unit) + unit);
  }

  lemma MiddleSlice(x: seq<byte>, y: seq<byte>, z: seq<byte>, lo: nat, hi: nat)
    requires lo <= hi <= |y|
    ensures (x + y + z)[..|x|] == x && (x + y + z)[|x| + lo..|x| + hi] == y[lo..hi]
  {
  }

  /** The header is the caller's; only the pointer forms change two fields of it. */
  lemma HeaderMeaning(f: Form, m: seq<byte>, arg: nat, stack: nat)
    requires f.Valid() && arg + f.variant.Header() <= |m|
    ensures var h, h0, v := KernelHeader(f, m, arg, stack), m[arg..arg + f.variant.Header()], f.head;
      if !f.variant.ByPointer() then h == h0
      else
        && h[v.ruleSize..v.ruleSize + 4] == LittleEndian(f.rule.OldAdd(), 4)
        && h[v.pointer..v.pointer + 8] == LittleEndian(stack + f.variant.Header(), 8)
        && forall k :: 0 <= k < |h0| && !(v.ruleSize <= k < v.ruleSize + 4) && !(v.pointer <= k < v.pointer + 8) ==> h[k] == h0[k]
  {
    hide RuleLayout.Valid, Blit, LittleEndian, Variant.Header;
    if f.variant.ByPointer() {
      TwoFields(m[arg..arg + f.variant.Header()], f.head.ruleSize, LittleEndian(f.rule.OldAdd(), 4), f.head.pointer,
                LittleEndian(stack + f.variant.Header(), 8));
    }
  }

  /** Read back, the two fields are the size of an old rule-add record and the address of the first
      narrowed rule, which lies inside the buffer. */
  lemma PointerMeaning(f: Form, m: seq<byte>, arg: nat, stack: nat)
    requires f.Valid() && Ready(f, m, arg) && f.variant.ByPointer()
    requires stack + f.BufferSize() < 0x1_0000_0000_0000_0000
    ensures var b, v := KernelRequest(f, m, arg, stack), f.head;
      && |b| == f.BufferSize()
      && v.ruleSize + 4 <= |b| && v.pointer + 8 <= |b|
      && Value(b[v.ruleSize..v.ruleSize + 4]) == f.rule.OldAdd()
      && var first := Value(b[v.pointer..v.pointer + 8]) - stack;
        && first == f.variant.Header()
        && first + Offset(CountOf(f, m, arg), f.rule.OldAdd()) <= |b|
  {
    hide RuleLayout.Valid, Blit, LittleEndian, Variant.Header, Offset, KernelRequest, KernelHeader, RulesOf, Value,
        Span, Apply, RecordAt;
    ReadyMeans(f, m, arg);
    var b, v, h := KernelRequest(f, m, arg, stack), f.head, f.variant.Header();
    OffsetGrows(f.rule.OldAdd(), CountOf(f, m, arg), MAX_RULES);
    KernelSees(f, m, arg, stack, 0);
    HeaderMeaning(f, m, arg, stack);
    SliceOfSlice(b, 0, h, v.ruleSize, v.ruleSize + 4);
    SliceOfSlice(b, 0, h, v.pointer, v.pointer + 8);
    assert b[0..h] == b[..h];
    WordAndDouble();
    ValueOfLittleEndian(f.rule.OldAdd(), 4);
    ValueOfLittleEndian(stack + h, 8);
  }

  /** Clears the buffer and writes the header. */
  method WriteHeader(f: Form, mem: array<byte>, arg: nat, stack: nat) returns (buf: array<byte>)
    requires f.Valid() && arg + f.variant.Header() <= mem.Length
    ensures fresh(buf) && buf[..] == KernelHeader(f, mem[..], arg, stack) + Zeros(Offset(MAX_RULES, f.rule.OldAdd()))
  {
    hide Offset, Blit, RuleLayout.Valid, Variant.Header, RuleLayout.OldAdd, Zeros, LittleEndian;
    var h, rest := f.variant.Header(), Offset(MAX_RULES, f.rule.OldAdd());
    buf := CopyHeader(mem, arg, h, rest);
    if f.variant.ByPointer() {
      Redirect(buf, f.head, f.rule.OldAdd(), stack + h, mem[..][arg..arg + h], Zeros(rest));
    }
  }

  /** The caller's header, followed by zeros. */
  method CopyHeader(mem: array<byte>, arg: nat, h: nat, rest: nat) returns (buf: array<byte>)
    requires arg + h <= mem.Length
    ensures fresh(buf) && buf[..] == mem[..][arg..arg + h] + Zeros(rest)
  {
    hide Blit, Zeros;
    ghost var head := mem[..][arg..arg + h];
    buf := new byte[h + rest];
    ghost var garbage := buf[..];
    ZerosSplit(h, rest);
    MemZero(buf, 0, h + rest);
    BlitAll(garbage, Zeros(h + rest));
    MemCopy(buf, 0, mem, arg, h);
    BlitFront(Zeros(h), Zeros(rest), 0, head);
    BlitAll(Zeros(h), head);
  }

  /** The rule size and the rule pointer of a pointer form. */
  method Redirect(buf: array<byte>, v: HeaderLayout, unit: nat, address: nat, ghost head: seq<byte>,
      ghost tail: seq<byte>)
    requires buf[..] == head + tail && v.ruleSize + 4 <= |head| && v.pointer + 8 <= |head|
    modifies buf
    ensures buf[..] == Blit(Blit(head, v.ruleSize, LittleEndian(unit, 4)), v.pointer, LittleEndian(address, 8)) + tail
  {
    hide Blit, LittleEndian;
    Store(buf, v.ruleSize, unit, 4);
    BlitFront(head, tail, v.ruleSize, LittleEndian(unit, 4));
    Store(buf, v.pointer, address, 8);
    BlitFront(Blit(head, v.ruleSize, LittleEndian(unit, 4)), tail, v.pointer, LittleEndian(address, 8));
  }

  lemma ZerosSplit(a: nat, b: nat)
    ensures Zeros(a + b) == Zeros(a) + Zeros(b) && |Zeros(a)| == a && |Zeros(a + b)| == a + b
  {
  }

  /** Builds the kernel's request in a fresh buffer. */
  method Marshal(f: Form, mem: array<byte>, arg: nat, stack: nat) returns (buf: array<byte>)
    requires f.Valid() && Ready(f, mem[..], arg)
    ensures fresh(buf) && buf[..] == KernelRequest(f, mem[..], arg, stack)
  {
    hide RuleLayout.Valid, Offset, Filled, Zeros, Variant.Header, KernelHeader, Blit, RuleLayout.AddPlan,
        RuleLayout.OldAdd;
    ghost var m := mem[..];
    ReadyMeans(f, m, arg);
    var n, rules := mem[arg + f.head.count], arg + f.head.inlineRules;
    if f.variant.ByPointer() {
      rules := LoadWord(mem, arg + f.head.pointer);
    }
    buf := WriteHeader(f, mem, arg, stack);
    NarrowRules(f.rule, KernelHeader(f, m, arg, stack), f.variant.Header(), mem, rules, n, buf);
  }

  /** The narrowing loop. */
  method NarrowRules(lay: RuleLayout, ghost head: seq<byte>, h: nat, mem: array<byte>, rules: nat, n: nat,
      buf: array<byte>)
    requires lay.Valid() && n <= MAX_RULES && rules + Offset(n, lay.size) <= mem.Length && mem != buf && |head| == h
    requires buf[..] == head + Zeros(Offset(MAX_RULES, lay.OldAdd()))
    modifies buf
    ensures buf[..] == Filled(lay.AddPlan(), lay.size, lay.OldAdd(), head, mem[..], rules, n)
  {
    hide RuleLayout.Valid, RuleLayout.AddPlan, RuleLayout.OldAdd, Filled, Offset;
    ghost var plan := lay.AddPlan();
    var unit, size := lay.OldAdd(), lay.size;
    OffsetGrows(size, 0, n);
    FilledNone(plan, size, unit, head, mem[..], rules);
    for i := 0 to n
      invariant rules + Offset(i, size) <= mem.Length
      invariant buf[..] == Filled(plan, size, unit, head, mem[..], rules, i)
    {
      OffsetGrows(size, i + 1, n);
      NarrowNext(lay, head, h, mem, rules, i, buf);
    }
  }

  method NarrowNext(lay: RuleLayout, ghost head: seq<byte>, h: nat, mem: array<byte>, rules: nat, i: nat,
      buf: array<byte>)
    requires lay.Valid() && i < MAX_RULES && rules + Offset(i + 1, lay.size) <= mem.Length && mem != buf && |head| == h
    requires rules + Offset(i, lay.size) <= mem.Length
    requires buf[..] == Filled(lay.AddPlan(), lay.size, lay.OldAdd(), head, mem[..], rules, i)
    modifies buf
    ensures buf[..] == Filled(lay.AddPlan(), lay.size, lay.OldAdd(), head, mem[..], rules, i + 1)
  {
    hide RuleLayout.Valid, RuleLayout.AddPlan, RuleLayout.OldAdd, Filled, Offset, Blit, Zeros, Apply;
    FillStep(lay.AddPlan(), lay.size, lay.OldAdd(), head, mem[..], rules, i);
    NarrowRule(buf, h + Offset(i, lay.OldAdd()), mem, rules + Offset(i, lay.size), lay);
  }

  // ----- results

  function WordAt(m: seq<byte>, p: nat): (w: seq<byte>)
    requires p + 4 <= |m|
    ensures |w| == 4
  {
    m[p..p + 4]
  }

  /** The two copies for one rule: from the kernel's record at `q` of `b` to the caller's at `p`. */
  function ReturnOne(mine: Words, theirs: Words, m: seq<byte>, p: nat, b: seq<byte>, q: nat): (r: seq<byte>)
    requires mine.Inside() && theirs.Inside() && p + mine.size <= |m| && q + theirs.size <= |b|
    ensures |r| == |m|
  {
    Blit(Blit(m, p + mine.hdl, WordAt(b, q + theirs.hdl)), p + mine.status, WordAt(b, q + theirs.status))
  }

  /** Caller memory after the results of rules 0 to `n - 1` were copied back from buffer `b`. */
  function Returned(mine: Words, theirs: Words, m: seq<byte>, rules: nat, b: seq<byte>, base: nat,
      n: nat): (r: seq<byte>)
    requires mine.Inside() && theirs.Inside() && rules + Offset(n, mine.size) <= |m|
    requires base + Offset(n, theirs.size) <= |b|
    ensures |r| == |m|
  {
    if n == 0 then m
    else
      OffsetNext(n - 1, n, mine.size);
      OffsetNext(n - 1, n, theirs.size);
      ReturnOne(mine, theirs, Returned(mine, theirs, m, rules, b, base, n - 1),
                rules + Offset(n - 1, mine.size), b, base + Offset(n - 1, theirs.size))
  }

  /** Address `a` lies in the handle or status word of the record at `p`. */
  predicate ResultWord(w: Words, p: nat, a: nat) {
    p + w.hdl <= a < p + w.hdl + 4 || p + w.status <= a < p + w.status + 4
  }

  /** One rule's result words are the kernel's, every other byte is as before. */
  lemma ReturnOneMeaning(mine: Words, theirs: Words, m: seq<byte>, p: nat, b: seq<byte>, q: nat)
    requires mine.Inside() && theirs.Inside() && p + mine.size <= |m| && q + theirs.size <= |b|
    ensures var r := ReturnOne(mine, theirs, m, p, b, q);
      && WordAt(r, p + mine.hdl) == WordAt(b, q + theirs.hdl)
      && WordAt(r, p + mine.status) == WordAt(b, q + theirs.status)
      && forall a :: 0 <= a < |m| && !ResultWord(mine, p, a) ==> r[a] == m[a]
  {
    hide Blit;
    TwoFields(m, p + mine.hdl, WordAt(b, q + theirs.hdl), p + mine.status, WordAt(b, q + theirs.status));
  }

  /** Nothing but the result words of the rules changes... */
  lemma {:induction false} ReturnedFrame(mine: Words, theirs: Words, m: seq<byte>, rules: nat, b: seq<byte>,
      base: nat, n: nat, a: nat)
    requires mine.Inside() && theirs.Inside() && rules + Offset(n, mine.size) <= |m|
    requires base + Offset(n, theirs.size) <= |b|
    requires a < |m| && forall i: nat :: i < n ==> !ResultWord(mine, rules + Offset(i, mine.size), a)
    ensures Returned(mine, theirs, m, rules, b, base, n)[a] == m[a]
  {
    hide Offset, ReturnOne, ResultWord;
    if n > 0 {
      OffsetNext(n - 1, n, mine.size);
      OffsetNext(n - 1, n, theirs.size);
      ReturnedFrame(mine, theirs, m, rules, b, base, n - 1, a);
      assert !ResultWord(mine, rules + Offset(n - 1, mine.size), a);
      ReturnOneMeaning(mine, theirs, Returned(mine, theirs, m, rules, b, base, n - 1),
                       rules + Offset(n - 1, mine.size), b, base + Offset(n - 1, theirs.size));
    }
  }

  /** ... and rule `i` gets the words of the kernel's record `i`. */
  lemma {:induction false} ReturnedWords(mine: Words, theirs: Words, m: seq<byte>, rules: nat, b: seq<byte>,
      base: nat, n: nat, i: nat)
    requires mine.Inside() && theirs.Inside() && rules + Offset(n, mine.size) <= |m|
    requires base + Offset(n, theirs.size) <= |b|
    requires i < n
    ensures var p, q, r := rules + Offset(i, mine.size), base + Offset(i, theirs.size), Returned(mine, theirs, m, rules, b, base, n);
      && p + mine.size <= |m| && q + theirs.size <= |b|
      && WordAt(r, p + mine.hdl) == WordAt(b, q + theirs.hdl)
      && WordAt(r, p + mine.status) == WordAt(b, q + theirs.status)
  {
    hide Offset, ReturnOne, WordAt;
    OffsetNext(n - 1, n, mine.size);
    OffsetNext(n - 1, n, theirs.size);
    OffsetNext(i, n, mine.size);
    OffsetNext(i, n, theirs.size);
    var last, q, before := rules + Offset(n - 1, mine.size), base + Offset(n - 1, theirs.size), Returned(mine, theirs, m, rules, b, base, n - 1);
    ReturnOneMeaning(mine, theirs, before, last, b, q);
    if i < n - 1 {
      ReturnedWords(mine, theirs, m, rules, b, base, n - 1, i);
      OffsetNext(i, n - 1, mine.size);
      var p := rules + Offset(i, mine.size);
      ReturnOneBelow(mine, theirs, before, last, b, q, p + mine.hdl);
      ReturnOneBelow(mine, theirs, before, last, b, q, p + mine.status);
    }
  }

  lemma ReturnOneBelow(mine: Words, theirs: Words, m: seq<byte>, p: nat, b: seq<byte>, q: nat, w: nat)
    requires mine.Inside() && theirs.Inside() && p + mine.size <= |m| && q + theirs.size <= |b| && w + 4 <= p
    ensures WordAt(ReturnOne(mine, theirs, m, p, b, q), w) == WordAt(m, w)
  {
    hide Blit;
    BlitOutside(m, p + mine.hdl, WordAt(b, q + theirs.hdl), w, w + 4);
    BlitOutside(Blit(m, p + mine.hdl, WordAt(b, q + theirs.hdl)), p + mine.status, WordAt(b, q + theirs.status), w,
        w + 4);
  }

  /** The copy-back loop. */
  method CopyBack(mine: Words, theirs: Words, mem: array<byte>, rules: nat, buf: array<byte>, base: nat, n: nat)
    requires mine.Inside() && theirs.Inside() && mem != buf
    requires rules + Offset(n, mine.size) <= mem.Length && base + Offset(n, theirs.size) <= buf.Length
    modifies mem
    ensures mem[..] == Returned(mine, theirs, old(mem[..]), rules, buf[..], base, n)
  {
    hide Offset, Returned, ReturnOne, Words.Inside;
    ghost var m := mem[..];
    OffsetGrows(mine.size, 0, n);
    OffsetGrows(theirs.size, 0, n);
    ReturnStart(mine, theirs, m, rules, buf[..], base);
    for i := 0 to n
      invariant rules + Offset(i, mine.size) <= |m| && base + Offset(i, theirs.size) <= buf.Length
      invariant mem[..] == Returned(mine, theirs, m, rules, buf[..], base, i)
    {
      OffsetNext(i, n, mine.size);
      OffsetNext(i, n, theirs.size);
      ReturnStep(mine, theirs, m, rules, buf[..], base, i);
      ReturnRule(mine, theirs, mem, rules + Offset(i, mine.size), buf, base + Offset(i, theirs.size));
    }
  }

  lemma ReturnStart(mine: Words, theirs: Words, m: seq<byte>, rules: nat, b: seq<byte>, base: nat)
    requires mine.Inside() && theirs.Inside() && rules + Offset(0, mine.size) <= |m|
    requires base + Offset(0, theirs.size) <= |b|
    ensures Returned(mine, theirs, m, rules, b, base, 0) == m
  {
  }

  lemma ReturnStep(mine: Words, theirs: Words, m: seq<byte>, rules: nat, b: seq<byte>, base: nat, i: nat)
    requires mine.Inside() && theirs.Inside() && rules + Offset(i + 1, mine.size) <= |m|
    requires base + Offset(i + 1, theirs.size) <= |b|
    ensures var p, q := rules + Offset(i, mine.size), base + Offset(i, theirs.size);
      && p + mine.size <= |m| && q + theirs.size <= |b|
      && Returned(mine, theirs, m, rules, b, base, i + 1) == ReturnOne(mine, theirs, Returned(mine, theirs, m, rules, b, base, i), p, b, q)
  {
    hide ReturnOne;
    OffsetNext(i, i + 1, mine.size);
    OffsetNext(i, i + 1, theirs.size);
  }

  method ReturnRule(mine: Words, theirs: Words, mem: array<byte>, p: nat, buf: array<byte>, q: nat)
    requires mine.Inside() && theirs.Inside() && mem != buf && p + mine.size <= mem.Length
    requires q + theirs.size <= buf.Length
    modifies mem
    ensures mem[..] == ReturnOne(mine, theirs, old(mem[..]), p, buf[..], q)
  {
    hide Blit;
    MemCopy(mem, p + mine.hdl, buf, q + theirs.hdl, 4);
    MemCopy(mem, p + mine.status, buf, q + theirs.status, 4);
  }
}
