/** What an intercepted call comes to, read off its request number: the commands, sizes and offsets
    are the numbers of the kernel's interface. */
module Dispatch {
  import opened Bridges
  import opened Bytes
  import opened Configuration
  import opened FdCache
  import opened HexDump
  import opened Marshalling
  import opened Query
  import opened Records
  import opened Rules
  import opened Runs
  import opened Scanners
  import opened Text
  import opened Widening

  /** The descriptor is answered to be the device: from the cache, or because its link begins so. */
  ghost predicate OnDevice(s: State, e: Event) {
    if e.fd == s.cache.fd then s.cache.isIpa else "/dev/ipa" <= e.links(Path(e.fd))
  }

  /** A request of the bridge's type is command `nr`, with whatever size and direction above. */
  ghost predicate Commands(e: Event, nr: nat) {
    nr < 0x100 && exists k: nat :: e.request == Request(k, nr)
  }

  function Request(k: nat, nr: nat): (r: nat) {
    0x1_0000 * k + 0xCF00 + nr
  }

  lemma RequestParts(k: nat, ty: nat, nr: nat)
    requires ty < 0x100 && nr < 0x100
    ensures var r := 0x1_0000 * k + 0x100 * ty + nr; Type(r) == ty && Number(r) == nr
  {
    var r := 0x1_0000 * k + 0x100 * ty + nr;
    assert r / 0x100 == 0x100 * k + ty;
  }

  lemma CommandIs(w: World, s: State, e: Event, nr: nat)
    requires Commands(e, nr)
    ensures RoleOf(w, e) == w.abi.roles(nr) && (Concerned(s, e) <==> OnDevice(s, e))
  {
    var k: nat :| e.request == Request(k, nr);
    RequestParts(k, 0xCF, nr);
    DeviceLink(e.links(Path(e.fd)));
  }

  /** The call as it came, and what the kernel leaves of it. */
  function Passed(s: State, e: Event): (log: seq<Call>) {
    s.log + [Call(e.fd, e.request, e.arg, false, s.mem)]
  }

  // ----- calls passed on

  /** Anything but a command of the bridge's type on the device goes straight to the kernel. */
  lemma OthersPass(w: World, s: State, e: Event, k: nat, ty: nat, nr: nat)
    requires w.abi.Valid() && Safe(w, s, e)
    requires ty < 0x100 && nr < 0x100 && e.request == 0x1_0000 * k + 0x100 * ty + nr
    requires ty != 0xCF || !OnDevice(s, e)
    ensures var s' := Step(w, s, e);
      s'.log == Passed(s, e) && s'.mem == Leaves(w.kernel, Passed(s, e)) && s'.dumps == s.dumps
  {
    hide Leaves, Abi.Valid, Safe, Type, Number, Path, IsDevice, RuleStep, AfterAnswer, TranslatesCall;
    RequestParts(k, ty, nr);
    DeviceLink(e.links(Path(e.fd)));
    assert !Concerned(s, e);
  }

  /** So does every command without a part in a translation, and each query the kernel refuses. */
  lemma UntranslatedPass(w: World, s: State, e: Event, nr: nat)
    requires w.abi.Valid() && Safe(w, s, e) && Commands(e, nr)
    requires e.arg == 0 || w.abi.roles(nr).Other?
      || ((w.abi.roles(nr).Add? || w.abi.roles(nr).GenerateEq?) && !w.cfg.rtFltTranslate)
      || (!w.abi.roles(nr).Add? && !w.abi.roles(nr).GenerateEq? && w.kernel(Passed(s, e)).ret < 0)
    ensures var s' := Step(w, s, e);
      s'.log == Passed(s, e) && s'.mem == Leaves(w.kernel, Passed(s, e)) && s'.dumps == s.dumps
  {
    hide Fresh, Leaves, Abi.Valid, Translates, RequestFits, AreaFits, QueryStep, OnDevice, RuleStep, Commands;
    CommandIs(w, s, e, nr);
  }

  // ----- answered queries

  /** What an examined answer for interface `name` leaves in the dump record: one dump of its type and
      class, unless there was one or dumping is off. */
  ghost predicate DumpedAs(on: bool, name: string, t: nat, before: Dumps, after: Dumps) {
    var c := match name
      case "eth0" => 0
      case "rmnet_data0" => 1
      case "rmnet_data1" => 2
      case "bridge0" => 3
      case _ => 4;
    after.log == if on && (t, c) !in before.log then before.log + [(t, c)] else before.log
  }

  lemma DumpMeans(w: World, d: Dumps, m: seq<byte>, q: nat, t: nat)
    requires q + 32 <= |m| && t < 3 && Faithful(d)
    ensures DumpedAs(w.cfg.hexdumpOnce, CString(Chars(m[q..q + 32])), t, d, Dumped(w, d, m, q, t))
  {
    hide CString, Chars, Faithful, DumpOnce;
    DumpStep(d, w.cfg.hexdumpOnce, t, InterfaceClass(NameAt(m, q)));
  }

  /** The name at `q` is in the allow list. */
  ghost predicate NameAllowed(cfg: Config, m: seq<byte>, q: nat)
    requires q + 32 <= |m|
  {
    Matches(cfg.allow, CString(Chars(m[q..q + 32])))
  }

  /** An answer of type `t` in memory `m`: what becomes of the memory, and of the dump record if the
      handler is on, the name allowed and the count from 1 to 16. */
  ghost predicate AnswerHandled(w: World, lay: Layout, t: nat, m: seq<byte>, q: nat, before: Dumps, s': State)
    requires lay.Valid() && AreaFits(w.cfg, lay, m, q)
  {
    && HandledAs(w.cfg, lay, m, q, s'.mem)
    && if (if lay.Tx? then w.cfg.tx else w.cfg.rx) && NameAllowed(w.cfg, m, q) && 1 <= Rd32(m, q + 32) <= 16
       then DumpedAs(w.cfg.hexdumpOnce, CString(Chars(m[q..q + 32])), t, before, s'.dumps)
       else s'.dumps == before
  }

  /** The state after the direct call. */
  function AfterCall(w: World, s: State, e: Event): (r: State) {
    State(Leaves(w.kernel, Passed(s, e)), Passed(s, e), Asked(s, e).cache, s.dumps)
  }

  lemma QueryPasses(w: World, s: State, e: Event, nr: nat)
    requires w.abi.Valid() && Safe(w, s, e) && Commands(e, nr) && OnDevice(s, e)
    requires w.abi.roles(nr).QueryTx? || w.abi.roles(nr).QueryRx? || w.abi.roles(nr).QueryExt?
    ensures RoleOf(w, e) == w.abi.roles(nr) && AnswerSafe(w, AfterCall(w, s, e), e)
    ensures Step(w, s, e) == AfterAnswer(w, AfterCall(w, s, e), e)
  {
    hide Leaves, Commands, OnDevice, Abi.Valid, AnswerSafe, AfterAnswer, RuleSafe;
    CommandIs(w, s, e, nr);
    assert Direct(w, Asked(s, e), e) == AfterCall(w, s, e);
  }

  /** A granted query for transmit properties: type 0. */
  lemma TxAnswer(w: World, s: State, e: Event, nr: nat)
    requires w.abi.Valid() && Safe(w, s, e) && Commands(e, nr) && OnDevice(s, e) && Faithful(s.dumps)
    requires w.abi.roles(nr) == QueryTx && e.arg != 0 && w.kernel(Passed(s, e)).ret >= 0
    ensures var m, s' := Leaves(w.kernel, Passed(s, e)), Step(w, s, e);
      s'.log == Passed(s, e) && AreaFits(w.cfg, w.abi.tx, m, e.arg)
      && AnswerHandled(w, w.abi.tx, 0, m, e.arg, s.dumps, s')
  {
    hide Leaves, Commands, OnDevice, AreaFits, QueryStep, Faithful, AnswerHandled, Safe, Step, Layout.Valid;
    QueryPasses(w, s, e, nr);
    QueryMeans(w, AfterCall(w, s, e), e.arg, w.abi.tx, 0);
  }

  /** A granted query for receive properties: type 1. */
  lemma RxAnswer(w: World, s: State, e: Event, nr: nat)
    requires w.abi.Valid() && Safe(w, s, e) && Commands(e, nr) && OnDevice(s, e) && Faithful(s.dumps)
    requires w.abi.roles(nr) == QueryRx && e.arg != 0 && w.kernel(Passed(s, e)).ret >= 0
    ensures var m, s' := Leaves(w.kernel, Passed(s, e)), Step(w, s, e);
      s'.log == Passed(s, e) && AreaFits(w.cfg, w.abi.rx, m, e.arg)
      && AnswerHandled(w, w.abi.rx, 1, m, e.arg, s.dumps, s')
  {
    hide Leaves, Commands, OnDevice, AreaFits, QueryStep, Faithful, AnswerHandled, Safe, Step, Layout.Valid;
    QueryPasses(w, s, e, nr);
    QueryMeans(w, AfterCall(w, s, e), e.arg, w.abi.rx, 1);
  }

  lemma QueryMeans(w: World, s: State, q: nat, lay: Layout, t: nat)
    requires lay.Valid() && AreaFits(w.cfg, lay, s.mem, q) && t < 3 && Faithful(s.dumps)
    ensures AnswerHandled(w, lay, t, s.mem, q, s.dumps, QueryStep(w, s, q, lay, t))
    ensures QueryStep(w, s, q, lay, t).log == s.log
  {
    hide HandledAs, AfterQuery, DumpedAs, Dumped, Faithful, Matches, CString, Chars, Rd32, Layout.Valid, Offset;
    HandlerMeaning(w.cfg, lay, s.mem, q);
    if Enabled(w.cfg, lay) {
      DumpMeans(w, s.dumps, s.mem, q, t);
    }
  }

  /** A granted query for extended properties changes no memory; its dump has type 2 and does not
      depend on the count. */
  lemma ExtAnswer(w: World, s: State, e: Event, nr: nat)
    requires w.abi.Valid() && Safe(w, s, e) && Commands(e, nr) && OnDevice(s, e) && Faithful(s.dumps)
    requires w.abi.roles(nr) == QueryExt && e.arg != 0 && w.kernel(Passed(s, e)).ret >= 0
    ensures var m, s' := Leaves(w.kernel, Passed(s, e)), Step(w, s, e);
      && s'.log == Passed(s, e) && s'.mem == m && (w.cfg.ext ==> e.arg + 32 <= |m|)
      && if w.cfg.ext && NameAllowed(w.cfg, m, e.arg)
         then DumpedAs(w.cfg.hexdumpOnce, CString(Chars(m[e.arg..e.arg + 32])), 2, s.dumps, s'.dumps)
         else s'.dumps == s.dumps
  {
    hide Leaves, Commands, OnDevice, Faithful, Matches, CString, Chars, Dumped, DumpedAs, Abi.Valid, Safe, Step;
    QueryPasses(w, s, e, nr);
    if w.cfg.ext {
      DumpMeans(w, s.dumps, Leaves(w.kernel, Passed(s, e)), e.arg, 2);
    }
  }

  // ----- rule requests

  /** The size of the request header in each variant, inside which pointer forms keep the old size
      of a rule and the address of the rules. */
  function HeaderSize(v: Variant): (h: nat) {
    match v
    case AddRt => 44
    case AddRtAfter => 48
    case AddRtV2 => 64
    case AddRtAfterV2 => 64
    case AddFlt => 16
    case AddFltAfter => 20
    case AddFltV2 => 40
    case AddFltAfterV2 => 40
  }

  predicate ForFilters(v: Variant) {
    v == AddFlt || v == AddFltAfter || v == AddFltV2 || v == AddFltAfterV2
  }

  predicate PointsToRules(v: Variant) {
    v == AddRtV2 || v == AddFltV2 || v == AddRtAfterV2 || v == AddFltAfterV2
  }

  /** The kernel's rule-add record. */
  function RecordSize(v: Variant): (r: nat) {
    if ForFilters(v) then 372 else 180
  }

  function LayoutFor(w: World, v: Variant): (r: RuleLayout) {
    if ForFilters(v) then w.abi.flt else w.abi.rt
  }

  /** A rule-add request the bridge translates: command `nr` adds rules in form `v`, the switch is on,
      from one to eight rules are announced, and a pointer form has a pointer. */
  ghost predicate Adds(w: World, s: State, e: Event, nr: nat, v: Variant) {
    var head := w.abi.heads(v);
    && Commands(e, nr) && OnDevice(s, e) && w.abi.roles(nr) == Add(v) && w.cfg.rtFltTranslate && e.arg != 0
    && e.arg + head.count < |s.mem| && 1 <= s.mem[e.arg + head.count] <= 8
    && (PointsToRules(v) ==>
          e.arg + head.pointer + 8 <= |s.mem| && s.mem[e.arg + head.pointer..e.arg + head.pointer + 8] != Zeros(8))
  }

  /** Where the caller's rules are. */
  function RulesAt(w: World, s: State, e: Event, v: Variant): (p: nat)
    requires PointsToRules(v) ==> e.arg + w.abi.heads(v).pointer + 8 <= |s.mem|
  {
    if PointsToRules(v) then Rd32(s.mem, e.arg + w.abi.heads(v).pointer) else e.arg + w.abi.heads(v).inlineRules
  }

  lemma PointerNull(m: seq<byte>, p: nat)
    requires p + 8 <= |m|
    ensures m[p..p + 8] == Zeros(8) <==> Rd32(m, p) == 0 && Rd32(m, p + 4) == 0
  {
    hide Rd32;
    WordBelow(m, p);
    WordBelow(m, p + 4);
    var w := m[p..p + 8];
    assert w[0] == m[p] && w[1] == m[p + 1] && w[2] == m[p + 2] && w[3] == m[p + 3];
    assert w[4] == m[p + 4] && w[5] == m[p + 5] && w[6] == m[p + 6] && w[7] == m[p + 7];
  }

  lemma FormIs(w: World, v: Variant)
    requires w.abi.Valid()
    ensures var f := w.abi.FormOf(v);
      && f.Valid() && f.variant == v && f.head == w.abi.heads(v) && f.rule == LayoutFor(w, v)
      && v.Header() == HeaderSize(v) && f.rule.OldAdd() == RecordSize(v) && (v.ByPointer() <==> PointsToRules(v))
      && (f.rule.Flt? <==> ForFilters(v))
      && f.rule.OldWords() == Words(RecordSize(v), RecordSize(v) - 8, RecordSize(v) - 4)
      && f.rule.NewWords() == Words(f.rule.size, f.rule.hdl, f.rule.status)
  {
    hide Abi.Valid, RuleLayout.AddPlan, RuleLayout.Valid;
    ValidForm(w, v);
  }

  lemma ValidForm(w: World, v: Variant)
    requires w.abi.Valid()
    ensures w.abi.FormOf(v).Valid()
  {
  }

  /** Such a request is the step of a rule-add request. */
  lemma AddsStep(w: World, s: State, e: Event, nr: nat, v: Variant)
    requires w.abi.Valid() && Safe(w, s, e) && Adds(w, s, e, nr, v)
    ensures var f := w.abi.FormOf(v);
      && Ready(f, s.mem, e.arg) && f.Valid()
      && CountOf(f, s.mem, e.arg) == s.mem[e.arg + w.abi.heads(v).count]
      && (PointsToRules(v) ==> e.arg + w.abi.heads(v).pointer + 8 <= |s.mem|)
      && RulesOf(f, s.mem, e.arg) == RulesAt(w, s, e, v)
      && Step(w, s, e) == AddStep(w, Asked(s, e), e, f)
  {
    hide AddStep, Commands, OnDevice, Abi.Valid, Offset, Rd32, Form.Valid, RuleLayout.OldAdd, RuleLayout.OldWords;
    CommandIs(w, s, e, nr);
    FormIs(w, v);
    if PointsToRules(v) {
      PointerNull(s.mem, e.arg + w.abi.heads(v).pointer);
    }
    assert Translates(w.abi.FormOf(v), s.mem, e.arg);
  }

  /** It makes one call, with a private buffer that starts with the caller's header. The pointer forms
      change two fields of it: the size of a rule, and the address of the rules, which is that of the
      first byte behind the header. */
  lemma AddRequestHeader(w: World, s: State, e: Event, nr: nat, v: Variant, k: nat)
    requires w.abi.Valid() && Safe(w, s, e) && Adds(w, s, e, nr, v) && k < HeaderSize(v)
    ensures var log, head := Step(w, s, e).log, w.abi.heads(v);
      && |log| == |s.log| + 1 && log[..|s.log|] == s.log
      && var c := log[|s.log|];
        && c.fd == e.fd && c.request == e.request && c.addr == w.stack && c.private
        && |c.view| == HeaderSize(v) + Offset(8, RecordSize(v)) && e.arg + HeaderSize(v) <= |s.mem|
        && if !PointsToRules(v) then c.view[k] == s.mem[e.arg + k]
           else
             && head.ruleSize + 4 <= HeaderSize(v) && head.pointer + 8 <= HeaderSize(v)
             && Value(c.view[head.ruleSize..head.ruleSize + 4]) == RecordSize(v)
             && (w.stack + |c.view| < 0x1_0000_0000_0000_0000 ==>
                   Value(c.view[head.pointer..head.pointer + 8]) == w.stack + HeaderSize(v))
             && (head.ruleSize <= k < head.ruleSize + 4 || head.pointer <= k < head.pointer + 8
                 || c.view[k] == s.mem[e.arg + k])
  {
    hide KernelRequest, KernelHeader, Form.Valid, Ready, Adds, RulesOf, Abi.Valid, RuleLayout.OldAdd, Offset, Step, Safe,
        Returned, Leaves, Value, CountOf, Apply, RecordAt;
    AddsStep(w, s, e, nr, v);
    FormIs(w, v);
    var f, s1 := w.abi.FormOf(v), Asked(s, e);
    ReadyMeans(f, s.mem, e.arg);
    AddStepMeaning(w, s1, e, f, e.arg);
    KernelSees(f, s.mem, e.arg, w.stack, 0);
    HeaderSeen(f, s.mem, e.arg, w.stack, k);
  }

  /** The header of the kernel's buffer, read back. */
  lemma HeaderSeen(f: Form, m: seq<byte>, arg: nat, stack: nat, k: nat)
    requires f.Valid() && Ready(f, m, arg) && k < f.variant.Header()
    ensures var b, v, h := KernelRequest(f, m, arg, stack), f.head, f.variant.Header();
      && h <= |b| && arg + h <= |m|
      && if !f.variant.ByPointer() then b[k] == m[arg + k]
         else
           && v.ruleSize + 4 <= h && v.pointer + 8 <= h
           && Value(b[v.ruleSize..v.ruleSize + 4]) == f.rule.OldAdd()
           && (stack + |b| < 0x1_0000_0000_0000_0000 ==> Value(b[v.pointer..v.pointer + 8]) == stack + h)
           && (v.ruleSize <= k < v.ruleSize + 4 || v.pointer <= k < v.pointer + 8 || b[k] == m[arg + k])
  {
    hide RuleLayout.Valid, Blit, LittleEndian, Variant.Header, Offset, KernelRequest, KernelHeader, RulesOf, Value,
        Span, Apply, RecordAt, Form.BufferSize;
    ReadyMeans(f, m, arg);
    KernelSees(f, m, arg, stack, 0);
    HeaderMeaning(f, m, arg, stack);
    var b, h := KernelRequest(f, m, arg, stack), f.variant.Header();
    assert b[..h][k] == b[k] && m[arg..arg + h][k] == m[arg + k];
    if f.variant.ByPointer() {
      SliceOfSlice(b, 0, h, f.head.ruleSize, f.head.ruleSize + 4);
      assert b[0..h] == b[..h];
      WordAndDouble();
      ValueOfLittleEndian(f.rule.OldAdd(), 4);
      if stack + |b| < 0x1_0000_0000_0000_0000 {
        PointerMeaning(f, m, arg, stack);
      }
    }
  }

  /** The kernel's record `now` holds the caller's rule `was`: the first 160 bytes, four zeros, then the
      priority and the rear flag at 168, or for a filter the equation at 164, the fields from the table
      index on at 348, and the rear flag at 360. */
  ghost predicate Narrowed(lay: RuleLayout, was: seq<byte>, now: seq<byte>) {
    && |now| == (if lay.Rt? then 180 else 372) && |was| >= 160 && lay.atRear < |was|
    && now[..160] == was[..160] && now[160..164] == [0, 0, 0, 0]
    && if lay.Rt? then
         lay.maxPrio + 4 <= |was| && now[164..168] == was[lay.maxPrio..lay.maxPrio + 4] && now[168] == was[lay.atRear]
       else
         && lay.eqAttrib + 184 <= |was| && lay.rtTblIdx + 12 <= |was|
         && now[164..348] == was[lay.eqAttrib..lay.eqAttrib + 184]
         && now[348..360] == was[lay.rtTblIdx..lay.rtTblIdx + 12] && now[360] == was[lay.atRear]
  }

  lemma NarrowedIs(lay: RuleLayout, was: seq<byte>)
    requires lay.Valid() && |was| == lay.size
    ensures Narrowed(lay, was, Apply(lay.AddPlan(), was, lay.OldAdd()))
  {
    hide Apply, RuleLayout.AddPlan, RuleLayout.Valid;
    NarrowedFields(lay, was);
  }

  /** Behind the header, each rule of the caller lies under its own index in the kernel's layout. */
  lemma AddRequestRule(w: World, s: State, e: Event, nr: nat, v: Variant, i: nat)
    requires w.abi.Valid() && Safe(w, s, e) && Adds(w, s, e, nr, v) && i < s.mem[e.arg + w.abi.heads(v).count]
    ensures var log, lay := Step(w, s, e).log, LayoutFor(w, v);
      && |log| == |s.log| + 1
      && var q, p := HeaderSize(v) + Offset(i, RecordSize(v)), RulesAt(w, s, e, v) + Offset(i, lay.size);
        && q + RecordSize(v) <= |log[|s.log|].view| && p + lay.size <= |s.mem|
        && Narrowed(lay, s.mem[p..p + lay.size], log[|s.log|].view[q..q + RecordSize(v)])
  {
    hide KernelRequest, KernelHeader, Form.Valid, Ready, Adds, RulesOf, RulesAt, Abi.Valid, RuleLayout.OldAdd, Offset, Step, Safe,
        Returned, Leaves, Apply, RuleLayout.Valid, RuleLayout.AddPlan, CountOf, Narrowed;
    AddsStep(w, s, e, nr, v);
    FormIs(w, v);
    var f, s1 := w.abi.FormOf(v), Asked(s, e);
    RuleIsValid(f);
    ReadyMeans(f, s.mem, e.arg);
    AddStepMeaning(w, s1, e, f, e.arg);
    KernelSees(f, s.mem, e.arg, w.stack, i);
    NarrowedIs(f.rule, RecordAt(s.mem, RulesOf(f, s.mem, e.arg), f.rule.size, i));
  }

  lemma RuleIsValid(f: Form)
    requires f.Valid()
    ensures f.rule.Valid()
  {
  }

  /** Rule `i` of the caller gets the handle and the status of the kernel's record `i`: bytes 172 to
      175 and 176 to 179, for filters 364 to 367 and 368 to 371; whatever the kernel returned. */
  lemma AddRequestResults(w: World, s: State, e: Event, nr: nat, v: Variant, i: nat)
    requires w.abi.Valid() && Safe(w, s, e) && Adds(w, s, e, nr, v) && i < s.mem[e.arg + w.abi.heads(v).count]
    ensures var s', lay := Step(w, s, e), LayoutFor(w, v);
      && s'.log != []
      && var b := Leaves(w.kernel, s'.log);
        var q, p := HeaderSize(v) + Offset(i, if ForFilters(v) then 372 else 180), RulesAt(w, s, e, v) + Offset(i, lay.size);
        var hdl, status := q + (if ForFilters(v) then 364 else 172), q + (if ForFilters(v) then 368 else 176);
        && p + lay.hdl + 4 <= |s'.mem| && p + lay.status + 4 <= |s'.mem| && hdl + 4 <= |b| && status + 4 <= |b|
        && s'.mem[p + lay.hdl..p + lay.hdl + 4] == b[hdl..hdl + 4]
        && s'.mem[p + lay.status..p + lay.status + 4] == b[status..status + 4]
  {
    hide KernelRequest, Returned, Form.Valid, Ready, RulesOf, RulesAt, Leaves, Offset, Adds, Step, Safe, Abi.Valid,
        RuleLayout.OldAdd, CountOf;
    AddsStep(w, s, e, nr, v);
    FormIs(w, v);
    AddStepResults(w, Asked(s, e), e, w.abi.FormOf(v), i);
  }

  /** Nothing else of the caller's memory changes. */
  lemma AddRequestFrame(w: World, s: State, e: Event, nr: nat, v: Variant, a: nat)
    requires w.abi.Valid() && Safe(w, s, e) && Adds(w, s, e, nr, v) && a < |s.mem|
    ensures var s', lay := Step(w, s, e), LayoutFor(w, v);
      && s'.dumps == s.dumps
      && ((forall i: nat :: i < s.mem[e.arg + w.abi.heads(v).count] ==>
             var p := RulesAt(w, s, e, v) + Offset(i, lay.size);
             !(p + lay.hdl <= a < p + lay.hdl + 4) && !(p + lay.status <= a < p + lay.status + 4))
          ==> s'.mem[a] == s.mem[a])
  {
    hide KernelRequest, Returned, Form.Valid, Ready, RulesOf, RulesAt, Leaves, Offset, Adds, Step, Safe, Abi.Valid,
        RuleLayout.OldAdd, CountOf;
    AddsStep(w, s, e, nr, v);
    FormIs(w, v);
    AddStepMeaning(w, Asked(s, e), e, w.abi.FormOf(v), a);
  }

  /** A count out of range, or no pointer where one is needed: the request is passed on. */
  lemma OtherAddsPass(w: World, s: State, e: Event, nr: nat, v: Variant)
    requires w.abi.Valid() && Safe(w, s, e) && Commands(e, nr) && w.abi.roles(nr) == Add(v)
    requires e.arg + w.abi.heads(v).count < |s.mem| && !Adds(w, s, e, nr, v)
    requires PointsToRules(v) ==> e.arg + w.abi.heads(v).pointer + 8 <= |s.mem|
    ensures var s' := Step(w, s, e);
      s'.log == Passed(s, e) && s'.mem == Leaves(w.kernel, Passed(s, e)) && s'.dumps == s.dumps
  {
    hide Leaves, Abi.Valid, Commands, OnDevice, RequestFits, RuleStep, Offset, Rd32;
    CommandIs(w, s, e, nr);
    FormIs(w, v);
    if PointsToRules(v) {
      PointerNull(s.mem, e.arg + w.abi.heads(v).pointer);
    }
  }

  /** A generate-equation request with the switch on: the kernel sees 340 bytes, the first four and
      148 bytes of the attribute of the caller's record and zeros; if it succeeds, its bytes 156 to
      339 become the caller's equation; nothing else changes. */
  lemma EquationRequest(w: World, s: State, e: Event, nr: nat, k: nat, a: nat)
    requires w.abi.Valid() && Safe(w, s, e) && Commands(e, nr) && OnDevice(s, e) && w.abi.roles(nr) == GenerateEq
    requires w.cfg.rtFltTranslate && e.arg != 0 && k < 340 && a < |s.mem|
    ensures var s', eq := Step(w, s, e), e.arg + w.abi.eq.eq;
      && s'.dumps == s.dumps && |s'.log| == |s.log| + 1 && s'.log[..|s.log|] == s.log
      && var c, b := s'.log[|s.log|], Leaves(w.kernel, s'.log);
        && c.fd == e.fd && c.request == e.request && c.private && |c.view| == |b| == 340
        && e.arg + w.abi.eq.attrib + 148 <= |s.mem|
        && c.view[k] == (if k < 4 then s.mem[e.arg + k] else if k < 152 then s.mem[e.arg + w.abi.eq.attrib + (k - 4)] else 0)
        && s'.mem[a] == if w.kernel(s'.log).ret >= 0 && eq <= a < eq + 184 then b[156 + (a - eq)] else s.mem[a]
  {
    hide Leaves, Abi.Valid, Commands, OnDevice, EqStep, AddStep;
    CommandIs(w, s, e, nr);
    EqIsValid(w);
    EqStepView(w, Asked(s, e), e, k);
    EqStepMeaning(w, Asked(s, e), e, a);
    EqKeepsDumps(w, Asked(s, e), e);
  }

  lemma EqIsValid(w: World)
    requires w.abi.Valid()
    ensures w.abi.eq.Valid()
  {
  }

  lemma EqKeepsDumps(w: World, s: State, e: Event)
    requires w.abi.eq.Valid() && e.arg + w.abi.eq.size <= |s.mem|
    ensures EqStep(w, s, e).dumps == s.dumps
  {
  }

  /** A daemon that adds routing rules in the kernel's own layout: such requests exist. */
  lemma AddRequestExample(mem: seq<byte>)
    requires |mem| == 2000 && 1 <= mem[12] <= 8
    ensures var w := PlainWorld().(abi := PlainAbi().(roles := n => Add(AddRt)));
      var s, e := State(mem, [], EMPTY, NO_DUMPS), Event(3, Request(0xC024, 7), 8, _ => "/dev/ipa");
      w.Valid() && Safe(w, s, e) && Adds(w, s, e, 7, AddRt)
  {
    hide Layout.Valid, RuleLayout.Valid, Path, AnswerSafe, Direct;
    PlainWorldIsValid();
    var abi := PlainAbi().(roles := n => Add(AddRt));
    var w := PlainWorld().(abi := abi);
    var s, e := State(mem, [], EMPTY, NO_DUMPS), Event(3, Request(0xC024, 7), 8, _ => "/dev/ipa");
    forall v: Variant
      ensures abi.FormOf(v) == PlainAbi().FormOf(v)
    {
    }
    assert abi.Valid();
    assert e.request == Request(0xC024, 7);
    assert Commands(e, 7);
    CommandIs(w, s, e, 7);
    assert Translates(abi.FormOf(AddRt), mem, 8) && RequestFits(abi.FormOf(AddRt), mem, 8);
  }
}
