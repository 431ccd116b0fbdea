/** Whole runs of intercepted calls. */
module Runs {
  import opened Bridges
  import opened Bytes
  import opened Configuration
  import opened FdCache
  import opened HexDump
  import opened Marshalling
  import opened Query
  import opened Records
  import opened Rules
  import opened Scanners
  import opened Text
  import opened Widening

  /** One thing the caller does: an intercepted call, or a write to its own memory. */
  datatype Act = Do(e: Event) | Write(at: nat, data: seq<byte>)

  /** The caller's memory after its write; there is nothing to write to outside it. */
  function Wrote(s: State, at: nat, data: seq<byte>): (s': State)
    ensures |s'.mem| == |s.mem|
  {
    s.(mem := if at + |data| <= |s.mem| then Blit(s.mem, at, data) else s.mem)
  }

  /** The caller keeps its side in this act. */
  ghost predicate SafeAct(w: World, s: State, a: Act) {
    a.Do? ==> Safe(w, s, a.e)
  }

  ghost function Next(w: World, s: State, a: Act): (s': State)
    requires w.abi.Valid() && SafeAct(w, s, a)
    ensures |s'.mem| == |s.mem|
  {
    match a
    case Do(e) => Step(w, s, e)
    case Write(at, data) => Wrote(s, at, data)
  }

  /** The same act without the bridge. */
  function DirectNext(w: World, s: State, a: Act): (s': State)
    ensures |s'.mem| == |s.mem|
  {
    match a
    case Do(e) => Direct(w, s, e)
    case Write(at, data) => Wrote(s, at, data)
  }

  /** In every state the run reaches, the caller keeps its side. */
  ghost predicate SafeRun(w: World, s: State, acts: seq<Act>)
    requires w.abi.Valid()
    decreases |acts|
  {
    acts == [] || (SafeAct(w, s, acts[0]) && SafeRun(w, Next(w, s, acts[0]), acts[1..]))
  }

  ghost function Run(w: World, s: State, acts: seq<Act>): (r: State)
    requires w.abi.Valid() && SafeRun(w, s, acts)
    decreases |acts|
  {
    if acts == [] then s else Run(w, Next(w, s, acts[0]), acts[1..])
  }

  /** The same run made without the bridge. */
  function DirectRun(w: World, s: State, acts: seq<Act>): (r: State)
    decreases |acts|
  {
    if acts == [] then s else DirectRun(w, DirectNext(w, s, acts[0]), acts[1..])
  }

  /** The intercepted calls of a run, in order. */
  function Calls(acts: seq<Act>): (events: seq<Event>)
    decreases |acts|
  {
    if acts == [] then []
    else if acts[0].Do? then [acts[0].e] + Calls(acts[1..])
    else Calls(acts[1..])
  }

  /** Each intercepted call makes exactly one kernel call, for the same descriptor and request. */
  lemma OneCallEach(w: World, s: State, e: Event)
    requires w.abi.Valid() && Safe(w, s, e)
    ensures var log := Step(w, s, e).log;
      |log| == |s.log| + 1 && log[..|s.log|] == s.log && log[|s.log|].fd == e.fd && log[|s.log|].request == e.request
  {
    hide KernelRequest, Returned, Apply, Blit, AfterQuery, Safe, RuleSafe, AnswerSafe, TranslatesCall, Leaves,
        Abi.Valid;
  }

  /** Over any run the log grows by one call for each intercepted call, in order, and by nothing else. */
  lemma {:induction false} OneCallPerEvent(w: World, s: State, acts: seq<Act>)
    requires w.abi.Valid() && SafeRun(w, s, acts)
    ensures var log, events := Run(w, s, acts).log, Calls(acts);
      && |log| == |s.log| + |events|
      && log[..|s.log|] == s.log
      && forall i :: 0 <= i < |events| ==> log[|s.log| + i].fd == events[i].fd && log[|s.log| + i].request == events[i].request
    decreases |acts|
  {
    hide Step, Safe, Abi.Valid, Blit;
    if acts != [] {
      var s1, rest := Next(w, s, acts[0]), Calls(acts[1..]);
      OneCallPerEvent(w, s1, acts[1..]);
      if acts[0].Do? {
        OneCallEach(w, s, acts[0].e);
        LogsJoin(s.log, s1.log, Run(w, s, acts).log, acts[0].e, rest);
        assert Calls(acts) == [acts[0].e] + rest;
      }
    }
  }

  /** A log that grew by one call and then by one per event grew by one per event. */
  lemma LogsJoin(before: seq<Call>, between: seq<Call>, after: seq<Call>, e: Event, rest: seq<Event>)
    requires |between| == |before| + 1 && between[..|before|] == before
    requires between[|before|].fd == e.fd && between[|before|].request == e.request
    requires |after| == |between| + |rest| && after[..|between|] == between
    requires forall i :: 0 <= i < |rest| ==> after[|between| + i].fd == rest[i].fd && after[|between| + i].request == rest[i].request
    ensures after[..|before|] == before
    ensures forall i :: 0 <= i < |rest| + 1 ==>
      after[|before| + i].fd == ([e] + rest)[i].fd && after[|before| + i].request == ([e] + rest)[i].request
  {
    assert after[..|before|] == after[..|between|][..|before|];
    assert after[|before|] == after[..|between|][|before|];
    forall i | 0 < i < |rest| + 1
      ensures after[|before| + i].fd == ([e] + rest)[i].fd && after[|before| + i].request == ([e] + rest)[i].request
    {
      assert after[|before| + i] == after[|between| + (i - 1)] && ([e] + rest)[i] == rest[i - 1];
    }
  }

  /** The bridge leaves this call alone. */
  ghost predicate Transparent(w: World, s: State, e: Event) {
    (!w.cfg.rtFltTranslate && !w.cfg.translateMode) || Type(e.request) != IPA_MAGIC || !Asked(s, e).cache.isIpa
  }

  /** Then caller memory and the kernel's log are what the direct call leaves. */
  lemma TransparentStep(w: World, s: State, e: Event)
    requires w.abi.Valid() && Safe(w, s, e) && Transparent(w, s, e)
    ensures Step(w, s, e).mem == Direct(w, s, e).mem && Step(w, s, e).log == Direct(w, s, e).log
  {
    hide KernelRequest, Returned, Apply, Blit, Widened, Matches, Score, Leaves, Abi.Valid;
  }

  ghost predicate TransparentRun(w: World, s: State, acts: seq<Act>)
    requires w.abi.Valid() && SafeRun(w, s, acts)
    decreases |acts|
  {
    acts == [] ||
    ((acts[0].Do? ==> Transparent(w, s, acts[0].e)) && TransparentRun(w, Next(w, s, acts[0]), acts[1..]))
  }

  /** Over a whole run of such calls, with whatever the caller writes between them, the bridge is
      invisible: same memory, same kernel log. */
  lemma {:induction false} TransparentRunIsDirect(w: World, s: State, d: State, acts: seq<Act>)
    requires w.abi.Valid() && SafeRun(w, s, acts) && TransparentRun(w, s, acts)
    requires s.mem == d.mem && s.log == d.log
    ensures Run(w, s, acts).mem == DirectRun(w, d, acts).mem
    ensures Run(w, s, acts).log == DirectRun(w, d, acts).log
    decreases |acts|
  {
    hide Step, Safe, Abi.Valid, Transparent, Blit;
    if acts != [] {
      if acts[0].Do? {
        TransparentStep(w, s, acts[0].e);
        DirectIgnoresCache(w, s, d, acts[0].e);
      }
      TransparentRunIsDirect(w, Next(w, s, acts[0]), DirectNext(w, d, acts[0]), acts[1..]);
    }
  }

  lemma DirectIgnoresCache(w: World, s: State, d: State, e: Event)
    requires s.mem == d.mem && s.log == d.log
    ensures Direct(w, s, e).mem == Direct(w, d, e).mem && Direct(w, s, e).log == Direct(w, d, e).log
    ensures Direct(w, s, e).cache == s.cache
  {
  }

  lemma {:induction false} SwitchedOffIsTransparent(w: World, s: State, acts: seq<Act>)
    requires w.abi.Valid() && SafeRun(w, s, acts) && !w.cfg.rtFltTranslate && !w.cfg.translateMode
    ensures TransparentRun(w, s, acts)
    decreases |acts|
  {
    hide Step, Safe, Abi.Valid;
    if acts != [] {
      SwitchedOffIsTransparent(w, Next(w, s, acts[0]), acts[1..]);
    }
  }

  /** End to end: unless the environment asks for a translation, the daemon and the kernel cannot
      tell the bridge is there. The block may be longer than what the bridge keeps of it. */
  lemma InertUnlessAsked(w: World, vars: seq<Variable>, s: State, acts: seq<Act>)
    requires forall v :: v in vars ==> v.Proper()
    requires !AsksFor(vars, MODE) && !AsksFor(vars, RT_FLT)
    ensures w.cfg == LoadCfg(Kept(Serialise(vars))) && w.abi.Valid() && SafeRun(w, s, acts) ==>
      && Run(w, s, acts).mem == DirectRun(w, s, acts).mem
      && Run(w, s, acts).log == DirectRun(w, s, acts).log
  {
    hide LoadCfg, Kept, Abi.Valid, SafeRun, AsksFor;
    if w.cfg == LoadCfg(Kept(Serialise(vars))) && w.abi.Valid() && SafeRun(w, s, acts) {
      SwitchesIff(vars);
      SwitchedOffIsTransparent(w, s, acts);
      TransparentRunIsDirect(w, s, s, acts);
    }
  }

  // ----- what a run keeps

  /** One call keeps the dump record faithful and forgets no dump, whatever else happens. */
  lemma StepKeepsDumps(w: World, s: State, e: Event)
    requires w.abi.Valid() && Safe(w, s, e) && Faithful(s.dumps)
    ensures var d := Step(w, s, e).dumps;
      Faithful(d) && s.dumps.mask <= d.mask && s.dumps.log <= d.log
  {
    hide KernelRequest, Returned, Apply, Blit, AfterQuery, Examines, Allowed, Leaves, Abi.Valid, NameAt, Fresh,
        Faithful, DumpOnce, RuleSafe, AnswerSafe, TranslatesCall;
    forall t: nat, c: nat | Kind(t, c)
      ensures var d := DumpOnce(s.dumps, w.cfg.hexdumpOnce, t, c);
        Faithful(d) && s.dumps.mask <= d.mask && s.dumps.log <= d.log
    {
      DumpStep(s.dumps, w.cfg.hexdumpOnce, t, c);
    }
  }

  lemma {:induction false} RunKeepsDumps(w: World, s: State, acts: seq<Act>)
    requires w.abi.Valid() && SafeRun(w, s, acts) && Faithful(s.dumps)
    ensures var d := Run(w, s, acts).dumps;
      Faithful(d) && s.dumps.mask <= d.mask && s.dumps.log <= d.log
    decreases |acts|
  {
    hide Step, Safe, Abi.Valid, Faithful, Blit;
    if acts != [] {
      if acts[0].Do? {
        StepKeepsDumps(w, s, acts[0].e);
      }
      RunKeepsDumps(w, Next(w, s, acts[0]), acts[1..]);
    }
  }

  /** Over any run that starts with nothing dumped, whatever becomes of the descriptors and whatever
      the caller writes: no kind of answer is dumped twice. */
  lemma EachKindDumpedOnce(w: World, s: State, acts: seq<Act>, i: nat, j: nat)
    requires w.abi.Valid() && SafeRun(w, s, acts) && s.dumps == NO_DUMPS
    ensures var log := Run(w, s, acts).dumps.log;
      i < j < |log| ==> log[i] != log[j]
  {
    hide Run, SafeRun, Abi.Valid;
    RunKeepsDumps(w, s, acts);
  }

  // ----- which descriptors are taken for the device

  /** What the descriptor cache is asked over some calls. */
  function Inquiries(events: seq<Event>): (qs: seq<Inquiry>)
    decreases |events|
  {
    if events == [] then []
    else if Type(events[0].request) == IPA_MAGIC then
      [Inquiry(events[0].links, events[0].fd)] + Inquiries(events[1..])
    else Inquiries(events[1..])
  }

  /** For each call of the bridge's type: is it handled as the device's? */
  ghost function Taken(w: World, s: State, acts: seq<Act>): (r: seq<bool>)
    requires w.abi.Valid() && SafeRun(w, s, acts)
    decreases |acts|
  {
    if acts == [] then []
    else if acts[0].Do? && Type(acts[0].e.request) == IPA_MAGIC then
      [Concerned(s, acts[0].e)] + Taken(w, Next(w, s, acts[0]), acts[1..])
    else Taken(w, Next(w, s, acts[0]), acts[1..])
  }

  lemma StepAsks(w: World, s: State, e: Event)
    requires w.abi.Valid() && Safe(w, s, e)
    ensures Step(w, s, e).cache == if Type(e.request) == IPA_MAGIC then Ask(s.cache, e.links, e.fd) else s.cache
  {
    hide KernelRequest, Returned, Apply, Blit, AfterQuery, Examines, Allowed, Leaves, Abi.Valid, Fresh, Dumped,
        RuleSafe, AnswerSafe, TranslatesCall;
  }

  lemma {:induction false} TakenIsAnswers(w: World, s: State, acts: seq<Act>)
    requires w.abi.Valid() && SafeRun(w, s, acts)
    ensures Taken(w, s, acts) == Answers(s.cache, Inquiries(Calls(acts)))
    decreases |acts|
  {
    hide Step, Safe, Abi.Valid, Fresh, Ask, Blit;
    if acts != [] {
      TakenIsAnswers(w, Next(w, s, acts[0]), acts[1..]);
      if acts[0].Do? {
        StepAsks(w, s, acts[0].e);
        InquiriesCons(acts[0].e, Calls(acts[1..]));
      }
    }
  }

  lemma InquiriesCons(e: Event, rest: seq<Event>)
    ensures Inquiries([e] + rest) ==
      if Type(e.request) == IPA_MAGIC then [Inquiry(e.links, e.fd)] + Inquiries(rest) else Inquiries(rest)
  {
    assert ([e] + rest)[1..] == rest;
  }

  /** Over any run, the calls handled are exactly those on a descriptor that is the device at that
      moment, if and only if no descriptor changes its nature while it is the cached one and the
      cache does not start out wrong about the first. */
  lemma DeviceCallsTakenIff(w: World, s: State, acts: seq<Act>)
    requires w.abi.Valid() && SafeRun(w, s, acts)
    ensures var qs := Inquiries(Calls(acts));
      Taken(w, s, acts) == Lookups(qs) <==> Steady(qs) && StartsRight(s.cache, qs)
  {
    hide Taken, SafeRun, Abi.Valid, Inquiries, Calls, Answers, Lookups, Steady, StartsRight;
    TakenIsAnswers(w, s, acts);
    AgreesIff(s.cache, Inquiries(Calls(acts)));
  }

  /** So on a descriptor table that never changes, from an honest cache, exactly the device's calls
      are handled. */
  lemma StableRunTakesDeviceCalls(w: World, s: State, acts: seq<Act>, links: Links)
    requires w.abi.Valid() && SafeRun(w, s, acts) && Honest(s.cache, links)
    requires forall e :: e in Calls(acts) ==> e.links == links
    ensures Taken(w, s, acts) == Lookups(Inquiries(Calls(acts)))
  {
    hide Taken, SafeRun, Abi.Valid, Inquiries, Calls, Lookups, Steady, StartsRight, Honest;
    HonestStartsRight(s.cache, links, Calls(acts));
    DeviceCallsTakenIff(w, s, acts);
  }

  /** In a table that never changes no descriptor changes its nature, and an honest cache starts
      right. */
  lemma HonestStartsRight(c: Cache, links: Links, events: seq<Event>)
    requires Honest(c, links) && forall e :: e in events ==> e.links == links
    ensures Steady(Inquiries(events)) && StartsRight(c, Inquiries(events))
  {
    InquiriesAbout(links, events);
  }

  lemma {:induction false} InquiriesAbout(links: Links, events: seq<Event>)
    requires forall e :: e in events ==> e.links == links
    ensures forall q :: q in Inquiries(events) ==> q.links == links
    decreases |events|
  {
    if events != [] {
      assert events[0] in events && forall x :: x in events[1..] ==> x in events;
      InquiriesAbout(links, events[1..]);
    }
  }

  /** A call of another type, or on a descriptor that is not the device at that moment. */
  predicate Foreign(e: Event) {
    Type(e.request) != IPA_MAGIC || !Fresh(e.links, e.fd)
  }

  /** A run with such calls alone, on whatever tables and with whatever the caller writes between
      them, is the direct run, provided the cache does not start out wrong about the first; nothing
      is asked of the pointers. */
  lemma {:induction false} ForeignRunIsDirect(w: World, s: State, d: State, acts: seq<Act>)
    requires w.abi.Valid() && (forall e :: e in Calls(acts) ==> Foreign(e))
    requires StartsRight(s.cache, Inquiries(Calls(acts))) && s.mem == d.mem && s.log == d.log
    ensures SafeRun(w, s, acts)
    ensures Run(w, s, acts).mem == DirectRun(w, d, acts).mem
    ensures Run(w, s, acts).log == DirectRun(w, d, acts).log
    decreases |acts|
  {
    hide Fresh, Direct, Abi.Valid, Step, Safe, Inquiries, StartsRight, Blit, Foreign;
    if acts != [] {
      if acts[0].Do? {
        assert Calls(acts)[0] == acts[0].e && Calls(acts)[1..] == Calls(acts[1..]);
        assert forall x :: x in Calls(acts)[1..] ==> x in Calls(acts);
        ForeignStep(w, s, d, Calls(acts));
      }
      ForeignRunIsDirect(w, Next(w, s, acts[0]), DirectNext(w, d, acts[0]), acts[1..]);
    }
  }

  lemma ForeignStep(w: World, s: State, d: State, events: seq<Event>)
    requires w.abi.Valid() && events != [] && (forall e :: e in events ==> Foreign(e))
    requires StartsRight(s.cache, Inquiries(events)) && s.mem == d.mem && s.log == d.log
    ensures Safe(w, s, events[0])
    ensures var s1, d1 := Step(w, s, events[0]), Direct(w, d, events[0]);
      s1.mem == d1.mem && s1.log == d1.log && StartsRight(s1.cache, Inquiries(events[1..]))
  {
    hide Fresh, Direct, Abi.Valid;
    var e := events[0];
    assert e in events;
    assert Type(e.request) == IPA_MAGIC ==> Inquiries(events)[0] == Inquiry(e.links, e.fd);
    assert !Concerned(s, e);
    DirectIgnoresCache(w, s, d, e);
    DirectIgnoresCache(w, Asked(s, e), d, e);
    ForeignFollows(s, events);
  }

  /** After a foreign call the cache starts right for the foreign calls that follow. */
  lemma ForeignFollows(s: State, events: seq<Event>)
    requires events != [] && (forall e :: e in events ==> Foreign(e)) && StartsRight(s.cache, Inquiries(events))
    ensures StartsRight(if Type(events[0].request) == IPA_MAGIC then Asked(s, events[0]).cache else s.cache,
                        Inquiries(events[1..]))
  {
    hide Fresh;
    var e, rest := events[0], events[1..];
    assert e in events && forall x :: x in rest ==> x in events;
    assert Type(e.request) == IPA_MAGIC ==> Inquiries(events)[0] == Inquiry(e.links, e.fd);
    ForeignInquiries(rest);
  }

  lemma {:induction false} ForeignInquiries(events: seq<Event>)
    requires forall e :: e in events ==> Foreign(e)
    ensures forall q :: q in Inquiries(events) ==> !q.IsIpa()
    decreases |events|
  {
    hide Fresh;
    if events != [] {
      assert events[0] in events && forall x :: x in events[1..] ==> x in events;
      ForeignInquiries(events[1..]);
    }
  }

  /** What a mistaken cache costs: a rule request on any file that took over the device's
      descriptor is rewritten, and the file never sees the caller's request. */
  lemma MistakenCallIsRewritten(w: World, s: State, e: Event)
    requires w.abi.Valid() && Type(e.request) == IPA_MAGIC && !Fresh(e.links, e.fd)
    requires s.cache == Cache(e.fd, true) && RuleSafe(w, s.mem, e) && TranslatesCall(w, s.mem, e)
    ensures Safe(w, s, e) && Step(w, s, e).log[|s.log|].private && !Direct(w, s, e).log[|s.log|].private
  {
    hide KernelRequest, Returned, Apply, Blit, Leaves, Abi.Valid, RuleSafe, TranslatesCall;
  }

  /** A daemon whose structures are the kernel's own and whose every request is a rule request, on a
      kernel that grants everything. */
  function PlainAbi(): (r: Abi) {
    Abi(OLD_TX, OLD_RX, Rt(180, 164, 168, 172, 176), Flt(372, 164, 348, 360, 364, 368),
        (v: Variant) => HeaderLayout(4, v.Header(), 0, 8), EqLayout(340, 4, 156), n => GenerateEq)
  }

  function PlainWorld(): (r: World) {
    World(PlainAbi(), Config(true, true, true, true, false, true, "eth0", ""), log => Reply(0, []), 0)
  }

  lemma PlainTx()
    ensures OLD_TX.Valid()
  {
    hide Fits, TargetsApart;
    var plan := [Seg(0, 0, 4), Seg(4, 4, 152), Seg(156, 156, 4), Seg(160, 160, 4), Seg(164, 164, 32), Seg(196, 196, 4)];
    assert OLD_TX.Plan() == plan;
    InPlaceIsProper(plan, 0, 200);
  }

  lemma PlainRx()
    ensures OLD_RX.Valid()
  {
    hide Fits, TargetsApart;
    var plan := [Seg(0, 0, 4), Seg(4, 4, 152), Seg(156, 156, 4), Seg(160, 160, 4)];
    assert OLD_RX.Plan() == plan;
    InPlaceIsProper(plan, 0, 164);
  }

  lemma PlainRt()
    ensures Rt(180, 164, 168, 172, 176).Valid()
  {
    hide Fits, TargetsApart, Inverse;
    var plan := [Seg(0, 0, 12), Seg(12, 12, 148), Seg(164, 164, 4), Seg(168, 168, 1)];
    assert Rt(180, 164, 168, 172, 176).AddPlan() == plan;
    InPlaceIsProper(plan, 0, 180);
  }

  lemma PlainFlt()
    ensures Flt(372, 164, 348, 360, 364, 368).Valid()
  {
    hide Fits, TargetsApart, Inverse;
    var plan := [Seg(0, 0, 12), Seg(12, 12, 148), Seg(164, 164, 184), Seg(348, 348, 12), Seg(360, 360, 1)];
    assert Flt(372, 164, 348, 360, 364, 368).AddPlan() == plan;
    InPlaceIsProper(plan, 0, 372);
  }

  lemma PlainWorldIsValid()
    ensures PlainWorld().Valid()
  {
    hide Layout.Valid, RuleLayout.Valid;
    PlainTx();
    PlainRx();
    PlainRt();
    PlainFlt();
    forall v: Variant
      ensures PlainAbi().FormOf(v).Valid()
    {
    }
  }

  lemma RunOne(w: World, s: State, a: Act)
    requires w.abi.Valid() && SafeAct(w, s, a)
    ensures SafeRun(w, s, [a]) && Run(w, s, [a]) == Next(w, s, a)
  {
    hide Step, Safe, Abi.Valid, Blit;
    assert [a][1..] == [];
  }

  lemma RunTwo(w: World, s: State, a: Act, b: Act)
    requires w.abi.Valid() && SafeAct(w, s, a) && SafeAct(w, Next(w, s, a), b)
    ensures SafeRun(w, s, [a, b]) && Run(w, s, [a, b]) == Next(w, Next(w, s, a), b)
    ensures DirectRun(w, s, [a, b]) == DirectNext(w, DirectNext(w, s, a), b)
  {
    hide Next, SafeAct, DirectNext, Abi.Valid;
    assert [a, b][1..] == [b];
    RunOne(w, Next(w, s, a), b);
    RunOneDirect(w, DirectNext(w, s, a), b);
  }

  lemma RunOneDirect(w: World, s: State, a: Act)
    ensures DirectRun(w, s, [a]) == DirectNext(w, s, a)
  {
    hide DirectNext;
    assert [a][1..] == [];
  }

  /** Two calls on one descriptor, which is the device at the first and not at the second. */
  lemma ReopenedIsRewritten(w: World, s: State, before: Event, after: Event)
    requires w.abi.Valid() && Type(before.request) == Type(after.request) == IPA_MAGIC
    requires before.fd == after.fd != s.cache.fd && Fresh(before.links, before.fd) && !Fresh(after.links, after.fd)
    requires before.arg == 0
    ensures var s1 := Direct(w, Asked(s, before), before);
      RuleSafe(w, s1.mem, after) && TranslatesCall(w, s1.mem, after) ==>
        && SafeRun(w, s, [Do(before), Do(after)])
        && var log := Run(w, s, [Do(before), Do(after)]).log;
          |log| == |DirectRun(w, s, [Do(before), Do(after)]).log| == |s.log| + 2 && log[|s.log| + 1].private
          && !DirectRun(w, s, [Do(before), Do(after)]).log[|s.log| + 1].private
  {
    hide Fresh, Leaves, Abi.Valid, RuleStep, Safe, Step, RuleSafe, TranslatesCall, Run, DirectRun, SafeRun;
    var s1 := Direct(w, Asked(s, before), before);
    if RuleSafe(w, s1.mem, after) && TranslatesCall(w, s1.mem, after) {
      NullCallIsDirect(w, s, before);
      MistakenCallIsRewritten(w, s1, after);
      OneCallEach(w, s1, after);
      RunTwo(w, s, Do(before), Do(after));
    }
  }

  /** A call without an argument is passed on as it is. */
  lemma NullCallIsDirect(w: World, s: State, e: Event)
    requires w.abi.Valid() && e.arg == 0 && Type(e.request) == IPA_MAGIC
    ensures Safe(w, s, e) && Step(w, s, e) == Direct(w, Asked(s, e), e)
  {
    hide Fresh, Leaves, Abi.Valid;
  }

  lemma DeviceThenNotes()
    ensures Fresh(_ => DEVICE, 3) && !Fresh(_ => "/tmp/notes", 3)
  {
    hide Path;
    assert "/tmp/notes"[1] == 't' && DEVICE[1] == 'd';
  }

  /** A failing input: descriptor 3 is the device, is closed and reopened on another file, and the
      next rule request on that file is rewritten. */
  lemma ReopenedDescriptorIsRewritten(mem: seq<byte>)
    requires |mem| >= 400
    ensures PlainWorld().Valid()
    ensures var w, s := PlainWorld(), State(mem, [], EMPTY, NO_DUMPS);
      var before, after := Event(3, 0xCF00, 0, _ => DEVICE), Event(3, 0xCF00, 8, _ => "/tmp/notes");
      && Fresh(before.links, before.fd) && !Fresh(after.links, after.fd)
      && SafeRun(w, s, [Do(before), Do(after)])
      && |Run(w, s, [Do(before), Do(after)]).log| == |DirectRun(w, s, [Do(before), Do(after)]).log| == 2
      && Run(w, s, [Do(before), Do(after)]).log[1].private
      && !DirectRun(w, s, [Do(before), Do(after)]).log[1].private
  {
    hide Fresh, Abi.Valid, Run, SafeRun, DirectRun;
    PlainWorldIsValid();
    DeviceThenNotes();
    var w, s := PlainWorld(), State(mem, [], EMPTY, NO_DUMPS);
    var before, after := Event(3, 0xCF00, 0, _ => DEVICE), Event(3, 0xCF00, 8, _ => "/tmp/notes");
    ReopenedIsRewritten(w, s, before, after);
  }

  // ----- what one translated rule request does

  /** The kernel's only view of the request is the narrowed buffer, and afterwards the caller's
      memory differs from what it was in the result words of the `n` rules at most. */
  lemma AddStepMeaning(w: World, s: State, e: Event, f: Form, a: nat)
    requires f.Valid() && Ready(f, s.mem, e.arg) && a < |s.mem|
    ensures var s' := AddStep(w, s, e, f);
      && s'.log == s.log + [Call(e.fd, e.request, w.stack, true, KernelRequest(f, s.mem, e.arg, w.stack))]
      && ((forall i: nat :: i < CountOf(f, s.mem, e.arg)
             ==> !ResultWord(f.rule.NewWords(), RulesOf(f, s.mem, e.arg) + Offset(i, f.rule.size), a))
          ==> s'.mem[a] == s.mem[a])
  {
    hide KernelRequest, ResultWord, Returned, Form.Valid, Ready, RulesOf, Translates, Leaves;
    ReadyMeans(f, s.mem, e.arg);
    FormWords(f);
    var s' := AddStep(w, s, e, f);
    var n, rules := CountOf(f, s.mem, e.arg), RulesOf(f, s.mem, e.arg);
    OffsetGrows(f.rule.OldAdd(), n, MAX_RULES);
    if forall i: nat :: i < n ==> !ResultWord(f.rule.NewWords(), rules + Offset(i, f.rule.size), a) {
      ReturnedFrame(f.rule.NewWords(), f.rule.OldWords(), s.mem, rules, Leaves(w.kernel, s'.log),
          f.variant.Header(), n, a);
    }
  }

  /** Rule `i` receives the handle and status of the kernel's record `i`, whatever the kernel
      returned. */
  lemma AddStepResults(w: World, s: State, e: Event, f: Form, i: nat)
    requires f.Valid() && Ready(f, s.mem, e.arg) && i < CountOf(f, s.mem, e.arg)
    ensures var s' := AddStep(w, s, e, f);
      var b, mine, theirs := Leaves(w.kernel, s'.log), f.rule.NewWords(), f.rule.OldWords();
      var p, q := RulesOf(f, s.mem, e.arg) + Offset(i, mine.size), f.variant.Header() + Offset(i, theirs.size);
      && mine.Inside() && theirs.Inside() && p + mine.size <= |s'.mem| && q + theirs.size <= |b|
      && WordAt(s'.mem, p + mine.hdl) == WordAt(b, q + theirs.hdl)
      && WordAt(s'.mem, p + mine.status) == WordAt(b, q + theirs.status)
  {
    hide KernelRequest, Returned, WordAt, Form.Valid, Ready, RulesOf, Translates, Leaves, Offset, Words.Inside;
    ReadyMeans(f, s.mem, e.arg);
    FormWords(f);
    var s' := AddStep(w, s, e, f);
    var n, rules := CountOf(f, s.mem, e.arg), RulesOf(f, s.mem, e.arg);
    OffsetGrows(f.rule.OldAdd(), n, MAX_RULES);
    ReturnedWords(f.rule.NewWords(), f.rule.OldWords(), s.mem, rules, Leaves(w.kernel, s'.log), f.variant.Header(),
        n, i);
  }

  /** What the kernel sees of a generate-equation request, byte by byte: the first four bytes and
      the common attribute of the caller's record, and zeros. */
  lemma EqStepView(w: World, s: State, e: Event, k: nat)
    requires w.abi.eq.Valid() && e.arg + w.abi.eq.size <= |s.mem| && k < EQ_BUFFER
    ensures var log := EqStep(w, s, e).log;
      && |log| == |s.log| + 1 && log[..|s.log|] == s.log
      && var c := log[|s.log|];
        && c.fd == e.fd && c.request == e.request && c.private && |c.view| == EQ_BUFFER
        && c.view[k] ==
           if k < 4 then s.mem[e.arg + k]
           else if k < 4 + ATTR_COMMON then s.mem[e.arg + w.abi.eq.attrib + (k - 4)]
           else 0
  {
    hide Blit, Leaves;
    var plan := w.abi.eq.Plan();
    assert TargetsApart(plan);
    if k < 4 {
      SourceOfSeg(plan, 0, k);
    } else if k < 4 + ATTR_COMMON {
      SourceOfSeg(plan, 1, k);
    } else {
      ClearedIffUncovered(plan, k);
    }
  }

  /** A generate-equation request: on failure the caller's record is untouched, on success exactly
      the equation bytes change, to what the kernel left at offset 156 of its buffer. */
  lemma EqStepMeaning(w: World, s: State, e: Event, a: nat)
    requires w.abi.eq.Valid() && e.arg + w.abi.eq.size <= |s.mem| && a < |s.mem|
    ensures var s' := EqStep(w, s, e);
      var b, eq := Leaves(w.kernel, s'.log), e.arg + w.abi.eq.eq;
      && |b| == EQ_BUFFER
      && s'.mem[a] == if w.kernel(s'.log).ret >= 0 && eq <= a < eq + EQ_SIZE then b[EQ_RESULT + (a - eq)] else s.mem[a]
  {
    hide Apply, Leaves;
  }
}
