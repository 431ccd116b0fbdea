/** The interposed `ioctl`. The kernel is any behaviour at all: its reply is an arbitrary function
    of every call made so far. `Step` says what one intercepted call does; `Bridge.Ioctl` does it
    in place; the lemmas are about runs of calls. */
module Bridges {
  import opened Bytes
  import opened Configuration
  import opened FdCache
  import opened HexDump
  import opened Marshalling
  import opened Query
  import opened Records
  import opened Rules
  import opened Scanners
  import opened Text
  import opened Widening

  const IPA_MAGIC := 0xCF
  const EQ_BUFFER := 340
  const EQ_RESULT := 156

  /** What a command number asks for. */
  datatype Role = Add(variant: Variant) | GenerateEq | QueryTx | QueryRx | QueryExt | Other

  /** Offsets in the daemon's generate-equation record. */
  datatype EqLayout = EqLayout(size: nat, attrib: nat, eq: nat) {
    predicate Valid() {
      4 <= size && attrib + ATTR_COMMON <= size && eq + EQ_SIZE <= size
    }

    function Plan(): (r: seq<Seg>) {
      [Seg(0, 0, 4), Seg(4, attrib, ATTR_COMMON)]
    }
  }

  /** The daemon's side of the binary interface: layouts and command numbers. */
  datatype Abi = Abi(tx: Layout, rx: Layout, rt: RuleLayout, flt: RuleLayout, heads: Variant -> HeaderLayout,
                     eq: EqLayout, roles: nat -> Role)
  {
    function FormOf(v: Variant): (r: Form) {
      Form(v, heads(v), if v.IsFilter() then flt else rt)
    }

    ghost predicate Valid() {
      tx.Tx? && tx.Valid() && rx.Rx? && rx.Valid() && eq.Valid() && forall v :: FormOf(v).Valid()
    }
  }

  /** One kernel `ioctl`: `view` is the memory behind its argument, the caller's or a private buffer. */
  datatype Call = Call(fd: Fd, request: nat, addr: nat, private: bool, view: seq<byte>)

  datatype Reply = Reply(ret: int, bytes: seq<byte>)

  /** The reply to the last of the calls made so far. */
  type Kernel = seq<Call> -> Reply

  datatype World = World(abi: Abi, cfg: Config, kernel: Kernel, stack: nat) {
    ghost predicate Valid() {
      abi.Valid() && cfg.Proper()
    }
  }

  /** What the kernel leaves in the memory it was given. */
  function Leaves(k: Kernel, log: seq<Call>): (b: seq<byte>)
    requires log != []
    ensures |b| == |log[|log| - 1].view|
  {
    var view, bytes := log[|log| - 1].view, k(log).bytes;
    if |bytes| == |view| then bytes else view
  }

  datatype State = State(mem: seq<byte>, log: seq<Call>, cache: Cache, dumps: Dumps)

  /** An intercepted call; `links` is the descriptor table at that moment, 0 the null pointer. */
  datatype Event = Event(fd: Fd, request: nat, arg: nat, links: Links)

  function Type(request: nat): (r: nat) { request / 0x100 % 0x100 }
  function Number(request: nat): (r: nat) { request % 0x100 }

  function RoleOf(w: World, e: Event): (r: Role) {
    w.abi.roles(Number(e.request))
  }

  /** The call made as it came. */
  function Direct(w: World, s: State, e: Event): (s': State)
    ensures |s'.mem| == |s.mem|
  {
    var log := s.log + [Call(e.fd, e.request, e.arg, false, s.mem)];
    State(Leaves(w.kernel, log), log, s.cache, s.dumps)
  }

  function Asked(s: State, e: Event): (r: State) {
    s.(cache := Ask(s.cache, e.links, e.fd))
  }

  /** The call concerns the bridge: right type, right device. */
  predicate Concerned(s: State, e: Event) {
    Type(e.request) == IPA_MAGIC && Asked(s, e).cache.isIpa
  }

  /** The pointers of a rule request are good. */
  predicate RuleSafe(w: World, mem: seq<byte>, e: Event) {
    w.cfg.rtFltTranslate && e.arg != 0 ==>
      match RoleOf(w, e)
      case Add(v) => RequestFits(w.abi.FormOf(v), mem, e.arg)
      case GenerateEq => e.arg + w.abi.eq.size <= |mem|
      case _ => true
  }

  /** The area of a query is good, in the state after the kernel call: failed queries need none. */
  ghost predicate AnswerSafe(w: World, s: State, e: Event) {
    Answered(w, s, e) ==>
      match RoleOf(w, e)
      case QueryTx => AreaFits(w.cfg, w.abi.tx, s.mem, e.arg)
      case QueryRx => AreaFits(w.cfg, w.abi.rx, s.mem, e.arg)
      case QueryExt => ExtFits(w.cfg, s.mem, e.arg)
      case _ => true
  }

  /** The call has an argument and the kernel granted it. */
  predicate Answered(w: World, s: State, e: Event) {
    e.arg != 0 && w.kernel(s.log).ret >= 0
  }

  ghost predicate ExtFits(cfg: Config, m: seq<byte>, q: nat) {
    cfg.ext ==> q + NAME_MAX <= |m| && (Allowed(cfg, m, q) ==> q + QUERY_PREFIX_SIZE <= |m|)
  }

  predicate TranslatesCall(w: World, mem: seq<byte>, e: Event) {
    w.cfg.rtFltTranslate && e.arg != 0 &&
    match RoleOf(w, e)
    case Add(v) => Translates(w.abi.FormOf(v), mem, e.arg)
    case GenerateEq => true
    case _ => false
  }

  /** The caller keeps its side: every pointer it passes is good for what the bridge will touch. */
  ghost predicate Safe(w: World, s: State, e: Event) {
    Concerned(s, e) ==>
      RuleSafe(w, s.mem, e) && (!TranslatesCall(w, s.mem, e) ==> AnswerSafe(w, Direct(w, Asked(s, e), e), e))
  }

  /** A rule-add request: the kernel works on a private buffer, the results are copied back. */
  ghost function AddStep(w: World, s: State, e: Event, f: Form): (s': State)
    requires f.Valid() && Ready(f, s.mem, e.arg)
    ensures |s'.mem| == |s.mem|
  {
    ReadyMeans(f, s.mem, e.arg);
    var log := s.log + [Call(e.fd, e.request, w.stack, true, KernelRequest(f, s.mem, e.arg, w.stack))];
    var b, n := Leaves(w.kernel, log), CountOf(f, s.mem, e.arg);
    OffsetGrows(f.rule.OldAdd(), n, MAX_RULES);
    s.(log := log,
       mem := Returned(f.rule.NewWords(), f.rule.OldWords(), s.mem, RulesOf(f, s.mem, e.arg), b, f.variant.Header(), n))
  }

  /** A generate-equation request: the result is copied back only if the kernel succeeded. */
  ghost function EqStep(w: World, s: State, e: Event): (s': State)
    requires w.abi.eq.Valid() && e.arg + w.abi.eq.size <= |s.mem|
    ensures |s'.mem| == |s.mem|
  {
    var log := s.log + [Call(e.fd, e.request, w.stack, true,
                             Apply(w.abi.eq.Plan(), s.mem[e.arg..e.arg + w.abi.eq.size], EQ_BUFFER))];
    var b := Leaves(w.kernel, log);
    s.(log := log, mem := if w.kernel(log).ret >= 0 then Blit(s.mem, e.arg + w.abi.eq.eq, b[EQ_RESULT..EQ_RESULT + EQ_SIZE]) else s.mem)
  }

  ghost function RuleStep(w: World, s: State, e: Event): (s': State)
    requires w.abi.Valid() && RuleSafe(w, s.mem, e) && TranslatesCall(w, s.mem, e)
    ensures |s'.mem| == |s.mem|
  {
    var role := RoleOf(w, e);
    if role.Add? then AddStep(w, s, e, w.abi.FormOf(role.variant)) else EqStep(w, s, e)
  }

  /** The dump decision of an answered query of type `t` that passed the interface test. */
  function Dumped(w: World, d: Dumps, m: seq<byte>, q: nat, t: nat): (r: Dumps)
    requires q + NAME_MAX <= |m|
  {
    DumpOnce(d, w.cfg.hexdumpOnce, t, InterfaceClass(NameAt(m, q)))
  }

  ghost function QueryStep(w: World, s: State, q: nat, lay: Layout, t: nat): (s': State)
    requires lay.Valid() && AreaFits(w.cfg, lay, s.mem, q)
    ensures |s'.mem| == |s.mem|
  {
    s.(mem := AfterQuery(w.cfg, lay, s.mem, q),
       dumps := if Examines(w.cfg, lay, s.mem, q) then Dumped(w, s.dumps, s.mem, q, t) else s.dumps)
  }

  ghost function AfterAnswer(w: World, s: State, e: Event): (s': State)
    requires w.abi.Valid() && AnswerSafe(w, s, e)
    ensures |s'.mem| == |s.mem|
  {
    if !Answered(w, s, e) then s
    else
      match RoleOf(w, e)
      case QueryTx => QueryStep(w, s, e.arg, w.abi.tx, 0)
      case QueryRx => QueryStep(w, s, e.arg, w.abi.rx, 1)
      case QueryExt =>
        if w.cfg.ext && Allowed(w.cfg, s.mem, e.arg)
        then s.(dumps := Dumped(w, s.dumps, s.mem, e.arg, 2)) else s
      case _ => s
  }

  /** One intercepted call. Its result is the kernel's reply to the last call of the new log. */
  ghost function Step(w: World, s: State, e: Event): (s': State)
    requires w.abi.Valid() && Safe(w, s, e)
    ensures |s'.mem| == |s.mem|
  {
    var s1 := if Type(e.request) == IPA_MAGIC then Asked(s, e) else s;
    if !Concerned(s, e) then Direct(w, s1, e)
    else if TranslatesCall(w, s1.mem, e) then RuleStep(w, s1, e)
    else AfterAnswer(w, Direct(w, s1, e), e)
  }

  // ----- the calls, in place

  class Bridge {
    const w: World
    const mem: array<byte>
    const fds: Descriptors
    var log: seq<Call>
    var dumps: Dumps

    ghost function Now(): (r: State)
      reads this, mem, fds
    {
      State(mem[..], log, fds.cache, dumps)
    }

    constructor (w: World, mem: array<byte>)
      ensures this.w == w && this.mem == mem && fresh(fds)
      ensures Now() == State(mem[..], [], EMPTY, NO_DUMPS)
    {
      this.w, this.mem, log, dumps := w, mem, [], NO_DUMPS;
      fds := new Descriptors();
    }

    /** The system call: the kernel may do anything to the memory it is given. */
    method Kernel(fd: Fd, request: nat, addr: nat, private: bool, buf: array<byte>) returns (ret: int)
      modifies this`log, buf
      ensures log == old(log) + [Call(fd, request, addr, private, old(buf[..]))]
      ensures buf[..] == Leaves(w.kernel, log) && ret == w.kernel(log).ret
    {
      log := log + [Call(fd, request, addr, private, buf[..])];
      var reply := w.kernel(log);
      if |reply.bytes| == buf.Length {
        forall i | 0 <= i < buf.Length {
          buf[i] := reply.bytes[i];
        }
        assert buf[..] == reply.bytes;
      }
      ret := reply.ret;
    }

    /** `handle_query_tx` and `handle_query_rx`, which differ in their layouts only. */
    method HandleQuery(q: nat, lay: Layout, t: nat)
      requires w.cfg.Proper() && lay.Valid() && AreaFits(w.cfg, lay, mem[..], q)
      modifies this`dumps, mem
      ensures Now() == QueryStep(w, old(Now()), q, lay, t)
      ensures HandledAs(w.cfg, lay, old(mem[..]), q, mem[..])
    {
      hide Offset, Score, Widened, Find, Matches, Layout.Valid, HandledAs;
      HandlerMeaning(w.cfg, lay, mem[..], q);
      if !Enabled(w.cfg, lay) {
        return;
      }
      var name := Chars(mem[q..q + NAME_MAX]);
      assert mem[q..q + NAME_MAX] == mem[..][q..q + NAME_MAX];
      var allowed := CsvHas(w.cfg.allow, name);
      if !allowed {
        return;
      }
      var n := LoadWord(mem, q + NAME_MAX);
      if n == 0 || n > MAX_PROPS {
        return;
      }
      dumps := DumpOnce(dumps, w.cfg.hexdumpOnce, t, InterfaceClass(name));
      var base := q + QUERY_PREFIX_SIZE;
      ValidIsReadable(lay);
      OffsetGrows(n, lay.Old().size, lay.size);
      var oldScore, newScore;
      if lay.Tx? {
        oldScore := TxScore(mem, base, n, lay.Old());
        newScore := TxScore(mem, base, n, lay);
      } else {
        oldScore := RxScore(mem, base, n, lay.Old());
        newScore := RxScore(mem, base, n, lay);
      }
      var translate := CsvHas(w.cfg.translate, name);
      if w.cfg.translateMode && translate {
        if oldScore >= n * lay.Quota() && newScore < n * lay.Quota() {
          Translate(mem, base, n, lay);
        }
      }
    }

    /** `handle_query_ext`: nothing but the dump. */
    method HandleExt(q: nat)
      requires w.cfg.Proper() && ExtFits(w.cfg, mem[..], q)
      modifies this`dumps
      ensures dumps == if w.cfg.ext && Allowed(w.cfg, mem[..], q) then Dumped(w, old(dumps), mem[..], q, 2) else old(dumps)
    {
      hide Find, Matches;
      if !w.cfg.ext {
        return;
      }
      var name := Chars(mem[q..q + NAME_MAX]);
      assert mem[q..q + NAME_MAX] == mem[..][q..q + NAME_MAX];
      var allowed := CsvHas(w.cfg.allow, name);
      if allowed {
        dumps := DumpOnce(dumps, w.cfg.hexdumpOnce, 2, InterfaceClass(name));
      }
    }

    /** The rule-add translations. */
    method TranslateAdd(fd: Fd, request: nat, arg: nat, f: Form, ghost e: Event) returns (ret: int)
      requires f.Valid() && Ready(f, mem[..], arg) && e.fd == fd && e.request == request && e.arg == arg
      modifies this`log, mem
      ensures Now() == AddStep(w, old(Now()), e, f)
      ensures log != [] && ret == w.kernel(log).ret
    {
      hide Offset, Returned, KernelRequest, Form.Valid, Ready, RuleLayout.NewWords, RuleLayout.OldWords,
          Variant.Header, Leaves;
      ReadyMeans(f, mem[..], arg);
      FormWords(f);
      var n, rules := mem[arg + f.head.count], arg + f.head.inlineRules;
      if f.variant.ByPointer() {
        rules := LoadWord(mem, arg + f.head.pointer);
      }
      OffsetGrows(f.rule.OldAdd(), n, MAX_RULES);
      var buf := Marshal(f, mem, arg, w.stack);
      ret := Kernel(fd, request, w.stack, true, buf);
      CopyBack(f.rule.NewWords(), f.rule.OldWords(), mem, rules, buf, f.variant.Header(), n);
    }

    /** The generate-equation translation. */
    method TranslateEq(fd: Fd, request: nat, arg: nat, ghost e: Event) returns (ret: int)
      requires w.abi.eq.Valid() && arg + w.abi.eq.size <= mem.Length && e.fd == fd && e.request == request
      requires e.arg == arg
      modifies this`log, mem
      ensures Now() == EqStep(w, old(Now()), e)
      ensures log != [] && ret == w.kernel(log).ret
    {
      hide Apply, Blit, Leaves, EqLayout.Plan;
      ghost var m := mem[..];
      var buf := new byte[EQ_BUFFER];
      BuildEq(buf, arg);
      ret := Kernel(fd, request, w.stack, true, buf);
      assert mem[..] == m && |buf[..]| == EQ_BUFFER;
      if ret >= 0 {
        MemCopy(mem, arg + w.abi.eq.eq, buf, EQ_RESULT, EQ_SIZE);
      }
    }

    method BuildEq(buf: array<byte>, arg: nat)
      requires w.abi.eq.Valid() && arg + w.abi.eq.size <= mem.Length && buf != mem && buf.Length == EQ_BUFFER
      modifies buf
      ensures buf[..] == Apply(w.abi.eq.Plan(), mem[..][arg..arg + w.abi.eq.size], EQ_BUFFER)
    {
      hide Apply, Blit;
      ghost var m, plan, rec := buf[..], w.abi.eq.Plan(), mem[..][arg..arg + w.abi.eq.size];
      MemZero(buf, 0, EQ_BUFFER);
      NothingCopied(plan, rec, EQ_BUFFER);
      CopySeg(buf, 0, EQ_BUFFER, mem, arg, w.abi.eq.size, Seg(0, 0, 4), m, plan, 0);
      ClearAgain(buf, 0, EQ_BUFFER, 4, ATTR_OLD, m, plan[..1], rec);
      CopySeg(buf, 0, EQ_BUFFER, mem, arg, w.abi.eq.size, Seg(4, w.abi.eq.attrib, ATTR_COMMON), m, plan, 1);
      assert plan[..2] == plan;
      BlitAll(m, Apply(plan, rec, EQ_BUFFER));
    }

    /** `maybe_translate_rt_flt_ioctl`: handles the rule requests it translates, declines the rest. */
    method MaybeTranslate(fd: Fd, request: nat, arg: nat, ghost e: Event) returns (handled: bool, ret: int)
      requires w.abi.Valid() && RuleSafe(w, mem[..], e) && e.fd == fd && e.request == request && e.arg == arg
      modifies this`log, mem
      ensures handled == TranslatesCall(w, old(mem[..]), e)
      ensures !handled ==> Now() == old(Now())
      ensures handled ==> log != [] && ret == w.kernel(log).ret && Now() == RuleStep(w, old(Now()), e)
    {
      hide AddStep, EqStep, RequestFits, Translates;
      if !w.cfg.rtFltTranslate || arg == 0 {
        return false, 0;
      }
      match w.abi.roles(Number(request)) {
        case Add(v) =>
          var f := w.abi.FormOf(v);
          if Translates(f, mem[..], arg) {
            ret := TranslateAdd(fd, request, arg, f, e);
            return true, ret;
          }
        case GenerateEq =>
          ret := TranslateEq(fd, request, arg, e);
          return true, ret;
        case _ =>
      }
      return false, 0;
    }

    /** The query handlers, after a successful kernel call. */
    method HandleAnswer(ret: int, ghost e: Event, role: Role, arg: nat)
      requires w.Valid() && AnswerSafe(w, Now(), e)
      requires ret == w.kernel(log).ret && role == RoleOf(w, e) && arg == e.arg
      modifies this`dumps, mem
      ensures Now() == AfterAnswer(w, old(Now()), e)
    {
      hide QueryStep, AreaFits, ExtFits, Allowed, Dumped, NameAt;
      if ret >= 0 && arg != 0 {
        match role {
          case QueryTx => HandleQuery(arg, w.abi.tx, 0);
          case QueryRx => HandleQuery(arg, w.abi.rx, 1);
          case QueryExt => HandleExt(arg);
          case _ =>
        }
      }
    }

    /** The interposed call. */
    method Ioctl(fd: Fd, request: nat, arg: nat, links: Links) returns (ret: int)
      requires w.Valid() && Safe(w, Now(), Event(fd, request, arg, links))
      modifies this`log, this`dumps, mem, fds
      ensures Now() == Step(w, old(Now()), Event(fd, request, arg, links))
      ensures log != [] && ret == w.kernel(log).ret
    {
      hide RuleStep, AfterAnswer, RuleSafe, AnswerSafe, TranslatesCall, Leaves, Ask, Abi.Valid;
      ghost var e := Event(fd, request, arg, links);
      if Type(request) != IPA_MAGIC {
        ret := Kernel(fd, request, arg, false, mem);
        return;
      }
      var ipa := fds.FdIsIpaDev(links, fd);
      if !ipa {
        ret := Kernel(fd, request, arg, false, mem);
        return;
      }
      var handled;
      handled, ret := MaybeTranslate(fd, request, arg, e);
      if handled {
        return;
      }
      ret := Kernel(fd, request, arg, false, mem);
      HandleAnswer(ret, e, w.abi.roles(Number(request)), arg);
    }
  }
}
