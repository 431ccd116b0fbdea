/** Repair of the page-table descriptors the IPA's slave devices share with its master, repeated
    by a work item that reschedules itself a bounded number of times while other code may break
    the descriptors again. */
module Pmds {
  import opened Text

  const MASTER := ":ipa_smmu_ap"
  const ETH := ":ipa_smmu_eth"
  const ETH1 := ":ipa_smmu_eth1"
  const RECHECK_MAX := 15

  datatype Range = Range(pmds: nat, base: nat, end: nat)

  class Table {
    var pmds: nat
    var base: nat
    var end: nat

    function Value(): (r: Range)
      reads this
    {
      Range(pmds, base, end)
    }

    constructor (r: Range)
      ensures Value() == r
    {
      pmds, base, end := r.pmds, r.base, r.end;
    }
  }

  class Domain {
    var ops: Table?
    constructor (ops: Table?)
      ensures this.ops == ops
    {
      this.ops := ops;
    }
  }

  class Device {
    const name: string
    var refs: nat
    var domain: Domain?
    constructor (name: string, domain: Domain?)
      ensures this.name == name && this.domain == domain && refs == 1
    {
      this.name, this.domain, refs := name, domain, 1;
    }
  }

  predicate EndsWith(name: string, suffix: string) {
    |name| >= |suffix| && name[|name| - |suffix|..] == suffix
  }

  /** The name is anything with the suffix behind it. */
  lemma EndsWithMeans(name: string, suffix: string)
    ensures EndsWith(name, suffix) <==> exists front :: name == front + suffix
  {
    if EndsWith(name, suffix) {
      assert name == name[..|name| - |suffix|] + suffix;
    }
  }

  /** The first device on the bus whose name ends with `suffix`, or the length of the bus. */
  function FirstMatch(bus: seq<Device>, suffix: string): (i: nat)
    ensures i <= |bus| && (i < |bus| ==> EndsWith(bus[i].name, suffix))
    ensures forall k :: 0 <= k < i ==> !EndsWith(bus[k].name, suffix)
  {
    if bus == [] || EndsWith(bus[0].name, suffix) then 0 else 1 + FirstMatch(bus[1..], suffix)
  }

  /** The descriptor of the device found, if it has a domain with tables. */
  function TableOf(bus: seq<Device>, suffix: string): (r: Table?)
    reads bus`domain, set d | d in bus && d.domain != null :: d.domain
  {
    var i := FirstMatch(bus, suffix);
    if i == |bus| || bus[i].domain == null then null else bus[i].domain.ops
  }

  function Only(t: Table?): (r: set<Table>) {
    if t == null then {} else {t}
  }

  function Tables(bus: seq<Device>): (r: set<Table>)
    reads bus`domain, set d | d in bus && d.domain != null :: d.domain
  {
    Only(TableOf(bus, MASTER)) + Only(TableOf(bus, ETH)) + Only(TableOf(bus, ETH1))
  }

  /** The descriptors by value. */
  datatype View = View(master: Option<Range>, eth: Option<Range>, eth1: Option<Range>)

  function ValueOf(t: Table?): (r: Option<Range>)
    reads t
  {
    if t == null then None else Some(t.Value())
  }

  function ViewOf(bus: seq<Device>): (r: View)
    reads bus`domain, (set d | d in bus && d.domain != null :: d.domain), Tables(bus)
  {
    View(ValueOf(TableOf(bus, MASTER)), ValueOf(TableOf(bus, ETH)), ValueOf(TableOf(bus, ETH1)))
  }

  /** The three descriptors are those of the first devices so named on the bus, if they have a domain
      with tables. */
  lemma ViewMeans(bus: seq<Device>)
    ensures ViewOf(bus) == View(ValueOf(FirstTable(bus, ":ipa_smmu_ap")), ValueOf(FirstTable(bus, ":ipa_smmu_eth")),
                                ValueOf(FirstTable(bus, ":ipa_smmu_eth1")))
  {
    FirstTableIs(bus, ":ipa_smmu_ap");
    FirstTableIs(bus, ":ipa_smmu_eth");
    FirstTableIs(bus, ":ipa_smmu_eth1");
  }

  /** Walking the bus for the table, device by device. */
  function FirstTable(bus: seq<Device>, suffix: string): (r: Table?)
    reads bus`domain, set d | d in bus && d.domain != null :: d.domain
  {
    if bus == [] then null
    else if |bus[0].name| >= |suffix| && bus[0].name[|bus[0].name| - |suffix|..] == suffix then
      if bus[0].domain == null then null else bus[0].domain.ops
    else FirstTable(bus[1..], suffix)
  }

  lemma {:induction false} FirstTableIs(bus: seq<Device>, suffix: string)
    ensures FirstTable(bus, suffix) == TableOf(bus, suffix)
  {
    if bus != [] {
      FirstTableIs(bus[1..], suffix);
    }
  }

  /** A slave follows a master whose table pointer is a vmalloc address. */
  function Repaired(master: Option<Range>, slave: Option<Range>, vmalloc: nat -> bool): (r: Option<Range>) {
    if slave.Some? && master.Some? && vmalloc(master.value.pmds) then master else slave
  }

  function RepairPass(v: View, vmalloc: nat -> bool): (r: View) {
    View(v.master, Repaired(v.master, v.eth, vmalloc), Repaired(v.master, v.eth1, vmalloc))
  }

  /** The bus walk: stops at the first match and takes a reference to it. */
  method FindDevice(bus: seq<Device>, suffix: string) returns (found: Device?)
    modifies bus`refs
    ensures found == var i := FirstMatch(bus, suffix); if i < |bus| then bus[i] else null
    ensures forall d :: d in bus ==> d.refs == old(d.refs) + if d == found then 1 else 0
  {
    var i := 0;
    while i < |bus| && !EndsWith(bus[i].name, suffix)
      invariant 0 <= i <= |bus| && forall k :: 0 <= k < i ==> !EndsWith(bus[k].name, suffix)
      invariant forall d :: d in bus ==> unchanged(d)
    {
      i := i + 1;
    }
    assert i == FirstMatch(bus, suffix);
    if i == |bus| {
      return null;
    }
    bus[i].refs := bus[i].refs + 1;
    return bus[i];
  }

  /** The page table behind a device, through its domain, as far as it is there. */
  function OpsOf(d: Device?): (r: Table?)
    reads d, if d != null then {d.domain} else {}
  {
    if d == null || d.domain == null then null else d.domain.ops
  }

  /** The checks, the comparison and the three assignments. */
  method Sync(ap: Table?, sl: Table?, vmalloc: nat -> bool) returns (fixed: bool)
    modifies sl
    ensures ValueOf(ap) == old(ValueOf(ap))
    ensures ValueOf(sl) == Repaired(old(ValueOf(ap)), old(ValueOf(sl)), vmalloc)
    ensures fixed == (ValueOf(sl) != old(ValueOf(sl)))
  {
    fixed := false;
    if ap == null || sl == null || !vmalloc(ap.pmds) {
      return;
    }
    if sl.pmds != ap.pmds || sl.base != ap.base || sl.end != ap.end {
      sl.pmds := ap.pmds;
      sl.base := ap.base;
      sl.end := ap.end;
      fixed := true;
    }
  }

  /** Gives back the references. */
  method Put(bus: seq<Device>, a: Device?, b: Device?)
    requires (a != null ==> a in bus) && (b != null ==> b in bus)
    requires forall d :: d in bus ==> d.refs >= (if d == a then 1 else 0) + (if d == b then 1 else 0)
    modifies bus`refs
    ensures forall d :: d in bus ==> d.refs == old(d.refs) - (if d == a then 1 else 0) - (if d == b then 1 else 0)
  {
    if a != null {
      a.refs := a.refs - 1;
    }
    if b != null {
      b.refs := b.refs - 1;
    }
  }

  /** One slave. Every path gives back the references it took. */
  method FixOneSlave(bus: seq<Device>, suffix: string, vmalloc: nat -> bool) returns (fixed: bool)
    modifies bus`refs, TableOf(bus, suffix)
    ensures forall d :: d in bus ==> d.refs == old(d.refs)
    ensures TableOf(bus, MASTER) == old(TableOf(bus, MASTER)) && TableOf(bus, suffix) == old(TableOf(bus, suffix))
    ensures ValueOf(TableOf(bus, MASTER)) == old(ValueOf(TableOf(bus, MASTER)))
    ensures ValueOf(TableOf(bus, suffix)) == Repaired(old(ValueOf(TableOf(bus, MASTER))), old(ValueOf(TableOf(bus, suffix))), vmalloc)
    ensures fixed == (ValueOf(TableOf(bus, suffix)) != old(ValueOf(TableOf(bus, suffix))))
  {
    hide FirstMatch, Repaired, ValueOf;
    var apDev := FindDevice(bus, MASTER);
    var slaveDev := FindDevice(bus, suffix);
    assert OpsOf(apDev) == TableOf(bus, MASTER) && OpsOf(slaveDev) == TableOf(bus, suffix);
    fixed := Sync(OpsOf(apDev), OpsOf(slaveDev), vmalloc);
    Put(bus, apDev, slaveDev);
  }

  /** Both slaves. */
  method RunFixPass(bus: seq<Device>, vmalloc: nat -> bool) returns (changed: bool)
    modifies bus`refs, Tables(bus)
    ensures forall d :: d in bus ==> d.refs == old(d.refs)
    ensures Tables(bus) == old(Tables(bus)) && ViewOf(bus) == RepairPass(old(ViewOf(bus)), vmalloc)
    ensures changed == (ViewOf(bus) != old(ViewOf(bus)))
  {
    hide TableOf, FirstMatch;
    ghost var eth, eth1 := TableOf(bus, ETH), TableOf(bus, ETH1);
    var first := FixOneSlave(bus, ETH, vmalloc);
    assert TableOf(bus, ETH1) == eth1 && (eth1 == eth || ValueOf(eth1) == old(ValueOf(eth1)));
    assert ValueOf(eth) == Repaired(old(ViewOf(bus)).master, old(ViewOf(bus)).eth, vmalloc);
    var second := FixOneSlave(bus, ETH1, vmalloc);
    assert eth1 == eth || ValueOf(eth) == Repaired(old(ViewOf(bus)).master, old(ViewOf(bus)).eth, vmalloc);
    changed := first || second;
  }

  /** When everything is there and the master is sound, one pass makes all three agree and a second
      pass finds nothing to do. */
  lemma PassConverges(v: View, vmalloc: nat -> bool)
    ensures var v' := RepairPass(v, vmalloc);
      && v'.master == v.master && RepairPass(v', vmalloc) == v'
      && (v.master.Some? && v.eth.Some? && v.eth1.Some? && vmalloc(v.master.value.pmds)
          ==> v'.eth == v.master && v'.eth1 == v.master)
      && (v.master.None? || !vmalloc(v.master.value.pmds) ==> v' == v)
      && (v.eth.None? <==> v'.eth.None?) && (v.eth1.None? <==> v'.eth1.None?)
  {
  }

  // ----- the work item under interference

  /** `count` is the recheck counter, `runs` how often the work function has run. */
  datatype Work = Work(count: nat, pending: bool, runs: nat)

  datatype State = State(work: Work, view: View)

  /** The timer elapses, other code rewrites any descriptor (or devices come and go), or the module
      is unloaded. */
  datatype Event = Timer | Interfere(view: View) | Unload

  function Start(view: View): (r: State) {
    State(Work(0, true, 0), view)
  }

  /** The work function: a pass, then rescheduling below the limit. */
  function Recheck(s: State, vmalloc: nat -> bool): (r: State) {
    var count := s.work.count + 1;
    State(Work(count, count < RECHECK_MAX, s.work.runs + 1), RepairPass(s.view, vmalloc))
  }

  function Next(s: State, e: Event, vmalloc: nat -> bool): (r: State) {
    match e
    case Timer => if s.work.pending then Recheck(s, vmalloc) else s
    case Interfere(view) => s.(view := view)
    case Unload => s.(work := s.work.(pending := false))
  }

  function Run(s: State, events: seq<Event>, vmalloc: nat -> bool): (r: State)
  {
    if events == [] then s else Next(Run(s, events[..|events| - 1], vmalloc), events[|events| - 1], vmalloc)
  }

  function Timers(events: seq<Event>): (r: nat) {
    if events == [] then 0 else Timers(events[..|events| - 1]) + (if events[|events| - 1] == Timer then 1 else 0)
  }

  /** Over every run the work function runs as often as the timer elapsed, but at most fifteen
      times, and not at all once the module is unloaded; it is pending exactly while it may still
      run. */
  lemma {:induction false} RecheckIsBounded(v: View, events: seq<Event>, vmalloc: nat -> bool)
    ensures var w := Run(Start(v), events, vmalloc).work;
      && w.runs == w.count <= 15
      && w.runs <= Timers(events)
      && (w.pending ==> w.runs < 15)
      && (Unload !in events ==> w.runs == Min(Timers(events), 15) && (w.pending <==> w.runs < 15))
      && (Unload in events ==> !w.pending)
  {
    if events != [] {
      var n := |events| - 1;
      RecheckIsBounded(v, events[..n], vmalloc);
      assert events == events[..n] + [events[n]];
    }
  }

  /** Whatever was done to the descriptors before, right after each run of the work function the
      slaves that are present agree with a sound master. */
  lemma RepairedAfterEachTimer(v: View, events: seq<Event>, vmalloc: nat -> bool)
    requires Run(Start(v), events, vmalloc).work.pending
    ensures var s, s' := Run(Start(v), events, vmalloc), Run(Start(v), events + [Timer], vmalloc);
      && s'.view == RepairPass(s.view, vmalloc)
      && (s.view.master.Some? && vmalloc(s.view.master.value.pmds) ==>
            && s'.view.master == s.view.master
            && (s.view.eth.Some? ==> s'.view.eth == s.view.master)
            && (s.view.eth1.Some? ==> s'.view.eth1 == s.view.master))
  {
    assert (events + [Timer])[..|events|] == events;
  }

  /** The module's global work item. Scheduling a pending item again would be a no-op; it never
      comes to that. */
  class Rechecker {
    var count: nat
    var pending: bool
    var runs: nat

    function Item(): (r: Work)
      reads this
    {
      Work(count, pending, runs)
    }

    /** `start_pmds_recheck`. */
    constructor (bus: seq<Device>)
      ensures Item() == Start(ViewOf(bus)).work
    {
      count, pending, runs := 0, true, 0;
    }

    /** `pmds_recheck_fn`, called with the item just taken off the queue. */
    method OnTimer(bus: seq<Device>, vmalloc: nat -> bool)
      requires pending
      modifies this, bus`refs, Tables(bus)
      ensures State(Item(), ViewOf(bus)) == Recheck(old(State(Item(), ViewOf(bus))), vmalloc)
    {
      hide RepairPass, TableOf, FirstMatch;
      pending := false;
      var _ := RunFixPass(bus, vmalloc);
      count := count + 1;
      runs := runs + 1;
      if count < RECHECK_MAX {
        pending := true;
      }
    }
  }
}
