/** Acquiring and releasing a forwarding channel: bookkeeping memory, a ring, and the registration
    of its descriptor memory and of every one of its buffers, with rollback. */
module Channels {
  import opened Text

  const ENOMEM := 12
  const EINVAL := 22

  datatype Direction = Receive | Transmit | Other

  /** One registered stretch of memory. */
  datatype Mem = Mem(addr: nat, daddr: nat, size: nat)

  /** What the network driver's ring looks like. */
  datatype RingSpec = RingSpec(idx: int, descs: nat, descDaddr: nat, count: nat, vaddr: nat, daddr: nat, bufSize: nat) {
    function Buffer(i: nat): (r: Mem) {
      Mem(vaddr + bufSize * i, daddr + bufSize * i, bufSize)
    }

    /** The first `n` buffers, in order. */
    function Buffers(n: nat): (r: seq<Mem>)
      ensures |r| == n
    {
      seq(n, i requires 0 <= i < n => Buffer(i))
    }

    predicate IsBuffer(a: nat, n: nat) {
      exists i: nat :: i < n && Buffer(i).addr == a
    }
  }

  class MemOps {
    constructor () {}
  }

  class Ring {
    const spec: RingSpec
    const memOps: MemOps
    constructor (spec: RingSpec, memOps: MemOps)
      ensures this.spec == spec && this.memOps == memOps
    {
      this.spec, this.memOps := spec, memOps;
    }
  }

  /** Everything handed out and not yet given back. */
  class Host {
    var rings: set<Ring>
    var ops: set<MemOps>
    constructor ()
      ensures rings == {} && ops == {}
    {
      rings, ops := {}, {};
    }
  }

  /** Deleting a registration removes every entry with its address, and none if there is none. */
  function Without(list: seq<Mem>, gone: nat -> bool): (r: seq<Mem>) {
    if list == [] then []
    else (if gone(list[0].addr) then [] else [list[0]]) + Without(list[1..], gone)
  }

  function One(a: nat): (r: nat -> bool) { (x: nat) => x == a }

  /** `ioss_channel_del_mem`, on either list of a channel. */
  method DelMem(list: seq<Mem>, addr: nat) returns (kept: seq<Mem>)
    ensures kept == Without(list, One(addr))
  {
    hide Without;
    kept := [];
    assert list[0..] == list && list[|list|..] == [];
    WithoutNone(One(addr));
    for i := 0 to |list|
      invariant kept + Without(list[i..], One(addr)) == Without(list, One(addr))
    {
      WithoutFrom(list, i, One(addr));
      if list[i].addr != addr {
        kept := kept + [list[i]];
      }
    }
  }

  lemma WithoutNone(gone: nat -> bool)
    ensures Without([], gone) == []
  {
  }

  lemma WithoutFrom(list: seq<Mem>, i: nat, gone: nat -> bool)
    requires i < |list|
    ensures Without(list[i..], gone) == (if gone(list[i].addr) then [] else [list[i]]) + Without(list[i + 1..], gone)
  {
    assert list[i..][1..] == list[i + 1..];
  }

  function AnyBuffer(spec: RingSpec, n: nat): (r: nat -> bool) { (x: nat) => spec.IsBuffer(x, n) }

  lemma {:induction false} WithoutAppend(a: seq<Mem>, b: seq<Mem>, gone: nat -> bool)
    ensures Without(a + b, gone) == Without(a, gone) + Without(b, gone)
  {
    if a == [] {
      assert a + b == b;
    } else {
      assert (a + b)[1..] == a[1..] + b;
      WithoutAppend(a[1..], b, gone);
    }
  }

  /** Every entry with another address stays, as often as it was there, and no other. */
  lemma {:induction false} WithoutMeans(a: seq<Mem>, gone: nat -> bool, m: Mem)
    ensures multiset(Without(a, gone))[m] == if gone(m.addr) then 0 else multiset(a)[m]
  {
    if a != [] {
      WithoutMeans(a[1..], gone, m);
      assert a == [a[0]] + a[1..];
      assert multiset(a) == multiset([a[0]]) + multiset(a[1..]);
      if !gone(a[0].addr) {
        assert multiset(Without(a, gone)) == multiset([a[0]]) + multiset(Without(a[1..], gone));
      }
    }
  }

  lemma {:induction false} WithoutAll(a: seq<Mem>, gone: nat -> bool)
    requires forall m :: m in a ==> gone(m.addr)
    ensures Without(a, gone) == []
  {
    if a != [] {
      assert a[0] in a;
      WithoutAll(a[1..], gone);
    }
  }

  lemma {:induction false} WithoutTwice(a: seq<Mem>, p: nat -> bool, q: nat -> bool, both: nat -> bool)
    requires forall x :: both(x) <==> p(x) || q(x)
    ensures Without(Without(a, p), q) == Without(a, both)
  {
    if a != [] {
      WithoutTwice(a[1..], p, q, both);
      WithoutAppend(if p(a[0].addr) then [] else [a[0]], Without(a[1..], p), q);
      assert Without([a[0]], q) == if q(a[0].addr) then [] else [a[0]];
    }
  }

  /** Deletion leaves a list as it is exactly when nothing in it has a deleted address. */
  lemma {:induction false} WithoutIsIdentityIff(a: seq<Mem>, gone: nat -> bool)
    ensures |Without(a, gone)| <= |a|
    ensures Without(a, gone) == a <==> forall m :: m in a ==> !gone(m.addr)
  {
    if a != [] {
      WithoutIsIdentityIff(a[1..], gone);
      if gone(a[0].addr) {
        assert |Without(a, gone)| < |a|;
        assert a[0] in a;
      } else {
        assert a == [a[0]] + a[1..];
        assert Without(a, gone)[1..] == Without(a[1..], gone);
        assert forall m :: m in a <==> m == a[0] || m in a[1..];
      }
    }
  }

  /** How the driver calls of one request end. */
  datatype Fates = Fates(memory: bool, ring: Option<RingSpec>, desc: int, buffs: nat -> int)

  /** Every driver call succeeded. */
  ghost predicate Granted(dir: Direction, f: Fates) {
    f.memory && !dir.Other? && f.ring.Some? && f.desc == 0 && forall i: nat :: i < f.ring.value.count ==> f.buffs(i) == 0
  }

  /** The driver calls get as far as the registration of the ring's buffers. */
  predicate Reached(dir: Direction, f: Fates) {
    f.memory && !dir.Other? && f.ring.Some? && f.desc == 0
  }

  /** No registration made earlier has an address of the ring. */
  ghost predicate Unused(spec: RingSpec, desc: seq<Mem>, buff: seq<Mem>) {
    (forall m :: m in desc ==> m.addr != spec.descs) && (forall m :: m in buff ==> !spec.IsBuffer(m.addr, spec.count))
  }

  /** What deleting all addresses of the ring leaves of both lists. */
  ghost function Cleansed(spec: RingSpec, desc: seq<Mem>, buff: seq<Mem>): (r: (seq<Mem>, seq<Mem>)) {
    (Without(desc, One(spec.descs)), Without(buff, AnyBuffer(spec, spec.count)))
  }

  lemma CleansedIsIdentityIff(spec: RingSpec, desc: seq<Mem>, buff: seq<Mem>)
    ensures Cleansed(spec, desc, buff) == (desc, buff) <==> Unused(spec, desc, buff)
  {
    WithoutIsIdentityIff(desc, One(spec.descs));
    WithoutIsIdentityIff(buff, AnyBuffer(spec, spec.count));
  }

  /** Whatever ring the driver may answer with, both lists survive: exactly when they are empty. */
  lemma SafeForEveryRingIff(desc: seq<Mem>, buff: seq<Mem>)
    ensures (forall spec: RingSpec :: Cleansed(spec, desc, buff) == (desc, buff)) <==> desc == [] && buff == []
  {
    if desc != [] {
      var spec := RingSpec(0, desc[0].addr, 0, 0, 0, 0, 0);
      assert desc[0] in desc;
      CleansedIsIdentityIff(spec, desc, buff);
      assert Cleansed(spec, desc, buff) != (desc, buff);
    } else if buff != [] {
      var spec := RingSpec(0, 0, 0, 1, buff[0].addr, 0, 0);
      assert buff[0] in buff && spec.Buffer(0).addr == buff[0].addr;
      CleansedIsIdentityIff(spec, desc, buff);
      assert Cleansed(spec, desc, buff) != (desc, buff);
    }
  }

  /** A ring of two buffers, and a buffer registered earlier at the address of its second one. */
  const TWO_BUFFERS := RingSpec(0, 0x4000, 0x4000, 2, 0x1000, 0x9000, 64)
  const OLDER := Mem(0x1040, 0x8000, 64)

  /** A failing input: deleting the ring's addresses deletes the earlier registration. */
  lemma OlderRegistrationIsLost()
    ensures Cleansed(TWO_BUFFERS, [], [OLDER]) == ([], [])
  {
    assert TWO_BUFFERS.Buffer(1).addr == OLDER.addr;
    WithoutAll([OLDER], AnyBuffer(TWO_BUFFERS, 2));
  }

  /** The same on a channel: whether the two buffers can be registered or not, a request followed by
      a release loses the earlier one. */
  method LoseOlder(host: Host, ch: Channel, buffs: nat -> int, rxDesc: nat, txDesc: nat)
    requires ch.ring == null && !ch.direction.Other? && ch.desc == [] && ch.buff == [OLDER]
    modifies ch`id, ch`ring, ch`desc, ch`buff, host
    ensures host.rings == old(host.rings) && host.ops == old(host.ops) && ch.ring == null
    ensures ch.desc == [] && ch.buff == []
  {
    ch.RequestThenRelease(host, Fates(true, Some(TWO_BUFFERS), 0, buffs), rxDesc, txDesc);
    OlderRegistrationIsLost();
  }

  class Channel {
    const direction: Direction
    var id: int
    var ring: Ring?
    var desc: seq<Mem>
    var buff: seq<Mem>

    constructor (direction: Direction)
      ensures this.direction == direction && id == -1 && ring == null && desc == [] && buff == []
    {
      this.direction, id, ring, desc, buff := direction, -1, null, [], [];
    }

    /** The deletion loop of the rollback and of the release: one buffer address after the other. */
    method DelBuffers(spec: RingSpec)
      modifies this`buff
      ensures buff == Without(old(buff), AnyBuffer(spec, spec.count))
    {
      hide Without, RingSpec.IsBuffer;
      NoBuffers(spec, buff);
      for i := 0 to spec.count
        invariant buff == Without(old(buff), AnyBuffer(spec, i))
      {
        NextBuffer(spec, i, old(buff));
        buff := DelMem(buff, spec.vaddr + spec.bufSize * i);
      }
    }

    /** The registration loop: buffer after buffer, up to the first failure. */
    method RegisterBuffers(spec: RingSpec, fates: nat -> int) returns (rc: int, n: nat)
      modifies this`buff
      ensures n <= spec.count && buff == old(buff) + spec.Buffers(n)
      ensures forall j :: 0 <= j < n ==> buff[|old(buff)| + j] == Mem(spec.vaddr + spec.bufSize * j, spec.daddr + spec.bufSize * j, spec.bufSize)
      ensures forall k: nat :: k < n ==> fates(k) == 0
      ensures if n < spec.count then rc == fates(n) != 0 else rc == 0
    {
      rc, n := 0, 0;
      assert spec.Buffers(0) == [];
      while n < spec.count
        invariant n <= spec.count && buff == old(buff) + spec.Buffers(n)
        invariant forall k: nat :: k < n ==> fates(k) == 0
      {
        rc := fates(n);
        if rc != 0 {
          return;
        }
        buff := buff + [spec.Buffer(n)];
        assert spec.Buffers(n) + [spec.Buffer(n)] == spec.Buffers(n + 1);
        n := n + 1;
      }
      rc := 0;
    }

    /** `aqc_ioss_request_channel`. */
    method Request(host: Host, f: Fates, rxDesc: nat, txDesc: nat) returns (rc: int)
      modifies this`id, this`ring, this`desc, this`buff, host
      ensures if Granted(direction, f) then
          && rc == 0 && ring != null && fresh(ring) && fresh(ring.memOps) && ring.spec == f.ring.value && id == ring.spec.idx
          && host.rings == old(host.rings) + {ring} && host.ops == old(host.ops) + {ring.memOps}
          && desc == old(desc) + [Mem(ring.spec.descs, ring.spec.descDaddr, (if direction.Receive? then rxDesc else txDesc) * ring.spec.count)]
          && buff == old(buff) + ring.spec.Buffers(ring.spec.count)
        else
          && host.rings == old(host.rings) && host.ops == old(host.ops)
          && (if f.memory && !direction.Other? then id == -1 && ring == null else id == old(id) && ring == old(ring))
          && (if Reached(direction, f) then (desc, buff) == Cleansed(f.ring.value, old(desc), old(buff))
              else desc == old(desc) && buff == old(buff))
      ensures Reached(direction, f) && !Granted(direction, f) ==>
        (desc == old(desc) && buff == old(buff) <==> Unused(f.ring.value, old(desc), old(buff)))
      ensures rc == 0 <==> Granted(direction, f) || (f.memory && !direction.Other? && f.ring.None?)
      ensures if !f.memory then rc == -12 else if direction.Other? then rc == -22 else if f.ring.None? then rc == 0
        else if f.desc != 0 then rc == f.desc
        else rc != 0 ==> exists k: nat :: k < f.ring.value.count && rc == f.buffs(k) && forall j: nat :: j < k ==> f.buffs(j) == 0
    {
      rc := 0;
      if !f.memory {
        return -ENOMEM;
      }
      var memOps := new MemOps();
      host.ops := host.ops + {memOps};
      var descSize;
      match direction {
        case Receive => descSize := rxDesc;
        case Transmit => descSize := txDesc;
        case Other =>
          host.ops := host.ops - {memOps};
          return -EINVAL;
      }
      if f.ring.None? {
        host.ops := host.ops - {memOps};
        id, ring := -1, null;
        return rc;
      }
      var spec := f.ring.value;
      var got := new Ring(spec, memOps);
      host.rings := host.rings + {got};
      rc := f.desc;
      if rc == 0 {
        desc := desc + [Mem(spec.descs, spec.descDaddr, descSize * spec.count)];
        var i;
        rc, i := RegisterBuffers(spec, f.buffs);
        if rc == 0 {
          id, ring := spec.idx, got;
          return 0;
        }
        DelBuffers(spec);
        Undone(old(buff), spec, i);
        desc := DelMem(desc, spec.descs);
        UndoneDesc(old(desc), Mem(spec.descs, spec.descDaddr, descSize * spec.count));
        CleansedIsIdentityIff(spec, old(desc), old(buff));
      }
      host.rings := host.rings - {got};
      host.ops := host.ops - {memOps};
      assert host.rings == old(host.rings) && host.ops == old(host.ops);
      id, ring := -1, null;
    }

    /** `aqc_ioss_release_channel`. */
    method Release(host: Host)
      requires ring != null
      modifies this`id, this`ring, this`desc, this`buff, host
      ensures id == -1 && ring == null
      ensures host.rings == old(host.rings) - {old(ring)} && host.ops == old(host.ops) - {old(ring).memOps}
      ensures desc == Without(old(desc), One(old(ring).spec.descs))
      ensures buff == Without(old(buff), AnyBuffer(old(ring).spec, old(ring).spec.count))
    {
      DelBuffers(ring.spec);
      desc := DelMem(desc, ring.spec.descs);
      host.rings := host.rings - {ring};
      host.ops := host.ops - {ring.memOps};
      id, ring := -1, null;
    }

    /** A request and then a release, whatever the request's outcome: nothing stays acquired, and
        once the ring's buffers were to be registered, in success or in failure, the registrations
        are as before exactly when none of them had an address of the ring. */
    method RequestThenRelease(host: Host, f: Fates, rxDesc: nat, txDesc: nat)
      requires ring == null
      modifies this`id, this`ring, this`desc, this`buff, host
      ensures host.rings == old(host.rings) && host.ops == old(host.ops) && ring == null
      ensures if Reached(direction, f) then
          && (desc, buff) == Cleansed(f.ring.value, old(desc), old(buff))
          && (desc == old(desc) && buff == old(buff) <==> Unused(f.ring.value, old(desc), old(buff)))
        else desc == old(desc) && buff == old(buff)
    {
      var rc := Request(host, f, rxDesc, txDesc);
      if ring != null {
        ghost var spec := ring.spec;
        ghost var d := desc[|old(desc)|];
        Release(host);
        Undone(old(buff), spec, spec.count);
        UndoneDesc(old(desc), d);
        CleansedIsIdentityIff(spec, old(desc), old(buff));
      }
    }
  }

  lemma NoBuffers(spec: RingSpec, list: seq<Mem>)
    ensures Without(list, AnyBuffer(spec, 0)) == list
  {
    WithoutIsIdentityIff(list, AnyBuffer(spec, 0));
  }

  /** On rollback and release an entry stays exactly if its address is not one of the ring's. */
  lemma CleansedMeans(spec: RingSpec, desc: seq<Mem>, buff: seq<Mem>, m: Mem)
    ensures var left := Cleansed(spec, desc, buff);
      && multiset(left.0)[m] == (if m.addr == spec.descs then 0 else multiset(desc)[m])
      && multiset(left.1)[m] ==
         if exists b :: b in spec.Buffers(spec.count) && b.addr == m.addr then 0 else multiset(buff)[m]
  {
    hide Without, RingSpec.IsBuffer;
    WithoutMeans(desc, One(spec.descs), m);
    WithoutMeans(buff, AnyBuffer(spec, spec.count), m);
    AmongBuffers(spec, spec.count, m.addr);
  }

  lemma AmongBuffers(spec: RingSpec, n: nat, a: nat)
    ensures spec.IsBuffer(a, n) <==> exists b :: b in spec.Buffers(n) && b.addr == a
  {
    if spec.IsBuffer(a, n) {
      var i: nat :| i < n && spec.Buffer(i).addr == a;
      assert spec.Buffers(n)[i] == spec.Buffer(i);
    }
    if b :| b in spec.Buffers(n) && b.addr == a {
      var i :| 0 <= i < n && spec.Buffers(n)[i] == b;
      assert spec.Buffer(i).addr == a;
    }
  }

  /** Buffer `j` lies `j` buffer sizes behind the first, in either address space. */
  lemma BuffersMean(spec: RingSpec, n: nat, j: nat)
    requires j < n
    ensures spec.Buffers(n)[j] == Mem(spec.vaddr + spec.bufSize * j, spec.daddr + spec.bufSize * j, spec.bufSize)
  {
  }

  lemma NextBuffer(spec: RingSpec, i: nat, list: seq<Mem>)
    ensures Without(Without(list, AnyBuffer(spec, i)), One(spec.vaddr + spec.bufSize * i)) == Without(list, AnyBuffer(spec, i + 1))
  {
    hide Without;
    var a := spec.Buffer(i).addr;
    forall x: nat
      ensures AnyBuffer(spec, i + 1)(x) <==> AnyBuffer(spec, i)(x) || One(a)(x)
    {
    }
    WithoutTwice(list, AnyBuffer(spec, i), One(a), AnyBuffer(spec, i + 1));
  }

  /** Deleting all buffer addresses undoes the registration of any number of them. */
  lemma Undone(before: seq<Mem>, spec: RingSpec, i: nat)
    requires i <= spec.count
    ensures Without(before + spec.Buffers(i), AnyBuffer(spec, spec.count)) == Without(before, AnyBuffer(spec, spec.count))
  {
    WithoutAppend(before, spec.Buffers(i), AnyBuffer(spec, spec.count));
    forall m | m in spec.Buffers(i)
      ensures AnyBuffer(spec, spec.count)(m.addr)
    {
      var k :| 0 <= k < i && spec.Buffers(i)[k] == m;
      assert spec.Buffer(k).addr == m.addr;
    }
    WithoutAll(spec.Buffers(i), AnyBuffer(spec, spec.count));
  }

  lemma UndoneDesc(before: seq<Mem>, d: Mem)
    ensures Without(before + [d], One(d.addr)) == Without(before, One(d.addr))
  {
    WithoutAppend(before, [d], One(d.addr));
    assert Without([d], One(d.addr)) == [];
  }
}
