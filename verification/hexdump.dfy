/** The one-time raw dump of query answers: a 32-bit mask remembers which kinds were dumped. */
module HexDump {
  import opened Text

  /** The set bits of the mask, and every dump made so far as (query type, interface class). */
  datatype Dumps = Dumps(mask: set<nat>, log: seq<(nat, nat)>)

  const NO_DUMPS := Dumps({}, [])

  /** Query types: 0 transmit, 1 receive, 2 extended. */
  const TYPES := 3
  const CLASSES := 5

  function InterfaceClass(name: string): (c: nat)
    ensures c < CLASSES
  {
    if CString(name) == "eth0" then 0
    else if CString(name) == "rmnet_data0" then 1
    else if CString(name) == "rmnet_data1" then 2
    else if CString(name) == "bridge0" then 3
    else 4
  }

  function Bit(t: nat, c: nat): (r: nat) {
    t * 8 + c
  }

  function DumpOnce(d: Dumps, enabled: bool, t: nat, c: nat): (r: Dumps) {
    if !enabled || Bit(t, c) >= 31 || Bit(t, c) in d.mask then d
    else Dumps(d.mask + {Bit(t, c)}, d.log + [(t, c)])
  }

  ghost predicate Kind(t: nat, c: nat) {
    t < TYPES && c < CLASSES
  }

  /** The mask is a 32-bit word that records exactly the kinds dumped, each dumped once. */
  ghost predicate Faithful(d: Dumps) {
    && (forall b :: b in d.mask ==> b < 32)
    && (forall k :: k in d.log ==> Kind(k.0, k.1))
    && (forall t: nat, c: nat :: Kind(t, c) ==> (Bit(t, c) in d.mask <==> (t, c) in d.log))
    && (forall i, j :: 0 <= i < j < |d.log| ==> d.log[i] != d.log[j])
  }

  /** One decision: the asked kind is dumped unless it was already or dumping is off; no other
      kind is affected, nothing noted is forgotten. */
  lemma DumpStep(d: Dumps, enabled: bool, t: nat, c: nat)
    requires Faithful(d) && Kind(t, c)
    ensures var d' := DumpOnce(d, enabled, t, c);
      && Faithful(d')
      && d'.log == (if enabled && (t, c) !in d.log then d.log + [(t, c)] else d.log)
      && d.mask <= d'.mask
      && (forall t': nat, c': nat :: Kind(t', c') && (t', c') != (t, c) ==> (Bit(t', c') in d'.mask <==> Bit(t', c') in d.mask))
  {
    var d' := DumpOnce(d, enabled, t, c);
    forall t': nat, c': nat | Kind(t', c')
      ensures Bit(t', c') in d'.mask <==> (t', c') in d'.log
    {
    }
    forall i, j | 0 <= i < j < |d'.log|
      ensures d'.log[i] != d'.log[j]
    {
      assert d.log[i] in d.log;
    }
  }
}
