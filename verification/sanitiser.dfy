/** The older interposer's clean-up of transmit properties before the daemon sees them. */
module Sanitiser {
  import opened Text

  const MAX_PROPS := 16
  const PIPE_MAX := 1024
  const FALLBACK := 35
  const IP_V4 := 0
  const IP_V6 := 1
  const NAME_SIZE := 32

  /** The fields of one property the clean-up looks at, and one it must leave alone. */
  datatype TxProp = TxProp(ip: nat, dst: nat, alt: nat, hdrName: string, l2: nat)

  /** A header name as `copy_name_32` leaves it. */
  function Padded(s: string): (r: string) {
    s + seq(if |s| < NAME_SIZE then NAME_SIZE - |s| else 0, _ => '\0')
  }

  predicate IsEth(name: string) { CString(name) == "eth0" }
  predicate IsRmnet(name: string) { CString(name) == "rmnet_data0" }
  predicate IsTarget(name: string) { IsEth(name) || IsRmnet(name) }

  predicate SaneDst(d: nat) { 0 < d < PIPE_MAX }
  predicate SaneAlt(a: nat) { a < PIPE_MAX }

  /** The destination used where an entry has none: the first entry's own, or a constant. */
  function PickFallback(name: string, s: seq<TxProp>): (d: nat)
    ensures SaneDst(d)
  {
    if !IsRmnet(name) && s != [] && SaneDst(s[0].dst) then s[0].dst else FALLBACK
  }

  function HeaderName(eth: bool, i: nat, current: string): (r: string) {
    if !eth then current
    else if i == 0 then Padded("eth0_ipv4")
    else if i == 1 then Padded("eth0_ipv6")
    else if current == "" || current[0] == '\0' || current[0] == ' ' then Padded("eth0_ipv4")
    else current
  }

  function Clean(i: nat, p: TxProp, eth: bool, fallback: nat): (r: TxProp) {
    TxProp(if i == 0 then IP_V4 else IP_V6,
           if SaneDst(p.dst) then p.dst else fallback,
           if SaneAlt(p.alt) then p.alt else 0,
           HeaderName(eth, i, p.hdrName),
           p.l2)
  }

  /** The properties after the clean-up. */
  function Sanitised(name: string, s: seq<TxProp>): (r: seq<TxProp>)
    ensures |r| == |s|
  {
    if !IsTarget(name) || s == [] || |s| > MAX_PROPS then s
    else
      var fallback := PickFallback(name, s);
      seq(|s|, i requires 0 <= i < |s| => Clean(i, s[i], IsEth(name), fallback))
  }

  /** Afterwards every property of the two interfaces is sane, and what was sane is as it was. A pipe
      from 1 to 1023 is sane; another is replaced by that of the first entry, but not for
      `rmnet_data0`, or by 35. */
  lemma SanitisedIsSane(name: string, s: seq<TxProp>, i: nat)
    requires CString(name) == "eth0" || CString(name) == "rmnet_data0"
    requires |s| <= 16 && i < |s|
    ensures var p := Sanitised(name, s)[i];
      && 0 < p.dst < 1024 && p.alt < 1024 && p.ip == (if i == 0 then 0 else 1) && p.l2 == s[i].l2
      && p.dst == (if 0 < s[i].dst < 1024 then s[i].dst
                   else if CString(name) == "eth0" && 0 < s[0].dst < 1024 then s[0].dst
                   else 35)
      && p.alt == (if s[i].alt < 1024 then s[i].alt else 0)
  {
    assert "eth0"[0] != "rmnet_data0"[0];
  }

  /** No other interface is touched, nor an answer with more than 16 entries. */
  lemma OthersUntouched(name: string, s: seq<TxProp>)
    requires (CString(name) != "eth0" && CString(name) != "rmnet_data0") || |s| > 16
    ensures Sanitised(name, s) == s
  {
  }

  /** Header names change for `eth0` only: the first two are fixed, later ones replaced if blank. */
  lemma SanitisedNames(name: string, s: seq<TxProp>, i: nat)
    requires |s| <= 16 && i < |s|
    ensures var before, after := s[i].hdrName, Sanitised(name, s)[i].hdrName;
      if CString(name) != "eth0" then after == before
      else if i == 0 then |after| == 32 && CString(after) == "eth0_ipv4"
      else if i == 1 then |after| == 32 && CString(after) == "eth0_ipv6"
      else if CString(before) == "" || before[0] == ' ' then |after| == 32 && CString(after) == "eth0_ipv4"
      else after == before
  {
    hide Find;
    PaddedIs("eth0_ipv4");
    PaddedIs("eth0_ipv6");
    var before := s[i].hdrName;
    if before == "" || before[0] == '\0' {
      FindIs(before, '\0', 0);
    }
  }

  lemma PaddedIs(t: string)
    requires '\0' !in t && |t| < NAME_SIZE
    ensures |Padded(t)| == NAME_SIZE && CString(Padded(t)) == t
  {
    assert Padded(t)[..|t|] == t;
    CStringIs(Padded(t), |t|);
  }

  /** A second clean-up changes nothing. */
  lemma SanitisingIsIdempotent(name: string, s: seq<TxProp>)
    ensures Sanitised(name, Sanitised(name, s)) == Sanitised(name, s)
  {
    var once := Sanitised(name, s);
    var twice := Sanitised(name, once);
    forall i | 0 <= i < |s|
      ensures twice[i] == once[i]
    {
      if IsTarget(name) && |s| <= MAX_PROPS {
        SanitisedIsSane(name, s, i);
      }
    }
  }

  /** `pick_fallback_dst`. */
  method PickFallbackDst(name: string, n: nat, tx: array<TxProp>) returns (d: nat)
    requires n <= tx.Length
    ensures 0 < d < 1024
    ensures if CString(name) != "rmnet_data0" && n > 0 && 0 < tx[0].dst < 1024 then d == tx[0].dst else d == 35
  {
    if IsRmnet(name) {
      return FALLBACK;
    }
    if n > 0 && 0 < tx[0].dst < PIPE_MAX {
      return tx[0].dst;
    }
    return FALLBACK;
  }

  /** The loop body, on one entry. */
  method CleanEntry(i: nat, entry: TxProp, eth: bool, fallback: nat) returns (p: TxProp)
    ensures p == Clean(i, entry, eth, fallback)
  {
    p := entry;
    if p.dst == 0 || p.dst >= PIPE_MAX {
      p := p.(dst := fallback);
    }
    if p.alt >= PIPE_MAX {
      p := p.(alt := 0);
    }
    p := p.(ip := if i == 0 then IP_V4 else IP_V6);
    if eth {
      if i == 0 {
        p := p.(hdrName := Padded("eth0_ipv4"));
      } else if i == 1 {
        p := p.(hdrName := Padded("eth0_ipv6"));
      } else if p.hdrName == "" || p.hdrName[0] == '\0' || p.hdrName[0] == ' ' {
        p := p.(hdrName := Padded("eth0_ipv4"));
      }
    }
  }

  /** The loop over the property array, in place; entries past the announced count are untouched.
      The repair of entry 1 that follows it in the program can never be reached. */
  method SanitizeQueryTxProps(name: string, n: nat, tx: array<TxProp>)
    requires n <= MAX_PROPS ==> n <= tx.Length
    modifies tx
    ensures n <= MAX_PROPS ==> tx[..n] == Sanitised(name, old(tx[..n])) && tx[n..] == old(tx[n..])
    ensures n > MAX_PROPS ==> tx[..] == old(tx[..])
  {
    if !IsTarget(name) || n == 0 || n > MAX_PROPS {
      assert n <= MAX_PROPS ==> Sanitised(name, tx[..n]) == tx[..n];
      return;
    }
    var eth := IsEth(name);
    var fallback := PickFallbackDst(name, n, tx);
    assert fallback == PickFallback(name, tx[..n]);
    ghost var before := tx[..n];
    hide Clean, CString, PickFallback;
    for i := 0 to n
      invariant forall k :: 0 <= k < i ==> tx[k] == Clean(k, before[k], eth, fallback)
      invariant forall k :: i <= k < tx.Length ==> tx[k] == old(tx[k])
    {
      var p := CleanEntry(i, tx[i], eth, fallback);
      tx[i] := p;
    }
    assert tx[..n] == Sanitised(name, before) && tx[n..] == old(tx[n..]);
    if n >= 2 {
      SanitisedIsSane(name, before, 1);
      assert tx[1] == tx[..n][1];
      if tx[1].dst == 0 {
        assert false;
      }
    }
  }
}
