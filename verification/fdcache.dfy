/** Is a descriptor open on the IPA device? The answer for the last descriptor asked about is
    cached and never looked up again. */
module FdCache {
  import opened Text

  const DEVICE := "/dev/ipa"
  const PREFIX := "/proc/self/fd/"
  const PATH_SIZE := 32
  const LINK_MAX := 63

  /** What each path links to; "" when it is no link. */
  type Links = string -> string

  type Fd = fd: int | -0x8000_0000 <= fd < 0x8000_0000

  /** A descriptor as an unsigned 32-bit number. */
  function Unsigned(fd: Fd): (v: nat)
    ensures v < 0x1_0000_0000
  {
    if fd < 0 then fd + 0x1_0000_0000 else fd
  }

  function Digit(v: nat): (r: char)
    requires v < 10
  {
    '0' + v as char
  }

  function Decimal(v: nat): (r: string) {
    if v < 10 then [Digit(v)] else Decimal(v / 10) + [Digit(v % 10)]
  }

  function Parse(s: string): (r: int) {
    if s == "" then 0 else 10 * Parse(s[..|s| - 1]) + (s[|s| - 1] as int - '0' as int)
  }

  /** Rendering loses nothing, so distinct descriptors have distinct paths. */
  lemma {:induction false} ParseOfDecimal(v: nat)
    ensures Parse(Decimal(v)) == v && '\0' !in Decimal(v)
  {
    if v >= 10 {
      ParseOfDecimal(v / 10);
      assert Decimal(v)[..|Decimal(v)| - 1] == Decimal(v / 10);
    } else {
      assert Decimal(v)[..0] == "";
    }
  }

  lemma {:induction false} DecimalLength(v: nat, n: nat, bound: nat)
    requires v < bound && n > 0 && bound == Power10(n)
    ensures 1 <= |Decimal(v)| <= n
  {
    if v >= 10 {
      DecimalLength(v / 10, n - 1, Power10(n - 1));
    }
  }

  function Power10(n: nat): (r: nat) {
    if n == 0 then 1 else 10 * Power10(n - 1)
  }

  lemma TenDigits(v: nat)
    requires v < 0x1_0000_0000
    ensures 1 <= |Decimal(v)| <= 10
  {
    assert Power10(4) == 10000 && Power10(8) == 1_0000_0000;
    DecimalLength(v, 10, Power10(10));
  }

  function Path(fd: Fd): (r: string) {
    PREFIX + Decimal(Unsigned(fd))
  }

  /** Most significant digit first. */
  lemma PathMeans()
    ensures Path(0) == "/proc/self/fd/0" && Path(305) == "/proc/self/fd/305"
    ensures Path(-1) == "/proc/self/fd/4294967295"
  {
    assert Decimal(305) == Decimal(30) + "5" && Decimal(30) == Decimal(3) + "0";
    TopDigits();
  }

  lemma TopDigits()
    ensures Decimal(4294967295) == "4294967295"
  {
    assert Decimal(42949) == "42949" by {
      assert Decimal(429) == Decimal(42) + "9" && Decimal(42) == "42";
      assert Decimal(42949) == Decimal(4294) + "9" && Decimal(4294) == Decimal(429) + "4";
    }
    assert Decimal(429496) == "429496" && Decimal(4294967) == Decimal(429496) + "7";
    assert Decimal(429496729) == Decimal(42949672) + "9" && Decimal(42949672) == Decimal(4294967) + "2";
  }

  function Reverse(s: string): (r: string)
    ensures |r| == |s|
  {
    seq(|s|, i requires 0 <= i < |s| => s[|s| - 1 - i])
  }

  /** The first digit loop: the digits come out last first. */
  method Digits(number: nat) returns (rev: array<char>, nrev: nat)
    requires number < 0x1_0000_0000
    ensures fresh(rev) && nrev <= 10 < rev.Length && Decimal(number) == Reverse(rev[..nrev])
  {
    hide Reverse;
    rev := new char[12];
    var v := number;
    nrev := 0;
    TenDigits(v);
    ReverseNothing();
    assert rev[..0] == "";
    while nrev == 0 || v > 0
      invariant nrev <= |Decimal(number)| <= 10 && (nrev == |Decimal(number)| ==> v == 0)
      invariant Decimal(number) == (if nrev == 0 || v > 0 then Decimal(v) else "") + Reverse(rev[..nrev])
      decreases nrev == 0, v
    {
      ghost var done := rev[..nrev];
      ReverseNext(done, Digit(v % 10));
      rev[nrev] := Digit(v % 10);
      nrev := nrev + 1;
      assert rev[..nrev] == done + [Digit(v % 10)];
      v := v / 10;
    }
  }

  /** The path of a descriptor's link, built in a fixed buffer. */
  method FdPath(fd: Fd) returns (path: array<char>)
    ensures fresh(path) && path.Length == PATH_SIZE && CString(path[..]) == Path(fd)
  {
    hide Find, Reverse, Decimal, Unsigned, Digit;
    ghost var text := Decimal(Unsigned(fd));
    TenDigits(Unsigned(fd));
    ParseOfDecimal(Unsigned(fd));
    var rev, nrev := Digits(Unsigned(fd));
    ghost var digits := rev[..nrev];
    ReverseIs(digits);
    path := new char[PATH_SIZE];
    var pre := |PREFIX|;
    for i := 0 to pre
      invariant rev[..nrev] == digits
      invariant forall k :: 0 <= k < i ==> path[k] == PREFIX[k]
    {
      path[i] := PREFIX[i];
    }
    for i := 0 to nrev
      invariant forall k :: 0 <= k < pre ==> path[k] == PREFIX[k]
      invariant rev[..nrev] == digits
      invariant forall k :: pre <= k < pre + i ==> path[k] == text[k - pre]
    {
      assert rev[nrev - 1 - i] == digits[nrev - 1 - i];
      path[pre + i] := rev[nrev - 1 - i];
    }
    path[pre + nrev] := '\0';
    assert path[..][..pre + nrev] == PREFIX + text;
    CStringIs(path[..], pre + nrev);
  }

  lemma ReverseNothing()
    ensures Reverse("") == ""
  {
  }

  lemma ReverseNext(s: string, c: char)
    ensures Reverse(s + [c]) == [c] + Reverse(s)
  {
  }

  lemma ReverseIs(s: string)
    ensures |Reverse(s)| == |s| && forall i :: 0 <= i < |s| ==> Reverse(s)[i] == s[|s| - 1 - i]
  {
  }

  /** Only the first eight characters of the link are compared. */
  predicate IsDevice(link: string) {
    DEVICE <= link[..Min(|link|, LINK_MAX)]
  }

  /** An uncached lookup. */
  predicate Fresh(links: Links, fd: Fd) {
    IsDevice(links(Path(fd)))
  }

  /** The device is whatever the link calls so in its first eight characters. */
  lemma DeviceLink(link: string)
    ensures IsDevice(link) <==> "/dev/ipa" <= link
  {
  }

  datatype Cache = Cache(fd: Fd, isIpa: bool)

  const EMPTY := Cache(-1, false)

  function Ask(c: Cache, links: Links, fd: Fd): (r: Cache) {
    if fd == c.fd then c else Cache(fd, Fresh(links, fd))
  }

  /** The cached answer is the one a lookup would give now. */
  predicate Honest(c: Cache, links: Links) {
    c.isIpa == Fresh(links, c.fd)
  }

  /** One query: the descriptor, and the table at that moment. */
  datatype Inquiry = Inquiry(links: Links, fd: Fd) {
    predicate IsIpa() {
      Fresh(links, fd)
    }
  }

  /** What the cache answers to one query after the other ... */
  function Answers(c: Cache, qs: seq<Inquiry>): (r: seq<bool>)
    decreases |qs|
  {
    if qs == [] then [] else
      var c' := Ask(c, qs[0].links, qs[0].fd);
      [c'.isIpa] + Answers(c', qs[1..])
  }

  /** ... and what fresh lookups would. */
  function Lookups(qs: seq<Inquiry>): (r: seq<bool>)
    decreases |qs|
  {
    if qs == [] then [] else [qs[0].IsIpa()] + Lookups(qs[1..])
  }

  /** While the same descriptor is asked about again and again, it stays the device or stays
      something else. */
  ghost predicate Steady(qs: seq<Inquiry>) {
    forall i :: 0 < i < |qs| && qs[i].fd == qs[i - 1].fd ==> qs[i].IsIpa() == qs[i - 1].IsIpa()
  }

  /** The cached answer is right for the first query, if it is about the cached descriptor. */
  ghost predicate StartsRight(c: Cache, qs: seq<Inquiry>) {
    qs != [] && qs[0].fd == c.fd ==> c.isIpa == qs[0].IsIpa()
  }

  /** Over any sequence of queries and changing tables all answers are fresh exactly when no
      descriptor changes its nature within a block of consecutive queries about it. */
  lemma {:induction false} AgreesIff(c: Cache, qs: seq<Inquiry>)
    ensures Answers(c, qs) == Lookups(qs) <==> Steady(qs) && StartsRight(c, qs)
    decreases |qs|
  {
    hide Fresh;
    if qs != [] {
      var c', rest := Ask(c, qs[0].links, qs[0].fd), qs[1..];
      AgreesIff(c', rest);
      SteadyCons(qs);
      ConsEqual(c'.isIpa, Answers(c', rest), qs[0].IsIpa(), Lookups(rest));
    }
  }

  lemma ConsEqual(a: bool, x: seq<bool>, b: bool, y: seq<bool>)
    ensures [a] + x == [b] + y <==> a == b && x == y
  {
    if [a] + x == [b] + y {
      assert ([a] + x)[0] == ([b] + y)[0] && ([a] + x)[1..] == ([b] + y)[1..];
    }
  }

  lemma SteadyCons(qs: seq<Inquiry>)
    requires qs != []
    ensures Steady(qs) <==>
      Steady(qs[1..]) && (|qs| > 1 && qs[1].fd == qs[0].fd ==> qs[1].IsIpa() == qs[0].IsIpa())
  {
    hide Fresh;
    var rest := qs[1..];
    if Steady(rest) && (|qs| > 1 && qs[1].fd == qs[0].fd ==> qs[1].IsIpa() == qs[0].IsIpa()) {
      forall i | 0 < i < |qs| && qs[i].fd == qs[i - 1].fd
        ensures qs[i].IsIpa() == qs[i - 1].IsIpa()
      {
        assert i > 1 ==> qs[i] == rest[i - 1] && qs[i - 1] == rest[i - 2];
      }
    }
    if Steady(qs) {
      forall i | 0 < i < |rest| && rest[i].fd == rest[i - 1].fd
        ensures rest[i].IsIpa() == rest[i - 1].IsIpa()
      {
        assert rest[i] == qs[i + 1] && rest[i - 1] == qs[i];
      }
    }
  }

  /** Queries against a table that does not change. */
  function Fixed(links: Links, fds: seq<Fd>): (qs: seq<Inquiry>)
    ensures |qs| == |fds|
  {
    seq(|fds|, i requires 0 <= i < |fds| => Inquiry(links, fds[i]))
  }

  lemma HonestAnswers(c: Cache, links: Links, fds: seq<Fd>)
    requires Honest(c, links)
    ensures Answers(c, Fixed(links, fds)) == Lookups(Fixed(links, fds))
  {
    hide Fresh;
    AgreesIff(c, Fixed(links, fds));
  }

  /** With a table that does not change, the cache is invisible exactly when descriptor -1 is not
      the device: that is the one answer the empty cache gives without looking. */
  lemma CacheAgreesIff(links: Links)
    ensures (forall fds: seq<Fd> :: Answers(EMPTY, Fixed(links, fds)) == Lookups(Fixed(links, fds))) <==> !Fresh(links, -1)
  {
    hide Fresh, Answers, Lookups;
    if Fresh(links, -1) {
      var one: seq<Fd> := [-1];
      AgreesIff(EMPTY, Fixed(links, one));
      assert Answers(EMPTY, Fixed(links, one)) != Lookups(Fixed(links, one));
    } else {
      forall fds: seq<Fd>
        ensures Answers(EMPTY, Fixed(links, fds)) == Lookups(Fixed(links, fds))
      {
        HonestAnswers(EMPTY, links, fds);
      }
    }
  }

  /** A failing input: descriptor 3 is the device, is closed, and is reopened on another file. */
  lemma ReopenedDescriptorIsMistaken()
    ensures var qs := [Inquiry(_ => DEVICE, 3), Inquiry(_ => "/tmp/notes", 3)];
      Lookups(qs) == [true, false] && Answers(EMPTY, qs) == [true, true]
  {
    var first, second := Inquiry(_ => DEVICE, 3), Inquiry(_ => "/tmp/notes", 3);
    assert first.IsIpa();
    assert !second.IsIpa() by { assert second.links(Path(3))[1] == 't' && DEVICE[1] == 'd'; }
    assert [first, second][1..] == [second] && [second][1..] == [];
  }

  class Descriptors {
    var cache: Cache

    constructor ()
      ensures cache == EMPTY
    {
      cache := EMPTY;
    }

    method FdIsIpaDev(links: Links, fd: Fd) returns (r: bool)
      modifies this
      ensures cache == Ask(old(cache), links, fd) && r == cache.isIpa
    {
      if fd == cache.fd {
        return cache.isIpa;
      }
      cache := Cache(fd, false);
      var path := FdPath(fd);
      var link := links(path[..Find(path[..], '\0')]);
      if |link| == 0 {
        return false;
      }
      if DEVICE <= link[..Min(|link|, LINK_MAX)] {
        cache := Cache(fd, true);
      }
      return cache.isIpa;
    }
  }
}
