/** The older interposer's parser of the kernel's routing table text. */
module Routes {
  import Bytes
  import opened Text

  type u32 = Bytes.u32
  type u8 = Bytes.byte

  const TOKEN_LIMIT := 64
  const IFNAMSIZ := 16
  const BUFFER := 4096

  // ----- numbers

  function Word(a: u8, b: u8, c: u8, d: u8): (r: u32) {
    var hi: int, upper: int, lower: int, lo: int := a, b, c, d;
    hi * 0x100_0000 + upper * 0x1_0000 + lower * 0x100 + lo
  }

  /** The four bytes of a word in the other order. */
  function Bswap32(x: u32): (r: u32) {
    Word(x % 0x100, x / 0x100 % 0x100, x / 0x1_0000 % 0x100, x / 0x100_0000)
  }

  lemma WordParts(a: u8, b: u8, c: u8, d: u8)
    ensures var x := Word(a, b, c, d);
      x % 0x100 == d && x / 0x100 % 0x100 == c && x / 0x1_0000 % 0x100 == b && x / 0x100_0000 == a
  {
    var x := Word(a, b, c, d);
    assert x == 0x100 * (a * 0x1_0000 + b * 0x100 + c) + d;
    assert x / 0x100 == a * 0x1_0000 + b * 0x100 + c;
    assert x / 0x1_0000 == a * 0x100 + b;
  }

  lemma PartsOfWord(x: u32)
    ensures x == Word(x / 0x100_0000, x / 0x1_0000 % 0x100, x / 0x100 % 0x100, x % 0x100)
  {
    assert x / 0x1_0000 == x / 0x100_0000 * 0x100 + x / 0x1_0000 % 0x100;
    assert x / 0x100 == x / 0x1_0000 * 0x100 + x / 0x100 % 0x100;
    assert x == x / 0x100 * 0x100 + x % 0x100;
  }

  /** The four bytes come out in the other order. */
  lemma BswapBytes(a: u8, b: u8, c: u8, d: u8)
    ensures Bswap32(0x100_0000 * a + 0x1_0000 * b + 0x100 * c + d) == 0x100_0000 * d + 0x1_0000 * c + 0x100 * b + a
  {
    WordParts(a, b, c, d);
  }

  lemma BswapTwice(x: u32)
    ensures Bswap32(Bswap32(x)) == x
  {
    var a, b, c, d := x / 0x100_0000, x / 0x1_0000 % 0x100, x / 0x100 % 0x100, x % 0x100;
    PartsOfWord(x);
    WordParts(d, c, b, a);
    hide Word;
    assert Bswap32(x) == Word(d, c, b, a);
  }

  predicate IsHex(c: char) {
    '0' <= c <= '9' || 'a' <= c <= 'f' || 'A' <= c <= 'F'
  }

  /** `hex_nibble` of a hexadecimal digit. */
  function Nibble(c: char): (n: nat)
    requires IsHex(c)
    ensures n < 16
  {
    if '0' <= c <= '9' then c as int - '0' as int
    else if 'a' <= c <= 'f' then c as int - 'a' as int + 10
    else c as int - 'A' as int + 10
  }

  /** The digits are 0 to 9 and a to f in either case, and stand for 0 to 15. */
  lemma DigitsMean(c: char)
    ensures IsHex(c) <==> c in "0123456789abcdefABCDEF"
    ensures IsHex(c) ==> Nibble(c) < 16 && (c == "0123456789abcdef"[Nibble(c)] || c == "0123456789ABCDEF"[Nibble(c)])
  {
  }

  predicate AllHex(s: string) {
    forall c :: c in s ==> IsHex(c)
  }

  function HexValue(s: string): (r: nat)
    requires AllHex(s)
  {
    if s == "" then 0 else 16 * HexValue(s[..|s| - 1]) + Nibble(s[|s| - 1])
  }

  // ----- one token

  predicate IsBlank(c: char) { c == ' ' || c == '\t' }

  function Blanks(s: string): (n: nat)
    ensures n <= |s| && (forall k :: 0 <= k < n ==> IsBlank(s[k])) && (n < |s| ==> !IsBlank(s[n]))
  {
    if s == "" || !IsBlank(s[0]) then 0 else 1 + Blanks(s[1..])
  }

  function Digits(s: string, limit: nat): (n: nat)
    ensures n <= |s| && n <= limit && AllHex(s[..n]) && (n < |s| && n < limit ==> !IsHex(s[n]))
  {
    if s == "" || limit == 0 || !IsHex(s[0]) then 0
    else
      var n := Digits(s[1..], limit - 1);
      assert s[..n + 1] == [s[0]] + s[1..][..n];
      n + 1
  }

  datatype Token = Token(advance: nat, value: u32)

  /** Blanks, then hexadecimal digits as far as the 64th character. Only 32 bits are kept. */
  function TokenOf(s: string): (r: Option<Token>) {
    var b := Blanks(s);
    var d := Digits(s[b..], if b < TOKEN_LIMIT then TOKEN_LIMIT - b else 0);
    if d == 0 then None else Some(Token(b + d, HexValue(s[b..][..d]) % 0x1_0000_0000))
  }

  lemma {:induction false} BlanksIs(s: string, n: nat)
    requires n <= |s| && (forall k :: 0 <= k < n ==> IsBlank(s[k])) && (n < |s| ==> !IsBlank(s[n]))
    ensures Blanks(s) == n
  {
    if n > 0 {
      BlanksIs(s[1..], n - 1);
    }
  }

  lemma {:induction false} DigitsIs(s: string, limit: nat, n: nat)
    requires n <= |s| && n <= limit && (forall k :: 0 <= k < n ==> IsHex(s[k])) && (n < |s| && n < limit ==> !IsHex(s[n]))
    ensures Digits(s, limit) == n
  {
    if n > 0 {
      DigitsIs(s[1..], limit - 1, n - 1);
    }
  }

  /** A character that is neither blank nor digit ends the token: what follows does not matter. */
  lemma TokenStops(a: string, rest: string)
    requires rest != "" && !IsBlank(rest[0]) && !IsHex(rest[0])
    ensures TokenOf(a + rest) == TokenOf(a)
  {
    hide HexValue, Blanks, Digits;
    var s, b := a + rest, Blanks(a);
    BlanksIs(s, b);
    var limit := if b < TOKEN_LIMIT then TOKEN_LIMIT - b else 0;
    var x, d := a[b..], Digits(a[b..], limit);
    assert s[b..] == x + rest;
    assert forall k :: 0 <= k < d ==> x[k] == x[..d][k];
    DigitsIs(x + rest, limit, d);
    assert (x + rest)[..d] == x[..d];
  }

  lemma HexNext(s: string, c: char)
    requires AllHex(s) && IsHex(c)
    ensures AllHex(s + [c]) && HexValue(s + [c]) == 16 * HexValue(s) + Nibble(c)
  {
    assert (s + [c])[..|s|] == s;
  }

  method SkipBlanks(buf: string, at: nat) returns (i: nat)
    requires at < |buf| && buf[|buf| - 1] == '\0'
    ensures i == Blanks(buf[at..]) && at + i < |buf|
  {
    i := 0;
    while IsBlank(buf[at + i])
      invariant at + i < |buf| && forall k :: at <= k < at + i ==> IsBlank(buf[k])
      decreases |buf| - i
    {
      i := i + 1;
    }
    BlanksIs(buf[at..], i);
  }

  /** `parse_hex32_token` at position `at` of a terminated buffer. */
  method ParseHex32Token(buf: string, at: nat) returns (ok: bool, advance: nat, value: u32)
    requires at < |buf| && buf[|buf| - 1] == '\0'
    ensures ok == TokenOf(buf[at..]).Some?
    ensures ok ==> TokenOf(buf[at..]) == Some(Token(advance, value)) && at + advance < |buf|
  {
    hide HexValue, Blanks, Digits, TokenOf, AllHex;
    var i := SkipBlanks(buf, at);
    ghost var b := i;
    ghost var from := at + b;
    var digits := 0;
    value := 0;
    NoDigits();
    assert buf[from..from] == "";
    while i < TOKEN_LIMIT && IsHex(buf[at + i])
      invariant i == b + digits && from + digits < |buf| && (digits > 0 ==> i <= TOKEN_LIMIT)
      invariant AllHex(buf[from..from + digits]) && value == HexValue(buf[from..from + digits]) % 0x1_0000_0000
      decreases TOKEN_LIMIT - i
    {
      ghost var run := buf[from..from + digits];
      HexNext(run, buf[at + i]);
      assert buf[from..from + digits + 1] == run + [buf[at + i]];
      Shift(HexValue(run), Nibble(buf[at + i]));
      value := (value * 16 + Nibble(buf[at + i])) % 0x1_0000_0000;
      digits := digits + 1;
      i := i + 1;
    }
    TokenIs(buf, at, b, digits);
    return digits > 0, i, value;
  }

  /** Where the scanned digits are all there are, they are the token. */
  lemma TokenIs(buf: string, at: nat, b: nat, digits: nat)
    requires at <= |buf| && b == Blanks(buf[at..]) && at + b + digits <= |buf| && AllHex(buf[at + b..at + b + digits])
    requires digits > 0 ==> b + digits <= TOKEN_LIMIT
    requires b + digits < TOKEN_LIMIT && at + b + digits < |buf| ==> !IsHex(buf[at + b + digits])
    ensures TokenOf(buf[at..]) ==
      if digits == 0 then None
      else Some(Token(b + digits, HexValue(buf[at + b..at + b + digits]) % 0x1_0000_0000))
  {
    hide HexValue, Blanks, Digits, IsHex, AllHex;
    var s, from := buf[at..], at + b;
    var t, run := buf[from..], buf[from..from + digits];
    TailOfTail(buf, at, b);
    FrontOfTail(buf, from, digits);
    HexEverywhere(run);
    DigitsIs(t, if b < TOKEN_LIMIT then TOKEN_LIMIT - b else 0, digits);
  }

  lemma SliceParts(s: string, a: nat, b: nat, k: nat)
    requires a + k <= b <= |s|
    ensures s[a..b][..k] == s[a..a + k] && s[a..b][k..] == s[a + k..b]
  {
  }

  lemma TailOfTail(s: string, a: nat, b: nat)
    requires a + b <= |s|
    ensures s[a..][b..] == s[a + b..]
  {
  }

  lemma FrontOfTail(s: string, a: nat, n: nat)
    requires a + n <= |s|
    ensures s[a..][..n] == s[a..a + n] && forall k :: 0 <= k < n ==> s[a..][k] == s[a..a + n][k]
  {
  }

  lemma HexEverywhere(s: string)
    requires AllHex(s)
    ensures forall k :: 0 <= k < |s| ==> IsHex(s[k])
  {
  }

  lemma NoDigits()
    ensures AllHex("") && HexValue("") == 0
  {
  }

  /** Shifting in a digit commutes with keeping 32 bits. */
  lemma Shift(v: nat, n: nat)
    ensures (v % 0x1_0000_0000 * 16 + n) % 0x1_0000_0000 == (16 * v + n) % 0x1_0000_0000
  {
    var q, r := v / 0x1_0000_0000, v % 0x1_0000_0000;
    assert 16 * v + n == (r * 16 + n) + 16 * q * 0x1_0000_0000;
    ModShift(r * 16 + n, 16 * q);
  }

  lemma ModShift(x: nat, k: nat)
    ensures (x + k * 0x1_0000_0000) % 0x1_0000_0000 == x % 0x1_0000_0000
  {
  }

  // ----- one line

  datatype Entry = Entry(iface: string, dst: u32, gw: u32)

  /** The interface name: up to the first blank, but no more than fifteen characters. */
  function NameLength(line: string, limit: nat): (k: nat)
    ensures k <= |line| && k <= limit && (forall i :: 0 <= i < k ==> !IsBlank(line[i]))
    ensures k < |line| && k < limit ==> IsBlank(line[k])
  {
    if line == "" || limit == 0 || IsBlank(line[0]) then 0 else 1 + NameLength(line[1..], limit - 1)
  }

  lemma {:induction false} NameLengthIs(line: string, limit: nat, k: nat)
    requires k <= |line| && k <= limit && (forall i :: 0 <= i < k ==> !IsBlank(line[i]))
    requires k < |line| && k < limit ==> IsBlank(line[k])
    ensures NameLength(line, limit) == k
  {
    if k > 0 {
      NameLengthIs(line[1..], limit - 1, k - 1);
    }
  }

  function ParseLine(line: string): (r: Option<Entry>) {
    var k := NameLength(line, IFNAMSIZ - 1);
    if k == 0 then None
    else
      match TokenOf(line[k..])
      case None => None
      case Some(dst) =>
        if k + dst.advance > |line| then None
        else
          match TokenOf(line[k + dst.advance..])
          case None => None
          case Some(gw) => Some(Entry(line[..k], dst.value, gw.value))
  }

  predicate IsDefault(e: Option<Entry>, ifname: string) {
    e.Some? && e.value.dst == 0 && CString(e.value.iface) == ifname
  }

  /** The gateway of the first default route over `ifname`, in network order. */
  function Gateway(lines: seq<string>, ifname: string): (r: Option<u32>) {
    if lines == [] then None
    else if IsDefault(ParseLine(lines[0]), ifname) then Some(Bswap32(ParseLine(lines[0]).value.gw))
    else Gateway(lines[1..], ifname)
  }

  /** What the parser answers for the text read: the first line is a header. */
  function Answer(text: string, ifname: string): (r: Option<u32>) {
    Gateway(Split(text, '\n')[1..], ifname)
  }

  /** What of the file fits the buffer it is read into. */
  function Kept(file: string): (r: string) {
    Front(file, BUFFER - 1)
  }

  function Front(s: string, room: nat): (r: string) {
    s[..Min(|s|, room)]
  }

  /** A token inside a line is the same read on to the end of the buffer. */
  lemma TokenInLine(buf: string, from: nat, end: nat)
    requires from <= end < |buf| && (buf[end] == '\n' || buf[end] == '\0')
    ensures TokenOf(buf[from..]) == TokenOf(buf[from..end])
  {
    hide TokenOf;
    assert buf[from..] == buf[from..end] + buf[end..];
    TokenStops(buf[from..end], buf[end..]);
  }

  lemma TokenFits(s: string)
    ensures TokenOf(s).Some? ==> 0 < TokenOf(s).value.advance <= |s|
  {
  }

  /** One turn: the line at the front of the text is examined, then dropped. */
  lemma LineStep(s: string, k: nat)
    requires k <= |s| && '\n' !in s[..k] && (k < |s| ==> s[k] == '\n')
    ensures Split(s, '\n')[0] == s[..k]
    ensures k < |s| ==> Split(s, '\n')[1..] == Split(s[k + 1..], '\n')
    ensures k == |s| ==> Split(s, '\n')[1..] == []
  {
    FindIs(s, '\n', k);
    assert k == |s| ==> s[..k] == s;
  }

  /** One line of the buffer, parsed where it lies. */
  method ParseLineAt(buf: string, start: nat, end: nat) returns (ok: bool, iface: string, dst: u32, gw: u32)
    requires start <= end < |buf| && buf[|buf| - 1] == '\0' && (buf[end] == '\n' || end == |buf| - 1)
    ensures ok == ParseLine(buf[start..end]).Some?
    ensures ok ==> ParseLine(buf[start..end]) == Some(Entry(iface, dst, gw))
  {
    hide TokenOf, NameLength;
    ghost var line := buf[start..end];
    var k := 0;
    iface, dst, gw := "", 0, 0;
    while start + k < end && !IsBlank(buf[start + k]) && k < IFNAMSIZ - 1
      invariant start + k <= end && k <= IFNAMSIZ - 1 && iface == buf[start..start + k]
      invariant forall i :: start <= i < start + k ==> !IsBlank(buf[i])
    {
      iface := iface + [buf[start + k]];
      k := k + 1;
    }
    NameLengthIs(line, IFNAMSIZ - 1, k);
    SliceParts(buf, start, end, k);
    if k == 0 {
      return false, iface, dst, gw;
    }
    var advance, pos := 0, start + k;
    TokenInLine(buf, pos, end);
    TokenFits(buf[pos..end]);
    ok, advance, dst := ParseHex32Token(buf, pos);
    if !ok {
      return;
    }
    pos := pos + advance;
    SliceParts(buf, start, end, k + advance);
    TokenInLine(buf, pos, end);
    ok, advance, gw := ParseHex32Token(buf, pos);
  }

  method LineEnd(text: string, start: nat) returns (end: nat)
    requires start <= |text|
    ensures start <= end <= |text| && '\n' !in text[start..end] && (end < |text| ==> text[end] == '\n')
  {
    end := start;
    while end < |text| && text[end] != '\n'
      invariant start <= end <= |text| && '\n' !in text[start..end]
    {
      end := end + 1;
    }
  }

  /** `find_default_gw_be` on what the routing table file holds now ("" when it cannot be read). */
  method FindDefaultGw(file: string, ifname: string) returns (found: bool, gw: u32)
    requires '\0' !in ifname
    ensures var answer := Answer(Kept(file), ifname);
      found == answer.Some? && (found ==> answer == Some(gw))
  {
    hide ParseLine, Find, Split, Bswap32;
    var text := Kept(file);
    gw := 0;
    if |text| == 0 {
      LineStep("", 0);
      return false, 0;
    }
    var buf := text + ['\0'];
    var i, lineNo := 0, 0;
    while i < |text|
      invariant 0 <= i <= |text| + 1
      invariant lineNo == 0 ==> i == 0
      invariant lineNo > 0 ==> Answer(text, ifname) == if i <= |text| then Gateway(Split(text[i..], '\n'), ifname) else None
    {
      var start := i;
      var end := LineEnd(text, start);
      ghost var s := text[start..];
      assert s[..end - start] == text[start..end] == buf[start..end];
      assert end < |text| ==> s[end - start + 1..] == text[end + 1..];
      LineStep(s, end - start);
      assert text[0..] == text;
      i := end + 1;
      lineNo := lineNo + 1;
      if lineNo > 1 {
        var ok, iface, dst, gwLe := ParseLineAt(buf, start, end);
        if ok && dst == 0 && iface[..Find(iface, '\0')] == ifname {
          return true, Bswap32(gwLe);
        }
      }
    }
    assert text[|text|..] == "";
    LineStep("", 0);
    EmptyLine(ifname);
    return false, 0;
  }

  lemma EmptyLine(ifname: string)
    ensures ParseLine("") == None
  {
  }

  // ----- printed tables

  function HexChar(n: nat): (r: char)
    requires n < 16
  {
    if n < 10 then '0' + n as char else 'A' + (n - 10) as char
  }

  /** `n` hexadecimal digits of `v`. */
  function Hex(v: nat, n: nat): (s: string)
    ensures |s| == n
  {
    if n == 0 then "" else Hex(v / 16, n - 1) + [HexChar(v % 16)]
  }

  function Power16(n: nat): (r: nat) {
    if n == 0 then 1 else 16 * Power16(n - 1)
  }

  lemma {:induction false} HexParses(v: nat, n: nat)
    requires v < Power16(n)
    ensures AllHex(Hex(v, n)) && HexValue(Hex(v, n)) == v
  {
    if n > 0 {
      HexParses(v / 16, n - 1);
      HexNext(Hex(v / 16, n - 1), HexChar(v % 16));
    }
  }

  /** A row of the table: name, destination, gateway, and further fields. */
  datatype Row = Row(iface: string, dst: u32, gw: u32, rest: string) {
    ghost predicate Proper() {
      && 0 < |iface| < 16
      && (forall c :: c in iface ==> !IsBlank(c) && c != '\n' && c != '\0')
      && '\n' !in rest && (rest != "" ==> IsBlank(rest[0]))
    }

    function Print(): (r: string) {
      iface + "\t" + Hex(dst, 8) + "\t" + Hex(gw, 8) + rest
    }
  }

  function PrintRows(rows: seq<Row>): (r: string) {
    if rows == [] then "" else rows[0].Print() + ['\n'] + PrintRows(rows[1..])
  }

  /** The first default route over the interface, and where in the printed rows it starts: past
      every row if there is none. */
  function FirstMatch(rows: seq<Row>, ifname: string): (r: Option<Row>) {
    if rows == [] then None
    else if rows[0].iface == ifname && rows[0].dst == 0 then Some(rows[0])
    else FirstMatch(rows[1..], ifname)
  }

  function Start(rows: seq<Row>, ifname: string): (p: nat) {
    if rows == [] || (rows[0].iface == ifname && rows[0].dst == 0) then 0
    else |rows[0].Print()| + 1 + Start(rows[1..], ifname)
  }

  /** What a table is meant to say. */
  function DefaultGateway(rows: seq<Row>, ifname: string): (r: Option<u32>) {
    match FirstMatch(rows, ifname)
    case None => None
    case Some(row) => Some(Bswap32(row.gw))
  }

  /** How many digits of the gateway lie in the first `k` characters of the printed row. */
  function GatewayDigits(row: Row, k: int): (d: nat)
    ensures d <= 8
  {
    if k <= |row.iface| + 10 then 0 else Min(8, k - |row.iface| - 10)
  }

  /** A number without its last `n` hexadecimal digits. */
  function Dropped(v: nat, n: nat): (r: nat)
    ensures r <= v
  {
    if n == 0 then v else Dropped(v / 16, n - 1)
  }

  /** The gateway as far as it lies in the first `k` characters of the row. */
  function KeptGateway(row: Row, k: int): (r: Option<u32>) {
    var d := GatewayDigits(row, k);
    if d == 0 then None else Some(Dropped(row.gw, 8 - d))
  }

  lemma {:induction false} DroppedSame(v: nat, n: nat)
    ensures Dropped(v, n) == v <==> v == 0 || n == 0
  {
    if n > 0 {
      DroppedSame(v / 16, n - 1);
    }
  }

  /** The leading digits of a number are the digits of the number without its last ones. */
  lemma {:induction false} LeadingDigits(v: nat, n: nat, d: nat)
    requires d <= n && v < Power16(n)
    ensures Hex(v, n)[..d] == Hex(Dropped(v, n - d), d) && Dropped(v, n - d) < Power16(d)
  {
    if d < n {
      LeadingDigits(v / 16, n - 1, d);
      assert Hex(v, n)[..d] == Hex(v / 16, n - 1)[..d];
    } else {
      assert Hex(v, n)[..n] == Hex(v, n);
    }
  }

  lemma Hex8(v: u32)
    ensures v < Power16(8) && AllHex(Hex(v, 8))
  {
    assert Power16(4) == 0x1_0000 && Power16(8) == 0x1_0000_0000;
    HexParses(v, 8);
  }

  /** A field of one to eight digits behind spaces and tabs is read back whole. */
  lemma FieldParses(gap: string, v: u32, d: nat, rest: string)
    requires (forall c :: c in gap ==> c == ' ' || c == '\t') && |gap| + d <= 64
    requires 1 <= d <= 8 && v < Power16(d) && (rest != "" ==> !IsHex(rest[0]))
    ensures TokenOf(gap + Hex(v, d) + rest) == Some(Token(|gap| + d, v))
  {
    hide HexValue, Hex, Blanks, Digits, Power16;
    var h := Hex(v, d);
    HexParses(v, d);
    HexEverywhere(h);
    BlanksInFront(gap, h, rest);
    TwoFronts(gap, h, rest);
    hide AllHex, IsHex;
    DigitsInFront(h, rest, 64 - |gap|);
    BelowWord(v, d);
  }

  lemma BlanksInFront(gap: string, h: string, rest: string)
    requires (forall c :: c in gap ==> c == ' ' || c == '\t') && h != "" && IsHex(h[0])
    ensures Blanks(gap + h + rest) == |gap|
  {
    var s, n := gap + h + rest, |gap|;
    assert forall k :: 0 <= k < n ==> s[k] == gap[k] && gap[k] in gap;
    assert s[n] == h[0] && !IsBlank(h[0]);
    BlanksIs(s, n);
  }

  lemma DigitsInFront(h: string, rest: string, limit: nat)
    requires (forall k :: 0 <= k < |h| ==> IsHex(h[k])) && |h| <= limit && (rest != "" ==> !IsHex(rest[0]))
    ensures Digits(h + rest, limit) == |h| && (h + rest)[..|h|] == h
  {
    hide IsHex, Digits;
    DigitsIs(h + rest, limit, |h|);
  }

  lemma BelowWord(v: nat, d: nat)
    requires d <= 8 && v < Power16(d)
    ensures v % 0x1_0000_0000 == v
  {
    assert Power16(4) == 0x1_0000 && Power16(8) == 0x1_0000_0000;
    PowerGrows(d, 8);
  }

  lemma {:induction false} PowerGrows(d: nat, n: nat)
    requires d <= n
    ensures Power16(d) <= Power16(n)
  {
    if d < n {
      PowerGrows(d, n - 1);
    }
  }

  /** Of a run of more than 64 digits the first 64 are read, and the low 32 bits of them kept. */
  lemma LongField(h: string)
    requires |h| >= 64 && AllHex(h)
    ensures AllHex(h[..64]) && TokenOf(h) == Some(Token(64, HexValue(h[..64]) % 0x1_0000_0000))
  {
    hide HexValue, Blanks, Digits;
    HexEverywhere(h);
    assert h[0] in h;
    BlanksIs(h, 0);
    assert h[0..] == h;
    DigitsIs(h, 64, 64);
  }

  /** An interface name is what precedes the first blank, cut to fifteen characters. */
  lemma NameMeans(line: string)
    ensures ParseLine(line).Some? ==>
      var name := ParseLine(line).value.iface;
      && 1 <= |name| <= 15 && name <= line && (forall c :: c in name ==> c != ' ' && c != '\t')
      && (|name| == 15 || |name| == |line| || line[|name|] == ' ' || line[|name|] == '\t')
  {
    hide TokenOf, NameLength;
    var k := NameLength(line, IFNAMSIZ - 1);
    assert forall c :: c in line[..k] ==> exists i :: 0 <= i < k && line[i] == c;
  }

  /** A cut-off field is read as far as it goes. */
  lemma CutFieldParses(v: u32, d: nat, rest: string)
    requires 1 <= d <= 8 && (rest != "" ==> !IsHex(rest[0]))
    ensures TokenOf("\t" + Hex(v, 8)[..d] + rest) == Some(Token(1 + d, Dropped(v, 8 - d)))
  {
    hide TokenOf, Hex, Power16, Dropped;
    Hex8(v);
    LeadingDigits(v, 8, d);
    assert |"\t"| == 1;
    FieldParses("\t", Dropped(v, 8 - d), d, rest);
  }

  lemma NoToken()
    ensures TokenOf("") == None && TokenOf("\t") == None
  {
    BlanksIs("\t", 1);
    assert "\t"[1..] == "";
  }

  lemma TwoFronts(a: string, b: string, c: string)
    ensures (a + b + c)[..|a|] == a && (a + b + c)[|a|..] == b + c && (a + b + c)[|a| + |b|..] == c
  {
  }

  lemma RowIsOneLine(row: Row)
    requires row.Proper()
    ensures '\n' !in row.Print()
  {
    hide Hex, HexValue, Power16;
    Hex8(row.dst);
    Hex8(row.gw);
  }

  /** A name, a gap that holds one field and a tail that holds another. */
  lemma LineParses(name: string, gap: string, tail: string)
    requires 0 < |name| < IFNAMSIZ && (forall c :: c in name ==> !IsBlank(c)) && gap != "" && IsBlank(gap[0])
    requires TokenOf(gap + tail).Some? ==> TokenOf(gap + tail).value.advance == |gap|
    ensures ParseLine(name + gap + tail) ==
      if TokenOf(gap + tail).None? || TokenOf(tail).None? then None
      else Some(Entry(name, TokenOf(gap + tail).value.value, TokenOf(tail).value.value))
  {
    hide TokenOf, NameLength;
    var line, k := name + gap + tail, |name|;
    TwoFronts(name, gap, tail);
    assert forall i :: 0 <= i < k ==> line[i] == name[i] && name[i] in name;
    assert line[k] == gap[0];
    NameLengthIs(line, IFNAMSIZ - 1, k);
  }

  /** A row cut off anywhere parses exactly when a digit of the gateway is left, and then with the
      digits left of it. */
  lemma CutRowParses(row: Row, k: nat)
    requires row.Proper() && k <= |row.Print()|
    ensures ParseLine(row.Print()[..k]) ==
      match KeptGateway(row, k)
      case None => None
      case Some(gw) => Some(Entry(row.iface, row.dst, gw))
  {
    hide Hex, TokenOf, NameLength, Dropped, ParseLine;
    var n, line := |row.iface|, row.Print()[..k];
    NoToken();
    if k <= n {
      assert line == row.iface[..k];
      NameAlone(line);
    } else if k <= n + 9 {
      var d := k - n - 1;
      var gap := "\t" + Hex(row.dst, 8)[..d];
      assert line == row.iface + gap + "" && gap + "" == gap;
      if d > 0 {
        CutFieldParses(row.dst, d, "");
      } else {
        assert gap == "\t";
      }
      LineParses(row.iface, gap, "");
    } else {
      CutBehindGap(row, k);
    }
  }

  lemma NameAlone(name: string)
    requires |name| < IFNAMSIZ && (forall c :: c in name ==> !IsBlank(c))
    ensures ParseLine(name) == None
  {
    assert forall i :: 0 <= i < |name| ==> name[i] in name;
    NameLengthIs(name, IFNAMSIZ - 1, |name|);
    NoToken();
    assert name[|name|..] == "";
  }

  lemma CutBehindGap(row: Row, k: nat)
    requires row.Proper() && |row.iface| + 10 <= k <= |row.Print()|
    ensures ParseLine(row.Print()[..k]) ==
      match KeptGateway(row, k)
      case None => None
      case Some(gw) => Some(Entry(row.iface, row.dst, gw))
  {
    hide Hex, TokenOf, Dropped, ParseLine;
    var n, d := |row.iface|, GatewayDigits(row, k);
    var gap := "\t" + Hex(row.dst, 8);
    var rest := if k <= n + 18 then "" else row.rest[..k - n - 18];
    var tail := "\t" + Hex(row.gw, 8)[..d] + rest;
    CutLine(row.iface + gap, Hex(row.gw, 8), row.rest, k);
    assert row.Print()[..k] == row.iface + gap + tail;
    Hex8(row.dst);
    assert |"\t"| == 1;
    FieldParses("\t", row.dst, 8, tail);
    if d > 0 {
      CutFieldParses(row.gw, d, rest);
    } else {
      NoToken();
      assert tail == "\t";
    }
    LineParses(row.iface, gap, tail);
  }

  lemma CutLine(front: string, digits: string, rest: string, k: nat)
    requires |digits| == 8 && |front| + 1 <= k <= |front| + 9 + |rest|
    ensures (front + "\t" + digits + rest)[..k] ==
      front + ("\t" + digits[..Min(8, k - |front| - 1)] + (if k <= |front| + 9 then "" else rest[..k - |front| - 9]))
  {
  }

  /** The rows of a cut table: what is found is the gateway of the first default route, as far as it
      lies before the cut. */
  lemma {:induction false} RowsAnswer(rows: seq<Row>, ifname: string, room: nat)
    requires forall r :: r in rows ==> r.Proper()
    ensures Gateway(Split(Front(PrintRows(rows), room), '\n'), ifname) == Found(rows, ifname, room)
  {
    hide ParseLine, Split, Row.Print, Bswap32, KeptGateway;
    if rows == [] {
      LineStep("", 0);
      EmptyLine(ifname);
    } else {
      var row, rest := rows[0], PrintRows(rows[1..]);
      assert row in rows;
      if |row.Print()| < room {
        RowsAnswer(rows[1..], ifname, room - |row.Print()| - 1);
      }
      RowAnswer(row, rest, ifname, room);
      FoundCons(rows, ifname, room);
    }
  }

  /** What a search for the first default route finds in the first `room` characters of the rows. */
  function Found(rows: seq<Row>, ifname: string, room: int): (r: Option<u32>) {
    match FirstMatch(rows, ifname)
    case None => None
    case Some(row) => Swapped(KeptGateway(row, room - Start(rows, ifname)))
  }

  function Swapped(gw: Option<u32>): (r: Option<u32>) {
    if gw.Some? then Some(Bswap32(gw.value)) else None
  }

  lemma FoundCons(rows: seq<Row>, ifname: string, room: nat)
    requires rows != [] && rows[0].Proper()
    ensures Found(rows, ifname, room) ==
      if rows[0].iface == ifname && rows[0].dst == 0 then Swapped(KeptGateway(rows[0], room))
      else if |rows[0].Print()| < room then Found(rows[1..], ifname, room - |rows[0].Print()| - 1)
      else None
  {
    hide Row.Print, Bswap32, Dropped;
  }

  /** One row in front of others, cut somewhere. */
  lemma RowAnswer(row: Row, rest: string, ifname: string, room: nat)
    requires row.Proper()
    ensures Gateway(Split(Front(row.Print() + ['\n'] + rest, room), '\n'), ifname) ==
      if row.iface == ifname && row.dst == 0 then Swapped(KeptGateway(row, room))
      else if |row.Print()| < room then Gateway(Split(Front(rest, room - |row.Print()| - 1), '\n'), ifname)
      else None
  {
    hide ParseLine, Split, Row.Print, Bswap32, KeptGateway;
    var line := row.Print();
    var k := Min(|line|, room);
    var cut := Front(line + ['\n'] + rest, room);
    RowIsOneLine(row);
    CutRowParses(row, k);
    RowLength(row, room);
    assert row.iface[..|row.iface|] == row.iface;
    FindIs(row.iface, '\0', |row.iface|);
    assert CString(row.iface) == row.iface;
    assert cut[..k] == line[..k];
    LineStep(cut, k);
    if |line| < room {
      assert cut[k + 1..] == Front(rest, room - |line| - 1);
    } else {
      assert Gateway([], ifname) == None;
    }
  }

  /** What lies behind the row does not matter; a row that lies wholly before the cut keeps its
      gateway. */
  lemma RowLength(row: Row, room: nat)
    ensures KeptGateway(row, Min(|row.Print()|, room)) == KeptGateway(row, room)
    ensures |row.Print()| <= room ==> KeptGateway(row, room) == Some(row.gw)
  {
    hide Dropped, Hex;
    DroppedSame(row.gw, 0);
  }

  function Table(header: string, rows: seq<Row>): (r: string) {
    header + ['\n'] + PrintRows(rows)
  }

  /** The program's answer for a printed table of any length: the gateway of the first default route
      over the interface, as far as its digits lie before the cut. */
  lemma CutTable(header: string, rows: seq<Row>, ifname: string)
    requires '\n' !in header && forall r :: r in rows ==> r.Proper()
    ensures Answer(Kept(Table(header, rows)), ifname) == Found(rows, ifname, BUFFER - 1 - (|header| + 1))
  {
    hide Split, PrintRows, Found;
    var text, room := Table(header, rows), BUFFER - 1;
    if |header| < room {
      HeaderStep(header, PrintRows(rows), room, ifname);
      RowsAnswer(rows, ifname, room - |header| - 1);
    } else {
      assert Front(text, room) == header[..room];
      LineStep(header[..room], room);
      assert header[..room][..room] == header[..room];
      NothingFound(rows, ifname, room - (|header| + 1));
      assert Gateway([], ifname) == None;
    }
  }

  lemma HeaderStep(header: string, rest: string, room: nat, ifname: string)
    requires '\n' !in header && |header| < room
    ensures Split(Front(header + ['\n'] + rest, room), '\n')[1..] == Split(Front(rest, room - |header| - 1), '\n')
  {
    var cut := Front(header + ['\n'] + rest, room);
    assert cut[..|header|] == header && cut[|header| + 1..] == Front(rest, room - |header| - 1);
    LineStep(cut, |header|);
  }

  lemma NothingFound(rows: seq<Row>, ifname: string, room: int)
    requires room <= 0
    ensures Found(rows, ifname, room) == None
  {
  }

  /** That is what the table says exactly if there is no such route, or all eight digits of the first
      one's gateway lie before the cut, or it is zero and one of them does. */
  lemma TableAnswerRightIff(header: string, rows: seq<Row>, ifname: string)
    requires '\n' !in header && forall r :: r in rows ==> r.Proper()
    ensures Answer(Kept(Table(header, rows)), ifname) == DefaultGateway(rows, ifname) <==>
      match FirstMatch(rows, ifname)
      case None => true
      case Some(row) =>
        var kept := GatewayDigits(row, BUFFER - 1 - (|header| + 1) - Start(rows, ifname));
        kept == 8 || (row.gw == 0 && kept > 0)
  {
    hide Answer, Kept, Bswap32, Dropped, GatewayDigits;
    CutTable(header, rows, ifname);
    var first := FirstMatch(rows, ifname);
    if first.Some? {
      var gw, kept := first.value.gw, GatewayDigits(first.value, BUFFER - 1 - (|header| + 1) - Start(rows, ifname));
      DroppedSame(gw, 8 - kept);
      BswapTwice(gw);
      BswapTwice(Dropped(gw, 8 - kept));
    }
  }

  /** Row `i` is the first default route over the interface. */
  predicate IsFirst(rows: seq<Row>, ifname: string, i: nat) {
    && i < |rows| && rows[i].iface == ifname && rows[i].dst == 0
    && forall k :: 0 <= k < i ==> rows[k].iface != ifname || rows[k].dst != 0
  }

  lemma {:induction false} FirstMatchIs(rows: seq<Row>, ifname: string, i: nat)
    requires IsFirst(rows, ifname, i)
    ensures FirstMatch(rows, ifname) == Some(rows[i])
  {
    if i > 0 {
      assert rows[0].iface != ifname || rows[0].dst != 0;
      FirstMatchIs(rows[1..], ifname, i - 1);
    }
  }

  lemma {:induction false} NoMatch(rows: seq<Row>, ifname: string)
    requires forall r :: r in rows ==> r.iface != ifname || r.dst != 0
    ensures FirstMatch(rows, ifname) == None
  {
    if rows != [] {
      assert rows[0] in rows;
      NoMatch(rows[1..], ifname);
    }
  }

  /** The round trip: for a printed table that fits the buffer the answer is what the table says, the
      four bytes of the first default route's gateway in the other order, or nothing. */
  lemma PrintedTable(header: string, rows: seq<Row>, ifname: string, i: nat, a: u8, b: u8, c: u8, d: u8)
    requires '\n' !in header && (forall r :: r in rows ==> r.Proper()) && |Table(header, rows)| < 4096
    ensures var answer := Answer(Kept(Table(header, rows)), ifname);
      && answer == DefaultGateway(rows, ifname)
      && (IsFirst(rows, ifname, i) && rows[i].gw == 0x100_0000 * a + 0x1_0000 * b + 0x100 * c + d
          ==> answer == Some(0x100_0000 * d + 0x1_0000 * c + 0x100 * b + a))
      && ((forall r :: r in rows ==> r.iface != ifname || r.dst != 0) ==> answer == None)
  {
    hide Answer, Kept, Bswap32;
    RouteInside(rows, ifname);
    TableAnswerRightIff(header, rows, ifname);
    BswapBytes(a, b, c, d);
    if IsFirst(rows, ifname, i) {
      FirstMatchIs(rows, ifname, i);
    }
    if forall r :: r in rows ==> r.iface != ifname || r.dst != 0 {
      NoMatch(rows, ifname);
    }
  }

  /** The line of a default route as the system prints it, with the gateway 192.168.225.1. */
  lemma RealTable(header: string)
    requires '\n' !in header && |header| < 4000
    ensures Answer(Kept(header + ['\n'] + ("eth0\t00000000\t01E1A8C0\t0003" + ['\n'])), "eth0") == Some(0xC0A8E101)
  {
    hide Answer, Kept, Hex, FirstMatch, Row.Print, Row.Proper, PrintRows, DefaultGateway;
    var row := Row("eth0", 0, 0x01E1A8C0, "\t0003");
    RealRow();
    PrintOne(row);
    PrintedTable(header, [row], "eth0", 0, 0x01, 0xE1, 0xA8, 0xC0);
  }

  lemma RealRow()
    ensures var row := Row("eth0", 0, 0x01E1A8C0, "\t0003");
      row.Proper() && row.Print() == "eth0\t00000000\t01E1A8C0\t0003" && |row.Print()| == 27
  {
    hide Hex;
    RealDigits();
  }

  lemma PrintOne(row: Row)
    ensures PrintRows([row]) == row.Print() + ['\n']
  {
    hide Row.Print;
    assert [row][1..] == [];
  }

  lemma RealDigits()
    ensures Hex(0, 8) == "00000000" && Hex(0x01E1A8C0, 8) == "01E1A8C0"
  {
    NoGateway();
    GatewayDigitsReal();
  }

  lemma NoGateway()
    ensures Hex(0, 8) == "00000000"
  {
    ZeroDigits(8);
    hide Hex;
  }

  lemma GatewayDigitsReal()
    ensures Hex(0x01E1A8C0, 8) == "01E1A8C0"
  {
    HexStep(0x01E1A8C, 0, 7);
    HexStep(0x01E1A8, 12, 6);
    HexStep(0x01E1A, 8, 5);
    HexStep(0x01E1, 10, 4);
    HexStep(0x01E, 1, 3);
    HexStep(0x01, 14, 2);
    HexStep(0, 1, 1);
    HexStep(0, 0, 0);
    hide Hex;
    assert "" + "0" + "1" + "E" + "1" + "A" + "8" + "C" + "0" == "01E1A8C0";
  }

  lemma {:induction false} ZeroDigits(n: nat)
    ensures Hex(0, n) == seq(n, _ => '0')
  {
    if n > 0 {
      ZeroDigits(n - 1);
    }
  }

  lemma HexStep(v: nat, d: nat, n: nat)
    requires d < 16
    ensures Hex(0, 0) == "" && Hex(16 * v + d, n + 1) == Hex(v, n) + [HexChar(d)]
  {
  }

  lemma {:induction false} RouteInside(rows: seq<Row>, ifname: string)
    ensures FirstMatch(rows, ifname).Some? ==>
      Start(rows, ifname) + |FirstMatch(rows, ifname).value.iface| + 18 < |PrintRows(rows)|
  {
    hide Hex;
    if rows != [] {
      assert |PrintRows(rows)| == |rows[0].Print()| + 1 + |PrintRows(rows[1..])|;
      RouteInside(rows[1..], ifname);
    }
  }

  /** A failing input: behind a header of 4076 characters the cut leaves four of the eight digits of
      the one route's gateway, and those four are answered. */
  lemma GatewayIsTruncated(header: string, gw: u32)
    requires |header| == 4076 && '\n' !in header
    ensures var rows := [Row("eth0", 0, gw, "")];
      && rows[0].Proper()
      && DefaultGateway(rows, "eth0") == Some(Bswap32(gw))
      && Answer(Kept(Table(header, rows)), "eth0") == Some(Bswap32(gw / 0x1_0000))
  {
    hide Answer, Kept, Table, Bswap32;
    var row := Row("eth0", 0, gw, "");
    CutTable(header, [row], "eth0");
    assert GatewayDigits(row, 18) == 4;
    FourDropped(gw);
  }

  lemma FourDropped(v: nat)
    ensures Dropped(v, 4) == v / 0x1_0000
  {
    var a, b, c, d := v / 16, v / 16 / 16, v / 16 / 16 / 16, v / 16 / 16 / 16 / 16;
    assert Dropped(v, 4) == Dropped(a, 3) == Dropped(b, 2) == Dropped(c, 1) == d;
    assert v == 0x1_0000 * d + (0x1000 * (c % 16) + 0x100 * (b % 16) + 0x10 * (a % 16) + v % 16);
  }
}
