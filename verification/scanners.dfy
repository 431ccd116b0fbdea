/** The two hand-written scanners that decide what the bridge may touch: the interface list
    test and the environment lookup, with the configuration they fill. */
module Scanners {
  import opened Text

  const NAME_MAX := 32
  const ENV_NAME_MAX := 128
  const MAX_ENV_BUF := 4096
  const MAX_CFG_STR := 256

  // ----- interface lists

  /** Some comma-separated piece of `csv`, trimmed of spaces, is `key`. */
  ghost predicate Listed(csv: string, key: string) {
    exists i :: 0 <= i < |Split(csv, ',')| && Trim(Split(csv, ',')[i]) == key
  }

  ghost predicate LastPieceBlank(csv: string) {
    Trim(Split(csv, ',')[|Split(csv, ',')| - 1]) == ""
  }

  /** What the list test answers. For the empty name it looks at the last piece only. */
  ghost predicate Matches(csv: string, key: string) {
    csv == "*" || (csv != "" && Scan(csv, key))
  }

  ghost predicate Scan(s: string, key: string) {
    if key == "" then LastPieceBlank(s) else Listed(s, key)
  }

  lemma ScanWhole(a: string, key: string)
    requires ',' !in a
    ensures Scan(a, key) <==> Trim(a) == key
  {
    SplitWhole(a, ',');
    assert Split(a, ',')[0] == a;
  }

  lemma ScanPiece(a: string, t: string, key: string)
    requires ',' !in a
    ensures Scan(a + [','] + t, key) <==> (key != "" && Trim(a) == key) || Scan(t, key)
  {
    SplitCons(a, t, ',');
    var whole, rest := Split(a + [','] + t, ','), Split(t, ',');
    assert whole == [a] + rest;
    assert whole[|whole| - 1] == rest[|rest| - 1];
    if key != "" && Listed(t, key) {
      var i :| 0 <= i < |rest| && Trim(rest[i]) == key;
      assert whole[i + 1] == rest[i];
    }
    assert whole[0] == a;
  }

  lemma ScanSpace(t: string, key: string)
    ensures Scan([' '] + t, key) <==> Scan(t, key)
  {
    hide Find, Split, Trim;
    var whole, rest := Split([' '] + t, ','), Split(t, ',');
    SplitSpace(t);
    TrimSpace(rest[0]);
    assert forall i :: 0 < i < |rest| ==> whole[i] == rest[i];
    assert |whole| == |rest| && forall i :: 0 <= i < |rest| ==> Trim(whole[i]) == Trim(rest[i]);
  }

  /** A space in front goes to the first piece. */
  lemma SplitSpace(t: string)
    ensures Split(t, ',') != [] && Split([' '] + t, ',') == [[' '] + Split(t, ',')[0]] + Split(t, ',')[1..]
  {
    var s, k := [' '] + t, Find(t, ',');
    assert s[..k + 1] == [' '] + t[..k];
    FindIs(s, ',', k + 1);
    hide Find;
    if k < |t| {
      assert s[k + 2..] == t[k + 1..];
      assert Split(t, ',') == [t[..k]] + Split(t[k + 1..], ',');
      assert Split(s, ',') == [s[..k + 1]] + Split(s[k + 2..], ',');
    } else {
      assert Split(t, ',') == [t] && t[..k] == t && Split(s, ',') == [s];
    }
  }

  lemma TrimSpace(s: string)
    ensures Trim([' '] + s) == Trim(s)
  {
    assert ([' '] + s)[1..] == s;
  }

  /** Leading separators and spaces never change the answer. */
  lemma ScanSkip(c: char, t: string, key: string)
    requires c == ' ' || c == ','
    ensures Scan([c] + t, key) <==> Scan(t, key)
  {
    if c == ',' {
      assert [c] + t == "" + [','] + t;
      ScanPiece("", t, key);
    } else {
      ScanSpace(t, key);
    }
  }

  lemma TrimEndOfBlankTail(s: string, n: nat)
    requires n <= |s| && (forall k :: n <= k < |s| ==> s[k] == ' ')
    requires n > 0 ==> s[n - 1] != ' '
    requires s != "" ==> s[0] != ' '
    ensures Trim(s) == s[..n]
  {
    if n < |s| {
      var t := s[..|s| - 1];
      TrimEndOfBlankTail(t, n);
      assert t[..n] == s[..n];
    } else {
      assert s[..n] == s;
    }
  }

  /** One turn of the scan: the piece at `start` is tested, what follows it is still to do. */
  lemma ScanTurn(csv: string, start: nat, end: nat, key: string)
    requires start <= end <= |csv| && ',' !in csv[start..end] && (end < |csv| ==> csv[end] == ',')
    requires end < |csv| ==> Trim(csv[start..end]) != ""
    ensures Scan(csv[start..], key) <==>
      Trim(csv[start..end]) == key || (end < |csv| && Scan(csv[end..], key))
  {
    hide Scan, Trim;
    var piece, t := csv[start..end], csv[end..];
    if end < |csv| {
      assert csv[start..] == piece + [','] + t[1..];
      assert t == [','] + t[1..];
      ScanPiece(piece, t[1..], key);
      ScanSkip(',', t[1..], key);
    } else {
      assert csv[start..] == piece;
      ScanWhole(piece, key);
    }
  }

  /** The comparison loop of both scanners: do `n` characters of `s` from `at` on agree with `t`? */
  method SameAt(s: string, at: nat, t: string, n: nat) returns (same: bool)
    requires at + n <= |s| && n <= |t|
    ensures same == (s[at..at + n] == t[..n])
  {
    var i := 0;
    while i < n && s[at + i] == t[i]
      invariant 0 <= i <= n
      invariant forall k :: 0 <= k < i ==> s[at + k] == t[k]
    {
      i := i + 1;
    }
    if i < n {
      assert s[at..at + n][i] != t[..n][i];
    }
    return i == n;
  }

  /** The scan, character by character. `csv` is the text before the terminating NUL and
      `name` a fixed array that need not be terminated. */
  method CsvHas(csv: string, name: string) returns (found: bool)
    requires '\0' !in csv && |name| == NAME_MAX
    ensures found == Matches(csv, CString(name))
  {
    hide Scan, Find, Trim;
    var nlen := Find(name, '\0');
    ghost var key := CString(name);
    if csv == "" {
      return false;
    }
    if csv[0] == '*' && |csv| == 1 {
      assert csv == "*";
      return true;
    }
    ghost var wanted := Matches(csv, key);
    assert csv[0..] == csv;
    var pos := 0;
    while pos < |csv|
      invariant 0 <= pos <= |csv|
      invariant wanted == (pos < |csv| && Scan(csv[pos..], key))
      invariant pos == 0 || pos == |csv| || csv[pos] == ','
      decreases |csv| - pos
    {
      ghost var entry := pos;
      while pos < |csv| && (csv[pos] == ' ' || csv[pos] == ',')
        invariant entry <= pos <= |csv|
        invariant Scan(csv[pos..], key) == Scan(csv[entry..], key)
        invariant pos == entry ==> pos == 0 || csv[pos] == ','
      {
        assert csv[pos..] == [csv[pos]] + csv[pos + 1..];
        ScanSkip(csv[pos], csv[pos + 1..], key);
        pos := pos + 1;
      }
      var start, len := pos, 0;
      while pos < |csv| && csv[pos] != ','
        invariant start <= pos <= |csv| && len == pos - start
        invariant ',' !in csv[start..pos]
        invariant start < |csv| ==> csv[start] != ' ' && csv[start] != ','
      {
        pos, len := pos + 1, len + 1;
      }
      ghost var piece := csv[start..pos];
      while len > 0 && csv[start + len - 1] == ' '
        invariant 0 <= len <= pos - start
        invariant forall k :: len <= k < |piece| ==> piece[k] == ' '
      {
        len := len - 1;
      }
      assert piece != "" ==> piece[0] == csv[start] && len > 0;
      TrimEndOfBlankTail(piece, len);
      assert Trim(piece) == csv[start..start + len];
      ScanTurn(csv, start, pos, key);
      if len == nlen {
        var same := SameAt(csv, start, name, nlen);
        if same {
          return true;
        }
      }
    }
    return false;
  }

  /** What the list is meant to say: everything, or the trimmed pieces. */
  ghost predicate Member(csv: string, key: string) {
    csv == "*" || Listed(csv, key)
  }

  /** The test is list membership, for every list, exactly when the name is not empty. */
  lemma MembershipExactlyForNames(key: string)
    ensures (forall csv :: Matches(csv, key) == Member(csv, key)) <==> key != ""
  {
    hide Matches, Member;
    if key == "" {
      EmptyNameMissesInnerBlank();
      assert Matches("eth0,,wan", key) != Member("eth0,,wan", key);
    } else {
      forall csv
        ensures Matches(csv, key) == Member(csv, key)
      {
        MatchesIsMembership(csv, key);
      }
    }
  }

  lemma MatchesIsMembership(csv: string, key: string)
    requires key != ""
    ensures Matches(csv, key) <==> Member(csv, key)
  {
    if csv == "" {
      ScanWhole("", key);
    }
  }

  /** For the empty name a blank piece followed by a real one goes unnoticed. */
  lemma EmptyNameMissesInnerBlank()
    ensures Member("eth0,,wan", "") && !Matches("eth0,,wan", "")
  {
    hide Split, Find;
    var csv, tail := "eth0,,wan", "" + [','] + "wan";
    assert csv == "eth0" + [','] + tail;
    SplitCons("eth0", tail, ',');
    SplitCons("", "wan", ',');
    SplitWhole("wan", ',');
    var pieces := Split(csv, ',');
    assert pieces == ["eth0", "", "wan"];
    assert Trim(pieces[1]) == "" && pieces[|pieces| - 1] == "wan";
  }

  // ----- printed lists

  /** A name in a list, with spaces around it. */
  datatype Piece = Piece(left: nat, name: string, right: nat) {
    predicate Proper() {
      name != "" && ',' !in name && name[0] != ' ' && name[|name| - 1] != ' '
    }

    function Print(): (r: string) {
      Spaces(left) + name + Spaces(right)
    }
  }

  function Spaces(n: nat): (r: string) {
    seq(n, _ => ' ')
  }

  function PrintList(pieces: seq<Piece>): (r: string)
    requires pieces != []
  {
    if |pieces| == 1 then pieces[0].Print() else pieces[0].Print() + "," + PrintList(pieces[1..])
  }

  /** In a list of names, with any spaces around them, exactly those names are found; `*` alone stands
      for every name. */
  lemma PrintedList(pieces: seq<Piece>, key: string)
    requires pieces != [] && forall p :: p in pieces ==> p.Proper()
    ensures Matches(PrintList(pieces), key) <==> PrintList(pieces) == "*" || exists p :: p in pieces && p.name == key
  {
    hide Split, Trim;
    var csv, n := PrintList(pieces), |pieces|;
    PrintedPieces(pieces);
    assert forall i :: 0 <= i < n ==> pieces[i] in pieces && Trim(Split(csv, ',')[i]) == pieces[i].name;
    NotEmpty(pieces);
    if p :| p in pieces && p.name == key {
      var i :| 0 <= i < n && pieces[i] == p;
      assert Trim(Split(csv, ',')[i]) == key;
    }
    if Listed(csv, key) {
      var i :| 0 <= i < |Split(csv, ',')| && Trim(Split(csv, ',')[i]) == key;
      assert pieces[i] in pieces && pieces[i].name == key;
    }
  }

  lemma NotEmpty(pieces: seq<Piece>)
    requires pieces != [] && pieces[0].Proper()
    ensures PrintList(pieces) != ""
  {
  }

  lemma {:induction false} PrintedPieces(pieces: seq<Piece>)
    requires pieces != [] && forall p :: p in pieces ==> p.Proper()
    ensures |Split(PrintList(pieces), ',')| == |pieces|
    ensures forall i :: 0 <= i < |pieces| ==> Trim(Split(PrintList(pieces), ',')[i]) == pieces[i].name
  {
    hide Split, Trim, Piece.Print, Piece.Proper;
    var p := pieces[0];
    assert p in pieces;
    PrintedPiece(p);
    if |pieces| == 1 {
      SplitWhole(p.Print(), ',');
    } else {
      var rest := pieces[1..];
      assert forall q :: q in rest ==> q in pieces;
      PrintedPieces(rest);
      SplitCons(p.Print(), PrintList(rest), ',');
      assert "," == [','];
      assert forall i :: 0 < i < |pieces| ==> pieces[i] == rest[i - 1];
    }
  }

  lemma PrintedPiece(p: Piece)
    requires p.Proper()
    ensures ',' !in p.Print() && Trim(p.Print()) == p.name
  {
    hide Trim;
    var s := p.name + Spaces(p.right);
    assert p.Print() == Spaces(p.left) + s;
    TrimSpaces(p.left, s);
    TrimEndOfBlankTail(s, |p.name|);
    assert s[..|p.name|] == p.name;
  }

  lemma {:induction false} TrimSpaces(n: nat, s: string)
    ensures Trim(Spaces(n) + s) == Trim(s)
  {
    hide Trim;
    if n > 0 {
      TrimSpaces(n - 1, s);
      TrimSpace(Spaces(n - 1) + s);
      assert [' '] + (Spaces(n - 1) + s) == Spaces(n) + s;
    } else {
      assert Spaces(n) + s == s;
    }
  }

  // ----- environment lookup

  /** The value of the first entry that starts with `key=`. */
  function Lookup(entries: seq<string>, key: string): (r: Option<string>) {
    if entries == [] then None
    else if key + "=" <= entries[0] then Some(entries[0][|key| + 1..])
    else Lookup(entries[1..], key)
  }

  function EnvLookup(env: string, key: string): (r: Option<string>) {
    Lookup(Split(env, '\0'), key)
  }

  /** Copies a value out of the block, cut to the caller's buffer and always terminated. */
  method CopyValue(env: string, from: nat, to: nat, out: array<char>, outSize: nat)
    requires from <= to <= |env| && '\0' !in env[from..to] && 0 < outSize <= out.Length
    modifies out
    ensures CString(out[..outSize]) == env[from..to][..Min(to - from, outSize - 1)]
    ensures out[outSize..] == old(out[outSize..])
  {
    hide Find;
    var v, j := from, 0;
    while v < to && j + 1 < outSize
      invariant v == from + j && v <= to && j < outSize
      invariant forall k :: 0 <= k < j ==> out[k] == env[from..to][k]
      invariant forall k :: outSize <= k < out.Length ==> out[k] == old(out[k])
    {
      out[j] := env[v];
      v, j := v + 1, j + 1;
    }
    out[j] := '\0';
    assert out[..outSize][..j] == env[from..to][..j];
    CStringIs(out[..outSize], j);
  }

  /** The scan over the entries of a loaded block. */
  method ScanEnv(env: string, name: string, out: array<char>, outSize: nat) returns (found: bool)
    requires 0 < outSize <= out.Length
    modifies out
    ensures var value := EnvLookup(env, name[..Min(|name|, 128)]);
      found == value.Some? &&
      CString(out[..outSize]) == (if value.Some? then value.value[..Min(|value.value|, outSize - 1)] else "")
    ensures out[outSize..] == old(out[outSize..])
  {
    hide EnvLookup, Find, CString;
    out[0] := '\0';
    assert CString(out[..outSize]) == "" by {
      CStringIs(out[..outSize], 0);
    }
    var nameLen := Min(|name|, ENV_NAME_MAX);
    ghost var key := name[..nameLen];
    var pos := 0;
    while pos < |env|
      invariant 0 <= pos <= |env| + 1
      invariant EnvLookup(env, key) == if pos <= |env| then EnvLookup(env[pos..], key) else None
      invariant CString(out[..outSize]) == "" && out[outSize..] == old(out[outSize..])
    {
      var start := pos;
      while pos < |env| && env[pos] != '\0'
        invariant start <= pos <= |env| && '\0' !in env[start..pos]
      {
        pos := pos + 1;
      }
      ghost var entry := env[start..pos];
      assert env[start..][..pos - start] == entry;
      assert pos < |env| ==> env[start..][pos - start + 1..] == env[pos + 1..];
      EntryStep(env[start..], pos - start, key);
      if pos > start + nameLen && env[start + nameLen] == '=' {
        var same := SameAt(env, start, name, nameLen);
        PrefixOfEntry(entry, key);
        assert entry[..nameLen] == env[start..start + nameLen];
        if same {
          assert entry[nameLen + 1..] == env[start + nameLen + 1..pos];
          CopyValue(env, start + nameLen + 1, pos, out, outSize);
          return true;
        }
      } else {
        PrefixOfEntry(entry, key);
      }
      pos := pos + 1;
    }
    EntryStep("", 0, key);
    assert env[|env|..] == "";
    return false;
  }

  lemma PrefixOfEntry(entry: string, key: string)
    ensures key + "=" <= entry <==> |entry| > |key| && entry[|key|] == '=' && entry[..|key|] == key
  {
    if key + "=" <= entry {
      assert entry[..|key|] == (key + "=")[..|key|];
      assert entry[|key|] == (key + "=")[|key|];
    }
  }

  /** What of the environment fits the buffer it is read into. */
  function Kept(text: string): (r: string) {
    text[..Min(|text|, MAX_ENV_BUF - 1)]
  }

  /** The environment block, read from the system on first use and kept from then on. */
  class Environment {
    var loaded: bool
    var buf: string

    constructor ()
      ensures !loaded && buf == ""
    {
      loaded, buf := false, "";
    }

    /** The block a lookup works on when the environment file holds `current` ("" when it cannot be
        opened). */
    function Block(current: string): (r: string)
      reads this
    {
      if loaded then buf else Kept(current)
    }

    method Get(current: string, name: string, out: array<char>, outSize: nat) returns (found: bool)
      requires outSize <= out.Length
      modifies this, out
      ensures loaded && buf == old(Block(current))
      ensures var value := EnvLookup(buf, name[..Min(|name|, 128)]);
        outSize > 0 ==>
          found == value.Some? &&
          CString(out[..outSize]) == (if value.Some? then value.value[..Min(|value.value|, outSize - 1)] else "")
      ensures outSize == 0 ==> !found
      ensures out[outSize..] == old(out[outSize..])
    {
      if !loaded {
        buf := Kept(current);
        loaded := true;
      }
      if outSize == 0 {
        return false;
      }
      found := ScanEnv(buf, name, out, outSize);
    }
  }

  /** One turn of the scan: the entry at the front of the block is tested, then dropped. */
  lemma EntryStep(s: string, k: nat, key: string)
    requires k <= |s| && '\0' !in s[..k] && (k < |s| ==> s[k] == '\0')
    ensures EnvLookup(s, key) ==
      if key + "=" <= s[..k] then Some(s[..k][|key| + 1..])
      else if k < |s| then EnvLookup(s[k + 1..], key)
      else None
  {
    FindIs(s, '\0', k);
    if k == |s| {
      assert s[..k] == s;
      assert Lookup([s][1..], key) == None;
    } else {
      assert Split(s, '\0') == [s[..k]] + Split(s[k + 1..], '\0');
      assert Split(s, '\0')[1..] == Split(s[k + 1..], '\0');
    }
  }

  datatype Variable = Variable(name: string, value: string) {
    ghost predicate Proper() {
      '\0' !in name && '=' !in name && '\0' !in value
    }
  }

  /** The environment block of a process: name=value entries, each closed by a NUL. */
  function Serialise(vars: seq<Variable>): (r: string) {
    if vars == [] then "" else vars[0].name + "=" + vars[0].value + ['\0'] + Serialise(vars[1..])
  }

  function FirstValue(vars: seq<Variable>, key: string): (r: Option<string>) {
    if vars == [] then None
    else if vars[0].name == key then Some(vars[0].value)
    else FirstValue(vars[1..], key)
  }

  /** Where in the block the first entry of that name starts; past every entry if there is none. */
  function Start(vars: seq<Variable>, key: string): (p: nat) {
    if vars == [] || vars[0].name == key then 0
    else |vars[0].name| + |vars[0].value| + 2 + Start(vars[1..], key)
  }

  /** The part of a value stored at offset `at` that lies below `room`. */
  function Below(value: Option<string>, at: nat, room: nat): (r: Option<string>) {
    if value.Some? && at <= room then Some(value.value[..Min(|value.value|, room - at)]) else None
  }

  /** Looking a name up in the first `room` characters of a serialised environment gives as much of
      the first value under it as lies there; nothing, if not even its name and '=' do. */
  lemma {:induction false} CutLookup(vars: seq<Variable>, key: string, room: nat)
    requires (forall v :: v in vars ==> v.Proper()) && '=' !in key
    ensures EnvLookup(Serialise(vars)[..Min(|Serialise(vars)|, room)], key)
         == Below(FirstValue(vars, key), Start(vars, key) + |key| + 1, room)
  {
    hide EnvLookup;
    var s := Serialise(vars);
    if vars == [] {
      EntryStep("", 0, key);
      assert s[..Min(|s|, room)] == "";
    } else {
      var name, value := vars[0].name, vars[0].value;
      assert vars[0] in vars && forall v :: v in vars[1..] ==> v in vars;
      CutStep(name, value, Serialise(vars[1..]), key, room);
      if |name| + 1 + |value| < room {
        CutLookup(vars[1..], key, room - (|name| + 1 + |value|) - 1);
      }
    }
  }

  /** One entry of a cut block: it holds the answer, or what is kept of the entries behind it does. */
  lemma CutStep(name: string, value: string, rest: string, key: string, room: nat)
    requires Variable(name, value).Proper() && '=' !in key
    ensures var s, size := name + "=" + value + ['\0'] + rest, |name| + 1 + |value|;
      EnvLookup(s[..Min(|s|, room)], key) ==
        if name == key && |key| + 1 <= room then Some(value[..Min(|value|, room - (|key| + 1))])
        else if size < room then EnvLookup(rest[..Min(|rest|, room - size - 1)], key)
        else None
  {
    hide EnvLookup;
    var entry := name + "=" + value;
    var s := entry + ['\0'] + rest;
    var cut := s[..Min(|s|, room)];
    if |entry| < room {
      CutEntry(entry, rest, room);
      KeyOfEntry(name, value, |entry|, key);
      EntryStep(cut, |entry|, key);
      assert entry[..|entry|] == entry && value[..|value|] == value;
    } else {
      assert cut == entry[..room] == entry[..room][..room];
      KeyOfEntry(name, value, room, key);
      EntryStep(cut, room, key);
    }
  }

  lemma CutEntry(entry: string, rest: string, room: nat)
    requires |entry| < room
    ensures var s := entry + ['\0'] + rest; var cut := s[..Min(|s|, room)];
      && |entry| < |cut| && cut[..|entry|] == entry && cut[|entry|] == '\0'
      && cut[|entry| + 1..] == rest[..Min(|rest|, room - |entry| - 1)]
  {
    var s := entry + ['\0'] + rest;
    assert s[..Min(|s|, room)] == entry + ['\0'] + rest[..Min(|rest|, room - |entry| - 1)];
  }

  /** What the front `k` characters of an entry answer to a name. */
  lemma KeyOfEntry(name: string, value: string, k: nat, key: string)
    requires '=' !in name && '=' !in key && k <= |name| + 1 + |value|
    ensures var front := (name + "=" + value)[..k];
      && (key + "=" <= front <==> name == key && |key| + 1 <= k)
      && (name == key && |key| + 1 <= k ==> front[|key| + 1..] == value[..k - |key| - 1])
  {
    var entry := name + "=" + value;
    var front := entry[..k];
    if key + "=" <= front {
      assert entry[..|key| + 1] == front[..|key| + 1] == key + "=";
      KeyIsName(name, value, key);
    }
    if name == key && |key| + 1 <= k {
      assert entry == key + "=" + value;
      assert front[..|key| + 1] == key + "=";
      assert front == key + "=" + value[..k - |key| - 1];
    }
  }

  /** Looking a name up in a whole serialised environment gives the first value stored under it. */
  lemma LookupOfSerialised(vars: seq<Variable>, key: string)
    requires (forall v :: v in vars ==> v.Proper()) && '=' !in key
    ensures EnvLookup(Serialise(vars), key) == FirstValue(vars, key)
  {
    var s := Serialise(vars);
    CutLookup(vars, key, |s|);
    assert s[..|s|] == s;
    ValueInside(vars, key);
    var v := FirstValue(vars, key);
    assert v.Some? ==> v.value[..|v.value|] == v.value;
  }

  lemma {:induction false} ValueInside(vars: seq<Variable>, key: string)
    ensures FirstValue(vars, key).Some? ==>
      Start(vars, key) + |key| + 1 + |FirstValue(vars, key).value| < |Serialise(vars)|
  {
    if vars != [] {
      assert |Serialise(vars)| == |vars[0].name| + |vars[0].value| + 2 + |Serialise(vars[1..])|;
      ValueInside(vars[1..], key);
    }
  }

  /** An entry is found under its own name only, because names hold no '='. */
  lemma KeyIsName(name: string, value: string, key: string)
    requires '=' !in name && '=' !in key && key + "=" <= name + "=" + value
    ensures name == key
  {
    var entry := name + "=" + value;
    assert Find(entry, '=') == |name| by {
      assert entry[..|name|] == name;
      FindIs(entry, '=', |name|);
    }
    assert Find(entry, '=') == |key| by {
      assert entry[..|key|] == (key + "=")[..|key|] == key;
      assert entry[|key|] == (key + "=")[|key|];
      FindIs(entry, '=', |key|);
    }
    assert entry[..|name|] == name && entry[..|key|] == (key + "=")[..|key|] == key;
  }
}
