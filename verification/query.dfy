/** Interface queries: the kernel answers in the old record layout, the daemon reads the new one.
    A plausibility score under each layout decides whether the answer is widened in place. */
module Query {
  import opened Bytes
  import opened Configuration
  import opened Records
  import opened Scanners
  import opened Text
  import opened Widening

  const MAX_PROPS := 16
  const PIPE_MAX := 1024
  const OLD_ATTR_SIZE := 152
  const QUERY_PREFIX_SIZE := 36

  /** Field offsets and size of a transmit or receive property record. The IP type is at 0 and the
      match attribute at 4 in every layout. */
  datatype Layout =
    | Tx(size: nat, dst: nat, alt: nat, hdr: nat, l2: nat)
    | Rx(size: nat, src: nat, l2: nat)
  {
    function Old(): (r: Layout) {
      if Tx? then OLD_TX else OLD_RX
    }

    function Pipe(): (r: nat) {
      if Tx? then dst else src
    }

    /** The copies made for one record, in program order. */
    function Plan(): (r: seq<Seg>)
      requires Pipe() >= 4
    {
      var attr := Seg(4, 4, Min(OLD_ATTR_SIZE, Pipe() - 4));
      if Tx? then
        [Seg(0, 0, 4), attr, Seg(dst, OLD_TX.dst, 4), Seg(alt, OLD_TX.alt, 4), Seg(hdr, OLD_TX.hdr, NAME_MAX), Seg(l2, OLD_TX.l2, 4)]
      else
        [Seg(0, 0, 4), attr, Seg(src, OLD_RX.src, 4), Seg(l2, OLD_RX.l2, 4)]
    }

    /** The fields a score looks at lie inside the record. */
    predicate Readable() {
      4 <= size && l2 + 4 <= size && Pipe() + 4 <= size && (Tx? ==> alt + 4 <= size && hdr + NAME_MAX <= size)
    }

    /** A layout the target structure may have: fields inside the record and apart from each
        other, and a record no smaller than the old one. */
    ghost predicate Valid() {
      Pipe() >= 4 && Old().size <= size && Fits(Plan(), Old().size, size) && TargetsApart(Plan())
    }

    /** Checks made per record, and how many of them on average must pass. */
    function Checks(): (r: nat) { if Tx? then 5 else 3 }
    function Quota(): (r: nat) { if Tx? then 4 else 3 }
  }

  const OLD_TX := Tx(200, 156, 160, 164, 196)
  const OLD_RX := Rx(164, 156, 160)

  predicate PrintableName(field: string) {
    var name := CString(field);
    name != "" && forall c :: c in name ==> 32 as char <= c <= 126 as char
  }

  function Chars(bytes: seq<byte>): (s: string)
    ensures |s| == |bytes|
  {
    seq(|bytes|, i requires 0 <= i < |bytes| => bytes[i] as char)
  }

  /** The individual checks on one record. */
  function Verdicts(rec: seq<byte>, lay: Layout): (v: seq<bool>)
    requires |rec| == lay.size && lay.Readable()
    ensures |v| == lay.Checks()
  {
    var ip, pipe, l2 := Rd32(rec, 0), Rd32(rec, lay.Pipe()), Rd32(rec, lay.l2);
    if lay.Tx? then
      [ip <= 1, 0 < pipe < PIPE_MAX, Rd32(rec, lay.alt) < PIPE_MAX, l2 <= 4, PrintableName(Chars(rec[lay.hdr..lay.hdr + NAME_MAX]))]
    else
      [ip <= 1, 0 < pipe < PIPE_MAX, l2 <= 4]
  }

  /** The field starts with `k` characters from space to tilde, at least one, and then ends. */
  predicate PrintableUpTo(field: string, k: nat) {
    0 < k <= |field| && (k < |field| ==> field[k] == '\0') && forall j :: 0 <= j < k ==> ' ' <= field[j] <= '~'
  }

  lemma PrintableMeans(field: string)
    ensures PrintableName(field) <==> exists k :: PrintableUpTo(field, k)
  {
    var k := Find(field, '\0');
    hide Find;
    if PrintableName(field) {
      assert forall j :: 0 <= j < k ==> field[j] in field[..k];
      assert PrintableUpTo(field, k);
    }
    if k' :| PrintableUpTo(field, k') {
      FindIs(field, '\0', k');
    }
  }

  /** A word below a bound, seen on its bytes: the low one comes first. */
  lemma WordBelow(m: seq<byte>, p: nat)
    requires p + 4 <= |m|
    ensures Rd32(m, p) <= 1 <==> m[p] <= 1 && m[p + 1] == m[p + 2] == m[p + 3] == 0
    ensures Rd32(m, p) <= 4 <==> m[p] <= 4 && m[p + 1] == m[p + 2] == m[p + 3] == 0
    ensures Rd32(m, p) < 1024 <==> m[p + 1] < 4 && m[p + 2] == m[p + 3] == 0
    ensures Rd32(m, p) == 0 <==> m[p] == m[p + 1] == m[p + 2] == m[p + 3] == 0
  {
  }

  /** The checks on a record, byte by byte: IP type 0 or 1, a pipe from 1 to 1023, for transmit an
      alternative pipe up to 1023, an L2 type up to 4, and for transmit a printable header name. */
  lemma VerdictsMean(rec: seq<byte>, lay: Layout)
    requires |rec| == lay.size && lay.Readable()
    ensures var v, p := Verdicts(rec, lay), if lay.Tx? then lay.dst else lay.src;
      && |v| == (if lay.Tx? then 5 else 3) && p + 4 <= |rec| && lay.l2 + 4 <= |rec|
      && (v[0] <==> rec[0] <= 1 && rec[1] == rec[2] == rec[3] == 0)
      && (v[1] <==> rec[p + 1] < 4 && rec[p + 2] == rec[p + 3] == 0 && (rec[p] != 0 || rec[p + 1] != 0))
      && (v[if lay.Tx? then 3 else 2] <==> rec[lay.l2] <= 4 && rec[lay.l2 + 1] == rec[lay.l2 + 2] == rec[lay.l2 + 3] == 0)
      && (lay.Tx? ==>
            && lay.alt + 4 <= |rec| && lay.hdr + 32 <= |rec|
            && (v[2] <==> rec[lay.alt + 1] < 4 && rec[lay.alt + 2] == rec[lay.alt + 3] == 0)
            && (v[4] <==> PrintableName(Chars(rec[lay.hdr..lay.hdr + 32]))))
  {
    hide Rd32, PrintableName, Chars;
    WordBelow(rec, 0);
    WordBelow(rec, if lay.Tx? then lay.dst else lay.src);
    WordBelow(rec, lay.l2);
    if lay.Tx? {
      WordBelow(rec, lay.alt);
    }
  }

  function Count(v: seq<bool>, b: bool): (r: nat) {
    if v == [] then 0 else Count(v[..|v| - 1], b) + (if v[|v| - 1] == b then 1 else 0)
  }

  /** The verdicts on records 0 to `n - 1`, in order. */
  function AllVerdicts(m: seq<byte>, base: nat, n: nat, lay: Layout): (r: seq<bool>)
    requires lay.Readable() && base + Offset(n, lay.size) <= |m|
  {
    if n == 0 then []
    else
      OffsetNext(n - 1, n, lay.size);
      AllVerdicts(m, base, n - 1, lay) + Verdicts(RecordAt(m, base, lay.size, n - 1), lay)
  }

  /** The plausibility score: how many checks pass, for a count of records that is in range. */
  function Score(m: seq<byte>, base: nat, n: nat, lay: Layout): (r: nat)
    requires lay.Readable() && (n <= MAX_PROPS ==> base + Offset(n, lay.size) <= |m|)
  {
    if n > MAX_PROPS then 0 else Count(AllVerdicts(m, base, n, lay), true)
  }

  lemma {:induction false} CountAppend(v: seq<bool>, w: seq<bool>, b: bool)
    ensures Count(v + w, b) == Count(v, b) + Count(w, b)
  {
    if w == [] {
      assert v + w == v;
    } else {
      assert (v + w)[..|v + w| - 1] == v + w[..|w| - 1];
      CountAppend(v, w[..|w| - 1], b);
    }
  }

  lemma {:induction false} CountBoth(v: seq<bool>)
    ensures Count(v, true) + Count(v, false) == |v|
    ensures Count(v, false) == 0 <==> forall i :: 0 <= i < |v| ==> v[i]
  {
    if v != [] {
      CountBoth(v[..|v| - 1]);
    }
  }

  lemma {:induction false} VerdictTotal(m: seq<byte>, base: nat, n: nat, lay: Layout)
    requires lay.Readable() && base + Offset(n, lay.size) <= |m|
    ensures |AllVerdicts(m, base, n, lay)| == if lay.Tx? then 5 * n else 3 * n
  {
    hide Offset, RecordAt, Verdicts, Layout.Readable;
    if n > 0 {
      OffsetNext(n - 1, n, lay.size);
      VerdictTotal(m, base, n - 1, lay);
    }
  }

  /** Check `j` of record `i` in the list of all verdicts. */
  lemma {:induction false} VerdictAt(m: seq<byte>, base: nat, n: nat, lay: Layout, i: nat, j: nat)
    requires lay.Readable() && base + Offset(n, lay.size) <= |m| && i < n && j < lay.Checks()
    ensures base + Offset(i, lay.size) + lay.size <= |m| && |AllVerdicts(m, base, n, lay)| == lay.Checks() * n
    ensures lay.Checks() * i + j < |AllVerdicts(m, base, n, lay)|
    ensures AllVerdicts(m, base, n, lay)[lay.Checks() * i + j] == Verdicts(RecordAt(m, base, lay.size, i), lay)[j]
  {
    hide Offset, RecordAt, Verdicts, Layout.Readable;
    OffsetNext(i, n, lay.size);
    OffsetNext(n - 1, n, lay.size);
    VerdictTotal(m, base, n, lay);
    VerdictTotal(m, base, n - 1, lay);
    if i < n - 1 {
      VerdictAt(m, base, n - 1, lay, i, j);
    }
  }

  /** What the thresholds mean: an answer passes when, of all checks made, at most one per record
      (transmit) or none at all (receive) fails. */
  lemma ThresholdMeaning(m: seq<byte>, base: nat, n: nat, lay: Layout)
    requires lay.Readable() && n <= MAX_PROPS && base + Offset(n, lay.size) <= |m|
    ensures var v := AllVerdicts(m, base, n, lay);
      Score(m, base, n, lay) >= n * lay.Quota() <==>
        if lay.Tx? then Count(v, false) <= n else forall i :: 0 <= i < |v| ==> v[i]
  {
    hide AllVerdicts, Offset, Count;
    var v := AllVerdicts(m, base, n, lay);
    VerdictTotal(m, base, n, lay);
    CountBoth(v);
    assert n * lay.Quota() == if lay.Tx? then 4 * n else 3 * n;
  }

  lemma ValidIsReadable(lay: Layout)
    requires lay.Valid()
    ensures lay.Readable() && lay.Old().Readable() && lay.Old().size <= lay.size
  {
    var plan := lay.Plan();
    assert plan[0] in plan && plan[2] in plan && plan[3] in plan;
    assert lay.Tx? ==> plan[4] in plan && plan[5] in plan;
  }

  lemma WordArrives(lay: Layout, rec: seq<byte>, i: nat)
    requires lay.Valid() && |rec| == lay.Old().size && i < |lay.Plan()| && lay.Plan()[i].len == 4
    ensures lay.Plan()[i].to + 4 <= lay.size && lay.Plan()[i].from + 4 <= |rec|
    ensures Rd32(Apply(lay.Plan(), rec, lay.size), lay.Plan()[i].to) == Rd32(rec, lay.Plan()[i].from)
  {
    hide Apply, Rd32;
    FieldArrives(lay.Plan(), i, rec, lay.size);
    Rd32Local(Apply(lay.Plan(), rec, lay.size), lay.Plan()[i].to, rec, lay.Plan()[i].from);
  }

  lemma NameArrives(lay: Layout, rec: seq<byte>)
    requires lay.Tx? && lay.Valid() && |rec| == lay.Old().size
    ensures lay.hdr + NAME_MAX <= lay.size && OLD_TX.hdr + NAME_MAX <= |rec|
    ensures Apply(lay.Plan(), rec, lay.size)[lay.hdr..lay.hdr + NAME_MAX] == rec[OLD_TX.hdr..OLD_TX.hdr + NAME_MAX]
  {
    hide Apply;
    FieldArrives(lay.Plan(), 4, rec, lay.size);
  }

  /** A widened record passes under the new layout exactly the checks it passed under the old. */
  lemma VerdictsTransport(lay: Layout, rec: seq<byte>)
    requires lay.Valid() && |rec| == lay.Old().size && lay.Readable() && lay.Old().Readable()
    ensures Verdicts(Apply(lay.Plan(), rec, lay.size), lay) == Verdicts(rec, lay.Old())
  {
    hide Apply, Rd32, PrintableName, Chars, Layout.Valid, Layout.Readable;
    WordArrives(lay, rec, 0);
    WordArrives(lay, rec, 2);
    WordArrives(lay, rec, 3);
    if lay.Tx? {
      NameArrives(lay, rec);
      WordArrives(lay, rec, 5);
    }
  }

  /** The answer at `base`, widened from `lay.Old()` to `lay`. */
  ghost function Widened(lay: Layout, m: seq<byte>, base: nat, n: nat): (w: seq<byte>)
    requires lay.Valid() && base + Offset(n, lay.size) <= |m|
    ensures |w| == |m|
  {
    Widen(lay.Plan(), m, base, lay.Old().size, lay.size, n)
  }

  /** Score transport: after widening, the new layout scores what the old one scored before. */
  lemma ScoreTransport(lay: Layout, m: seq<byte>, base: nat, n: nat)
    requires lay.Valid() && base + Offset(n, lay.size) <= |m|
    ensures lay.Readable() && lay.Old().Readable() && base + Offset(n, lay.Old().size) <= |m|
    ensures Score(Widened(lay, m, base, n), base, n, lay) == Score(m, base, n, lay.Old())
  {
    hide Widened;
    ValidIsReadable(lay);
    OffsetGrows(n, lay.Old().size, lay.size);
    VerdictsPrefix(lay, m, base, n, n);
  }

  lemma {:induction false} VerdictsPrefix(lay: Layout, m: seq<byte>, base: nat, k: nat, n: nat)
    requires lay.Valid() && lay.Readable() && lay.Old().Readable() && k <= n && base + Offset(n, lay.size) <= |m|
    ensures base + Offset(k, lay.Old().size) <= |m| && base + Offset(k, lay.size) <= |m|
    ensures AllVerdicts(Widened(lay, m, base, n), base, k, lay) == AllVerdicts(m, base, k, lay.Old())
  {
    hide Offset, Verdicts, RecordAt, Apply;
    OffsetGrows(k, lay.Old().size, lay.size);
    OffsetGrows(lay.size, k, n);
    if k > 0 {
      OffsetNext(k - 1, n, lay.size);
      OffsetNext(k - 1, k, lay.Old().size);
      VerdictsPrefix(lay, m, base, k - 1, n);
      WidenedRecord(lay.Plan(), m, base, lay.Old().size, lay.size, k - 1, n);
      VerdictsTransport(lay, RecordAt(m, base, lay.Old().size, k - 1));
    }
  }

  /** One field of one new record is the field of the old record of the same index. */
  lemma WidenedField(lay: Layout, m: seq<byte>, base: nat, n: nat, i: nat, j: nat)
    requires lay.Valid() && base + Offset(n, lay.size) <= |m| && i < n && j < |lay.Plan()|
    ensures base + Offset(i, lay.Old().size) + lay.Old().size <= |m| && base + Offset(i, lay.size) + lay.size <= |m|
    ensures var g := lay.Plan()[j];
      var after, before := RecordAt(Widened(lay, m, base, n), base, lay.size, i), RecordAt(m, base, lay.Old().size, i);
      && g.to + g.len <= lay.size && g.from + g.len <= lay.Old().size
      && after[g.to..g.to + g.len] == before[g.from..g.from + g.len]
  {
    hide Offset, RecordAt, Layout.Plan, Apply;
    WidenedRecord(lay.Plan(), m, base, lay.Old().size, lay.size, i, n);
    FieldArrives(lay.Plan(), j, RecordAt(m, base, lay.Old().size, i), lay.size);
  }

  /** The transmit fields by name: IP type, attribute prefix, both pipes, header name, L2 type. */
  lemma WidenedTxFields(lay: Layout, m: seq<byte>, base: nat, n: nat, i: nat)
    requires lay.Tx? && lay.Valid() && base + Offset(n, lay.size) <= |m| && i < n
    ensures base + Offset(i, 200) + 200 <= |m| && base + Offset(i, lay.size) + lay.size <= |m| && lay.Readable()
    ensures var after, before := RecordAt(Widened(lay, m, base, n), base, lay.size, i), RecordAt(m, base, 200, i);
      var attr := Min(152, lay.dst - 4);
      && 4 + attr <= lay.size
      && after[..4] == before[..4] && after[4..4 + attr] == before[4..4 + attr]
      && after[lay.dst..lay.dst + 4] == before[156..160] && after[lay.alt..lay.alt + 4] == before[160..164]
      && after[lay.hdr..lay.hdr + 32] == before[164..196] && after[lay.l2..lay.l2 + 4] == before[196..200]
  {
    PlanBounds(lay);
    hide Offset, RecordAt, Widened, Fits, TargetsApart;
    WidenedField(lay, m, base, n, i, 0);
    WidenedField(lay, m, base, n, i, 1);
    WidenedField(lay, m, base, n, i, 2);
    WidenedField(lay, m, base, n, i, 3);
    WidenedField(lay, m, base, n, i, 4);
    WidenedField(lay, m, base, n, i, 5);
  }

  /** The receive fields by name: IP type, attribute prefix, pipe, L2 type. */
  lemma WidenedRxFields(lay: Layout, m: seq<byte>, base: nat, n: nat, i: nat)
    requires lay.Rx? && lay.Valid() && base + Offset(n, lay.size) <= |m| && i < n
    ensures base + Offset(i, 164) + 164 <= |m| && base + Offset(i, lay.size) + lay.size <= |m| && lay.Readable()
    ensures var after, before := RecordAt(Widened(lay, m, base, n), base, lay.size, i), RecordAt(m, base, 164, i);
      var attr := Min(152, lay.src - 4);
      && 4 + attr <= lay.size
      && after[..4] == before[..4] && after[4..4 + attr] == before[4..4 + attr]
      && after[lay.src..lay.src + 4] == before[156..160] && after[lay.l2..lay.l2 + 4] == before[160..164]
  {
    PlanBounds(lay);
    hide Offset, RecordAt, Widened, Fits, TargetsApart;
    WidenedField(lay, m, base, n, i, 0);
    WidenedField(lay, m, base, n, i, 1);
    WidenedField(lay, m, base, n, i, 2);
    WidenedField(lay, m, base, n, i, 3);
  }

  /** Every new record holds the fields of the old record of the same index, and zeros elsewhere. */
  lemma WideningIsExact(lay: Layout, m: seq<byte>, base: nat, n: nat, i: nat, k: nat)
    requires lay.Valid() && base + Offset(n, lay.size) <= |m| && i < n && k < lay.size
    ensures base + Offset(i, lay.Old().size) + lay.Old().size <= |m| && base + Offset(i, lay.size) + lay.size <= |m|
    ensures var after, before := RecordAt(Widened(lay, m, base, n), base, lay.size, i), RecordAt(m, base, lay.Old().size, i);
      && (forall j :: 0 <= j < |lay.Plan()| && lay.Plan()[j].Covers(k) ==>
            lay.Plan()[j].from + (k - lay.Plan()[j].to) < |before| && after[k] == before[lay.Plan()[j].from + (k - lay.Plan()[j].to)])
      && ((forall g :: g in lay.Plan() ==> !g.Covers(k)) ==> after[k] == 0)
  {
    hide Offset, RecordAt, Layout.Plan;
    var plan := lay.Plan();
    WidenedRecord(plan, m, base, lay.Old().size, lay.size, i, n);
    forall j | 0 <= j < |plan| && plan[j].Covers(k)
      ensures plan[j].from + (k - plan[j].to) < lay.Old().size && Source(plan, k) == Byte(plan[j].from + (k - plan[j].to))
    {
      assert plan[j] in plan;
      SourceOfSeg(plan, j, k);
    }
    ClearedIffUncovered(plan, k);
  }

  // ----- the handler of one answered query

  function NameAt(m: seq<byte>, q: nat): (s: string)
    requires q + NAME_MAX <= |m|
    ensures |s| == NAME_MAX
  {
    Chars(m[q..q + NAME_MAX])
  }

  function CountAt(m: seq<byte>, q: nat): (r: nat)
    requires q + QUERY_PREFIX_SIZE <= |m|
  {
    Rd32(m, q + NAME_MAX)
  }

  predicate InRange(n: nat) {
    1 <= n <= MAX_PROPS
  }

  /** The handler of this record kind is switched on. */
  predicate Enabled(cfg: Config, lay: Layout) {
    if lay.Tx? then cfg.tx else cfg.rx
  }

  ghost predicate Allowed(cfg: Config, m: seq<byte>, q: nat)
    requires q + NAME_MAX <= |m|
  {
    Matches(cfg.allow, CString(NameAt(m, q)))
  }

  /** The answer area is good as far as the handler goes: nothing is asked of it when the handler is
      switched off, the name alone when the interface is not allowed, the prefix when the count is
      out of range, and otherwise room for as many new records as it announces. */
  ghost predicate AreaFits(cfg: Config, lay: Layout, m: seq<byte>, q: nat) {
    Enabled(cfg, lay) ==>
      q + NAME_MAX <= |m| &&
      (Allowed(cfg, m, q) ==>
         q + QUERY_PREFIX_SIZE <= |m| &&
         (InRange(CountAt(m, q)) ==> q + QUERY_PREFIX_SIZE + Offset(CountAt(m, q), lay.size) <= |m|))
  }

  /** The handler looks at the answer at all. */
  ghost predicate Examines(cfg: Config, lay: Layout, m: seq<byte>, q: nat)
    requires AreaFits(cfg, lay, m, q)
  {
    Enabled(cfg, lay) && Allowed(cfg, m, q) && InRange(CountAt(m, q))
  }

  /** The scores say: certainly old, certainly not new. */
  ghost predicate LooksOld(lay: Layout, m: seq<byte>, base: nat, n: nat)
    requires lay.Valid() && base + Offset(n, lay.size) <= |m|
  {
    ValidIsReadable(lay);
    OffsetGrows(n, lay.Old().size, lay.size);
    Score(m, base, n, lay.Old()) >= n * lay.Quota() > Score(m, base, n, lay)
  }

  ghost predicate Widens(cfg: Config, lay: Layout, m: seq<byte>, q: nat)
    requires lay.Valid() && AreaFits(cfg, lay, m, q)
  {
    && Examines(cfg, lay, m, q)
    && cfg.translateMode && Matches(cfg.translate, CString(NameAt(m, q)))
    && LooksOld(lay, m, q + QUERY_PREFIX_SIZE, CountAt(m, q))
  }

  /** Memory after the handler. */
  ghost function AfterQuery(cfg: Config, lay: Layout, m: seq<byte>, q: nat): (r: seq<byte>)
    requires lay.Valid() && AreaFits(cfg, lay, m, q)
    ensures |r| == |m|
  {
    if Widens(cfg, lay, m, q) then Widened(lay, m, q + QUERY_PREFIX_SIZE, CountAt(m, q)) else m
  }

  lemma PrefixSurvives(lay: Layout, m: seq<byte>, q: nat, n: nat)
    requires lay.Valid() && q + QUERY_PREFIX_SIZE + Offset(n, lay.size) <= |m|
    ensures var w := Widened(lay, m, q + QUERY_PREFIX_SIZE, n);
      NameAt(w, q) == NameAt(m, q) && CountAt(w, q) == CountAt(m, q)
  {
    hide Rd32, Chars, Widen, Offset;
    var base := q + QUERY_PREFIX_SIZE;
    var w := Widened(lay, m, base, n);
    WidenFrame(lay.Plan(), m, base, lay.Old().size, lay.size, n);
    SliceOfSlice(m, 0, base, q, q + NAME_MAX);
    SliceOfSlice(w, 0, base, q, q + NAME_MAX);
    SliceOfSlice(m, 0, base, q + NAME_MAX, base);
    SliceOfSlice(w, 0, base, q + NAME_MAX, base);
    assert w[0..base] == w[..base] && m[0..base] == m[..base];
    Rd32Local(w, q + NAME_MAX, m, q + NAME_MAX);
  }

  /** Once widened, never again: whatever the first run of the handler did, a second run on the
      same area leaves every byte as it is. */
  lemma HandlerIsIdempotent(cfg: Config, lay: Layout, m: seq<byte>, q: nat)
    requires lay.Valid() && AreaFits(cfg, lay, m, q)
    ensures AreaFits(cfg, lay, AfterQuery(cfg, lay, m, q), q)
    ensures AfterQuery(cfg, lay, AfterQuery(cfg, lay, m, q), q) == AfterQuery(cfg, lay, m, q)
  {
    hide Score, Widened, Offset, Rd32, Matches, NameAt;
    if Widens(cfg, lay, m, q) {
      var base, n := q + QUERY_PREFIX_SIZE, CountAt(m, q);
      PrefixSurvives(lay, m, q, n);
      ScoreTransport(lay, m, base, n);
      assert !LooksOld(lay, Widened(lay, m, base, n), base, n);
    }
  }

  /** Where the two layouts coincide there is nothing to translate and nothing is. */
  lemma CoincidingLayoutsNeverWiden(cfg: Config, lay: Layout, m: seq<byte>, q: nat)
    requires lay == lay.Old() && lay.Valid() && AreaFits(cfg, lay, m, q)
    ensures AfterQuery(cfg, lay, m, q) == m
  {
  }

  // ----- what the handler comes to

  /** How many checks fail on `n` records. */
  ghost function Failures(m: seq<byte>, base: nat, n: nat, lay: Layout): (r: nat)
    requires lay.Readable() && base + Offset(n, lay.size) <= |m|
  {
    Count(AllVerdicts(m, base, n, lay), false)
  }

  /** Record `i` of `m'` holds the fields of old record `i` of `m`, and so do all below `n`. */
  ghost predicate HoldsFields(lay: Layout, m: seq<byte>, m': seq<byte>, base: nat, n: nat)
    requires lay.Pipe() >= 4
  {
    forall i :: 0 <= i < n ==> HoldsField(lay, m, m', base, i)
  }

  ghost predicate HoldsField(lay: Layout, m: seq<byte>, m': seq<byte>, base: nat, i: nat)
    requires lay.Pipe() >= 4
  {
    var size := if lay.Tx? then 200 else 164;
    var attr := Min(152, (if lay.Tx? then lay.dst else lay.src) - 4);
    && base + Offset(i, size) + size <= |m| && base + Offset(i, lay.size) + lay.size <= |m'|
    && lay.Readable() && 4 + attr <= lay.size
    && var was, now := RecordAt(m, base, size, i), RecordAt(m', base, lay.size, i);
      && now[..4] == was[..4] && now[4..4 + attr] == was[4..4 + attr]
      && if lay.Tx? then
           && now[lay.dst..lay.dst + 4] == was[156..160] && now[lay.alt..lay.alt + 4] == was[160..164]
           && now[lay.hdr..lay.hdr + 32] == was[164..196] && now[lay.l2..lay.l2 + 4] == was[196..200]
         else now[lay.src..lay.src + 4] == was[156..160] && now[lay.l2..lay.l2 + 4] == was[160..164]
  }

  /** What the source promises of a query handler that finds memory `m` and leaves `m'`. An answer is
      examined if the handler is on, the interface allowed and the count from 1 to 16. It is widened
      if moreover translation is on for the interface, at most one check per record (transmit) or
      none (receive) fails under the old layout, and more than that fail under the new. Then memory
      changes, every new record holds the old fields, and nothing outside the new records changes;
      otherwise nothing changes at all. */
  ghost predicate HandledAs(cfg: Config, lay: Layout, m: seq<byte>, q: nat, m': seq<byte>)
    requires lay.Valid() && AreaFits(cfg, lay, m, q)
  {
    ValidIsReadable(lay);
    |m'| == |m| &&
    if !(if lay.Tx? then cfg.tx else cfg.rx) || !Matches(cfg.allow, CString(Chars(m[q..q + 32]))) then m' == m
    else
      var name, n, base := CString(Chars(m[q..q + 32])), Rd32(m, q + 32), q + 36;
      if n < 1 || n > 16 then m' == m
      else
        OffsetGrows(n, lay.Old().size, lay.size);
        var before := if lay.Tx? then Tx(200, 156, 160, 164, 196) else Rx(164, 156, 160);
        var slack := if lay.Tx? then n else 0;
        if cfg.translateMode && Matches(cfg.translate, name)
           && Failures(m, base, n, before) <= slack < Failures(m, base, n, lay)
        then
          && m' != m && HoldsFields(lay, m, m', base, n)
          && m'[..base] == m[..base] && m'[base + Offset(n, lay.size)..] == m[base + Offset(n, lay.size)..]
        else m' == m
  }

  lemma HandlerMeaning(cfg: Config, lay: Layout, m: seq<byte>, q: nat)
    requires lay.Valid() && AreaFits(cfg, lay, m, q)
    ensures HandledAs(cfg, lay, m, q, AfterQuery(cfg, lay, m, q))
  {
    hide Score, Widened, Offset, Rd32, Matches, CString, Chars, Count, AllVerdicts, HoldsFields, Layout.Valid;
    ValidIsReadable(lay);
    if Enabled(cfg, lay) && Allowed(cfg, m, q) && InRange(CountAt(m, q)) {
      var base, n := q + 36, CountAt(m, q);
      OffsetGrows(n, lay.Old().size, lay.size);
      ThresholdMeaning(m, base, n, lay);
      ThresholdMeaning(m, base, n, lay.Old());
      FailuresOf(m, base, n, lay);
      FailuresOf(m, base, n, lay.Old());
      if LooksOld(lay, m, base, n) {
        ScoreTransport(lay, m, base, n);
        WidenedHoldsFields(lay, m, base, n);
      }
    }
  }

  lemma FailuresOf(m: seq<byte>, base: nat, n: nat, lay: Layout)
    requires lay.Readable() && base + Offset(n, lay.size) <= |m|
    ensures Failures(m, base, n, lay) == 0 <==> forall i :: 0 <= i < |AllVerdicts(m, base, n, lay)| ==> AllVerdicts(m, base, n, lay)[i]
    ensures Failures(m, base, n, lay) == Count(AllVerdicts(m, base, n, lay), false)
  {
    hide Count, AllVerdicts;
    CountBoth(AllVerdicts(m, base, n, lay));
  }

  lemma WidenedHoldsFields(lay: Layout, m: seq<byte>, base: nat, n: nat)
    requires lay.Valid() && base + Offset(n, lay.size) <= |m|
    ensures var w := Widened(lay, m, base, n);
      && HoldsFields(lay, m, w, base, n)
      && w[..base] == m[..base] && w[base + Offset(n, lay.size)..] == m[base + Offset(n, lay.size)..]
  {
    hide Offset, Widen, RecordAt;
    WidenFrame(lay.Plan(), m, base, lay.Old().size, lay.size, n);
    forall i | 0 <= i < n
      ensures HoldsField(lay, m, Widened(lay, m, base, n), base, i)
    {
      if lay.Tx? {
        WidenedTxFields(lay, m, base, n, i);
      } else {
        WidenedRxFields(lay, m, base, n, i);
      }
    }
  }

  // ----- the loops themselves

  method Printable(m: array<byte>, p: nat) returns (seen: bool)
    requires p + NAME_MAX <= m.Length
    ensures seen == PrintableName(Chars(m[p..p + NAME_MAX]))
  {
    hide Find;
    ghost var field := Chars(m[p..p + NAME_MAX]);
    seen := false;
    var i := 0;
    while i < NAME_MAX && m[p + i] != 0
      invariant 0 <= i <= NAME_MAX && seen == (i > 0)
      invariant forall k :: 0 <= k < i ==> field[k] != '\0' && 32 as char <= field[k] <= 126 as char
    {
      if m[p + i] < 32 || m[p + i] > 126 {
        assert field[i] in field[..Find(field, '\0')];
        return false;
      }
      seen := true;
      i := i + 1;
    }
    FindIs(field, '\0', i);
  }

  /** The checks on a record, read where the record lies in memory. */
  lemma VerdictsInPlace(m: seq<byte>, p: nat, lay: Layout)
    requires lay.Readable() && p + lay.size <= |m|
    ensures Verdicts(m[p..p + lay.size], lay) ==
      if lay.Tx? then
        [Rd32(m, p) <= 1, 0 < Rd32(m, p + lay.dst) < PIPE_MAX, Rd32(m, p + lay.alt) < PIPE_MAX, Rd32(m, p + lay.l2) <= 4,
         PrintableName(Chars(m[p + lay.hdr..p + lay.hdr + NAME_MAX]))]
      else
        [Rd32(m, p) <= 1, 0 < Rd32(m, p + lay.src) < PIPE_MAX, Rd32(m, p + lay.l2) <= 4]
  {
    hide Rd32, PrintableName, Chars;
    WordInPlace(m, p, lay.size, 0);
    WordInPlace(m, p, lay.size, lay.Pipe());
    WordInPlace(m, p, lay.size, lay.l2);
    if lay.Tx? {
      WordInPlace(m, p, lay.size, lay.alt);
      SliceOfSlice(m, p, p + lay.size, lay.hdr, lay.hdr + NAME_MAX);
    }
  }

  lemma WordInPlace(m: seq<byte>, p: nat, size: nat, at: nat)
    requires p + size <= |m| && at + 4 <= size
    ensures Rd32(m[p..p + size], at) == Rd32(m, p + at)
  {
    hide Rd32;
    SliceOfSlice(m, p, p + size, at, at + 4);
    Rd32Local(m[p..p + size], at, m, p + at);
  }

  /** One more record adds its passed checks to the score. */
  lemma ScoreStep(m: seq<byte>, base: nat, i: nat, lay: Layout, v: seq<bool>)
    requires lay.Readable() && base + Offset(i + 1, lay.size) <= |m|
    requires base + Offset(i, lay.size) + lay.size <= |m| && v == Verdicts(RecordAt(m, base, lay.size, i), lay)
    ensures Count(AllVerdicts(m, base, i + 1, lay), true) == Count(AllVerdicts(m, base, i, lay), true) + Count(v, true)
  {
    hide Verdicts;
    OffsetNext(i, i + 1, lay.size);
    CountAppend(AllVerdicts(m, base, i, lay), v, true);
  }

  lemma CountPush(v: seq<bool>, b: bool)
    ensures Count(v + [b], true) == Count(v, true) + (if b then 1 else 0)
  {
    assert (v + [b])[..|v|] == v;
  }

  lemma CountThree(a: bool, b: bool, c: bool)
    ensures Count([a, b, c], true) == (if a then 1 else 0) + (if b then 1 else 0) + (if c then 1 else 0)
  {
    var one := [a];
    assert Count(one[..0], true) == 0;
    CountPush(one, b);
    CountPush(one + [b], c);
    assert one + [b] + [c] == [a, b, c];
  }

  lemma CountFive(a: bool, b: bool, c: bool, d: bool, e: bool)
    ensures Count([a, b, c, d, e], true) == Count([a, b, c], true) + (if d then 1 else 0) + (if e then 1 else 0)
  {
    hide Count;
    var three := [a, b, c];
    CountPush(three, d);
    CountPush(three + [d], e);
    assert three + [d] + [e] == [a, b, c, d, e];
  }

  /** The transmit score loop. */
  method TxScore(m: array<byte>, base: nat, n: nat, lay: Layout) returns (score: nat)
    requires lay.Tx? && lay.Readable() && (n <= MAX_PROPS ==> base + Offset(n, lay.size) <= m.Length)
    ensures score == Score(m[..], base, n, lay) && (n > 16 ==> score == 0)
  {
    hide PrintableName, Chars, Rd32, Verdicts, AllVerdicts, Count;
    score := 0;
    if n == 0 || n > MAX_PROPS {
      if n == 0 { NothingScored(m[..], base, lay); }
      return;
    }
    NothingScored(m[..], base, lay);
    for i := 0 to n
      invariant base + Offset(i, lay.size) <= m.Length
      invariant score == Count(AllVerdicts(m[..], base, i, lay), true)
    {
      OffsetNext(i, n, lay.size);
      var p := base + i * lay.size;
      var ip, dst, alt, l2 := 0, 0, 0, 0;
      ip := LoadWord(m, p);
      dst := LoadWord(m, p + lay.dst);
      alt := LoadWord(m, p + lay.alt);
      l2 := LoadWord(m, p + lay.l2);
      var named := Printable(m, p + lay.hdr);
      if ip <= 1 { score := score + 1; }
      if 0 < dst < PIPE_MAX { score := score + 1; }
      if alt < PIPE_MAX { score := score + 1; }
      if l2 <= 4 { score := score + 1; }
      if named { score := score + 1; }
      assert m[..][p + lay.hdr..p + lay.hdr + NAME_MAX] == m[p + lay.hdr..p + lay.hdr + NAME_MAX];
      VerdictsInPlace(m[..], p, lay);
      CountThree(ip <= 1, 0 < dst < PIPE_MAX, alt < PIPE_MAX);
      CountFive(ip <= 1, 0 < dst < PIPE_MAX, alt < PIPE_MAX, l2 <= 4, named);
      ScoreStep(m[..], base, i, lay, Verdicts(RecordAt(m[..], base, lay.size, i), lay));
    }
  }

  /** The receive score loop. */
  method RxScore(m: array<byte>, base: nat, n: nat, lay: Layout) returns (score: nat)
    requires lay.Rx? && lay.Readable() && (n <= MAX_PROPS ==> base + Offset(n, lay.size) <= m.Length)
    ensures score == Score(m[..], base, n, lay) && (n > 16 ==> score == 0)
  {
    hide Rd32, Verdicts, AllVerdicts, Count;
    score := 0;
    if n == 0 || n > MAX_PROPS {
      if n == 0 { NothingScored(m[..], base, lay); }
      return;
    }
    NothingScored(m[..], base, lay);
    for i := 0 to n
      invariant base + Offset(i, lay.size) <= m.Length
      invariant score == Count(AllVerdicts(m[..], base, i, lay), true)
    {
      OffsetNext(i, n, lay.size);
      var p := base + i * lay.size;
      var ip := LoadWord(m, p);
      var src := LoadWord(m, p + lay.src);
      var l2 := LoadWord(m, p + lay.l2);
      if ip <= 1 { score := score + 1; }
      if 0 < src < PIPE_MAX { score := score + 1; }
      if l2 <= 4 { score := score + 1; }
      VerdictsInPlace(m[..], p, lay);
      CountThree(ip <= 1, 0 < src < PIPE_MAX, l2 <= 4);
      ScoreStep(m[..], base, i, lay, Verdicts(RecordAt(m[..], base, lay.size, i), lay));
    }
  }

  lemma NothingScored(m: seq<byte>, base: nat, lay: Layout)
    requires lay.Readable() && base + Offset(0, lay.size) <= |m|
    ensures Count(AllVerdicts(m, base, 0, lay), true) == 0
  {
  }

  /** The bounds every copy of a plan respects. */
  lemma PlanBounds(lay: Layout)
    requires lay.Valid()
    ensures Min(OLD_ATTR_SIZE, lay.Pipe() - 4) + 4 <= lay.size && lay.Readable()
  {
    var plan := lay.Plan();
    assert plan[1] in plan;
    ValidIsReadable(lay);
  }

  /** A cleared record is a record before its first copy, a fully copied one is the wide record. */
  lemma PlanEnds(plan: seq<Seg>, rec: seq<byte>, size: nat)
    ensures Apply(plan[..0], rec, size) == Zeros(size)
    ensures plan[..|plan|] == plan
  {
  }

  lemma NothingWidened(plan: seq<Seg>, m: seq<byte>, base: nat, narrow: nat, wide: nat, n: nat)
    requires narrow <= wide && base + Offset(n, wide) <= |m|
    ensures Progress(plan, m, base, narrow, wide, n, n) == m
  {
    hide Offset, Apply;
    OffsetGrows(n, narrow, wide);
    assert Packed(plan, m, base, narrow, wide, n, n) == [];
  }

  /** Copies a whole record out of the buffer before its place is reused. */
  method Fetch(tmp: array<byte>, m: array<byte>, p: nat, size: nat)
    requires tmp != m && tmp.Length == size && p + size <= m.Length
    modifies tmp
    ensures tmp[..][0..size] == m[..][p..p + size]
  {
    ghost var before := tmp[..];
    MemCopy(tmp, 0, m, p, size);
    BlitAll(before, m[..][p..p + size]);
  }

  /** The body of the transmit loop: clear the new record, then copy field by field. */
  method BuildTx(m: array<byte>, newp: nat, tmp: array<byte>, lay: Layout)
    requires lay.Tx? && lay.Valid() && newp + lay.size <= m.Length && tmp != m && tmp.Length == OLD_TX.size
    modifies m
    ensures m[..] == Blit(old(m[..]), newp, Apply(lay.Plan(), tmp[..][0..OLD_TX.size], lay.size))
  {
    hide Apply, Blit, TargetsApart, Fits;
    PlanBounds(lay);
    var attr := Min(OLD_ATTR_SIZE, lay.dst - 4);
    ghost var now, plan := m[..], lay.Plan();
    PlanEnds(plan, tmp[..][0..OLD_TX.size], lay.size);
    MemZero(m, newp, lay.size);
    CopySeg(m, newp, lay.size, tmp, 0, OLD_TX.size, Seg(0, 0, 4), now, plan, 0);
    CopySeg(m, newp, lay.size, tmp, 0, OLD_TX.size, Seg(4, 4, attr), now, plan, 1);
    CopySeg(m, newp, lay.size, tmp, 0, OLD_TX.size, Seg(lay.dst, OLD_TX.dst, 4), now, plan, 2);
    CopySeg(m, newp, lay.size, tmp, 0, OLD_TX.size, Seg(lay.alt, OLD_TX.alt, 4), now, plan, 3);
    CopySeg(m, newp, lay.size, tmp, 0, OLD_TX.size, Seg(lay.hdr, OLD_TX.hdr, NAME_MAX), now, plan, 4);
    CopySeg(m, newp, lay.size, tmp, 0, OLD_TX.size, Seg(lay.l2, OLD_TX.l2, 4), now, plan, 5);
  }

  method BuildRx(m: array<byte>, newp: nat, tmp: array<byte>, lay: Layout)
    requires lay.Rx? && lay.Valid() && newp + lay.size <= m.Length && tmp != m && tmp.Length == OLD_RX.size
    modifies m
    ensures m[..] == Blit(old(m[..]), newp, Apply(lay.Plan(), tmp[..][0..OLD_RX.size], lay.size))
  {
    hide Apply, Blit, TargetsApart, Fits;
    PlanBounds(lay);
    var attr := Min(OLD_ATTR_SIZE, lay.src - 4);
    ghost var now, plan := m[..], lay.Plan();
    PlanEnds(plan, tmp[..][0..OLD_RX.size], lay.size);
    MemZero(m, newp, lay.size);
    CopySeg(m, newp, lay.size, tmp, 0, OLD_RX.size, Seg(0, 0, 4), now, plan, 0);
    CopySeg(m, newp, lay.size, tmp, 0, OLD_RX.size, Seg(4, 4, attr), now, plan, 1);
    CopySeg(m, newp, lay.size, tmp, 0, OLD_RX.size, Seg(lay.src, OLD_RX.src, 4), now, plan, 2);
    CopySeg(m, newp, lay.size, tmp, 0, OLD_RX.size, Seg(lay.l2, OLD_RX.l2, 4), now, plan, 3);
  }

  /** The downward loop over the records, in the overlapping buffer. */
  method Translate(m: array<byte>, base: nat, n: nat, lay: Layout)
    requires lay.Valid() && base + Offset(n, lay.size) <= m.Length
    modifies m
    ensures m[..] == Widened(lay, old(m[..]), base, n)
  {
    hide Apply, Blit, Offset, Packed, Progress, TargetsApart, Fits, Layout.Plan;
    ghost var m0, plan, size := m[..], lay.Plan(), lay.Old().size;
    var tmp := new byte[lay.Old().size];
    var idx: nat := n;
    NothingWidened(plan, m0, base, size, lay.size, n);
    while idx > 0
      invariant idx <= n && m[..] == Progress(plan, m0, base, size, lay.size, idx, n)
    {
      var i: nat := idx - 1;
      WidenStep(plan, m0, base, size, lay.size, i, n);
      Fetch(tmp, m, base + Offset(i, lay.Old().size), lay.Old().size);
      if lay.Tx? {
        BuildTx(m, base + Offset(i, lay.size), tmp, lay);
      } else {
        BuildRx(m, base + Offset(i, lay.size), tmp, lay);
      }
      idx := i;
    }
  }
}
