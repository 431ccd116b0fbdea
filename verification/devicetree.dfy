/** Property blobs of the device tree and the splicing of new nodes into it. A byte is a character
    below 256. */
module DeviceTree {
  import Bytes
  import opened Text

  type u32 = Bytes.u32

  const ENOMEM := 12
  const ENODEV := 19
  const EINVAL := 22

  const PHANDLE_RX := 0x8125
  const PHANDLE_TX := 0x8126

  // ----- property values

  function StringValue(s: string): (r: string) {
    s + ['\0']
  }

  /** Cells are big-endian. */
  function Cell(v: u32): (s: string)
    ensures |s| == 4
  {
    [(v / 0x100_0000) as char, (v / 0x1_0000 % 0x100) as char, (v / 0x100 % 0x100) as char, (v % 0x100) as char]
  }

  function Cells(vs: seq<u32>): (s: string)
    ensures |s| == 4 * |vs|
  {
    if vs == [] then "" else Cell(vs[0]) + Cells(vs[1..])
  }

  function ReadCell(s: string): (r: int)
    requires |s| == 4
  {
    s[0] as int * 0x100_0000 + s[1] as int * 0x1_0000 + s[2] as int * 0x100 + s[3] as int
  }

  function ReadCells(s: string): (r: seq<int>) {
    if |s| < 4 then [] else [ReadCell(s[..4])] + ReadCells(s[4..])
  }

  lemma CellRoundTrip(v: u32)
    ensures ReadCell(Cell(v)) == v
  {
    CellParts(v);
  }

  lemma CellParts(v: u32)
    ensures v == v / 0x100_0000 * 0x100_0000 + v / 0x1_0000 % 0x100 * 0x1_0000 + v / 0x100 % 0x100 * 0x100 + v % 0x100
  {
    assert v == v / 0x100 * 0x100 + v % 0x100;
    assert v / 0x100 == v / 0x1_0000 * 0x100 + v / 0x100 % 0x100;
    assert v / 0x1_0000 == v / 0x100_0000 * 0x100 + v / 0x1_0000 % 0x100;
  }

  lemma {:induction false} CellsRoundTrip(vs: seq<u32>)
    ensures ReadCells(Cells(vs)) == vs
  {
    hide ReadCell, Cell;
    if vs != [] {
      CellRoundTrip(vs[0]);
      CellsRoundTrip(vs[1..]);
      assert Cells(vs)[..4] == Cell(vs[0]) && Cells(vs)[4..] == Cells(vs[1..]);
    }
  }

  /** The strings of a stringlist value, each closed by a NUL. */
  function StringListValue(values: seq<string>): (r: string) {
    if values == [] then "" else values[0] + ['\0'] + StringListValue(values[1..])
  }

  function TotalLength(values: seq<string>): (r: nat) {
    if values == [] then 0 else |values[0]| + 1 + TotalLength(values[1..])
  }

  /** Splitting the blob at its NULs gives back the list; nothing follows the last NUL. */
  lemma {:induction false} StringListRoundTrip(values: seq<string>)
    requires forall v :: v in values ==> '\0' !in v
    ensures Split(StringListValue(values), '\0') == values + [""]
    ensures |StringListValue(values)| == TotalLength(values)
  {
    if values == [] {
      SplitWhole("", '\0');
    } else {
      StringListRoundTrip(values[1..]);
      assert values[0] in values;
      SplitCons(values[0], StringListValue(values[1..]), '\0');
      assert [values[0]] + (values[1..] + [""]) == values + [""];
    }
  }

  lemma {:induction false} StringListAppend(values: seq<string>, v: string)
    ensures StringListValue(values + [v]) == StringListValue(values) + v + ['\0']
    ensures TotalLength(values + [v]) == TotalLength(values) + |v| + 1
  {
    if values == [] {
      assert [v][1..] == [];
    } else {
      assert (values + [v])[1..] == values[1..] + [v];
      StringListAppend(values[1..], v);
    }
  }

  /** `memcpy` of a string with its NUL. */
  method CopyString(blob: array<char>, offset: nat, v: string)
    requires offset + |v| + 1 <= blob.Length
    modifies blob
    ensures blob[..offset + |v| + 1] == old(blob[..offset]) + v + ['\0']
  {
    for j := 0 to |v|
      invariant blob[..offset + j] == old(blob[..offset]) + v[..j]
    {
      blob[offset + j] := v[j];
    }
    blob[offset + |v|] := '\0';
    assert v[..|v|] == v;
  }

  /** Two loops: the first measures, the second copies every string with its NUL. */
  method EncodeStringList(values: seq<string>) returns (blob: array<char>)
    ensures fresh(blob) && blob[..] == StringListValue(values)
  {
    var total := 0;
    for i := 0 to |values|
      invariant total == TotalLength(values[..i])
    {
      StringListAppend(values[..i], values[i]);
      assert values[..i] + [values[i]] == values[..i + 1];
      total := total + |values[i]| + 1;
    }
    assert values[..|values|] == values;
    blob := new char[total](_ => '\0');
    var offset := 0;
    for i := 0 to |values|
      invariant offset == TotalLength(values[..i]) && offset + TotalLength(values[i..]) == total
      invariant blob[..offset] == StringListValue(values[..i])
    {
      var len := |values[i]| + 1;
      CopyString(blob, offset, values[i]);
      StringListAppend(values[..i], values[i]);
      assert values[..i] + [values[i]] == values[..i + 1];
      offset := offset + len;
    }
    assert blob[..] == blob[..offset];
  }

  // ----- nodes

  class Node {
    const name: string
    const fullName: string
    const phandle: u32
    const parent: Node?
    var child: Node?
    var sibling: Node?
    var detached: bool
    var props: map<string, string>

    constructor (parent: Node, name: string, unitName: string, phandle: u32)
      ensures this.name == name && this.fullName == parent.fullName + "/" + unitName
      ensures this.phandle == phandle && this.parent == parent
      ensures child == null && sibling == null && detached && props == map[]
    {
      this.name, this.fullName, this.phandle, this.parent := name, parent.fullName + "/" + unitName, phandle, parent;
      child, sibling, detached, props := null, null, true, map[];
    }
  }

  /** Following `sibling` from `first` visits exactly `kids` and ends. */
  ghost predicate Chain(first: Node?, kids: seq<Node>)
    reads (set n | n in kids)`sibling
  {
    if kids == [] then first == null
    else
      && first == kids[0] && kids[|kids| - 1].sibling == null
      && forall i :: 0 <= i < |kids| - 1 ==> kids[i].sibling == kids[i + 1]
  }

  /** A list that ends visits no node twice. */
  lemma {:induction false} ChainIsAcyclic(first: Node?, kids: seq<Node>, i: nat, j: nat)
    requires Chain(first, kids) && i < j < |kids|
    ensures kids[i] != kids[j]
    decreases |kids| - j
  {
    assert kids[i].sibling == kids[i + 1];
    if kids[i] == kids[j] {
      if j < |kids| - 1 {
        assert kids[j].sibling == kids[j + 1];
        ChainIsAcyclic(first, kids, i + 1, j + 1);
      }
    }
  }

  type Lists = map<Node, seq<Node>>

  /** Children are known nodes themselves. */
  ghost predicate Closed(lists: Lists) {
    forall p, n :: p in lists && n in lists[p] ==> n in lists
  }

  /** `lists` gives the child list of every known node. */
  ghost predicate Tree(lists: Lists)
    reads lists.Keys`child, (set p, n | p in lists && n in lists[p] :: n)`sibling
  {
    Closed(lists) && forall p :: p in lists ==> Chain(p.child, lists[p])
  }

  function FirstNamed(kids: seq<Node>, name: string): (r: Node?)
    ensures r != null ==> r in kids && r.name == name
  {
    if kids == [] then null
    else if kids[0].name == name then kids[0]
    else FirstNamed(kids[1..], name)
  }

  /** It is the first node of that name; null means there is none. */
  lemma {:induction false} FirstNamedMeans(kids: seq<Node>, name: string, i: nat)
    ensures FirstNamed(kids, name) == null <==> forall n :: n in kids ==> n.name != name
    ensures i < |kids| && kids[i].name == name && (forall k :: 0 <= k < i ==> kids[k].name != name)
      ==> FirstNamed(kids, name) == kids[i]
  {
    if kids != [] {
      assert kids[0] in kids;
      if kids[0].name != name {
        FirstNamedMeans(kids[1..], name, if i == 0 then 0 else i - 1);
      }
    }
  }

  method FindChildByName(parent: Node, name: string, ghost kids: seq<Node>) returns (found: Node?)
    requires Chain(parent.child, kids)
    ensures found == FirstNamed(kids, name)
  {
    var child := parent.child;
    ghost var i := 0;
    while child != null
      invariant i <= |kids| && child == (if i < |kids| then kids[i] else null)
      invariant FirstNamed(kids, name) == FirstNamed(kids[i..], name)
      decreases |kids| - i
    {
      if child.name == name {
        return child;
      }
      child := child.sibling;
      i := i + 1;
    }
    return null;
  }

  /** Lists after `node` was put in front of its parent's children. */
  ghost function Attached(lists: Lists, parent: Node, node: Node): (r: Lists)
    requires parent in lists
  {
    lists[parent := [node] + lists[parent]][node := []]
  }

  /** The splice: one atomic step. */
  method AttachNode(node: Node?, ghost lists: Lists) returns (ret: int)
    requires Tree(lists)
    requires node != null && node.parent != null ==> node.parent in lists && node !in lists
    modifies if node == null || node.parent == null then {} else {node}
    modifies (if node == null || node.parent == null then {} else {node.parent})`child
    ensures node == null || node.parent == null ==> ret == -22
    ensures node != null && node.parent != null ==>
      ret == 0 && Tree(Attached(lists, node.parent, node)) && !node.detached && node.props == old(node.props)
  {
    if node == null || node.parent == null {
      return -EINVAL;
    }
    var parent := node.parent;
    ghost var lists' := Attached(lists, parent, node);
    node.child := null;
    node.sibling := parent.child;
    parent.child := node;
    node.detached := false;
    assert Closed(lists');
    forall p | p in lists'
      ensures Chain(p.child, lists'[p])
    {
      if p == parent {
        var kids := lists[p];
        assert lists'[p] == [node] + kids;
        assert old(Chain(p.child, kids));
        assert forall n :: n in kids ==> n.sibling == old(n.sibling);
      } else if p != node {
        assert old(Chain(p.child, lists[p]));
        assert forall n :: n in lists[p] ==> n.sibling == old(n.sibling);
      }
    }
    return 0;
  }

  // ----- the runtime nodes

  /** How the kernel answers one property request: no memory for it, or a result code. */
  datatype Fate = NoMemory | Code(rc: int)

  datatype Prop = Prop(name: string, value: string)

  /** `pcie_set_property`: added or updated, the node ends up with the value if the kernel agrees. */
  method SetProperty(node: Node, prop: Prop, fate: Fate) returns (ret: int)
    modifies node`props
    ensures ret == if fate.NoMemory? then -ENOMEM else fate.rc
    ensures node.props == if ret == 0 then old(node.props)[prop.name := prop.value] else old(node.props)
  {
    if fate.NoMemory? {
      return -ENOMEM;
    }
    if fate.rc == 0 {
      node.props := node.props[prop.name := prop.value];
    }
    return fate.rc;
  }

  /** The root complex's properties after the request to switch it on. */
  function SwitchedOn(props: map<string, string>, status: Fate): (r: map<string, string>) {
    if status == Code(0) then props["status" := StringValue("okay")] else props
  }

  function U32(name: string, v: u32): (r: Prop) { Prop(name, Cell(v)) }
  function Flag(name: string): (r: Prop) { Prop(name, "") }
  function Str(name: string, s: string): (r: Prop) { Prop(name, StringValue(s)) }

  /** Ring parameters both channels share. */
  function RingProps(): (r: seq<Prop>) {
    [U32("qcom,ring-size", 1024), U32("qcom,buff-size", 2048), U32("qcom,mod-count-min", 32),
     U32("qcom,mod-count-max", 64), U32("qcom,mod-usecs-min", 30), U32("qcom,mod-usecs-max", 60)]
  }

  function RxProps(): (r: seq<Prop>) {
    [U32("phandle", PHANDLE_RX), U32("linux,phandle", PHANDLE_RX), Str("name", "r8125_rx"),
     Flag("qcom,dir-rx"), Flag("qcom,rx-filter-ip")] + RingProps()
  }

  function TxProps(): (r: seq<Prop>) {
    [U32("phandle", PHANDLE_TX), U32("linux,phandle", PHANDLE_TX), Str("name", "r8125_tx"),
     Flag("qcom,dir-tx")] + RingProps()
  }

  function DeviceProps(ioss: u32, group: u32): (r: seq<Prop>) {
    [Str("compatible", "qcom,ioss-v2-device"), Str("name", "realtek,rtl8125"),
     Prop("reg", Cells([0, 0, 0, 0, 0])), Prop("pci-ids", StringListValue(["10ec:8125", "10ec:3000"])),
     U32("qcom,ioss_instance", 0), U32("qcom,ioss", ioss), U32("qcom,iommu-group", group),
     Prop("qcom,ioss_channels", Cells([PHANDLE_RX, PHANDLE_TX]))]
  }

  function Store(m: map<string, string>, props: seq<Prop>): (r: map<string, string>) {
    if props == [] then m
    else Store(m, props[..|props| - 1])[props[|props| - 1].name := props[|props| - 1].value]
  }

  lemma {:induction false} StoreAt(m: map<string, string>, props: seq<Prop>, i: nat)
    requires i < |props| && forall j :: i < j < |props| ==> props[j].name != props[i].name
    ensures props[i].name in Store(m, props) && Store(m, props)[props[i].name] == props[i].value
  {
    var n := |props| - 1;
    if i < n {
      StoreAt(m, props[..n], i);
    }
  }

  lemma {:induction false} StoreNames(m: map<string, string>, props: seq<Prop>, name: string)
    ensures name in Store(m, props) <==> name in m || exists i :: 0 <= i < |props| && props[i].name == name
  {
    if props != [] {
      var n := |props| - 1;
      StoreNames(m, props[..n], name);
      if i :| 0 <= i < n && props[..n][i].name == name {
        assert props[i].name == name;
      }
      if i :| 0 <= i < |props| && props[i].name == name {
        assert i < n ==> props[..n][i].name == name;
      }
    }
  }

  ghost predicate Distinct(props: seq<Prop>) {
    forall i, j :: 0 <= i < j < |props| ==> props[i].name != props[j].name
  }

  /** Names of different length are different; of the same length, they differ somewhere. */
  lemma RxDistinct()
    ensures Distinct(RxProps())
  {
    hide Cell, StringValue;
    assert "qcom,ring-size"[5] == 'r' && "qcom,buff-size"[5] == 'b';
    assert "qcom,mod-count-min"[9] == 'c' && "qcom,mod-count-min"[16] == 'i';
    assert "qcom,mod-count-max"[9] == 'c' && "qcom,mod-count-max"[16] == 'a';
    assert "qcom,mod-usecs-min"[9] == 'u' && "qcom,mod-usecs-min"[16] == 'i';
    assert "qcom,mod-usecs-max"[9] == 'u' && "qcom,mod-usecs-max"[16] == 'a';
  }

  lemma TxDistinct()
    ensures Distinct(TxProps())
  {
    hide Cell, StringValue;
    assert "qcom,ring-size"[5] == 'r' && "qcom,buff-size"[5] == 'b';
    assert "qcom,mod-count-min"[9] == 'c' && "qcom,mod-count-min"[16] == 'i';
    assert "qcom,mod-count-max"[9] == 'c' && "qcom,mod-count-max"[16] == 'a';
    assert "qcom,mod-usecs-min"[9] == 'u' && "qcom,mod-usecs-min"[16] == 'i';
    assert "qcom,mod-usecs-max"[9] == 'u' && "qcom,mod-usecs-max"[16] == 'a';
  }

  lemma DeviceDistinct(ioss: u32, group: u32)
    ensures Distinct(DeviceProps(ioss, group))
  {
    hide Cell, Cells, StringListValue, StringValue;
    assert "qcom,ioss_instance"[10] == 'i' && "qcom,ioss_channels"[10] == 'c';
  }

  lemma {:induction false} StoreSize(props: seq<Prop>)
    requires Distinct(props)
    ensures |Store(map[], props)| == |props|
  {
    if props != [] {
      var n := |props| - 1;
      StoreSize(props[..n]);
      StoreNames(map[], props[..n], props[n].name);
      assert forall i :: 0 <= i < n ==> props[..n][i].name == props[i].name;
      assert Store(map[], props).Keys == Store(map[], props[..n]).Keys + {props[n].name};
      assert |Store(map[], props).Keys| == |Store(map[], props)|;
      assert |Store(map[], props[..n]).Keys| == |Store(map[], props[..n])|;
    }
  }

  // ----- reading the properties of a node

  predicate Reads(p: map<string, string>, name: string, cells: seq<int>) {
    name in p && ReadCells(p[name]) == cells
  }

  predicate Says(p: map<string, string>, name: string, strings: seq<string>) {
    name in p && Split(p[name], '\0') == strings + [""]
  }

  predicate Flagged(p: map<string, string>, name: string) {
    name in p && p[name] == ""
  }

  /** The ring parameters both channels share. */
  predicate IsRing(p: map<string, string>) {
    && Reads(p, "qcom,ring-size", [1024]) && Reads(p, "qcom,buff-size", [2048])
    && Reads(p, "qcom,mod-count-min", [32]) && Reads(p, "qcom,mod-count-max", [64])
    && Reads(p, "qcom,mod-usecs-min", [30]) && Reads(p, "qcom,mod-usecs-max", [60])
  }

  predicate IsRx(p: map<string, string>) {
    && |p| == 11 && Reads(p, "phandle", [0x8125]) && Reads(p, "linux,phandle", [0x8125]) && Says(p, "name", ["r8125_rx"])
    && Flagged(p, "qcom,dir-rx") && Flagged(p, "qcom,rx-filter-ip") && IsRing(p)
  }

  predicate IsTx(p: map<string, string>) {
    && |p| == 10 && Reads(p, "phandle", [0x8126]) && Reads(p, "linux,phandle", [0x8126]) && Says(p, "name", ["r8125_tx"])
    && Flagged(p, "qcom,dir-tx") && IsRing(p)
  }

  predicate IsDevice(p: map<string, string>, ioss: u32, group: u32) {
    && |p| == 8 && Says(p, "compatible", ["qcom,ioss-v2-device"]) && Says(p, "name", ["realtek,rtl8125"])
    && Reads(p, "reg", [0, 0, 0, 0, 0]) && Says(p, "pci-ids", ["10ec:8125", "10ec:3000"])
    && Reads(p, "qcom,ioss_instance", [0]) && Reads(p, "qcom,ioss", [ioss]) && Reads(p, "qcom,iommu-group", [group])
    && Reads(p, "qcom,ioss_channels", [0x8125, 0x8126])
  }

  lemma CellsRead(props: seq<Prop>, i: nat, cells: seq<u32>)
    requires Distinct(props) && i < |props| && props[i].value == Cells(cells)
    ensures Reads(Store(map[], props), props[i].name, cells)
  {
    StoreAt(map[], props, i);
    CellsRoundTrip(cells);
  }

  lemma NumberReads(props: seq<Prop>, i: nat, v: u32)
    requires Distinct(props) && i < |props| && props[i].value == Cell(v)
    ensures Reads(Store(map[], props), props[i].name, [v])
  {
    hide Cell, Store, Reads;
    assert [v][1..] == [];
    assert Cells([v]) == Cell(v);
    CellsRead(props, i, [v]);
  }

  lemma TextSays(props: seq<Prop>, i: nat, s: string)
    requires Distinct(props) && i < |props| && '\0' !in s && props[i].value == StringValue(s)
    ensures Says(Store(map[], props), props[i].name, [s])
  {
    StoreAt(map[], props, i);
    ListSays(s);
  }

  lemma ListSays(s: string)
    requires '\0' !in s
    ensures Split(StringValue(s), '\0') == [s] + [""]
  {
    SplitCons(s, "", '\0');
    SplitWhole("", '\0');
    assert StringValue(s) == s + ['\0'] + "";
  }

  lemma FlagReads(props: seq<Prop>, i: nat)
    requires Distinct(props) && i < |props| && props[i].value == ""
    ensures Flagged(Store(map[], props), props[i].name)
  {
    StoreAt(map[], props, i);
  }

  /** The six ring parameters, from index `at` on. */
  lemma RingReads(props: seq<Prop>, at: nat)
    requires Distinct(props) && at + 6 == |props| && props[at..] == RingProps()
    ensures IsRing(Store(map[], props))
  {
    hide Cell, Store, Reads, Distinct;
    var ring := RingProps();
    assert forall k :: 0 <= k < 6 ==> props[at + k] == props[at..][k];
    NumberReads(props, at, 1024);
    NumberReads(props, at + 1, 2048);
    NumberReads(props, at + 2, 32);
    NumberReads(props, at + 3, 64);
    NumberReads(props, at + 4, 30);
    NumberReads(props, at + 5, 60);
  }

  /** The receive channel's node, read property by property. */
  lemma RxMeans()
    ensures IsRx(Store(map[], RxProps()))
  {
    hide Cell, Store, Reads, Says, Flagged, IsRing, Distinct, StringValue;
    var props := RxProps();
    RxDistinct();
    StoreSize(props);
    NumberReads(props, 0, 0x8125);
    NumberReads(props, 1, 0x8125);
    TextSays(props, 2, "r8125_rx");
    FlagReads(props, 3);
    FlagReads(props, 4);
    assert props[5..] == RingProps();
    RingReads(props, 5);
  }

  lemma TxMeans()
    ensures IsTx(Store(map[], TxProps()))
  {
    hide Cell, Store, Reads, Says, Flagged, IsRing, Distinct, StringValue;
    var props := TxProps();
    TxDistinct();
    StoreSize(props);
    NumberReads(props, 0, 0x8126);
    NumberReads(props, 1, 0x8126);
    TextSays(props, 2, "r8125_tx");
    FlagReads(props, 3);
    assert props[4..] == RingProps();
    RingReads(props, 4);
  }

  lemma DeviceMeans(ioss: u32, group: u32)
    ensures IsDevice(Store(map[], DeviceProps(ioss, group)), ioss, group)
  {
    hide Cell, Cells, Store, Reads, Says, Distinct, StringValue, StringListValue;
    DeviceTexts(ioss, group);
    DeviceIds(ioss, group);
    var props := DeviceProps(ioss, group);
    DeviceDistinct(ioss, group);
    StoreSize(props);
    CellsRead(props, 2, [0, 0, 0, 0, 0]);
    NumberReads(props, 4, 0);
    NumberReads(props, 5, ioss);
    NumberReads(props, 6, group);
    CellsRead(props, 7, [0x8125, 0x8126]);
  }

  lemma DeviceTexts(ioss: u32, group: u32)
    ensures var p := Store(map[], DeviceProps(ioss, group));
      Says(p, "compatible", ["qcom,ioss-v2-device"]) && Says(p, "name", ["realtek,rtl8125"])
  {
    hide Cell, Cells, Store, Says, Distinct, StringValue, StringListValue;
    var props := DeviceProps(ioss, group);
    DeviceDistinct(ioss, group);
    TextSays(props, 0, "qcom,ioss-v2-device");
    TextSays(props, 1, "realtek,rtl8125");
  }

  lemma DeviceIds(ioss: u32, group: u32)
    ensures Says(Store(map[], DeviceProps(ioss, group)), "pci-ids", ["10ec:8125", "10ec:3000"])
  {
    hide Cell, Cells, Store, Says, Distinct, StringValue, StringListValue;
    var props := DeviceProps(ioss, group);
    DeviceDistinct(ioss, group);
    StringsSay(props, 3, ["10ec:8125", "10ec:3000"]);
  }

  lemma StringsSay(props: seq<Prop>, i: nat, strings: seq<string>)
    requires Distinct(props) && i < |props| && (forall s :: s in strings ==> '\0' !in s)
    requires props[i].value == StringListValue(strings)
    ensures Says(Store(map[], props), props[i].name, strings)
  {
    StoreAt(map[], props, i);
    StringListRoundTrip(strings);
  }

  /** What one property request answers, and what a run of them does: the first answer that is not 0. */
  function Answer(f: Fate): (ret: int) {
    match f
    case NoMemory => -12
    case Code(rc) => rc
  }

  function FirstFailure(fates: seq<Fate>): (ret: int) {
    if fates == [] then 0
    else if FirstFailure(fates[..|fates| - 1]) != 0 then FirstFailure(fates[..|fates| - 1])
    else Answer(fates[|fates| - 1])
  }

  /** A run of property requests, given up at the first failure. `fates` says how each ends. */
  method SetProperties(node: Node, props: seq<Prop>, fates: seq<Fate>) returns (ret: int)
    requires |fates| == |props|
    modifies node`props
    ensures ret == FirstFailure(fates) && (ret == 0 <==> Granted(fates))
    ensures ret == 0 ==> node.props == Store(old(node.props), props)
  {
    for i := 0 to |props|
      invariant forall k :: 0 <= k < i ==> fates[k] == Code(0)
      invariant FirstFailure(fates[..i]) == 0
      invariant node.props == Store(old(node.props), props[..i])
    {
      ret := SetProperty(node, props[i], fates[i]);
      assert fates[..i + 1][..i] == fates[..i];
      if ret != 0 {
        assert fates[i] in fates;
        FailureStays(fates, i + 1);
        return;
      }
      assert props[..i + 1][..i] == props[..i];
    }
    assert props[..|props|] == props && fates[..|fates|] == fates;
    return 0;
  }

  /** Later answers do not matter. */
  lemma {:induction false} FailureStays(fates: seq<Fate>, i: nat)
    requires i <= |fates| && FirstFailure(fates[..i]) != 0
    ensures FirstFailure(fates) == FirstFailure(fates[..i])
  {
    if i < |fates| {
      assert fates[..|fates| - 1][..i] == fates[..i];
      FailureStays(fates[..|fates| - 1], i);
    } else {
      assert fates[..i] == fates;
    }
  }

  predicate Granted(fates: seq<Fate>) {
    forall f :: f in fates ==> f == Code(0)
  }

  /** How the allocations and property requests of one attempt end. */
  datatype Fates = Fates(status: Fate, nodes: (bool, bool, bool), rx: seq<Fate>, tx: seq<Fate>, device: seq<Fate>) {
    predicate Shaped() {
      |rx| == 11 && |tx| == 10 && |device| == 8
    }

    /** What the attempt proper answers. */
    function Result(): (ret: int) {
      if Answer(status) != 0 then Answer(status)
      else if !nodes.0 || !nodes.1 || !nodes.2 then -12
      else if FirstFailure(rx) != 0 then FirstFailure(rx)
      else if FirstFailure(tx) != 0 then FirstFailure(tx)
      else FirstFailure(device)
    }

    predicate AllGood() {
      status == Code(0) && nodes == (true, true, true) && Granted(rx) && Granted(tx) && Granted(device)
    }
  }

  ghost predicate Known(n: Node?, lists: Lists) {
    n != null ==> n in lists
  }

  /** The root port the new device goes under. */
  ghost function RootPort(pcie: Node, lists: Lists): (r: Node?)
    requires pcie in lists
  {
    FirstNamed(lists[pcie], "pcie0_rp")
  }

  /** All three nodes are there already. */
  ghost predicate Present(lists: Lists, soc: Node, rp: Node)
    requires soc in lists && rp in lists
  {
    FirstNamed(lists[soc], "r8125_rx") != null && FirstNamed(lists[soc], "r8125_tx") != null
      && FirstNamed(lists[rp], "realtek,rtl8125") != null
  }

  /** The node has a child of that name. */
  ghost predicate HasChild(lists: Lists, p: Node, name: string)
    requires p in lists
  {
    exists n :: n in lists[p] && n.name == name
  }

  /** The attempt needs a root port, and is given up as done exactly when all three nodes are found. */
  lemma PresentMeans(lists: Lists, pcie: Node, soc: Node, rp: Node)
    requires pcie in lists && soc in lists && rp in lists
    ensures RootPort(pcie, lists) != null <==> HasChild(lists, pcie, "pcie0_rp")
    ensures Present(lists, soc, rp) <==>
      HasChild(lists, soc, "r8125_rx") && HasChild(lists, soc, "r8125_tx") && HasChild(lists, rp, "realtek,rtl8125")
  {
    hide FirstNamed;
    FirstNamedMeans(lists[pcie], "pcie0_rp", 0);
    FirstNamedMeans(lists[soc], "r8125_rx", 0);
    FirstNamedMeans(lists[soc], "r8125_tx", 0);
    FirstNamedMeans(lists[rp], "realtek,rtl8125", 0);
  }

  /** The nodes of one attempt: receive, transmit, device. */
  ghost predicate NewNodes(lists: Lists, added: seq<Node>) {
    && |added| == 3
    && added[0] !in lists && added[1] !in lists && added[2] !in lists
    && added[0] != added[1] && added[1] != added[2] && added[0] != added[2]
    && added[0].name == "r8125_rx" && added[1].name == "r8125_tx" && added[2].name == "realtek,rtl8125"
  }

  /** Child lists with the three new nodes in front, everything else in its old order. */
  ghost function Spliced(lists: Lists, soc: Node, rp: Node, added: seq<Node>): (r: Lists)
    requires soc in lists && rp in lists && NewNodes(lists, added)
  {
    Attached(Attached(Attached(lists, soc, added[0]), soc, added[1]), rp, added[2])
  }

  /** What splicing does to the list of any old node. */
  lemma SplicedLists(lists: Lists, soc: Node, rp: Node, added: seq<Node>, p: Node)
    requires soc in lists && rp in lists && p in lists && NewNodes(lists, added)
    ensures Spliced(lists, soc, rp, added)[p]
      == (if p == rp then [added[2]] else []) + (if p == soc then [added[1], added[0]] else []) + lists[p]
  {
    var first := Attached(lists, soc, added[0]);
    var second := Attached(first, soc, added[1]);
    assert p == soc ==> second[p] == [added[1]] + ([added[0]] + lists[p]);
  }

  lemma {:induction false} FirstNamedAppend(front: seq<Node>, kids: seq<Node>, name: string)
    ensures FirstNamed(front + kids, name) == if FirstNamed(front, name) != null then FirstNamed(front, name) else FirstNamed(kids, name)
  {
    if front == [] {
      assert front + kids == kids;
    } else {
      assert (front + kids)[1..] == front[1..] + kids;
      FirstNamedAppend(front[1..], kids, name);
    }
  }

  /** Which name is found first after the splice. */
  lemma SplicedFirst(lists: Lists, soc: Node, rp: Node, added: seq<Node>, p: Node, name: string)
    requires soc in lists && rp in lists && p in lists && NewNodes(lists, added)
    ensures FirstNamed(Spliced(lists, soc, rp, added)[p], name) ==
      if p == rp && name == "realtek,rtl8125" then added[2]
      else if p == soc && name == "r8125_tx" then added[1]
      else if p == soc && name == "r8125_rx" then added[0]
      else FirstNamed(lists[p], name)
  {
    hide Spliced;
    SplicedLists(lists, soc, rp, added, p);
    var a, b := if p == rp then [added[2]] else [], if p == soc then [added[1], added[0]] else [];
    FirstNamedAppend(a + b, lists[p], name);
    FirstNamedAppend(a, b, name);
    assert p == soc ==> b[1..] == [added[0]];
  }

  /** Afterwards everything is found, so a second attempt is a no-op. */
  lemma SplicedIsPresent(lists: Lists, pcie: Node, soc: Node, added: seq<Node>)
    requires pcie in lists && soc in lists && Closed(lists) && RootPort(pcie, lists) != null && NewNodes(lists, added)
    ensures var rp := RootPort(pcie, lists);
      var lists' := Spliced(lists, soc, rp, added);
      && lists'.Keys == lists.Keys + {added[0], added[1], added[2]}
      && RootPort(pcie, lists') == rp && Present(lists', soc, rp)
  {
    var rp := RootPort(pcie, lists);
    assert Spliced(lists, soc, rp, added).Keys == lists.Keys + {added[0], added[1], added[2]};
    hide Spliced, FirstNamed;
    SplicedFirst(lists, soc, rp, added, pcie, "pcie0_rp");
    SplicedFirst(lists, soc, rp, added, soc, "r8125_rx");
    SplicedFirst(lists, soc, rp, added, soc, "r8125_tx");
    SplicedFirst(lists, soc, rp, added, rp, "realtek,rtl8125");
  }

  /** `pcie_attach_runtime_nodes`. `soc`, `ioss` and `group` are the results of the path lookups.
      Either nothing is attached or all three nodes are; `added` names them. Apart from the root
      complex's status, no property of an old node changes. */
  method AttachRuntimeNodes(pcie: Node, soc: Node?, ioss: Node?, group: Node?, fates: Fates, ghost lists: Lists)
    returns (ret: int, ghost lists': Lists, ghost added: seq<Node>)
    requires Closed(lists) && Tree(lists) && pcie in lists && Known(soc, lists)
    requires fates.Shaped()
    modifies pcie`props, lists.Keys`child
    ensures Tree(lists')
    ensures var rp := RootPort(pcie, lists);
      if soc == null || ioss == null || group == null || rp == null then
        ret == -19 && added == [] && pcie.props == old(pcie.props)
      else if Present(lists, soc, rp) then
        ret == 0 && added == [] && pcie.props == old(pcie.props)
      else if fates.AllGood() then
        && ret == 0 && |added| == 3
        && Made(added[0], added[1], added[2], soc, rp, ioss.phandle, group.phandle)
        && pcie.props == SwitchedOn(old(pcie.props), fates.status)
      else ret == fates.Result() != 0 && added == [] && pcie.props == SwitchedOn(old(pcie.props), fates.status)
    ensures if added == [] then lists' == lists && forall p :: p in lists ==> p.child == old(p.child)
      else
        && |added| == 3 && fresh({added[0], added[1], added[2]}) && soc != null && RootPort(pcie, lists) != null && NewNodes(lists, added)
        && lists' == Spliced(lists, soc, RootPort(pcie, lists), added)
  {
    hide Spliced, Tree, FirstNamed, Chain, Attached, IsRx, IsTx, IsDevice, Fates.Result;
    lists', added := lists, [];
    assert Chain(pcie.child, lists[pcie]) by { ChildrenOf(pcie, lists); }
    var rp := FindChildByName(pcie, "pcie0_rp", lists[pcie]);
    if soc == null || ioss == null || group == null || rp == null {
      ret := -ENODEV;
      return;
    }
    ChildrenOf(soc, lists);
    ChildrenOf(rp, lists);
    var oldRx := FindChildByName(soc, "r8125_rx", lists[soc]);
    var oldTx := FindChildByName(soc, "r8125_tx", lists[soc]);
    var oldDevice := FindChildByName(rp, "realtek,rtl8125", lists[rp]);
    if oldRx != null && oldTx != null && oldDevice != null {
      ret := 0;
      return;
    }
    ret, lists', added := BuildNodes(pcie, soc, rp, ioss.phandle, group.phandle, fates, lists);
  }

  /** The attempt proper: the root complex is switched on, then the nodes are made and attached. */
  method BuildNodes(pcie: Node, soc: Node, rp: Node, ioss: u32, group: u32, fates: Fates, ghost lists: Lists)
    returns (ret: int, ghost lists': Lists, ghost added: seq<Node>)
    requires Tree(lists) && pcie in lists && soc in lists && rp in lists && fates.Shaped()
    modifies pcie`props, soc`child, rp`child
    ensures Tree(lists')
    ensures if fates.AllGood() then
        && ret == 0 && |added| == 3 && fresh({added[0], added[1], added[2]}) && NewNodes(lists, added)
        && lists' == Spliced(lists, soc, rp, added)
        && Made(added[0], added[1], added[2], soc, rp, ioss, group)
      else ret != 0 && added == [] && lists' == lists && soc.child == old(soc.child) && rp.child == old(rp.child)
    ensures ret == fates.Result() && pcie.props == SwitchedOn(old(pcie.props), fates.status)
  {
    hide Spliced, Tree, IsRx, IsTx, IsDevice, FirstFailure;
    lists', added := lists, [];
    ret := SetProperty(pcie, Str("status", "okay"), fates.status);
    if ret != 0 {
      return;
    }
    if !fates.nodes.0 || !fates.nodes.1 || !fates.nodes.2 {
      ret := -ENOMEM;
      return;
    }
    var rx, tx, device;
    ret, rx, tx, device := PrepareNodes(soc, rp, ioss, group, fates);
    if ret != 0 {
      return;
    }
    lists' := AttachAll(rx, tx, device, lists);
    added := [rx, tx, device];
  }

  lemma ChildrenOf(p: Node, lists: Lists)
    requires Tree(lists) && p in lists
    ensures Chain(p.child, lists[p])
  {
  }

  /** The three nodes as they are to be: parents, names, handles and properties. */
  ghost predicate Made(rx: Node, tx: Node, device: Node, soc: Node, rp: Node, ioss: u32, group: u32)
    reads rx, tx, device
  {
    && rx.parent == soc && rx.name == "r8125_rx" && rx.fullName == soc.fullName + "/" + "r8125_rx@eth0"
    && rx.phandle == 0x8125 && IsRx(rx.props)
    && tx.parent == soc && tx.name == "r8125_tx" && tx.fullName == soc.fullName + "/" + "r8125_tx@eth0"
    && tx.phandle == 0x8126 && IsTx(tx.props)
    && device.parent == rp && device.name == "realtek,rtl8125"
    && device.fullName == rp.fullName + "/" + "realtek,rtl8125@0,0"
    && device.phandle == 0 && IsDevice(device.props, ioss, group)
  }

  /** Makes the three nodes and gives them their properties. */
  method PrepareNodes(soc: Node, rp: Node, ioss: u32, group: u32, fates: Fates) returns (ret: int, rx: Node,
      tx: Node, device: Node)
    requires fates.Shaped()
    ensures fresh({rx, tx, device}) && rx != tx && tx != device && rx != device
    ensures rx.parent == soc && tx.parent == soc && device.parent == rp
    ensures rx.name == "r8125_rx" && tx.name == "r8125_tx" && device.name == "realtek,rtl8125"
    ensures ret == 0 <==> Granted(fates.rx) && Granted(fates.tx) && Granted(fates.device)
    ensures ret == if FirstFailure(fates.rx) != 0 then FirstFailure(fates.rx)
      else if FirstFailure(fates.tx) != 0 then FirstFailure(fates.tx) else FirstFailure(fates.device)
    ensures ret == 0 ==> Made(rx, tx, device, soc, rp, ioss, group)
  {
    assert |RxProps()| == 11 && |TxProps()| == 10 && |DeviceProps(ioss, group)| == 8;
    hide Store, RxProps, TxProps, DeviceProps, IsRx, IsTx, IsDevice, FirstFailure, Granted;
    RxMeans();
    TxMeans();
    DeviceMeans(ioss, group);
    rx := new Node(soc, "r8125_rx", "r8125_rx@eth0", PHANDLE_RX);
    tx := new Node(soc, "r8125_tx", "r8125_tx@eth0", PHANDLE_TX);
    device := new Node(rp, "realtek,rtl8125", "realtek,rtl8125@0,0", 0);
    ret := SetProperties(rx, RxProps(), fates.rx);
    if ret != 0 {
      return;
    }
    ret := SetProperties(tx, TxProps(), fates.tx);
    if ret != 0 {
      return;
    }
    ret := SetProperties(device, DeviceProps(ioss, group), fates.device);
  }

  /** The three splices; none can fail. */
  method AttachAll(rx: Node, tx: Node, device: Node, ghost lists: Lists) returns (ghost lists': Lists)
    requires Tree(lists) && NewNodes(lists, [rx, tx, device])
    requires rx.parent != null && rx.parent in lists && tx.parent == rx.parent && device.parent != null
    requires device.parent in lists
    modifies rx, tx, device, rx.parent`child, device.parent`child
    ensures lists' == Spliced(lists, rx.parent, device.parent, [rx, tx, device]) && Tree(lists')
    ensures rx.props == old(rx.props) && tx.props == old(tx.props) && device.props == old(device.props)
  {
    hide Tree;
    var _ := AttachNode(rx, lists);
    lists' := Attached(lists, rx.parent, rx);
    var _ := AttachNode(tx, lists');
    lists' := Attached(lists', tx.parent, tx);
    var _ := AttachNode(device, lists');
    lists' := Attached(lists', device.parent, device);
  }

  /** Loading the module twice: if the first attempt succeeded, the second succeeds without
      attaching anything or touching a property, however the kernel would answer its requests. */
  method AttachTwice(pcie: Node, soc: Node?, ioss: Node?, group: Node?, first: Fates, second: Fates, ghost lists: Lists)
    returns (ret: int, again: int, ghost lists': Lists, ghost lists'': Lists)
    requires Closed(lists) && Tree(lists) && pcie in lists && Known(soc, lists)
    requires first.Shaped() && second.Shaped()
    modifies pcie`props, lists.Keys`child
    ensures ret == 0 ==> again == 0 && lists'' == lists' && Tree(lists'')
    ensures ret == 0 ==>
      && soc != null && RootPort(pcie, lists) != null
      && pcie.props == (if Present(lists, soc, RootPort(pcie, lists)) then old(pcie.props)
                        else old(pcie.props)["status" := StringValue("okay")])
  {
    hide IsRx, IsTx, IsDevice, Spliced, Chain, FirstNamed, Fates.Result;
    ghost var added, more;
    ret, lists', added := AttachRuntimeNodes(pcie, soc, ioss, group, first, lists);
    again, lists'' := ret, lists';
    if ret == 0 {
      ghost var rp := RootPort(pcie, lists);
      if added != [] {
        SplicedIsPresent(lists, pcie, soc, added);
      }
      again, lists'', more := AttachRuntimeNodes(pcie, soc, ioss, group, second, lists');
    }
  }
}
