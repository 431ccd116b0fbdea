/** The bridge's settings, filled once from the environment block. */
module Configuration {
  import opened Scanners
  import opened Text

  datatype Config = Config(
    tx: bool, rx: bool, ext: bool, rtFltTranslate: bool, translateMode: bool, hexdumpOnce: bool,
    allow: string, translate: string)
  {
    /** The lists are C strings. */
    predicate Proper() {
      '\0' !in allow && '\0' !in translate
    }
  }

  /** A value as it arrives in a buffer of `size` characters. */
  function Setting(env: string, name: string, size: nat): (r: Option<string>)
    requires size > 0
  {
    match EnvLookup(env, name)
    case None => None
    case Some(v) => Some(v[..Min(|v|, size - 1)])
  }

  function Flag(env: string, name: string, default: bool): (r: bool) {
    match Setting(env, name, 16)
    case None => default
    case Some(v) =>
      if v in {"1", "yes", "true", "on"} then true
      else if v in {"0", "no", "false", "off"} then false
      else default
  }

  function List(env: string, name: string, default: string): (r: string) {
    match Setting(env, name, MAX_CFG_STR)
    case None => default
    case Some(v) => v
  }

  function LoadCfg(env: string): (r: Config) {
    Config(
      Flag(env, "IPA_ABI_BRIDGE_TX", true),
      Flag(env, "IPA_ABI_BRIDGE_RX", true),
      Flag(env, "IPA_ABI_BRIDGE_EXT", true),
      Flag(env, RT_FLT, false),
      Setting(env, MODE, MAX_CFG_STR) == Some("translate"),
      Flag(env, "IPA_ABI_BRIDGE_HEXDUMP_ONCE", true),
      List(env, "IPA_ABI_BRIDGE_ALLOW_IFACES", "eth0"),
      List(env, "IPA_ABI_BRIDGE_TRANSLATE_IFACES", ""))
  }

  /** One `env_get` into a buffer of `size` characters. */
  method ReadSetting(env: Environment, current: string, name: string, size: nat) returns (value: Option<string>)
    requires |name| <= ENV_NAME_MAX && 0 < size
    modifies env
    ensures env.loaded && env.buf == old(env.Block(current)) && value == Setting(env.buf, name, size)
  {
    hide EnvLookup, CString, Find;
    var v := new char[size];
    var found := env.Get(current, name, v, size);
    assert name[..|name|] == name && v[..size] == v[..];
    if found {
      value := Some(Terminated(v));
    } else {
      value := None;
    }
  }

  /** The text before the terminating NUL. */
  function Terminated(v: array<char>): (s: string)
    reads v
    ensures s == CString(v[..])
  {
    v[..Find(v[..], '\0')]
  }

  /** `parse_bool_env`. */
  method ParseBoolEnv(env: Environment, current: string, name: string, default: bool) returns (b: bool)
    requires |name| <= ENV_NAME_MAX
    modifies env
    ensures env.loaded && env.buf == old(env.Block(current)) && b == Flag(env.buf, name, default)
  {
    hide Setting;
    var v := ReadSetting(env, current, name, 16);
    match v {
      case None => return default;
      case Some(t) =>
        if t == "1" || t == "yes" || t == "true" || t == "on" {
          return true;
        }
        if t == "0" || t == "no" || t == "false" || t == "off" {
          return false;
        }
        return default;
    }
  }

  method ReadList(env: Environment, current: string, name: string, default: string) returns (list: string)
    requires |name| <= ENV_NAME_MAX
    modifies env
    ensures env.loaded && env.buf == old(env.Block(current)) && list == List(env.buf, name, default)
  {
    hide Setting;
    var v := ReadSetting(env, current, name, MAX_CFG_STR);
    list := match v case None => default case Some(t) => t;
  }

  /** `load_cfg`, field by field: the block is read once, and cut to the buffer it is read into. */
  method Load(env: Environment, current: string) returns (cfg: Config)
    modifies env
    ensures env.loaded && env.buf == old(env.Block(current)) && cfg == LoadCfg(env.buf)
  {
    hide Flag, List, Setting;
    var tx := ParseBoolEnv(env, current, "IPA_ABI_BRIDGE_TX", true);
    var rx := ParseBoolEnv(env, current, "IPA_ABI_BRIDGE_RX", true);
    var ext := ParseBoolEnv(env, current, "IPA_ABI_BRIDGE_EXT", true);
    var rtFlt := ParseBoolEnv(env, current, RT_FLT, false);
    var hexdump := ParseBoolEnv(env, current, "IPA_ABI_BRIDGE_HEXDUMP_ONCE", true);
    var mode := ReadSetting(env, current, MODE, MAX_CFG_STR);
    var allow := ReadList(env, current, "IPA_ABI_BRIDGE_ALLOW_IFACES", "eth0");
    var translate := ReadList(env, current, "IPA_ABI_BRIDGE_TRANSLATE_IFACES", "");
    cfg := Config(tx, rx, ext, rtFlt, mode == Some("translate"), hexdump, allow, translate);
  }

  // ----- when the environment asks for a translation

  const MODE := "IPA_ABI_BRIDGE_MODE"
  const RT_FLT := "IPA_ABI_BRIDGE_RT_FLT_TRANSLATE"

  /** The words that switch a translation on. */
  function OnWords(key: string): (r: set<string>) {
    if key == MODE then {"translate"} else {"1", "yes", "true", "on"}
  }

  /** The first value under `key`, as far as it lies in the kept part of the block. */
  function Found(vars: seq<Variable>, key: string): (r: Option<string>) {
    Below(FirstValue(vars, key), Start(vars, key) + |key| + 1, 4095)
  }

  /** It is one of the words that switch the translation on. */
  predicate AsksFor(vars: seq<Variable>, key: string) {
    var v := Found(vars, key);
    v.Some? && v.value in OnWords(key)
  }

  /** It is one of the words that switch something off. */
  predicate Refuses(vars: seq<Variable>, key: string) {
    var v := Found(vars, key);
    v.Some? && v.value in {"0", "no", "false", "off"}
  }

  /** What a list is set to: the value, cut to 255 characters, or the default. */
  function ListOf(vars: seq<Variable>, key: string, default: string): (r: string) {
    match Found(vars, key)
    case None => default
    case Some(v) => v[..Min(|v|, 255)]
  }

  /** The other settings: each handler and the dumps are on unless refused, and the lists are `eth0`
      and nothing unless given. */
  lemma SettingsMean(vars: seq<Variable>)
    requires forall v :: v in vars ==> v.Proper()
    ensures var cfg := LoadCfg(Kept(Serialise(vars)));
      && (cfg.tx <==> !Refuses(vars, "IPA_ABI_BRIDGE_TX"))
      && (cfg.rx <==> !Refuses(vars, "IPA_ABI_BRIDGE_RX"))
      && (cfg.ext <==> !Refuses(vars, "IPA_ABI_BRIDGE_EXT"))
      && (cfg.hexdumpOnce <==> !Refuses(vars, "IPA_ABI_BRIDGE_HEXDUMP_ONCE"))
      && cfg.allow == ListOf(vars, "IPA_ABI_BRIDGE_ALLOW_IFACES", "eth0")
      && cfg.translate == ListOf(vars, "IPA_ABI_BRIDGE_TRANSLATE_IFACES", "")
  {
    hide Flag, List, Setting, Found, Kept, Serialise, EnvLookup;
    FlagMeans(vars, "IPA_ABI_BRIDGE_TX");
    FlagMeans(vars, "IPA_ABI_BRIDGE_RX");
    FlagMeans(vars, "IPA_ABI_BRIDGE_EXT");
    FlagMeans(vars, "IPA_ABI_BRIDGE_HEXDUMP_ONCE");
    ListMeans(vars, "IPA_ABI_BRIDGE_ALLOW_IFACES", "eth0");
    ListMeans(vars, "IPA_ABI_BRIDGE_TRANSLATE_IFACES", "");
  }

  lemma FoundIs(vars: seq<Variable>, key: string)
    requires (forall v :: v in vars ==> v.Proper()) && '=' !in key
    ensures EnvLookup(Kept(Serialise(vars)), key) == Found(vars, key)
  {
    CutLookup(vars, key, MAX_ENV_BUF - 1);
  }

  lemma FlagMeans(vars: seq<Variable>, key: string)
    requires (forall v :: v in vars ==> v.Proper()) && '=' !in key
    ensures Flag(Kept(Serialise(vars)), key, true) <==> !Refuses(vars, key)
  {
    hide EnvLookup, Found, Kept, Serialise;
    FoundIs(vars, key);
    if Found(vars, key).Some? {
      CutKeepsOff(Found(vars, key).value);
    }
  }

  /** The buffer of a switch is too large to make an off-word or an on-word out of a longer value. */
  lemma CutKeepsOff(v: string)
    ensures var cut := v[..Min(|v|, 15)];
      && (cut in {"0", "no", "false", "off"} <==> v in {"0", "no", "false", "off"})
      && (cut in {"1", "yes", "true", "on"} ==> cut !in {"0", "no", "false", "off"})
  {
    assert |v| <= 15 ==> v[..|v|] == v;
    assert "on"[1] == 'n' && "no"[0] == 'n' && "yes"[0] == 'y' && "off"[0] == 'o';
  }

  lemma ListMeans(vars: seq<Variable>, key: string, default: string)
    requires (forall v :: v in vars ==> v.Proper()) && '=' !in key
    ensures List(Kept(Serialise(vars)), key, default) == ListOf(vars, key, default)
  {
    hide EnvLookup, Found, Kept, Serialise;
    FoundIs(vars, key);
  }

  /** For a block of any length, each translation is on exactly when the environment asks for it so. */
  lemma SwitchesIff(vars: seq<Variable>)
    requires forall v :: v in vars ==> v.Proper()
    ensures LoadCfg(Kept(Serialise(vars))).translateMode <==> AsksFor(vars, MODE)
    ensures LoadCfg(Kept(Serialise(vars))).rtFltTranslate <==> AsksFor(vars, RT_FLT)
  {
    hide EnvLookup, Found, Kept, Serialise;
    FoundIs(vars, MODE);
    FoundIs(vars, RT_FLT);
    var env := Kept(Serialise(vars));
    CutKeepsWords(EnvLookup(env, MODE), MODE, MAX_CFG_STR);
    CutKeepsWords(EnvLookup(env, RT_FLT), RT_FLT, 16);
  }

  /** The buffers for the values are too large to make a word out of a longer value. */
  lemma CutKeepsWords(value: Option<string>, key: string, size: nat)
    requires size >= 16
    ensures value.Some? ==> (value.value[..Min(|value.value|, size - 1)] in OnWords(key) <==> value.value in OnWords(key))
  {
    assert forall w :: w in OnWords(key) ==> |w| < 15;
    if value.Some? {
      var v := value.value;
      assert |v| < size ==> v[..|v|] == v;
    }
  }

  /** Where the block fits its buffer, that is the whole first value. */
  lemma FittingBlockAsks(vars: seq<Variable>, key: string)
    requires |Serialise(vars)| < MAX_ENV_BUF
    ensures AsksFor(vars, key) <==> FirstValue(vars, key).Some? && FirstValue(vars, key).value in OnWords(key)
  {
    ValueInside(vars, key);
    if FirstValue(vars, key).Some? {
      var v := FirstValue(vars, key).value;
      assert v[..|v|] == v;
    }
  }

  /** Whatever its length, both translations are off unless the environment names a mode beginning
      with "translate", or the rule switch. */
  lemma OffByDefault(vars: seq<Variable>)
    requires forall v :: v in vars ==> v.Proper()
    requires forall v :: v in vars ==> v.name != RT_FLT
    requires forall v :: v in vars && v.name == MODE ==> !("translate" <= v.value)
    ensures !AsksFor(vars, MODE) && !AsksFor(vars, RT_FLT)
    ensures var cfg := LoadCfg(Kept(Serialise(vars))); !cfg.rtFltTranslate && !cfg.translateMode
  {
    hide LoadCfg, Kept, Start;
    SwitchesIff(vars);
    FirstValueNamed(vars, RT_FLT);
    FirstValueNamed(vars, MODE);
  }

  /** A failing input for less: behind a variable whose name fills 4064 characters, the mode
      "translateX" loses its last one and translation is on. */
  lemma CutModeTranslates(pad: string)
    requires |pad| == 4064 && '=' !in pad && '\0' !in pad
    ensures var vars := [Variable(pad, ""), Variable(MODE, "translateX")];
      && (forall v :: v in vars ==> v.Proper() && v.name != RT_FLT && v.value != "translate")
      && LoadCfg(Kept(Serialise(vars))).translateMode
  {
    hide LoadCfg, Kept, Serialise, AsksFor, Below;
    var first, second := Variable(pad, ""), Variable(MODE, "translateX");
    LastLetterLost();
    SecondAsks(first, second);
    SwitchesIff([first, second]);
  }

  lemma SecondAsks(first: Variable, second: Variable)
    requires first.name != second.name == MODE
    requires Below(Some(second.value), |first.name| + |first.value| + 2 + |MODE| + 1, MAX_ENV_BUF - 1) == Some("translate")
    ensures AsksFor([first, second], MODE)
  {
    hide Below, FirstValue, Start;
    SecondVariable(first, second);
  }

  lemma LastLetterLost()
    ensures |MODE| == 19 && |RT_FLT| == 31 && Variable(MODE, "translateX").Proper()
    ensures "translateX" != "translate" && Below(Some("translateX"), 4066 + |MODE| + 1, MAX_ENV_BUF - 1) == Some("translate")
  {
    assert "translateX"[..9] == "translate";
  }

  lemma SecondVariable(first: Variable, second: Variable)
    requires first.name != second.name
    ensures FirstValue([first, second], second.name) == Some(second.value)
    ensures Start([first, second], second.name) == |first.name| + |first.value| + 2
  {
    assert [first, second][1..] == [second];
  }

  lemma {:induction false} FirstValueNamed(vars: seq<Variable>, key: string)
    ensures FirstValue(vars, key).Some? ==>
      exists v :: v in vars && v.name == key && FirstValue(vars, key) == Some(v.value)
  {
    if vars != [] {
      FirstValueNamed(vars[1..], key);
      assert vars[0] in vars;
      assert forall v :: v in vars[1..] ==> v in vars;
    }
  }

  lemma {:induction false} LookupIsClean(entries: seq<string>, key: string)
    requires forall p :: p in entries ==> '\0' !in p
    ensures Lookup(entries, key).Some? ==> '\0' !in Lookup(entries, key).value
  {
    if entries != [] {
      if key + "=" <= entries[0] {
        assert entries[0] in entries;
        assert forall c :: c in entries[0][|key| + 1..] ==> c in entries[0];
      } else {
        LookupIsClean(entries[1..], key);
      }
    }
  }

  lemma ListIsClean(env: string, name: string, default: string)
    requires '\0' !in default
    ensures '\0' !in List(env, name, default)
  {
    hide Split, Lookup;
    forall p | p in Split(env, '\0')
      ensures '\0' !in p
    {
      PiecesAreClean(env, '\0', p);
    }
    LookupIsClean(Split(env, '\0'), name);
    if EnvLookup(env, name).Some? {
      var v := EnvLookup(env, name).value;
      assert forall k :: 0 <= k < |v| ==> v[k] in v;
    }
  }

  /** Whatever the environment holds, the settings are proper C strings. */
  lemma LoadedIsProper(env: string)
    ensures LoadCfg(env).Proper()
  {
    hide List, Flag, Setting;
    ListIsClean(env, "IPA_ABI_BRIDGE_ALLOW_IFACES", "eth0");
    ListIsClean(env, "IPA_ABI_BRIDGE_TRANSLATE_IFACES", "");
  }
}
