/** Decoding of the rest of a policy document by the Go engine: outcomes of actions, ids, policies. */
module Documents {
  import opened RuleTree
  import opened Comparators
  import opened EvaluatorIds
  import opened GoEngine
  import opened Decoder

  const ACTION_VALUES_MAX: nat := 255

  datatype ActionName = InjectAllow | InjectDeny | EnableSdk | EnableProfiler | SetEnvVar | OtherAction

  datatype JsonAction = JsonAction(name: ActionName, values: seq<string>)

  datatype EnvVar = EnvVar(name: string, value: string)

  datatype Outcome = Outcome(
    inject: bool, injectSet: bool, tracerVersions: map<string, string>, tracerConfigs: seq<EnvVar>)

  // ----- last writer wins

  /** The names, each once, in the order they are first written. */
  function FirstNames(vars: seq<EnvVar>): seq<string> {
    if vars == [] then []
    else
      var n := |vars| - 1;
      var before := FirstNames(vars[..n]);
      if vars[n].name in before then before else before + [vars[n].name]
  }

  /** The last value written for a name. */
  function LastValue(vars: seq<EnvVar>, name: string): string {
    if vars == [] then ""
    else
      var n := |vars| - 1;
      if vars[n].name == name then vars[n].value else LastValue(vars[..n], name)
  }

  /** What a sequence of writes leaves behind: the names in first-write order, with their last values. */
  function Settled(vars: seq<EnvVar>): seq<EnvVar> {
    var names := FirstNames(vars);
    seq(|names|, k requires 0 <= k < |names| => EnvVar(names[k], LastValue(vars, names[k])))
  }

  function SettledMap(vars: seq<EnvVar>): map<string, string> {
    map name | name in FirstNames(vars) :: LastValue(vars, name)
  }

  /** No name is left behind twice. */
  lemma {:induction false} SettledNamesAreDistinct(vars: seq<EnvVar>, k: nat, l: nat)
    requires k < l < |Settled(vars)|
    ensures Settled(vars)[k].name != Settled(vars)[l].name
    decreases |vars|
  {
    var n := |vars| - 1;
    var before := FirstNames(vars[..n]);
    if l < |before| {
      SettledNamesAreDistinct(vars[..n], k, l);
    } else {
      assert before[k] in before;
    }
  }

  /** The names left behind are those written. */
  lemma {:induction false} SettledNamesAreWritten(vars: seq<EnvVar>, name: string)
    ensures name in FirstNames(vars) <==> exists i :: 0 <= i < |vars| && vars[i].name == name
    decreases |vars|
  {
    if vars == [] {
    } else {
      var n := |vars| - 1;
      SettledNamesAreWritten(vars[..n], name);
      if i :| 0 <= i < n && vars[..n][i].name == name {
        assert vars[i].name == name;
      }
      if i :| 0 <= i < n && vars[i].name == name {
        assert vars[..n][i].name == name;
      }
      assert vars[n].name == name ==> name in FirstNames(vars);
    }
  }

  lemma OneMoreWrite(vars: seq<EnvVar>, v: EnvVar)
    ensures var names := FirstNames(vars);
            FirstNames(vars + [v]) == if v.name in names then names else names + [v.name]
    ensures forall name ::
              LastValue(vars + [v], name) == if v.name == name then v.value else LastValue(vars, name)
  {
    assert (vars + [v])[..|vars|] == vars;
  }

  lemma SettledMapOneMore(vars: seq<EnvVar>, v: EnvVar)
    ensures SettledMap(vars + [v]) == SettledMap(vars)[v.name := v.value]
  {
    OneMoreWrite(vars, v);
  }

  /** Writing one variable among those left behind so far: replace its entry, or add one at the end. */
  function Upserted(items: seq<EnvVar>, v: EnvVar): seq<EnvVar> {
    if items == [] then [v]
    else if items[0].name == v.name then [v] + items[1..]
    else [items[0]] + Upserted(items[1..], v)
  }

  lemma {:induction false} UpsertedAt(items: seq<EnvVar>, v: EnvVar, k: nat)
    requires k < |items| && items[k].name == v.name && forall l :: 0 <= l < k ==> items[l].name != v.name
    ensures Upserted(items, v) == items[k := v]
    decreases k
  {
    if k == 0 {
      assert [v] + items[1..] == items[0 := v];
    } else {
      UpsertedAt(items[1..], v, k - 1);
      assert [items[0]] + items[1..][k - 1 := v] == items[k := v];
    }
  }

  lemma {:induction false} UpsertedNew(items: seq<EnvVar>, v: EnvVar)
    requires forall l :: 0 <= l < |items| ==> items[l].name != v.name
    ensures Upserted(items, v) == items + [v]
    decreases |items|
  {
    if items == [] {
    } else {
      UpsertedNew(items[1..], v);
      assert [items[0]] + (items[1..] + [v]) == items + [v];
    }
  }

  /** Writing in place, one variable after the other, settles all of them. */
  lemma SettledOneMore(vars: seq<EnvVar>, v: EnvVar)
    ensures Settled(vars + [v]) == Upserted(Settled(vars), v)
  {
    var names, items := FirstNames(vars), Settled(vars);
    OneMoreWrite(vars, v);
    if v.name in names {
      var k :| 0 <= k < |names| && names[k] == v.name;
      forall l | 0 <= l < |items| && l != k ensures items[l].name != v.name {
        SettledNamesAreDistinct(vars, if l < k then l else k, if l < k then k else l);
      }
      UpsertedAt(items, v, k);
      assert Settled(vars + [v]) == items[k := v];
    } else {
      UpsertedNew(items, v);
      assert Settled(vars + [v]) == items + [v];
    }
  }

  /** The slice of variables an outcome accumulates, updated in place. */
  class EnvVars {
    var items: seq<EnvVar>

    constructor ()
      ensures items == []
    {
      items := [];
    }

    method Upsert(name: string, value: string)
      modifies this
      ensures items == Upserted(old(items), EnvVar(name, value))
    {
      for i := 0 to |items|
        invariant items == old(items)
        invariant forall l :: 0 <= l < i ==> items[l].name != name
      {
        if items[i].name == name {
          UpsertedAt(items, EnvVar(name, value), i);
          items := items[i := items[i].(value := value)];
          return;
        }
      }
      UpsertedNew(items, EnvVar(name, value));
      items := items + [EnvVar(name, value)];
    }
  }

  // ----- outcomes

  predicate Handled(a: JsonAction) {
    !a.name.OtherAction?
  }

  predicate OverLimit(a: JsonAction) {
    Handled(a) && |a.values| >= ACTION_VALUES_MAX
  }

  /** The position of the first handled action with too many values, or the end. */
  function Limit(actions: seq<JsonAction>): (n: nat)
    ensures n <= |actions|
    ensures forall i :: 0 <= i < n ==> !OverLimit(actions[i])
    ensures n < |actions| ==> OverLimit(actions[n])
  {
    if actions == [] || OverLimit(actions[0]) then 0 else 1 + Limit(actions[1..])
  }

  /** A value that is not NAME=value with a name. */
  predicate BadValue(v: string) {
    Cut(v).None? || Cut(v).value.0 == ""
  }

  predicate BadAction(a: JsonAction) {
    (a.name.EnableSdk? || a.name.SetEnvVar?) && exists k :: 0 <= k < |a.values| && BadValue(a.values[k])
  }

  function Assignment(v: string): EnvVar {
    match Cut(v)
    case None => EnvVar("", "")
    case Some(kv) => EnvVar(kv.0, kv.1)
  }

  function Assignments(values: seq<string>): (vars: seq<EnvVar>)
    ensures |vars| == |values|
  {
    seq(|values|, i requires 0 <= i < |values| => Assignment(values[i]))
  }

  /** The variables an action writes, and the tracer versions. */
  function ConfigWrites(a: JsonAction): seq<EnvVar> {
    match a.name
    case EnableProfiler => [EnvVar("DD_PROFILING_ENABLED", "true")]
    case SetEnvVar => Assignments(a.values)
    case _ => []
  }

  function VersionWrites(a: JsonAction): seq<EnvVar> {
    if a.name.EnableSdk? then Assignments(a.values) else []
  }

  function AllWrites(actions: seq<JsonAction>, writes: JsonAction -> seq<EnvVar>): seq<EnvVar> {
    if actions == [] then []
    else AllWrites(actions[..|actions| - 1], writes) + writes(actions[|actions| - 1])
  }

  /** What the last action about injection said. */
  function LastInject(actions: seq<JsonAction>): Option<bool> {
    if actions == [] then None
    else
      match actions[|actions| - 1].name
      case InjectAllow => Some(true)
      case InjectDeny => Some(false)
      case _ => LastInject(actions[..|actions| - 1])
  }

  /** The outcome of some actions: for everything they write, the last one to write it wins. */
  function OutcomeOf(actions: seq<JsonAction>): Outcome {
    var inject := LastInject(actions);
    Outcome(
      inject == Some(true), inject.Some?,
      SettledMap(AllWrites(actions, VersionWrites)), Settled(AllWrites(actions, ConfigWrites)))
  }

  // ----- what single actions do to an outcome

  /** A well-formed value is read as the name before its first '=' and the text after it. */
  lemma AssignmentsAreRead(v: string)
    ensures !BadValue(v) ==>
              && v == Assignment(v).name + "=" + Assignment(v).value
              && Assignment(v).name != "" && '=' !in Assignment(v).name
    ensures BadValue(v) <==> '=' !in v || v[0] == '='
  {
  }

  lemma NameAndValue(name: string, value: string)
    requires name != "" && '=' !in name
    ensures !BadValue(name + "=" + value) && Assignment(name + "=" + value) == EnvVar(name, value)
  {
    CutAtFirst(name, value);
  }

  lemma WritesOfLast(actions: seq<JsonAction>, a: JsonAction)
    ensures AllWrites(actions + [a], ConfigWrites) == AllWrites(actions, ConfigWrites) + ConfigWrites(a)
    ensures AllWrites(actions + [a], VersionWrites) == AllWrites(actions, VersionWrites) + VersionWrites(a)
    ensures LastInject(actions + [a]) ==
            if a.name.InjectAllow? then Some(true) else if a.name.InjectDeny? then Some(false)
            else LastInject(actions)
  {
    assert (actions + [a])[..|actions|] == actions;
  }

  /** What one more action does to an outcome; one that assigns is taken value by value below. */
  lemma OutcomeOneMore(actions: seq<JsonAction>, a: JsonAction)
    ensures OutcomeOf([]) == Outcome(false, false, map[], [])
    ensures var before, after := OutcomeOf(actions), OutcomeOf(actions + [a]);
            match a.name
            case InjectAllow => after == before.(inject := true, injectSet := true)
            case InjectDeny => after == before.(inject := false, injectSet := true)
            case EnableProfiler =>
              after == before.(tracerConfigs := Upserted(before.tracerConfigs, EnvVar("DD_PROFILING_ENABLED", "true")))
            case OtherAction => after == before
            case _ => a.values == [] ==> after == before
  {
    WritesOfLast(actions, a);
    assert SettledMap([]) == map[];
    assert AllWrites(actions, ConfigWrites) + [] == AllWrites(actions, ConfigWrites);
    assert AllWrites(actions, VersionWrites) + [] == AllWrites(actions, VersionWrites);
    SettledOneMore(AllWrites(actions, ConfigWrites), EnvVar("DD_PROFILING_ENABLED", "true"));
  }

  /**
   What one more value NAME=value does: for SET_ENVAR the variable of that name is written, among
   those written so far and in place if it is there, and for ENABLE_SDK the version of that name.
   */
  lemma OutcomeOneMoreValue(actions: seq<JsonAction>, values: seq<string>, name: string, value: string)
    requires name != "" && '=' !in name
    ensures var more := values + [name + "=" + value];
            var before, after := OutcomeOf(actions + [JsonAction(SetEnvVar, values)]),
                                 OutcomeOf(actions + [JsonAction(SetEnvVar, more)]);
            after == before.(tracerConfigs := Upserted(before.tracerConfigs, EnvVar(name, value)))
    ensures var more := values + [name + "=" + value];
            var before, after := OutcomeOf(actions + [JsonAction(EnableSdk, values)]),
                                 OutcomeOf(actions + [JsonAction(EnableSdk, more)]);
            after == before.(tracerVersions := before.tracerVersions[name := value])
  {
    var more, n := values + [name + "=" + value], |values|;
    assert more[..n + 1] == more && more[..n] == values;
    NameAndValue(name, value);
    SettledNextValue(AllWrites(actions, ConfigWrites), more, n);
    SettledNextValue(AllWrites(actions, VersionWrites), more, n);
    WritesOfLast(actions, JsonAction(SetEnvVar, values));
    WritesOfLast(actions, JsonAction(SetEnvVar, more));
    WritesOfLast(actions, JsonAction(EnableSdk, values));
    WritesOfLast(actions, JsonAction(EnableSdk, more));
  }

  /** A single assignment leaves exactly what it says. */
  lemma SingleAssignment(name: string, value: string)
    requires name != "" && '=' !in name
    ensures Decoded([JsonAction(SetEnvVar, [name + "=" + value])]) ==
            Some(Outcome(false, false, map[], [EnvVar(name, value)]))
    ensures Decoded([JsonAction(EnableSdk, [name + "=" + value])]) ==
            Some(Outcome(false, false, map[name := value], []))
  {
    NameAndValue(name, value);
    OutcomeOneMoreValue([], [], name, value);
    OutcomeOneMore([], JsonAction(SetEnvVar, []));
    OutcomeOneMore([], JsonAction(EnableSdk, []));
    var v := name + "=" + value;
    assert [] + [v] == [v];
    var env, sdk := JsonAction(SetEnvVar, [v]), JsonAction(EnableSdk, [v]);
    assert [] + [env] == [env] && [] + [sdk] == [sdk];
    assert [env][..1] == [env] && [sdk][..1] == [sdk];
  }

  lemma AssignmentsOneMore(before: seq<EnvVar>, values: seq<string>, j: nat)
    requires j < |values|
    ensures before + Assignments(values[..j + 1]) == before + Assignments(values[..j]) + [Assignment(values[j])]
  {
    assert Assignments(values[..j + 1]) == Assignments(values[..j]) + [Assignment(values[j])];
  }

  /** What is left behind after one more of the values of an action. */
  lemma SettledNextValue(before: seq<EnvVar>, values: seq<string>, j: nat)
    requires j < |values|
    ensures var written, more := before + Assignments(values[..j]), before + Assignments(values[..j + 1]);
            var v := Assignment(values[j]);
            && SettledMap(more) == SettledMap(written)[v.name := v.value]
            && Settled(more) == Upserted(Settled(written), v)
  {
    var written := before + Assignments(values[..j]);
    AssignmentsOneMore(before, values, j);
    SettledMapOneMore(written, Assignment(values[j]));
    SettledOneMore(written, Assignment(values[j]));
  }

  lemma NoValuesYet(before: seq<EnvVar>, values: seq<string>)
    ensures before + Assignments(values[..0]) == before
    ensures values[..|values|] == values
  {
  }

  /** The loop over the values of an ENABLE_SDK action. */
  method EnableSdks(versions: map<string, string>, ghost before: seq<EnvVar>, values: seq<string>)
    returns (out: Option<map<string, string>>)
    requires versions == SettledMap(before)
    ensures out.None? <==> exists k :: 0 <= k < |values| && BadValue(values[k])
    ensures out.Some? ==> out.value == SettledMap(before + Assignments(values))
  {
    var m := versions;
    NoValuesYet(before, values);
    for j := 0 to |values|
      invariant forall k :: 0 <= k < j ==> !BadValue(values[k])
      invariant m == SettledMap(before + Assignments(values[..j]))
    {
      if BadValue(values[j]) {
        return None;
      }
      SettledNextValue(before, values, j);
      var v := Assignment(values[j]);
      m := m[v.name := v.value];
    }
    out := Some(m);
  }

  /** The loop over the values of a SET_ENVAR action. */
  method SetVariables(configs: EnvVars, ghost before: seq<EnvVar>, values: seq<string>) returns (ok: bool)
    requires configs.items == Settled(before)
    modifies configs
    ensures ok <==> forall k :: 0 <= k < |values| ==> !BadValue(values[k])
    ensures ok ==> configs.items == Settled(before + Assignments(values))
  {
    NoValuesYet(before, values);
    for j := 0 to |values|
      invariant forall k :: 0 <= k < j ==> !BadValue(values[k])
      invariant configs.items == Settled(before + Assignments(values[..j]))
    {
      if BadValue(values[j]) {
        return false;
      }
      SettledNextValue(before, values, j);
      var v := Assignment(values[j]);
      configs.Upsert(v.name, v.value);
    }
    ok := true;
  }

  lemma WritesOneMore(actions: seq<JsonAction>, ix: nat, writes: JsonAction -> seq<EnvVar>)
    requires ix < |actions|
    ensures AllWrites(actions[..ix + 1], writes) == AllWrites(actions[..ix], writes) + writes(actions[ix])
  {
    assert actions[..ix + 1][..ix] == actions[..ix];
  }

  lemma InjectOneMore(actions: seq<JsonAction>, ix: nat)
    requires ix < |actions|
    ensures LastInject(actions[..ix + 1]) ==
            match actions[ix].name
            case InjectAllow => Some(true)
            case InjectDeny => Some(false)
            case _ => LastInject(actions[..ix])
  {
    assert actions[..ix + 1][..ix] == actions[..ix];
  }

  /** What these writes leave behind. */
  ghost predicate Holds(versions: map<string, string>, items: seq<EnvVar>, sdks: seq<EnvVar>, envs: seq<EnvVar>) {
    versions == SettledMap(sdks) && items == Settled(envs)
  }

  /** One action that is not over the limit. */
  method ApplyAction(
    a: JsonAction, versions: map<string, string>, configs: EnvVars, ghost sdks: seq<EnvVar>, ghost envs: seq<EnvVar>)
    returns (out: Option<map<string, string>>)
    requires Holds(versions, configs.items, sdks, envs)
    modifies configs
    ensures out.None? <==> BadAction(a)
    ensures out.Some? ==> Holds(out.value, configs.items, sdks + VersionWrites(a), envs + ConfigWrites(a))
  {
    assert envs + [] == envs && sdks + [] == sdks;
    match a.name
    case EnableSdk =>
      out := EnableSdks(versions, sdks, a.values);
    case EnableProfiler =>
      SettledOneMore(envs, EnvVar("DD_PROFILING_ENABLED", "true"));
      configs.Upsert("DD_PROFILING_ENABLED", "true");
      out := Some(versions);
    case SetEnvVar =>
      var ok := SetVariables(configs, envs, a.values);
      out := if ok then Some(versions) else None;
    case _ =>
      out := Some(versions);
  }

  predicate AllGood(actions: seq<JsonAction>) {
    forall i :: 0 <= i < |actions| ==> !BadAction(actions[i])
  }

  /** The state of the decoder after some actions. */
  ghost predicate After(
    actions: seq<JsonAction>, inject: Option<bool>, versions: map<string, string>, items: seq<EnvVar>)
  {
    && AllGood(actions) && inject == LastInject(actions)
    && Holds(versions, items, AllWrites(actions, VersionWrites), AllWrites(actions, ConfigWrites))
  }

  lemma AfterOneMore(
    actions: seq<JsonAction>, ix: nat, inject: Option<bool>, versions: map<string, string>, items: seq<EnvVar>)
    requires ix < |actions| && !BadAction(actions[ix]) && AllGood(actions[..ix])
    requires inject == LastInject(actions[..ix + 1])
    requires var before := actions[..ix];
             Holds(versions, items,
                   AllWrites(before, VersionWrites) + VersionWrites(actions[ix]),
                   AllWrites(before, ConfigWrites) + ConfigWrites(actions[ix]))
    ensures After(actions[..ix + 1], inject, versions, items)
  {
    WritesOneMore(actions, ix, VersionWrites);
    WritesOneMore(actions, ix, ConfigWrites);
    var more := actions[..ix + 1];
    forall i | 0 <= i < |more| ensures !BadAction(more[i]) {
      assert i < ix ==> actions[..ix][i] == actions[i];
    }
  }

  /** The decoded outcome of a policy's actions, None if one of those that count is malformed. */
  function Decoded(actions: seq<JsonAction>): Option<Outcome> {
    var counted := actions[..Limit(actions)];
    if AllGood(counted) then Some(OutcomeOf(counted)) else None
  }

  method DecodeActions(actions: seq<JsonAction>) returns (r: Option<Outcome>)
    ensures r == Decoded(actions)
  {
    var inject: Option<bool> := None;
    var versions: map<string, string> := map[];
    var configs := new EnvVars();
    var ix := 0;
    while ix < |actions|
      invariant ix <= Limit(actions) && fresh(configs)
      invariant After(actions[..ix], inject, versions, configs.items)
    {
      var a := actions[ix];
      if !a.name.OtherAction? && |a.values| >= ACTION_VALUES_MAX {
        break;
      }
      InjectOneMore(actions, ix);
      inject := if a.name.InjectAllow? then Some(true) else if a.name.InjectDeny? then Some(false) else inject;
      var written := ApplyAction(
        a, versions, configs, AllWrites(actions[..ix], VersionWrites), AllWrites(actions[..ix], ConfigWrites));
      if written.None? {
        assert actions[..Limit(actions)][ix] == a;
        return None;
      }
      versions := written.value;
      AfterOneMore(actions, ix, inject, versions, configs.items);
      ix := ix + 1;
    }
    r := Some(Outcome(inject == Some(true), inject.Some?, versions, configs.items));
  }

  // ----- ids

  datatype Uuid = Uuid(hi: UInt64, lo: UInt64)

  const HEX: string := "0123456789abcdef"

  /** The n lowest hexadecimal digits of x, highest first. */
  function Digits(x: nat, n: nat): (s: string)
    ensures |s| == n
  {
    if n == 0 then "" else Digits(x / 16, n - 1) + [HEX[x % 16]]
  }

  function DecodeUuid(id: Option<Uuid>): string {
    match id
    case None => ""
    case Some(u) =>
      var h, l := Digits(u.hi, 16), Digits(u.lo, 16);
      h[..8] + "-" + h[8..12] + "-" + h[12..] + "-" + l[..4] + "-" + l[4..]
  }

  function Power16(n: nat): nat {
    if n == 0 then 1 else 16 * Power16(n - 1)
  }

  /** The number a hexadecimal text stands for. */
  function HexValue(s: string): nat {
    if s == "" then 0 else 16 * HexValue(s[..|s| - 1]) + DigitValue(s[|s| - 1])
  }

  function DigitValue(c: char): nat {
    if '0' <= c <= '9' then (c as int - '0' as int)
    else if 'a' <= c <= 'f' then 10 + (c as int - 'a' as int)
    else 0
  }

  lemma {:induction false} DigitsReadBack(x: nat, n: nat)
    requires x < Power16(n)
    ensures HexValue(Digits(x, n)) == x
    decreases n
  {
    if n == 0 {
    } else {
      DigitsReadBack(x / 16, n - 1);
      assert Digits(x, n)[..n - 1] == Digits(x / 16, n - 1);
      HexReadsBack(x % 16);
    }
  }

  lemma HexReadsBack(i: nat)
    requires i < 16
    ensures DigitValue(HEX[i]) == i
  {
  }

  lemma Power16Of16()
    ensures Power16(16) == 0x1_0000_0000_0000_0000
  {
    assert Power16(4) == 0x1_0000;
    assert Power16(8) == 0x1_0000_0000;
    assert Power16(12) == 0x1_0000_0000_0000;
  }

  lemma UuidParts(u: Uuid)
    ensures var s := DecodeUuid(Some(u));
            && |s| == 36
            && Digits(u.hi, 16) == s[..8] + s[9..13] + s[14..18]
            && Digits(u.lo, 16) == s[19..23] + s[24..]
  {
    var s, h, l := DecodeUuid(Some(u)), Digits(u.hi, 16), Digits(u.lo, 16);
    assert s[..8] == h[..8];
    assert s[9..13] == h[8..12];
    assert s[14..18] == h[12..];
    assert s[19..23] == l[..4];
    assert s[24..] == l[4..];
  }

  /** The five groups of a rendered id read back as the two words: first the high one, then the low one. */
  lemma UuidReadsBack(u: Uuid)
    ensures var s := DecodeUuid(Some(u));
            && |s| == 36 && s[8] == s[13] == s[18] == s[23] == '-'
            && HexValue(s[..8] + s[9..13] + s[14..18]) == u.hi
            && HexValue(s[19..23] + s[24..]) == u.lo
  {
    UuidParts(u);
    Power16Of16();
    DigitsReadBack(u.hi, 16);
    DigitsReadBack(u.lo, 16);
  }

  /** So the rendered id determines the pair of words, and whether there was one. */
  lemma UuidsAreDistinct(a: Option<Uuid>, b: Option<Uuid>)
    ensures DecodeUuid(a) == DecodeUuid(b) <==> a == b
  {
    if a.Some? {
      UuidReadsBack(a.value);
    }
    if b.Some? {
      UuidReadsBack(b.value);
    }
  }

  // ----- documents

  datatype JsonPolicy = JsonPolicy(
    name: string, rules: JsonWrap, actions: seq<JsonAction>, id: Option<Uuid>, version: Int64)

  datatype Policy = Policy(name: string, id: string, version: Int64, rules: GoNode, outcome: Outcome)

  predicate Loads(p: Parse<JsonPolicy>) {
    p.Parsed? && Decoded(p.value.actions).Some?
  }

  function Load(p: JsonPolicy): Policy {
    Policy(p.name, DecodeUuid(p.id), p.version, Decode(p.rules, 0), OutcomeOf(p.actions[..Limit(p.actions)]))
  }

  /** The policies that load, in order: each of them on its own. */
  function Loaded(ps: seq<Parse<JsonPolicy>>): seq<Policy> {
    if ps == [] then []
    else
      var n := |ps| - 1;
      Loaded(ps[..n]) + if Loads(ps[n]) then [Load(ps[n].value)] else []
  }

  /** The positions of those that do not. */
  function Skipped(ps: seq<Parse<JsonPolicy>>): seq<nat> {
    if ps == [] then []
    else
      var n := |ps| - 1;
      Skipped(ps[..n]) + if Loads(ps[n]) then [] else [n]
  }

  /** Every policy that loads is found at its place among them, as it was given; every other one is reported. */
  lemma {:induction false} LoadedAsGiven(ps: seq<Parse<JsonPolicy>>, i: nat)
    requires i < |ps|
    ensures |Loaded(ps)| + |Skipped(ps)| == |ps|
    ensures i in Skipped(ps) <==> ps[i].Failed? || Decoded(ps[i].value.actions).None?
    ensures i !in Skipped(ps) ==>
              var k := |Loaded(ps[..i])|;
              k < |Loaded(ps)| &&
              var loaded, given := Loaded(ps)[k], ps[i].value;
              && loaded.name == given.name && loaded.version == given.version
              && loaded.id == DecodeUuid(given.id) && Some(loaded.outcome) == Decoded(given.actions)
              && forall ctx :: Value(loaded.rules, Under(ctx), 0) == DocumentValue(given.rules, LeafMeaning(ctx), false, 0)
    decreases |ps|
  {
    var n := |ps| - 1;
    SkippedAreBefore(ps[..n]);
    if i == n {
      LoadedAndSkipped(ps[..n]);
      if Loads(ps[n]) {
        forall ctx ensures
          Value(Load(ps[n].value).rules, Under(ctx), 0) == DocumentValue(ps[n].value.rules, LeafMeaning(ctx), false, 0)
        {
          DecodePreservesMeaning(ps[n].value.rules, ctx, 0);
        }
      }
    } else {
      LoadedAsGiven(ps[..n], i);
      assert ps[..n][..i] == ps[..i];
    }
  }

  lemma {:induction false} LoadedAndSkipped(ps: seq<Parse<JsonPolicy>>)
    ensures |Loaded(ps)| + |Skipped(ps)| == |ps|
    decreases |ps|
  {
    if ps == [] {
    } else {
      LoadedAndSkipped(ps[..|ps| - 1]);
    }
  }

  lemma {:induction false} SkippedAreBefore(ps: seq<Parse<JsonPolicy>>)
    ensures forall i :: i in Skipped(ps) ==> i < |ps|
    decreases |ps|
  {
    if ps == [] {
    } else {
      SkippedAreBefore(ps[..|ps| - 1]);
    }
  }

  /**
   Best effort: the policies that load are returned whatever the others are, and the positions of
   the others are reported. A document that is not valid gives no policies at all.
   */
  method ParsePolicies(doc: Parse<seq<Parse<JsonPolicy>>>) returns (out: Option<seq<Policy>>, skipped: seq<nat>)
    ensures doc.Failed? <==> out.None?
    ensures doc.Parsed? ==> out.value == Loaded(doc.value)
    ensures skipped == if doc.Failed? then [] else Skipped(doc.value)
  {
    skipped := [];
    if doc.Failed? {
      return None, [];
    }
    var ps := doc.value;
    var policies: seq<Policy> := [];
    for i := 0 to |ps|
      invariant policies == Loaded(ps[..i])
      invariant skipped == Skipped(ps[..i])
    {
      assert ps[..i + 1][..i] == ps[..i];
      if ps[i].Failed? {
        skipped := skipped + [i];
        continue;
      }
      var p := ps[i].value;
      var outcome := DecodeActions(p.actions);
      if outcome.None? {
        skipped := skipped + [i];
        continue;
      }
      var rules := DecodeNodeWrap(p.rules, 0);
      policies := policies + [Policy(p.name, DecodeUuid(p.id), p.version, rules, outcome.value)];
    }
    assert ps[..|ps|] == ps;
    out := Some(policies);
  }
}
