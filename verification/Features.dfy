/** Language features and the settings of one compilation: the defaults of a release overridden by what
    was set explicitly (src/features.rs, src/language_settings.rs). */
module Features {
  import opened Options
  import opened Sorting

  /** A row of a release's feature table; versions are ordered numbers. */
  datatype Feature = Feature(name: string, sinceVersion: Option<nat>, sinceApiVersion: nat)

  type Table = seq<Feature>

  predicate EnabledByDefault(f: Feature, language: nat, api: nat)
  {
    f.sinceVersion.Some? && language >= f.sinceVersion.value && api >= f.sinceApiVersion
  }

  function Defaults(table: Table, language: nat, api: nat): set<string>
  {
    set f <- table | EnabledByDefault(f, language, api) :: f.name
  }

  /** A feature is on by default exactly when the table has it reach the release: it has a version that
      introduces it, and neither the language nor the API level is older than it asks for. */
  lemma DefaultsExactly(table: Table, language: nat, api: nat, name: string)
    ensures name in Defaults(table, language, api) <==>
      exists f <- table :: f.name == name && match f.sinceVersion
        case Some(since) => since <= language && f.sinceApiVersion <= api
        case None => false
  {
    if name in Defaults(table, language, api) {
      var f :| f in table && f.name == name && EnabledByDefault(f, language, api);
    }
  }

  /** A later release has on whatever an earlier one had. */
  lemma DefaultsGrow(table: Table, language: nat, api: nat, later: nat, laterApi: nat)
    requires language <= later && api <= laterApi
    ensures Defaults(table, language, api) <= Defaults(table, later, laterApi)
  {
  }

  datatype FeatureState = FeatureState(enabled: set<string>, specific: map<string, bool>)

  function Start(defaults: set<string>): FeatureState { FeatureState(defaults, map[]) }

  /** What is on: an explicit setting where there is one, the default elsewhere. */
  ghost predicate Overridden(defaults: set<string>, s: FeatureState)
  {
    forall name :: name in s.enabled <==> if name in s.specific then s.specific[name] else name in defaults
  }

  /** Explicit settings are in force. */
  ghost predicate InForce(s: FeatureState)
  {
    forall name <- s.specific :: s.specific[name] <==> name in s.enabled
  }

  // ---------------------------------------------------------------- operations on the state

  function Put(s: FeatureState, name: string, on: bool): FeatureState
  {
    FeatureState(if on then s.enabled + {name} else s.enabled - {name}, s.specific[name := on])
  }

  type Setting = (string, bool)

  function PutAll(s: FeatureState, settings: seq<Setting>): FeatureState
  {
    if settings == [] then s
    else Put(PutAll(s, settings[..|settings| - 1]), settings[|settings| - 1].0, settings[|settings| - 1].1)
  }

  /** What `extend` turns on explicitly. */
  function Gained(s: FeatureState, other: FeatureState): set<string>
  {
    Missing(s.enabled, s.specific, other.enabled) + TrueIn(other.specific, other.specific.Keys)
  }

  function On(names: set<string>): map<string, bool> { map name | name in names :: true }

  function Extended(s: FeatureState, other: FeatureState): FeatureState
  {
    FeatureState(s.enabled + other.enabled, s.specific + On(Gained(s, other)))
  }

  datatype Token = Plus(name: string) | Minus(name: string) | Bare

  function TokenSettings(tokens: seq<Token>): seq<Setting>
  {
    if tokens == [] then []
    else
      var last := tokens[|tokens| - 1];
      TokenSettings(tokens[..|tokens| - 1]) +
      match last
      case Plus(name) => [(name, true)]
      case Minus(name) => [(name, false)]
      case Bare => []
  }

  function ApiModeSettings(mode: string): seq<Setting>
  {
    [("ExplicitApiStrict", false), ("ExplicitApiWarning", false)] +
    if mode == "strict" then [("ExplicitApiStrict", true)]
    else if mode == "warning" then [("ExplicitApiWarning", true)]
    else []
  }

  function AssertionsSettings(mode: string): seq<Setting>
  {
    var off := [("AssertionsAlwaysEnable", false), ("AssertionsAlwaysDisable", false)];
    if mode == "always-enable" then off + [("AssertionsAlwaysEnable", true)]
    else if mode == "always-disable" then off + [("AssertionsAlwaysDisable", true)]
    else []
  }

  datatype Op =
    | SetOp(name: string, on: bool)
    | DirectiveOp(tokens: seq<Token>)
    | ApiModeOp(mode: string)
    | AssertionsOp(mode: string)
    | ExtendOp(other: FeatureState)

  function Apply(s: FeatureState, op: Op): FeatureState
  {
    match op
    case SetOp(name, on) => Put(s, name, on)
    case DirectiveOp(tokens) => PutAll(s, TokenSettings(tokens))
    case ApiModeOp(mode) => PutAll(s, ApiModeSettings(mode))
    case AssertionsOp(mode) => PutAll(s, AssertionsSettings(mode))
    case ExtendOp(other) => Extended(s, other)
  }

  /** What holds of `name` after a directive or mode: on and recorded so, or off and recorded so. */
  ghost predicate Recorded(s: FeatureState, name: string, on: bool)
  {
    (name in s.enabled <==> on) && name in s.specific && s.specific[name] == on
  }

  ghost predicate Untouched(s: FeatureState, r: FeatureState, name: string)
  {
    && (name in r.enabled <==> name in s.enabled) && (name in r.specific <==> name in s.specific)
    && (name in s.specific ==> r.specific[name] == s.specific[name])
  }

  predicate Names(token: Token, name: string) { token == Plus(name) || token == Minus(name) }

  /** Token `i` is the last one about `name`. */
  predicate LastNaming(tokens: seq<Token>, name: string, i: int)
  {
    0 <= i < |tokens| && Names(tokens[i], name) && forall j :: i < j < |tokens| ==> !Names(tokens[j], name)
  }

  /** The last token about a name decides: `+` turns it on, `-` off, and a name no token is about stays. */
  ghost predicate TokensSay(s: FeatureState, tokens: seq<Token>, r: FeatureState)
  {
    && (forall name, i :: LastNaming(tokens, name, i) ==> Recorded(r, name, tokens[i].Plus?))
    && (forall name :: (forall token <- tokens :: !Names(token, name)) ==> Untouched(s, r, name))
  }

  lemma {:induction false} DirectiveSays(s: FeatureState, tokens: seq<Token>)
    ensures TokensSay(s, tokens, Apply(s, DirectiveOp(tokens)))
  {
    if tokens != [] {
      var n := |tokens| - 1;
      var before, last := tokens[..n], tokens[n];
      DirectiveSays(s, before);
      DirectivePush(s, before, last);
      assert tokens == before + [last];
      var r, r' := Apply(s, DirectiveOp(before)), Apply(s, DirectiveOp(tokens));
      forall name, i | LastNaming(tokens, name, i) ensures Recorded(r', name, tokens[i].Plus?) {
        if i < n { assert LastNaming(before, name, i) && !Names(tokens[n], name); }
      }
      forall name | forall token <- tokens :: !Names(token, name) ensures Untouched(s, r', name) {
        assert last in tokens;
        assert forall token <- before :: token in tokens && !Names(token, name);
        assert Untouched(s, r, name);
      }
    }
  }

  /** One token more sets what it names and nothing else. */
  lemma DirectivePush(s: FeatureState, tokens: seq<Token>, last: Token)
    ensures var (r, r') := (Apply(s, DirectiveOp(tokens)), Apply(s, DirectiveOp(tokens + [last])));
      forall name :: if Names(last, name) then Recorded(r', name, last.Plus?) else Untouched(r, r', name)
  {
    assert (tokens + [last])[..|tokens|] == tokens;
    var settings := TokenSettings(tokens);
    if last.Bare? {
      assert settings + [] == settings;
    } else {
      PutAllPush(s, settings, (last.name, last.Plus?));
    }
  }

  /** Of the features of a mode, the chosen one is on and the others off, all recorded so; the rest stay. */
  ghost predicate Chooses(s: FeatureState, family: set<string>, chosen: set<string>, r: FeatureState)
  {
    && (forall name <- family :: Recorded(r, name, name in chosen))
    && (forall name :: name !in family ==> Untouched(s, r, name))
  }

  // ---------------------------------------------------------------- the object

  class LangFeatures {
    const table: Table
    const languageVersion: nat
    var enabled: set<string>
    var specific: map<string, bool>
    var optedIn: set<string>

    function State(): FeatureState
      reads this
    {
      FeatureState(enabled, specific)
    }

    constructor ForRelease(table: Table, language: nat, api: nat)
      ensures State() == Start(Defaults(table, language, api)) && optedIn == {}
      ensures this.table == table && languageVersion == language
    {
      this.table, languageVersion := table, language;
      enabled := set f <- table | EnabledByDefault(f, language, api) :: f.name;
      specific, optedIn := map[], {};
    }

    method Set(name: string, on: bool)
      modifies this
      ensures State() == Apply(old(State()), SetOp(name, on)) && optedIn == old(optedIn)
      ensures Chooses(old(State()), {name}, if on then {name} else {}, State())
    {
      if on {
        enabled := enabled + {name};
      } else {
        enabled := enabled - {name};
      }
      specific := specific[name := on];
    }

    method OptIn(marker: string)
      modifies this
      ensures State() == old(State()) && optedIn == old(optedIn) + {marker}
    {
      optedIn := optedIn + {marker};
    }

    method Extend(other: LangFeatures)
      requires other != this
      modifies this
      ensures State() == Apply(old(State()), ExtendOp(other.State())) && optedIn == old(optedIn) + other.optedIn
    {
      OnTwice(specific, Missing(enabled, specific, other.enabled), TrueIn(other.specific, other.specific.Keys));
      enabled, specific := GainEnabled(enabled, specific, other.enabled);
      specific := GainSpecific(specific, other.specific);
      optedIn := optedIn + other.optedIn;
    }

    method ApplyDirective(tokens: seq<Token>)
      modifies this
      ensures State() == Apply(old(State()), DirectiveOp(tokens)) && optedIn == old(optedIn)
      ensures TokensSay(old(State()), tokens, State())
    {
      DirectiveSays(State(), tokens);
      for i := 0 to |tokens|
        invariant State() == PutAll(old(State()), TokenSettings(tokens[..i])) && optedIn == old(optedIn)
      {
        assert tokens[..i + 1][..i] == tokens[..i];
        ghost var settings := TokenSettings(tokens[..i]);
        match tokens[i] {
          case Plus(name) =>
            assert (settings + [(name, true)])[..|settings|] == settings;
            Set(name, true);
          case Minus(name) =>
            assert (settings + [(name, false)])[..|settings|] == settings;
            Set(name, false);
          case Bare =>
            assert settings + [] == settings;
        }
      }
      assert tokens[..|tokens|] == tokens;
    }

    method ApplyExplicitApiMode(mode: string) returns (known: bool)
      modifies this
      ensures State() == Apply(old(State()), ApiModeOp(mode)) && optedIn == old(optedIn)
      ensures known <==> mode == "strict" || mode == "warning" || mode == "disable"
    {
      PutThree(State(), ("ExplicitApiStrict", false), ("ExplicitApiWarning", false), ("ExplicitApiStrict", true));
      PutThree(State(), ("ExplicitApiStrict", false), ("ExplicitApiWarning", false), ("ExplicitApiWarning", true));
      Set("ExplicitApiStrict", false);
      Set("ExplicitApiWarning", false);
      known := true;
      if mode == "strict" {
        Set("ExplicitApiStrict", true);
      } else if mode == "warning" {
        Set("ExplicitApiWarning", true);
      } else if mode != "disable" {
        known := false;
      }
    }

    method ApplyAssertionsMode(mode: string) returns (known: bool)
      modifies this
      ensures State() == Apply(old(State()), AssertionsOp(mode)) && optedIn == old(optedIn)
      ensures known <==> mode == "always-enable" || mode == "always-disable"
    {
      var feature;
      if mode == "always-enable" {
        feature := "AssertionsAlwaysEnable";
      } else if mode == "always-disable" {
        feature := "AssertionsAlwaysDisable";
      } else {
        return false;
      }
      PutThree(State(), ("AssertionsAlwaysEnable", false), ("AssertionsAlwaysDisable", false), (feature, true));
      Set("AssertionsAlwaysEnable", false);
      Set("AssertionsAlwaysDisable", false);
      Set(feature, true);
      known := true;
    }
  }

  lemma OnTwice(m: map<string, bool>, a: set<string>, b: set<string>)
    ensures m + On(a) + On(b) == m + On(a + b)
  {
  }

  function Missing(enabled: set<string>, specific: map<string, bool>, others: set<string>): set<string>
  {
    set name <- others | name !in enabled || (name in specific && !specific[name])
  }

  /** Every feature another set has on, in whatever order it lists them. */
  method GainEnabled(enabled: set<string>, specific: map<string, bool>, others: set<string>)
    returns (enabled': set<string>, specific': map<string, bool>)
    ensures enabled' == enabled + others
    ensures specific' == specific + On(Missing(enabled, specific, others))
  {
    enabled', specific' := enabled, specific;
    var rest := others;
    while rest != {}
      invariant rest <= others && enabled' == enabled + (others - rest)
      invariant specific' == specific + On(Missing(enabled, specific, others - rest))
      decreases |rest|
    {
      var name :| name in rest;
      ghost var done := others - rest;
      rest := rest - {name};
      assert others - rest == done + {name};
      MissingPush(enabled, specific, done, name);
      if name !in enabled' || (name in specific' && !specific'[name]) {
        specific' := specific'[name := true];
      }
      enabled' := enabled' + {name};
    }
    assert others - rest == others;
  }

  lemma MissingPush(enabled: set<string>, specific: map<string, bool>, done: set<string>, name: string)
    ensures specific + On(Missing(enabled, specific, done + {name})) ==
      if name !in enabled || (name in specific && !specific[name])
      then (specific + On(Missing(enabled, specific, done)))[name := true]
      else specific + On(Missing(enabled, specific, done))
  {
    var now := Missing(enabled, specific, done + {name});
    assert now == Missing(enabled, specific, done) +
      if name !in enabled || (name in specific && !specific[name]) then {name} else {};
  }

  function TrueIn(m: map<string, bool>, names: set<string>): set<string> { set name <- names | name in m && m[name] }

  lemma TrueInPush(specific: map<string, bool>, m: map<string, bool>, done: set<string>, name: string)
    requires name in m
    ensures specific + On(TrueIn(m, done + {name})) ==
      if m[name] then (specific + On(TrueIn(m, done)))[name := true] else specific + On(TrueIn(m, done))
  {
    assert TrueIn(m, done + {name}) == TrueIn(m, done) + if m[name] then {name} else {};
  }

  method GainSpecific(specific: map<string, bool>, others: map<string, bool>) returns (specific': map<string, bool>)
    ensures specific' == specific + On(TrueIn(others, others.Keys))
  {
    specific' := specific;
    var rest := others.Keys;
    while rest != {}
      invariant rest <= others.Keys && specific' == specific + On(TrueIn(others, others.Keys - rest))
      decreases |rest|
    {
      var name :| name in rest;
      ghost var done := others.Keys - rest;
      rest := rest - {name};
      assert others.Keys - rest == done + {name};
      TrueInPush(specific, others, done, name);
      if others[name] {
        specific' := specific'[name := true];
      }
    }
    assert others.Keys - rest == others.Keys;
  }

  lemma PutAllPush(s: FeatureState, settings: seq<Setting>, x: Setting)
    ensures PutAll(s, settings + [x]) == Put(PutAll(s, settings), x.0, x.1)
  {
    assert (settings + [x])[..|settings|] == settings;
  }

  lemma PutThree(s: FeatureState, a: Setting, b: Setting, c: Setting)
    ensures PutAll(s, [a, b]) == Put(Put(s, a.0, a.1), b.0, b.1)
    ensures PutAll(s, [a, b] + [c]) == Put(Put(Put(s, a.0, a.1), b.0, b.1), c.0, c.1)
    ensures PutAll(s, [a, b] + []) == PutAll(s, [a, b])
  {
    PutAllPush(s, [], a);
    PutAllPush(s, [a], b);
    PutAllPush(s, [a, b], c);
    assert [] + [a] == [a] && [a] + [b] == [a, b] && [a, b] + [] == [a, b];
  }

  // ---------------------------------------------------------------- what every run keeps

  function Run(s: FeatureState, ops: seq<Op>): FeatureState
  {
    if ops == [] then s else Apply(Run(s, ops[..|ops| - 1]), ops[|ops| - 1])
  }

  /** A mode turns on exactly the feature it names and turns its counterpart off, whatever was on before, and
      leaves all others alone; an unknown explicit-API mode turns both off, an unknown assertions mode changes
      nothing. */
  lemma ModesExclude(s: FeatureState, mode: string)
    ensures Chooses(s, {"ExplicitApiStrict", "ExplicitApiWarning"},
      if mode == "strict" then {"ExplicitApiStrict"} else if mode == "warning" then {"ExplicitApiWarning"} else {},
      Apply(s, ApiModeOp(mode)))
    ensures mode == "always-enable" || mode == "always-disable" ==>
      Chooses(s, {"AssertionsAlwaysEnable", "AssertionsAlwaysDisable"},
        if mode == "always-enable" then {"AssertionsAlwaysEnable"} else {"AssertionsAlwaysDisable"},
        Apply(s, AssertionsOp(mode)))
    ensures mode != "always-enable" && mode != "always-disable" ==> Apply(s, AssertionsOp(mode)) == s
  {
    var strict, warning := "ExplicitApiStrict", "ExplicitApiWarning";
    var on, off := "AssertionsAlwaysEnable", "AssertionsAlwaysDisable";
    assert |strict| == 17 && |warning| == 18 && |on| == 22 && |off| == 23;
    OneOfTwo(s, strict, warning, strict);
    OneOfTwo(s, strict, warning, warning);
    OneOfTwo(s, on, off, on);
    OneOfTwo(s, on, off, off);
  }

  /** Both off, and then one of them on. */
  lemma OneOfTwo(s: FeatureState, a: string, b: string, chosen: string)
    requires a != b && chosen in {a, b}
    ensures Chooses(s, {a, b}, {chosen}, PutAll(s, [(a, false), (b, false)] + [(chosen, true)]))
    ensures Chooses(s, {a, b}, {}, PutAll(s, [(a, false), (b, false)] + []))
  {
    PutThree(s, (a, false), (b, false), (chosen, true));
  }

  lemma {:induction false} PutAllKeeps(defaults: set<string>, s: FeatureState, settings: seq<Setting>)
    requires Overridden(defaults, s)
    ensures Overridden(defaults, PutAll(s, settings))
  {
    if settings != [] {
      PutAllKeeps(defaults, s, settings[..|settings| - 1]);
    }
  }

  /** Whatever is set, selected or merged in, what is on stays the defaults overridden by what was set
      explicitly. A merged-in set may have other defaults; it only has to be in force itself. */
  lemma {:induction false} RunKeepsOverridden(defaults: set<string>, ops: seq<Op>)
    requires forall op <- ops :: op.ExtendOp? ==> InForce(op.other)
    ensures Overridden(defaults, Run(Start(defaults), ops))
  {
    if ops != [] {
      var n := |ops| - 1;
      assert forall op <- ops[..n] :: op in ops;
      RunKeepsOverridden(defaults, ops[..n]);
      var s, op := Run(Start(defaults), ops[..n]), ops[n];
      match op
      case SetOp(_, _) =>
      case DirectiveOp(tokens) => PutAllKeeps(defaults, s, TokenSettings(tokens));
      case ApiModeOp(mode) => PutAllKeeps(defaults, s, ApiModeSettings(mode));
      case AssertionsOp(mode) => PutAllKeeps(defaults, s, AssertionsSettings(mode));
      case ExtendOp(other) => assert op in ops;
    }
  }

  /** Whatever runs, explicit settings are in force: a set that came from a run can be merged in. */
  lemma OverriddenInForce(defaults: set<string>, s: FeatureState)
    requires Overridden(defaults, s)
    ensures InForce(s)
  {
  }

  /** Extending turns on what either set has on, and records exactly what was recorded, what it turned on and
      what the other set has on explicitly; nothing is off explicitly that is on. */
  lemma ExtendIsUnion(s: FeatureState, other: FeatureState)
    requires InForce(s) && InForce(other)
    ensures var r := Apply(s, ExtendOp(other));
      && r.enabled == s.enabled + other.enabled && InForce(r)
      && forall name :: name in r.specific <==>
        || name in s.specific || (name in r.enabled && name !in s.enabled)
        || (name in other.specific && other.specific[name])
  {
  }

  // ---------------------------------------------------------------- settings as a list

  predicate NameLe(a: string, b: string)
  {
    a == [] || (b != [] && (a[0] < b[0] || (a[0] == b[0] && NameLe(a[1..], b[1..]))))
  }

  function SettingOrder(): (Setting, Setting) -> bool { (a: Setting, b: Setting) => NameLe(a.0, b.0) }

  lemma {:induction false} NameLeTotal(a: string, b: string)
    ensures NameLe(a, b) || NameLe(b, a)
  {
    if a != [] && b != [] && a[0] == b[0] {
      NameLeTotal(a[1..], b[1..]);
    }
  }

  lemma {:induction false} NameLeTransitive(a: string, b: string, c: string)
    requires NameLe(a, b) && NameLe(b, c)
    ensures NameLe(a, c)
  {
    if a != [] && b != [] && c != [] && a[0] == b[0] == c[0] {
      NameLeTransitive(a[1..], b[1..], c[1..]);
    }
  }

  lemma SettingOrderTotal()
    ensures TotalPreorder(SettingOrder())
  {
    forall x: Setting, y: Setting ensures NameLe(x.0, y.0) || NameLe(y.0, x.0) {
      NameLeTotal(x.0, y.0);
    }
    forall x: Setting, y: Setting, z: Setting | NameLe(x.0, y.0) && NameLe(y.0, z.0) ensures NameLe(x.0, z.0) {
      NameLeTransitive(x.0, y.0, z.0);
    }
  }

  /** `a` is a prefix of `b`, or smaller where the two first differ. */
  ghost predicate NoLater(a: string, b: string)
  {
    a <= b || exists k :: FirstDifference(a, b, k)
  }

  ghost predicate FirstDifference(a: string, b: string, k: int)
  {
    0 <= k < |a| && k < |b| && a[..k] == b[..k] && a[k] < b[k]
  }

  ghost predicate ByName(list: seq<Setting>)
  {
    forall i, j :: 0 <= i < j < |list| ==> NoLater(list[i].0, list[j].0)
  }

  lemma {:induction false} NameLeIs(a: string, b: string)
    requires NameLe(a, b)
    ensures NoLater(a, b)
  {
    if a != [] && a[0] == b[0] {
      NameLeIs(a[1..], b[1..]);
      assert a == [a[0]] + a[1..] && b == [b[0]] + b[1..];
      if k :| FirstDifference(a[1..], b[1..], k) {
        assert a[..k + 1] == [a[0]] + a[1..][..k] && b[..k + 1] == [b[0]] + b[1..][..k];
        assert FirstDifference(a, b, k + 1);
      }
    } else if a != [] {
      assert FirstDifference(a, b, 0);
    }
  }

  lemma SortedByName(list: seq<Setting>)
    requires SortedBy(SettingOrder(), list)
    ensures ByName(list)
  {
    forall i, j | 0 <= i < j < |list| ensures NoLater(list[i].0, list[j].0) {
      assert SettingOrder()(list[i], list[j]);
      NameLeIs(list[i].0, list[j].0);
    }
  }

  ghost predicate DistinctNames(list: seq<Setting>)
  {
    forall i, j :: 0 <= i < j < |list| ==> list[i].0 != list[j].0
  }

  /** `list` gives each entry of `m` once. */
  ghost predicate Lists(list: seq<Setting>, m: map<string, bool>)
  {
    && DistinctNames(list)
    && (forall setting <- list :: setting.0 in m && m[setting.0] == setting.1)
    && (forall name <- m :: (name, m[name]) in list)
  }

  /** Features on that are off by default, and features off that are on by default, not set explicitly. */
  function Differences(defaults: set<string>, s: FeatureState): map<string, bool>
  {
    map name | name in (s.enabled - defaults) + (defaults - s.enabled) && name !in s.specific :: name in s.enabled
  }

  /** The settings that rebuild `s`: the explicit ones by name, then the differences by name. */
  ghost predicate SettingsOf(defaults: set<string>, s: FeatureState, settings: seq<Setting>)
  {
    exists n: nat :: n <= |settings| && SettingsCut(defaults, s, settings[..n], settings[n..])
  }

  ghost predicate SettingsCut(defaults: set<string>, s: FeatureState, explicit: seq<Setting>, others: seq<Setting>)
  {
    Lists(explicit, s.specific) && ByName(explicit) && Lists(others, Differences(defaults, s)) && ByName(others)
  }

  lemma DistinctAfterSort(a: seq<Setting>, b: seq<Setting>)
    requires multiset(a) == multiset(b) && DistinctNames(a)
    ensures DistinctNames(b)
  {
    forall i, j | 0 <= i < j < |b| ensures b[i].0 != b[j].0 {
      assert b[i] in multiset(b) && b[j] in multiset(b);
      assert b[i] in a && b[j] in a;
      if b[i] == b[j] {
        TwiceIn(b, i, j);
        OnceIn(a, b[i]);
      }
    }
  }

  lemma TwiceIn(b: seq<Setting>, i: nat, j: nat)
    requires i < j < |b| && b[i] == b[j]
    ensures multiset(b)[b[i]] >= 2
  {
    assert b == b[..j] + [b[j]] + b[j + 1..];
    assert b[..j][i] == b[i] && b[i] in multiset(b[..j]);
    assert multiset(b) == multiset(b[..j]) + multiset{b[j]} + multiset(b[j + 1..]);
  }

  lemma {:induction false} OnceIn(a: seq<Setting>, x: Setting)
    requires DistinctNames(a)
    ensures multiset(a)[x] <= 1
  {
    if a != [] {
      var n := |a| - 1;
      assert a == a[..n] + [a[n]];
      OnceIn(a[..n], x);
      assert forall y <- a[..n] :: y.0 != a[n].0;
      assert multiset(a[..n])[a[n]] == 0;
    }
  }

  lemma SortedLists(list: seq<Setting>, m: map<string, bool>)
    requires Lists(list, m)
    ensures Lists(Sort(SettingOrder(), list), m) && ByName(Sort(SettingOrder(), list))
  {
    var r := Sort(SettingOrder(), list);
    SettingOrderTotal();
    SortSorted(SettingOrder(), list);
    SortedByName(r);
    DistinctAfterSort(list, r);
    forall x ensures x in r <==> x in list {
      assert x in r <==> x in multiset(r);
      assert x in list <==> x in multiset(list);
    }
  }

  /** The entries of a map, in some order. */
  method Entries(m: map<string, bool>) returns (list: seq<Setting>)
    ensures Lists(list, m)
  {
    list := [];
    var rest := m.Keys;
    while rest != {}
      invariant rest <= m.Keys
      invariant forall setting <- list :: setting.0 in m && setting.0 !in rest && m[setting.0] == setting.1
      invariant forall name <- m :: name !in rest ==> (name, m[name]) in list
      invariant DistinctNames(list)
      decreases |rest|
    {
      var name :| name in rest;
      rest := rest - {name};
      ghost var before := list;
      list := list + [(name, m[name])];
      assert forall x :: x in list <==> x in before || x == (name, m[name]);
    }
  }

  datatype LanguageSettings = LanguageSettings(languageVersion: nat, apiVersion: nat, features: LangFeatures)

  method FeatureSettings(settings: LanguageSettings) returns (r: seq<Setting>)
    ensures SettingsOf(
      Defaults(settings.features.table, settings.languageVersion, settings.apiVersion), settings.features.State(), r)
  {
    var features := settings.features;
    var defaults := new LangFeatures.ForRelease(features.table, settings.languageVersion, settings.apiVersion);
    var explicit := Entries(features.specific);
    var differences := Entries(Differences(defaults.enabled, features.State()));
    SortedLists(explicit, features.specific);
    SortedLists(differences, Differences(defaults.enabled, features.State()));
    explicit, differences := Sort(SettingOrder(), explicit), Sort(SettingOrder(), differences);
    r := explicit + differences;
    assert r[..|explicit|] == explicit && r[|explicit|..] == differences;
  }

  datatype Result<+T> = Ok(value: T) | ApiTooNew(api: nat, language: nat)

  /** Settings rebuilt under a release: an API level above the language level is an error. */
  method ForRelease(table: Table, language: nat, api: Option<nat>, settings: seq<Setting>)
    returns (r: Result<LanguageSettings>)
    ensures var level := if api.Some? then api.value else language;
      if level > language then r == ApiTooNew(level, language)
      else
        && r.Ok? && r.value.languageVersion == language && r.value.apiVersion == level
        && fresh(r.value.features) && r.value.features.optedIn == {} && r.value.features.table == table
        && r.value.features.State() == PutAll(Start(Defaults(table, language, level)), settings)
  {
    var level := if api.Some? then api.value else language;
    if level > language {
      return ApiTooNew(level, language);
    }
    var features := new LangFeatures.ForRelease(table, language, level);
    for i := 0 to |settings|
      invariant features.State() == PutAll(Start(Defaults(table, language, level)), settings[..i])
      invariant features.optedIn == {}
    {
      assert settings[..i + 1][..i] == settings[..i];
      features.Set(settings[i].0, settings[i].1);
    }
    assert settings[..|settings|] == settings;
    r := Ok(LanguageSettings(language, level, features));
  }

  // ---------------------------------------------------------------- the round trip

  /** Settings with distinct names, applied: each has its say. */
  lemma {:induction false} PutAllDistinct(s: FeatureState, settings: seq<Setting>, name: string)
    requires DistinctNames(settings)
    ensures forall on: bool :: (name, on) in settings ==>
      (name in PutAll(s, settings).enabled <==> on) &&
      name in PutAll(s, settings).specific && PutAll(s, settings).specific[name] == on
    ensures (name, true) !in settings && (name, false) !in settings ==>
      && (name in PutAll(s, settings).enabled <==> name in s.enabled)
      && (name in PutAll(s, settings).specific <==> name in s.specific)
      && (name in s.specific ==> PutAll(s, settings).specific[name] == s.specific[name])
  {
    if settings != [] {
      var rest, last := settings[..|settings| - 1], settings[|settings| - 1];
      PutAllDistinct(s, rest, name);
      assert settings == rest + [last];
      assert forall x :: x in settings <==> x in rest || x == last;
      assert last in settings;
    }
  }

  lemma ListsMember(list: seq<Setting>, m: map<string, bool>, name: string, on: bool)
    requires Lists(list, m)
    ensures (name, on) in list <==> name in m && m[name] == on
  {
  }

  lemma DistinctTogether(a: seq<Setting>, b: seq<Setting>)
    requires DistinctNames(a) && DistinctNames(b) && forall x <- a, y <- b :: x.0 != y.0
    ensures DistinctNames(a + b)
  {
    forall i, j | 0 <= i < j < |a + b| ensures (a + b)[i].0 != (a + b)[j].0 {
      if i < |a| <= j {
        assert a[i] in a && b[j - |a|] in b;
      }
    }
  }

  lemma ListsApart(a: seq<Setting>, m: map<string, bool>, b: seq<Setting>, n: map<string, bool>)
    requires Lists(a, m) && Lists(b, n) && m.Keys !! n.Keys
    ensures DistinctNames(a + b)
  {
    forall x, y | x in a && y in b ensures x.0 != y.0 {
      assert x.0 in m.Keys && y.0 in n.Keys;
    }
    DistinctTogether(a, b);
  }

  lemma SettingsSplit(defaults: set<string>, s: FeatureState, settings: seq<Setting>) returns (n: nat)
    requires SettingsOf(defaults, s, settings)
    ensures n <= |settings| && settings == settings[..n] + settings[n..]
    ensures Lists(settings[..n], s.specific) && Lists(settings[n..], Differences(defaults, s))
  {
    n :| n <= |settings| && SettingsCut(defaults, s, settings[..n], settings[n..]);
  }

  lemma SettingsDistinct(defaults: set<string>, s: FeatureState, settings: seq<Setting>)
    requires SettingsOf(defaults, s, settings)
    ensures DistinctNames(settings)
  {
    var n := SettingsSplit(defaults, s, settings);
    ListsApart(settings[..n], s.specific, settings[n..], Differences(defaults, s));
  }

  function Wanted(defaults: set<string>, s: FeatureState, name: string): Option<bool>
  {
    if name in s.specific then Some(s.specific[name])
    else if name in s.enabled && name !in defaults then Some(true)
    else if name in defaults && name !in s.enabled then Some(false)
    else None
  }

  lemma SettingsMember(defaults: set<string>, s: FeatureState, settings: seq<Setting>, name: string, on: bool)
    requires SettingsOf(defaults, s, settings)
    ensures (name, on) in settings <==> Wanted(defaults, s, name) == Some(on)
  {
    var n := SettingsSplit(defaults, s, settings);
    ListsMember(settings[..n], s.specific, name, on);
    ListsMember(settings[n..], Differences(defaults, s), name, on);
  }

  lemma RebuiltAt(defaults: set<string>, s: FeatureState, settings: seq<Setting>, name: string)
    requires InForce(s) && SettingsOf(defaults, s, settings)
    ensures var r := PutAll(Start(defaults), settings);
      && (name in r.enabled <==> name in s.enabled)
      && (name in r.specific <==> Wanted(defaults, s, name).Some?)
      && (name in s.specific ==> r.specific[name] == s.specific[name])
  {
    SettingsDistinct(defaults, s, settings);
    SettingsMember(defaults, s, settings, name, true);
    SettingsMember(defaults, s, settings, name, false);
    PutAllDistinct(Start(defaults), settings, name);
    assert Wanted(defaults, s, name).Some? ==> (name, Wanted(defaults, s, name).value) in settings;
  }

  /** Rebuilding always restores what is on; it restores the explicit settings as well exactly when what is
      on is the defaults overridden by them. */
  lemma SettingsRebuild(defaults: set<string>, s: FeatureState, settings: seq<Setting>)
    requires InForce(s) && SettingsOf(defaults, s, settings)
    ensures PutAll(Start(defaults), settings).enabled == s.enabled
    ensures PutAll(Start(defaults), settings) == s <==> Overridden(defaults, s)
  {
    var r := PutAll(Start(defaults), settings);
    forall name
      ensures name in r.enabled <==> name in s.enabled
      ensures name in r.specific <==> Wanted(defaults, s, name).Some?
      ensures name in s.specific ==> r.specific[name] == s.specific[name]
    {
      RebuiltAt(defaults, s, settings, name);
    }
    if Overridden(defaults, s) {
      assert forall name :: Wanted(defaults, s, name).Some? <==> name in s.specific;
      assert r.specific == s.specific;
    } else {
      var name :| !(name in s.enabled <==> if name in s.specific then s.specific[name] else name in defaults);
      assert name in r.specific && name !in s.specific;
    }
  }

  /** After any run, the listed settings rebuild the features exactly, opt-ins apart. */
  lemma RunRebuilds(table: Table, language: nat, api: nat, ops: seq<Op>, settings: seq<Setting>)
    requires forall op <- ops :: op.ExtendOp? ==> InForce(op.other)
    requires var defaults := Defaults(table, language, api); SettingsOf(defaults, Run(Start(defaults), ops), settings)
    ensures var defaults := Defaults(table, language, api);
      PutAll(Start(defaults), settings) == Run(Start(defaults), ops)
  {
    var defaults := Defaults(table, language, api);
    RunKeepsOverridden(defaults, ops);
    SettingsRebuild(defaults, Run(Start(defaults), ops), settings);
  }
}
