// `ApolloModuleManagerImpl`: the registry of enabled modules, keyed by the
// module's contract type, and the two passes that synchronise every
// registered module's options with a configuration tree.

module ModuleManager {
  import opened Wrappers
  import opened ConfigTree
  import opened Options
  import opened ConfigSync

  /** The contract type a module is registered under (`Class<? extends ApolloModule>`). */
  datatype ModuleKey = ModuleKey(contract: string)

  /** The `RuntimeException` that `addModule` throws, wrapping what a step threw. */
  datatype RegistrationError = Wrapped(cause: string)

  /** The four steps of registering a fresh module, in the order `addModule` runs them. */
  datatype Step = Construct | Register | Enable | Record

  const LIFECYCLE: seq<Step> := [Construct, Register, Enable, Record]

  /** The global event bus: the listeners registered so far, and why `register` would throw for a listener. */
  class EventBus {
    var listeners: seq<ApolloModule>
    const rejects: ApolloModule -> Option<string>

    constructor (rejects: ApolloModule -> Option<string>)
      ensures listeners == [] && this.rejects == rejects
    {
      listeners := [];
      this.rejects := rejects;
    }

    /** `register(listener)`: adds the listener, or throws. */
    method Register(m: ApolloModule) returns (thrown: Option<string>)
      modifies this
      ensures thrown == rejects(m)
      ensures listeners == if thrown.None? then old(listeners) + [m] else old(listeners)
    {
      thrown := rejects(m);
      if thrown.None? {
        listeners := listeners + [m];
      }
    }
  }

  /** What one `addModule` call leaves: the registry, the listeners it added, the steps that completed, and the outcome. */
  datatype Admission = Admission(
    modules: map<ModuleKey, ApolloModule>,
    registered: seq<ApolloModule>,
    completed: seq<Step>,
    outcome: Outcome<RegistrationError>)

  /** The last three steps for an instance `m`: register on the bus, enable, record under `key`. */
  function Install(modules: map<ModuleKey, ApolloModule>, key: ModuleKey, m: ApolloModule,
                   rejects: ApolloModule -> Option<string>, enable: ApolloModule -> Option<string>): Admission {
    match rejects(m)
    case Some(e) => Admission(modules, [], [], Fail(Wrapped(e)))
    case None =>
      match enable(m)
      case Some(e) => Admission(modules, [m], [Register], Fail(Wrapped(e)))
      case None => Admission(modules[key := m], [m], [Register, Enable], Pass)
  }

  /**
   * `addModule(moduleClass)`: `computeIfAbsent` with a reflective constructor
   * that may throw. An entry already recorded is never replaced, and no key
   * other than `key` is added.
   */
  function AdmitNew(modules: map<ModuleKey, ApolloModule>, key: ModuleKey, construct: ModuleKey -> Result<ApolloModule, string>,
                    rejects: ApolloModule -> Option<string>, enable: ApolloModule -> Option<string>): (a: Admission)
    ensures a.modules.Keys <= modules.Keys + {key}
    ensures forall k :: k in modules ==> k in a.modules && a.modules[k] == modules[k]
  {
    if key in modules then Admission(modules, [], [], Pass)
    else match construct(key)
      case Failure(e) => Admission(modules, [], [], Fail(Wrapped(e)))
      case Success(m) =>
        var a := Install(modules, key, m, rejects, enable);
        a.(completed := [Construct] + a.completed + if a.outcome.Pass? then [Record] else [])
  }

  /** `addModule(moduleClass, module)`: `computeIfAbsent` with the instance supplied; the same frame as `AdmitNew`. */
  function AdmitGiven(modules: map<ModuleKey, ApolloModule>, key: ModuleKey, m: ApolloModule,
                      rejects: ApolloModule -> Option<string>, enable: ApolloModule -> Option<string>): (a: Admission)
    ensures a.modules.Keys <= modules.Keys + {key}
    ensures forall k :: k in modules ==> k in a.modules && a.modules[k] == modules[k]
  {
    if key in modules then Admission(modules, [], [], Pass)
    else
      var a := Install(modules, key, m, rejects, enable);
      a.(completed := a.completed + if a.outcome.Pass? then [Record] else [])
  }

  /**
   * A key already present makes `addModule` a no-op: nothing is constructed,
   * registered or enabled, the registry is unchanged and a supplied instance
   * is ignored.
   */
  lemma AdmitPresentIsNoOp(modules: map<ModuleKey, ApolloModule>, key: ModuleKey, construct: ModuleKey -> Result<ApolloModule, string>,
                           m: ApolloModule, rejects: ApolloModule -> Option<string>, enable: ApolloModule -> Option<string>)
    requires key in modules
    ensures AdmitNew(modules, key, construct, rejects, enable) == Admission(modules, [], [], Pass)
    ensures AdmitGiven(modules, key, m, rejects, enable) == Admission(modules, [], [], Pass)
  {
  }

  /**
   * For a fresh key the steps run in the order construct, register, enable,
   * record, each only after the one before it succeeded; the entry is
   * recorded exactly when every step succeeded.
   */
  lemma AdmitNewFollowsLifecycle(modules: map<ModuleKey, ApolloModule>, key: ModuleKey, construct: ModuleKey -> Result<ApolloModule, string>,
                                 rejects: ApolloModule -> Option<string>, enable: ApolloModule -> Option<string>)
    requires key !in modules
    ensures var a := AdmitNew(modules, key, construct, rejects, enable);
            && a.completed <= LIFECYCLE
            && (a.outcome.Pass? <==> a.completed == LIFECYCLE)
            && (a.registered != [] <==> Register in a.completed)
  {
  }

  /** The supplied-instance overload runs the same steps, without constructing. */
  lemma AdmitGivenFollowsLifecycle(modules: map<ModuleKey, ApolloModule>, key: ModuleKey, m: ApolloModule,
                                   rejects: ApolloModule -> Option<string>, enable: ApolloModule -> Option<string>)
    requires key !in modules
    ensures var a := AdmitGiven(modules, key, m, rejects, enable);
            && a.completed <= LIFECYCLE[1..]
            && (a.outcome.Pass? <==> a.completed == LIFECYCLE[1..])
            && (a.registered == if Register in a.completed then [m] else [])
  {
  }

  /**
   * When a step throws, the registry is exactly as it was: no entry for the
   * key and every other entry unchanged. When none throws, the key maps to
   * the new instance and every other entry is unchanged.
   */
  lemma AdmitRecordsOnlyOnSuccess(modules: map<ModuleKey, ApolloModule>, key: ModuleKey, construct: ModuleKey -> Result<ApolloModule, string>,
                                  m: ApolloModule, rejects: ApolloModule -> Option<string>, enable: ApolloModule -> Option<string>)
    ensures var a := AdmitNew(modules, key, construct, rejects, enable);
            && (a.outcome.Fail? ==> a.modules == modules && key !in a.modules)
            && (a.outcome.Pass? && key !in modules ==>
                  key in a.modules && construct(key).Success? && a.modules == modules[key := construct(key).value])
    ensures var a := AdmitGiven(modules, key, m, rejects, enable);
            && (a.outcome.Fail? ==> a.modules == modules && key !in a.modules)
            && (a.outcome.Pass? && key !in modules ==> a.modules == modules[key := m])
  {
  }

  /** `order` lists every key of the registry exactly once: the iteration order of `modules.values()`. */
  predicate Enumerates(order: seq<ModuleKey>, modules: map<ModuleKey, ApolloModule>) {
    && (forall k :: k in order ==> k in modules)
    && (forall k :: k in modules ==> k in order)
    && (forall i, j :: 0 <= i < j < |order| ==> order[i] != order[j])
  }

  /** The registered modules in iteration order. */
  function InOrder(modules: map<ModuleKey, ApolloModule>, order: seq<ModuleKey>): (ms: seq<ApolloModule>)
    requires forall k :: k in order ==> k in modules
    ensures |ms| == |order| && forall i :: 0 <= i < |order| ==> ms[i] == modules[order[i]]
  {
    if order == [] then [] else InOrder(modules, order[..|order| - 1]) + [modules[order[|order| - 1]]]
  }

  /** One more key of `order` adds its module at the end. */
  lemma InOrderStep(modules: map<ModuleKey, ApolloModule>, order: seq<ModuleKey>, i: nat)
    requires forall k :: k in order ==> k in modules
    requires i < |order|
    ensures InOrder(modules, order[..i + 1]) == InOrder(modules, order[..i]) + [modules[order[i]]]
  {
    assert order[..i + 1][..i] == order[..i];
  }

  /**
   * Every module after the load pass: the registry keeps its keys, and each
   * module keeps its name, its registered options and its notify flag.
   */
  function LoadAll(modules: map<ModuleKey, ApolloModule>, t: Tree, decode: Decoder): (r: map<ModuleKey, ApolloModule>)
    ensures r.Keys == modules.Keys
    ensures forall k :: k in r ==> && r[k].name == modules[k].name && r[k].options == modules[k].options
                                   && r[k].clientNotify == modules[k].clientNotify
  {
    map k | k in modules :: LoadModule(modules[k], t, decode)
  }

  /** The outer load loop, visiting the keys of `order` in turn. */
  function LoadInOrder(modules: map<ModuleKey, ApolloModule>, order: seq<ModuleKey>, t: Tree, decode: Decoder): map<ModuleKey, ApolloModule> {
    if order == [] then modules
    else
      var earlier := LoadInOrder(modules, order[..|order| - 1], t, decode);
      var key := order[|order| - 1];
      if key in earlier then earlier[key := LoadModule(earlier[key], t, decode)] else earlier
  }

  /** One more key of `order` loads that key's module once more. */
  lemma LoadInOrderStep(modules: map<ModuleKey, ApolloModule>, order: seq<ModuleKey>, t: Tree, decode: Decoder, i: nat)
    requires i < |order|
    ensures var earlier := LoadInOrder(modules, order[..i], t, decode);
            LoadInOrder(modules, order[..i + 1], t, decode)
              == if order[i] in earlier then earlier[order[i] := LoadModule(earlier[order[i]], t, decode)] else earlier
  {
    assert order[..i + 1][..i] == order[..i];
  }

  /** The load loop keeps the registry's keys, and each module's name, options and notify flag. */
  lemma {:induction false} LoadInOrderKeeps(modules: map<ModuleKey, ApolloModule>, order: seq<ModuleKey>, t: Tree, decode: Decoder, k: ModuleKey)
    ensures var r := LoadInOrder(modules, order, t, decode);
            && (k in r <==> k in modules)
            && (k in r ==> r[k].name == modules[k].name && r[k].options == modules[k].options
                           && r[k].clientNotify == modules[k].clientNotify)
  {
    if order != [] {
      LoadInOrderKeeps(modules, order[..|order| - 1], t, decode, k);
    }
  }

  /**
   * After the load loop a module visited once is loaded from the tree and one
   * not visited is unchanged.
   */
  lemma {:induction false} LoadInOrderAt(modules: map<ModuleKey, ApolloModule>, order: seq<ModuleKey>, t: Tree, decode: Decoder, k: ModuleKey)
    requires forall a, b :: 0 <= a < b < |order| ==> order[a] != order[b]
    requires k in modules
    ensures k in LoadInOrder(modules, order, t, decode)
    ensures LoadInOrder(modules, order, t, decode)[k] == if k in order then LoadModule(modules[k], t, decode) else modules[k]
  {
    LoadInOrderKeeps(modules, order, t, decode, k);
    if order != [] {
      var n := |order| - 1;
      LoadInOrderKeeps(modules, order[..n], t, decode, k);
      LoadInOrderAt(modules, order[..n], t, decode, k);
      assert order == order[..n] + [order[n]];
      if order[n] == k {
        assert k !in order[..n] by {
          forall j | 0 <= j < n ensures order[..n][j] != k {
            assert order[j] != order[n];
          }
        }
      }
    }
  }

  /** Visiting every registered module once, in any order, loads each of them. */
  lemma LoadInOrderIsLoadAll(modules: map<ModuleKey, ApolloModule>, order: seq<ModuleKey>, t: Tree, decode: Decoder)
    requires Enumerates(order, modules)
    ensures LoadInOrder(modules, order, t, decode) == LoadAll(modules, t, decode)
  {
    var r := LoadInOrder(modules, order, t, decode);
    forall k ensures k in r <==> k in modules {
      LoadInOrderKeeps(modules, order, t, decode, k);
    }
    forall k | k in modules ensures r[k] == LoadModule(modules[k], t, decode) {
      LoadInOrderAt(modules, order, t, decode, k);
    }
    LoadAllPointwise(modules, r, t, decode);
  }

  /** A registry holding, under each key, that key's module loaded, is the load pass's result. */
  lemma LoadAllPointwise(modules: map<ModuleKey, ApolloModule>, loaded: map<ModuleKey, ApolloModule>, t: Tree, decode: Decoder)
    requires loaded.Keys == modules.Keys
    requires forall k :: k in modules ==> loaded[k] == LoadModule(modules[k], t, decode)
    ensures loaded == LoadAll(modules, t, decode)
  {
  }

  /** No two registered modules share a name, so no two share a configuration node. */
  predicate DistinctNames(modules: map<ModuleKey, ApolloModule>) {
    forall k, l :: k in modules && l in modules && k != l ==> modules[k].name != modules[l].name
  }

  /**
   * Saving every registered module and loading the result back leaves every
   * option of every module as it was, when module names are distinct, each
   * module's options lie apart, writing never throws and reading undoes writing.
   */
  lemma SaveThenLoadConfiguration(modules: map<ModuleKey, ApolloModule>, order: seq<ModuleKey>, t: Tree,
                                  encode: Encoder, decode: Decoder, k: ModuleKey, q: OptionDescriptor)
    requires Enumerates(order, modules) && DistinctNames(modules) && CodecRoundTrip(encode, decode)
    requires forall l :: l in modules ==> WritesAll(modules[l], encode) && PathsApart(modules[l].options)
    requires k in modules
    ensures var saved := SaveAll(t, InOrder(modules, order), encode);
            Get(LoadAll(modules, saved, decode)[k], q) == Get(modules[k], q)
  {
    var ms := InOrder(modules, order);
    var i :| 0 <= i < |order| && order[i] == k;
    assert NamesDistinct(ms) by {
      forall a, b | 0 <= a < |ms| && 0 <= b < |ms| && a != b ensures ms[a].name != ms[b].name {
        assert order[a] != order[b];
      }
    }
    SaveThenLoadAll(t, ms, encode, decode, i, q);
  }

  /** The inner load loop for one module whose node is present. */
  method LoadModuleOptions(m: ApolloModule, moduleNode: Tree, decode: Decoder) returns (loaded: ApolloModule, failed: seq<Diagnostic>)
    ensures loaded == LoadOptions(m, moduleNode, m.options, decode)
    ensures failed == LoadFailures(m.name, moduleNode, m.options, decode)
  {
    var options := m.options;
    loaded, failed := m, [];
    for i := 0 to |options|
      invariant loaded == LoadOptions(m, moduleNode, options[..i], decode)
      invariant failed == LoadFailures(m.name, moduleNode, options[..i], decode)
    {
      var option := options[i];
      assert options[..i + 1][..i] == options[..i];
      var optionNode := Subtree(moduleNode, option.path);
      PresentIffSubtreeNonEmpty(moduleNode, option.path);
      assert LoadOptions(m, moduleNode, options[..i + 1], decode) == LoadStep(loaded, moduleNode, option, decode);
      if optionNode != map[] {
        match decode(option, optionNode)
        case Success(value) =>
          loaded := Set(loaded, option, value);
        case Failure(thrown) =>
          failed := failed + [Diagnostic(m.name, option, thrown)];
      }
    }
    assert options[..|options|] == options;
  }

  /** The outer load loop's body for one module: a virtual module node is skipped. */
  method LoadModuleFrom(m: ApolloModule, t: Tree, decode: Decoder) returns (loaded: ApolloModule, failed: seq<Diagnostic>)
    ensures loaded == LoadModule(m, t, decode)
    ensures failed == LoadModuleFailures(m, t, decode)
  {
    var moduleNode := Subtree(t, [m.name]);
    PresentIffSubtreeNonEmpty(t, [m.name]);
    if moduleNode == map[] {
      return m, [];
    }
    loaded, failed := LoadModuleOptions(m, moduleNode, decode);
  }

  /** What loading a module reports depends only on its name and its options. */
  lemma SameFailures(m: ApolloModule, n: ApolloModule, t: Tree, decode: Decoder)
    requires m.name == n.name && m.options == n.options
    ensures LoadModuleFailures(m, t, decode) == LoadModuleFailures(n, t, decode)
  {
  }

  /** The outer load loop: each module of `order` in turn is loaded from `t`. */
  method LoadEach(modules: map<ModuleKey, ApolloModule>, order: seq<ModuleKey>, t: Tree, decode: Decoder)
    returns (loaded: map<ModuleKey, ApolloModule>, diagnostics: seq<Diagnostic>)
    requires forall k :: k in order ==> k in modules
    ensures loaded == LoadInOrder(modules, order, t, decode)
    ensures diagnostics == LoadAllFailures(InOrder(modules, order), t, decode)
  {
    loaded, diagnostics := modules, [];
    for i := 0 to |order|
      invariant loaded == LoadInOrder(modules, order[..i], t, decode)
      invariant diagnostics == LoadAllFailures(InOrder(modules, order[..i]), t, decode)
    {
      var key := order[i];
      InOrderStep(modules, order, i);
      LoadAllFailuresStep(InOrder(modules, order[..i]), modules[key], t, decode);
      LoadInOrderKeeps(modules, order[..i], t, decode, key);
      LoadInOrderStep(modules, order, t, decode, i);
      var m, failed := LoadModuleFrom(loaded[key], t, decode);
      SameFailures(loaded[key], modules[key], t, decode);
      loaded := loaded[key := m];
      diagnostics := diagnostics + failed;
    }
    assert order[..|order|] == order;
  }

  /** The inner save loop for one module. */
  method SaveModuleOptions(root: ConfigNode, m: ApolloModule, encode: Encoder) returns (failed: seq<Diagnostic>)
    modifies root
    ensures root.leaves == SaveModule(old(root.leaves), m, encode)
    ensures failed == SaveFailures(m, m.options, encode)
  {
    var options := m.options;
    failed := [];
    for i := 0 to |options|
      invariant root.leaves == SaveOptions(old(root.leaves), m, options[..i], encode)
      invariant failed == SaveFailures(m, options[..i], encode)
    {
      var option := options[i];
      assert options[..i + 1][..i] == options[..i];
      match encode(option, Get(m, option))
      case Success(written) =>
        root.Set(OptionPath(m, option), written);
      case Failure(thrown) =>
        failed := failed + [Diagnostic(m.name, option, thrown)];
    }
    assert options[..|options|] == options;
  }

  class ModuleManagerImpl {
    var modules: map<ModuleKey, ApolloModule>

    constructor ()
      ensures modules == map[]
    {
      modules := map[];
    }

    /** `isEnabled`: whether a module is registered under `key`. */
    function IsEnabled(key: ModuleKey): (enabled: bool)
      reads this
      ensures enabled <==> GetModule(key).Some?
    {
      key in modules
    }

    /** `getModule`: the module registered under `key`, if any. */
    function GetModule(key: ModuleKey): (r: Option<ApolloModule>)
      reads this
      ensures r.Some? <==> key in modules
      ensures r.Some? ==> r.value == modules[key]
    {
      if key in modules then Some(modules[key]) else None
    }

    /** `addModule(moduleClass)`. */
    method AddModule(key: ModuleKey, construct: ModuleKey -> Result<ApolloModule, string>, bus: EventBus,
                     enable: ApolloModule -> Option<string>) returns (outcome: Outcome<RegistrationError>)
      modifies this, bus
      ensures var a := AdmitNew(old(modules), key, construct, bus.rejects, enable);
              modules == a.modules && bus.listeners == old(bus.listeners) + a.registered && outcome == a.outcome
    {
      if key in modules {
        return Pass;
      }
      var constructed := construct(key);
      if constructed.Failure? {
        return Fail(Wrapped(constructed.error));
      }
      outcome := RegisterAndEnable(key, constructed.value, bus, enable);
    }

    /** `addModule(moduleClass, module)`. */
    method AddModuleInstance(key: ModuleKey, m: ApolloModule, bus: EventBus,
                             enable: ApolloModule -> Option<string>) returns (outcome: Outcome<RegistrationError>)
      modifies this, bus
      ensures var a := AdmitGiven(old(modules), key, m, bus.rejects, enable);
              modules == a.modules && bus.listeners == old(bus.listeners) + a.registered && outcome == a.outcome
    {
      if key in modules {
        return Pass;
      }
      outcome := RegisterAndEnable(key, m, bus, enable);
    }

    /** The body of the `computeIfAbsent` mapping function, after construction. */
    method RegisterAndEnable(key: ModuleKey, m: ApolloModule, bus: EventBus,
                   enable: ApolloModule -> Option<string>) returns (outcome: Outcome<RegistrationError>)
      modifies this, bus
      ensures var a := Install(old(modules), key, m, bus.rejects, enable);
              modules == a.modules && bus.listeners == old(bus.listeners) + a.registered && outcome == a.outcome
    {
      var refused := bus.Register(m);
      if refused.Some? {
        return Fail(Wrapped(refused.value));
      }
      var failed := enable(m);
      if failed.Some? {
        return Fail(Wrapped(failed.value));
      }
      modules := modules[key := m];
      return Pass;
    }

    /** `loadConfiguration(node)`, visiting the modules in the order `order`. */
    method LoadConfiguration(root: ConfigNode, order: seq<ModuleKey>, decode: Decoder) returns (diagnostics: seq<Diagnostic>)
      requires Enumerates(order, modules)
      modifies this
      ensures modules == LoadAll(old(modules), root.leaves, decode)
      ensures diagnostics == LoadAllFailures(InOrder(old(modules), order), root.leaves, decode)
    {
      modules, diagnostics := LoadEach(modules, order, root.leaves, decode);
      LoadInOrderIsLoadAll(old(modules), order, root.leaves, decode);
    }

    /** `saveConfiguration(node)`, visiting the modules in the order `order`. */
    method SaveConfiguration(root: ConfigNode, order: seq<ModuleKey>, encode: Encoder) returns (diagnostics: seq<Diagnostic>)
      requires Enumerates(order, modules)
      modifies root
      ensures root.leaves == SaveAll(old(root.leaves), InOrder(modules, order), encode)
      ensures diagnostics == SaveAllFailures(InOrder(modules, order), encode)
    {
      ghost var start := root.leaves;
      diagnostics := [];
      for i := 0 to |order|
        invariant root.leaves == SaveAll(start, InOrder(modules, order[..i]), encode)
        invariant diagnostics == SaveAllFailures(InOrder(modules, order[..i]), encode)
      {
        var key := order[i];
        ghost var done := InOrder(modules, order[..i]);
        InOrderStep(modules, order, i);
        assert InOrder(modules, order[..i + 1]) == done + [modules[key]];
        SaveAllStep(start, done, modules[key], encode);
        var failed := SaveModuleOptions(root, modules[key], encode);
        diagnostics := diagnostics + failed;
      }
      assert order[..|order|] == order;
    }
  }
}
