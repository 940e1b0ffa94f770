// What `loadConfiguration` and `saveConfiguration` do to one module, and to a
// list of modules, stated as functions over the configuration tree.
//
// A module's node is `node(name)`; an option's node is that node's
// `node(path...)`. Typed `get` and `set` of a node are the partial functions
// `Decoder` and `Encoder`: `get` may throw, which the load pass reports and
// skips; `set` may throw, which the save pass reports and skips.

module ConfigSync {
  import opened Wrappers
  import opened ConfigTree
  import opened Options

  /** `optionNode.get(option.getTypeToken())`: the value read from an option's node, or what it threw. */
  type Decoder = (OptionDescriptor, Tree) -> Result<Value, string>

  /** `optionNode.set(value)`: the tree the value is written as, or what it threw. */
  type Encoder = (OptionDescriptor, Value) -> Result<Tree, string>

  /** One `printStackTrace`: the module, the option and the cause. */
  datatype Diagnostic = Diagnostic(moduleName: string, option: OptionDescriptor, cause: string)

  // ---------------------------------------------------------------------------
  // Load
  // ---------------------------------------------------------------------------

  /** One pass of the inner load loop: a virtual option node is skipped, a failed read is swallowed. */
  function LoadStep(m: ApolloModule, moduleNode: Tree, o: OptionDescriptor, decode: Decoder): ApolloModule {
    if !Present(moduleNode, o.path) then m
    else match decode(o, Subtree(moduleNode, o.path))
      case Success(v) => Set(m, o, v)
      case Failure(_) => m
  }

  /** The inner load loop over the options `opts`, in order. */
  function LoadOptions(m: ApolloModule, moduleNode: Tree, opts: seq<OptionDescriptor>, decode: Decoder): (r: ApolloModule)
    ensures r.name == m.name && r.options == m.options && r.clientNotify == m.clientNotify
  {
    if opts == [] then m
    else LoadStep(LoadOptions(m, moduleNode, opts[..|opts| - 1], decode), moduleNode, opts[|opts| - 1], decode)
  }

  /** What the inner load loop reports, in order. */
  function LoadFailures(name: string, moduleNode: Tree, opts: seq<OptionDescriptor>, decode: Decoder): seq<Diagnostic> {
    if opts == [] then []
    else
      var o := opts[|opts| - 1];
      var earlier := LoadFailures(name, moduleNode, opts[..|opts| - 1], decode);
      if Present(moduleNode, o.path) && decode(o, Subtree(moduleNode, o.path)).Failure? then
        earlier + [Diagnostic(name, o, decode(o, Subtree(moduleNode, o.path)).error)]
      else earlier
  }

  /** The value option `o` reads from the module node, when it is present and decodes. */
  function ReadOption(moduleNode: Tree, o: OptionDescriptor, decode: Decoder): Option<Value> {
    if Present(moduleNode, o.path) && decode(o, Subtree(moduleNode, o.path)).Success? then
      Some(decode(o, Subtree(moduleNode, o.path)).value)
    else None
  }

  /**
   * After the inner load loop, an option that was read holds what was read;
   * every other option, including one whose read failed, keeps its value.
   */
  lemma {:induction false} LoadOptionsGet(m: ApolloModule, moduleNode: Tree, opts: seq<OptionDescriptor>,
                                          decode: Decoder, q: OptionDescriptor)
    ensures Get(LoadOptions(m, moduleNode, opts, decode), q)
            == if q in opts && ReadOption(moduleNode, q, decode).Some?
               then ReadOption(moduleNode, q, decode).value
               else Get(m, q)
  {
    if opts != [] {
      var n := |opts| - 1;
      LoadOptionsGet(m, moduleNode, opts[..n], decode, q);
      var before := LoadOptions(m, moduleNode, opts[..n], decode);
      if Present(moduleNode, opts[n].path) && decode(opts[n], Subtree(moduleNode, opts[n].path)).Success? {
        GetAfterSet(before, opts[n], decode(opts[n], Subtree(moduleNode, opts[n].path)).value, q);
      }
      assert q in opts <==> q in opts[..n] || q == opts[n] by {
        assert opts == opts[..n] + [opts[n]];
      }
    }
  }

  /** A report names an option of the list that was present and whose read failed, with its cause. */
  lemma {:induction false} LoadFailuresSound(name: string, moduleNode: Tree, opts: seq<OptionDescriptor>,
                                             decode: Decoder, d: Diagnostic)
    requires d in LoadFailures(name, moduleNode, opts, decode)
    ensures d.moduleName == name && d.option in opts && Present(moduleNode, d.option.path)
    ensures decode(d.option, Subtree(moduleNode, d.option.path)) == Failure(d.cause)
  {
    var n := |opts| - 1;
    if d !in LoadFailures(name, moduleNode, opts[..n], decode) {
      assert d.option == opts[n];
    } else {
      LoadFailuresSound(name, moduleNode, opts[..n], decode, d);
      assert opts[..n] <= opts;
    }
  }

  /** Every option of the list that was present and failed to read is reported. */
  lemma {:induction false} LoadFailuresComplete(name: string, moduleNode: Tree, opts: seq<OptionDescriptor>,
                                                decode: Decoder, o: OptionDescriptor)
    requires o in opts && Present(moduleNode, o.path) && decode(o, Subtree(moduleNode, o.path)).Failure?
    ensures Diagnostic(name, o, decode(o, Subtree(moduleNode, o.path)).error) in LoadFailures(name, moduleNode, opts, decode)
  {
    var n := |opts| - 1;
    if o != opts[n] {
      assert o in opts[..n] by {
        assert opts == opts[..n] + [opts[n]];
      }
      LoadFailuresComplete(name, moduleNode, opts[..n], decode, o);
    }
  }

  /** The outer load loop's body for one module: a virtual module node is skipped. */
  function LoadModule(m: ApolloModule, t: Tree, decode: Decoder): (r: ApolloModule)
    ensures r.name == m.name && r.options == m.options && r.clientNotify == m.clientNotify
  {
    if Present(t, [m.name]) then LoadOptions(m, Subtree(t, [m.name]), m.options, decode) else m
  }

  /** What loading reports for one module. */
  function LoadModuleFailures(m: ApolloModule, t: Tree, decode: Decoder): seq<Diagnostic> {
    if Present(t, [m.name]) then LoadFailures(m.name, Subtree(t, [m.name]), m.options, decode) else []
  }

  /** The value option `o` of module `m` reads from the whole tree, if any. */
  function ReadModuleOption(m: ApolloModule, t: Tree, o: OptionDescriptor, decode: Decoder): Option<Value> {
    if Present(t, [m.name]) && o in m.options then ReadOption(Subtree(t, [m.name]), o, decode) else None
  }

  /**
   * Loading a module: each registered option whose node is present and reads
   * takes that value; every other option keeps the value it had.
   */
  lemma LoadModuleGet(m: ApolloModule, t: Tree, decode: Decoder, q: OptionDescriptor)
    ensures Get(LoadModule(m, t, decode), q)
            == if ReadModuleOption(m, t, q, decode).Some? then ReadModuleOption(m, t, q, decode).value else Get(m, q)
  {
    if Present(t, [m.name]) {
      LoadOptionsGet(m, Subtree(t, [m.name]), m.options, decode, q);
    }
  }

  /** Loading the same tree twice leaves every option as loading it once does. */
  lemma LoadModuleIdempotent(m: ApolloModule, t: Tree, decode: Decoder, q: OptionDescriptor)
    ensures Get(LoadModule(LoadModule(m, t, decode), t, decode), q) == Get(LoadModule(m, t, decode), q)
  {
    var once := LoadModule(m, t, decode);
    LoadModuleGet(m, t, decode, q);
    LoadModuleGet(once, t, decode, q);
  }

  /** What the outer load loop reports over the modules `ms`, in order. */
  function LoadAllFailures(ms: seq<ApolloModule>, t: Tree, decode: Decoder): seq<Diagnostic> {
    if ms == [] then []
    else LoadAllFailures(ms[..|ms| - 1], t, decode) + LoadModuleFailures(ms[|ms| - 1], t, decode)
  }

  /** Loading one more module reports its failures after the earlier ones'. */
  lemma LoadAllFailuresStep(ms: seq<ApolloModule>, m: ApolloModule, t: Tree, decode: Decoder)
    ensures LoadAllFailures(ms + [m], t, decode) == LoadAllFailures(ms, t, decode) + LoadModuleFailures(m, t, decode)
  {
    assert (ms + [m])[..|ms|] == ms;
  }

  /** Reading an option's node below the module's node is reading it at its full path. */
  lemma ReadAtOptionPath(m: ApolloModule, t: Tree, o: OptionDescriptor)
    ensures Subtree(Subtree(t, [m.name]), o.path) == Subtree(t, OptionPath(m, o))
  {
    SubtreeOfSubtree(t, [m.name], o.path);
  }

  // ---------------------------------------------------------------------------
  // Save
  // ---------------------------------------------------------------------------

  /** One pass of the inner save loop: the option's current value replaces its node, unless writing throws. */
  function SaveStep(t: Tree, m: ApolloModule, o: OptionDescriptor, encode: Encoder): Tree {
    match encode(o, Get(m, o))
    case Success(sub) => Graft(t, OptionPath(m, o), sub)
    case Failure(_) => t
  }

  /** The inner save loop over the options `opts`, in order. */
  function SaveOptions(t: Tree, m: ApolloModule, opts: seq<OptionDescriptor>, encode: Encoder): Tree {
    if opts == [] then t
    else SaveStep(SaveOptions(t, m, opts[..|opts| - 1], encode), m, opts[|opts| - 1], encode)
  }

  /** What the inner save loop reports, in order. */
  function SaveFailures(m: ApolloModule, opts: seq<OptionDescriptor>, encode: Encoder): seq<Diagnostic> {
    if opts == [] then []
    else
      var o := opts[|opts| - 1];
      var earlier := SaveFailures(m, opts[..|opts| - 1], encode);
      if encode(o, Get(m, o)).Failure? then earlier + [Diagnostic(m.name, o, encode(o, Get(m, o)).error)]
      else earlier
  }

  /** The outer save loop's body for one module: every other module's node is left alone. */
  function SaveModule(t: Tree, m: ApolloModule, encode: Encoder): (r: Tree)
    ensures forall name :: name != m.name ==> Subtree(r, [name]) == Subtree(t, [name])
  {
    SaveOptionsOtherModules(t, m, m.options, encode);
    SaveOptions(t, m, m.options, encode)
  }

  /** What option `o` of `m` leaves at its node: the written tree, or the old node if writing threw. */
  function SavedAt(t: Tree, m: ApolloModule, o: OptionDescriptor, encode: Encoder): Tree {
    match encode(o, Get(m, o))
    case Success(sub) => sub
    case Failure(_) => Subtree(t, OptionPath(m, o))
  }

  /** The inner save loop leaves alone every node that lies off the options it writes. */
  lemma {:induction false} SaveOptionsElsewhere(t: Tree, m: ApolloModule, opts: seq<OptionDescriptor>,
                                                encode: Encoder, q: Path)
    requires forall o :: o in opts ==> !Overlaps(OptionPath(m, o), q)
    ensures Subtree(SaveOptions(t, m, opts, encode), q) == Subtree(t, q)
  {
    if opts != [] {
      var n := |opts| - 1;
      assert forall o :: o in opts[..n] ==> o in opts;
      SaveOptionsElsewhere(t, m, opts[..n], encode, q);
      if encode(opts[n], Get(m, opts[n])).Success? {
        GraftElsewhere(SaveOptions(t, m, opts[..n], encode), OptionPath(m, opts[n]),
                       encode(opts[n], Get(m, opts[n])).value, q);
      }
    }
  }

  /**
   * The inner save loop leaves each option's node holding that option's
   * written value; one that failed to write keeps its old node, and does not
   * stop the others.
   */
  lemma {:induction false} SaveOptionsWrites(t: Tree, m: ApolloModule, opts: seq<OptionDescriptor>,
                                             encode: Encoder, i: nat)
    requires PathsApart(opts) && i < |opts|
    ensures Subtree(SaveOptions(t, m, opts, encode), OptionPath(m, opts[i])) == SavedAt(t, m, opts[i], encode)
  {
    var n := |opts| - 1;
    if i == n {
      SaveOptionsWritesLast(t, m, opts, encode);
    } else {
      var prefix := opts[..n];
      forall a, b | 0 <= a < |prefix| && 0 <= b < |prefix| && a != b
        ensures !Overlaps(prefix[a].path, prefix[b].path)
      {
        assert prefix[a] == opts[a] && prefix[b] == opts[b];
      }
      assert prefix[i] == opts[i];
      SaveOptionsWrites(t, m, prefix, encode, i);
      SaveOptionsKeepsEarlier(t, m, opts, encode, i);
    }
  }

  /** Writing the last option leaves the node of every earlier option as it was. */
  lemma SaveOptionsKeepsEarlier(t: Tree, m: ApolloModule, opts: seq<OptionDescriptor>, encode: Encoder, i: nat)
    requires PathsApart(opts) && i < |opts| - 1
    ensures Subtree(SaveOptions(t, m, opts, encode), OptionPath(m, opts[i]))
            == Subtree(SaveOptions(t, m, opts[..|opts| - 1], encode), OptionPath(m, opts[i]))
  {
    var n := |opts| - 1;
    assert !Overlaps(opts[n].path, opts[i].path);
    SaveStepElsewhere(SaveOptions(t, m, opts[..n], encode), m, opts[n], encode, opts[i]);
  }

  /** One pass of the save loop leaves the node of an option apart from it as it was. */
  lemma SaveStepElsewhere(t: Tree, m: ApolloModule, o: OptionDescriptor, encode: Encoder, q: OptionDescriptor)
    requires !Overlaps(o.path, q.path)
    ensures Subtree(SaveStep(t, m, o, encode), OptionPath(m, q)) == Subtree(t, OptionPath(m, q))
  {
    if encode(o, Get(m, o)).Success? {
      OptionPathsApart(m, o, q);
      GraftElsewhere(t, OptionPath(m, o), encode(o, Get(m, o)).value, OptionPath(m, q));
    }
  }

  /** The last option of the inner save loop is left holding what it wrote. */
  lemma SaveOptionsWritesLast(t: Tree, m: ApolloModule, opts: seq<OptionDescriptor>, encode: Encoder)
    requires PathsApart(opts) && opts != []
    ensures Subtree(SaveOptions(t, m, opts, encode), OptionPath(m, opts[|opts| - 1])) == SavedAt(t, m, opts[|opts| - 1], encode)
  {
    var n := |opts| - 1;
    var before := SaveOptions(t, m, opts[..n], encode);
    var p := OptionPath(m, opts[n]);
    if encode(opts[n], Get(m, opts[n])).Success? {
      SubtreeOfGraft(before, p, encode(opts[n], Get(m, opts[n])).value);
    } else {
      forall o | o in opts[..n] ensures !Overlaps(OptionPath(m, o), p) {
        var j :| 0 <= j < n && opts[..n][j] == o;
        OptionPathsApart(m, o, opts[n]);
      }
      SaveOptionsElsewhere(t, m, opts[..n], encode, p);
    }
  }

  /** The inner save loop writes only below the module's own node. */
  lemma SaveOptionsOtherModules(t: Tree, m: ApolloModule, opts: seq<OptionDescriptor>, encode: Encoder)
    ensures forall name :: name != m.name ==> Subtree(SaveOptions(t, m, opts, encode), [name]) == Subtree(t, [name])
  {
    forall name | name != m.name
      ensures Subtree(SaveOptions(t, m, opts, encode), [name]) == Subtree(t, [name])
    {
      forall o | o in opts ensures !Overlaps(OptionPath(m, o), [name]) {
        ApartAt(OptionPath(m, o), [name], 0);
      }
      SaveOptionsElsewhere(t, m, opts, encode, [name]);
    }
  }

  // ---------------------------------------------------------------------------
  // Saving, then loading
  // ---------------------------------------------------------------------------

  /** Writing then reading gives back the value written, for every value written. */
  ghost predicate CodecRoundTrip(encode: Encoder, decode: Decoder) {
    forall o, v :: encode(o, v).Success? ==> decode(o, encode(o, v).value) == Success(v)
  }

  /** Every current value of the module can be written. */
  predicate WritesAll(m: ApolloModule, encode: Encoder) {
    forall o :: o in m.options ==> encode(o, Get(m, o)).Success?
  }

  /** The node of option `o` is empty or reads back as the module's current value. */
  predicate ReadsBack(t: Tree, m: ApolloModule, o: OptionDescriptor, decode: Decoder) {
    Subtree(t, OptionPath(m, o)) == map[] || decode(o, Subtree(t, OptionPath(m, o))) == Success(Get(m, o))
  }

  /** Loading a tree whose option nodes read back as the module's values changes no value. */
  lemma LoadReadsBack(m: ApolloModule, t: Tree, decode: Decoder, q: OptionDescriptor)
    requires forall o :: o in m.options ==> ReadsBack(t, m, o, decode)
    ensures Get(LoadModule(m, t, decode), q) == Get(m, q)
  {
    LoadModuleGet(m, t, decode, q);
    var read := ReadModuleOption(m, t, q, decode);
    if read.Some? {
      var moduleNode := Subtree(t, [m.name]);
      var node := Subtree(moduleNode, q.path);
      assert q in m.options && Present(moduleNode, q.path) && read.value == decode(q, node).value;
      ReadAtOptionPath(m, t, q);
      PresentIffSubtreeNonEmpty(moduleNode, q.path);
      assert node == Subtree(t, OptionPath(m, q)) && node != map[];
      assert ReadsBack(t, m, q, decode);
    }
  }

  /**
   * Saving a module and loading the result back leaves every option of the
   * module as it was, when writing never throws and reading undoes writing.
   */
  lemma SaveThenLoadModule(t: Tree, m: ApolloModule, encode: Encoder, decode: Decoder, q: OptionDescriptor)
    requires CodecRoundTrip(encode, decode) && WritesAll(m, encode) && PathsApart(m.options)
    ensures Get(LoadModule(m, SaveModule(t, m, encode), decode), q) == Get(m, q)
  {
    var saved := SaveModule(t, m, encode);
    forall o | o in m.options ensures ReadsBack(saved, m, o, decode) {
      var i :| 0 <= i < |m.options| && m.options[i] == o;
      SaveOptionsWrites(t, m, m.options, encode, i);
    }
    LoadReadsBack(m, saved, decode, q);
  }

  // ---------------------------------------------------------------------------
  // Loading, then saving
  // ---------------------------------------------------------------------------

  /** What the load pass reads for a registered option whose node is present. */
  lemma ReadPresentOption(m: ApolloModule, t: Tree, o: OptionDescriptor, decode: Decoder)
    requires o in m.options && Present(t, OptionPath(m, o))
    ensures var node := Subtree(t, OptionPath(m, o));
            ReadModuleOption(m, t, o, decode)
            == if decode(o, node).Success? then Some(decode(o, node).value) else None
  {
    var k :| k in t && OptionPath(m, o) <= k;
    assert [m.name] <= k;
    ReadAtOptionPath(m, t, o);
    PresentIffSubtreeNonEmpty(t, OptionPath(m, o));
    PresentIffSubtreeNonEmpty(Subtree(t, [m.name]), o.path);
  }

  /**
   * A save after a load gives back an option's node when the node decodes and
   * writing the decoded value produces that same node.
   */
  lemma LoadThenSaveKeepsNode(t: Tree, m: ApolloModule, encode: Encoder, decode: Decoder, o: OptionDescriptor)
    requires PathsApart(m.options) && o in m.options && Present(t, OptionPath(m, o))
    requires decode(o, Subtree(t, OptionPath(m, o))).Success?
    requires encode(o, decode(o, Subtree(t, OptionPath(m, o))).value) == Success(Subtree(t, OptionPath(m, o)))
    ensures Subtree(SaveModule(t, LoadModule(m, t, decode), encode), OptionPath(m, o)) == Subtree(t, OptionPath(m, o))
  {
    var loaded := LoadModule(m, t, decode);
    ReadPresentOption(m, t, o, decode);
    LoadModuleGet(m, t, decode, o);
    var i :| 0 <= i < |m.options| && m.options[i] == o;
    SaveOptionsWrites(t, loaded, loaded.options, encode, i);
  }

  /**
   * A node that is present but does not decode is not kept: the load leaves
   * the option's value as it was, and the save then writes that value over
   * the node.
   */
  lemma UndecodableNodeOverwritten(t: Tree, m: ApolloModule, encode: Encoder, decode: Decoder, o: OptionDescriptor)
    requires PathsApart(m.options) && o in m.options && Present(t, OptionPath(m, o))
    requires decode(o, Subtree(t, OptionPath(m, o))).Failure?
    requires encode(o, Get(m, o)).Success?
    ensures Subtree(SaveModule(t, LoadModule(m, t, decode), encode), OptionPath(m, o)) == encode(o, Get(m, o)).value
  {
    var loaded := LoadModule(m, t, decode);
    ReadPresentOption(m, t, o, decode);
    LoadModuleGet(m, t, decode, o);
    var i :| 0 <= i < |m.options| && m.options[i] == o;
    SaveOptionsWrites(t, loaded, loaded.options, encode, i);
  }

  // ---------------------------------------------------------------------------
  // Every module, in iteration order
  // ---------------------------------------------------------------------------

  /** No two modules of the list share a name. */
  predicate NamesDistinct(ms: seq<ApolloModule>) {
    forall i, j :: 0 <= i < |ms| && 0 <= j < |ms| && i != j ==> ms[i].name != ms[j].name
  }

  /** The outer save loop over the modules `ms`, in order: the node of a module not in the list is left alone. */
  function SaveAll(t: Tree, ms: seq<ApolloModule>, encode: Encoder): (r: Tree)
    ensures forall name :: (forall i :: 0 <= i < |ms| ==> ms[i].name != name) ==> Subtree(r, [name]) == Subtree(t, [name])
  {
    if ms == [] then t
    else
      var n := |ms| - 1;
      assert forall i :: 0 <= i < n ==> ms[..n][i] == ms[i];
      SaveModule(SaveAll(t, ms[..n], encode), ms[n], encode)
  }

  /** What the outer save loop reports, in order. */
  function SaveAllFailures(ms: seq<ApolloModule>, encode: Encoder): seq<Diagnostic> {
    if ms == [] then []
    else SaveAllFailures(ms[..|ms| - 1], encode) + SaveFailures(ms[|ms| - 1], ms[|ms| - 1].options, encode)
  }

  /** Saving one more module saves it over what the earlier ones left. */
  lemma SaveAllStep(t: Tree, ms: seq<ApolloModule>, m: ApolloModule, encode: Encoder)
    ensures SaveAll(t, ms + [m], encode) == SaveModule(SaveAll(t, ms, encode), m, encode)
    ensures SaveAllFailures(ms + [m], encode) == SaveAllFailures(ms, encode) + SaveFailures(m, m.options, encode)
  {
    assert (ms + [m])[..|ms|] == ms;
  }

  /**
   * After the outer save loop, each module's node holds, at each option's
   * path, that option's written value, or the node it had if writing threw.
   */
  lemma {:induction false} SaveAllWrites(t: Tree, ms: seq<ApolloModule>, encode: Encoder, i: nat, j: nat)
    requires NamesDistinct(ms) && i < |ms| && PathsApart(ms[i].options) && j < |ms[i].options|
    ensures Subtree(SaveAll(t, ms, encode), OptionPath(ms[i], ms[i].options[j]))
            == SavedAt(t, ms[i], ms[i].options[j], encode)
  {
    var n := |ms| - 1;
    if i == n {
      SaveAllWritesLast(t, ms, encode, j);
    } else {
      assert NamesDistinct(ms[..n]) && ms[..n][i] == ms[i];
      SaveAllWrites(t, ms[..n], encode, i, j);
      SaveAllKeepsEarlier(t, ms, encode, i, ms[i].options[j]);
    }
  }

  /** The last module saved is left holding what it wrote, whatever the earlier ones wrote. */
  lemma SaveAllWritesLast(t: Tree, ms: seq<ApolloModule>, encode: Encoder, j: nat)
    requires NamesDistinct(ms) && ms != [] && PathsApart(ms[|ms| - 1].options) && j < |ms[|ms| - 1].options|
    ensures Subtree(SaveAll(t, ms, encode), OptionPath(ms[|ms| - 1], ms[|ms| - 1].options[j]))
            == SavedAt(t, ms[|ms| - 1], ms[|ms| - 1].options[j], encode)
  {
    var n := |ms| - 1;
    var m, o := ms[n], ms[n].options[j];
    var before := SaveAll(t, ms[..n], encode);
    assert SaveAll(t, ms, encode) == SaveModule(before, m, encode);
    SaveOptionsWrites(before, m, m.options, encode, j);
    if encode(o, Get(m, o)).Failure? {
      var earlier := ms[..n];
      assert forall k :: 0 <= k < |earlier| ==> earlier[k].name != m.name;
      assert Subtree(before, [m.name]) == Subtree(t, [m.name]);
      SameModuleNode(before, t, m, o);
    }
  }

  /** Saving the last module leaves the option nodes of every earlier module as they were. */
  lemma SaveAllKeepsEarlier(t: Tree, ms: seq<ApolloModule>, encode: Encoder, i: nat, o: OptionDescriptor)
    requires NamesDistinct(ms) && i < |ms| - 1
    ensures Subtree(SaveAll(t, ms, encode), OptionPath(ms[i], o))
            == Subtree(SaveAll(t, ms[..|ms| - 1], encode), OptionPath(ms[i], o))
  {
    var n := |ms| - 1;
    var before := SaveAll(t, ms[..n], encode);
    assert SaveAll(t, ms, encode) == SaveModule(before, ms[n], encode);
    assert ms[n].name != ms[i].name;
    assert Subtree(SaveModule(before, ms[n], encode), [ms[i].name]) == Subtree(before, [ms[i].name]);
    SameModuleNode(SaveModule(before, ms[n], encode), before, ms[i], o);
  }

  /** Two trees that agree on a module's node agree on each of its options' nodes. */
  lemma SameModuleNode(t: Tree, u: Tree, m: ApolloModule, o: OptionDescriptor)
    requires Subtree(t, [m.name]) == Subtree(u, [m.name])
    ensures Subtree(t, OptionPath(m, o)) == Subtree(u, OptionPath(m, o))
  {
    ReadAtOptionPath(m, t, o);
    ReadAtOptionPath(m, u, o);
  }

  /**
   * Saving every module and loading the result back leaves every option of
   * every module as it was, when module names are distinct, writing never
   * throws and reading undoes writing.
   */
  lemma SaveThenLoadAll(t: Tree, ms: seq<ApolloModule>, encode: Encoder, decode: Decoder, i: nat, q: OptionDescriptor)
    requires CodecRoundTrip(encode, decode) && NamesDistinct(ms) && i < |ms|
    requires WritesAll(ms[i], encode) && PathsApart(ms[i].options)
    ensures Get(LoadModule(ms[i], SaveAll(t, ms, encode), decode), q) == Get(ms[i], q)
  {
    var saved, m := SaveAll(t, ms, encode), ms[i];
    forall o | o in m.options ensures ReadsBack(saved, m, o, decode) {
      var j :| 0 <= j < |m.options| && m.options[j] == o;
      SaveAllWrites(t, ms, encode, i, j);
    }
    LoadReadsBack(m, saved, decode, q);
  }
}
