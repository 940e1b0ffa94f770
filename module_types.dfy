// The concrete modules whose options the synchroniser walks: `Waypoints`
// and `ModSettingModule`, as their declared options, defaults and the
// option lists their constructors register.

module ModuleTypes {
  import opened Wrappers
  import opened ConfigTree
  import opened Options
  import opened ConfigSync

  // ---------------------------------------------------------------------------
  // Waypoints
  // ---------------------------------------------------------------------------

  /** `Waypoints.DEFAULT_WAYPOINTS`: declared, but never registered. */
  const DEFAULT_WAYPOINTS: OptionDescriptor := OptionDescriptor(["default-waypoints"], WaypointList([]), false)

  /** `Waypoints.SERVER_HANDLES_WAYPOINTS`: the one option the module registers. */
  const SERVER_HANDLES_WAYPOINTS: OptionDescriptor := OptionDescriptor(["server-handles-waypoints"], BooleanValue(false), true)

  /** A freshly constructed `Waypoints` module: named "Waypoints", registering only `SERVER_HANDLES_WAYPOINTS`. */
  function Waypoints(): (m: ApolloModule)
    ensures m.name == "Waypoints" && m.clientNotify
    ensures m.options == [SERVER_HANDLES_WAYPOINTS] && DEFAULT_WAYPOINTS !in m.options
    ensures Get(m, SERVER_HANDLES_WAYPOINTS) == BooleanValue(false)
  {
    ApolloModule("Waypoints", [SERVER_HANDLES_WAYPOINTS], map[], true)
  }

  /** Any state the `Waypoints` module can be in: its name and its registered options are fixed. */
  predicate IsWaypoints(m: ApolloModule) {
    m.name == Waypoints().name && m.options == Waypoints().options && m.clientNotify
  }

  /** The configuration path of `default-waypoints` below the module's node. */
  const DEFAULT_WAYPOINTS_PATH: Path := ["Waypoints", "default-waypoints"]

  /**
   * Loading never changes `default-waypoints`, because the module never
   * registered it: whatever the tree holds there is not read.
   */
  lemma LoadSkipsDefaultWaypoints(m: ApolloModule, t: Tree, decode: Decoder)
    requires IsWaypoints(m)
    ensures Get(LoadModule(m, t, decode), DEFAULT_WAYPOINTS) == Get(m, DEFAULT_WAYPOINTS)
    ensures IsWaypoints(LoadModule(m, t, decode))
  {
    LoadModuleGet(m, t, decode, DEFAULT_WAYPOINTS);
  }

  /** Saving never writes `default-waypoints`: the node keeps whatever it held. */
  lemma SaveSkipsDefaultWaypoints(m: ApolloModule, t: Tree, encode: Encoder)
    requires IsWaypoints(m)
    ensures Subtree(SaveModule(t, m, encode), DEFAULT_WAYPOINTS_PATH) == Subtree(t, DEFAULT_WAYPOINTS_PATH)
  {
    forall o | o in m.options ensures !Overlaps(OptionPath(m, o), DEFAULT_WAYPOINTS_PATH) {
      ApartAt(OptionPath(m, o), DEFAULT_WAYPOINTS_PATH, 1);
    }
    SaveOptionsElsewhere(t, m, m.options, encode, DEFAULT_WAYPOINTS_PATH);
  }

  /**
   * `server-handles-waypoints` survives a save and a load: when writing a
   * value never throws and reading undoes writing, loading what was saved
   * leaves the option as it was.
   */
  lemma ServerHandlesWaypointsRoundTrip(m: ApolloModule, t: Tree, encode: Encoder, decode: Decoder)
    requires IsWaypoints(m) && CodecRoundTrip(encode, decode)
    requires encode(SERVER_HANDLES_WAYPOINTS, Get(m, SERVER_HANDLES_WAYPOINTS)).Success?
    ensures Get(LoadModule(m, SaveModule(t, m, encode), decode), SERVER_HANDLES_WAYPOINTS) == Get(m, SERVER_HANDLES_WAYPOINTS)
  {
    assert WritesAll(m, encode);
    assert PathsApart(m.options);
    SaveThenLoadModule(t, m, encode, decode, SERVER_HANDLES_WAYPOINTS);
  }

  /** A boolean option's node read as its own scalar, as a `Boolean` type token reads it. */
  function BooleanDecode(o: OptionDescriptor, node: Tree): Result<Value, string> {
    if [] in node && node[[]].Bool? then Success(BooleanValue(node[[]].flag)) else Failure("not a boolean")
  }

  /** A boolean value written as the node's own scalar. */
  function BooleanEncode(o: OptionDescriptor, v: Value): Result<Tree, string> {
    if v.BooleanValue? then Success(map[[] := Bool(v.flag)]) else Failure("not a boolean")
  }

  /**
   * A `server-handles-waypoints` entry that is not a boolean is lost by a load
   * followed by a save: the option keeps its default, which the save writes
   * over the entry.
   */
  lemma MalformedServerHandlesWaypointsReplaced()
    ensures var p := OptionPath(Waypoints(), SERVER_HANDLES_WAYPOINTS);
            var t := map[p := Str("garbage")];
            && Subtree(t, p) == map[[] := Str("garbage")]
            && Subtree(SaveModule(t, LoadModule(Waypoints(), t, BooleanDecode), BooleanEncode), p) == map[[] := Bool(false)]
  {
    var m := Waypoints();
    var p := OptionPath(m, SERVER_HANDLES_WAYPOINTS);
    var t := map[p := Str("garbage")];
    SubtreeAt(t, p);
    assert [] in Subtree(t, p) by {
      assert p + [] == p;
    }
    forall k | k in Subtree(t, p) ensures k == [] {
      assert p + k == p;
    }
    assert Subtree(t, p) == map[[] := Str("garbage")];
    assert p <= p;
    UndecodableNodeOverwritten(t, m, BooleanEncode, BooleanDecode, SERVER_HANDLES_WAYPOINTS);
  }

  // ---------------------------------------------------------------------------
  // Mod settings
  // ---------------------------------------------------------------------------

  /** The platforms a module can run on. */
  datatype PlatformKind = Server | Proxy

  /** `@ModuleDefinition`: the module's id and display name. */
  datatype ModuleDefinition = ModuleDefinition(id: string, name: string)

  const MOD_SETTING_DEFINITION: ModuleDefinition := ModuleDefinition("mod_setting", "Mod Setting")

  /** `ModSettingModule.SKYBLOCK_ADDONS_SETTING`: the one default entry, disabled and without properties. */
  const SKYBLOCK_ADDONS_SETTING: ModSettings := ModSettings("skyblockAddons", false, None)

  /** `ModSettingModule.MOD_SETTINGS`. */
  const MOD_SETTINGS: OptionDescriptor := OptionDescriptor(["settings"], ModSettingsList([SKYBLOCK_ADDONS_SETTING]), true)

  /** A freshly constructed `ModSettingModule`: it registers exactly `MOD_SETTINGS` and notifies the client. */
  function ModSettingModule(): (m: ApolloModule)
    ensures m.name == MOD_SETTING_DEFINITION.name && m.clientNotify
    ensures m.options == [MOD_SETTINGS]
    ensures Get(m, MOD_SETTINGS) == ModSettingsList([ModSettings("skyblockAddons", false, None)])
  {
    ApolloModule(MOD_SETTING_DEFINITION.name, [MOD_SETTINGS], map[], true)
  }

  /** `getSupportedPlatforms`: the server and the proxy, in that order. */
  const SUPPORTED_PLATFORMS: seq<PlatformKind> := [Server, Proxy]

  /** The two concrete modules keep their options under different nodes of the tree. */
  lemma ModulesApart(waypoints: ApolloModule, settings: ApolloModule, o: OptionDescriptor, q: OptionDescriptor)
    requires IsWaypoints(waypoints) && settings.name == ModSettingModule().name
    ensures !Overlaps(OptionPath(waypoints, o), OptionPath(settings, q))
  {
    assert waypoints.name[0] != settings.name[0];
    OtherModulesApart(waypoints, settings, o, q);
  }
}
