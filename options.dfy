// Option descriptors, option values and the module record that carries them.
//
// An `Option` is declared once as a constant (a path below the module's
// configuration node, a default value and a notify flag); a module registers
// some of them and keeps the current value of each in its `Options`.

module Options {
  import opened Wrappers
  import opened ConfigTree
  import WaypointModule

  /** One entry of the mod-settings list: which mod, whether it is enabled, its properties. */
  datatype ModSettings = ModSettings(target: string, enable: bool, properties: Option<map<string, string>>)

  /** The values the declared options hold. */
  datatype Value =
    | BooleanValue(flag: bool)
    | WaypointList(waypoints: seq<WaypointModule.Waypoint>)
    | ModSettingsList(settings: seq<ModSettings>)

  /** `Option`: where the value lives below the module's node, its default, and `notifyClient`. */
  datatype OptionDescriptor = OptionDescriptor(path: Path, default: Value, notifyClient: bool)

  /**
   * `ApolloModule`: the module's name (its key in the configuration tree), the
   * options it registered, in registration order, the values set so far, and
   * `isClientNotify`.
   */
  datatype ApolloModule = ApolloModule(
    name: string,
    options: seq<OptionDescriptor>,
    values: map<OptionDescriptor, Value>,
    clientNotify: bool)

  /** The configuration path of option `o` of module `m`. */
  function OptionPath(m: ApolloModule, o: OptionDescriptor): (p: Path)
    ensures |p| == |o.path| + 1 && p[0] == m.name && p[1..] == o.path
  {
    [m.name] + o.path
  }

  /** `options.get(o)`: the value set for `o`, or its default while none is. */
  function Get(m: ApolloModule, o: OptionDescriptor): Value {
    if o in m.values then m.values[o] else o.default
  }

  /** `options.set(o, v)`. */
  function Set(m: ApolloModule, o: OptionDescriptor, v: Value): (r: ApolloModule)
    ensures r.name == m.name && r.options == m.options && r.clientNotify == m.clientNotify
  {
    m.(values := m.values[o := v])
  }

  /** A set value is read back, and no other option's value changes. */
  lemma GetAfterSet(m: ApolloModule, o: OptionDescriptor, v: Value, q: OptionDescriptor)
    ensures Get(Set(m, o, v), q) == if q == o then v else Get(m, q)
  {
  }

  /** No option of the list lies on or under another one. */
  predicate PathsApart(opts: seq<OptionDescriptor>) {
    forall i, j :: 0 <= i < |opts| && 0 <= j < |opts| && i != j ==> !Overlaps(opts[i].path, opts[j].path)
  }

  /** Options that lie apart give configuration paths that lie apart. */
  lemma OptionPathsApart(m: ApolloModule, o: OptionDescriptor, q: OptionDescriptor)
    requires !Overlaps(o.path, q.path)
    ensures !Overlaps(OptionPath(m, o), OptionPath(m, q))
  {
    ApartBelow([m.name], o.path, q.path);
  }

  /** Options of modules with different names have configuration paths that lie apart. */
  lemma OtherModulesApart(m: ApolloModule, n: ApolloModule, o: OptionDescriptor, q: OptionDescriptor)
    requires m.name != n.name
    ensures !Overlaps(OptionPath(m, o), OptionPath(n, q))
  {
    ApartAt(OptionPath(m, o), OptionPath(n, q), 0);
  }
}
