# Apollo module framework — a Dafny model

This project models the core of the Apollo server-side module framework:

- **The module registry** (`ApolloModuleManagerImpl`). It is a map from a module's contract type to one module instance. `addModule` admits an instance at most once per key. It runs construct, register on the event bus, enable and record, in that order, and records nothing when a step throws.
- **The configuration synchroniser** (`loadConfiguration` and `saveConfiguration`). It walks every registered module's options against a configuration tree, keyed first by module name and then by the option's path. Load skips a virtual module node and a virtual option node. Both passes swallow and report a failure on one option and carry on.
- **The waypoint module** (`WaypointModuleImpl`). This covers:
  - the configuration serializer for waypoints, with all eight fields required, `#RRGGBB` colours and clearing on null;
  - the mapping of a waypoint to its display message;
  - the single-packet operations;
  - the replay of the configured waypoints to a joining player.
- **The title module** (`TitleModuleImpl`). This covers the title message (its type is the kind's ordinal plus one) and the single-packet sends. A broadcast builds the message once and sends it to every listed player.
- **The concrete option declarations** of `Waypoints` and `ModSettingModule`. These are the descriptors, defaults and registered option lists that the synchroniser is run on.

Modules:

| file | module | contents |
|---|---|---|
| `wrappers.dfy` | `Wrappers` | `Option`, `Result` and `Outcome` |
| `config_tree.dfy` | `ConfigTree` | The configuration tree as a map from paths to scalar leaves. It covers virtual nodes, subtrees, `node(p).set(...)` as a graft, and the mutable `ConfigNode` handed to serializers. |
| `options.dfy` | `Options` | Option descriptors, option values, and the module record holding its registered options and current values |
| `config_sync.dfy` | `ConfigSync` | The load and save passes as folds over options and modules, their diagnostics, and the save-then-load round trip |
| `module_manager.dfy` | `ModuleManager` | The event bus, the admission steps, the `ModuleManagerImpl` class, and the loops of `loadConfiguration` and `saveConfiguration` proved against the folds |
| `messages.dfy` | `Messages` | Wire messages, and a player as the outbox its packets are appended to |
| `waypoint.dfy` | `WaypointModule` | Colour text, the serializer, the wire mapping and the waypoint packets |
| `title.dfy` | `TitleModule` | The title wire mapping, the display and reset sends, and the broadcast |
| `module_types.dfy` | `ModuleTypes` | `Waypoints` and `ModSettingModule` as concrete modules |

Parameters stand in for the collaborators the code calls but does not show:

- the registry is passed the module constructor (`construct`) and the `enable` hook;
- the event bus holds the function that decides whether `register` throws;
- the passes are given `decode` and `encode` for Configurate's typed `get` and `set`;
- they are also given `order`, the iteration order of `modules.values()`;
- a broadcast is given the list of connected players.

Three behaviours of the waypoint serializer shape the model:

- `deserialize` reads every field through `virtualNode`, so `color`, `prevent-removal` and `visible` are required like the other five. None of them is optional with a default.
- A missing `color` node is an error naming `color`. The `#FFFFFF` default applies only to a `color` node that is present but holds no string.
- A colour read back is opaque: `Color.decode` always yields alpha 255. So the round trip gives `0xFF000000` plus the low 24 bits, not the bare low 24 bits.

## Model

Source paths are relative to the repository root.

| member | source | states |
|---|---|---|
| ModuleManager.ModuleManagerImpl.constructor | common/src/main/java/com/moonsworth/apollo/module/ApolloModuleManagerImpl.java:21-24 | A new manager has an empty registry. |
| ModuleManager.ModuleManagerImpl.IsEnabled | common/src/main/java/com/moonsworth/apollo/module/ApolloModuleManagerImpl.java:26-30 | A module is enabled exactly when `getModule` finds one, that is, when the registry has an entry for the key. |
| ModuleManager.ModuleManagerImpl.GetModule | common/src/main/java/com/moonsworth/apollo/module/ApolloModuleManagerImpl.java:32-37 | It finds a module exactly when the key is registered, and then returns that entry. Otherwise the result is empty. |
| ModuleManager.EventBus.Register | common/src/main/java/com/moonsworth/apollo/module/ApolloModuleManagerImpl.java:46 | Registering either throws, as the bus decides, and adds nothing, or appends the module to the listeners. |
| ModuleManager.AdmitNew | common/src/main/java/com/moonsworth/apollo/module/ApolloModuleManagerImpl.java:41-52 | An entry already recorded is never replaced, and no key other than the one admitted is added. |
| ModuleManager.AdmitGiven | common/src/main/java/com/moonsworth/apollo/module/ApolloModuleManagerImpl.java:58-66 | The same frame as `AdmitNew`, for a supplied instance. |
| ModuleManager.ModuleManagerImpl.AddModule | common/src/main/java/com/moonsworth/apollo/module/ApolloModuleManagerImpl.java:39-54 | The new registry and listeners, and the wrapped error if any, are those of the admission steps for a constructed instance. |
| ModuleManager.ModuleManagerImpl.AddModuleInstance | common/src/main/java/com/moonsworth/apollo/module/ApolloModuleManagerImpl.java:56-68 | The same as `AddModule`, for a supplied instance. |
| ModuleManager.ModuleManagerImpl.RegisterAndEnable | common/src/main/java/com/moonsworth/apollo/module/ApolloModuleManagerImpl.java:46-48 | The body of the `computeIfAbsent` mapping function: register, then enable, then record. The first failing step ends it with a wrapped error. |
| ModuleManager.AdmitPresentIsNoOp | common/src/main/java/com/moonsworth/apollo/module/ApolloModuleManagerImpl.java:39-68 | On a key already present, both overloads leave the registry unchanged and construct, register and enable nothing. A supplied instance is ignored. |
| ModuleManager.AdmitNewFollowsLifecycle | common/src/main/java/com/moonsworth/apollo/module/ApolloModuleManagerImpl.java:41-52 | For a fresh key, the steps done are a prefix of construct, register, enable, record. The call succeeds exactly when all four are done. A listener is registered exactly when the register step is done. |
| ModuleManager.AdmitGivenFollowsLifecycle | common/src/main/java/com/moonsworth/apollo/module/ApolloModuleManagerImpl.java:58-66 | The supplied-instance overload does a prefix of register, enable, record. It succeeds exactly when all three are done, and registers exactly the supplied instance. |
| ModuleManager.AdmitRecordsOnlyOnSuccess | common/src/main/java/com/moonsworth/apollo/module/ApolloModuleManagerImpl.java:39-68 | When a step throws, no entry exists for the key and every other entry is unchanged. On success for a fresh key, only that key's entry is added, holding the new instance. |
| ModuleManager.InOrder | common/src/main/java/com/moonsworth/apollo/module/ApolloModuleManagerImpl.java:71 | `modules.values()` in iteration order: one registered module per listed key, position by position. |
| ModuleManager.LoadModuleOptions | common/src/main/java/com/moonsworth/apollo/module/ApolloModuleManagerImpl.java:75-86 | The inner load loop computes the fold `LoadOptions` over the module's options and reports exactly `LoadFailures`. |
| ModuleManager.LoadModuleFrom | common/src/main/java/com/moonsworth/apollo/module/ApolloModuleManagerImpl.java:72-86 | One module's load, including the skip of a virtual module node, equals `LoadModule` with its diagnostics. |
| ModuleManager.LoadEach | common/src/main/java/com/moonsworth/apollo/module/ApolloModuleManagerImpl.java:71-87 | The outer load loop loads each listed module in turn. It reports the failures of every module, in visiting order. |
| ModuleManager.LoadInOrderKeeps | common/src/main/java/com/moonsworth/apollo/module/ApolloModuleManagerImpl.java:71-87 | The load pass keeps the registry's keys and every module's name, options and notify flag. |
| ModuleManager.LoadAll | common/src/main/java/com/moonsworth/apollo/module/ApolloModuleManagerImpl.java:70-88 | Loading every module independently keeps the registry's keys and every module's name, options and notify flag. |
| ModuleManager.LoadInOrderAt | common/src/main/java/com/moonsworth/apollo/module/ApolloModuleManagerImpl.java:71-87 | With each key visited at most once, a visited module ends up loaded from the tree, and an unvisited one is unchanged. |
| ModuleManager.LoadInOrderIsLoadAll | common/src/main/java/com/moonsworth/apollo/module/ApolloModuleManagerImpl.java:71-87 | The registry after the load pass does not depend on iteration order: each module is loaded independently. |
| ModuleManager.SameFailures | common/src/main/java/com/moonsworth/apollo/module/ApolloModuleManagerImpl.java:72-86 | What loading a module reports depends only on its name and options, not on its current values. |
| ModuleManager.ModuleManagerImpl.LoadConfiguration | common/src/main/java/com/moonsworth/apollo/module/ApolloModuleManagerImpl.java:70-88 | Every registered module is replaced by itself loaded from the tree. The diagnostics are every module's failures, in iteration order. |
| ModuleManager.SaveModuleOptions | common/src/main/java/com/moonsworth/apollo/module/ApolloModuleManagerImpl.java:92-104 | The inner save loop leaves the tree as `SaveModule` does and reports the failed writes, in order. |
| ModuleManager.ModuleManagerImpl.SaveConfiguration | common/src/main/java/com/moonsworth/apollo/module/ApolloModuleManagerImpl.java:90-106 | The tree becomes the save of every registered module in iteration order. The diagnostics are every failed write. The registry is unchanged. |
| ModuleManager.SaveThenLoadConfiguration | common/src/main/java/com/moonsworth/apollo/module/ApolloModuleManagerImpl.java:70-106 | Saving the whole registry and loading the result back leaves every option of every module as it was. This holds when module names are distinct, each module's option paths lie apart, every write succeeds, and reading undoes writing. |
| ConfigSync.LoadOptions | common/src/main/java/com/moonsworth/apollo/module/ApolloModuleManagerImpl.java:75-86 | The inner load loop changes only option values, never a module's name, registered options or notify flag. |
| ConfigSync.LoadOptionsGet | common/src/main/java/com/moonsworth/apollo/module/ApolloModuleManagerImpl.java:76-86 | After the loop, a registered option whose node is present and decodes holds the decoded value. Every other option keeps its value: a virtual node, a failed decode, or an unregistered option. |
| ConfigSync.LoadFailuresSound | common/src/main/java/com/moonsworth/apollo/module/ApolloModuleManagerImpl.java:80-85 | Every reported failure names the module and a registered option whose node was present and whose decode failed, with that failure's cause. |
| ConfigSync.LoadFailuresComplete | common/src/main/java/com/moonsworth/apollo/module/ApolloModuleManagerImpl.java:80-85 | Every registered option whose node is present and fails to decode is reported. A failure does not stop the loop. |
| ConfigSync.LoadModule | common/src/main/java/com/moonsworth/apollo/module/ApolloModuleManagerImpl.java:72-73 | Loading one module, virtual module node included, keeps its name, options and notify flag. |
| ConfigSync.LoadModuleGet | common/src/main/java/com/moonsworth/apollo/module/ApolloModuleManagerImpl.java:72-86 | After loading, an option holds what the tree has for it at module name plus option path, if present and decodable. Otherwise it keeps its value, so a virtual module node changes nothing. |
| ConfigSync.LoadModuleIdempotent | common/src/main/java/com/moonsworth/apollo/module/ApolloModuleManagerImpl.java:70-88 | Loading the same tree twice gives every option the value that loading it once gives. |
| ConfigSync.LoadAllFailuresStep | common/src/main/java/com/moonsworth/apollo/module/ApolloModuleManagerImpl.java:71-87 | One module's failures are reported after the earlier modules' failures and do not stop the later modules. |
| ConfigSync.ReadAtOptionPath | common/src/main/java/com/moonsworth/apollo/module/ApolloModuleManagerImpl.java:72-77 | The option's node below the module's node is the node at module name plus option path. |
| ConfigSync.SaveOptionsElsewhere | common/src/main/java/com/moonsworth/apollo/module/ApolloModuleManagerImpl.java:95-104 | The inner save loop changes nothing at a node that lies off every option node it writes. |
| ConfigSync.SaveOptionsWrites | common/src/main/java/com/moonsworth/apollo/module/ApolloModuleManagerImpl.java:95-104 | With option paths apart, each option's node ends up holding the option's current value as written. Where that write failed, the node keeps what it had. A failed write does not stop the others. |
| ConfigSync.SaveModule | common/src/main/java/com/moonsworth/apollo/module/ApolloModuleManagerImpl.java:91-105 | Saving one module leaves every other module's node alone. |
| ConfigSync.SaveAll | common/src/main/java/com/moonsworth/apollo/module/ApolloModuleManagerImpl.java:90-106 | Saving a list of modules leaves alone the node of any module not in the list. |
| ConfigSync.SaveAllWrites | common/src/main/java/com/moonsworth/apollo/module/ApolloModuleManagerImpl.java:90-106 | With distinct module names, after the whole save every option node of every module holds what that module wrote there. A later module never overwrites an earlier one. |
| ConfigSync.LoadReadsBack | common/src/main/java/com/moonsworth/apollo/module/ApolloModuleManagerImpl.java:70-88 | Loading a tree whose option nodes are empty or read back as the current values changes no value. |
| ConfigSync.SaveThenLoadModule | common/src/main/java/com/moonsworth/apollo/module/ApolloModuleManagerImpl.java:70-106 | For one module: if writes succeed, reading undoes writing, and option paths lie apart, then loading what was saved leaves every option as it was. |
| ConfigSync.SaveThenLoadAll | common/src/main/java/com/moonsworth/apollo/module/ApolloModuleManagerImpl.java:70-106 | The same for one module of a list of distinctly named modules, all saved in one pass. |
| ConfigSync.LoadThenSaveKeepsNode | common/src/main/java/com/moonsworth/apollo/module/ApolloModuleManagerImpl.java:70-106 | With option paths apart, a present option node that decodes, and that writing the decoded value reproduces, is left as it was by a load followed by a save. |
| ConfigSync.UndecodableNodeOverwritten | common/src/main/java/com/moonsworth/apollo/module/ApolloModuleManagerImpl.java:80-100 | A present option node that fails to decode keeps the option's old value on load, so the following save overwrites the node with that value. |
| Options.OptionPath | common/src/main/java/com/moonsworth/apollo/module/ApolloModuleManagerImpl.java:72-77 | An option lives in the tree at the module's name followed by the option's own path. |
| Options.Set | common/src/main/java/com/moonsworth/apollo/module/ApolloModuleManagerImpl.java:82 | `options.set` changes a value only, never the module's name, registered options or notify flag. |
| Options.GetAfterSet | common/src/main/java/com/moonsworth/apollo/module/ApolloModuleManagerImpl.java:82 | A value set is read back, and every other option keeps its value. |
| ConfigTree.PresentIffSubtreeNonEmpty | common/src/main/java/com/moonsworth/apollo/module/ApolloModuleManagerImpl.java:73 | A node is non-virtual exactly when it has a leaf at or below it. |
| ConfigTree.ConfigNode.Set | common/src/main/java/com/moonsworth/apollo/module/ApolloModuleManagerImpl.java:100 | `node(p).set(value)` replaces the node at `p` by the written subtree and keeps every leaf off `p`. |
| ConfigTree.ConfigNode.SetScalar | common/src/main/java/com/lunarclient/apollo/module/waypoint/WaypointModuleImpl.java:108-115 | Setting a scalar leaf replaces the node at its path by that leaf. |
| ConfigTree.ConfigNode.Clear | common/src/main/java/com/lunarclient/apollo/module/waypoint/WaypointModuleImpl.java:104 | `raw(null)` leaves the node without a value or children. |
| Messages.Player.SendPacket | common/src/main/java/com/lunarclient/apollo/module/title/TitleModuleImpl.java:21 | Sending appends exactly that message to the player's outbox. |
| TitleModule.ToProtobuf | common/src/main/java/com/lunarclient/apollo/module/title/TitleModuleImpl.java:38-47 | The message is a display-title message whose type is never the unspecified 0. It carries the title back, so no field is lost. |
| TitleModule.FromProtobufInverse | common/src/main/java/com/lunarclient/apollo/module/title/TitleModuleImpl.java:38-47 | Every display-title message with a specified type is the wire form of the title it describes. |
| TitleModule.ToProtobufInjective | common/src/main/java/com/lunarclient/apollo/module/title/TitleModuleImpl.java:38-47 | Different titles give different messages. |
| TitleModule.DisplayTitle | common/src/main/java/com/lunarclient/apollo/module/title/TitleModuleImpl.java:19-22 | Exactly one display message is appended to the viewer, and to no one else. |
| TitleModule.ResetTitles | common/src/main/java/com/lunarclient/apollo/module/title/TitleModuleImpl.java:33-36 | Exactly the shared reset message is appended to the viewer. |
| TitleModule.BroadcastTitle | common/src/main/java/com/lunarclient/apollo/module/title/TitleModuleImpl.java:24-31 | Each listed player receives the same message once per listing, and nothing else. A player not in the list is not modified. |
| TitleModule.BroadcastReachesEachOnce | common/src/main/java/com/lunarclient/apollo/module/title/TitleModuleImpl.java:28-30 | In a player list without repeats, every listed player receives the message exactly once. |
| WaypointModule.Opaque | common/src/main/java/com/lunarclient/apollo/module/waypoint/WaypointModuleImpl.java:95 | A colour rebuilt from its RGB text has alpha 255. |
| WaypointModule.HexRoundTrip | common/src/main/java/com/lunarclient/apollo/module/waypoint/WaypointModuleImpl.java:113 | `n` hexadecimal digits of a value below 16^n parse back to that value. |
| WaypointModule.HexDigitsUpper | common/src/main/java/com/lunarclient/apollo/module/waypoint/WaypointModuleImpl.java:113 | `%X` writes only upper-case hexadecimal digits. |
| WaypointModule.FormatColorShape | common/src/main/java/com/lunarclient/apollo/module/waypoint/WaypointModuleImpl.java:113 | A colour is written as `#` and exactly six upper-case hexadecimal digits, whatever its alpha. |
| WaypointModule.ParseColor | common/src/main/java/com/lunarclient/apollo/module/waypoint/WaypointModuleImpl.java:95 | `Color.decode` of `#` plus hex text succeeds exactly when the digits are valid and fit a signed int. The colour is then opaque. Otherwise the error names the text. |
| WaypointModule.ColorRoundTrip | common/src/main/java/com/lunarclient/apollo/module/waypoint/WaypointModuleImpl.java:95-113 | Decoding the colour text `serialize` writes gives the colour's low 24 bits with alpha 255. |
| WaypointModule.FieldsApart | common/src/main/java/com/lunarclient/apollo/module/waypoint/WaypointModuleImpl.java:108-115 | None of the eight leaves lies on or below another, so no write disturbs another. |
| WaypointModule.VirtualNode | common/src/main/java/com/lunarclient/apollo/module/waypoint/WaypointModuleImpl.java:118-121 | Succeeds exactly when the node is present. Otherwise it fails with the error naming the path. |
| WaypointModule.DefaultColorIsWhite | common/src/main/java/com/lunarclient/apollo/module/waypoint/WaypointModuleImpl.java:95 | The default text `#FFFFFF` decodes to opaque white. |
| WaypointModule.DecodeColor | common/src/main/java/com/lunarclient/apollo/module/waypoint/WaypointModuleImpl.java:95 | A decoded colour is opaque. A `color` node holding no string gives opaque white. A failure names the string that did not decode. |
| WaypointModule.FormatColor | common/src/main/java/com/lunarclient/apollo/module/waypoint/WaypointModuleImpl.java:113 | The colour text is seven characters and starts with `#`. |
| WaypointModule.Deserialize | common/src/main/java/com/lunarclient/apollo/module/waypoint/WaypointModuleImpl.java:85-99 | A decoded waypoint's colour is opaque. A missing-field error names a path at which the node is absent. |
| WaypointModule.DeserializeNeedsFields | common/src/main/java/com/lunarclient/apollo/module/waypoint/WaypointModuleImpl.java:86-97 | A waypoint decodes only when all eight fields are present, `color`, `prevent-removal` and `visible` included. |
| WaypointModule.DeserializeNamesFirstMissing | common/src/main/java/com/lunarclient/apollo/module/waypoint/WaypointModuleImpl.java:85-99 | A missing-field error names a field that is absent, and every field read before it is present. |
| WaypointModule.LocationNamesFirstMissing | common/src/main/java/com/lunarclient/apollo/module/waypoint/WaypointModuleImpl.java:88-94 | Within the location, the error names the first absent of world, x, y and z. |
| WaypointModule.MissingNameNamed | common/src/main/java/com/lunarclient/apollo/module/waypoint/WaypointModuleImpl.java:87 | A tree without `name` fails naming `name`. |
| WaypointModule.Serialize | common/src/main/java/com/lunarclient/apollo/module/waypoint/WaypointModuleImpl.java:101-116 | The node becomes empty for null. Otherwise it is the old node with the eight leaves written one after the other. |
| WaypointModule.SerializeNullClears | common/src/main/java/com/lunarclient/apollo/module/waypoint/WaypointModuleImpl.java:103-106 | Serializing null leaves the node empty. |
| WaypointModule.SerializeWritesLeaves | common/src/main/java/com/lunarclient/apollo/module/waypoint/WaypointModuleImpl.java:108-115 | Each of the eight paths holds its field's value verbatim, the colour as `#RRGGBB`. Every other leaf was there before and lies off those paths, and every such old leaf survives. |
| WaypointModule.DeserializeLeaves | common/src/main/java/com/lunarclient/apollo/module/waypoint/WaypointModuleImpl.java:85-99 | A node holding a waypoint's eight leaves reads back as that waypoint with its colour made opaque. |
| WaypointModule.SerializeRoundTrip | common/src/main/java/com/lunarclient/apollo/module/waypoint/WaypointModuleImpl.java:85-116 | Deserializing what `serialize` wrote gives the waypoint back, with the colour's low 24 bits and alpha 255. |
| WaypointModule.ToProtobuf | common/src/main/java/com/lunarclient/apollo/module/waypoint/WaypointModuleImpl.java:73-81 | The display message carries the name, location, colour, prevent-removal and visible flags: the waypoint reads back from it. |
| WaypointModule.DisplayWaypoint | common/src/main/java/com/lunarclient/apollo/module/waypoint/WaypointModuleImpl.java:40-43 | Exactly the waypoint's display message is appended to the viewer. |
| WaypointModule.RemoveWaypoint | common/src/main/java/com/lunarclient/apollo/module/waypoint/WaypointModuleImpl.java:45-50 | Exactly one remove message carrying the name is appended to the viewer. |
| WaypointModule.RemoveWaypointOf | common/src/main/java/com/lunarclient/apollo/module/waypoint/WaypointModuleImpl.java:52-55 | Removing by waypoint sends the same message as removing by its name. |
| WaypointModule.ResetWaypoints | common/src/main/java/com/lunarclient/apollo/module/waypoint/WaypointModuleImpl.java:57-60 | Exactly the shared reset message is appended to the viewer. |
| WaypointModule.DisplayAll | common/src/main/java/com/lunarclient/apollo/module/waypoint/WaypointModuleImpl.java:67-69 | One display message per waypoint, in list order. |
| WaypointModule.OnPlayerRegister | common/src/main/java/com/lunarclient/apollo/module/waypoint/WaypointModuleImpl.java:62-71 | A null list sends nothing. Otherwise the joining player receives one display message per configured waypoint, in list order, and no one else receives anything. |
| ModuleTypes.Waypoints | api/src/main/java/com/moonsworth/apollo/module/type/Waypoints.java:45-59 | The module is named "Waypoints" and notifies the client. It registers only `server-handles-waypoints` (default false, notify set), never `default-waypoints`. |
| ModuleTypes.LoadSkipsDefaultWaypoints | api/src/main/java/com/moonsworth/apollo/module/type/Waypoints.java:35-53 | Loading never changes `default-waypoints`, whatever the tree holds, and keeps the module a `Waypoints`. |
| ModuleTypes.SaveSkipsDefaultWaypoints | api/src/main/java/com/moonsworth/apollo/module/type/Waypoints.java:35-53 | Saving never writes below `Waypoints/default-waypoints`. |
| ModuleTypes.ServerHandlesWaypointsRoundTrip | api/src/main/java/com/moonsworth/apollo/module/type/Waypoints.java:45-53 | `server-handles-waypoints` survives a save followed by a load. |
| ModuleTypes.MalformedServerHandlesWaypointsReplaced | api/src/main/java/com/moonsworth/apollo/module/type/Waypoints.java:45-53 | A `server-handles-waypoints` node holding a string instead of a boolean is replaced by `false`, the option's default, when the configuration is loaded and then saved. |
| ModuleTypes.ModSettingModule | api/src/main/java/com/lunarclient/apollo/module/modsetting/ModSettingModule.java:23-56 | The module is named "Mod Setting" and notifies the client. It registers exactly `settings`, whose default is the single disabled `skyblockAddons` entry without properties. |
| ModuleTypes.ModulesApart | api/src/main/java/com/moonsworth/apollo/module/type/Waypoints.java:50-54 | The options of `Waypoints` and of `ModSettingModule` live under different nodes, so neither module's save touches the other's. |

`ModSettingModule.getSupportedPlatforms` is the constant `ModuleTypes.SUPPORTED_PLATFORMS` (`[Server, Proxy]`, in that order). `isClientNotify` of both modules is the `clientNotify` field their constructors set.

## Left out

- Reflective construction (`getDeclaredConstructor`, `setAccessible`, `newInstance`) is the `construct` parameter. It returns the instance or the reason it threw.
- The registry's `IdentityHashMap` and module identity are modelled with values. A module is a value, so aliasing between the registry and the event bus is not modelled.
- `EventBus.getBus()` is an `EventBus` object passed in. `Apollo.getPlayerManager().getPlayers()` is the `players` list passed to `BroadcastTitle`.
- ModuleManager.ModuleManagerImpl.LoadConfiguration and ModuleManager.ModuleManagerImpl.SaveConfiguration: the iteration order of `modules.values()` is the `order` parameter, which must list every key once. The map's own order is not modelled.
- Configurate is modelled only as far as the code uses it. Typed `get` and `set` are the `decode` and `encode` parameters. Comments, `TypeToken`s, and empty map or list nodes (which a map of leaves cannot hold) are left out.
- ConfigSync.SaveOptionsWrites: a `set` that throws is taken to leave its node unchanged. A partial write before the throw is not modelled.
- ConfigSync.LoadThenSaveKeepsNode: a load followed by a save keeps an option's node only when the node decodes and writing the decoded value gives the same node back. A present node that fails to decode is overwritten with the option's in-memory value (`ConfigSync.UndecodableNodeOverwritten`, `ModuleTypes.MalformedServerHandlesWaypointsReplaced`). This is what the code does: the failed `get` is only printed, and `saveConfiguration` then writes every registered option.
- The `optionNode == null` test in `saveConfiguration` can never be true, because `node(...)` always returns a node. The model has no branch for it.
- printStackTrace is the returned diagnostics list.
- requireNonNull checks and `@NonNull` parameters: Dafny values are never null. A possibly-null value (a serialized waypoint, a configured waypoint list) is an `Option`.
- WaypointModule.Deserialize: a present node holding no string, which would hand `null` to a builder, is reported as `NotText`. For `world` this happens when the location is built (`WaypointModuleImpl.java:93`), after `x`, `y` and `z` are read and before `color` is read. For `name` it happens when the waypoint is built, after all eight fields are read. The builders that would receive `null` are not part of this model; the model places each failure at the `build()` call that consumes the field.
- WaypointModule.ParseColor models only `#` followed by hex digits. The rest of `Color.decode`/`Integer.decode` is not modelled: `0x`, octal and signs.
- WaypointModule.GetInt and `WaypointModule.GetBoolean` return 0 and false for a node of another type. Configurate's conversion between strings and numbers is not modelled.
- Protobuf builders, `sendPacket` and `NetworkTypes.toProtobuf` are not modelled. Messages are a datatype, and sending appends to the player's outbox.
- TitleModule.ToProtobuf: the title text, `scale` (a float) and the three durations are copied unchanged as opaque values. The title kind is its ordinal as a `nat`; the range `TitleType.forNumber` accepts is not modelled.
- Concurrency: nothing in the code synchronises, and the model is sequential.
- `Waypoints.SPAWN_WAYPOINT` is unused by the code and is not modelled.
- The abstract methods of `Waypoints` (`addWaypoint`, `removeWaypoint`, `clearWaypoints`) and of `ModSettingModule` (`sendSettings`, `resetSettings`, `broadcastSettings`) have no body, so there is nothing to model. `Waypoints` belongs to an older package generation and is not wired to `WaypointModuleImpl`.
- ModuleTypes.ModSettingModule: the constructor passes no name, and `ApolloModule` is not part of this model. The module's name is taken to be the `name` of its `@ModuleDefinition`.
- ModuleTypes.PlatformKind has only the two platform kinds the code names.
- The per-player option lookup in `onPlayerRegister` (`getOptions().get(player, ...)`) is the `configured` parameter of `WaypointModule.OnPlayerRegister`.
- The module's constructor, with its serializer and event-handler registration, is not modelled: it only wires callbacks.
