/**
 * The waypoint module: the configuration serializer for waypoints, the mapping
 * of a waypoint to its wire message, and the packets sent to a viewer.
 */
module WaypointModule {
  import opened Wrappers
  import opened ConfigTree
  import Messages

  /**
   * A `java.awt.Color` as `getRGB()` gives it, read as an unsigned 32-bit
   * number: alpha in the top byte, then red, green and blue.
   */
  type Argb = c: int | 0 <= c < 0x1_0000_0000

  const RGB_LIMIT: nat := 0x100_0000

  /** The colour `new Color(r, g, b)` builds from the low 24 bits of `c`: fully opaque. */
  function Opaque(c: Argb): (r: Argb)
    ensures r >= 0xFF00_0000
  {
    0xFF00_0000 + c % RGB_LIMIT
  }

  datatype BlockLocation = BlockLocation(world: string, x: Int32, y: Int32, z: Int32)

  datatype Waypoint = Waypoint(name: string, location: BlockLocation, color: Argb,
                               preventRemoval: bool, visible: bool)

  /** A waypoint as it comes back from the configuration: its colour made opaque. */
  function Normalized(w: Waypoint): Waypoint {
    w.(color := Opaque(w.color))
  }

  /** The colour text read when the `color` node holds no string. */
  const DEFAULT_COLOR_TEXT := "#FFFFFF"

  // ---------------------------------------------------------------------------
  // Hexadecimal colour text: `String.format("#%06X", ...)` and `Color.decode`
  // ---------------------------------------------------------------------------

  const HEX_DIGITS := "0123456789ABCDEF"

  function Pow16(n: nat): (r: nat)
    ensures r >= 1
  {
    if n == 0 then 1 else 16 * Pow16(n - 1)
  }

  /** The value of one hexadecimal digit, in either case. */
  function DigitValue(c: char): (r: Option<nat>)
    ensures r.Some? ==> r.value < 16
  {
    if '0' <= c <= '9' then Some(c as int - '0' as int)
    else if 'A' <= c <= 'F' then Some(c as int - 'A' as int + 10)
    else if 'a' <= c <= 'f' then Some(c as int - 'a' as int + 10)
    else None
  }

  /** Every upper-case digit reads back as its own value. */
  lemma DigitOfHex(d: nat)
    requires d < 16
    ensures DigitValue(HEX_DIGITS[d]) == Some(d)
  {
  }

  /** The value of a string of hexadecimal digits; `None` if any character is not one. */
  function HexValue(ds: string): (r: Option<nat>)
    ensures r.Some? ==> r.value < Pow16(|ds|)
  {
    if ds == [] then Some(0)
    else
      match (HexValue(ds[..|ds| - 1]), DigitValue(ds[|ds| - 1]))
      case (Some(high), Some(low)) => Some(high * 16 + low)
      case _ => None
  }

  /** The last `n` hexadecimal digits of `v`, upper case, zero-padded (`%0nX`). */
  function Hex(v: nat, n: nat): (s: string)
    ensures |s| == n
  {
    if n == 0 then "" else Hex(v / 16, n - 1) + [HEX_DIGITS[v % 16]]
  }

  lemma {:induction false} HexRoundTrip(v: nat, n: nat)
    requires v < Pow16(n)
    ensures HexValue(Hex(v, n)) == Some(v)
  {
    if n > 0 {
      HexRoundTrip(v / 16, n - 1);
      var s := Hex(v, n);
      assert s[..|s| - 1] == Hex(v / 16, n - 1);
      DigitOfHex(v % 16);
    }
  }

  /** `String.format("#%06X", 0xFFFFFF & getRGB())`. */
  function FormatColor(c: Argb): (s: string)
    ensures |s| == 7 && s[0] == '#'
  {
    "#" + Hex(c % RGB_LIMIT, 6)
  }

  /** Only upper-case hexadecimal digits are written. */
  lemma {:induction false} HexDigitsUpper(v: nat, n: nat)
    ensures forall i :: 0 <= i < n ==> Hex(v, n)[i] in HEX_DIGITS
  {
    if n > 0 {
      HexDigitsUpper(v / 16, n - 1);
      assert forall i :: 0 <= i < n - 1 ==> Hex(v, n)[i] == Hex(v / 16, n - 1)[i];
    }
  }

  /** The colour text is `#` and exactly six upper-case hexadecimal digits. */
  lemma FormatColorShape(c: Argb)
    ensures |FormatColor(c)| == 7 && FormatColor(c)[0] == '#'
    ensures forall i :: 1 <= i < 7 ==> FormatColor(c)[i] in HEX_DIGITS
  {
    HexDigitsUpper(c % RGB_LIMIT, 6);
    assert forall i :: 1 <= i < 7 ==> FormatColor(c)[i] == Hex(c % RGB_LIMIT, 6)[i - 1];
  }

  datatype DecodeError =
    | MissingField(path: Path)      // `virtualNode`: "Required field ... not found!"
    | NotText(path: Path)           // a name or world that is not a string
    | MalformedColor(text: string)  // `Color.decode` rejects the text

  /**
   * `Color.decode` on `#` followed by hexadecimal digits: `Integer.decode`
   * accepts the digits when their value fits a positive `int`, and the colour
   * keeps the low 24 bits, fully opaque.
   */
  function ParseColor(s: string): (r: Result<Argb, DecodeError>)
    ensures r.Success? ==> r.value >= 0xFF00_0000
    ensures r.Failure? ==> r.error == MalformedColor(s)
    ensures r.Success? <==> |s| >= 2 && s[0] == '#' && HexValue(s[1..]).Some?
                            && HexValue(s[1..]).value < 0x8000_0000
  {
    if |s| >= 2 && s[0] == '#' then
      match HexValue(s[1..])
      case Some(v) => if v < 0x8000_0000 then Success(Opaque(v)) else Failure(MalformedColor(s))
      case None => Failure(MalformedColor(s))
    else Failure(MalformedColor(s))
  }

  /** Six digits written for a 24-bit value parse back to that value, made opaque. */
  lemma ParseSixDigits(rgb: nat)
    requires rgb < RGB_LIMIT
    ensures ParseColor("#" + Hex(rgb, 6)) == Success(Opaque(rgb))
  {
    assert Pow16(6) == RGB_LIMIT;
    HexRoundTrip(rgb, 6);
    assert ("#" + Hex(rgb, 6))[1..] == Hex(rgb, 6);
  }

  /** What `serialize` writes is what `deserialize` reads back, with the alpha made opaque. */
  lemma ColorRoundTrip(c: Argb)
    ensures ParseColor(FormatColor(c)) == Success(Opaque(c))
  {
    var rgb := c % RGB_LIMIT;
    ParseSixDigits(rgb);
    assert Opaque(rgb) == Opaque(c) by {
      assert rgb % RGB_LIMIT == rgb;
    }
  }

  // ---------------------------------------------------------------------------
  // The configuration serializer
  // ---------------------------------------------------------------------------

  const NAME: Path := ["name"]
  const WORLD: Path := ["location", "world"]
  const X: Path := ["location", "x"]
  const Y: Path := ["location", "y"]
  const Z: Path := ["location", "z"]
  const COLOR: Path := ["color"]
  const PREVENT_REMOVAL: Path := ["prevent-removal"]
  const VISIBLE: Path := ["visible"]

  /** The eight leaves of a waypoint, in the order `deserialize` reads them. */
  const FIELDS: seq<Path> := [NAME, WORLD, X, Y, Z, COLOR, PREVENT_REMOVAL, VISIBLE]

  lemma FieldsApart()
    ensures PairwiseApart(FIELDS)
  {
    forall i, j | 0 <= i < |FIELDS| && 0 <= j < |FIELDS| && i != j
      ensures !Overlaps(FIELDS[i], FIELDS[j])
    {
      if FIELDS[i][0] != FIELDS[j][0] {
        ApartAt(FIELDS[i], FIELDS[j], 0);
      } else {
        ApartAt(FIELDS[i], FIELDS[j], 1);
      }
    }
  }

  /**
   * `virtualNode`: the node at `p`, or the error naming `p` when it is virtual.
   * A node is handled by its path; its own value is the scalar stored at that path.
   */
  function VirtualNode(t: Tree, p: Path): (r: Result<Path, DecodeError>)
    ensures r.Success? <==> Present(t, p)
    ensures r.Success? ==> r.value == p
    ensures r.Failure? ==> r.error == MissingField(p)
  {
    if Present(t, p) then Success(p) else Failure(MissingField(p))
  }

  /** `getString()`: the node's own value when it is a string. */
  function GetString(t: Tree, p: Path): Option<string> {
    if p in t && t[p].Str? then Some(t[p].text) else None
  }

  /** `getInt()`: the node's own value when it is an int, otherwise 0. */
  function GetInt(t: Tree, p: Path): Int32 {
    if p in t && t[p].Int? then t[p].number else 0
  }

  /** `getBoolean()`: the node's own value when it is a boolean, otherwise false. */
  function GetBoolean(t: Tree, p: Path): bool {
    p in t && t[p].Bool? && t[p].flag
  }

  /**
   * `getString("#FFFFFF")` followed by `Color.decode`: the colour is opaque,
   * a node holding no string reads as white, and only a string that is not a
   * colour fails, naming that string.
   */
  function DecodeColor(t: Tree, p: Path): (r: Result<Argb, DecodeError>)
    ensures r.Success? ==> r.value >= 0xFF00_0000
    ensures GetString(t, p).None? ==> r == Success(0xFFFF_FFFF)
    ensures r.Failure? ==> GetString(t, p).Some? && r.error == MalformedColor(GetString(t, p).value)
  {
    match GetString(t, p)
    case Some(text) => ParseColor(text)
    case None => DefaultColorIsWhite(); ParseColor(DEFAULT_COLOR_TEXT)
  }

  /** The default colour text is opaque white. */
  lemma DefaultColorIsWhite()
    ensures ParseColor(DEFAULT_COLOR_TEXT) == Success(0xFFFF_FFFF)
  {
    assert FormatColor(0xFFFFFF) == DEFAULT_COLOR_TEXT by {
      assert Hex(0xF, 1) == "F";
      assert Hex(0xFF, 2) == "FF";
      assert Hex(0xFFF, 3) == "FFF";
      assert Hex(0xFFFF, 4) == "FFFF";
      assert Hex(0xFFFFF, 5) == "FFFFF";
      assert Hex(0xFFFFFF, 6) == "FFFFFF";
    }
    ColorRoundTrip(0xFFFFFF);
  }

  function RequireText(s: Option<string>, p: Path): (r: Result<string, DecodeError>)
    ensures r.Success? <==> s.Some?
  {
    match s
    case Some(text) => Success(text)
    case None => Failure(NotText(p))
  }

  /** The location part of `deserialize`: four required nodes. */
  function DeserializeLocation(t: Tree): Result<BlockLocation, DecodeError> {
    var worldNode :- VirtualNode(t, WORLD);
    var xNode :- VirtualNode(t, X);
    var yNode :- VirtualNode(t, Y);
    var zNode :- VirtualNode(t, Z);
    var world :- RequireText(GetString(t, worldNode), WORLD);
    Success(BlockLocation(world, GetInt(t, xNode), GetInt(t, yNode), GetInt(t, zNode)))
  }

  /** `WaypointSerializer.deserialize`: every field is read through `virtualNode`. */
  function Deserialize(t: Tree): (r: Result<Waypoint, DecodeError>)
    ensures r.Success? ==> r.value.color >= 0xFF00_0000
    ensures r.Failure? && r.error.MissingField? ==> !Present(t, r.error.path)
  {
    var nameNode :- VirtualNode(t, NAME);
    var location :- DeserializeLocation(t);
    var colorNode :- VirtualNode(t, COLOR);
    var color :- DecodeColor(t, colorNode);
    var preventRemovalNode :- VirtualNode(t, PREVENT_REMOVAL);
    var visibleNode :- VirtualNode(t, VISIBLE);
    var name :- RequireText(GetString(t, nameNode), NAME);
    Success(Waypoint(name, location, color, GetBoolean(t, preventRemovalNode), GetBoolean(t, visibleNode)))
  }

  /** Every one of the eight fields is required. */
  lemma DeserializeNeedsFields(t: Tree)
    ensures Deserialize(t).Success? ==> forall i :: 0 <= i < |FIELDS| ==> Present(t, FIELDS[i])
  {
  }

  /** Field `i` is the first of the eight that is absent. */
  predicate FirstAbsent(t: Tree, i: nat)
    requires i < |FIELDS|
  {
    !Present(t, FIELDS[i]) && forall j :: 0 <= j < i ==> Present(t, FIELDS[j])
  }

  /** A missing field is reported by the first missing one, in reading order. */
  lemma DeserializeNamesFirstMissing(t: Tree)
    ensures Deserialize(t).Failure? && Deserialize(t).error.MissingField? ==>
              exists i :: 0 <= i < |FIELDS| && Deserialize(t).error.path == FIELDS[i] && FirstAbsent(t, i)
  {
    var r := Deserialize(t);
    if !Present(t, FIELDS[0]) {
      assert r.error.path == FIELDS[0] && FirstAbsent(t, 0);
    } else if DeserializeLocation(t).Failure? {
      LocationNamesFirstMissing(t);
    } else if !Present(t, FIELDS[5]) {
      assert r.error.path == FIELDS[5] && FirstAbsent(t, 5);
    } else if DecodeColor(t, COLOR).Failure? {
    } else if !Present(t, FIELDS[6]) {
      assert r.error.path == FIELDS[6] && FirstAbsent(t, 6);
    } else if !Present(t, FIELDS[7]) {
      assert r.error.path == FIELDS[7] && FirstAbsent(t, 7);
    }
  }

  /** The location's own fields are read in order, after the name. */
  lemma LocationNamesFirstMissing(t: Tree)
    requires Present(t, FIELDS[0])
    ensures DeserializeLocation(t).Failure? && DeserializeLocation(t).error.MissingField? ==>
              exists i :: 1 <= i < 5 && DeserializeLocation(t).error.path == FIELDS[i] && FirstAbsent(t, i)
  {
    var r := DeserializeLocation(t);
    if !Present(t, FIELDS[1]) {
      assert r.error.path == FIELDS[1] && FirstAbsent(t, 1);
    } else if !Present(t, FIELDS[2]) {
      assert r.error.path == FIELDS[2] && FirstAbsent(t, 2);
    } else if !Present(t, FIELDS[3]) {
      assert r.error.path == FIELDS[3] && FirstAbsent(t, 3);
    } else if !Present(t, FIELDS[4]) {
      assert r.error.path == FIELDS[4] && FirstAbsent(t, 4);
    }
  }

  /** A waypoint without a `name` node is rejected, naming `name`. */
  lemma MissingNameNamed(t: Tree)
    requires !Present(t, NAME)
    ensures Deserialize(t) == Failure(MissingField(NAME))
  {
  }

  /** The leaf values `serialize` writes, in the order of `FIELDS`. */
  function Leaves(w: Waypoint): (vs: seq<Scalar>)
    ensures |vs| == |FIELDS|
  {
    [Str(w.name), Str(w.location.world), Int(w.location.x), Int(w.location.y), Int(w.location.z),
     Str(FormatColor(w.color)), Bool(w.preventRemoval), Bool(w.visible)]
  }

  /** Setting the first `n` scalars of `vs` at the first `n` paths of `ps`, one after the other. */
  function WriteLeaves(t: Tree, ps: seq<Path>, vs: seq<Scalar>, n: nat): Tree
    requires n <= |ps| == |vs|
  {
    if n == 0 then t
    else SetLeaf(WriteLeaves(t, ps, vs, n - 1), ps[n - 1], vs[n - 1])
  }

  /** `k` does not lie on, above or below any of the first `n` paths. */
  predicate OffAll(ps: seq<Path>, n: nat, k: Path)
    requires n <= |ps|
  {
    forall i :: 0 <= i < n ==> !Overlaps(ps[i], k)
  }

  /** Writing leaves at paths that lie apart leaves each with its own value. */
  lemma {:induction false} WriteLeavesHolds(t: Tree, ps: seq<Path>, vs: seq<Scalar>, n: nat, i: nat)
    requires n <= |ps| == |vs| && PairwiseApart(ps) && i < n
    ensures ps[i] in WriteLeaves(t, ps, vs, n) && WriteLeaves(t, ps, vs, n)[ps[i]] == vs[i]
  {
    var before := WriteLeaves(t, ps, vs, n - 1);
    if i == n - 1 {
      SetLeafHolds(before, ps[i], vs[i]);
    } else {
      WriteLeavesHolds(t, ps, vs, n - 1, i);
      SetLeafKeeps(before, ps[n - 1], vs[n - 1], ps[i]);
    }
  }

  /** A leaf other than the written ones was there before, off every written path. */
  lemma {:induction false} WriteLeavesOnly(t: Tree, ps: seq<Path>, vs: seq<Scalar>, n: nat, k: Path)
    requires n <= |ps| == |vs| && k in WriteLeaves(t, ps, vs, n)
    requires forall i :: 0 <= i < n ==> ps[i] != k
    ensures k in t && WriteLeaves(t, ps, vs, n)[k] == t[k] && OffAll(ps, n, k)
  {
    if n > 0 {
      SetLeafOnly(WriteLeaves(t, ps, vs, n - 1), ps[n - 1], vs[n - 1], k);
      WriteLeavesOnly(t, ps, vs, n - 1, k);
    }
  }

  /** Writing leaves keeps every leaf that lies off the written paths. */
  lemma {:induction false} WriteLeavesKeeps(t: Tree, ps: seq<Path>, vs: seq<Scalar>, n: nat, k: Path)
    requires n <= |ps| == |vs| && k in t && OffAll(ps, n, k)
    ensures k in WriteLeaves(t, ps, vs, n) && WriteLeaves(t, ps, vs, n)[k] == t[k]
  {
    if n > 0 {
      WriteLeavesKeeps(t, ps, vs, n - 1, k);
      SetLeafKeeps(WriteLeaves(t, ps, vs, n - 1), ps[n - 1], vs[n - 1], k);
    }
  }

  /** The node after `WaypointSerializer.serialize(w)` on a node holding `t`. */
  function Serialized(t: Tree, w: Option<Waypoint>): Tree {
    match w
    case None => map[]
    case Some(w) => Written(t, w)
  }

  /** `WaypointSerializer.serialize`: writes the leaves one by one, or clears the node for null. */
  method Serialize(w: Option<Waypoint>, node: ConfigNode)
    modifies node
    ensures node.leaves == Serialized(old(node.leaves), w)
  {
    if w.None? {
      node.Clear();
      return;
    }
    var waypoint := w.value;
    node.SetScalar(NAME, Str(waypoint.name));
    node.SetScalar(WORLD, Str(waypoint.location.world));
    node.SetScalar(X, Int(waypoint.location.x));
    node.SetScalar(Y, Int(waypoint.location.y));
    node.SetScalar(Z, Int(waypoint.location.z));
    node.SetScalar(COLOR, Str(FormatColor(waypoint.color)));
    node.SetScalar(PREVENT_REMOVAL, Bool(waypoint.preventRemoval));
    node.SetScalar(VISIBLE, Bool(waypoint.visible));
  }

  /** The eight writes of `WaypointSerializer.serialize`, in the order it makes them. */
  function Written(t: Tree, w: Waypoint): Tree {
    var t1 := SetLeaf(t, NAME, Str(w.name));
    var t2 := SetLeaf(t1, WORLD, Str(w.location.world));
    var t3 := SetLeaf(t2, X, Int(w.location.x));
    var t4 := SetLeaf(t3, Y, Int(w.location.y));
    var t5 := SetLeaf(t4, Z, Int(w.location.z));
    var t6 := SetLeaf(t5, COLOR, Str(FormatColor(w.color)));
    var t7 := SetLeaf(t6, PREVENT_REMOVAL, Bool(w.preventRemoval));
    SetLeaf(t7, VISIBLE, Bool(w.visible))
  }

  /** The eight writes are `WriteLeaves` over the fields and the waypoint's leaves. */
  lemma WrittenIsWriteLeaves(t: Tree, w: Waypoint)
    ensures Written(t, w) == WriteLeaves(t, FIELDS, Leaves(w), |FIELDS|)
  {
    WriteEightLeaves(t, FIELDS, Leaves(w));
  }

  /** `WriteLeaves` over eight paths, unfolded. */
  lemma WriteEightLeaves(t: Tree, ps: seq<Path>, vs: seq<Scalar>)
    requires |ps| == 8 == |vs|
    ensures WriteLeaves(t, ps, vs, 8)
            == SetLeaf(SetLeaf(SetLeaf(SetLeaf(SetLeaf(SetLeaf(SetLeaf(SetLeaf(t,
                 ps[0], vs[0]), ps[1], vs[1]), ps[2], vs[2]), ps[3], vs[3]),
                 ps[4], vs[4]), ps[5], vs[5]), ps[6], vs[6]), ps[7], vs[7])
  {
    // Unused: naming the eight intermediate trees makes the solver unfold `WriteLeaves` at each of them.
    var written := [WriteLeaves(t, ps, vs, 0), WriteLeaves(t, ps, vs, 1), WriteLeaves(t, ps, vs, 2),
                    WriteLeaves(t, ps, vs, 3), WriteLeaves(t, ps, vs, 4), WriteLeaves(t, ps, vs, 5),
                    WriteLeaves(t, ps, vs, 6), WriteLeaves(t, ps, vs, 7)];
  }

  /** Serializing null clears the node and writes nothing. */
  lemma SerializeNullClears(t: Tree)
    ensures Serialized(t, None) == map[]
  {
  }

  /**
   * Serializing a waypoint writes exactly the eight leaves, with the waypoint's
   * values; every other leaf that does not lie on or under one of them is kept.
   */
  lemma SerializeWritesLeaves(t: Tree, w: Waypoint)
    ensures var r := Serialized(t, Some(w));
            && (forall i :: 0 <= i < |FIELDS| ==> FIELDS[i] in r && r[FIELDS[i]] == Leaves(w)[i])
            && (forall k :: k in r && k !in FIELDS ==> k in t && r[k] == t[k] && OffAll(FIELDS, |FIELDS|, k))
            && (forall k :: k in t && OffAll(FIELDS, |FIELDS|, k) ==> k in r)
  {
    var r, n := Serialized(t, Some(w)), |FIELDS|;
    WrittenIsWriteLeaves(t, w);
    FieldsApart();
    forall i | 0 <= i < n
      ensures FIELDS[i] in r && r[FIELDS[i]] == Leaves(w)[i]
    {
      WriteLeavesHolds(t, FIELDS, Leaves(w), n, i);
    }
    forall k | k in r && k !in FIELDS
      ensures k in t && r[k] == t[k] && OffAll(FIELDS, n, k)
    {
      WriteLeavesOnly(t, FIELDS, Leaves(w), n, k);
    }
    forall k | k in t && OffAll(FIELDS, n, k)
      ensures k in r
    {
      WriteLeavesKeeps(t, FIELDS, Leaves(w), n, k);
    }
  }

  /** A tree holding the eight leaves of `w` reads back as `w` with its colour made opaque. */
  lemma DeserializeLeaves(r: Tree, w: Waypoint)
    requires forall i :: 0 <= i < |FIELDS| ==> FIELDS[i] in r && r[FIELDS[i]] == Leaves(w)[i]
    ensures Deserialize(r) == Success(Normalized(w))
  {
    var vs := Leaves(w);
    forall i | 0 <= i < |FIELDS|
      ensures Present(r, FIELDS[i])
    {
      assert FIELDS[i] <= FIELDS[i];
    }
    assert FIELDS[0] == NAME && FIELDS[1] == WORLD && FIELDS[2] == X && FIELDS[3] == Y;
    assert FIELDS[4] == Z && FIELDS[5] == COLOR && FIELDS[6] == PREVENT_REMOVAL && FIELDS[7] == VISIBLE;
    assert DeserializeLocation(r) == Success(w.location);
    ColorRoundTrip(w.color);
    assert DecodeColor(r, COLOR) == Success(Opaque(w.color));
  }

  /** Reading back what was written gives the waypoint with its colour made opaque. */
  lemma SerializeRoundTrip(t: Tree, w: Waypoint)
    ensures Deserialize(Serialized(t, Some(w))) == Success(Normalized(w))
  {
    SerializeWritesLeaves(t, w);
    DeserializeLeaves(Serialized(t, Some(w)), w);
  }

  // ---------------------------------------------------------------------------
  // Wire mapping and packets
  // ---------------------------------------------------------------------------

  /** `toProtobuf`: the display message carrying every field of the waypoint. */
  function ToProtobuf(w: Waypoint): (m: Messages.Message)
    ensures m.DisplayWaypoint? && FromProtobuf(m) == Some(w)
  {
    Messages.DisplayWaypoint(w.name,
      Messages.WireLocation(w.location.world, w.location.x, w.location.y, w.location.z),
      w.color, w.preventRemoval, w.visible)
  }

  /** The waypoint a display message describes, when its fields are in range. */
  function FromProtobuf(m: Messages.Message): Option<Waypoint> {
    if m.DisplayWaypoint? && 0 <= m.color < 0x1_0000_0000
       && -0x8000_0000 <= m.location.x < 0x8000_0000
       && -0x8000_0000 <= m.location.y < 0x8000_0000
       && -0x8000_0000 <= m.location.z < 0x8000_0000
    then Some(Waypoint(m.name, BlockLocation(m.location.world, m.location.x, m.location.y, m.location.z),
                       m.color, m.preventRemoval, m.visible))
    else None
  }

  method DisplayWaypoint(viewer: Messages.Player, waypoint: Waypoint)
    modifies viewer
    ensures viewer.outbox == old(viewer.outbox) + [ToProtobuf(waypoint)]
  {
    viewer.SendPacket(ToProtobuf(waypoint));
  }

  /** `removeWaypoint(viewer, String)`. */
  method RemoveWaypoint(viewer: Messages.Player, waypointName: string)
    modifies viewer
    ensures viewer.outbox == old(viewer.outbox) + [Messages.RemoveWaypoint(waypointName)]
  {
    viewer.SendPacket(Messages.RemoveWaypoint(waypointName));
  }

  /** `removeWaypoint(viewer, Waypoint)`: the same packet as removing by its name. */
  method RemoveWaypointOf(viewer: Messages.Player, waypoint: Waypoint)
    modifies viewer
    ensures viewer.outbox == old(viewer.outbox) + [Messages.RemoveWaypoint(waypoint.name)]
  {
    RemoveWaypoint(viewer, waypoint.name);
  }

  method ResetWaypoints(viewer: Messages.Player)
    modifies viewer
    ensures viewer.outbox == old(viewer.outbox) + [Messages.ResetWaypoints]
  {
    viewer.SendPacket(Messages.ResetWaypoints);
  }

  /** The display messages for a list of waypoints, in list order. */
  function DisplayAll(waypoints: seq<Waypoint>): (ms: seq<Messages.Message>)
    ensures |ms| == |waypoints|
    ensures forall i :: 0 <= i < |ms| ==> ms[i] == ToProtobuf(waypoints[i])
  {
    if waypoints == [] then []
    else DisplayAll(waypoints[..|waypoints| - 1]) + [ToProtobuf(waypoints[|waypoints| - 1])]
  }

  /**
   * `onPlayerRegister`: the configured default waypoints (null when `configured`
   * is `None`) are sent to the joining player, one display message each, in order.
   */
  method OnPlayerRegister(player: Messages.Player, configured: Option<seq<Waypoint>>)
    modifies player
    ensures configured.None? ==> player.outbox == old(player.outbox)
    ensures configured.Some? ==> player.outbox == old(player.outbox) + DisplayAll(configured.value)
  {
    if configured.Some? {
      var waypoints := configured.value;
      var i := 0;
      while i < |waypoints|
        invariant 0 <= i <= |waypoints|
        invariant player.outbox == old(player.outbox) + DisplayAll(waypoints[..i])
      {
        assert waypoints[..i + 1][..i] == waypoints[..i];
        player.SendPacket(ToProtobuf(waypoints[i]));
        i := i + 1;
      }
      assert waypoints[..i] == waypoints;
    }
  }
}
