/**
 * Wire messages and their delivery.  Every message kind is an immutable value;
 * a connected player is modelled by the outbox its messages are appended to,
 * in the order they are sent.
 */
module Messages {

  /** A block location as it appears on the wire. */
  datatype WireLocation = WireLocation(world: string, x: int, y: int, z: int)

  datatype Message =
    | DisplayTitle(titleType: nat, text: string, scale: real,
                   fadeInTime: nat, displayTime: nat, fadeOutTime: nat)
    | ResetTitles
    | DisplayWaypoint(name: string, location: WireLocation, color: int,
                      preventRemoval: bool, visible: bool)
    | RemoveWaypoint(waypointName: string)
    | ResetWaypoints

  /** A connected player; `SendPacket` appends to its outbox. */
  class Player {
    var outbox: seq<Message>

    constructor ()
      ensures outbox == []
    {
      outbox := [];
    }

    method SendPacket(m: Message)
      modifies this
      ensures outbox == old(outbox) + [m]
    {
      outbox := outbox + [m];
    }
  }

  /** How many times `p` occurs in `players`. */
  function Occurrences(players: seq<Player>, p: Player): (n: nat)
    ensures n <= |players|
    ensures n == 0 <==> p !in players
  {
    if players == [] then 0
    else Occurrences(players[..|players| - 1], p) + (if players[|players| - 1] == p then 1 else 0)
  }

  /** `n` copies of `m`. */
  function Copies(m: Message, n: nat): (s: seq<Message>)
    ensures |s| == n
    ensures forall i :: 0 <= i < n ==> s[i] == m
  {
    if n == 0 then [] else Copies(m, n - 1) + [m]
  }

  /** In a list without repetitions, every listed player occurs exactly once. */
  lemma {:induction false} OccursOnce(players: seq<Player>, i: nat)
    requires forall a, b :: 0 <= a < b < |players| ==> players[a] != players[b]
    requires i < |players|
    ensures Occurrences(players, players[i]) == 1
  {
    var init := players[..|players| - 1];
    if i == |players| - 1 {
      assert players[i] !in init;
    } else {
      assert init[i] == players[i];
      OccursOnce(init, i);
    }
  }
}
