// `TitleModuleImpl`: titles shown on a player's screen, and their wire form.

module TitleModule {
  import opened Wrappers
  import opened Messages

  /**
   * A title: the ordinal of its kind, its text, its scale and its three
   * timings. Text, scale and timings are carried through unchanged, so
   * they are kept as opaque values.
   */
  datatype Title = Title(kind: nat, message: string, scale: real, fadeInTime: nat, displayTime: nat, fadeOutTime: nat)

  /**
   * `toProtobuf`: the wire title type is the kind's ordinal plus one (zero is
   * left for an unspecified type); every other field is copied.
   */
  function ToProtobuf(title: Title): (m: Message)
    ensures m.DisplayTitle? && m.titleType > 0
    ensures FromProtobuf(m) == Some(title)
  {
    Messages.DisplayTitle(title.kind + 1, title.message, title.scale, title.fadeInTime, title.displayTime, title.fadeOutTime)
  }

  /** The title a display message describes; the unspecified type zero describes none. */
  function FromProtobuf(m: Message): Option<Title> {
    if m.DisplayTitle? && m.titleType > 0 then
      Some(Title(m.titleType - 1, m.text, m.scale, m.fadeInTime, m.displayTime, m.fadeOutTime))
    else None
  }

  /** Every message that describes a title is that title's wire form: `ToProtobuf` is onto the display messages with a type. */
  lemma FromProtobufInverse(m: Message, title: Title)
    requires FromProtobuf(m) == Some(title)
    ensures ToProtobuf(title) == m
  {
  }

  /** Different titles have different wire forms. */
  lemma ToProtobufInjective(a: Title, b: Title)
    requires ToProtobuf(a) == ToProtobuf(b)
    ensures a == b
  {
    assert FromProtobuf(ToProtobuf(a)) == Some(a);
  }

  /** `displayTitle`: one display message to the viewer. */
  method DisplayTitle(viewer: Player, title: Title)
    modifies viewer
    ensures viewer.outbox == old(viewer.outbox) + [ToProtobuf(title)]
  {
    viewer.SendPacket(ToProtobuf(title));
  }

  /** `resetTitles`: the shared reset message to the viewer. */
  method ResetTitles(viewer: Player)
    modifies viewer
    ensures viewer.outbox == old(viewer.outbox) + [Messages.ResetTitles]
  {
    viewer.SendPacket(Messages.ResetTitles);
  }

  /**
   * `broadcastTitle`: the message is built once and sent to each player of
   * the list in turn; a player listed `n` times receives it `n` times, and
   * nobody outside the list receives anything.
   */
  method BroadcastTitle(players: seq<Player>, title: Title)
    modifies set p | p in players
    ensures forall p :: p in players ==> p.outbox == old(p.outbox) + Copies(ToProtobuf(title), Occurrences(players, p))
  {
    var message := ToProtobuf(title);
    for i := 0 to |players|
      invariant forall p :: p in players ==> p.outbox == old(p.outbox) + Copies(message, Occurrences(players[..i], p))
    {
      label sent:
      players[i].SendPacket(message);
      forall p | p in players
        ensures p.outbox == old(p.outbox) + Copies(message, Occurrences(players[..i + 1], p))
      {
        OccurrencesStep(players, i, p);
        if p == players[i] {
          assert p.outbox == old@sent(p.outbox) + [message];
        } else {
          assert p.outbox == old@sent(p.outbox);
        }
      }
    }
    assert players[..|players|] == players;
  }

  /** One more player of the list adds one occurrence of that player only. */
  lemma OccurrencesStep(players: seq<Player>, i: nat, p: Player)
    requires i < |players|
    ensures Occurrences(players[..i + 1], p) == Occurrences(players[..i], p) + if players[i] == p then 1 else 0
  {
    assert players[..i + 1][..i] == players[..i];
  }

  /**
   * When no player is listed twice, a broadcast delivers the message to each
   * listed player exactly once.
   */
  lemma BroadcastReachesEachOnce(players: seq<Player>, title: Title, i: nat)
    requires forall a, b :: 0 <= a < b < |players| ==> players[a] != players[b]
    requires i < |players|
    ensures Copies(ToProtobuf(title), Occurrences(players, players[i])) == [ToProtobuf(title)]
  {
    OccursOnce(players, i);
  }
}
