/** The chat channel: the room a pair of users talks in, and the link
    between the persisted message history and what is broadcast. */
module Chat {
  import opened Schema
  import opened Text

  function Min(a: int, b: int): int { if a <= b then a else b }
  function Max(a: int, b: int): int { if a <= b then b else a }

  /** `get_chat_room`: `room_<smaller id>_<larger id>`. */
  function RoomName(a: int, b: int): (r: string)
    ensures |r| > 5 && r[..5] == "room_"
  {
    "room_" + IntToDec(Min(a, b)) + "_" + IntToDec(Max(a, b))
  }

  /** A numeral has no underscore in it. */
  lemma NumeralFree(i: int)
    ensures Free(IntToDec(i), '_')
  {
    var s := IntToDec(i);
    forall k | 0 <= k < |s| ensures s[k] != '_' {
      assert s[k] == '-' || '0' <= s[k] <= '9';
    }
  }

  /** The fields of a room name are the prefix and the two numerals. */
  lemma RoomFields(a: int, b: int)
    ensures Split(RoomName(a, b), '_') == ["room", IntToDec(Min(a, b)), IntToDec(Max(a, b))]
  {
    var x, y := IntToDec(Min(a, b)), IntToDec(Max(a, b));
    NumeralFree(Min(a, b));
    NumeralFree(Max(a, b));
    assert RoomName(a, b) == "room" + ['_'] + (x + ['_'] + y);
    SplitAfterSeparator("room", x + ['_'] + y, '_');
    SplitAfterSeparator(x, y, '_');
    SplitFree(y, '_');
  }

  /** Both participants compute the same room, whoever starts, and the room
      name tells which pair it belongs to: two pairs share a room exactly
      when they are the same pair in either order. */
  lemma RoomIdentifiesPair(a: int, b: int, c: int, d: int)
    ensures RoomName(a, b) == RoomName(c, d) <==> (a == c && b == d) || (a == d && b == c)
  {
    if RoomName(a, b) == RoomName(c, d) {
      RoomFields(a, b);
      RoomFields(c, d);
      IntToDecInjective(Min(a, b), Min(c, d));
      IntToDecInjective(Max(a, b), Max(c, d));
    }
  }

  /** The `message` event that sending `m` emits into its room. */
  function Announce(m: Message): Event {
    Broadcast(RoomName(m.senderId, m.receiverId), m.senderId, m.body)
  }

  /** The events each persisted message should have produced, in order. */
  function Announcements(ms: seq<Message>): seq<Event> {
    if ms == [] then [] else [Announce(ms[0])] + Announcements(ms[1..])
  }

  /** There are as many announcements as messages. */
  lemma {:induction false} AnnouncementsLength(ms: seq<Message>)
    ensures |Announcements(ms)| == |ms|
  {
    if ms != [] {
      AnnouncementsLength(ms[1..]);
    }
  }

  /** The `message` events among everything emitted, in emission order. */
  function Deliveries(evs: seq<Event>): seq<Event> {
    if evs == [] then []
    else (if evs[0].Broadcast? then [evs[0]] else []) + Deliveries(evs[1..])
  }

  /** The deliveries are `message` events only, and no more of them than
      events emitted. */
  lemma {:induction false} DeliveriesAreBroadcasts(evs: seq<Event>)
    ensures |Deliveries(evs)| <= |evs|
    ensures forall k :: 0 <= k < |Deliveries(evs)| ==> Deliveries(evs)[k].Broadcast?
  {
    if evs != [] {
      DeliveriesAreBroadcasts(evs[1..]);
    }
  }

  /** Persisting one more message adds exactly its announcement. */
  lemma {:induction false} AnnouncementsAppend(ms: seq<Message>, m: Message)
    ensures Announcements(ms + [m]) == Announcements(ms) + [Announce(m)]
  {
    if ms == [] {
      assert ms + [m] == [m];
    } else {
      assert (ms + [m])[1..] == ms[1..] + [m];
      AnnouncementsAppend(ms[1..], m);
      assert Announcements(ms + [m]) == [Announce(ms[0])] + (Announcements(ms[1..]) + [Announce(m)]);
    }
  }

  /** Emitting one more event adds it to the deliveries exactly when it is a
      `message` event. */
  lemma {:induction false} DeliveriesAppend(evs: seq<Event>, e: Event)
    ensures Deliveries(evs + [e]) == Deliveries(evs) + (if e.Broadcast? then [e] else [])
  {
    if evs == [] {
      assert evs + [e] == [e];
    } else {
      var head := if evs[0].Broadcast? then [evs[0]] else [];
      var tail := if e.Broadcast? then [e] else [];
      assert (evs + [e])[0] == evs[0];
      assert (evs + [e])[1..] == evs[1..] + [e];
      DeliveriesAppend(evs[1..], e);
      assert Deliveries(evs + [e]) == head + (Deliveries(evs[1..]) + tail);
    }
  }
}
