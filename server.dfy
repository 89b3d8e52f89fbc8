/** The relay server of server/index.ts: the mutable `allSockets` registry and
    the handling of each inbound message and of a socket's close event. Sends
    are returned as a list instead of being written to sockets. */
module RelayServer {
  import opened Wrappers
  import opened Registry

  /** An inbound frame after JSON decoding, by its `type` field. */
  datatype Inbound = Join(roomId: Room) | Chat(message: string) | Other

  /** The `forEach` of a chat: walks the registry in order and emits one send
      of `msg` per entry whose room equals `room`. */
  method FanOut(entries: seq<Entry>, room: Room, msg: string) returns (sends: seq<Send>)
    ensures sends == Recipients(entries, room, msg)
  {
    sends := [];
    var i := 0;
    while i < |entries|
      invariant 0 <= i <= |entries|
      invariant sends == Recipients(entries[..i], room, msg)
    {
      RecipientsAppend(entries[..i], [entries[i]], room, msg);
      RecipientsSingle(entries[i], room, msg);
      assert entries[..i + 1] == entries[..i] + [entries[i]];
      if entries[i].room == room {
        sends := sends + [Send(entries[i].socket, msg)];
      }
      i := i + 1;
    }
    assert entries[..i] == entries;
  }

  class Server {
    /** `allSockets`, in insertion order. */
    var entries: seq<Entry>
    /** How many close listeners each socket has: one is added per message. */
    var closeHandlers: multiset<Socket>

    /** Every socket in the registry has a close listener, because the message
        that added its entry also registered one. */
    ghost predicate Valid()
      reads this
    {
      forall e :: e in entries ==> e.socket in closeHandlers
    }

    constructor ()
      ensures Valid()
      ensures entries == [] && closeHandlers == multiset{}
    {
      entries := [];
      closeHandlers := multiset{};
    }

    /** One `message` event on socket `s`. A join appends an entry without any
        duplicate check; a chat leaves the registry alone and returns its sends;
        every message registers one more close listener for `s`. */
    method OnMessage(s: Socket, m: Inbound) returns (sends: seq<Send>)
      requires Valid()
      modifies this
      ensures Valid()
      ensures entries == if m.Join? then old(entries) + [Entry(s, m.roomId)] else old(entries)
      ensures sends == if m.Chat? then Recipients(old(entries), RoomOf(old(entries), s), m.message) else []
      ensures closeHandlers == old(closeHandlers) + multiset{s}
    {
      sends := [];
      if m.Join? {
        entries := entries + [Entry(s, m.roomId)];
      }
      if m.Chat? {
        var room := RoomOf(entries, s);
        sends := FanOut(entries, room, m.message);
      }
      closeHandlers := closeHandlers + multiset{s};
    }

    /** The `close` event of socket `s`: each of its listeners in turn replaces
        the registry by its entries for other sockets. However many listeners
        run, the effect is that of one filter, and `s` has no entry left. */
    method OnClose(s: Socket)
      requires Valid()
      modifies this`entries
      ensures Valid()
      ensures entries == Remove(old(entries), s)
      ensures forall e :: e in entries ==> e.socket != s
    {
      var n := closeHandlers[s];
      var k := 0;
      while k < n
        invariant 0 <= k <= n
        invariant entries == if k == 0 then old(entries) else Remove(old(entries), s)
      {
        RemoveIdempotent(old(entries), s);
        entries := Remove(entries, s);
        k := k + 1;
      }
      if n == 0 {
        assert !HasEntry(entries, s);
        RemoveAbsent(entries, s);
      }
    }
  }
}
