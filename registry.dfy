/** The room-membership registry of the relay server (`allSockets` in
    server/index.ts) as values: the list of (socket, room) entries, the lookup
    of a sender's room, the fan-out of a chat message and the removal of a
    closed socket, together with the properties they have. */
module Registry {
  import opened Wrappers

  /** A connection, identified opaquely. */
  type Socket = nat

  /** A room id as carried by a join payload; `None` is `undefined` (or `null`,
      which JavaScript's `==` treats as equal to it). */
  type Room = Option<string>

  /** One element of `allSockets`. */
  datatype Entry = Entry(socket: Socket, room: Room)

  /** One `socket.send(text)` performed by the server. */
  datatype Send = Send(to: Socket, text: string)

  /** True when the registry holds at least one entry for socket `s`. */
  predicate HasEntry(entries: seq<Entry>, s: Socket) {
    exists e :: e in entries && e.socket == s
  }

  /** Position of the first entry whose socket is `s`, as `Array.prototype.find`
      scans for it; `None` when there is no such entry. */
  function FirstIndex(entries: seq<Entry>, s: Socket): (r: Option<nat>)
    ensures r.None? <==> forall i :: 0 <= i < |entries| ==> entries[i].socket != s
    ensures r.Some? ==> r.value < |entries| && entries[r.value].socket == s
    ensures r.Some? ==> forall j :: 0 <= j < r.value ==> entries[j].socket != s
  {
    if |entries| == 0 then None
    else if entries[0].socket == s then Some(0)
    else match FirstIndex(entries[1..], s)
      case None => None
      case Some(i) => Some(i + 1)
  }

  /** The room a chat from `s` is sent to: the room of the first entry for `s`,
      or `undefined` when `s` has no entry. */
  function RoomOf(entries: seq<Entry>, s: Socket): (r: Room)
    ensures !HasEntry(entries, s) ==> r.None?
    ensures forall i :: (0 <= i < |entries| && entries[i].socket == s
              && forall j :: 0 <= j < i ==> entries[j].socket != s) ==> r == entries[i].room
  {
    match FirstIndex(entries, s)
    case None => None
    case Some(i) => entries[i].room
  }

  /** The sends a chat performs: one per entry whose room equals `room`, in
      registry order, each carrying `msg` unchanged. */
  function Recipients(entries: seq<Entry>, room: Room, msg: string): (r: seq<Send>)
    ensures |r| <= |entries|
    ensures forall k :: 0 <= k < |r| ==> r[k].text == msg && Entry(r[k].to, room) in entries
  {
    if |entries| == 0 then []
    else
      (if entries[0].room == room then [Send(entries[0].socket, msg)] else [])
      + Recipients(entries[1..], room, msg)
  }

  /** The registry after `s` closes: every entry of another socket, in order. */
  function Remove(entries: seq<Entry>, s: Socket): (r: seq<Entry>)
    ensures |r| <= |entries|
    ensures forall e :: e in r <==> e in entries && e.socket != s
  {
    if |entries| == 0 then []
    else
      (if entries[0].socket != s then [entries[0]] else [])
      + Remove(entries[1..], s)
  }

  // ---------------------------------------------------------------------------
  // Room lookup

  /** A join by `t` never moves a socket that already has an entry: its room
      stays the room of its first entry. A socket without an entry gets the
      joined room only if it is the joiner. */
  lemma {:induction false} RoomOfAfterJoin(entries: seq<Entry>, s: Socket, t: Socket, room: Room)
    ensures RoomOf(entries + [Entry(t, room)], s)
         == if HasEntry(entries, s) then RoomOf(entries, s)
            else if s == t then room else None
  {
    var joined := entries + [Entry(t, room)];
    if HasEntry(entries, s) {
      var e :| e in entries && e.socket == s;
      var i := FirstIndex(entries, s);
      assert i.Some?;
      assert joined[i.value] == entries[i.value];
      assert forall j :: 0 <= j < i.value ==> joined[j] == entries[j];
    } else {
      assert forall j :: 0 <= j < |entries| ==> joined[j] == entries[j] && entries[j] in entries;
      if s == t {
        assert joined[|entries|] == Entry(t, room);
      } else {
        assert !HasEntry(joined, s) by {
          forall e | e in joined ensures e.socket != s {
            if e !in entries { assert e == Entry(t, room); }
          }
        }
      }
    }
  }

  // ---------------------------------------------------------------------------
  // Chat fan-out

  /** Fan-out distributes over concatenation: the sends for `a + b` are the
      sends for `a` followed by the sends for `b`. With the one-entry case this
      fixes the order of the sends to registry order. */
  lemma {:induction false} RecipientsAppend(a: seq<Entry>, b: seq<Entry>, room: Room, msg: string)
    ensures Recipients(a + b, room, msg) == Recipients(a, room, msg) + Recipients(b, room, msg)
  {
    if |a| == 0 {
      assert a + b == b;
    } else {
      assert (a + b)[1..] == a[1..] + b;
      RecipientsAppend(a[1..], b, room, msg);
    }
  }

  /** A single entry yields a send exactly when it is in the target room. */
  lemma RecipientsSingle(e: Entry, room: Room, msg: string)
    ensures Recipients([e], room, msg) == if e.room == room then [Send(e.socket, msg)] else []
  {
  }

  /** Each socket is sent the message exactly as many times as it has entries in
      the target room: once per matching entry, twice after a double join. */
  lemma {:induction false} RecipientsMultiplicity(entries: seq<Entry>, room: Room, msg: string, s: Socket)
    ensures multiset(Recipients(entries, room, msg))[Send(s, msg)] == multiset(entries)[Entry(s, room)]
  {
    if |entries| > 0 {
      RecipientsMultiplicity(entries[1..], room, msg, s);
      assert entries == [entries[0]] + entries[1..];
      assert multiset(entries) == multiset{entries[0]} + multiset(entries[1..]);
    }
  }

  /** A sender that has joined is among the recipients of its own chat. */
  lemma SenderReceivesOwnChat(entries: seq<Entry>, s: Socket, msg: string)
    requires HasEntry(entries, s)
    ensures Send(s, msg) in Recipients(entries, RoomOf(entries, s), msg)
  {
    var i := FirstIndex(entries, s).value;
    assert entries[i] == Entry(s, RoomOf(entries, s));
    assert entries[i] in multiset(entries);
    RecipientsMultiplicity(entries, RoomOf(entries, s), msg, s);
  }

  /** A chat from a socket that never joined goes to room `undefined`: only
      entries whose room is undefined receive it, so when every entry has a
      room nobody does. */
  lemma UnjoinedSenderChat(entries: seq<Entry>, s: Socket, msg: string)
    requires !HasEntry(entries, s)
    ensures RoomOf(entries, s) == None
    ensures forall t :: Send(t, msg) in Recipients(entries, None, msg) ==> Entry(t, None) in entries
    ensures (forall e :: e in entries ==> e.room.Some?) ==> Recipients(entries, RoomOf(entries, s), msg) == []
  {
  }

  // ---------------------------------------------------------------------------
  // Close

  /** Removal distributes over concatenation: it drops entries where they stand
      and never reorders what it keeps. */
  lemma {:induction false} RemoveAppend(a: seq<Entry>, b: seq<Entry>, s: Socket)
    ensures Remove(a + b, s) == Remove(a, s) + Remove(b, s)
  {
    if |a| == 0 {
      assert a + b == b;
    } else {
      assert (a + b)[1..] == a[1..] + b;
      RemoveAppend(a[1..], b, s);
    }
  }

  /** Every entry of another socket survives as many times as it occurred;
      every entry of the closed socket is gone. */
  lemma {:induction false} RemoveMultiplicity(entries: seq<Entry>, s: Socket, e: Entry)
    ensures multiset(Remove(entries, s))[e] == if e.socket == s then 0 else multiset(entries)[e]
  {
    if |entries| > 0 {
      RemoveMultiplicity(entries[1..], s, e);
      assert entries == [entries[0]] + entries[1..];
      assert multiset(entries) == multiset{entries[0]} + multiset(entries[1..]);
    }
  }

  /** Closing a socket that has no entry leaves the registry as it is. */
  lemma {:induction false} RemoveAbsent(entries: seq<Entry>, s: Socket)
    requires !HasEntry(entries, s)
    ensures Remove(entries, s) == entries
  {
    if |entries| > 0 {
      assert entries[0] in entries;
      assert !HasEntry(entries[1..], s) by {
        forall e | e in entries[1..] ensures e.socket != s { assert e in entries; }
      }
      RemoveAbsent(entries[1..], s);
      assert entries == [entries[0]] + entries[1..];
    }
  }

  /** Running the close filter again changes nothing. */
  lemma RemoveIdempotent(entries: seq<Entry>, s: Socket)
    ensures Remove(Remove(entries, s), s) == Remove(entries, s)
  {
    RemoveAbsent(Remove(entries, s), s);
  }

  /** Closing two sockets gives the same registry in either order. */
  lemma {:induction false} RemoveCommutes(entries: seq<Entry>, s: Socket, t: Socket)
    ensures Remove(Remove(entries, s), t) == Remove(Remove(entries, t), s)
  {
    if |entries| > 0 {
      var e := entries[0];
      RemoveAppend([e], entries[1..], s);
      RemoveAppend([e], entries[1..], t);
      assert [e] + entries[1..] == entries;
      assert [e][1..] == [];
      RemoveAppend(Remove([e], s), Remove(entries[1..], s), t);
      RemoveAppend(Remove([e], t), Remove(entries[1..], t), s);
      RemoveCommutes(entries[1..], s, t);
    }
  }

  /** A socket that joins and then closes leaves the registry as closing it
      alone would. */
  lemma JoinThenClose(entries: seq<Entry>, s: Socket, room: Room)
    ensures Remove(entries + [Entry(s, room)], s) == Remove(entries, s)
  {
    RemoveAppend(entries, [Entry(s, room)], s);
    assert [Entry(s, room)][1..] == [];
  }
}
