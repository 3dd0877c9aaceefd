/** The server's shared state as the object the connection handlers call, as written. */
module GlobalState {
  import opened ByteStrings
  import opened Rooms

  predicate Taken(draws: seq<RoomId>, rooms: map<RoomId, Room>) {
    forall i :: 0 <= i < |draws| ==> draws[i] in rooms
  }

  class State {
    var rooms: map<RoomId, Room>
    /** The rooms whose expiry task is asleep, one entry per task. */
    var timers: multiset<RoomId>
    /** The one-shot channels made so far, as their receivers see them. */
    var channels: seq<Channel>

    function View(): Shared
      reads this
    {
      Shared(rooms, timers, channels)
    }

    constructor ()
      ensures View() == EMPTY
    {
      rooms, timers, channels := map[], multiset{}, [];
    }

    /**
     * Creates a room under the first unused number drawn and starts its timer. The draws
     * are the random numbers the loop gets; the loop goes on while they are taken.
     */
    method CreateRoom(draws: seq<RoomId>) returns (id: Option<RoomId>)
      requires forall i :: 0 <= i < |draws| ==> draws[i] < ROOM_IDS
      modifies this
      ensures id.None? ==> View() == old(View()) && Taken(draws, rooms)
      ensures id.Some? ==> View() == Apply(false, old(View()), Create(id.value)) && Enabled(old(View()), Create(id.value))
      ensures id.Some? ==> exists i :: 0 <= i < |draws| && draws[i] == id.value && Taken(draws[..i], old(rooms))
    {
      var i := 0;
      while i < |draws| && draws[i] in rooms
        invariant 0 <= i <= |draws| && Taken(draws[..i], rooms)
      {
        i := i + 1;
      }
      if i == |draws| {
        assert draws[..i] == draws;
        return None;
      }
      var roomId := draws[i];
      rooms := rooms[roomId := NEW_ROOM];
      timers := timers + multiset{roomId};
      return Some(roomId);
    }

    method RoomExists(id: RoomId) returns (b: bool)
      ensures b <==> id in rooms
    {
      b := id in rooms;
    }

    /** Records an address of a client; false means that there is no such room. */
    method UpdateClient(id: RoomId, isCreator: bool, endpoint: SocketAddr, public: bool) returns (ok: bool)
      modifies this
      ensures ok <==> id in old(rooms)
      ensures View() == Apply(false, old(View()), Update(id, isCreator, endpoint, public))
      ensures ok ==> id in rooms && rooms[id].Slot(isCreator, public, endpoint.V6?) == Some(endpoint.addr)
    {
      if id !in rooms {
        return false;
      }
      var client := rooms[id].Get(isCreator);
      var full := client.contact;
      var contact := if public then full.public else full.private_;
      match endpoint {
        case V6(a) => contact := contact.(v6 := Some(a));
        case V4(a) => contact := contact.(v4 := Some(a));
      }
      full := if public then full.(public := contact) else full.(private_ := contact);
      rooms := rooms[id := rooms[id].Set(isCreator, client.(contact := full))];
      return true;
    }

    /** Marks a client as done and returns the receiver for the contacts. */
    method SetClientDone(id: RoomId, isCreator: bool) returns (rx: Option<ChannelId>)
      modifies this
      ensures rx == if id in old(rooms) then Some(|old(channels)|) else None
      ensures View() == Apply(false, old(View()), SetDone(id, isCreator))
    {
      if id !in rooms {
        return None;
      }
      var tx := |channels|;
      var room := rooms[id];
      channels := DropSender(channels, room.Get(isCreator).sender) + [Undecided];
      room := room.SetSender(isCreator, Some(tx));
      var clientInfo, peerInfo := room.Get(isCreator).contact, room.Get(!isCreator).contact;

      var clientSender := room.Get(isCreator).sender;
      room := room.SetSender(isCreator, None);
      rooms := rooms[id := room];
      if clientSender.Some? {
        var peerSender := room.Get(!isCreator).sender;
        room := room.SetSender(!isCreator, None);
        rooms := rooms[id := room];
        if peerSender.Some? {
          channels := Put(channels, clientSender.value, Sent(clientInfo, peerInfo));
          channels := Put(channels, peerSender.value, Sent(peerInfo, clientInfo));
          rooms := rooms - {id};
          assert rooms == old(rooms) - {id};
        } else {
          channels := DropSender(channels, clientSender);
          assert rooms == old(rooms)[id := old(rooms)[id].SetSender(isCreator, None)];
        }
      }
      return Some(tx);
    }

    /** What the expiry task of a room does after its ten minutes. */
    method ExpireRoom(id: RoomId)
      requires 0 < timers[id]
      modifies this
      ensures View() == Apply(false, old(View()), Expire(id))
    {
      timers := timers - multiset{id};
      if id in rooms {
        channels := DropSender(DropSender(channels, rooms[id].creator.sender), rooms[id].joiner.sender);
        rooms := rooms - {id};
      }
    }
  }
}
