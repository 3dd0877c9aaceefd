/**
 * The server's rooms: the shared state behind one lock, as a transition system with one
 * operation per lock section, for the code as written and for a labelled repair of it.
 */
module Rooms {
  import opened ByteStrings

  type RoomId = nat
  type ChannelId = nat

  /** Room numbers are drawn below this bound. */
  const ROOM_IDS: nat := 1_048_576

  /** A socket address of either family; the address itself is opaque. */
  datatype SocketAddr = V4(addr: nat) | V6(addr: nat)

  datatype Contact = Contact(v6: Option<nat>, v4: Option<nat>)

  datatype FullContact = FullContact(private_: Contact, public: Contact)

  const NO_CONTACT := Contact(None, None)

  datatype Client = Client(contact: FullContact, sender: Option<ChannelId>)

  const NEW_CLIENT := Client(FullContact(NO_CONTACT, NO_CONTACT), None)

  datatype Room = Room(creator: Client, joiner: Client) {
    function Get(isCreator: bool): Client {
      if isCreator then creator else joiner
    }

    function Set(isCreator: bool, c: Client): Room {
      if isCreator then Room(c, joiner) else Room(creator, c)
    }

    function SetSender(isCreator: bool, s: Option<ChannelId>): Room {
      Set(isCreator, Get(isCreator).(sender := s))
    }

    /** One of the eight address slots of a room. */
    function Slot(isCreator: bool, public: bool, v6: bool): Option<nat> {
      var full := Get(isCreator).contact;
      var c := if public then full.public else full.private_;
      if v6 then c.v6 else c.v4
    }
  }

  const NEW_ROOM := Room(NEW_CLIENT, NEW_CLIENT)

  /** A one-shot channel as its receiver sees it: undecided, a value, or the sender is gone. */
  datatype Channel = Undecided | Sent(client: FullContact, peer: FullContact) | Dropped

  /** Everything behind the lock, with the expiry timers that are still asleep. */
  datatype Shared = Shared(rooms: map<RoomId, Room>, timers: multiset<RoomId>, channels: seq<Channel>)

  const EMPTY := Shared(map[], multiset{}, [])

  /** The lock sections that change something. */
  datatype Op =
    | Create(id: RoomId)
    | Update(id: RoomId, isCreator: bool, endpoint: SocketAddr, public: bool)
    | SetDone(id: RoomId, isCreator: bool)
    | Expire(id: RoomId)

  function Put(channels: seq<Channel>, c: ChannelId, v: Channel): seq<Channel> {
    if c < |channels| then channels[c := v] else channels
  }

  /** Dropping a sender tells a receiver that has no value yet. */
  function DropSender(channels: seq<Channel>, s: Option<ChannelId>): seq<Channel> {
    if s.Some? && s.value < |channels| && channels[s.value].Undecided?
    then channels[s.value := Dropped] else channels
  }

  function SetAddr(full: FullContact, endpoint: SocketAddr, public: bool): FullContact {
    var c := if public then full.public else full.private_;
    var d := match endpoint
      case V6(a) => c.(v6 := Some(a))
      case V4(a) => c.(v4 := Some(a));
    if public then full.(public := d) else full.(private_ := d)
  }

  /**
   * The "done" section as written (`repaired` false): a fresh sender is stored and taken
   * straight out again; it is used if the peer's is there too, and dropped otherwise.
   * REPAIR (`repaired` true): the senders are taken out only when both are there.
   */
  function Done(repaired: bool, s: Shared, id: RoomId, isCreator: bool): Shared
    requires id in s.rooms
  {
    var room := s.rooms[id];
    var me, peer := room.Get(isCreator), room.Get(!isCreator);
    var rx := |s.channels|;
    var channels := DropSender(s.channels, me.sender) + [Undecided];
    match peer.sender
    case Some(tx) =>
      var told := Put(Put(channels, rx, Sent(me.contact, peer.contact)), tx, Sent(peer.contact, me.contact));
      s.(rooms := s.rooms - {id}, channels := told)
    case None =>
      if repaired then s.(rooms := s.rooms[id := room.SetSender(isCreator, Some(rx))], channels := channels)
      else s.(rooms := s.rooms[id := room.SetSender(isCreator, None)], channels := Put(channels, rx, Dropped))
  }

  /** One lock section. Creating a taken room or firing a spent timer never happens and changes nothing. */
  function Apply(repaired: bool, s: Shared, op: Op): Shared {
    match op
    case Create(id) =>
      if id in s.rooms || ROOM_IDS <= id then s
      else s.(rooms := s.rooms[id := NEW_ROOM], timers := s.timers + multiset{id})
    case Update(id, isCreator, endpoint, public) =>
      if id !in s.rooms then s
      else
        var c := s.rooms[id].Get(isCreator);
        s.(rooms := s.rooms[id := s.rooms[id].Set(isCreator, c.(contact := SetAddr(c.contact, endpoint, public)))])
    case SetDone(id, isCreator) =>
      if id !in s.rooms then s else Done(repaired, s, id, isCreator)
    case Expire(id) =>
      if s.timers[id] == 0 then s
      else if id !in s.rooms then s.(timers := s.timers - multiset{id})
      else
        var room := s.rooms[id];
        Shared(s.rooms - {id}, s.timers - multiset{id},
               DropSender(DropSender(s.channels, room.creator.sender), room.joiner.sender))
  }

  /** The operation can come next: rooms are created under unused numbers, timers fire once. */
  predicate Enabled(s: Shared, op: Op) {
    match op
    case Create(id) => id !in s.rooms && id < ROOM_IDS
    case Expire(id) => s.timers[id] != 0
    case _ => true
  }

  /** The state after the lock sections of `ops`, in the order in which they got the lock. */
  function Run(repaired: bool, ops: seq<Op>): Shared
    decreases |ops|
  {
    if ops == [] then EMPTY
    else Apply(repaired, Run(repaired, ops[..|ops| - 1]), ops[|ops| - 1])
  }

  ghost predicate Legal(repaired: bool, ops: seq<Op>)
    decreases |ops|
  {
    ops == [] ||
    (Legal(repaired, ops[..|ops| - 1]) && Enabled(Run(repaired, ops[..|ops| - 1]), ops[|ops| - 1]))
  }

  // ---------- The rendezvous and the timers, as written ----------

  /** Nobody's sender is kept, every receiver is told that it is gone, each room has its one timer. */
  ghost predicate Quiet(s: Shared) {
    && (forall id, isCreator :: id in s.rooms ==> s.rooms[id].Get(isCreator).sender == None)
    && (forall c :: 0 <= c < |s.channels| ==> s.channels[c] == Dropped)
    && s.timers == multiset(s.rooms.Keys)
  }

  lemma QuietDone(s: Shared, id: RoomId, isCreator: bool)
    requires Quiet(s) && id in s.rooms
    ensures Quiet(Done(false, s, id, isCreator))
  {
    assert s.rooms[id].Get(!isCreator).sender == None;
    assert s.rooms[id].Get(isCreator).sender == None;
    assert Done(false, s, id, isCreator).rooms.Keys == s.rooms.Keys;
  }

  lemma QuietExpire(s: Shared, id: RoomId)
    requires Quiet(s) && id in s.rooms
    ensures Quiet(Apply(false, s, Expire(id)))
  {
    assert s.rooms[id].Get(true).sender == None;
    assert s.rooms[id].Get(false).sender == None;
    assert Apply(false, s, Expire(id)).rooms.Keys == s.rooms.Keys - {id};
  }

  lemma QuietStep(s: Shared, op: Op)
    requires Quiet(s)
    ensures Quiet(Apply(false, s, op))
  {
    var t := Apply(false, s, op);
    match op {
      case Create(id) =>
        assert t.rooms.Keys == if Enabled(s, op) then s.rooms.Keys + {id} else s.rooms.Keys;
      case Update(id, isCreator, endpoint, public) =>
        assert t.rooms.Keys == s.rooms.Keys;
        assert forall k, r :: k in s.rooms ==> t.rooms[k].Get(r).sender == s.rooms[k].Get(r).sender;
      case SetDone(id, isCreator) =>
        if id in s.rooms {
          QuietDone(s, id, isCreator);
        }
      case Expire(id) =>
        if id in s.rooms {
          QuietExpire(s, id);
        }
    }
  }

  /**
   * In every run of the code as written no contact is ever exchanged: each receiver handed
   * out by a "done" finds its sender gone. And the timers asleep are exactly one for each
   * room, so no timer can remove a room other than its own.
   */
  lemma {:induction false} NothingIsExchanged(ops: seq<Op>)
    ensures Quiet(Run(false, ops))
    decreases |ops|
  {
    if ops != [] {
      NothingIsExchanged(ops[..|ops| - 1]);
      QuietStep(Run(false, ops[..|ops| - 1]), ops[|ops| - 1]);
    }
  }

  /** As written a room comes only by its creation and goes only by its timer. */
  lemma PresenceStep(s: Shared, op: Op, id: RoomId)
    requires Quiet(s) && Enabled(s, op)
    ensures id in Apply(false, s, op).rooms <==> op == Create(id) || (id in s.rooms && op != Expire(id))
  {
    if op.SetDone? && op.id in s.rooms {
      assert s.rooms[op.id].Get(!op.isCreator).sender == None;
    }
  }

  lemma {:induction false} RoomIdsAreSmall(ops: seq<Op>, id: RoomId)
    requires Legal(false, ops) && id in Run(false, ops).rooms
    ensures id < ROOM_IDS
    decreases |ops|
  {
    assert ops != [];
    var front, op := ops[..|ops| - 1], ops[|ops| - 1];
    NothingIsExchanged(front);
    PresenceStep(Run(false, front), op, id);
    if op != Create(id) {
      RoomIdsAreSmall(front, id);
    }
  }

  // ---------- Contacts ----------

  predicate Matches(op: Op, id: RoomId, isCreator: bool, public: bool, v6: bool) {
    op.Update? && op.id == id && op.isCreator == isCreator && op.public == public && op.endpoint.V6? == v6
  }

  /** The last address logged for a slot since the room was last created. */
  function LastAddr(ops: seq<Op>, id: RoomId, isCreator: bool, public: bool, v6: bool): Option<nat>
    decreases |ops|
  {
    if ops == [] then None
    else
      var op := ops[|ops| - 1];
      if op == Create(id) then None
      else if Matches(op, id, isCreator, public, v6) then Some(op.endpoint.addr)
      else LastAddr(ops[..|ops| - 1], id, isCreator, public, v6)
  }

  /** `ops[i]` set the slot, and neither another address nor a new room came after it. */
  ghost predicate SetAt(ops: seq<Op>, i: int, id: RoomId, isCreator: bool, public: bool, v6: bool) {
    && 0 <= i < |ops| && Matches(ops[i], id, isCreator, public, v6)
    && forall j :: i < j < |ops| ==> ops[j] != Create(id) && !Matches(ops[j], id, isCreator, public, v6)
  }

  lemma SetAtFront(ops: seq<Op>, i: int, id: RoomId, isCreator: bool, public: bool, v6: bool)
    requires ops != [] && ops[|ops| - 1] != Create(id) && !Matches(ops[|ops| - 1], id, isCreator, public, v6)
    ensures SetAt(ops[..|ops| - 1], i, id, isCreator, public, v6) <==> SetAt(ops, i, id, isCreator, public, v6)
  {
    var front := ops[..|ops| - 1];
    assert forall j :: 0 <= j < |front| ==> front[j] == ops[j];
  }

  lemma {:induction false} LastAddrIsLast(ops: seq<Op>, id: RoomId, isCreator: bool, public: bool, v6: bool, a: nat)
    ensures LastAddr(ops, id, isCreator, public, v6) == Some(a)
       <==> exists i :: SetAt(ops, i, id, isCreator, public, v6) && ops[i].endpoint.addr == a
    decreases |ops|
  {
    if ops != [] {
      var n := |ops| - 1;
      var front, op := ops[..n], ops[n];
      LastAddrIsLast(front, id, isCreator, public, v6, a);
      if Matches(op, id, isCreator, public, v6) {
        assert SetAt(ops, n, id, isCreator, public, v6);
      } else if op != Create(id) {
        forall i
          ensures SetAt(front, i, id, isCreator, public, v6) <==> SetAt(ops, i, id, isCreator, public, v6)
        {
          SetAtFront(ops, i, id, isCreator, public, v6);
        }
      }
    }
  }

  /**
   * In every run, of either version, each address slot of each room holds the last address
   * sent for that room, role, kind and family since the room was created.
   */
  lemma {:induction false} ContactsFollowLog(repaired: bool, ops: seq<Op>, id: RoomId, isCreator: bool, public: bool, v6: bool)
    requires Legal(repaired, ops)
    requires id in Run(repaired, ops).rooms
    ensures Run(repaired, ops).rooms[id].Slot(isCreator, public, v6) == LastAddr(ops, id, isCreator, public, v6)
    decreases |ops|
  {
    assert ops != [];
    var front, op := ops[..|ops| - 1], ops[|ops| - 1];
    var s := Run(repaired, front);
    if op != Create(id) {
      assert id in s.rooms;
      ContactsFollowLog(repaired, front, id, isCreator, public, v6);
      SlotStep(repaired, s, op, id, isCreator, public, v6);
    }
  }

  lemma SlotStep(repaired: bool, s: Shared, op: Op, id: RoomId, isCreator: bool, public: bool, v6: bool)
    requires id in s.rooms && id in Apply(repaired, s, op).rooms
    ensures Apply(repaired, s, op).rooms[id].Slot(isCreator, public, v6)
         == if Matches(op, id, isCreator, public, v6) then Some(op.endpoint.addr)
            else s.rooms[id].Slot(isCreator, public, v6)
  {
  }

  /** A lock section on one room leaves every other room as it is. */
  lemma OtherRoomsUntouched(repaired: bool, s: Shared, op: Op, id: RoomId)
    requires op.id != id
    ensures id in Apply(repaired, s, op).rooms <==> id in s.rooms
    ensures id in s.rooms ==> Apply(repaired, s, op).rooms[id] == s.rooms[id]
  {
  }

  // ---------- The repaired rendezvous ----------

  /** The sender of channel `c` is stored for that client of that room. */
  predicate Waits(s: Shared, c: ChannelId, id: RoomId, isCreator: bool) {
    id in s.rooms && s.rooms[id].Get(isCreator).sender == Some(c)
  }

  /** Stored senders are live and stored once, no two clients of a room wait, and every room has a timer. */
  ghost predicate Wired(s: Shared) {
    && (forall c: ChannelId, id: RoomId, r: bool :: Waits(s, c, id, r) ==> c < |s.channels| && s.channels[c] == Undecided)
    && (forall c: ChannelId, id: RoomId, r: bool, id': RoomId, r': bool ::
          Waits(s, c, id, r) && Waits(s, c, id', r') ==> id == id' && r == r')
    && (forall c: ChannelId, id: RoomId, r: bool :: Waits(s, c, id, r) ==> s.rooms[id].Get(!r).sender == None)
    && (forall id :: id in s.rooms ==> 0 < s.timers[id])
  }

  /**
   * The repaired exchange: if the peer waits, both receivers get the documented pair, each
   * with its own contact first, and the room is gone; otherwise the caller waits.
   */
  lemma RepairedDone(s: Shared, id: RoomId, isCreator: bool)
    requires Wired(s) && id in s.rooms
    ensures var t := Apply(true, s, SetDone(id, isCreator));
            var me, peer, rx := s.rooms[id].Get(isCreator), s.rooms[id].Get(!isCreator), |s.channels|;
            && |t.channels| == rx + 1
            && (peer.sender.Some? ==>
                  && id !in t.rooms && peer.sender.value < rx
                  && t.channels[rx] == Sent(me.contact, peer.contact)
                  && t.channels[peer.sender.value] == Sent(peer.contact, me.contact))
            && (peer.sender.None? ==>
                  && id in t.rooms && t.rooms[id].Get(isCreator) == me.(sender := Some(rx))
                  && t.rooms[id].Get(!isCreator) == peer && t.channels[rx] == Undecided)
  {
    var peer := s.rooms[id].Get(!isCreator).sender;
    assert peer.Some? ==> Waits(s, peer.value, id, !isCreator);
  }

  lemma WiredUpdate(s: Shared, op: Op)
    requires Wired(s) && (op.Update? || op.Create?)
    ensures Wired(Apply(true, s, op))
  {
    var t := Apply(true, s, op);
    assert forall c: ChannelId, k: RoomId, r: bool :: Waits(t, c, k, r) ==> Waits(s, c, k, r);
    assert t.channels == s.channels;
  }

  lemma WiredExpire(s: Shared, id: RoomId)
    requires Wired(s)
    ensures Wired(Apply(true, s, Expire(id)))
  {
    var t := Apply(true, s, Expire(id));
    forall c: ChannelId, k: RoomId, r: bool | Waits(t, c, k, r)
      ensures Waits(s, c, k, r) && c < |t.channels| && t.channels[c] == Undecided
    {
      assert Waits(s, c, k, r);
      assert k != id ==> !Waits(s, c, id, true) && !Waits(s, c, id, false);
    }
  }

  lemma WiredDone(s: Shared, id: RoomId, isCreator: bool)
    requires Wired(s) && id in s.rooms
    ensures Wired(Done(true, s, id, isCreator))
  {
    var t, rx := Done(true, s, id, isCreator), |s.channels|;
    forall c: ChannelId, k: RoomId, r: bool | Waits(t, c, k, r)
      ensures c < |t.channels| && t.channels[c] == Undecided
      ensures if k == id then c == rx && r == isCreator else c != rx && Waits(s, c, k, r)
    {
      if k != id {
        assert Waits(s, c, k, r);
        assert !Waits(s, c, id, true) && !Waits(s, c, id, false);
      }
    }
  }

  lemma WiredStep(s: Shared, op: Op)
    requires Wired(s)
    ensures Wired(Apply(true, s, op))
  {
    hide Wired;
    match op {
      case Create(_) => WiredUpdate(s, op);
      case Update(_, _, _, _) => WiredUpdate(s, op);
      case SetDone(id, isCreator) =>
        if id in s.rooms {
          WiredDone(s, id, isCreator);
        }
      case Expire(id) => WiredExpire(s, id);
    }
  }

  /** Every run of the repaired server keeps its senders, channels and timers in order. */
  lemma {:induction false} RepairedIsWired(ops: seq<Op>)
    ensures Wired(Run(true, ops))
    decreases |ops|
  {
    if ops != [] {
      RepairedIsWired(ops[..|ops| - 1]);
      WiredStep(Run(true, ops[..|ops| - 1]), ops[|ops| - 1]);
    }
  }

  /** Every receiver without an answer has its sender stored in a room. */
  ghost predicate Remembered(s: Shared) {
    forall c: ChannelId :: c < |s.channels| && s.channels[c] == Undecided ==> Stored(s, c)
  }

  ghost predicate Stored(s: Shared, c: ChannelId) {
    exists id: RoomId, r: bool :: Waits(s, c, id, r)
  }

  /** A sender whose receiver is still without an answer after a lock section is still stored. */
  lemma StillWaits(s: Shared, op: Op, c: ChannelId, id: RoomId, r: bool)
    requires Waits(s, c, id, r) && c < |s.channels|
    requires c < |Apply(true, s, op).channels| && Apply(true, s, op).channels[c] == Undecided
    ensures s.channels[c] == Undecided ==> Waits(Apply(true, s, op), c, id, r)
  {
  }

  lemma StillUndecided(s: Shared, op: Op, c: ChannelId)
    requires c < |Apply(true, s, op).channels| && Apply(true, s, op).channels[c] == Undecided
    ensures c <= |s.channels|
    ensures c < |s.channels| ==> s.channels[c] == Undecided
    ensures c == |s.channels| ==> op.SetDone? && Waits(Apply(true, s, op), c, op.id, op.isCreator)
  {
  }

  lemma RememberedStep(s: Shared, op: Op)
    requires Remembered(s)
    ensures Remembered(Apply(true, s, op))
  {
    hide Apply, Waits;
    var t := Apply(true, s, op);
    forall c: ChannelId | c < |t.channels| && t.channels[c] == Undecided
      ensures Stored(t, c)
    {
      StillUndecided(s, op, c);
      if c < |s.channels| {
        assert Stored(s, c);
        var id: RoomId, r: bool :| Waits(s, c, id, r);
        StillWaits(s, op, c, id, r);
      }
    }
  }

  /** In every run of the repaired server nobody waits for a sender that is nowhere. */
  lemma {:induction false} RepairedForgetsNobody(ops: seq<Op>)
    ensures Remembered(Run(true, ops))
    decreases |ops|
  {
    if ops != [] {
      RepairedForgetsNobody(ops[..|ops| - 1]);
      RememberedStep(Run(true, ops[..|ops| - 1]), ops[|ops| - 1]);
    }
  }

  /** A receiver that has its answer keeps it: nothing is sent twice. */
  lemma AnswerStays(s: Shared, op: Op, c: ChannelId)
    requires Wired(s) && c < |s.channels| && s.channels[c] != Undecided
    ensures c < |Apply(true, s, op).channels| && Apply(true, s, op).channels[c] == s.channels[c]
  {
    if op.SetDone? && op.id in s.rooms {
      assert !Waits(s, c, op.id, true) && !Waits(s, c, op.id, false);
    }
  }

  /** Another receiver has the same two contacts the other way round. */
  ghost predicate HasPartner(channels: seq<Channel>, c: ChannelId) {
    c < |channels| && channels[c].Sent? &&
    exists d :: 0 <= d < |channels| && d != c && channels[d] == Sent(channels[c].peer, channels[c].client)
  }

  ghost predicate AllPartnered(channels: seq<Channel>) {
    forall c :: 0 <= c < |channels| && channels[c].Sent? ==> HasPartner(channels, c)
  }

  lemma PartnerStep(s: Shared, op: Op, c: ChannelId)
    requires Wired(s) && c < |Apply(true, s, op).channels| && Apply(true, s, op).channels[c].Sent?
    requires AllPartnered(s.channels)
    ensures HasPartner(Apply(true, s, op).channels, c)
  {
    var t := Apply(true, s, op);
    if c < |s.channels| && s.channels[c].Sent? {
      AnswerStays(s, op, c);
      assert HasPartner(s.channels, c);
      var d :| 0 <= d < |s.channels| && d != c && s.channels[d] == Sent(s.channels[c].peer, s.channels[c].client);
      AnswerStays(s, op, d);
    } else {
      var peer := s.rooms[op.id].Get(!op.isCreator).sender;
      assert Waits(s, peer.value, op.id, !op.isCreator);
      var d := if c == |s.channels| then peer.value else |s.channels|;
      assert t.channels[d] == Sent(t.channels[c].peer, t.channels[c].client);
    }
  }

  /** In every run of the repaired server whoever is told a pair has a peer who is told its mirror image. */
  lemma {:induction false} RepairedTellsBoth(ops: seq<Op>)
    ensures AllPartnered(Run(true, ops).channels)
    decreases |ops|
  {
    if ops != [] {
      var front, op := ops[..|ops| - 1], ops[|ops| - 1];
      RepairedTellsBoth(front);
      RepairedIsWired(front);
      var channels := Run(true, ops).channels;
      forall c | 0 <= c < |channels| && channels[c].Sent?
        ensures HasPartner(channels, c)
      {
        PartnerStep(Run(true, front), op, c);
      }
    }
  }

  /** The lock sections of `ops`, one after the other, from `s`. */
  function RunFrom(repaired: bool, s: Shared, ops: seq<Op>): Shared
    decreases |ops|
  {
    if ops == [] then s else RunFrom(repaired, Apply(repaired, s, ops[0]), ops[1..])
  }

  /** A waiting client keeps waiting while others work, as long as nobody is done or times out in its room. */
  lemma {:induction false} WaitingPersists(s: Shared, ops: seq<Op>, c: ChannelId, id: RoomId, r: bool)
    requires Wired(s) && Waits(s, c, id, r)
    requires forall i :: 0 <= i < |ops| ==> !(ops[i].id == id && (ops[i].SetDone? || ops[i].Expire?))
    ensures Wired(RunFrom(true, s, ops)) && Waits(RunFrom(true, s, ops), c, id, r)
    decreases |ops|
  {
    if ops != [] {
      var t := Apply(true, s, ops[0]);
      WiredStep(s, ops[0]);
      assert Waits(t, c, id, r) by {
        if ops[0].id != id {
          OtherRoomsUntouched(true, s, ops[0], id);
        }
      }
      WaitingPersists(t, ops[1..], c, id, r);
    }
  }

  /**
   * The documented rendezvous, for the repaired server: one client is done, any lock
   * sections of others follow, then its peer is done. Each gets its own contact and the
   * other's, as they are at that moment, and the room is gone.
   */
  lemma RepairedRendezvous(s: Shared, id: RoomId, first: bool, mid: seq<Op>)
    requires Wired(s) && id in s.rooms && s.rooms[id].Get(!first).sender == None
    requires forall i :: 0 <= i < |mid| ==> !(mid[i].id == id && (mid[i].SetDone? || mid[i].Expire?))
    ensures var c := |s.channels|;
            var t := RunFrom(true, Apply(true, s, SetDone(id, first)), mid);
            && id in t.rooms
            && var u := Apply(true, t, SetDone(id, !first));
               var x, y := t.rooms[id].Get(first).contact, t.rooms[id].Get(!first).contact;
               && c < |t.channels| && u.channels[c] == Sent(x, y)
               && u.channels[|t.channels|] == Sent(y, x)
               && id !in u.rooms
  {
    hide Wired;
    var c := |s.channels|;
    var s1 := Apply(true, s, SetDone(id, first));
    RepairedDone(s, id, first);
    WiredStep(s, SetDone(id, first));
    WaitingPersists(s1, mid, c, id, first);
    var t := RunFrom(true, s1, mid);
    assert c < |t.channels| && t.channels[c] == Undecided by {
      WaitsInRange(t, c, id, first);
    }
    RepairedDone(t, id, !first);
  }

  lemma WaitsInRange(s: Shared, c: ChannelId, id: RoomId, r: bool)
    requires Wired(s) && Waits(s, c, id, r)
    ensures c < |s.channels| && s.channels[c] == Undecided
  {
  }

  /**
   * With the repair alone, an exchanged room's timer stays asleep: a room created later
   * under the same number can be removed by it at once, while its own timer is still asleep.
   */
  lemma RepairedRoomCanExpireEarly(s: Shared, id: RoomId)
    requires id < ROOM_IDS && id !in s.rooms
    ensures var s1 := Apply(true, s, Create(id));
            var s2 := Apply(true, Apply(true, s1, SetDone(id, true)), SetDone(id, false));
            var s3 := Apply(true, s2, Create(id));
            var s4 := Apply(true, s3, Expire(id));
            && Enabled(s, Create(id)) && Enabled(s2, Create(id)) && Enabled(s3, Expire(id))
            && s3.rooms[id] == NEW_ROOM && id !in s4.rooms && s4.timers == s1.timers
  {
    var s1 := Apply(true, s, Create(id));
    assert s1.rooms[id] == NEW_ROOM;
    var t := Apply(true, s1, SetDone(id, true));
    assert t.rooms[id].joiner.sender == None && t.rooms[id].creator.sender.Some?;
    var s2 := Apply(true, t, SetDone(id, false));
    assert id !in s2.rooms && s2.timers == s1.timers;
  }

  /** How often a "done" under the repair has removed a room of that number. */
  function Exchanges(ops: seq<Op>, id: RoomId): nat
    decreases |ops|
  {
    if ops == [] then 0
    else
      var front, op := ops[..|ops| - 1], ops[|ops| - 1];
      Exchanges(front, id) + if op.SetDone? && id in Run(true, front).rooms && id !in Run(true, ops).rooms then 1 else 0
  }

  /** How often a timer under the repair has found no room of that number. */
  function IdleExpiries(ops: seq<Op>, id: RoomId): nat
    decreases |ops|
  {
    if ops == [] then 0
    else
      var front, op := ops[..|ops| - 1], ops[|ops| - 1];
      IdleExpiries(front, id) + if op == Expire(id) && id !in Run(true, front).rooms then 1 else 0
  }

  lemma TimerStep(s: Shared, op: Op, id: RoomId)
    requires Enabled(s, op)
    ensures var t := Apply(true, s, op);
            t.timers[id] + (if op == Expire(id) then 1 else 0) == s.timers[id] + (if op == Create(id) then 1 else 0)
    ensures var t := Apply(true, s, op);
            id in t.rooms && id !in s.rooms <==> op == Create(id)
    ensures var t := Apply(true, s, op);
            id in s.rooms && id !in t.rooms ==> op == Expire(id) || op.SetDone?
    ensures op == Expire(id) ==> id !in Apply(true, s, op).rooms
  {
  }

  /** In every run of the repair each exchange leaves a timer behind, until that timer finds no room. */
  lemma {:induction false} RepairedTimers(ops: seq<Op>, id: RoomId)
    requires Legal(true, ops)
    ensures var s := Run(true, ops);
            s.timers[id] + IdleExpiries(ops, id) == Exchanges(ops, id) + if id in s.rooms then 1 else 0
    decreases |ops|
  {
    if ops != [] {
      var front, op := ops[..|ops| - 1], ops[|ops| - 1];
      RepairedTimers(front, id);
      TimerStep(Run(true, front), op, id);
    }
  }

  /**
   * With the repair a room that expires is removed by its own timer, with no other of that
   * number asleep, exactly when every exchanged room of that number has had its timer fire
   * on no room. Otherwise one of that number sleeps on after the room is gone.
   */
  lemma RepairedExpiryIsOwnExactly(ops: seq<Op>, id: RoomId)
    requires Legal(true, ops) && id in Run(true, ops).rooms
    ensures var s := Run(true, ops);
            var t := Apply(true, s, Expire(id));
            && Enabled(s, Expire(id)) && id !in t.rooms
            && IdleExpiries(ops, id) <= Exchanges(ops, id)
            && (s.timers[id] == 1 <==> Exchanges(ops, id) == IdleExpiries(ops, id))
            && t.timers[id] == Exchanges(ops, id) - IdleExpiries(ops, id)
  {
    RepairedTimers(ops, id);
    RepairedIsWired(ops);
  }
}
