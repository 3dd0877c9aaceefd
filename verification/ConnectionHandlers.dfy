/** Any number of connection handlers and expiry timers over the shared rooms, in any interleaving. */
module ConnectionHandlers {
  import opened ByteStrings
  import opened Rooms

  type HandlerId = nat

  datatype ClientMessage = CreateRoom | JoinRoom(id: RoomId) | SendPrivateAddr(addr: Option<SocketAddr>) | DoneSending

  datatype ServerMessage =
    | RoomCreated(id: RoomId)
    | RoomJoined
    | SharePeerContacts(client: FullContact, peer: FullContact)
    | SyntaxError
    | ErrorNoSuchRoomID

  datatype ServerError = IoOrSerialization | RoomTimedOut | NoSuchRoomId | ReceivedIncorrectMessage

  /** Where a handler stands between two lock sections. */
  datatype Phase =
    | Greeting
    | InRoom(id: RoomId, isCreator: bool)
    | AddingPrivate(id: RoomId, isCreator: bool, addr: SocketAddr)
    | Waiting(id: RoomId, isCreator: bool, rx: ChannelId)
    | Ended(error: ServerError)

  /** What happened, in order: who entered which room in which role, and every lock section that writes. */
  datatype Event = Entered(h: HandlerId, id: RoomId, isCreator: bool) | Acted(actor: Option<HandlerId>, op: Op)

  datatype Reply = Reply(h: HandlerId, msg: ServerMessage)

  datatype World = World(shared: Shared, handlers: map<HandlerId, Phase>, trace: seq<Event>, replies: seq<Reply>)

  const START := World(EMPTY, map[], [], [])

  /**
   * One step: a connection arrives; a handler reads its first or a later message (`None`
   * for one that cannot be read) up to the end of the lock section it causes; a handler
   * stores the private address of a message; a waiting handler looks at its channel; a
   * timer fires. `sent` says whether the reply, if any, goes out.
   */
  datatype Step =
    | Connect(h: HandlerId)
    | First(h: HandlerId, msg: Option<ClientMessage>, drawn: RoomId, sent: bool)
    | Next(h: HandlerId, msg: Option<ClientMessage>, peer: Option<SocketAddr>, sent: bool)
    | Private(h: HandlerId, sent: bool)
    | Resume(h: HandlerId, sent: bool)
    | Timer(id: RoomId)

  function Become(w: World, h: HandlerId, p: Phase): World {
    w.(handlers := w.handlers[h := p])
  }

  /** Sends a reply and goes on to `next`, or ends if it cannot be sent. */
  function Answer(w: World, h: HandlerId, msg: ServerMessage, sent: bool, next: Phase): World {
    if sent then Become(w.(replies := w.replies + [Reply(h, msg)]), h, next)
    else Become(w, h, Ended(IoOrSerialization))
  }

  function Perform(repaired: bool, w: World, actor: Option<HandlerId>, op: Op): World {
    w.(shared := Apply(repaired, w.shared, op), trace := w.trace + [Acted(actor, op)])
  }

  function Enter(w: World, h: HandlerId, id: RoomId, isCreator: bool): World {
    w.(trace := w.trace + [Entered(h, id, isCreator)])
  }

  function DoFirst(repaired: bool, w: World, h: HandlerId, msg: Option<ClientMessage>, drawn: RoomId, sent: bool): World {
    match msg
    case None => Answer(w, h, SyntaxError, sent, Ended(IoOrSerialization))
    case Some(CreateRoom) =>
      if !Enabled(w.shared, Create(drawn)) then w
      else
        var w1 := Enter(Perform(repaired, w, Some(h), Create(drawn)), h, drawn, true);
        Answer(w1, h, RoomCreated(drawn), sent, InRoom(drawn, true))
    case Some(JoinRoom(id)) =>
      if id in w.shared.rooms then Answer(Enter(w, h, id, false), h, RoomJoined, sent, InRoom(id, false))
      else Answer(w, h, ErrorNoSuchRoomID, sent, Ended(NoSuchRoomId))
    case Some(_) => Answer(w, h, SyntaxError, sent, Ended(ReceivedIncorrectMessage))
  }

  /** Stores an address and goes on to `next`; without its room the handler says so and ends. */
  function DoUpdate(repaired: bool, w: World, h: HandlerId, op: Op, sent: bool, next: Phase): World
    requires op.Update?
  {
    var w1 := Perform(repaired, w, Some(h), op);
    if op.id in w.shared.rooms then Become(w1, h, next)
    else Answer(w1, h, ErrorNoSuchRoomID, sent, Ended(NoSuchRoomId))
  }

  function DoNext(repaired: bool, w: World, h: HandlerId, p: Phase, msg: Option<ClientMessage>,
                  peer: Option<SocketAddr>, sent: bool): World
    requires p.InRoom?
  {
    match msg
    case None => Answer(w, h, SyntaxError, sent, Ended(IoOrSerialization))
    case Some(SendPrivateAddr(addr)) =>
      if peer.None? then Become(w, h, Ended(IoOrSerialization))
      else
        var next := if addr.None? then p else AddingPrivate(p.id, p.isCreator, addr.value);
        DoUpdate(repaired, w, h, Update(p.id, p.isCreator, peer.value, true), sent, next)
    case Some(DoneSending) =>
      var w1 := Perform(repaired, w, Some(h), SetDone(p.id, p.isCreator));
      if p.id in w.shared.rooms then Become(w1, h, Waiting(p.id, p.isCreator, |w.shared.channels|))
      else Answer(w1, h, ErrorNoSuchRoomID, sent, Ended(NoSuchRoomId))
    case Some(_) => Answer(w, h, SyntaxError, sent, Ended(ReceivedIncorrectMessage))
  }

  function DoResume(w: World, h: HandlerId, p: Phase, sent: bool): World
    requires p.Waiting?
  {
    if |w.shared.channels| <= p.rx then w
    else
      match w.shared.channels[p.rx]
      case Undecided => w
      case Dropped => Become(w, h, Ended(RoomTimedOut))
      case Sent(client, peer) => Answer(w, h, SharePeerContacts(client, peer), sent, InRoom(p.id, p.isCreator))
  }

  /** A step, or nothing if the handler or timer is not ready for it. */
  function Take(repaired: bool, w: World, step: Step): World {
    match step
    case Timer(id) =>
      if w.shared.timers[id] == 0 then w else Perform(repaired, w, None, Expire(id))
    case Connect(h) =>
      if h in w.handlers then w else Become(w, h, Greeting)
    case _ =>
      if step.h !in w.handlers then w
      else
        var p := w.handlers[step.h];
        match step
        case First(h, msg, drawn, sent) =>
          if p.Greeting? then DoFirst(repaired, w, h, msg, drawn, sent) else w
        case Next(h, msg, peer, sent) =>
          if p.InRoom? then DoNext(repaired, w, h, p, msg, peer, sent) else w
        case Private(h, sent) =>
          if p.AddingPrivate? then
            DoUpdate(repaired, w, h, Update(p.id, p.isCreator, p.addr, false), sent, InRoom(p.id, p.isCreator))
          else w
        case Resume(h, sent) =>
          if p.Waiting? then DoResume(w, h, p, sent) else w
        case _ => w
  }

  /** The world after `steps`, in the order in which they took place. */
  function After(repaired: bool, steps: seq<Step>): World
    decreases |steps|
  {
    if steps == [] then START
    else Take(repaired, After(repaired, steps[..|steps| - 1]), steps[|steps| - 1])
  }

  /** The lock sections of a trace. */
  function Ops(trace: seq<Event>): seq<Op>
    decreases |trace|
  {
    if trace == [] then []
    else
      var e := trace[|trace| - 1];
      var front := Ops(trace[..|trace| - 1]);
      if e.Acted? then front + [e.op] else front
  }

  lemma OpsSnoc(trace: seq<Event>, e: Event)
    ensures Ops(trace + [e]) == if e.Acted? then Ops(trace) + [e.op] else Ops(trace)
  {
    assert (trace + [e])[..|trace|] == trace;
  }

  /** The shared state is what the lock sections of the trace, in that order, make of it. */
  ghost predicate Replays(repaired: bool, w: World) {
    Legal(repaired, Ops(w.trace)) && w.shared == Run(repaired, Ops(w.trace))
  }

  lemma PerformReplays(repaired: bool, w: World, actor: Option<HandlerId>, op: Op)
    requires Replays(repaired, w) && Enabled(w.shared, op)
    ensures Replays(repaired, Perform(repaired, w, actor, op))
  {
    var ops := Ops(w.trace);
    OpsSnoc(w.trace, Acted(actor, op));
    assert (ops + [op])[..|ops|] == ops;
  }

  lemma EnterReplays(repaired: bool, w: World, h: HandlerId, id: RoomId, isCreator: bool)
    requires Replays(repaired, w)
    ensures Replays(repaired, Enter(w, h, id, isCreator))
  {
    OpsSnoc(w.trace, Entered(h, id, isCreator));
  }

  lemma StepReplays(repaired: bool, w: World, step: Step)
    requires Replays(repaired, w)
    ensures Replays(repaired, Take(repaired, w, step))
  {
    hide Apply, Run, Legal, Ops;
    match step {
      case Timer(id) =>
        if w.shared.timers[id] != 0 {
          PerformReplays(repaired, w, None, Expire(id));
        }
      case First(h, msg, drawn, sent) =>
        if msg == Some(CreateRoom) && Enabled(w.shared, Create(drawn)) {
          PerformReplays(repaired, w, Some(h), Create(drawn));
          EnterReplays(repaired, Perform(repaired, w, Some(h), Create(drawn)), h, drawn, true);
        } else if msg.Some? && msg.value.JoinRoom? {
          EnterReplays(repaired, w, h, msg.value.id, false);
        }
      case Next(h, msg, peer, sent) =>
        if h in w.handlers && w.handlers[h].InRoom? {
          var p := w.handlers[h];
          PerformReplays(repaired, w, Some(h), SetDone(p.id, p.isCreator));
          if peer.Some? {
            PerformReplays(repaired, w, Some(h), Update(p.id, p.isCreator, peer.value, true));
          }
        }
      case Private(h, sent) =>
        if h in w.handlers && w.handlers[h].AddingPrivate? {
          var p := w.handlers[h];
          PerformReplays(repaired, w, Some(h), Update(p.id, p.isCreator, p.addr, false));
        }
      case _ =>
    }
  }

  /** Every interleaving of handlers and timers is a legal run of lock sections on the rooms. */
  lemma {:induction false} InterleavingsReplay(repaired: bool, steps: seq<Step>)
    ensures Replays(repaired, After(repaired, steps))
    decreases |steps|
  {
    if steps != [] {
      InterleavingsReplay(repaired, steps[..|steps| - 1]);
      StepReplays(repaired, After(repaired, steps[..|steps| - 1]), steps[|steps| - 1]);
    }
  }

  /** A creator has just created its room, and a joiner's room is there when it joins. */
  ghost predicate AdmittedAt(repaired: bool, trace: seq<Event>, j: int)
    requires 0 <= j < |trace|
  {
    trace[j].Entered? ==>
      if trace[j].isCreator then 0 < j && trace[j - 1] == Acted(Some(trace[j].h), Create(trace[j].id))
      else trace[j].id in Run(repaired, Ops(trace[..j])).rooms
  }

  /** A client is told of a room only after it has entered it. */
  ghost predicate Truthful(trace: seq<Event>, r: Reply) {
    && (r.msg.RoomCreated? ==> Entered(r.h, r.msg.id, true) in trace)
    && (r.msg.RoomJoined? ==> exists id :: Entered(r.h, id, false) in trace)
  }

  ghost predicate Admitted(repaired: bool, w: World) {
    && (forall j :: 0 <= j < |w.trace| ==> AdmittedAt(repaired, w.trace, j))
    && (forall i :: 0 <= i < |w.replies| ==> Truthful(w.trace, w.replies[i]))
  }

  lemma AdmittedSnoc(repaired: bool, w: World, e: Event)
    requires Admitted(repaired, w) && AdmittedAt(repaired, w.trace + [e], |w.trace|)
    ensures Admitted(repaired, w.(trace := w.trace + [e]))
  {
    hide Run, Ops;
    var longer := w.trace + [e];
    forall j | 0 <= j < |longer|
      ensures AdmittedAt(repaired, longer, j)
    {
      if j < |w.trace| {
        assert AdmittedAt(repaired, w.trace, j);
        assert longer[..j] == w.trace[..j];
      }
    }
    forall i | 0 <= i < |w.replies|
      ensures Truthful(longer, w.replies[i])
    {
      assert Truthful(w.trace, w.replies[i]);
    }
  }

  lemma AdmittedPerform(repaired: bool, w: World, actor: Option<HandlerId>, op: Op)
    requires Admitted(repaired, w)
    ensures Admitted(repaired, Perform(repaired, w, actor, op))
  {
    AdmittedSnoc(repaired, w, Acted(actor, op));
  }

  lemma AdmittedAnswer(repaired: bool, w: World, h: HandlerId, msg: ServerMessage, sent: bool, next: Phase)
    requires Admitted(repaired, w) && Truthful(w.trace, Reply(h, msg))
    ensures Admitted(repaired, Answer(w, h, msg, sent, next))
  {
    hide AdmittedAt, Truthful;
  }

  lemma AdmittedFirst(repaired: bool, w: World, h: HandlerId, msg: Option<ClientMessage>, drawn: RoomId, sent: bool)
    requires Admitted(repaired, w) && Replays(repaired, w)
    ensures Admitted(repaired, DoFirst(repaired, w, h, msg, drawn, sent))
  {
    hide Admitted, Run, Ops, Apply, Answer;
    match msg {
      case Some(CreateRoom) =>
        var w1 := Perform(repaired, w, Some(h), Create(drawn));
        AdmittedPerform(repaired, w, Some(h), Create(drawn));
        AdmittedSnoc(repaired, w1, Entered(h, drawn, true));
        var w2 := Enter(w1, h, drawn, true);
        assert w2.trace[|w1.trace|] == Entered(h, drawn, true);
        AdmittedAnswer(repaired, w2, h, RoomCreated(drawn), sent, InRoom(drawn, true));
      case Some(JoinRoom(id)) =>
        if id in w.shared.rooms {
          var w1 := Enter(w, h, id, false);
          assert w1.trace[..|w.trace|] == w.trace;
          AdmittedSnoc(repaired, w, Entered(h, id, false));
          assert w1.trace[|w.trace|] == Entered(h, id, false);
          AdmittedAnswer(repaired, w1, h, RoomJoined, sent, InRoom(id, false));
        } else {
          AdmittedAnswer(repaired, w, h, ErrorNoSuchRoomID, sent, Ended(NoSuchRoomId));
        }
      case None => AdmittedAnswer(repaired, w, h, SyntaxError, sent, Ended(IoOrSerialization));
      case Some(_) => AdmittedAnswer(repaired, w, h, SyntaxError, sent, Ended(ReceivedIncorrectMessage));
    }
  }

  lemma AdmittedUpdate(repaired: bool, w: World, h: HandlerId, op: Op, sent: bool, next: Phase)
    requires Admitted(repaired, w) && op.Update?
    ensures Admitted(repaired, DoUpdate(repaired, w, h, op, sent, next))
  {
    AdmittedPerform(repaired, w, Some(h), op);
    hide AdmittedAt, Truthful, Perform;
    AdmittedNoRoom(repaired, Perform(repaired, w, Some(h), op), h, sent);
  }

  lemma AdmittedNoRoom(repaired: bool, w: World, h: HandlerId, sent: bool)
    requires Admitted(repaired, w)
    ensures Admitted(repaired, Answer(w, h, ErrorNoSuchRoomID, sent, Ended(NoSuchRoomId)))
  {
    hide AdmittedAt;
    AdmittedAnswer(repaired, w, h, ErrorNoSuchRoomID, sent, Ended(NoSuchRoomId));
  }

  lemma AdmittedNext(repaired: bool, w: World, h: HandlerId, p: Phase, msg: Option<ClientMessage>,
                     peer: Option<SocketAddr>, sent: bool)
    requires Admitted(repaired, w) && p.InRoom?
    ensures Admitted(repaired, DoNext(repaired, w, h, p, msg, peer, sent))
  {
    hide AdmittedAt, Apply;
    match msg {
      case Some(SendPrivateAddr(addr)) =>
        if peer.Some? {
          var next := if addr.None? then p else AddingPrivate(p.id, p.isCreator, addr.value);
          AdmittedUpdate(repaired, w, h, Update(p.id, p.isCreator, peer.value, true), sent, next);
        }
      case Some(DoneSending) =>
        var w1 := Perform(repaired, w, Some(h), SetDone(p.id, p.isCreator));
        AdmittedPerform(repaired, w, Some(h), SetDone(p.id, p.isCreator));
        AdmittedNoRoom(repaired, w1, h, sent);
      case None => AdmittedAnswer(repaired, w, h, SyntaxError, sent, Ended(IoOrSerialization));
      case Some(_) => AdmittedAnswer(repaired, w, h, SyntaxError, sent, Ended(ReceivedIncorrectMessage));
    }
  }

  lemma AdmittedStep(repaired: bool, w: World, step: Step)
    requires Admitted(repaired, w) && Replays(repaired, w)
    ensures Admitted(repaired, Take(repaired, w, step))
  {
    hide AdmittedAt, Apply, Run, DoFirst, DoNext, DoUpdate;
    match step {
      case Timer(id) => AdmittedPerform(repaired, w, None, Expire(id));
      case Connect(h) =>
      case First(h, msg, drawn, sent) => AdmittedFirst(repaired, w, h, msg, drawn, sent);
      case Next(h, msg, peer, sent) =>
        if h in w.handlers && w.handlers[h].InRoom? {
          AdmittedNext(repaired, w, h, w.handlers[h], msg, peer, sent);
        }
      case Private(h, sent) =>
        if h in w.handlers && w.handlers[h].AddingPrivate? {
          var p := w.handlers[h];
          AdmittedUpdate(repaired, w, h, Update(p.id, p.isCreator, p.addr, false), sent, InRoom(p.id, p.isCreator));
        }
      case Resume(h, sent) =>
    }
  }

  /**
   * In every interleaving a handler enters only a room that it has just created or that is
   * there at that moment, and tells its client so only then.
   */
  lemma {:induction false} OnlyRealRoomsAreEntered(repaired: bool, steps: seq<Step>)
    ensures Admitted(repaired, After(repaired, steps))
    decreases |steps|
  {
    if steps != [] {
      OnlyRealRoomsAreEntered(repaired, steps[..|steps| - 1]);
      InterleavingsReplay(repaired, steps[..|steps| - 1]);
      AdmittedStep(repaired, After(repaired, steps[..|steps| - 1]), steps[|steps| - 1]);
    }
  }

  /** So after any interleaving each address slot is the last address that any handler sent for it. */
  lemma InterleavedContacts(repaired: bool, steps: seq<Step>, id: RoomId, isCreator: bool, public: bool, v6: bool)
    requires id in After(repaired, steps).shared.rooms
    ensures var w := After(repaired, steps);
            w.shared.rooms[id].Slot(isCreator, public, v6) == LastAddr(Ops(w.trace), id, isCreator, public, v6)
  {
    InterleavingsReplay(repaired, steps);
    ContactsFollowLog(repaired, Ops(After(repaired, steps).trace), id, isCreator, public, v6);
  }

  /** No client has been sent contacts, and waiting handlers wait for channels that exist. */
  ghost predicate Silent(w: World) {
    && (forall i :: 0 <= i < |w.replies| ==> !w.replies[i].msg.SharePeerContacts?)
    && (forall h :: h in w.handlers && w.handlers[h].Waiting? ==> w.handlers[h].rx < |w.shared.channels|)
  }

  lemma SilentPerform(w: World, actor: Option<HandlerId>, op: Op)
    requires Silent(w)
    ensures Silent(Perform(false, w, actor, op))
  {
    ChannelsGrow(w.shared, op);
  }

  lemma SilentBecome(w: World, h: HandlerId, p: Phase)
    requires Silent(w) && (p.Waiting? ==> p.rx < |w.shared.channels|)
    ensures Silent(Become(w, h, p))
  {
  }

  lemma SilentAnswer(w: World, h: HandlerId, msg: ServerMessage, sent: bool, next: Phase)
    requires Silent(w) && !msg.SharePeerContacts? && !next.Waiting?
    ensures Silent(Answer(w, h, msg, sent, next))
  {
  }

  lemma SilentFirst(w: World, h: HandlerId, msg: Option<ClientMessage>, drawn: RoomId, sent: bool)
    requires Silent(w)
    ensures Silent(DoFirst(false, w, h, msg, drawn, sent))
  {
    SilentAnswer(w, h, SyntaxError, sent, Ended(IoOrSerialization));
    SilentAnswer(w, h, SyntaxError, sent, Ended(ReceivedIncorrectMessage));
    SilentAnswer(w, h, ErrorNoSuchRoomID, sent, Ended(NoSuchRoomId));
    var w1 := Perform(false, w, Some(h), Create(drawn));
    SilentPerform(w, Some(h), Create(drawn));
    hide Perform, Apply;
    SilentAnswer(Enter(w1, h, drawn, true), h, RoomCreated(drawn), sent, InRoom(drawn, true));
    if msg.Some? && msg.value.JoinRoom? {
      SilentAnswer(Enter(w, h, msg.value.id, false), h, RoomJoined, sent, InRoom(msg.value.id, false));
    }
  }

  lemma SilentUpdate(w: World, h: HandlerId, op: Op, sent: bool, next: Phase)
    requires Silent(w) && op.Update? && !next.Waiting?
    ensures Silent(DoUpdate(false, w, h, op, sent, next))
  {
    SilentPerform(w, Some(h), op);
    hide Apply;
  }

  lemma SilentNext(w: World, h: HandlerId, p: Phase, msg: Option<ClientMessage>, peer: Option<SocketAddr>, sent: bool)
    requires Silent(w) && p.InRoom?
    ensures Silent(DoNext(false, w, h, p, msg, peer, sent))
  {
    match msg {
      case Some(SendPrivateAddr(addr)) =>
        if peer.Some? {
          var next := if addr.None? then p else AddingPrivate(p.id, p.isCreator, addr.value);
          SilentUpdate(w, h, Update(p.id, p.isCreator, peer.value, true), sent, next);
        }
      case Some(DoneSending) =>
        SilentPerform(w, Some(h), SetDone(p.id, p.isCreator));
        ChannelsGrow(w.shared, SetDone(p.id, p.isCreator));
        hide Apply;
      case _ =>
    }
  }

  lemma SilentStep(w: World, step: Step)
    requires Silent(w) && Quiet(w.shared)
    ensures Silent(Take(false, w, step))
  {
    hide DoFirst, DoNext, DoUpdate, Perform, Quiet, Silent;
    match step {
      case Timer(id) => SilentPerform(w, None, Expire(id));
      case Connect(h) => SilentBecome(w, h, Greeting);
      case First(h, msg, drawn, sent) => SilentFirst(w, h, msg, drawn, sent);
      case Next(h, msg, peer, sent) =>
        if h in w.handlers && w.handlers[h].InRoom? {
          SilentNext(w, h, w.handlers[h], msg, peer, sent);
        }
      case Private(h, sent) =>
        if h in w.handlers && w.handlers[h].AddingPrivate? {
          var p := w.handlers[h];
          SilentUpdate(w, h, Update(p.id, p.isCreator, p.addr, false), sent, InRoom(p.id, p.isCreator));
        }
      case Resume(h, sent) =>
        if h in w.handlers && w.handlers[h].Waiting? && w.handlers[h].rx < |w.shared.channels| {
          EveryReceiverIsDropped(w.shared, w.handlers[h].rx);
          SilentBecome(w, h, Ended(RoomTimedOut));
        }
    }
  }

  lemma EveryReceiverIsDropped(s: Shared, c: ChannelId)
    requires Quiet(s) && c < |s.channels|
    ensures s.channels[c] == Dropped
  {
  }

  lemma ChannelsGrow(s: Shared, op: Op)
    ensures |s.channels| <= |Apply(false, s, op).channels|
    ensures op.SetDone? && op.id in s.rooms ==> |s.channels| < |Apply(false, s, op).channels|
  {
  }

  lemma {:induction false} NeverShares(steps: seq<Step>)
    ensures Silent(After(false, steps)) && Quiet(After(false, steps).shared)
    decreases |steps|
  {
    hide Quiet, Take;
    if steps != [] {
      var front := steps[..|steps| - 1];
      NeverShares(front);
      SilentStep(After(false, front), steps[|steps| - 1]);
    }
    InterleavingsReplay(false, steps);
    NothingIsExchanged(Ops(After(false, steps).trace));
  }

  /**
   * However handlers and timers interleave, the code as written never sends a client the
   * contacts, and a handler that waits for them ends with RoomTimedOut when it looks.
   */
  lemma EveryDoneTimesOut(steps: seq<Step>, h: HandlerId, sent: bool)
    ensures var w := After(false, steps);
            && (forall i :: 0 <= i < |w.replies| ==> !w.replies[i].msg.SharePeerContacts?)
            && (h in w.handlers && w.handlers[h].Waiting? ==>
                  Take(false, w, Resume(h, sent)) == Become(w, h, Ended(RoomTimedOut)))
  {
    hide After;
    NeverShares(steps);
    var w := After(false, steps);
    if h in w.handlers && w.handlers[h].Waiting? {
      EveryReceiverIsDropped(w.shared, w.handlers[h].rx);
    }
  }

  /** Who writes to a room has entered a room of that number before, in that role. */
  ghost predicate Disciplined(trace: seq<Event>) {
    forall j :: 0 <= j < |trace| && trace[j].Acted? && (trace[j].op.Update? || trace[j].op.SetDone?) ==>
      trace[j].actor.Some? && Entered(trace[j].actor.value, trace[j].op.id, trace[j].op.isCreator) in trace[..j]
  }

  predicate Inside(p: Phase) {
    p.InRoom? || p.AddingPrivate? || p.Waiting?
  }

  /** A handler in a room has entered it, and one that has not yet greeted has entered none. */
  ghost predicate Orderly(w: World) {
    && Disciplined(w.trace)
    && (forall h :: h in w.handlers && Inside(w.handlers[h]) ==>
          Entered(h, w.handlers[h].id, w.handlers[h].isCreator) in w.trace)
    && (forall i :: 0 <= i < |w.trace| && w.trace[i].Entered? ==>
          w.trace[i].h in w.handlers && w.handlers[w.trace[i].h] != Greeting)
    && (forall i, j :: 0 <= i < j < |w.trace| && w.trace[i].Entered? && w.trace[j].Entered? ==>
          w.trace[i].h != w.trace[j].h)
  }

  lemma DisciplinedSnoc(trace: seq<Event>, e: Event)
    requires Disciplined(trace)
    requires e.Acted? && (e.op.Update? || e.op.SetDone?) ==>
               e.actor.Some? && Entered(e.actor.value, e.op.id, e.op.isCreator) in trace
    ensures Disciplined(trace + [e])
  {
    var longer := trace + [e];
    assert longer[..|trace|] == trace;
    assert forall j :: 0 <= j < |trace| ==> longer[..j] == trace[..j];
  }

  /** A lock section by a handler that is in the room, by a newcomer that creates it, or by a timer. */
  lemma OrderlyPerform(repaired: bool, w: World, actor: Option<HandlerId>, op: Op)
    requires Orderly(w)
    requires op.Update? || op.SetDone? ==>
               && actor.Some? && actor.value in w.handlers
               && var p := w.handlers[actor.value];
                  Inside(p) && p.id == op.id && p.isCreator == op.isCreator
    ensures Orderly(Perform(repaired, w, actor, op))
  {
    DisciplinedSnoc(w.trace, Acted(actor, op));
    hide Apply, Disciplined;
  }

  lemma OrderlyEnter(w: World, h: HandlerId, id: RoomId, isCreator: bool, p: Phase)
    requires Orderly(w) && h in w.handlers && w.handlers[h] == Greeting
    requires p == InRoom(id, isCreator) || p.Ended?
    ensures Orderly(Become(Enter(w, h, id, isCreator), h, p))
  {
    DisciplinedSnoc(w.trace, Entered(h, id, isCreator));
    hide Disciplined;
    var trace := w.trace + [Entered(h, id, isCreator)];
    assert trace[|w.trace|] == Entered(h, id, isCreator);
  }

  /** Changing phase without leaving the room, or leaving it, or arriving. */
  lemma OrderlyBecome(w: World, h: HandlerId, p: Phase)
    requires Orderly(w)
    requires Inside(p) ==> h in w.handlers && Inside(w.handlers[h]) && p.id == w.handlers[h].id &&
                           p.isCreator == w.handlers[h].isCreator
    requires p.Greeting? ==> h !in w.handlers
    ensures Orderly(Become(w, h, p))
  {
  }

  lemma OrderlyAnswer(w: World, h: HandlerId, msg: ServerMessage, sent: bool, next: Phase)
    requires Orderly(Become(w, h, next)) && Orderly(Become(w, h, Ended(IoOrSerialization)))
    ensures Orderly(Answer(w, h, msg, sent, next))
  {
  }

  lemma OrderlyEnd(w: World, h: HandlerId, msg: ServerMessage, sent: bool, error: ServerError)
    requires Orderly(w)
    ensures Orderly(Answer(w, h, msg, sent, Ended(error)))
  {
    OrderlyBecome(w, h, Ended(error));
    OrderlyBecome(w, h, Ended(IoOrSerialization));
    OrderlyAnswer(w, h, msg, sent, Ended(error));
  }

  lemma OrderlyFirst(repaired: bool, w: World, h: HandlerId, msg: Option<ClientMessage>, drawn: RoomId, sent: bool)
    requires Orderly(w) && h in w.handlers && w.handlers[h] == Greeting
    ensures Orderly(DoFirst(repaired, w, h, msg, drawn, sent))
  {
    hide Orderly, Become, Answer;
    match msg {
      case Some(CreateRoom) =>
        var w1 := Perform(repaired, w, Some(h), Create(drawn));
        OrderlyPerform(repaired, w, Some(h), Create(drawn));
        OrderlyEnter(w1, h, drawn, true, InRoom(drawn, true));
        OrderlyEnter(w1, h, drawn, true, Ended(IoOrSerialization));
        OrderlyAnswer(Enter(w1, h, drawn, true), h, RoomCreated(drawn), sent, InRoom(drawn, true));
      case Some(JoinRoom(id)) =>
        OrderlyEnter(w, h, id, false, InRoom(id, false));
        OrderlyEnter(w, h, id, false, Ended(IoOrSerialization));
        OrderlyAnswer(Enter(w, h, id, false), h, RoomJoined, sent, InRoom(id, false));
        OrderlyEnd(w, h, ErrorNoSuchRoomID, sent, NoSuchRoomId);
      case None => OrderlyEnd(w, h, SyntaxError, sent, IoOrSerialization);
      case Some(_) => OrderlyEnd(w, h, SyntaxError, sent, ReceivedIncorrectMessage);
    }
  }

  lemma OrderlyUpdate(repaired: bool, w: World, h: HandlerId, op: Op, sent: bool, next: Phase)
    requires Orderly(w) && op.Update? && h in w.handlers && Inside(w.handlers[h])
    requires next.InRoom? || next.AddingPrivate?
    requires w.handlers[h].id == op.id == next.id && w.handlers[h].isCreator == op.isCreator == next.isCreator
    ensures Orderly(DoUpdate(repaired, w, h, op, sent, next))
  {
    hide Orderly, Become, Answer;
    var w1 := Perform(repaired, w, Some(h), op);
    OrderlyPerform(repaired, w, Some(h), op);
    OrderlyBecome(w1, h, next);
    OrderlyEnd(w1, h, ErrorNoSuchRoomID, sent, NoSuchRoomId);
  }

  lemma OrderlyNext(repaired: bool, w: World, h: HandlerId, p: Phase, msg: Option<ClientMessage>,
                    peer: Option<SocketAddr>, sent: bool)
    requires Orderly(w) && h in w.handlers && w.handlers[h] == p && p.InRoom?
    ensures Orderly(DoNext(repaired, w, h, p, msg, peer, sent))
  {
    hide Orderly, Become, Answer;
    match msg {
      case Some(SendPrivateAddr(addr)) =>
        OrderlyBecome(w, h, Ended(IoOrSerialization));
        if peer.Some? {
          var next := if addr.None? then p else AddingPrivate(p.id, p.isCreator, addr.value);
          OrderlyUpdate(repaired, w, h, Update(p.id, p.isCreator, peer.value, true), sent, next);
        }
      case Some(DoneSending) =>
        var w1 := Perform(repaired, w, Some(h), SetDone(p.id, p.isCreator));
        OrderlyPerform(repaired, w, Some(h), SetDone(p.id, p.isCreator));
        OrderlyBecome(w1, h, Waiting(p.id, p.isCreator, |w.shared.channels|));
        OrderlyEnd(w1, h, ErrorNoSuchRoomID, sent, NoSuchRoomId);
      case None => OrderlyEnd(w, h, SyntaxError, sent, IoOrSerialization);
      case Some(_) => OrderlyEnd(w, h, SyntaxError, sent, ReceivedIncorrectMessage);
    }
  }

  lemma OrderlyResume(w: World, h: HandlerId, p: Phase, sent: bool)
    requires Orderly(w) && h in w.handlers && w.handlers[h] == p && p.Waiting?
    ensures Orderly(DoResume(w, h, p, sent))
  {
    hide Orderly, Become, Answer;
    OrderlyBecome(w, h, Ended(RoomTimedOut));
    OrderlyBecome(w, h, Ended(IoOrSerialization));
    OrderlyBecome(w, h, InRoom(p.id, p.isCreator));
    if p.rx < |w.shared.channels| && w.shared.channels[p.rx].Sent? {
      var c := w.shared.channels[p.rx];
      OrderlyAnswer(w, h, SharePeerContacts(c.client, c.peer), sent, InRoom(p.id, p.isCreator));
    }
  }

  lemma OrderlyStep(repaired: bool, w: World, step: Step)
    requires Orderly(w)
    ensures Orderly(Take(repaired, w, step))
  {
    hide Orderly, Become, DoFirst, DoNext, DoUpdate, DoResume, Perform;
    if step.Timer? {
      OrderlyPerform(repaired, w, None, Expire(step.id));
    } else if step.Connect? {
      if step.h !in w.handlers {
        OrderlyBecome(w, step.h, Greeting);
      }
    } else if step.h in w.handlers {
      var p := w.handlers[step.h];
      match step {
        case First(h, msg, drawn, sent) =>
          if p.Greeting? {
            OrderlyFirst(repaired, w, h, msg, drawn, sent);
          }
        case Next(h, msg, peer, sent) =>
          if p.InRoom? {
            OrderlyNext(repaired, w, h, p, msg, peer, sent);
          }
        case Private(h, sent) =>
          if p.AddingPrivate? {
            OrderlyUpdate(repaired, w, h, Update(p.id, p.isCreator, p.addr, false), sent, InRoom(p.id, p.isCreator));
          }
        case Resume(h, sent) =>
          if p.Waiting? {
            OrderlyResume(w, h, p, sent);
          }
      }
    }
  }

  /**
   * In every interleaving, of either version: no handler writes to a room before it has
   * created or joined one of that number, it always writes in the role it got then, and it
   * enters at most once.
   */
  lemma {:induction false} WritersHaveEntered(repaired: bool, steps: seq<Step>)
    ensures Orderly(After(repaired, steps))
    decreases |steps|
  {
    if steps != [] {
      WritersHaveEntered(repaired, steps[..|steps| - 1]);
      OrderlyStep(repaired, After(repaired, steps[..|steps| - 1]), steps[|steps| - 1]);
    }
  }

  // ---------- What a client is told ----------

  /** The step sends `h` this one reply and leaves it in `next`, or leaves it ended if the reply cannot be sent. */
  ghost predicate Told(w: World, v: World, h: HandlerId, msg: ServerMessage, sent: bool, next: Phase) {
    && v.replies == w.replies + (if sent then [Reply(h, msg)] else [])
    && v.handlers == w.handlers[h := if sent then next else Ended(IoOrSerialization)]
  }

  /** The first message: a room is created, or joined exactly when it is there, and anything else is refused. */
  lemma FirstIsAnswered(repaired: bool, w: World, h: HandlerId, msg: Option<ClientMessage>, drawn: RoomId, sent: bool)
    requires h in w.handlers && w.handlers[h] == Greeting
    ensures var v := Take(repaired, w, First(h, msg, drawn, sent));
            match msg
            case Some(CreateRoom) =>
              if drawn !in w.shared.rooms && drawn < 1_048_576 then
                && Told(w, v, h, RoomCreated(drawn), sent, InRoom(drawn, true))
                && v.shared.rooms == w.shared.rooms[drawn := NEW_ROOM]
                && v.shared.timers == w.shared.timers + multiset{drawn}
              else v == w
            case Some(JoinRoom(id)) =>
              && v.shared == w.shared
              && (if id in w.shared.rooms then Told(w, v, h, RoomJoined, sent, InRoom(id, false))
                  else Told(w, v, h, ErrorNoSuchRoomID, sent, Ended(NoSuchRoomId)))
            case Some(_) => v.shared == w.shared && Told(w, v, h, SyntaxError, sent, Ended(ReceivedIncorrectMessage))
            case None => v.shared == w.shared && Told(w, v, h, SyntaxError, sent, Ended(IoOrSerialization))
  {
    assert w.replies + [] == w.replies;
  }

  /** A later message: addresses go into the room, "done" starts a wait, and anything else is refused. */
  lemma NextIsAnswered(repaired: bool, w: World, h: HandlerId, msg: Option<ClientMessage>, peer: Option<SocketAddr>, sent: bool)
    requires h in w.handlers && w.handlers[h].InRoom?
    ensures var p := w.handlers[h];
            var v := Take(repaired, w, Next(h, msg, peer, sent));
            match msg
            case Some(SendPrivateAddr(addr)) =>
              if peer.None? then
                v.shared == w.shared && v.replies == w.replies && v.handlers == w.handlers[h := Ended(IoOrSerialization)]
              else if p.id in w.shared.rooms then
                && v.shared == Apply(repaired, w.shared, Update(p.id, p.isCreator, peer.value, true))
                && v.replies == w.replies
                && v.handlers == w.handlers[h := if addr.Some? then AddingPrivate(p.id, p.isCreator, addr.value) else p]
              else v.shared == w.shared && Told(w, v, h, ErrorNoSuchRoomID, sent, Ended(NoSuchRoomId))
            case Some(DoneSending) =>
              if p.id in w.shared.rooms then
                && v.shared == Apply(repaired, w.shared, SetDone(p.id, p.isCreator))
                && v.replies == w.replies
                && v.handlers == w.handlers[h := Waiting(p.id, p.isCreator, |w.shared.channels|)]
              else v.shared == w.shared && Told(w, v, h, ErrorNoSuchRoomID, sent, Ended(NoSuchRoomId))
            case Some(_) => v.shared == w.shared && Told(w, v, h, SyntaxError, sent, Ended(ReceivedIncorrectMessage))
            case None => v.shared == w.shared && Told(w, v, h, SyntaxError, sent, Ended(IoOrSerialization))
  {
    assert w.replies + [] == w.replies;
  }

  /** The private address of a message, stored in its own lock section. */
  lemma PrivateIsAnswered(repaired: bool, w: World, h: HandlerId, sent: bool)
    requires h in w.handlers && w.handlers[h].AddingPrivate?
    ensures var p := w.handlers[h];
            var v := Take(repaired, w, Private(h, sent));
            if p.id in w.shared.rooms then
              && v.shared == Apply(repaired, w.shared, Update(p.id, p.isCreator, p.addr, false))
              && v.replies == w.replies && v.handlers == w.handlers[h := InRoom(p.id, p.isCreator)]
            else v.shared == w.shared && Told(w, v, h, ErrorNoSuchRoomID, sent, Ended(NoSuchRoomId))
  {
    assert w.replies + [] == w.replies;
  }

  /** A waiting handler that looks: it goes on waiting, times out, or shares the contacts and is back in its room. */
  lemma ResumeIsAnswered(repaired: bool, w: World, h: HandlerId, sent: bool)
    requires h in w.handlers && w.handlers[h].Waiting? && w.handlers[h].rx < |w.shared.channels|
    ensures var p := w.handlers[h];
            var v := Take(repaired, w, Resume(h, sent));
            && v.shared == w.shared
            && match w.shared.channels[p.rx]
               case Undecided => v == w
               case Dropped => v.replies == w.replies && v.handlers == w.handlers[h := Ended(RoomTimedOut)]
               case Sent(client, peer) =>
                 Told(w, v, h, SharePeerContacts(client, peer), sent, InRoom(p.id, p.isCreator))
  {
    assert w.replies + [] == w.replies;
  }

  // ---------- What one handler does while others work ----------

  function TakeAll(repaired: bool, w: World, steps: seq<Step>): World
    decreases |steps|
  {
    if steps == [] then w else TakeAll(repaired, Take(repaired, w, steps[0]), steps[1..])
  }

  predicate Is(step: Step, h: HandlerId) {
    !step.Timer? && step.h == h
  }

  ghost predicate ByOthers(steps: seq<Step>, h: HandlerId) {
    forall i :: 0 <= i < |steps| ==> !Is(steps[i], h)
  }

  /** `w'` is later than `w`, `h` stands where it stood, and no reply has gone to it. */
  ghost predicate LeavesAlone(w: World, w': World, h: HandlerId) {
    && h in w.handlers && h in w'.handlers && w'.handlers[h] == w.handlers[h]
    && w.replies <= w'.replies
    && forall i :: |w.replies| <= i < |w'.replies| ==> w'.replies[i].h != h
  }

  lemma OtherFirst(repaired: bool, w: World, g: HandlerId, msg: Option<ClientMessage>, drawn: RoomId, sent: bool, h: HandlerId)
    requires h in w.handlers && g != h
    ensures LeavesAlone(w, DoFirst(repaired, w, g, msg, drawn, sent), h)
  {
    hide Apply, Enabled;
  }

  lemma OtherUpdate(repaired: bool, w: World, g: HandlerId, op: Op, sent: bool, next: Phase, h: HandlerId)
    requires h in w.handlers && g != h && op.Update?
    ensures LeavesAlone(w, DoUpdate(repaired, w, g, op, sent, next), h)
  {
    hide Apply;
  }

  lemma OtherNext(repaired: bool, w: World, g: HandlerId, p: Phase, msg: Option<ClientMessage>,
                  peer: Option<SocketAddr>, sent: bool, h: HandlerId)
    requires h in w.handlers && g != h && p.InRoom?
    ensures LeavesAlone(w, DoNext(repaired, w, g, p, msg, peer, sent), h)
  {
    hide Apply;
  }

  lemma OtherResume(w: World, g: HandlerId, p: Phase, sent: bool, h: HandlerId)
    requires h in w.handlers && g != h && p.Waiting?
    ensures LeavesAlone(w, DoResume(w, g, p, sent), h)
  {
  }

  /** Only a handler itself gives itself a new phase or sends its client a reply. */
  lemma OtherStep(repaired: bool, w: World, step: Step, h: HandlerId)
    requires h in w.handlers && !Is(step, h)
    ensures LeavesAlone(w, Take(repaired, w, step), h)
  {
    hide Apply, DoFirst, DoNext, DoUpdate, DoResume;
    if !step.Timer? && !step.Connect? && step.h in w.handlers {
      var p := w.handlers[step.h];
      match step {
        case First(g, msg, drawn, sent) => OtherFirst(repaired, w, g, msg, drawn, sent, h);
        case Next(g, msg, peer, sent) =>
          if p.InRoom? {
            OtherNext(repaired, w, g, p, msg, peer, sent, h);
          }
        case Private(g, sent) =>
          if p.AddingPrivate? {
            OtherUpdate(repaired, w, g, Update(p.id, p.isCreator, p.addr, false), sent, InRoom(p.id, p.isCreator), h);
          }
        case Resume(g, sent) =>
          if p.Waiting? {
            OtherResume(w, g, p, sent, h);
          }
      }
    }
  }

  lemma {:induction false} OthersLeaveAlone(repaired: bool, w: World, steps: seq<Step>, h: HandlerId)
    requires h in w.handlers && ByOthers(steps, h)
    ensures LeavesAlone(w, TakeAll(repaired, w, steps), h)
    decreases |steps|
  {
    hide Take;
    if steps != [] {
      OtherStep(repaired, w, steps[0], h);
      OthersLeaveAlone(repaired, Take(repaired, w, steps[0]), steps[1..], h);
    }
  }

  lemma {:induction false} AfterTakeAll(repaired: bool, steps: seq<Step>, more: seq<Step>)
    ensures TakeAll(repaired, After(repaired, steps), more) == After(repaired, steps + more)
    decreases |more|
  {
    hide Take;
    if more == [] {
      assert steps + more == steps;
    } else {
      var longer := steps + [more[0]];
      assert longer[..|steps|] == steps;
      assert steps + more == longer + more[1..];
      AfterTakeAll(repaired, longer, more[1..]);
    }
  }

  /**
   * One message, two lock sections, with any steps of others in between: the peer's own
   * address becomes the public one, the handler is not disturbed, and then the address in
   * the message becomes the private one, or the handler reports that the room is gone.
   */
  lemma AddressesAreStored(repaired: bool, w: World, h: HandlerId, addr: SocketAddr, peer: SocketAddr, mid: seq<Step>)
    requires h in w.handlers && w.handlers[h].InRoom? && w.handlers[h].id in w.shared.rooms
    requires ByOthers(mid, h)
    ensures var p := w.handlers[h];
            var w1 := Take(repaired, w, Next(h, Some(SendPrivateAddr(Some(addr))), Some(peer), true));
            var w2 := TakeAll(repaired, w1, mid);
            var w3 := Take(repaired, w2, Private(h, true));
            && p.id in w1.shared.rooms
            && w1.shared.rooms[p.id].Slot(p.isCreator, true, peer.V6?) == Some(peer.addr)
            && LeavesAlone(w1, w2, h)
            && h in w3.handlers
            && (p.id in w2.shared.rooms ==>
                  && w3.handlers[h] == p && p.id in w3.shared.rooms
                  && w3.shared.rooms[p.id].Slot(p.isCreator, false, addr.V6?) == Some(addr.addr))
            && (p.id !in w2.shared.rooms ==>
                  w3.handlers[h] == Ended(NoSuchRoomId) && w3.replies == w2.replies + [Reply(h, ErrorNoSuchRoomID)])
  {
    var p := w.handlers[h];
    var w1 := Take(repaired, w, Next(h, Some(SendPrivateAddr(Some(addr))), Some(peer), true));
    SlotStep(repaired, w.shared, Update(p.id, p.isCreator, peer, true), p.id, p.isCreator, true, peer.V6?);
    assert w1.handlers[h] == AddingPrivate(p.id, p.isCreator, addr);
    OthersLeaveAlone(repaired, w1, mid, h);
    StoresPrivate(repaired, TakeAll(repaired, w1, mid), h);
  }

  lemma StoresPrivate(repaired: bool, w: World, h: HandlerId)
    requires h in w.handlers && w.handlers[h].AddingPrivate?
    ensures var p := w.handlers[h];
            var w1 := Take(repaired, w, Private(h, true));
            && h in w1.handlers
            && (p.id in w.shared.rooms ==>
                  && w1.handlers[h] == InRoom(p.id, p.isCreator) && p.id in w1.shared.rooms
                  && w1.shared.rooms[p.id].Slot(p.isCreator, false, p.addr.V6?) == Some(p.addr.addr))
            && (p.id !in w.shared.rooms ==>
                  w1.handlers[h] == Ended(NoSuchRoomId) && w1.replies == w.replies + [Reply(h, ErrorNoSuchRoomID)])
  {
  }

  /**
   * In every interleaving as written, a handler in a live room that says "done" is told
   * nothing and ends with RoomTimedOut, whatever others do before it looks at its channel.
   */
  lemma DoneEndsInTimeout(steps: seq<Step>, h: HandlerId, peer: Option<SocketAddr>, sent: bool, mid: seq<Step>, sent': bool)
    requires var w := After(false, steps);
             h in w.handlers && w.handlers[h].InRoom? && w.handlers[h].id in w.shared.rooms
    requires ByOthers(mid, h)
    ensures var w := After(false, steps);
            var w2 := TakeAll(false, Take(false, w, Next(h, Some(DoneSending), peer, sent)), mid);
            var w3 := Take(false, w2, Resume(h, sent'));
            && h in w3.handlers && w3.handlers[h] == Ended(RoomTimedOut)
            && w.replies <= w3.replies
            && forall i :: |w.replies| <= i < |w3.replies| ==> w3.replies[i].h != h
  {
    var done := Next(h, Some(DoneSending), peer, sent);
    var longer := steps + [done];
    assert longer[..|steps|] == steps;
    var w1 := After(false, longer);
    assert w1.handlers[h].Waiting? && w1.replies == After(false, steps).replies;
    hide After, Take;
    OthersLeaveAlone(false, w1, mid, h);
    AfterTakeAll(false, longer, mid);
    EveryDoneTimesOut(longer + mid, h, sent');
  }

  lemma RefusesWrite(repaired: bool, w: World, h: HandlerId, msg: ClientMessage, peer: SocketAddr)
    requires h in w.handlers && w.handlers[h].InRoom? && w.handlers[h].id !in w.shared.rooms
    requires msg.SendPrivateAddr? || msg.DoneSending?
    ensures var w1 := Take(repaired, w, Next(h, Some(msg), Some(peer), true));
            && h in w1.handlers && w1.handlers[h] == Ended(NoSuchRoomId)
            && w1.replies == w.replies + [Reply(h, ErrorNoSuchRoomID)]
            && w1.shared == w.shared
  {
  }

  /**
   * A handler whose room has gone while others worked is first told so when it next sends an
   * address or "done": it ends with that one reply, and no room is touched.
   */
  lemma GoneRoomIsReported(repaired: bool, w: World, h: HandlerId, mid: seq<Step>, msg: ClientMessage, peer: SocketAddr)
    requires h in w.handlers && w.handlers[h].InRoom? && ByOthers(mid, h)
    requires w.handlers[h].id !in TakeAll(repaired, w, mid).shared.rooms
    requires msg.SendPrivateAddr? || msg.DoneSending?
    ensures var w1 := TakeAll(repaired, w, mid);
            var w2 := Take(repaired, w1, Next(h, Some(msg), Some(peer), true));
            && LeavesAlone(w, w1, h)
            && h in w2.handlers && w2.handlers[h] == Ended(NoSuchRoomId)
            && w2.replies == w1.replies + [Reply(h, ErrorNoSuchRoomID)]
            && w2.shared == w1.shared
  {
    hide Take;
    OthersLeaveAlone(repaired, w, mid, h);
    RefusesWrite(repaired, TakeAll(repaired, w, mid), h, msg, peer);
  }

  // ---------- The conversation, repaired ----------

  /** A step is at most one lock section, which is the first event it adds. */
  ghost predicate OneOp(repaired: bool, w: World, v: World) {
    && w.trace <= v.trace
    && (v.shared == w.shared ||
        (|w.trace| < |v.trace| && v.trace[|w.trace|].Acted? &&
         v.shared == Apply(repaired, w.shared, v.trace[|w.trace|].op)))
  }

  lemma StepIsOneOp(repaired: bool, w: World, step: Step)
    ensures OneOp(repaired, w, Take(repaired, w, step))
  {
    hide Apply;
  }

  /** From event `n` on nobody is done in that room and it does not expire. */
  ghost predicate Spares(trace: seq<Event>, n: nat, id: RoomId) {
    forall k :: n <= k < |trace| && trace[k].Acted? && trace[k].op.id == id ==>
      !trace[k].op.SetDone? && !trace[k].op.Expire?
  }

  /** While others work elsewhere, the client that is done goes on waiting in its room. */
  lemma {:induction false} StaysWaiting(w: World, mid: seq<Step>, c: ChannelId, id: RoomId, r: bool)
    requires Wired(w.shared) && Waits(w.shared, c, id, r)
    requires Spares(TakeAll(true, w, mid).trace, |w.trace|, id)
    ensures w.trace <= TakeAll(true, w, mid).trace
    ensures Wired(TakeAll(true, w, mid).shared) && Waits(TakeAll(true, w, mid).shared, c, id, r)
    decreases |mid|
  {
    hide Take, Wired, Waits, Apply;
    if mid != [] {
      var v := Take(true, w, mid[0]);
      StepIsOneOp(true, w, mid[0]);
      TraceGrows(v, mid[1..]);
      var last := TakeAll(true, v, mid[1..]);
      if v.shared != w.shared {
        var op := v.trace[|w.trace|].op;
        assert last.trace[|w.trace|] == v.trace[|w.trace|];
        WaitingPersists(w.shared, [op], c, id, r);
        OneMore(w.shared, op);
      }
      StaysWaiting(v, mid[1..], c, id, r);
    }
  }

  lemma OneMore(s: Shared, op: Op)
    ensures RunFrom(true, s, [op]) == Apply(true, s, op)
  {
    hide Apply;
    assert [op][1..] == [];
  }

  lemma {:induction false} TraceGrows(w: World, steps: seq<Step>)
    ensures w.trace <= TakeAll(true, w, steps).trace
    decreases |steps|
  {
    hide Take;
    if steps != [] {
      StepIsOneOp(true, w, steps[0]);
      TraceGrows(Take(true, w, steps[0]), steps[1..]);
    }
  }

  /** Whatever happens afterwards, an answer stays in its channel. */
  lemma {:induction false} AnswersStay(w: World, steps: seq<Step>, c: ChannelId)
    requires Wired(w.shared) && c < |w.shared.channels| && w.shared.channels[c] != Undecided
    ensures var s := TakeAll(true, w, steps).shared;
            Wired(s) && c < |s.channels| && s.channels[c] == w.shared.channels[c]
    decreases |steps|
  {
    hide Take, Wired, Apply;
    if steps != [] {
      var v := Take(true, w, steps[0]);
      StepIsOneOp(true, w, steps[0]);
      if v.shared != w.shared {
        var op := v.trace[|w.trace|].op;
        AnswerStays(w.shared, op, c);
        WiredStep(w.shared, op);
      }
      AnswersStay(v, steps[1..], c);
    }
  }

  /** The second of two clients to be done decides both channels and waits for its own. */
  lemma SecondDone(w: World, x: HandlerId, y: HandlerId, c: ChannelId, id: RoomId, r: bool, peer: Option<SocketAddr>, sent: bool)
    requires Wired(w.shared) && Waits(w.shared, c, id, r) && x != y
    requires x in w.handlers && w.handlers[x] == Waiting(id, r, c)
    requires y in w.handlers && w.handlers[y] == InRoom(id, !r)
    ensures var v := Take(true, w, Next(y, Some(DoneSending), peer, sent));
            var a, b := w.shared.rooms[id].Get(r).contact, w.shared.rooms[id].Get(!r).contact;
            var d := |w.shared.channels|;
            && Wired(v.shared) && v.replies == w.replies && c < d < |v.shared.channels|
            && v.handlers == w.handlers[y := Waiting(id, !r, d)]
            && v.shared.channels[c] == Sent(a, b) && v.shared.channels[d] == Sent(b, a)
  {
    NextIsAnswered(true, w, y, Some(DoneSending), peer, sent);
    RepairedDone(w.shared, id, !r);
    WiredStep(w.shared, SetDone(id, !r));
    WaitsInRange(w.shared, c, id, r);
  }

  /** Two clients that have been answered are told, one after the other. */
  lemma BothAreTold(w: World, x: HandlerId, y: HandlerId, c: ChannelId, d: ChannelId, a: FullContact, b: FullContact, id: RoomId, r: bool)
    requires x != y && x in w.handlers && y in w.handlers
    requires w.handlers[x] == Waiting(id, r, c) && w.handlers[y] == Waiting(id, !r, d)
    requires c < |w.shared.channels| && d < |w.shared.channels|
    requires w.shared.channels[c] == Sent(a, b) && w.shared.channels[d] == Sent(b, a)
    ensures var v := Take(true, Take(true, w, Resume(x, true)), Resume(y, true));
            && v.replies == w.replies + [Reply(x, SharePeerContacts(a, b)), Reply(y, SharePeerContacts(b, a))]
            && v.handlers == w.handlers[x := InRoom(id, r)][y := InRoom(id, !r)]
  {
    ResumeIsAnswered(true, w, x, true);
    var u := Take(true, w, Resume(x, true));
    ResumeIsAnswered(true, u, y, true);
    hide Take;
    assert w.replies + [Reply(x, SharePeerContacts(a, b))] + [Reply(y, SharePeerContacts(b, a))]
        == w.replies + [Reply(x, SharePeerContacts(a, b)), Reply(y, SharePeerContacts(b, a))];
  }

  /**
   * The conversation that the protocol is for, with the repair: two handlers are in a room
   * in opposite roles, one is done, the other is done, and both look at their channels. Any
   * steps of others may come in between, but for a "done" or the expiry of that room before
   * the second is done. Each client is told its own contact and the other's, as they are
   * when the second is done, and nothing else.
   */
  lemma RepairedConversation(w: World, x: HandlerId, y: HandlerId, peer: Option<SocketAddr>, mid: seq<Step>, late: seq<Step>)
    requires Wired(w.shared) && x != y && x in w.handlers && y in w.handlers
    requires w.handlers[x].InRoom? && w.handlers[y] == InRoom(w.handlers[x].id, !w.handlers[x].isCreator)
    requires var p := w.handlers[x]; p.id in w.shared.rooms && w.shared.rooms[p.id].Get(!p.isCreator).sender == None
    requires ByOthers(mid, x) && ByOthers(mid, y) && ByOthers(late, x) && ByOthers(late, y)
    requires var w1 := Take(true, w, Next(x, Some(DoneSending), peer, true));
             Spares(TakeAll(true, w1, mid).trace, |w1.trace|, w.handlers[x].id)
    ensures var p := w.handlers[x];
            var w1 := Take(true, w, Next(x, Some(DoneSending), peer, true));
            var w2 := TakeAll(true, w1, mid);
            var w3 := Take(true, w2, Next(y, Some(DoneSending), peer, true));
            var w4 := TakeAll(true, w3, late);
            var w5 := Take(true, Take(true, w4, Resume(x, true)), Resume(y, true));
            && w.replies <= w4.replies
            && (forall i :: |w.replies| <= i < |w4.replies| ==> w4.replies[i].h != x && w4.replies[i].h != y)
            && p.id in w2.shared.rooms
            && var room := w2.shared.rooms[p.id];
               var a, b := room.Get(p.isCreator).contact, room.Get(!p.isCreator).contact;
               && w5.replies == w4.replies + [Reply(x, SharePeerContacts(a, b)), Reply(y, SharePeerContacts(b, a))]
               && x in w5.handlers && w5.handlers[x] == p
               && y in w5.handlers && w5.handlers[y] == w.handlers[y]
  {
    var p, c := w.handlers[x], |w.shared.channels|;
    var w1 := Take(true, w, Next(x, Some(DoneSending), peer, true));
    NextIsAnswered(true, w, x, Some(DoneSending), peer, true);
    RepairedDone(w.shared, p.id, p.isCreator);
    WiredStep(w.shared, SetDone(p.id, p.isCreator));
    assert Waits(w1.shared, c, p.id, p.isCreator);
    hide Take, Wired, Apply;
    StaysWaiting(w1, mid, c, p.id, p.isCreator);
    OthersLeaveAlone(true, w1, mid, x);
    OthersLeaveAlone(true, w1, mid, y);
    var w2 := TakeAll(true, w1, mid);
    SecondDone(w2, x, y, c, p.id, p.isCreator, peer, true);
    var w3 := Take(true, w2, Next(y, Some(DoneSending), peer, true));
    var d := |w2.shared.channels|;
    AnswersStay(w3, late, c);
    AnswersStay(w3, late, d);
    OthersLeaveAlone(true, w3, late, x);
    OthersLeaveAlone(true, w3, late, y);
    var a, b := w2.shared.rooms[p.id].Get(p.isCreator).contact, w2.shared.rooms[p.id].Get(!p.isCreator).contact;
    BothAreTold(TakeAll(true, w3, late), x, y, c, d, a, b, p.id, p.isCreator);
  }

  // ---------- Which room a write reaches ----------

  predicate Does(e: Event, op: Op) {
    e.Acted? && e.op == op
  }

  /** There is a room of that number after the events of `trace`. */
  ghost predicate There(trace: seq<Event>, id: RoomId) {
    id in Run(false, Ops(trace)).rooms
  }

  lemma {:induction false} LegalPrefix(trace: seq<Event>, j: nat)
    requires Legal(false, Ops(trace)) && j <= |trace|
    ensures Legal(false, Ops(trace[..j]))
    decreases |trace|
  {
    hide Run;
    if j == |trace| {
      assert trace[..j] == trace;
    } else {
      var front := trace[..|trace| - 1];
      OpsSnoc(front, trace[|trace| - 1]);
      assert trace == front + [trace[|trace| - 1]];
      LegalFront(Ops(front), Ops(trace));
      LegalPrefix(front, j);
      assert front[..j] == trace[..j];
    }
  }

  lemma LegalFront(front: seq<Op>, ops: seq<Op>)
    requires Legal(false, ops) && (ops == front || (ops != [] && front == ops[..|ops| - 1]))
    ensures Legal(false, front)
  {
  }

  /** One event: what it does to the presence of a room. */
  lemma ThereStep(trace: seq<Event>, m: nat, id: RoomId)
    requires Legal(false, Ops(trace)) && m < |trace|
    ensures There(trace[..m + 1], id) <==>
            Does(trace[m], Create(id)) || (There(trace[..m], id) && !Does(trace[m], Expire(id)))
    ensures Does(trace[m], Create(id)) ==> !There(trace[..m], id)
  {
    hide Run, Legal, Ops;
    var front, e := trace[..m], trace[m];
    assert trace[..m + 1] == front + [e];
    LegalPrefix(trace, m + 1);
    OpsSnoc(front, e);
    if e.Acted? {
      LastOp(Ops(front), e.op, id);
    }
  }

  lemma LastOp(ops: seq<Op>, op: Op, id: RoomId)
    requires Legal(false, ops + [op])
    ensures id in Run(false, ops + [op]).rooms <==> op == Create(id) || (id in Run(false, ops).rooms && op != Expire(id))
    ensures op == Create(id) ==> id !in Run(false, ops).rooms
  {
    assert (ops + [op])[..|ops|] == ops;
    NothingIsExchanged(ops);
    PresenceStep(Run(false, ops), op, id);
  }

  /** The room is there at every moment from event `i` to event `j`: it is one and the same room. */
  ghost predicate SameRoom(trace: seq<Event>, i: int, j: int, id: RoomId)
    requires 0 <= i <= j <= |trace|
  {
    forall k :: i <= k <= j ==> There(trace[..k], id)
  }

  lemma {:induction false} NoExpiryKeeps(trace: seq<Event>, i: nat, k: nat, id: RoomId)
    requires Legal(false, Ops(trace)) && i <= k <= |trace| && There(trace[..i], id)
    requires forall m :: i <= m < k ==> !Does(trace[m], Expire(id))
    ensures There(trace[..k], id)
    decreases k
  {
    hide There, Legal, Ops, Run, Does;
    if i < k {
      NoExpiryKeeps(trace, i, k - 1, id);
      ThereStep(trace, k - 1, id);
    }
  }

  lemma {:induction false} NoCreationKeepsAway(trace: seq<Event>, k: nat, j: nat, id: RoomId)
    requires Legal(false, Ops(trace)) && k <= j <= |trace| && !There(trace[..k], id)
    requires forall m :: k <= m < j ==> !Does(trace[m], Create(id))
    ensures !There(trace[..j], id)
    decreases j
  {
    hide There, Legal, Ops, Run, Does;
    if k < j {
      NoCreationKeepsAway(trace, k, j - 1, id);
      ThereStep(trace, j - 1, id);
    }
  }

  /** A room that is there at two moments is the same room exactly when it has not expired, and exactly when none was created, in between. */
  lemma SameRoomExactly(trace: seq<Event>, i: nat, j: nat, id: RoomId)
    requires Legal(false, Ops(trace)) && i <= j <= |trace|
    requires There(trace[..i], id) && There(trace[..j], id)
    ensures SameRoom(trace, i, j, id) <==> forall m :: i <= m < j ==> !Does(trace[m], Expire(id))
    ensures SameRoom(trace, i, j, id) <==> forall m :: i <= m < j ==> !Does(trace[m], Create(id))
  {
    hide There, Legal, Ops, Run, Does;
    if SameRoom(trace, i, j, id) {
      forall m | i <= m < j
        ensures !Does(trace[m], Expire(id)) && !Does(trace[m], Create(id))
      {
        ThereStep(trace, m, id);
        assert There(trace[..m], id) && There(trace[..m + 1], id);
      }
    }
    if forall m :: i <= m < j ==> !Does(trace[m], Expire(id)) {
      forall k | i <= k <= j
        ensures There(trace[..k], id)
      {
        NoExpiryKeeps(trace, i, k, id);
      }
    }
    if forall m :: i <= m < j ==> !Does(trace[m], Create(id)) {
      forall k | i <= k <= j
        ensures There(trace[..k], id)
      {
        if !There(trace[..k], id) {
          NoCreationKeepsAway(trace, k, j, id);
        }
      }
    }
  }

  /** A room is there when a handler enters it. */
  lemma EnteredRoomIsThere(steps: seq<Step>, i: nat)
    requires i < |After(false, steps).trace| && After(false, steps).trace[i].Entered?
    ensures There(After(false, steps).trace[..i], After(false, steps).trace[i].id)
  {
    hide After;
    var w := After(false, steps);
    OnlyRealRoomsAreEntered(false, steps);
    InterleavingsReplay(false, steps);
    assert AdmittedAt(false, w.trace, i);
    if w.trace[i].isCreator {
      ThereStep(w.trace, i - 1, w.trace[i].id);
    }
  }

  /**
   * In every interleaving as written, every address and every "done" is by a handler that
   * entered a room of that number before. If there is a room of that number at the time, it
   * is the room entered exactly when no timer of that number has fired since, and exactly
   * when no room of that number has been created since.
   */
  lemma WriteReachesRoomEnteredExactly(steps: seq<Step>, j: nat) returns (i: nat)
    requires var trace := After(false, steps).trace;
             j < |trace| && trace[j].Acted? && (trace[j].op.Update? || trace[j].op.SetDone?)
    ensures var trace := After(false, steps).trace;
            var op := trace[j].op;
            && i < j && trace[j].actor.Some?
            && trace[i] == Entered(trace[j].actor.value, op.id, op.isCreator)
            && There(trace[..i], op.id)
            && (There(trace[..j], op.id) ==>
                  && (SameRoom(trace, i, j, op.id) <==> forall m :: i <= m < j ==> !Does(trace[m], Expire(op.id)))
                  && (SameRoom(trace, i, j, op.id) <==> forall m :: i <= m < j ==> !Does(trace[m], Create(op.id))))
  {
    hide After, There, Legal, Run;
    var trace := After(false, steps).trace;
    WritersHaveEntered(false, steps);
    InterleavingsReplay(false, steps);
    var e := Entered(trace[j].actor.value, trace[j].op.id, trace[j].op.isCreator);
    i :| 0 <= i < j && trace[..j][i] == e;
    EnteredRoomIsThere(steps, i);
    if There(trace[..j], trace[j].op.id) {
      SameRoomExactly(trace, i, j, trace[j].op.id);
    }
  }

  /**
   * Entering is by number only: when its room has expired, any handler that stays connected
   * writes its address into the room that somebody else creates under the same number.
   */
  lemma StaleHandlerWritesToNewRoom(w: World, h: HandlerId, g: HandlerId, addr: SocketAddr)
    requires h in w.handlers && w.handlers[h].InRoom? && g !in w.handlers
    requires w.handlers[h].id < ROOM_IDS && 0 < w.shared.timers[w.handlers[h].id]
    ensures var p := w.handlers[h];
            var w1 := Take(false, w, Timer(p.id));
            var w2 := Take(false, Take(false, w1, Connect(g)), First(g, Some(CreateRoom), p.id, true));
            var w3 := Take(false, w2, Next(h, Some(SendPrivateAddr(None)), Some(addr), true));
            && p.id !in w1.shared.rooms
            && w2.trace == w1.trace + [Acted(Some(g), Create(p.id)), Entered(g, p.id, true)]
            && p.id in w3.shared.rooms
            && w3.shared.rooms[p.id].Slot(p.isCreator, true, addr.V6?) == Some(addr.addr)
  {
    var p := w.handlers[h];
    var w1 := Take(false, w, Timer(p.id));
    assert p.id !in w1.shared.rooms;
    var wc := Take(false, w1, Connect(g));
    assert wc.shared == w1.shared && wc.trace == w1.trace;
    var w2 := Take(false, wc, First(g, Some(CreateRoom), p.id, true));
    assert w2.shared.rooms[p.id] == NEW_ROOM && w2.handlers[h] == p;
  }

  /** And so it can go in every interleaving as written in which a handler is in a live room. */
  lemma StaleWriteIsReachable(steps: seq<Step>, h: HandlerId, g: HandlerId, addr: SocketAddr) returns (more: seq<Step>)
    requires var w := After(false, steps);
             && h in w.handlers && w.handlers[h].InRoom? && w.handlers[h].id in w.shared.rooms && g !in w.handlers
    ensures var p := After(false, steps).handlers[h];
            var trace := After(false, steps + more).trace;
            && |trace| > 0 && trace[|trace| - 1] == Acted(Some(h), Update(p.id, p.isCreator, addr, true))
            && There(trace[..|trace| - 1], p.id) && There(trace, p.id)
            && exists m :: |After(false, steps).trace| <= m < |trace| - 1 && trace[m] == Acted(Some(g), Create(p.id))
  {
    hide After, TakeAll, Take, Run, Legal, Ops;
    var w := After(false, steps);
    var p := w.handlers[h];
    InterleavingsReplay(false, steps);
    NothingIsExchanged(Ops(w.trace));
    RoomIdsAreSmall(Ops(w.trace), p.id);
    more := [Timer(p.id), Connect(g), First(g, Some(CreateRoom), p.id, true),
             Next(h, Some(SendPrivateAddr(None)), Some(addr), true)];
    StaleTrace(w, h, g, addr);
    AfterTakeAll(false, steps, more);
    TakeAllFour(w, more[0], more[1], more[2], more[3]);
    InterleavingsReplay(false, steps + more);
    var w' := After(false, steps + more);
    var n := |w.trace|;
    assert w'.trace[n + 1] == Acted(Some(g), Create(p.id));
    assert There(w'.trace, p.id);
    ThereStep(w'.trace, |w'.trace| - 1, p.id);
    assert w'.trace[..|w'.trace|] == w'.trace;
  }

  lemma {:induction false} TakeAllCons(w: World, step: Step, rest: seq<Step>)
    ensures TakeAll(false, w, [step] + rest) == TakeAll(false, Take(false, w, step), rest)
  {
    hide Take;
    assert ([step] + rest)[1..] == rest;
  }

  lemma {:induction false} TakeAllFour(w: World, a: Step, b: Step, c: Step, d: Step)
    ensures TakeAll(false, w, [a, b, c, d]) == Take(false, Take(false, Take(false, Take(false, w, a), b), c), d)
  {
    hide Take;
    var w2 := Take(false, Take(false, w, a), b);
    TakeAllCons(w, a, [b, c, d]);
    TakeAllCons(Take(false, w, a), b, [c, d]);
    TakeAllCons(w2, c, [d]);
    TakeAllCons(Take(false, w2, c), d, []);
    assert [a] + [b, c, d] == [a, b, c, d] && [b] + [c, d] == [b, c, d] && [c] + [d] == [c, d] && [d] + [] == [d];
  }

  lemma StaleTrace(w: World, h: HandlerId, g: HandlerId, addr: SocketAddr)
    requires h in w.handlers && w.handlers[h].InRoom? && g !in w.handlers
    requires w.handlers[h].id < ROOM_IDS && 0 < w.shared.timers[w.handlers[h].id]
    ensures var p := w.handlers[h];
            var w1 := Take(false, w, Timer(p.id));
            var w2 := Take(false, Take(false, w1, Connect(g)), First(g, Some(CreateRoom), p.id, true));
            var w3 := Take(false, w2, Next(h, Some(SendPrivateAddr(None)), Some(addr), true));
            && w3.trace == w.trace + [Acted(None, Expire(p.id)), Acted(Some(g), Create(p.id)),
                                      Entered(g, p.id, true), Acted(Some(h), Update(p.id, p.isCreator, addr, true))]
            && p.id in w3.shared.rooms
  {
    StaleHandlerWritesToNewRoom(w, h, g, addr);
  }
}
