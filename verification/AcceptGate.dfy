/**
 * The per-address gate in front of the server: the accept loop and the five-second timers
 * over one locked map, with one step per lock section.
 */
module AcceptGate {
  import opened ByteStrings

  type Ip = nat
  type StreamId = nat
  type TaskId = nat

  const WAIT: nat := 5

  /**
   * A run of `serve_client`, then the timer it spawns: about to insert its address with a
   * stream in hand, inserted and about to spawn, or asleep until `due`.
   */
  datatype Task =
    | Inserting(stream: StreamId, ip: Ip)
    | Spawning(stream: StreamId, ip: Ip)
    | Sleeping(ip: Ip, due: nat)

  datatype Service = Service(stream: StreamId, ip: Ip, at: nat)

  /**
   * `acceptor` is the task the accept loop itself is busy with, `latest` who last inserted an
   * address, and `from` the addresses of the streams accepted, which are numbered in order.
   */
  datatype Gate = Gate(
    clock: nat,
    blocked: map<Ip, Option<StreamId>>,
    tasks: map<TaskId, Task>,
    acceptor: Option<TaskId>,
    from: seq<Ip>,
    served: seq<Service>,
    dropped: set<StreamId>,
    latest: map<Ip, TaskId>)

  const OPEN := Gate(0, map[], map[], None, [], [], {}, map[])

  datatype Step =
    | Tick
    | Accept(ip: Ip, task: TaskId)
    | Insert(task: TaskId, readable: bool)
    | Spawn(task: TaskId)
    | Fire(task: TaskId)

  function Lose(dropped: set<StreamId>, s: Option<StreamId>): set<StreamId> {
    if s.Some? then dropped + {s.value} else dropped
  }

  function QueuedAt(g: Gate, ip: Ip): Option<StreamId> {
    if ip in g.blocked then g.blocked[ip] else None
  }

  function Leave(acceptor: Option<TaskId>, t: TaskId): Option<TaskId> {
    if acceptor == Some(t) then None else acceptor
  }

  /** The accept loop takes a connection: a blocked address queues it, replacing what is queued. */
  function DoAccept(g: Gate, ip: Ip, t: TaskId): Gate {
    var s := |g.from|;
    if ip in g.blocked then
      g.(from := g.from + [ip], blocked := g.blocked[ip := Some(s)], dropped := Lose(g.dropped, g.blocked[ip]))
    else
      g.(from := g.from + [ip], tasks := g.tasks[t := Inserting(s, ip)], acceptor := Some(t))
  }

  /** `serve_client` blocks the address, or gives up if the peer address cannot be read. */
  function DoInsert(g: Gate, t: TaskId, s: StreamId, ip: Ip, readable: bool): Gate {
    if !readable then
      g.(tasks := g.tasks - {t}, acceptor := Leave(g.acceptor, t), dropped := g.dropped + {s})
    else
      g.(blocked := g.blocked[ip := None], dropped := Lose(g.dropped, QueuedAt(g, ip)),
         tasks := g.tasks[t := Spawning(s, ip)], latest := g.latest[ip := t])
  }

  /** The timer and the service of the stream are spawned. */
  function DoSpawn(g: Gate, t: TaskId, s: StreamId, ip: Ip): Gate {
    g.(tasks := g.tasks[t := Sleeping(ip, g.clock + WAIT)], acceptor := Leave(g.acceptor, t),
       served := g.served + [Service(s, ip, g.clock)])
  }

  /** A timer removes its address; a stream that was queued is in its hand from then on. */
  function DoFire(g: Gate, t: TaskId, ip: Ip): Gate {
    var q := QueuedAt(g, ip);
    g.(blocked := g.blocked - {ip},
       tasks := if q.Some? then g.tasks[t := Inserting(q.value, ip)] else g.tasks - {t})
  }

  /** A step, or nothing if it cannot happen now. */
  function Take(g: Gate, step: Step): Gate {
    match step
    case Tick => g.(clock := g.clock + 1)
    case Accept(ip, t) => if g.acceptor.Some? || t in g.tasks then g else DoAccept(g, ip, t)
    case Insert(t, readable) =>
      if t in g.tasks && g.tasks[t].Inserting? then DoInsert(g, t, g.tasks[t].stream, g.tasks[t].ip, readable) else g
    case Spawn(t) =>
      if t in g.tasks && g.tasks[t].Spawning? then DoSpawn(g, t, g.tasks[t].stream, g.tasks[t].ip) else g
    case Fire(t) =>
      if t in g.tasks && g.tasks[t].Sleeping? && g.tasks[t].due <= g.clock then DoFire(g, t, g.tasks[t].ip) else g
  }

  function After(steps: seq<Step>): Gate
    decreases |steps|
  {
    if steps == [] then OPEN else Take(After(steps[..|steps| - 1]), steps[|steps| - 1])
  }

  // ---------- Every blocked address has a timer ----------

  /** The task that last inserted a blocked address is still to remove it; the accept loop's task is not asleep. */
  ghost predicate Guarded(g: Gate) {
    && (forall ip :: ip in g.blocked ==>
          && ip in g.latest && g.latest[ip] in g.tasks
          && !g.tasks[g.latest[ip]].Inserting? && g.tasks[g.latest[ip]].ip == ip)
    && (g.acceptor.Some? ==> g.acceptor.value in g.tasks && !g.tasks[g.acceptor.value].Sleeping?)
  }

  lemma GuardedStep(g: Gate, step: Step)
    requires Guarded(g)
    ensures Guarded(Take(g, step))
  {
  }

  /** In every reachable state a blocked address has the timer of its latest insert asleep or about to be spawned. */
  lemma {:induction false} BlockedAddressesHaveTimers(steps: seq<Step>)
    ensures Guarded(After(steps))
    decreases |steps|
  {
    if steps != [] {
      BlockedAddressesHaveTimers(steps[..|steps| - 1]);
      GuardedStep(After(steps[..|steps| - 1]), steps[|steps| - 1]);
    }
  }

  // ---------- No stream is lost track of ----------

  datatype Place = AtService(i: nat) | AtQueue(ip: Ip) | InHand(t: TaskId) | Discarded

  predicate At(g: Gate, p: Place, s: StreamId) {
    match p
    case AtService(i) => i < |g.served| && g.served[i].stream == s
    case AtQueue(ip) => ip in g.blocked && g.blocked[ip] == Some(s)
    case InHand(t) => t in g.tasks && !g.tasks[t].Sleeping? && g.tasks[t].stream == s
    case Discarded => s in g.dropped
  }

  ghost predicate Somewhere(g: Gate, s: StreamId) {
    exists p: Place :: At(g, p, s)
  }

  /** Exactly the accepted streams are anywhere, and each in exactly one place. */
  ghost predicate Accounted(g: Gate) {
    && (forall s: StreamId :: s < |g.from| ==> Somewhere(g, s))
    && (forall s: StreamId, p: Place :: At(g, p, s) ==> s < |g.from|)
    && (forall s: StreamId, p: Place, q: Place :: At(g, p, s) && At(g, q, s) ==> p == q)
  }

  /** `to` is where `x`, if any, has gone; `entry`, if any, is where a newly accepted stream is. */
  ghost predicate Placed(g: Gate, x: Option<StreamId>, to: Place, entry: Option<Place>, p: Place, s: StreamId) {
    if x == Some(s) then p == to
    else At(g, p, s) || (entry == Some(p) && s == |g.from|)
  }

  /** Moving at most one stream and letting in at most one keeps the account. */
  lemma AccountedMove(g: Gate, g': Gate, x: Option<StreamId>, to: Place, entry: Option<Place>)
    requires Accounted(g) && (x.Some? ==> x.value < |g.from|)
    requires |g'.from| == |g.from| + (if entry.Some? then 1 else 0)
    requires forall p: Place, s: StreamId :: At(g', p, s) <==> Placed(g, x, to, entry, p, s)
    ensures Accounted(g')
  {
    hide At;
    forall s: StreamId | s < |g'.from|
      ensures Somewhere(g', s)
    {
      if x == Some(s) {
        assert At(g', to, s);
      } else if s == |g.from| {
        assert At(g', entry.value, s);
      } else {
        assert Somewhere(g, s);
        var p: Place :| At(g, p, s);
        assert At(g', p, s);
      }
    }
  }

  lemma AccountedAccept(g: Gate, ip: Ip, t: TaskId)
    requires Accounted(g) && t !in g.tasks
    ensures Accounted(DoAccept(g, ip, t))
  {
    var g', q := DoAccept(g, ip, t), QueuedAt(g, ip);
    assert q.Some? ==> At(g, AtQueue(ip), q.value);
    var entry := if ip in g.blocked then AtQueue(ip) else InHand(t);
    forall p: Place, s: StreamId
      ensures At(g', p, s) <==> Placed(g, q, Discarded, Some(entry), p, s)
    {
      assert At(g, p, s) ==> s < |g.from| && (At(g, AtQueue(ip), s) ==> p == AtQueue(ip));
    }
    AccountedMove(g, g', q, Discarded, Some(entry));
  }

  lemma AccountedInsert(g: Gate, t: TaskId, readable: bool)
    requires Accounted(g) && t in g.tasks && g.tasks[t].Inserting?
    ensures Accounted(DoInsert(g, t, g.tasks[t].stream, g.tasks[t].ip, readable))
  {
    var x, ip := g.tasks[t].stream, g.tasks[t].ip;
    var g' := DoInsert(g, t, x, ip, readable);
    var moved, from := if readable then QueuedAt(g, ip) else Some(x), if readable then AtQueue(ip) else InHand(t);
    assert At(g, InHand(t), x);
    assert QueuedAt(g, ip).Some? ==> At(g, AtQueue(ip), QueuedAt(g, ip).value);
    forall p: Place, s: StreamId
      ensures At(g', p, s) <==> Placed(g, moved, Discarded, None, p, s)
    {
      assert At(g, p, s) ==> s < |g.from| && (At(g, from, s) ==> p == from);
    }
    AccountedMove(g, g', moved, Discarded, None);
  }

  lemma AccountedSpawn(g: Gate, t: TaskId)
    requires Accounted(g) && t in g.tasks && g.tasks[t].Spawning?
    ensures Accounted(DoSpawn(g, t, g.tasks[t].stream, g.tasks[t].ip))
  {
    var x := g.tasks[t].stream;
    var g', to := DoSpawn(g, t, x, g.tasks[t].ip), AtService(|g.served|);
    assert At(g, InHand(t), x);
    forall p: Place, s: StreamId
      ensures At(g', p, s) <==> Placed(g, Some(x), to, None, p, s)
    {
      assert At(g, p, s) ==> s < |g.from| && (At(g, InHand(t), s) ==> p == InHand(t));
    }
    AccountedMove(g, g', Some(x), to, None);
  }

  lemma AccountedFire(g: Gate, t: TaskId)
    requires Accounted(g) && t in g.tasks && g.tasks[t].Sleeping?
    ensures Accounted(DoFire(g, t, g.tasks[t].ip))
  {
    var ip := g.tasks[t].ip;
    var g', q := DoFire(g, t, ip), QueuedAt(g, ip);
    assert q.Some? ==> At(g, AtQueue(ip), q.value);
    forall p: Place, s: StreamId
      ensures At(g', p, s) <==> Placed(g, q, InHand(t), None, p, s)
    {
      assert At(g, p, s) ==> s < |g.from| && (At(g, AtQueue(ip), s) ==> p == AtQueue(ip));
    }
    AccountedMove(g, g', q, InHand(t), None);
  }

  lemma AccountedStep(g: Gate, step: Step)
    requires Accounted(g)
    ensures Accounted(Take(g, step))
  {
    var g' := Take(g, step);
    if g' != g {
      match step {
        case Tick =>
          assert forall p: Place, s: StreamId :: At(g', p, s) <==> Placed(g, None, Discarded, None, p, s);
          AccountedMove(g, g', None, Discarded, None);
        case Accept(ip, t) => AccountedAccept(g, ip, t);
        case Insert(t, readable) => AccountedInsert(g, t, readable);
        case Spawn(t) => AccountedSpawn(g, t);
        case Fire(t) => AccountedFire(g, t);
      }
    }
  }

  /**
   * In every reachable state each accepted stream is in exactly one place: handed to
   * service, queued behind its address, in the hand of a task, or dropped.
   */
  lemma {:induction false} EveryStreamIsAccountedFor(steps: seq<Step>)
    ensures Accounted(After(steps))
    decreases |steps|
  {
    if steps != [] {
      EveryStreamIsAccountedFor(steps[..|steps| - 1]);
      AccountedStep(After(steps[..|steps| - 1]), steps[|steps| - 1]);
    }
  }

  // ---------- Addresses ----------

  /** A queued stream is the newest of its address. */
  ghost predicate QueuesNewest(g: Gate) {
    forall ip :: ip in g.blocked && g.blocked[ip].Some? ==>
      && g.blocked[ip].value < |g.from| && g.from[g.blocked[ip].value] == ip
      && forall s :: g.blocked[ip].value < s < |g.from| ==> g.from[s] != ip
  }

  /** Streams in hand and in service are there under their own address. */
  ghost predicate KeepsAddresses(g: Gate) {
    && (forall t :: t in g.tasks && !g.tasks[t].Sleeping? ==>
          g.tasks[t].stream < |g.from| && g.from[g.tasks[t].stream] == g.tasks[t].ip)
    && (forall i :: 0 <= i < |g.served| ==>
          g.served[i].stream < |g.from| && g.from[g.served[i].stream] == g.served[i].ip)
  }

  ghost predicate Addressed(g: Gate) {
    QueuesNewest(g) && KeepsAddresses(g)
  }

  lemma AcceptQueuesNewest(g: Gate, ip: Ip, t: TaskId)
    requires QueuesNewest(g)
    ensures QueuesNewest(DoAccept(g, ip, t))
  {
    assert forall s :: 0 <= s < |g.from| ==> (g.from + [ip])[s] == g.from[s];
  }

  lemma AcceptKeepsAddresses(g: Gate, ip: Ip, t: TaskId)
    requires KeepsAddresses(g)
    ensures KeepsAddresses(DoAccept(g, ip, t))
  {
    assert forall s :: 0 <= s < |g.from| ==> (g.from + [ip])[s] == g.from[s];
  }

  lemma AddressedStep(g: Gate, step: Step)
    requires Addressed(g)
    ensures Addressed(Take(g, step))
  {
    match step {
      case Accept(ip, t) =>
        AcceptQueuesNewest(g, ip, t);
        AcceptKeepsAddresses(g, ip, t);
        hide DoAccept;
      case _ =>
    }
  }

  /** In every reachable state streams are queued and served under their own address, the newest one queued. */
  lemma {:induction false} NewestStreamIsQueued(steps: seq<Step>)
    ensures Addressed(After(steps))
    decreases |steps|
  {
    if steps != [] {
      NewestStreamIsQueued(steps[..|steps| - 1]);
      AddressedStep(After(steps[..|steps| - 1]), steps[|steps| - 1]);
    }
  }

  // ---------- Spacing ----------

  /** Two streams of one address are handed to service at least five seconds apart. */
  ghost predicate Spaced(served: seq<Service>) {
    forall i, j :: 0 <= i < j < |served| && served[i].ip == served[j].ip ==> served[i].at + WAIT <= served[j].at
  }

  /**
   * The accept loop takes a connection that finds its address unblocked only because a timer
   * has removed it and is about to insert it again for the queued stream in its hand.
   */
  ghost predicate Interrupts(g: Gate, step: Step) {
    && step.Accept? && step.ip !in g.blocked
    && g.acceptor.None? && step.task !in g.tasks
    && exists t :: t in g.tasks && g.tasks[t].Inserting? && g.tasks[t].ip == step.ip
  }

  ghost predicate Uninterrupted(steps: seq<Step>)
    decreases |steps|
  {
    steps == [] ||
    (Uninterrupted(steps[..|steps| - 1]) && !Interrupts(After(steps[..|steps| - 1]), steps[|steps| - 1]))
  }

  /** The address has been served less than five seconds before `limit`. */
  predicate Recent(g: Gate, i: int, limit: nat)
    requires 0 <= i < |g.served|
  {
    limit < g.served[i].at + WAIT
  }

  /** One task per address, asleep exactly while its address is blocked, and never due too early. */
  ghost predicate Timely(g: Gate) {
    && Spaced(g.served)
    && (forall t, u :: t in g.tasks && u in g.tasks && g.tasks[t].ip == g.tasks[u].ip ==> t == u)
    && (forall t :: t in g.tasks && !g.tasks[t].Inserting? ==> g.tasks[t].ip in g.blocked)
    && (forall i :: 0 <= i < |g.served| && Recent(g, i, g.clock) ==> g.served[i].ip in g.blocked)
    && (forall i, t :: 0 <= i < |g.served| && t in g.tasks && g.tasks[t].ip == g.served[i].ip ==>
          !Recent(g, i, if g.tasks[t].Sleeping? then g.tasks[t].due else g.clock))
  }

  lemma TimelyAccept(g: Gate, ip: Ip, t: TaskId)
    requires Timely(g) && !Interrupts(g, Accept(ip, t)) && t !in g.tasks && g.acceptor.None?
    ensures Timely(DoAccept(g, ip, t))
  {
    var g' := DoAccept(g, ip, t);
    if ip !in g.blocked {
      assert forall u :: u in g.tasks ==> g.tasks[u].ip != ip;
      assert forall i :: 0 <= i < |g.served| ==> Recent(g', i, g.clock) == Recent(g, i, g.clock);
    }
  }

  lemma TimelyTick(g: Gate)
    requires Timely(g)
    ensures Timely(g.(clock := g.clock + 1))
  {
    var g' := g.(clock := g.clock + 1);
    assert forall i, limit :: 0 <= i < |g.served| ==> Recent(g', i, limit) == Recent(g, i, limit);
  }

  lemma TimelyInsert(g: Gate, t: TaskId, readable: bool)
    requires Timely(g) && t in g.tasks && g.tasks[t].Inserting?
    ensures Timely(DoInsert(g, t, g.tasks[t].stream, g.tasks[t].ip, readable))
  {
    var g' := DoInsert(g, t, g.tasks[t].stream, g.tasks[t].ip, readable);
    assert forall i, limit :: 0 <= i < |g.served| ==> Recent(g', i, limit) == Recent(g, i, limit);
  }

  lemma TimelySpawn(g: Gate, t: TaskId)
    requires Timely(g) && t in g.tasks && g.tasks[t].Spawning?
    ensures Timely(DoSpawn(g, t, g.tasks[t].stream, g.tasks[t].ip))
  {
    var ip := g.tasks[t].ip;
    var g' := DoSpawn(g, t, g.tasks[t].stream, ip);
    forall i | 0 <= i < |g.served| && g.served[i].ip == ip
      ensures g.served[i].at + WAIT <= g.clock
    {
      assert !Recent(g, i, g.clock);
    }
    assert forall i, limit :: 0 <= i < |g.served| ==> Recent(g', i, limit) == Recent(g, i, limit);
  }

  lemma TimelyFire(g: Gate, t: TaskId)
    requires Timely(g) && t in g.tasks && g.tasks[t].Sleeping? && g.tasks[t].due <= g.clock
    ensures Timely(DoFire(g, t, g.tasks[t].ip))
  {
    var ip := g.tasks[t].ip;
    var g' := DoFire(g, t, ip);
    forall i | 0 <= i < |g.served| && g.served[i].ip == ip
      ensures !Recent(g', i, g.clock)
    {
      assert !Recent(g, i, g.tasks[t].due);
    }
    assert forall i, limit :: 0 <= i < |g.served| ==> Recent(g', i, limit) == Recent(g, i, limit);
  }

  lemma TimelyStep(g: Gate, step: Step)
    requires Timely(g) && !Interrupts(g, step)
    ensures Timely(Take(g, step))
  {
    hide Timely, Interrupts;
    var g' := Take(g, step);
    if g' != g {
      match step {
        case Tick => TimelyTick(g);
        case Accept(ip, t) => TimelyAccept(g, ip, t);
        case Insert(t, readable) => TimelyInsert(g, t, readable);
        case Spawn(t) => TimelySpawn(g, t);
        case Fire(t) => TimelyFire(g, t);
      }
    }
  }

  /** As long as no connection slips in between a timer's removal and its re-insertion, services are spaced. */
  lemma {:induction false} SpacedUnlessInterrupted(steps: seq<Step>)
    requires Uninterrupted(steps)
    ensures Timely(After(steps)) && Spaced(After(steps).served)
    decreases |steps|
  {
    if steps != [] {
      SpacedUnlessInterrupted(steps[..|steps| - 1]);
      TimelyStep(After(steps[..|steps| - 1]), steps[|steps| - 1]);
    }
  }

  function RunFrom(g: Gate, steps: seq<Step>): Gate
    decreases |steps|
  {
    if steps == [] then g else RunFrom(Take(g, steps[0]), steps[1..])
  }

  // ---------- Every connection is served ----------

  /** A connection from an address that is not blocked is served at once, and its address is blocked for five seconds. */
  lemma ConnectionIsServed(g: Gate, ip: Ip, t: TaskId)
    requires g.acceptor.None? && ip !in g.blocked && t !in g.tasks
    ensures var v := Take(Take(Take(g, Accept(ip, t)), Insert(t, true)), Spawn(t));
            && v.served == g.served + [Service(|g.from|, ip, g.clock)]
            && v.from == g.from + [ip] && v.dropped == g.dropped && v.acceptor == None && v.clock == g.clock
            && v.blocked == g.blocked[ip := None] && v.tasks == g.tasks[t := Sleeping(ip, g.clock + 5)]
  {
    var a := Take(g, Accept(ip, t));
    assert a.tasks[t] == Inserting(|g.from|, ip);
  }

  /** One from a blocked address is queued, and what was queued is dropped. */
  lemma ConnectionIsQueued(g: Gate, ip: Ip, t: TaskId)
    requires g.acceptor.None? && ip in g.blocked && t !in g.tasks
    ensures var v := Take(g, Accept(ip, t));
            && v == g.(from := g.from + [ip], blocked := g.blocked[ip := Some(|g.from|)], dropped := v.dropped)
            && forall s :: s in v.dropped <==> s in g.dropped || g.blocked[ip] == Some(s)
  {
  }

  /** A stream whose peer address cannot be read is dropped; its address is left as it was. */
  lemma UnreadableIsDropped(g: Gate, t: TaskId)
    requires t in g.tasks && g.tasks[t].Inserting?
    ensures var v := Take(g, Insert(t, false));
            && v == g.(tasks := g.tasks - {t}, acceptor := v.acceptor, dropped := g.dropped + {g.tasks[t].stream})
            && v.acceptor == if g.acceptor == Some(t) then None else g.acceptor
  {
  }

  /** A timer that is due serves what is queued and blocks its address anew, or unblocks it and ends. */
  lemma TimerServesQueue(g: Gate, t: TaskId)
    requires t in g.tasks && g.tasks[t].Sleeping? && g.tasks[t].due <= g.clock && g.tasks[t].ip in g.blocked
    ensures var ip := g.tasks[t].ip;
            match g.blocked[ip]
            case None => Take(g, Fire(t)) == g.(blocked := g.blocked - {ip}, tasks := g.tasks - {t})
            case Some(s) =>
              var v := Take(Take(Take(g, Fire(t)), Insert(t, true)), Spawn(t));
              && v.served == g.served + [Service(s, ip, g.clock)]
              && v.from == g.from && v.dropped == g.dropped && v.clock == g.clock
              && v.blocked == g.blocked[ip := None] && v.tasks == g.tasks[t := Sleeping(ip, g.clock + 5)]
  {
    var ip := g.tasks[t].ip;
    if g.blocked[ip].Some? {
      var a := Take(g, Fire(t));
      assert a.tasks[t] == Inserting(g.blocked[ip].value, ip) && ip !in a.blocked;
    }
  }

  /** No timer sleeps for longer than five seconds. */
  ghost predicate Prompt(g: Gate) {
    forall t :: t in g.tasks && g.tasks[t].Sleeping? ==> g.tasks[t].due <= g.clock + 5
  }

  lemma {:induction false} TimersArePrompt(steps: seq<Step>)
    ensures Prompt(After(steps))
    decreases |steps|
  {
    if steps != [] {
      TimersArePrompt(steps[..|steps| - 1]);
      PromptStep(After(steps[..|steps| - 1]), steps[|steps| - 1]);
    }
  }

  lemma PromptStep(g: Gate, step: Step)
    requires Prompt(g)
    ensures Prompt(Take(g, step))
  {
  }

  lemma {:induction false} Ticks(g: Gate, n: nat) returns (more: seq<Step>)
    ensures RunFrom(g, more) == g.(clock := g.clock + n)
    ensures forall i :: 0 <= i < |more| ==> more[i].Tick?
    decreases n
  {
    more := [];
    if n != 0 {
      var rest := Ticks(Take(g, Tick), n - 1);
      RunFromCons(g, Tick, rest);
      more := [Tick] + rest;
    }
  }

  lemma {:induction false} RunFromAppend(g: Gate, a: seq<Step>, b: seq<Step>)
    ensures RunFrom(g, a + b) == RunFrom(RunFrom(g, a), b)
    decreases |a|
  {
    hide Take;
    if a == [] {
      assert a + b == b;
    } else {
      assert (a + b)[1..] == a[1..] + b;
      RunFromAppend(Take(g, a[0]), a[1..], b);
    }
  }

  /** The stream is the last one handed to service, no later than `limit`. */
  ghost predicate JustServed(g: Gate, s: StreamId, ip: Ip, limit: nat) {
    var n := |g.served|;
    n != 0 && g.served[n - 1].stream == s && g.served[n - 1].ip == ip && g.served[n - 1].at <= limit
  }

  lemma SleeperServes(g: Gate, t: TaskId, s: StreamId) returns (more: seq<Step>)
    requires t in g.tasks && g.tasks[t].Sleeping? && g.tasks[t].due <= g.clock + 5
    requires var ip := g.tasks[t].ip; ip in g.blocked && g.blocked[ip] == Some(s)
    ensures forall i :: 0 <= i < |more| ==> !more[i].Accept?
    ensures JustServed(RunFrom(g, more), s, g.tasks[t].ip, g.clock + 5)
  {
    var wait := if g.clock < g.tasks[t].due then g.tasks[t].due - g.clock else 0;
    var ticks := Ticks(g, wait);
    var v := g.(clock := g.clock + wait);
    TimerServesQueue(v, t);
    hide Take;
    RunFromThree(v, Fire(t), Insert(t, true), Spawn(t));
    more := ticks + [Fire(t), Insert(t, true), Spawn(t)];
    RunFromAppend(g, ticks, [Fire(t), Insert(t, true), Spawn(t)]);
  }

  lemma {:induction false} RunFromThree(g: Gate, a: Step, b: Step, c: Step)
    ensures RunFrom(g, [a, b, c]) == Take(Take(Take(g, a), b), c)
  {
    hide Take;
    RunFromCons(g, a, [b, c]);
    RunFromCons(Take(g, a), b, [c]);
    RunFromCons(Take(Take(g, a), b), c, []);
    assert [a] + [b, c] == [a, b, c] && [b] + [c] == [b, c] && [c] + [] == [c];
  }

  /**
   * Nobody is kept waiting: from every reachable state the stream queued behind an address
   * is served within five seconds if no connection comes and the timer of the address runs.
   */
  lemma QueuedIsServed(steps: seq<Step>, ip: Ip) returns (more: seq<Step>)
    requires ip in After(steps).blocked && After(steps).blocked[ip].Some?
    ensures forall i :: 0 <= i < |more| ==> !more[i].Accept?
    ensures var g := After(steps); JustServed(RunFrom(g, more), g.blocked[ip].value, ip, g.clock + 5)
  {
    hide After, JustServed;
    var g := After(steps);
    BlockedAddressesHaveTimers(steps);
    TimersArePrompt(steps);
    var t := g.latest[ip];
    if g.tasks[t].Sleeping? {
      more := SleeperServes(g, t, g.blocked[ip].value);
    } else {
      var v := Take(g, Spawn(t));
      assert v.tasks[t] == Sleeping(ip, g.clock + 5) && v.blocked == g.blocked && v.clock == g.clock;
      var rest := SleeperServes(v, t, g.blocked[ip].value);
      RunFromCons(g, Spawn(t), rest);
      more := [Spawn(t)] + rest;
    }
  }

  // ---------- Interruption ----------

  /** Only what is under way goes on: addresses are inserted and timers and services spawned. */
  ghost predicate Finishing(steps: seq<Step>) {
    forall i :: 0 <= i < |steps| ==> steps[i].Insert? || steps[i].Spawn?
  }

  lemma {:induction false} FinishingIsTimely(g: Gate, steps: seq<Step>)
    requires Timely(g) && Finishing(steps)
    ensures Timely(RunFrom(g, steps))
    decreases |steps|
  {
    hide Timely;
    if steps != [] {
      TimelyStep(g, steps[0]);
      FinishingIsTimely(Take(g, steps[0]), steps[1..]);
    }
  }

  lemma {:induction false} RunFromCons(g: Gate, step: Step, rest: seq<Step>)
    ensures RunFrom(g, [step] + rest) == RunFrom(Take(g, step), rest)
  {
    hide Take;
    assert ([step] + rest)[1..] == rest;
  }

  lemma {:induction false} RunFromFour(g: Gate, a: Step, b: Step, c: Step, d: Step)
    ensures RunFrom(g, [a, b, c, d]) == Take(Take(Take(Take(g, a), b), c), d)
  {
    hide Take;
    var g3 := Take(Take(Take(g, a), b), c);
    RunFromCons(g, a, [b, c, d]);
    RunFromCons(Take(g, a), b, [c, d]);
    RunFromCons(Take(Take(g, a), b), c, [d]);
    RunFromCons(g3, d, []);
    assert [a] + [b, c, d] == [a, b, c, d] && [b] + [c, d] == [b, c, d] && [c] + [d] == [c, d] && [d] + [] == [d];
  }

  /** Both connections can be handed to service at the same moment. */
  lemma InterruptionBreaksSpacing(g: Gate, t: TaskId, u: TaskId)
    requires t in g.tasks && g.tasks[t].Inserting? && g.tasks[t].ip !in g.blocked
    requires g.acceptor.None? && u !in g.tasks
    ensures var ip := g.tasks[t].ip;
            var g1 := Take(Take(Take(g, Accept(ip, u)), Insert(u, true)), Spawn(u));
            var g2 := Take(Take(g1, Insert(t, true)), Spawn(t));
            && Interrupts(g, Accept(ip, u))
            && g2.served == g.served + [Service(|g.from|, ip, g.clock), Service(g.tasks[t].stream, ip, g.clock)]
            && !Spaced(g2.served)
  {
    var ip, x, n := g.tasks[t].ip, g.tasks[t].stream, |g.served|;
    var a := Take(g, Accept(ip, u));
    var b := Take(a, Insert(u, true));
    var c := Take(b, Spawn(u));
    assert c.tasks[t] == Inserting(x, ip) && c.served == g.served + [Service(|g.from|, ip, g.clock)];
    var d := Take(c, Insert(t, true));
    var e := Take(d, Spawn(t));
    assert e.served[n].ip == e.served[n + 1].ip == ip;
    assert e.served[n].at == e.served[n + 1].at;
  }

  /**
   * The exact condition. In a state reached without interruption a step is an interruption
   * exactly when, after it, finishing what is under way can bring two services of one
   * address less than five seconds apart.
   */
  lemma InterruptsExactly(g: Gate, step: Step)
    requires Timely(g)
    ensures Interrupts(g, step) <==>
            exists more :: Finishing(more) && !Spaced(RunFrom(Take(g, step), more).served)
  {
    if Interrupts(g, step) {
      var t :| t in g.tasks && g.tasks[t].Inserting? && g.tasks[t].ip == step.ip;
      Breaks(g, t, step.task);
    } else {
      hide RunFrom, Take, Interrupts;
      TimelyStep(g, step);
      forall more | Finishing(more)
        ensures Spaced(RunFrom(Take(g, step), more).served)
      {
        FinishingIsTimely(Take(g, step), more);
      }
    }
  }

  lemma Breaks(g: Gate, t: TaskId, u: TaskId)
    requires t in g.tasks && g.tasks[t].Inserting? && g.tasks[t].ip !in g.blocked
    requires g.acceptor.None? && u !in g.tasks
    ensures var g1 := Take(g, Accept(g.tasks[t].ip, u));
            exists more :: Finishing(more) && !Spaced(RunFrom(g1, more).served)
  {
    var g1 := Take(g, Accept(g.tasks[t].ip, u));
    InterruptionBreaksSpacing(g, t, u);
    hide RunFrom, Take, Spaced;
    var more := [Insert(u, true), Spawn(u), Insert(t, true), Spawn(t)];
    RunFromFour(g1, Insert(u, true), Spawn(u), Insert(t, true), Spawn(t));
    assert Finishing(more) && !Spaced(RunFrom(g1, more).served);
  }

  /** A run longer by one step that is no interruption. */
  lemma Extend(steps: seq<Step>, step: Step) returns (longer: seq<Step>)
    requires Uninterrupted(steps) && !Interrupts(After(steps), step)
    ensures Uninterrupted(longer) && After(longer) == Take(After(steps), step)
  {
    longer := steps + [step];
    assert longer[..|steps|] == steps;
  }

  lemma Wait(steps: seq<Step>, n: nat) returns (longer: seq<Step>)
    requires Uninterrupted(steps)
    ensures Uninterrupted(longer) && After(longer) == After(steps).(clock := After(steps).clock + n)
    decreases n
  {
    longer := steps;
    if n != 0 {
      longer := Extend(steps, Tick);
      longer := Wait(longer, n - 1);
    }
  }

  /** One connection of an address is served and a second one queued. */
  lemma QueueIsReachable(ip: Ip) returns (steps: seq<Step>)
    ensures Uninterrupted(steps)
    ensures var g := After(steps);
            g.tasks == map[0 := Sleeping(ip, WAIT)] && g.blocked == map[ip := Some(1)] && g.acceptor == None && g.clock == 0
  {
    steps := Extend([], Accept(ip, 0));
    var g1 := After(steps);
    hide After, Uninterrupted;
    assert g1.tasks == map[0 := Inserting(0, ip)];
    steps := Extend(steps, Insert(0, true));
    assert After(steps).tasks == map[0 := Spawning(0, ip)] && After(steps).blocked == map[ip := None];
    steps := Extend(steps, Spawn(0));
    assert After(steps).tasks == map[0 := Sleeping(ip, WAIT)];
    steps := Extend(steps, Accept(ip, 1));
    assert After(steps).blocked == map[ip := Some(1)];
  }

  /** For every address there is a run without interruption after which a connection from it interrupts. */
  lemma InterruptionIsReachable(ip: Ip) returns (steps: seq<Step>)
    ensures Uninterrupted(steps) && Interrupts(After(steps), Accept(ip, 1))
  {
    hide After, Uninterrupted;
    steps := QueueIsReachable(ip);
    steps := Wait(steps, WAIT);
    steps := Extend(steps, Fire(0));
    assert After(steps).tasks == map[0 := Inserting(1, ip)] && After(steps).blocked == map[];
    assert 0 in After(steps).tasks;
  }
}
