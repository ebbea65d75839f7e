// Otws (native/otw.c) and the event loop over tasks (native/loop.c).  Tasks and
// otws are numbered, a reference being a number.  What the world outside the VM
// answers during one wake-up is a World; what running a task does is an Event.
module EventLoop {

  // What an otw has come to: a value or an error, by name.
  datatype Outcome = Pending | Fulfilled(value: nat) | Rejected(error: nat)

  const NO_SOCKET: int := -1
  const GHOST: nat := 0
  const TRUE: nat := 1
  const FALSE: nat := 2
  const LEFT_ON_READ: nat := 3

  datatype Otw = Otw(
    state: Outcome,
    internId: nat,
    isTimer: bool,
    dueAt: real,
    waitSocket: int,
    waitMailbox: bool,
    waitInterrupt: bool,
    awaited: bool)

  datatype Ref = None | To(p: nat)

  datatype TaskState = Running | Ready | Waiting | Done

  datatype Task = Task(state: TaskState, awaiting: Ref, result: Ref)

  // What the world outside does during one wake-up: the clock, the sockets with
  // something to read, whether Ctrl-C was seen, which interns there are and which of
  // them are done and with what.  Other threads post mail meanwhile: early[k] before
  // the pass over the mailbox waits looks at task k, and late after that pass and
  // before it is asked whether mail can still come, which mailPossible answers.
  // `finished` is whether interns_wait_any, if it is called, finds an intern that is
  // done and has not been collected.
  datatype World = World(
    now: real,
    readable: set<int>,
    interrupt: bool,
    hired: set<nat>,
    answers: map<nat, Outcome>,
    early: seq<seq<nat>>,
    late: seq<nat>,
    mailPossible: bool,
    finished: bool)

  // What the loop does after a pass: nothing, as somebody woke; poll sockets; sleep
  // until an intern is done or mail is posted, or find one done and not sleep; sleep
  // for a time; or give up.
  datatype Nap = Awake | Polls | OnInterns | Spins | Sleeps | Nowhere

  function Before(early: seq<seq<nat>>, i: nat): seq<nat> {
    if i < |early| then early[i] else []
  }

  // All mail posted before the pass looks at task n - 1.
  function Came(early: seq<seq<nat>>, n: nat): seq<nat> {
    if n == 0 then [] else Came(early, n - 1) + Before(early, n - 1)
  }

  predicate WorldOk(w: World) {
    w.now >= 0.0 && 0 !in w.hired && w.answers.Keys <= w.hired && forall k :: k in w.answers ==> !w.answers[k].Pending?
  }

  // otw_fulfill and otw_reject: only a pending otw changes, and it forgets what
  // it was waiting for.
  function Settle(o: Otw, outcome: Outcome): Otw {
    if !o.state.Pending? then o
    else o.(state := outcome, internId := 0, waitSocket := NO_SOCKET, waitMailbox := false, waitInterrupt := false)
  }

  // Once settled, an otw never changes again, whatever is tried; only whether
  // somebody has awaited it may still be noted.
  ghost predicate Kept(a: Otw, b: Otw) {
    !a.state.Pending? ==> b == a.(awaited := b.awaited) && (a.awaited ==> b.awaited)
  }

  ghost predicate AllKept(a: seq<Otw>, b: seq<Otw>) {
    |a| <= |b| && forall p :: 0 <= p < |a| ==> Kept(a[p], b[p])
  }

  // Some task of these waits for otw p.
  ghost predicate Parked(tasks: seq<Task>, p: nat) {
    exists i :: 0 <= i < |tasks| && ParkedOn(tasks[i], p)
  }

  predicate ParkedOn(t: Task, p: nat) {
    t.state.Waiting? && t.awaiting == To(p)
  }

  predicate Due(o: Otw, now: real) {
    o.state.Pending? && o.isTimer && o.dueAt <= now
  }

  predicate OnSocket(o: Otw) {
    o.state.Pending? && o.waitSocket != NO_SOCKET
  }

  predicate Late(o: Otw, now: real) {
    o.dueAt > 0.0 && o.dueAt <= now
  }

  // Somebody is working on this otw, or something is coming that will settle it.
  predicate Behind(o: Otw, w: World) {
    o.isTimer || o.dueAt > 0.0 || o.waitSocket != NO_SOCKET || o.internId in w.hired ||
    (o.waitMailbox && w.mailPossible) || o.waitInterrupt
  }

  predicate TaskOk(t: Task, n: nat) {
    (t.awaiting.To? ==> t.awaiting.p < n) && (t.result.To? ==> t.result.p < n)
  }

  ghost predicate RefsOk(tasks: seq<Task>, n: nat) {
    forall i :: 0 <= i < |tasks| ==> TaskOk(tasks[i], n)
  }

  // A task that waits for mail gets the next message, or gives up if it is late.
  function Served(t: Task, otws: seq<Otw>, mail: seq<nat>, now: real): (r: (seq<Otw>, seq<nat>))
    requires TaskOk(t, |otws|)
    ensures |r.0| == |otws|
  {
    if !t.state.Waiting? || !t.awaiting.To? then (otws, mail)
    else if !otws[t.awaiting.p].state.Pending? || !otws[t.awaiting.p].waitMailbox then (otws, mail)
    else if mail != [] then (otws[t.awaiting.p := Settle(otws[t.awaiting.p], Fulfilled(mail[0]))], mail[1..])
    else if Late(otws[t.awaiting.p], now) then
      (otws[t.awaiting.p := Settle(otws[t.awaiting.p], Fulfilled(GHOST))], mail)
    else (otws, mail)
  }

  // settle_mailboxes, over the first n tasks.
  function Delivered(tasks: seq<Task>, otws: seq<Otw>, inbox: seq<nat>, early: seq<seq<nat>>, now: real, n: nat)
      : (r: (seq<Otw>, seq<nat>))
    requires n <= |tasks| && RefsOk(tasks, |otws|)
    ensures |r.0| == |otws|
    decreases n
  {
    if n == 0 then (otws, inbox)
    else
      var (os, box) := Delivered(tasks, otws, inbox, early, now, n - 1);
      Served(tasks[n - 1], os, box + Before(early, n - 1), now)
  }

  class Vm {
    var tasks: seq<Task>
    var otws: seq<Otw>
    var current: nat
    var inbox: seq<nat>

    // With the entry task, which is ready.
    constructor ()
      ensures Valid() && tasks == [Task(Ready, None, None)] && otws == [] && current == 0 && inbox == []
    {
      tasks, otws, current, inbox := [Task(Ready, None, None)], [], 0, [];
    }

    // References are in range, and only the current task can be running.
    ghost predicate Valid()
      reads this
    {
      && current < |tasks| && RefsOk(tasks, |otws|)
      && forall i :: 0 <= i < |tasks| && tasks[i].state.Running? ==> i == current
    }

    ghost function Now(): Moment
      reads this
    {
      Moment(tasks, otws, current, inbox)
    }

    method Fulfill(p: nat, value: nat)
      requires p < |otws|
      modifies this`otws
      ensures otws == old(otws)[p := Settle(old(otws)[p], Fulfilled(value))]
    {
      if !otws[p].state.Pending? {
        return;
      }
      otws := otws[p := otws[p].(state := Fulfilled(value), internId := 0, waitSocket := NO_SOCKET,
                                 waitMailbox := false, waitInterrupt := false)];
    }

    method Reject(p: nat, error: nat)
      requires p < |otws|
      modifies this`otws
      ensures otws == old(otws)[p := Settle(old(otws)[p], Rejected(error))]
    {
      if !otws[p].state.Pending? {
        return;
      }
      otws := otws[p := otws[p].(state := Rejected(error), internId := 0, waitSocket := NO_SOCKET,
                                 waitMailbox := false, waitInterrupt := false)];
    }

    // Exactly the parked timers whose moment has come fire.
    method FireDueTimers(now: real) returns (fired: bool)
      requires Valid()
      modifies this`otws
      ensures |otws| == |old(otws)|
      ensures forall p :: 0 <= p < |otws| ==> (otws[p] ==
        if Parked(tasks, p) && Due(old(otws)[p], now) then Settle(old(otws)[p], Fulfilled(GHOST)) else old(otws)[p])
      ensures fired <==> exists p :: 0 <= p < |otws| && Parked(tasks, p) && Due(old(otws)[p], now)
    {
      fired := false;
      var i := 0;
      while i < |tasks|
        invariant 0 <= i <= |tasks| && |otws| == |old(otws)|
        invariant forall p :: 0 <= p < |otws| ==> (otws[p] ==
          if Parked(tasks[..i], p) && Due(old(otws)[p], now)
            then Settle(old(otws)[p], Fulfilled(GHOST)) else old(otws)[p])
        invariant fired <==> exists p :: 0 <= p < |otws| && Parked(tasks[..i], p) && Due(old(otws)[p], now)
      {
        var t := tasks[i];
        ParkedMore(tasks, i);
        if t.state.Waiting? && t.awaiting.To? {
          var p := t.awaiting.p;
          assert TaskOk(t, |otws|);
          if otws[p].state.Pending? && otws[p].isTimer && otws[p].dueAt <= now {
            Fulfill(p, GHOST);
            fired := true;
          }
        }
        i := i + 1;
      }
      assert tasks[..i] == tasks;
    }

    // The parked otws that wait for a socket.
    method GatherSockets() returns (owners: seq<nat>)
      requires Valid()
      ensures forall p: nat :: p in owners <==> p < |otws| && Parked(tasks, p) && OnSocket(otws[p])
    {
      owners := [];
      var i := 0;
      while i < |tasks|
        invariant 0 <= i <= |tasks|
        invariant forall p: nat :: p in owners <==> p < |otws| && Parked(tasks[..i], p) && OnSocket(otws[p])
      {
        var t := tasks[i];
        ParkedMore(tasks, i);
        if t.state.Waiting? && t.awaiting.To? {
          var p := t.awaiting.p;
          assert TaskOk(t, |otws|);
          if otws[p].state.Pending? && otws[p].waitSocket != NO_SOCKET {
            owners := owners + [p];
          }
        }
        i := i + 1;
      }
      assert tasks[..i] == tasks;
    }

    // Those with something to read.
    method SettleReadable(owners: seq<nat>, readable: set<int>) returns (moved: bool)
      requires forall k :: 0 <= k < |owners| ==> owners[k] < |otws| && OnSocket(otws[owners[k]])
      modifies this`otws
      ensures |otws| == |old(otws)|
      ensures forall p :: 0 <= p < |otws| ==> (otws[p] ==
        if p in owners && old(otws)[p].waitSocket in readable
          then Settle(old(otws)[p], Fulfilled(TRUE)) else old(otws)[p])
      ensures moved <==> exists p :: p in owners && old(otws)[p].waitSocket in readable
    {
      moved := false;
      var handles := otws;
      for i := 0 to |owners|
        invariant |otws| == |old(otws)|
        invariant forall p :: 0 <= p < |otws| ==> (otws[p] ==
          if p in owners[..i] && handles[p].waitSocket in readable
            then Settle(handles[p], Fulfilled(TRUE)) else handles[p])
        invariant moved <==> exists p :: p in owners[..i] && handles[p].waitSocket in readable
      {
        assert owners[..i + 1] == owners[..i] + [owners[i]] && owners[i] in owners[..i + 1];
        if handles[owners[i]].waitSocket in readable {
          Fulfill(owners[i], TRUE);
          moved := true;
        }
      }
      assert owners[..|owners|] == owners;
    }

    // Those whose deadline has passed.
    method SettleLate(owners: seq<nat>, now: real) returns (moved: bool)
      requires forall k :: 0 <= k < |owners| ==> owners[k] < |otws|
      modifies this`otws
      ensures |otws| == |old(otws)|
      ensures forall p :: 0 <= p < |otws| ==> (otws[p] ==
        if p in owners && old(otws)[p].state.Pending? && Late(old(otws)[p], now)
        then Settle(old(otws)[p], Fulfilled(FALSE)) else old(otws)[p])
      ensures moved <==> exists p :: p in owners && old(otws)[p].state.Pending? && Late(old(otws)[p], now)
    {
      moved := false;
      for i := 0 to |owners|
        invariant |otws| == |old(otws)|
        invariant forall p :: 0 <= p < |otws| ==> (otws[p] ==
          if p in owners[..i] && old(otws)[p].state.Pending? && Late(old(otws)[p], now)
          then Settle(old(otws)[p], Fulfilled(FALSE)) else old(otws)[p])
        invariant moved <==> exists p :: p in owners[..i] && old(otws)[p].state.Pending? && Late(old(otws)[p], now)
      {
        assert owners[..i + 1] == owners[..i] + [owners[i]] && owners[i] in owners[..i + 1];
        if otws[owners[i]].state.Pending? && otws[owners[i]].dueAt > 0.0 && otws[owners[i]].dueAt <= now {
          Fulfill(owners[i], FALSE);
          moved := true;
        }
      }
      assert owners[..|owners|] == owners;
    }

    // Exactly the parked socket waits that are readable or late settle, as fax
    // and cap.
    method SettleReadySockets(readable: set<int>, now: real) returns (moved: bool)
      requires Valid()
      modifies this`otws
      ensures |otws| == |old(otws)|
      ensures forall p :: 0 <= p < |otws| ==> (otws[p] ==
        if Parked(tasks, p) && OnSocket(old(otws)[p]) then
          if old(otws)[p].waitSocket in readable then Settle(old(otws)[p], Fulfilled(TRUE))
          else if Late(old(otws)[p], now) then Settle(old(otws)[p], Fulfilled(FALSE)) else old(otws)[p]
        else old(otws)[p])
      ensures moved <==> exists p :: 0 <= p < |otws| && otws[p] != old(otws)[p]
    {
      hide Parked, Valid;
      var owners := GatherSockets();
      assert forall k :: 0 <= k < |owners| ==> owners[k] in owners;
      moved := SettleReadable(owners, readable);
      label Polled:
      var late := SettleLate(owners, now);
      if moved {
        ghost var p :| p in owners && old(otws)[p].waitSocket in readable;
        assert otws[p] != old(otws)[p];
      }
      if late {
        ghost var p :| p in owners && old@Polled(otws)[p].state.Pending? && Late(old@Polled(otws)[p], now);
        assert otws[p] != old(otws)[p];
      }
      moved := moved || late;
    }

    // Messages go to the parked mailbox waits in the tasks' order.
    method SettleMailboxes(early: seq<seq<nat>>, now: real) returns (moved: bool)
      requires Valid()
      modifies this`otws, this`inbox
      ensures (otws, inbox) == Delivered(tasks, old(otws), old(inbox), early, now, |tasks|)
      ensures if moved then otws != old(otws) else otws == old(otws) && inbox == old(inbox) + Came(early, |tasks|)
    {
      hide Served, Before;
      moved := false;
      var i := 0;
      while i < |tasks|
        invariant 0 <= i <= |tasks| && |otws| == |old(otws)|
        invariant (otws, inbox) == Delivered(tasks, old(otws), old(inbox), early, now, i)
        invariant moved ==> SomeSettled(old(otws), otws)
        invariant !moved ==> otws == old(otws) && inbox == old(inbox) + Came(early, i)
      {
        ghost var before := otws;
        CameMore(old(inbox), early, i + 1);
        inbox := inbox + Before(early, i);  // posted by others
        assert TaskOk(tasks[i], |otws|);
        var settled := Serve(tasks[i], now);
        if settled {
          MoreSettled(old(otws), before, otws);
        }
        moved := moved || settled;
        i := i + 1;
      }
    }

    method Serve(t: Task, now: real) returns (settled: bool)
      requires TaskOk(t, |otws|)
      modifies this`otws, this`inbox
      ensures (otws, inbox) == Served(t, old(otws), old(inbox), now)
      ensures if settled then SomeSettled(old(otws), otws) else otws == old(otws) && inbox == old(inbox)
      ensures forall p :: 0 <= p < |otws| && otws[p] != old(otws)[p] ==> old(otws)[p].state.Pending?
    {
      settled := false;
      if t.state.Waiting? && t.awaiting.To? {
        var p := t.awaiting.p;
        if otws[p].state.Pending? && otws[p].waitMailbox {
          if inbox != [] {
            var msg := inbox[0];
            inbox := inbox[1..];
            Fulfill(p, msg);
            settled := true;
          } else if otws[p].dueAt > 0.0 && otws[p].dueAt <= now {
            Fulfill(p, GHOST);
            settled := true;
          }
        }
      }
    }

    // Ctrl-C settles every parked wait for it.
    method SettleInterrupts(seen: bool) returns (moved: bool)
      requires Valid()
      modifies this`otws
      ensures |otws| == |old(otws)|
      ensures forall p :: 0 <= p < |otws| ==> (otws[p] ==
        if seen && Parked(tasks, p) && old(otws)[p].waitInterrupt
          then Settle(old(otws)[p], Fulfilled(GHOST)) else old(otws)[p])
      ensures moved <==> exists p :: 0 <= p < |otws| && otws[p] != old(otws)[p]
    {
      moved := false;
      if !seen {
        return;
      }
      var i := 0;
      while i < |tasks|
        invariant 0 <= i <= |tasks| && |otws| == |old(otws)|
        invariant forall p :: 0 <= p < |otws| ==> (otws[p] ==
          if Parked(tasks[..i], p) && old(otws)[p].waitInterrupt
            then Settle(old(otws)[p], Fulfilled(GHOST)) else old(otws)[p])
        invariant moved <==> exists p :: 0 <= p < |otws| && otws[p] != old(otws)[p]
      {
        var t := tasks[i];
        ParkedMore(tasks, i);
        if t.state.Waiting? && t.awaiting.To? {
          var p := t.awaiting.p;
          assert TaskOk(t, |otws|);
          if otws[p].state.Pending? && otws[p].waitInterrupt {
            Fulfill(p, GHOST);
            moved := true;
            assert otws[p] != old(otws)[p];
          }
        }
        i := i + 1;
      }
      assert tasks[..i] == tasks;
    }

    // Finished workers are collected, and their otws settled.
    method CollectWorkers(w: World)
      requires Valid() && WorldOk(w)
      modifies this`otws
      ensures |otws| == |old(otws)|
      ensures forall p :: 0 <= p < |otws| ==> (otws[p] ==
        if Parked(tasks, p) && old(otws)[p].internId in w.answers
        then Settle(old(otws)[p], w.answers[old(otws)[p].internId]) else old(otws)[p])
    {
      var i := 0;
      while i < |tasks|
        invariant 0 <= i <= |tasks| && |otws| == |old(otws)|
        invariant forall p :: 0 <= p < |otws| ==> (otws[p] ==
          if Parked(tasks[..i], p) && old(otws)[p].internId in w.answers
          then Settle(old(otws)[p], w.answers[old(otws)[p].internId]) else old(otws)[p])
      {
        var t := tasks[i];
        ParkedMore(tasks, i);
        if t.state.Waiting? && t.awaiting.To? {
          var p := t.awaiting.p;
          assert TaskOk(t, |otws|);
          if otws[p].state.Pending? && otws[p].internId in w.answers {
            match w.answers[otws[p].internId] {
              case Fulfilled(v) => Fulfill(p, v);
              case Rejected(e) => Reject(p, e);
            }
          }
        }
        i := i + 1;
      }
      assert tasks[..i] == tasks;
    }

    // Every task whose otw is settled is ready again.
    method WakeSettled() returns (moved: bool)
      requires Valid()
      modifies this`tasks
      ensures |tasks| == |old(tasks)|
      ensures forall i :: 0 <= i < |tasks| ==> tasks[i] == Woken(old(tasks)[i], otws)
      ensures moved <==> exists i :: 0 <= i < |tasks| && tasks[i] != old(tasks)[i]
      ensures Valid()
    {
      moved := false;
      var i := 0;
      while i < |tasks|
        invariant 0 <= i <= |tasks| == |old(tasks)|
        invariant forall k :: 0 <= k < |tasks| ==>
          tasks[k] == if k < i then Woken(old(tasks)[k], otws) else old(tasks)[k]
        invariant moved <==> exists k :: 0 <= k < |tasks| && tasks[k] != old(tasks)[k]
      {
        var t := tasks[i];
        assert TaskOk(old(tasks)[i], |otws|);
        if t.state.Waiting? && (t.awaiting.None? || !otws[t.awaiting.p].state.Pending?) {
          tasks := tasks[i := t.(state := Ready, awaiting := None)];
          moved := true;
          assert tasks[i] != old(tasks)[i];
        }
        i := i + 1;
      }
    }

    // Timers and sockets.
    method NoticeDue(w: World) returns (moved: bool)
      requires Valid() && WorldOk(w)
      modifies this`otws
      ensures Progress(tasks, old(otws), otws)
      ensures if moved then otws != old(otws) else otws == old(otws)
      ensures moved <==> !QuietDue(tasks, old(otws), w)
      ensures forall mail :: Justified(old(otws), otws, w, mail)
      ensures forall p :: 0 <= p < |otws| && Parked(tasks, p) ==> NothingDue(otws[p], w)
    {
      hide Parked, Justified, ForReason, NothingDue, QuietDue;
      var fired := FireDueTimers(w.now);
      ghost var os1 := otws;
      var polled := SettleReadySockets(w.readable, w.now);
      TimersProgress(tasks, old(otws), os1, fired, w);
      SocketsProgress(tasks, os1, otws, polled, w);
      DueAll(tasks, old(otws), os1, otws, w);
      moved := fired || polled;
    }

    // Messages and Ctrl-C.
    method NoticeNews(w: World) returns (moved: bool)
      requires Valid() && WorldOk(w)
      modifies this`otws, this`inbox
      ensures Progress(tasks, old(otws), otws)
      ensures if moved then otws != old(otws) else otws == old(otws) && inbox == AllMail(old(inbox), |tasks|, w)
      ensures moved <==> !QuietNews(tasks, old(otws), old(inbox), w)
      ensures Justified(old(otws), otws, w, old(inbox) + Came(w.early, |tasks|))
      ensures forall p :: 0 <= p < |otws| && Parked(tasks, p) ==> NoNews(otws[p], w)
      ensures forall i :: 0 <= i < |tasks| ==> NoMailFor(tasks, otws, inbox, w, i)
      ensures IsEnd(inbox, AllMail(old(inbox), |tasks|, w))
    {
      hide Delivered, Justified, NoNews, NoMailFor, IsEnd, RefsOk, Parked;
      var mailed := SettleMailboxes(w.early, w.now);
      ghost var os1, left := otws, inbox;
      var interrupted := SettleInterrupts(w.interrupt);
      moved := mailed || interrupted;
      inbox := inbox + w.late;  // posted by others
      NewsAll(tasks, old(otws), os1, otws, old(inbox), left, w);
    }

    // The passes that notice what has already happened.
    method Notice(w: World) returns (moved: bool)
      requires Valid() && WorldOk(w)
      modifies this`tasks, this`otws, this`inbox
      ensures Valid() && |tasks| == |old(tasks)| && Progress(old(tasks), old(otws), otws)
      ensures forall i :: 0 <= i < |tasks| ==> tasks[i] == Woken(old(tasks)[i], otws)
      ensures !moved ==> tasks == old(tasks) && otws == old(otws) && inbox == AllMail(old(inbox), |tasks|, w)
      ensures moved <==> !Stuck(old(tasks), old(otws), old(inbox), w)
      ensures moved ==> SomeoneWoke(old(tasks), tasks)
      ensures Justified(old(otws), otws, w, old(inbox) + Came(w.early, |tasks|))
      ensures NobodyMissed(old(tasks), otws, inbox, w) && IsEnd(inbox, AllMail(old(inbox), |tasks|, w))
    {
      hide QuietDue, QuietNews, Justified, ForReason, NothingDue, NoNews, NoMailFor, IsEnd;
      var due := NoticeDue(w);
      ghost var os1 := otws;
      var news := NoticeNews(w);
      ghost var os2 := otws;
      CollectWorkers(w);
      ProgressTrans(tasks, old(otws), os1, os2);
      ProgressTrans(tasks, old(otws), os2, otws);
      NoticedAll(tasks, old(otws), os1, os2, otws, old(inbox) + Came(w.early, |tasks|), inbox, w);
      var woken := WakeSettled();
      moved := due || news || woken;
      if moved {
        WokeIfMoved(old(tasks), tasks, old(otws), otws);
        if Stuck(old(tasks), old(otws), old(inbox), w) {
          StuckIsQuiet(old(tasks), old(otws), old(inbox), w);
          assert false;
        }
      } else {
        NothingMoved(old(tasks), old(otws), otws, old(inbox), w);
      }
    }

    // How long until the earliest deadline of a waiting task, -1 for never.
    method NextDeadlineMs(now: real) returns (ms: int)
      requires Valid()
      ensures ms >= 0 <==> exists i :: 0 <= i < |tasks| && HasDeadline(tasks[i], otws)
      ensures -1 <= ms <= 60000 && BeforeDeadlines(tasks, otws, now, ms)
    {
      var soonest, any := 0.0, false;
      for i := 0 to |tasks|
        invariant any <==> exists k :: 0 <= k < i && HasDeadline(tasks[k], otws)
        invariant forall k :: 0 <= k < i && HasDeadline(tasks[k], otws) ==> soonest <= otws[tasks[k].awaiting.p].dueAt
      {
        var t := tasks[i];
        if t.state.Waiting? && t.awaiting.To? {
          assert TaskOk(t, |otws|);
          var o := otws[t.awaiting.p];
          if o.state.Pending? && o.dueAt > 0.0 {
            assert HasDeadline(tasks[i], otws);
            if !any || o.dueAt < soonest {
              soonest, any := o.dueAt, true;
            }
          }
        }
      }
      if !any {
        return -1;
      }
      var left := (soonest - now) * 1000.0;
      if left < 0.0 {
        left := 0.0;
      }
      if left > 60000.0 {
        left := 60000.0;
      }
      ms := left.Floor;
    }

    method AnyWorker(w: World) returns (any: bool)
      requires Valid()
      ensures any <==>
        exists i :: 0 <= i < |tasks| && Waits(tasks[i], otws) && otws[tasks[i].awaiting.p].internId in w.hired
    {
      for i := 0 to |tasks|
        invariant forall k :: 0 <= k < i && Waits(tasks[k], otws) ==> otws[tasks[k].awaiting.p].internId !in w.hired
      {
        assert TaskOk(tasks[i], |otws|);
        if Waits(tasks[i], otws) && otws[tasks[i].awaiting.p].internId in w.hired {
          return true;
        }
      }
      return false;
    }

    method AnyInterrupt() returns (any: bool)
      requires Valid()
      ensures any <==> exists i :: 0 <= i < |tasks| && Waits(tasks[i], otws) && otws[tasks[i].awaiting.p].waitInterrupt
    {
      for i := 0 to |tasks|
        invariant forall k :: 0 <= k < i && Waits(tasks[k], otws) ==> !otws[tasks[k].awaiting.p].waitInterrupt
      {
        assert TaskOk(tasks[i], |otws|);
        if Waits(tasks[i], otws) && otws[tasks[i].awaiting.p].waitInterrupt {
          return true;
        }
      }
      return false;
    }

    method AnyMailbox(w: World) returns (any: bool)
      requires Valid()
      ensures any <==>
        exists i :: 0 <= i < |tasks| && Waits(tasks[i], otws) && otws[tasks[i].awaiting.p].waitMailbox && w.mailPossible
    {
      for i := 0 to |tasks|
        invariant forall k :: 0 <= k < i && Waits(tasks[k], otws) ==>
          !(otws[tasks[k].awaiting.p].waitMailbox && w.mailPossible)
      {
        assert TaskOk(tasks[i], |otws|);
        if Waits(tasks[i], otws) && otws[tasks[i].awaiting.p].waitMailbox && w.mailPossible {
          return true;
        }
      }
      return false;
    }

    // What is still coming for those who wait.
    method Coming(w: World, ghost found: seq<nat>)
        returns (deadlineMs: int, anyWorker: bool, anyInterrupt: bool, anyMailbox: bool, sockets: nat)
      requires Valid() && WorldOk(w) && Stuck(tasks, otws, found, w)
      ensures deadlineMs >= 0 <==> exists i :: 0 <= i < |tasks| && HasDeadline(tasks[i], otws)
      ensures -1 <= deadlineMs <= 60000 && BeforeDeadlines(tasks, otws, w.now, deadlineMs)
      ensures anyWorker || anyMailbox <==> InternWaiter(tasks, otws, w)
      ensures sockets > 0 <==> SocketWaiter(tasks, otws)
      ensures deadlineMs >= 0 || anyWorker || anyMailbox || anyInterrupt || sockets > 0 <==>
        exists i :: 0 <= i < |tasks| && tasks[i].state.Waiting? && Behind(otws[tasks[i].awaiting.p], w)
      ensures anyInterrupt && !anyWorker && !anyMailbox && sockets == 0 <==> InterruptOnly(tasks, otws, w)
      ensures (anyInterrupt || anyWorker || anyMailbox) && sockets > 0 <==> Mixed(tasks, otws, w)
    {
      deadlineMs := NextDeadlineMs(w.now);
      anyWorker := AnyWorker(w);
      anyInterrupt := AnyInterrupt();
      anyMailbox := AnyMailbox(w);
      var owners := GatherSockets();
      sockets := |owners|;
      BehindIs(tasks, otws, found, w);
      hide BeforeDeadlines, Stuck, Behind, WorldOk;
      if sockets > 0 {
        assert owners[0] in owners;
      } else {
        NoOwners(tasks, otws, owners);
      }
    }

    // What to block on when nothing has happened: true if there was something.
    // `wait` is for how long, in milliseconds.  It never goes past a deadline,
    // with one exception: waiting for Ctrl-C, and for nothing but deadlines
    // besides, takes a whole MIXED_WAIT_CAP_MS even if one comes sooner.  `found` is
    // the mail as the passes found it.
    method Block(w: World, ghost found: seq<nat>) returns (nap: Nap, wait: int)
      requires Valid() && WorldOk(w) && Stuck(tasks, otws, found, w)
      ensures !nap.Nowhere? <==>
        exists i :: 0 <= i < |tasks| && tasks[i].state.Waiting? && Behind(otws[tasks[i].awaiting.p], w)
      ensures !nap.Awake? && (nap.Polls? <==> SocketWaiter(tasks, otws))
      ensures nap.OnInterns? || nap.Spins? <==> !SocketWaiter(tasks, otws) && InternWaiter(tasks, otws, w)
      ensures nap.Spins? ==> w.finished
      ensures nap.OnInterns? ==> !w.finished
      ensures 0 <= wait <= 60000
      ensures !nap.Nowhere? && !InterruptOnly(tasks, otws, w) ==> BeforeDeadlines(tasks, otws, w.now, wait)
      ensures InterruptOnly(tasks, otws, w) ==> wait == MIXED_WAIT_CAP_MS
      ensures SleepsPast(tasks, otws, w.now, wait) <==>
        InterruptOnly(tasks, otws, w) && NearDeadline(tasks, otws, w.now)
      ensures Mixed(tasks, otws, w) ==> wait <= MIXED_WAIT_CAP_MS
    {
      hide Stuck, WorldOk, Behind, BeforeDeadlines, SleepsPast, NearDeadline, Mixed, InterruptOnly, SocketWaiter,
        InternWaiter;
      var deadlineMs, anyWorker, anyInterrupt, anyMailbox, sockets := Coming(w, found);
      wait := deadlineMs;
      if sockets > 0 {
        if (anyWorker || anyMailbox || anyInterrupt) && (wait < 0 || wait > MIXED_WAIT_CAP_MS) {
          wait := MIXED_WAIT_CAP_MS;
        }
        if wait < 0 {
          wait := 60000;
        }
        Sooner(tasks, otws, w.now, deadlineMs, wait);
        return Polls, wait;
      }
      if anyWorker || anyMailbox {
        if anyInterrupt && (wait < 0 || wait > MIXED_WAIT_CAP_MS) {
          wait := MIXED_WAIT_CAP_MS;
        }
        wait := if wait < 0 then 60000 else wait;
        Sooner(tasks, otws, w.now, deadlineMs, wait);
        return if w.finished then Spins else OnInterns, wait;
      }
      if anyInterrupt {
        PastTheCap(tasks, otws, w.now);
        return Sleeps, MIXED_WAIT_CAP_MS;
      }
      Sooner(tasks, otws, w.now, deadlineMs, if deadlineMs < 0 then 0 else deadlineMs);
      if deadlineMs >= 0 {
        return Sleeps, deadlineMs;
      }
      return Nowhere, 0;
    }

    // wake_waiters: false exactly when nobody was woken and nothing is behind
    // anything anybody waits for; and then nothing has changed.
    method WakeWaiters(w: World) returns (again: bool, nap: Nap)
      requires Valid() && WorldOk(w)
      modifies this`tasks, this`otws, this`inbox
      ensures Valid() && |tasks| == |old(tasks)| && Progress(old(tasks), old(otws), otws)
      ensures forall i :: 0 <= i < |tasks| ==> tasks[i] == Woken(old(tasks)[i], otws)
      ensures again <==> (SomeoneWoke(old(tasks), tasks) ||
        exists i :: 0 <= i < |tasks| && Waits(tasks[i], otws) && Behind(otws[tasks[i].awaiting.p], w))
      ensures !again <==> Stranded(old(tasks), old(otws), old(inbox), w)
      ensures !nap.Awake? ==> tasks == old(tasks) && otws == old(otws) && inbox == AllMail(old(inbox), |tasks|, w)
      ensures (again <==> !nap.Nowhere?) && (nap.Awake? <==> SomeoneWoke(old(tasks), tasks))
      ensures nap.Awake? <==> !Stuck(old(tasks), old(otws), old(inbox), w)
      ensures Justified(old(otws), otws, w, old(inbox) + Came(w.early, |tasks|))
      ensures NobodyMissed(old(tasks), otws, inbox, w) && IsEnd(inbox, AllMail(old(inbox), |tasks|, w))
      ensures nap.OnInterns? && MailWaiter(tasks, otws) && inbox != [] <==>
        MailSleptOn(old(tasks), old(otws), old(inbox), w)
    {
      hide Justified, NobodyMissed, IsEnd;
      var moved := Notice(w);
      if moved {
        return true, Awake;
      }
      BehindIs(tasks, otws, old(inbox), w);
      var wait;
      nap, wait := Block(w, old(inbox));
      again := !nap.Nowhere?;
      NobodyWoke(tasks);
    }

    // Every waiting task is told, by its otw's being rejected, and is ready.
    method StrandWaiters()
      requires Valid() && forall i :: 0 <= i < |tasks| && tasks[i].state.Waiting? ==> tasks[i].awaiting.To?
      modifies this`tasks, this`otws
      ensures Valid() && |tasks| == |old(tasks)| && |otws| == |old(otws)|
      ensures forall i :: 0 <= i < |tasks| ==> (tasks[i] ==
        if old(tasks)[i].state.Waiting? then old(tasks)[i].(state := Ready, awaiting := None) else old(tasks)[i])
      ensures forall p :: 0 <= p < |otws| ==> (otws[p] ==
        if Parked(old(tasks), p) then Settle(old(otws)[p], Rejected(LEFT_ON_READ)) else old(otws)[p])
    {
      var i := 0;
      while i < |tasks|
        invariant 0 <= i <= |tasks| == |old(tasks)| && |otws| == |old(otws)|
        invariant forall k :: 0 <= k < |tasks| ==> (tasks[k] ==
          if k < i && old(tasks)[k].state.Waiting?
            then old(tasks)[k].(state := Ready, awaiting := None) else old(tasks)[k])
        invariant forall p :: 0 <= p < |otws| ==> (otws[p] ==
          if Parked(old(tasks)[..i], p) then Settle(old(otws)[p], Rejected(LEFT_ON_READ)) else old(otws)[p])
      {
        var t := tasks[i];
        ParkedMore(old(tasks), i);
        if t.state.Waiting? && t.awaiting.To? {
          assert TaskOk(old(tasks)[i], |otws|);
          Reject(t.awaiting.p, LEFT_ON_READ);
          tasks := tasks[i := t.(state := Ready, awaiting := None)];
        }
        i := i + 1;
      }
      assert old(tasks)[..i] == old(tasks);
    }

    // finish_task: the task is done, and its otw settled with what it produced.
    method FinishTask(i: nat, outcome: Outcome)
      requires Valid() && i < |tasks| && !outcome.Pending?
      modifies this`tasks, this`otws
      ensures Valid() && tasks == old(tasks)[i := old(tasks)[i].(state := Done)]
      ensures otws == match old(tasks)[i].result
        case None => old(otws)
        case To(p) => if p < |old(otws)| then old(otws)[p := Settle(old(otws)[p], outcome)] else old(otws)
    {
      var t := tasks[i];
      assert TaskOk(t, |otws|);
      tasks := tasks[i := t.(state := Done)];
      if t.result.To? {
        match outcome {
          case Rejected(e) => Reject(t.result.p, e);
          case Fulfilled(v) => Fulfill(t.result.p, v);
        }
      }
    }

    // vm_task_switch, as far as states go.
    method SwitchTo(i: nat)
      requires Valid() && i < |tasks|
      modifies this`tasks, this`current
      ensures Valid() && current == i && |tasks| == |old(tasks)|
      ensures forall k :: 0 <= k < |tasks| ==> (tasks[k] ==
        if k == i then old(tasks)[k].(state := Running)
        else if k == old(current) && old(tasks)[k].state.Running?
          then old(tasks)[k].(state := Ready) else old(tasks)[k])
    {
      if i == current {
        tasks := tasks[i := tasks[i].(state := Running)];
        return;
      }
      if tasks[current].state.Running? {
        tasks := tasks[current := tasks[current].(state := Ready)];
      }
      tasks := tasks[i := tasks[i].(state := Running)];
      current := i;
    }

    // The first ready task, in creation order.
    method PickReady() returns (i: nat)
      ensures i <= |tasks| && (i < |tasks| ==> tasks[i].state.Ready?)
      ensures forall k :: 0 <= k < i ==> !tasks[k].state.Ready?
    {
      i := 0;
      while i < |tasks| && !tasks[i].state.Ready?
        invariant i <= |tasks| && forall k :: 0 <= k < i ==> !tasks[k].state.Ready?
      {
        i := i + 1;
      }
    }

    method AnyWaiting() returns (any: bool)
      ensures any <==> exists i :: 0 <= i < |tasks| && tasks[i].state.Waiting?
    {
      for i := 0 to |tasks|
        invariant forall k :: 0 <= k < i ==> !tasks[k].state.Waiting?
      {
        if tasks[i].state.Waiting? {
          return true;
        }
      }
      return false;
    }

    // describe_dropped_rejection: were there errors nobody ever awaited?  Each
    // is said once.
    method Dropped() returns (found: bool)
      requires Valid()
      modifies this`otws
      ensures Valid() && AllKept(old(otws), otws) && |otws| == |old(otws)|
      ensures found <==> exists i :: 0 <= i < |tasks| && IsDropped(tasks[i], old(otws))
      ensures forall i :: 0 <= i < |tasks| ==> !IsDropped(tasks[i], otws)
    {
      found := false;
      ghost var was := otws;
      for i := 0 to |tasks|
        invariant AllKept(was, otws) && |otws| == |was|
        invariant forall p :: 0 <= p < |otws| ==> otws[p] == was[p] || otws[p] == was[p].(awaited := true)
        invariant found ==> exists k :: 0 <= k < |tasks| && IsDropped(tasks[k], was)
        invariant forall k :: 0 <= k < i ==> !IsDropped(tasks[k], otws)
        invariant !found ==> otws == was
      {
        var t := tasks[i];
        assert TaskOk(t, |otws|);
        if IsDropped(t, otws) {
          assert IsDropped(tasks[i], was);
          otws := otws[t.result.p := otws[t.result.p].(awaited := true)];
          found := true;
        }
        assert found ==> exists k :: 0 <= k < |tasks| && IsDropped(tasks[k], was);
      }
    }

    // vm_resume_task, as far as this file can see: the current task ran.
    method Resume(e: Event) returns (r: Resumed)
      requires Valid() && Possible(e, otws, inbox) && tasks[current].state.Running?
      modifies this`tasks, this`otws, this`inbox
      ensures Valid() && r == e.resumed && otws == e.otws && |tasks| == |old(tasks)| + |e.spawned|
      ensures inbox == (old(inbox) + e.mail)[e.taken..]
      ensures forall i :: 0 <= i < |old(tasks)| && i != current ==> tasks[i] == old(tasks)[i]
      ensures forall k :: |old(tasks)| <= k < |tasks| ==> tasks[k] == Task(Ready, None, To(e.spawned[k - |old(tasks)|]))
      ensures tasks[current].state == if r.Suspended? then Waiting else Running
      ensures r.Suspended? ==> tasks[current].awaiting == To(r.p)
      ensures tasks[current].result == old(tasks)[current].result
    {
      otws := e.otws;
      inbox := (inbox + e.mail)[e.taken..];
      var t := tasks[current];
      var was := if e.resumed.Suspended? then t.(state := Waiting, awaiting := To(e.resumed.p)) else t;
      assert TaskOk(t, |old(otws)|);
      tasks := tasks[current := was]
        + seq(|e.spawned|, k requires 0 <= k < |e.spawned| => Task(Ready, None, To(e.spawned[k])));
      r := e.resumed;
    }

    // The task is switched to, and runs until it waits or is over.
    method GiveTurn(i: nat, e: Event) returns (r: Resumed)
      requires Valid() && i < |tasks| && Possible(e, otws, inbox) && !tasks[i].state.Done?
      modifies this`tasks, this`otws, this`current, this`inbox
      ensures Valid() && AllKept(old(otws), otws) && r == e.resumed && otws == e.otws
      ensures RanOn(i, e, old(Now()), Now())
      ensures if r.Suspended? then tasks[i].state.Waiting? && tasks[i].awaiting == To(r.p) else tasks[i].state.Running?
    {
      SwitchTo(i);
      r := Resume(e);
    }

    // A turn for task i, and what becomes of it if it is over.
    method TakeTurn(i: nat, entry: nat, e: Event) returns (r: Resumed)
      requires Valid() && i < |tasks| && entry < |tasks| && Possible(e, otws, inbox) && !tasks[i].state.Done?
      modifies this`tasks, this`otws, this`current, this`inbox
      ensures Valid() && AllKept(old(otws), otws) && r == e.resumed
      ensures TurnTaken(entry, i, e, old(Now()), Now())
    {
      r := GiveTurn(i, e);
      ghost var ran := Now();
      hide RanOn, HandedOn, Possible;
      KeptRefl(otws);
      StillThere(i, e, old(Now()), ran);
      if !r.Suspended? {
        if i == entry {
          tasks := tasks[i := tasks[i].(state := Done)];
        } else {
          FinishTask(i, if r.Raised? then Rejected(r.error) else Fulfilled(r.value));
          FinishKeeps(ran.otws, otws);
          SettledIsHandedOn(ran.tasks[i].result, r, ran.otws, otws);
        }
        OverOnTop(i, e, old(Now()), ran, Now());
      }
      KeptTrans(old(otws), ran.otws, otws);
    }

    // Nobody can run, but somebody waits.  If nothing is coming, everybody who waits
    // is told so: also those who wait for mail that came too late to be seen.
    method LookOutside(w: World) returns (stranded: bool)
      requires Valid() && WorldOk(w)
      modifies this`tasks, this`otws, this`inbox
      ensures Valid() && |tasks| == |old(tasks)| && |otws| == |old(otws)| && AllKept(old(otws), otws)
      ensures forall k :: 0 <= k < |tasks| ==> (tasks[k].state.Done? <==> old(tasks)[k].state.Done?)
      ensures Looked(w, old(Now()), Now())
      ensures stranded <==> Stranded(old(tasks), old(otws), old(inbox), w)
      ensures stranded ==> forall p :: 0 <= p < |otws| && Parked(old(tasks), p) ==>
        otws[p] == Settle(old(otws)[p], Rejected(LEFT_ON_READ))
      ensures stranded ==> inbox == AllMail(old(inbox), |tasks|, w)
      ensures stranded && MailWaiter(old(tasks), old(otws)) && inbox != [] <==>
        MailTooLate(old(tasks), old(otws), old(inbox), w)
    {
      hide Justified, NobodyMissed, IsEnd;
      var again, _ := WakeWaiters(w);
      stranded := !again;
      ProgressKeeps(old(tasks), old(otws), otws);
      TooLateIff(old(tasks), old(otws), old(inbox), w);
      if !again {
        NoneHalfWaiting(tasks, otws, old(inbox), w);
        StrandWaiters();
        StrandKeeps(old(otws), otws);
      }
    }

    // loop_run, for as long as the script of what the tasks and the world do
    // goes on.  It ends by itself only when the entry task raised, or when every
    // task is done: the entry task too, so that "never finished" cannot be.  `moments`
    // is what there was before and after each turn.
    method Run(entry: nat, script: seq<Event>)
        returns (ended: bool, entryFinished: bool, raised: bool, error: bool, value: nat, ghost moments: seq<Moment>)
      requires Valid() && entry < |tasks| && !tasks[entry].state.Done?
      modifies this
      ensures Valid() && AllKept(old(otws), otws)
      ensures History(entry, script, moments) && moments[0] == old(Now())
      ensures EntryAnswer(entry, script, moments, entryFinished, raised, value)
      ensures !ended ==> Now() == Latest(moments) && CutShort(script, moments)
      ensures ended && !raised ==> NobodyRuns(Latest(moments)) && !SomebodyWaits(tasks)
      ensures ended && !raised ==> tasks == Latest(moments).tasks
      ensures ended && !raised ==> (error <==> AnyDropped(tasks, Latest(moments).otws))
      ensures ended && raised ==> Now() == Latest(moments) && error
      ensures ended && !raised ==> entryFinished && forall i :: 0 <= i < |tasks| ==> tasks[i].state.Done?
      ensures ended ==> error || !AnyDropped(tasks, otws)
    {
      hide Possible, AllKept, Progress, WorldOk, TurnTaken, Looked, EntryAnswer, ItsTurn, IsDropped;
      entryFinished, raised, value := false, false, GHOST;
      var k := 0;
      KeptRefl(otws);
      moments := [Now()];
      NoAnswerYet(entry, script, Now());
      while k < |script|
        invariant 0 <= k <= |script| && !raised
        invariant Valid() && entry < |tasks| && AllKept(old(otws), otws)
        invariant entryFinished == tasks[entry].state.Done?
        invariant |moments| == k + 1 && moments[0] == old(Now()) && moments[k] == Now()
        invariant History(entry, script, moments)
        invariant EntryAnswer(entry, script, moments, entryFinished, false, value)
      {
        ghost var before := Now();
        var i := PickReady();
        if i == |tasks| && tasks[current].state.Running? {
          i := current;
        }
        ghost var finished, said := entryFinished, value;
        if i < |tasks| {
          TheirTurn(before, i);
          if !Possible(script[k], otws, inbox) {
            return false, entryFinished, raised, false, value, moments;
          }
          var r := TakeTurn(i, entry, script[k]);
          TurnIs(entry, i, script[k], before, Now());
          if i == entry && !r.Suspended? {
            entryFinished := true;
            raised := r.Raised?;
            value := if r.Finished? then r.value else value;
          }
        } else {
          NoTurn(before);
          var waiting := AnyWaiting();
          if !waiting {
            error := Dropped();
            KeptTrans(old(otws), before.otws, otws);
            return true, entryFinished, raised, error, value, moments;
          }
          if !WorldOk(script[k].world) {
            return false, entryFinished, raised, false, value, moments;
          }
          var _ := LookOutside(script[k].world);
        }
        KeptTrans(old(otws), before.otws, otws);
        OneMoment(entry, script, moments, Now());
        AnswerMore(entry, script, moments, Now(), finished, said, raised, value);
        moments := moments + [Now()];
        if raised {
          return true, entryFinished, true, true, value, moments;
        }
        k := k + 1;
      }
      return false, entryFinished, raised, false, value, moments;
    }
  }

  // What there is between two turns.
  datatype Moment = Moment(tasks: seq<Task>, otws: seq<Otw>, current: nat, inbox: seq<nat>)

  // The turn is the first ready task's, or that of the current one if it is running and
  // none is ready.
  ghost predicate ItsTurn(m: Moment, i: nat) {
    && i < |m.tasks|
    && if m.tasks[i].state.Ready? then forall k :: 0 <= k < i ==> !m.tasks[k].state.Ready?
       else i == m.current && m.tasks[i].state.Running? && forall k :: 0 <= k < |m.tasks| ==> !m.tasks[k].state.Ready?
  }

  ghost predicate NobodyRuns(m: Moment) {
    forall i: nat :: !ItsTurn(m, i)
  }

  ghost predicate SomebodyWaits(tasks: seq<Task>) {
    exists i :: 0 <= i < |tasks| && tasks[i].state.Waiting?
  }

  ghost predicate AnyDropped(tasks: seq<Task>, otws: seq<Otw>) {
    exists i :: 0 <= i < |tasks| && IsDropped(tasks[i], otws)
  }

  // Task i ran: the others are as they were, but for the one it took over from, and those
  // it started are new and ready.
  ghost predicate RanOn(i: nat, e: Event, m: Moment, n: Moment) {
    && i < |m.tasks| && |n.tasks| == |m.tasks| + |e.spawned| && n.current == i
    && e.taken <= |m.inbox| + |e.mail| && n.inbox == (m.inbox + e.mail)[e.taken..]
    && n.tasks[i].result == m.tasks[i].result
    && (forall k :: 0 <= k < |m.tasks| && k != i ==> (n.tasks[k] ==
          if k == m.current && m.tasks[k].state.Running? then m.tasks[k].(state := Ready) else m.tasks[k]))
    && forall k :: |m.tasks| <= k < |n.tasks| ==> n.tasks[k] == Task(Ready, None, To(e.spawned[k - |m.tasks|]))
  }

  // The outcome of its own turn, value or error, is what a finished task hands to whoever
  // awaits it, in its otw, which waits for nothing any more; no other otw changes, and none
  // at all if that one is settled already.
  ghost predicate HandedOn(result: Ref, r: Resumed, left: seq<Otw>, after: seq<Otw>) {
    && |after| == |left|
    && (forall p: nat :: p < |left| && !(result == To(p) && left[p].state.Pending?) ==> after[p] == left[p])
    && (forall p: nat :: p < |left| && result == To(p) && left[p].state.Pending? ==>
          && (r.Finished? ==> after[p].state == Fulfilled(r.value))
          && (r.Raised? ==> after[p].state == Rejected(r.error))
          && after[p].awaited == left[p].awaited && after[p].internId == 0 && after[p].waitSocket == NO_SOCKET
          && !after[p].waitMailbox && !after[p].waitInterrupt)
  }

  lemma SettledIsHandedOn(result: Ref, r: Resumed, left: seq<Otw>, after: seq<Otw>)
    requires !r.Suspended?
    requires after == match result
      case None => left
      case To(p) =>
        if p < |left| then left[p := Settle(left[p], if r.Raised? then Rejected(r.error) else Fulfilled(r.value))]
        else left
    ensures HandedOn(result, r, left, after)
  {
  }

  lemma StillThere(i: nat, e: Event, m: Moment, n: Moment)
    requires RanOn(i, e, m, n)
    ensures i < |m.tasks| && i < |n.tasks| && n.tasks[i].result == m.tasks[i].result
  {
  }

  lemma OverOnTop(i: nat, e: Event, m: Moment, ran: Moment, n: Moment)
    requires RanOn(i, e, m, ran) && i < |ran.tasks|
    requires n == ran.(tasks := ran.tasks[i := ran.tasks[i].(state := Done)], otws := n.otws)
    ensures RanOn(i, e, m, n)
  {
  }

  // A turn of task i: it waits for what it awaits, or it is done and has handed on its
  // outcome; the entry's goes to nobody.
  ghost predicate TurnTaken(entry: nat, i: nat, e: Event, m: Moment, n: Moment) {
    && RanOn(i, e, m, n)
    && (e.resumed.Suspended? ==>
          n.tasks[i].state.Waiting? && n.tasks[i].awaiting == To(e.resumed.p) && n.otws == e.otws)
    && (!e.resumed.Suspended? ==>
          n.tasks[i].state.Done? && if i == entry then n.otws == e.otws
                                    else HandedOn(m.tasks[i].result, e.resumed, e.otws, n.otws))
  }

  // Nobody could run: those were woken for whom something had happened outside, and all of
  // them; or nobody can be, and all who waited are told that it is in vain.
  ghost predicate Looked(w: World, m: Moment, n: Moment) {
    && n.current == m.current && |n.tasks| == |m.tasks| && |n.otws| == |m.otws|
    && if Stranded(m.tasks, m.otws, m.inbox, w) then
         && n.inbox == AllMail(m.inbox, |m.tasks|, w)
         && (forall i :: 0 <= i < |n.tasks| ==> (n.tasks[i] ==
               if m.tasks[i].state.Waiting? then m.tasks[i].(state := Ready, awaiting := None) else m.tasks[i]))
         && forall p :: 0 <= p < |n.otws| ==> (n.otws[p] ==
              if Parked(m.tasks, p) then Settle(m.otws[p], Rejected(LEFT_ON_READ)) else m.otws[p])
       else
         && Progress(m.tasks, m.otws, n.otws) && Justified(m.otws, n.otws, w, m.inbox + Came(w.early, |m.tasks|))
         && NobodyMissed(m.tasks, n.otws, n.inbox, w) && IsEnd(n.inbox, AllMail(m.inbox, |m.tasks|, w))
         && forall i :: 0 <= i < |n.tasks| ==> n.tasks[i] == Woken(m.tasks[i], n.otws)
  }

  // One time round the loop.
  ghost predicate Round(entry: nat, e: Event, m: Moment, n: Moment) {
    if NobodyRuns(m) then SomebodyWaits(m.tasks) && WorldOk(e.world) && Looked(e.world, m, n)
    else Possible(e, m.otws, m.inbox) && ItsTurn(m, n.current) && TurnTaken(entry, n.current, e, m, n)
  }

  ghost predicate History(entry: nat, script: seq<Event>, moments: seq<Moment>) {
    && 1 <= |moments| <= |script| + 1
    && forall k :: 0 <= k < |moments| - 1 ==> Round(entry, script[k], moments[k], moments[k + 1])
  }

  function Latest(moments: seq<Moment>): Moment
    requires moments != []
  {
    moments[|moments| - 1]
  }

  // The script is used up, or cannot be what happens next.
  ghost predicate CutShort(script: seq<Event>, moments: seq<Moment>)
    requires 1 <= |moments| <= |script| + 1
  {
    var m, k := Latest(moments), |moments| - 1;
    k == |script| ||
    if NobodyRuns(m) then SomebodyWaits(m.tasks) && !WorldOk(script[k].world)
    else !Possible(script[k], m.otws, m.inbox)
  }

  // In round k the entry's last turn was taken.
  ghost predicate EntryOver(entry: nat, script: seq<Event>, moments: seq<Moment>, k: nat) {
    && k < |script| && k + 1 < |moments|
    && !NobodyRuns(moments[k]) && moments[k + 1].current == entry && !script[k].resumed.Suspended?
  }

  // What is said of the entry is the outcome of its own last turn, after which nothing more
  // is done if that was an error.
  ghost predicate EntryAnswer(entry: nat, script: seq<Event>, moments: seq<Moment>, finished: bool, raised: bool,
        value: nat)
  {
    && (finished <==> exists k: nat :: EntryOver(entry, script, moments, k))
    && (forall k: nat :: EntryOver(entry, script, moments, k) ==>
          if script[k].resumed.Raised? then raised && k == |moments| - 2
          else !raised && script[k].resumed.value == value)
    && (raised ==> finished)
  }

  lemma TheirTurn(m: Moment, i: nat)
    requires i < |m.tasks| && forall k :: 0 <= k < i ==> !m.tasks[k].state.Ready?
    requires m.tasks[i].state.Ready? ||
      (i == m.current && m.tasks[i].state.Running? && forall k :: 0 <= k < |m.tasks| ==> !m.tasks[k].state.Ready?)
    ensures ItsTurn(m, i) && !NobodyRuns(m) && !m.tasks[i].state.Done?
  {
    assert ItsTurn(m, i);
  }

  lemma NoTurn(m: Moment)
    requires m.current < |m.tasks| && !m.tasks[m.current].state.Running?
    requires forall k :: 0 <= k < |m.tasks| ==> !m.tasks[k].state.Ready?
    ensures NobodyRuns(m)
  {
  }

  lemma TurnIs(entry: nat, i: nat, e: Event, m: Moment, n: Moment)
    requires TurnTaken(entry, i, e, m, n)
    ensures n.current == i && |n.tasks| >= |m.tasks|
    ensures forall k :: 0 <= k < |m.tasks| ==>
      (n.tasks[k].state.Done? <==> if k == i then !e.resumed.Suspended? else m.tasks[k].state.Done?)
  {
  }

  lemma NoAnswerYet(entry: nat, script: seq<Event>, m: Moment)
    ensures EntryAnswer(entry, script, [m], false, false, GHOST)
  {
  }

  // The answer after one more round.
  lemma AnswerMore(entry: nat, script: seq<Event>, moments: seq<Moment>, n: Moment, finished: bool, value: nat,
        raised: bool, latest: nat)
    requires 1 <= |moments| <= |script| && EntryAnswer(entry, script, moments, finished, false, value)
    requires var r := script[|moments| - 1].resumed;
             if EntryOver(entry, script, moments + [n], |moments| - 1) then
               !finished && !r.Suspended? && raised == r.Raised? && (r.Finished? ==> latest == r.value)
             else !raised && latest == value
    ensures EntryAnswer(entry, script, moments + [n],
                        finished || EntryOver(entry, script, moments + [n], |moments| - 1), raised, latest)
  {
    var more := moments + [n];
    forall k: nat | k != |moments| - 1
      ensures EntryOver(entry, script, more, k) == EntryOver(entry, script, moments, k)
    {
      SameRound(entry, script, moments, n, k);
    }
    assert !EntryOver(entry, script, moments, |moments| - 1);
    SaidOnce(entry, script, moments);
    hide EntryOver;
    if finished {
      var k: nat :| EntryOver(entry, script, moments, k);
      assert EntryOver(entry, script, more, k);
    }
  }

  lemma SameRound(entry: nat, script: seq<Event>, moments: seq<Moment>, n: Moment, k: nat)
    requires k != |moments| - 1
    ensures EntryOver(entry, script, moments + [n], k) == EntryOver(entry, script, moments, k)
  {
  }

  lemma SaidOnce(entry: nat, script: seq<Event>, moments: seq<Moment>)
    ensures forall k: nat :: EntryOver(entry, script, moments, k) ==>
      k < |script| && k + 1 < |moments| && !script[k].resumed.Suspended?
  {
  }

  lemma OneMoment(entry: nat, script: seq<Event>, moments: seq<Moment>, n: Moment)
    requires History(entry, script, moments) && |moments| <= |script|
    requires Round(entry, script[|moments| - 1], Latest(moments), n)
    ensures History(entry, script, moments + [n])
  {
    hide Round;
    var more := moments + [n];
    forall k | 0 <= k < |more| - 1 ensures Round(entry, script[k], more[k], more[k + 1]) {
      if k < |moments| - 1 {
        assert more[k] == moments[k] && more[k + 1] == moments[k + 1];
      }
    }
  }

  // How a task's turn ended.
  datatype Resumed = Suspended(p: nat) | Finished(value: nat) | Raised(error: nat)

  // A turn, and the world should the loop look outside instead: the otws as the
  // turn leaves them, the otws that the tasks it started will settle, the mail that
  // others post meanwhile, and how much of the mail the turn takes itself.
  datatype Event = Event(resumed: Resumed, otws: seq<Otw>, spawned: seq<nat>, mail: seq<nat>, taken: nat, world: World)

  // A turn settles otws at most; it suspends on a pending one only.
  predicate Possible(e: Event, otws: seq<Otw>, inbox: seq<nat>) {
    && |otws| <= |e.otws| && e.taken <= |inbox| + |e.mail|
    && (forall p :: 0 <= p < |otws| && !otws[p].state.Pending? ==>
         e.otws[p] == otws[p].(awaited := e.otws[p].awaited) && (otws[p].awaited ==> e.otws[p].awaited))
    && (forall k :: 0 <= k < |e.spawned| ==> e.spawned[k] < |e.otws|)
    && (e.resumed.Suspended? ==> e.resumed.p < |e.otws| && e.otws[e.resumed.p].state.Pending?)
  }

  // A task's otw was rejected, and nobody ever awaited it.
  predicate IsDropped(t: Task, otws: seq<Otw>) {
    t.result.To? && t.result.p < |otws| && otws[t.result.p].state.Rejected? && !otws[t.result.p].awaited
  }

  lemma KeptRefl(a: seq<Otw>)
    ensures AllKept(a, a)
  {
  }

  lemma KeptTrans(a: seq<Otw>, b: seq<Otw>, c: seq<Otw>)
    requires AllKept(a, b) && AllKept(b, c)
    ensures AllKept(a, c)
  {
    forall p | 0 <= p < |a| ensures Kept(a[p], c[p]) {
      assert Kept(a[p], b[p]) && Kept(b[p], c[p]);
    }
  }

  lemma ProgressKeeps(tasks: seq<Task>, a: seq<Otw>, b: seq<Otw>)
    requires |a| == |b| && forall p :: 0 <= p < |a| ==> b[p] == a[p] || a[p].state.Pending?
    ensures AllKept(a, b)
  {
  }

  lemma FinishKeeps(a: seq<Otw>, b: seq<Otw>)
    requires b == a || exists p, outcome :: 0 <= p < |a| && b == a[p := Settle(a[p], outcome)]
    ensures AllKept(a, b)
  {
  }

  lemma StrandKeeps(a: seq<Otw>, b: seq<Otw>)
    requires |a| == |b| && forall p :: 0 <= p < |a| ==> b[p] == a[p] || b[p] == Settle(a[p], Rejected(LEFT_ON_READ))
    ensures AllKept(a, b)
  {
  }

  lemma NoneHalfWaiting(tasks: seq<Task>, otws: seq<Otw>, inbox: seq<nat>, w: World)
    requires Stuck(tasks, otws, inbox, w)
    ensures forall i :: 0 <= i < |tasks| && tasks[i].state.Waiting? ==> tasks[i].awaiting.To?
  {
    forall i | 0 <= i < |tasks| && tasks[i].state.Waiting? ensures tasks[i].awaiting.To? {
      assert StuckTask(tasks[i], i, otws, inbox, w);
    }
  }

  lemma NobodyWoke(tasks: seq<Task>)
    ensures !SomeoneWoke(tasks, tasks)
  {
  }

  const MIXED_WAIT_CAP_MS := 25

  // Waiting for an otw that is not settled.
  predicate Waits(t: Task, otws: seq<Otw>) {
    t.state.Waiting? && t.awaiting.To? && t.awaiting.p < |otws|
  }

  predicate HasDeadline(t: Task, otws: seq<Otw>) {
    Waits(t, otws) && otws[t.awaiting.p].state.Pending? && otws[t.awaiting.p].dueAt > 0.0
  }

  // Somebody waits for a socket.
  ghost predicate SocketWaiter(tasks: seq<Task>, otws: seq<Otw>) {
    exists i :: 0 <= i < |tasks| && Waits(tasks[i], otws) && OnSocket(otws[tasks[i].awaiting.p])
  }

  // Somebody waits for an intern, or for mail that can still come.
  ghost predicate InternWaiter(tasks: seq<Task>, otws: seq<Otw>, w: World) {
    exists i :: 0 <= i < |tasks| && Waits(tasks[i], otws) &&
      (otws[tasks[i].awaiting.p].internId in w.hired || (otws[tasks[i].awaiting.p].waitMailbox && w.mailPossible))
  }

  // Something that polling sockets does not notice.
  predicate OffSocket(o: Otw, w: World) {
    o.internId in w.hired || o.waitInterrupt || (o.waitMailbox && w.mailPossible)
  }

  // Sockets are waited for, and so is something that polling them would miss.
  ghost predicate Mixed(tasks: seq<Task>, otws: seq<Otw>, w: World) {
    && SocketWaiter(tasks, otws)
    && (exists i :: 0 <= i < |tasks| && Waits(tasks[i], otws) && OffSocket(otws[tasks[i].awaiting.p], w))
  }

  // Somebody waits for Ctrl-C, and nobody for a socket, a worker or mail.
  ghost predicate InterruptOnly(tasks: seq<Task>, otws: seq<Otw>, w: World) {
    && (exists i :: 0 <= i < |tasks| && Waits(tasks[i], otws) && otws[tasks[i].awaiting.p].waitInterrupt)
    && forall i :: 0 <= i < |tasks| && Waits(tasks[i], otws) ==>
         var o := otws[tasks[i].awaiting.p];
         !OnSocket(o) && o.internId !in w.hired && !(o.waitMailbox && w.mailPossible)
  }

  lemma BehindIs(tasks: seq<Task>, otws: seq<Otw>, inbox: seq<nat>, w: World)
    requires Stuck(tasks, otws, inbox, w) && WorldOk(w)
    ensures forall i :: 0 <= i < |tasks| && tasks[i].state.Waiting? ==>
      Waits(tasks[i], otws) && otws[tasks[i].awaiting.p].state.Pending?
    ensures forall i :: 0 <= i < |tasks| && tasks[i].state.Waiting? ==>
      (Behind(otws[tasks[i].awaiting.p], w) <==>
        HasDeadline(tasks[i], otws) || OnSocket(otws[tasks[i].awaiting.p]) || OffSocket(otws[tasks[i].awaiting.p], w))
  {
    forall i | 0 <= i < |tasks| && tasks[i].state.Waiting?
      ensures Waits(tasks[i], otws) && otws[tasks[i].awaiting.p].state.Pending?
      ensures otws[tasks[i].awaiting.p].isTimer ==> HasDeadline(tasks[i], otws)
    {
      assert StuckTask(tasks[i], i, otws, inbox, w);
    }
  }

  lemma NoOwners(tasks: seq<Task>, otws: seq<Otw>, owners: seq<nat>)
    requires owners == [] && forall p: nat :: p in owners <==> p < |otws| && Parked(tasks, p) && OnSocket(otws[p])
    ensures forall i :: 0 <= i < |tasks| && Waits(tasks[i], otws) ==> !OnSocket(otws[tasks[i].awaiting.p])
  {
    forall i | 0 <= i < |tasks| && Waits(tasks[i], otws) ensures !OnSocket(otws[tasks[i].awaiting.p]) {
      assert ParkedOn(tasks[i], tasks[i].awaiting.p);
      assert tasks[i].awaiting.p !in owners;
    }
  }

  // No parked timer is due, no parked socket readable or late.
  ghost predicate QuietDue(tasks: seq<Task>, otws: seq<Otw>, w: World) {
    && (forall p :: 0 <= p < |otws| && Parked(tasks, p) ==> !Due(otws[p], w.now))
    && (forall p :: 0 <= p < |otws| && Parked(tasks, p) && OnSocket(otws[p]) ==>
         otws[p].waitSocket !in w.readable && !Late(otws[p], w.now))
  }

  // There is nothing to deliver, and nobody to tell of an interrupt.
  ghost predicate QuietNews(tasks: seq<Task>, otws: seq<Otw>, inbox: seq<nat>, w: World) {
    && RefsOk(tasks, |otws|) && Untouched(tasks, otws, inbox, w.early, w.now, |tasks|)
    && forall p :: 0 <= p < |otws| && Parked(tasks, p) && otws[p].waitInterrupt && otws[p].state.Pending? ==>
      !w.interrupt
  }

  // Only parked, pending otws changed, and those are settled now.
  ghost predicate Progress(tasks: seq<Task>, a: seq<Otw>, b: seq<Otw>) {
    |a| == |b| && forall p :: 0 <= p < |a| ==> b[p] == a[p] || Newly(tasks, a[p], b[p], p)
  }

  ghost predicate Newly(tasks: seq<Task>, a: Otw, b: Otw, p: nat) {
    Parked(tasks, p) && a.state.Pending? && !b.state.Pending? && b == Settle(a, b.state)
  }

  ghost predicate SomeSettled(a: seq<Otw>, b: seq<Otw>) {
    |a| == |b| && exists p :: 0 <= p < |a| && a[p].state.Pending? && !b[p].state.Pending?
  }

  // What was settled once stays so.
  lemma MoreSettled(a: seq<Otw>, b: seq<Otw>, c: seq<Otw>)
    requires |a| == |b| && SomeSettled(b, c) && (a == b || SomeSettled(a, b))
    requires forall p :: 0 <= p < |b| && c[p] != b[p] ==> b[p].state.Pending?
    ensures SomeSettled(a, c)
  {
  }

  ghost predicate SomeoneWoke(before: seq<Task>, after: seq<Task>) {
    |before| == |after| && exists i :: 0 <= i < |before| && before[i].state.Waiting? && after[i].state.Ready?
  }

  lemma ProgressTrans(tasks: seq<Task>, a: seq<Otw>, b: seq<Otw>, c: seq<Otw>)
    requires Progress(tasks, a, b) && Progress(tasks, b, c)
    ensures Progress(tasks, a, c)
    ensures a != b || b != c ==> a != c
  {
    forall p | 0 <= p < |a| ensures c[p] == a[p] || Newly(tasks, a[p], c[p], p) {
      assert b[p] == a[p] || Newly(tasks, a[p], b[p], p);
      assert c[p] == b[p] || Newly(tasks, b[p], c[p], p);
    }
    assert forall p :: 0 <= p < |a| && a[p] != b[p] ==> a[p].state.Pending? && !b[p].state.Pending?;
    assert forall p :: 0 <= p < |a| && b[p] != c[p] ==> b[p].state.Pending? && !c[p].state.Pending?;
    assert forall p :: 0 <= p < |a| && (a[p] != b[p] || b[p] != c[p]) ==> a[p] != c[p];
  }

  lemma {:induction false} DeliveredProgress(tasks: seq<Task>, otws: seq<Otw>, inbox: seq<nat>, early: seq<seq<nat>>,
        now: real, n: nat)
    requires n <= |tasks| && RefsOk(tasks, |otws|)
    ensures Progress(tasks, otws, Delivered(tasks, otws, inbox, early, now, n).0)
    decreases n
  {
    if n > 0 {
      DeliveredProgress(tasks, otws, inbox, early, now, n - 1);
      var (os, mail) := Delivered(tasks, otws, inbox, early, now, n - 1);
      var next := Delivered(tasks, otws, inbox, early, now, n).0;
      var t := tasks[n - 1];
      forall p | 0 <= p < |os| ensures next[p] == os[p] || Newly(tasks, os[p], next[p], p) {
        if next[p] != os[p] {
          assert ParkedOn(t, p);
        }
      }
      ProgressTrans(tasks, otws, os, next);
    }
  }

  // Waiting for mail that could be delivered.
  predicate ForMail(t: Task, otws: seq<Otw>) {
    && t.state.Waiting? && t.awaiting.To? && t.awaiting.p < |otws|
    && otws[t.awaiting.p].state.Pending? && otws[t.awaiting.p].waitMailbox
  }

  predicate NothingFor(t: Task, otws: seq<Otw>, mail: seq<nat>, now: real) {
    ForMail(t, otws) ==> mail == [] && !Late(otws[t.awaiting.p], now)
  }

  // Delivering to the first n tasks did nothing, and took nothing.
  ghost predicate Untouched(tasks: seq<Task>, otws: seq<Otw>, inbox: seq<nat>, early: seq<seq<nat>>, now: real, n: nat)
    requires n <= |tasks| && RefsOk(tasks, |otws|)
  {
    Delivered(tasks, otws, inbox, early, now, n).0 == otws
  }

  lemma DeliveredStays(tasks: seq<Task>, otws: seq<Otw>, inbox: seq<nat>, early: seq<seq<nat>>, now: real, n: nat,
        box: seq<nat>)
    requires 0 < n <= |tasks| && RefsOk(tasks, |otws|)
    requires Untouched(tasks, otws, inbox, early, now, n - 1) ==>
      Delivered(tasks, otws, inbox, early, now, n - 1).1 + Before(early, n - 1) == box
    ensures Untouched(tasks, otws, inbox, early, now, n) <==>
      Untouched(tasks, otws, inbox, early, now, n - 1) && NothingFor(tasks[n - 1], otws, box, now)
    ensures Untouched(tasks, otws, inbox, early, now, n) ==> Delivered(tasks, otws, inbox, early, now, n).1 == box
  {
    var (os, mail) := Delivered(tasks, otws, inbox, early, now, n - 1);
    DeliveredProgress(tasks, otws, inbox, early, now, n - 1);
    assert forall p :: 0 <= p < |otws| ==> os[p] == otws[p] || !os[p].state.Pending?;
    assert TaskOk(tasks[n - 1], |otws|);
  }

  // Delivering did nothing exactly if there was neither mail nor a passed deadline
  // for anybody when it looked.
  lemma {:induction false} DeliveredNothing(tasks: seq<Task>, otws: seq<Otw>, inbox: seq<nat>, early: seq<seq<nat>>,
        now: real, n: nat)
    requires n <= |tasks| && RefsOk(tasks, |otws|)
    ensures Untouched(tasks, otws, inbox, early, now, n) <==> NoneFor(tasks, otws, inbox, early, now, n)
    ensures Untouched(tasks, otws, inbox, early, now, n) ==>
      Delivered(tasks, otws, inbox, early, now, n).1 == inbox + Came(early, n)
    decreases n
  {
    if n == 0 {
      assert inbox + [] == inbox;
    } else {
      hide *;
      DeliveredNothing(tasks, otws, inbox, early, now, n - 1);
      CameMore(inbox, early, n);
      NoneForMore(tasks, otws, inbox, early, now, n);
      DeliveredStays(tasks, otws, inbox, early, now, n, inbox + Came(early, n));
    }
  }

  lemma CameMore(inbox: seq<nat>, early: seq<seq<nat>>, n: nat)
    requires n > 0
    ensures (inbox + Came(early, n - 1)) + Before(early, n - 1) == inbox + Came(early, n)
  {
  }

  lemma NoneForMore(tasks: seq<Task>, otws: seq<Otw>, inbox: seq<nat>, early: seq<seq<nat>>, now: real, n: nat)
    requires 0 < n <= |tasks|
    ensures NoneFor(tasks, otws, inbox, early, now, n) <==>
      NoneFor(tasks, otws, inbox, early, now, n - 1) && NothingFor(tasks[n - 1], otws, inbox + Came(early, n), now)
  {
    hide NothingFor, Came;
  }

  ghost predicate NoneFor(tasks: seq<Task>, otws: seq<Otw>, inbox: seq<nat>, early: seq<seq<nat>>, now: real, n: nat) {
    forall i :: 0 <= i < n <= |tasks| ==> NothingFor(tasks[i], otws, inbox + Came(early, i + 1), now)
  }

  // b is the end of a.
  predicate IsEnd(b: seq<nat>, a: seq<nat>) {
    |b| <= |a| && b == a[|a| - |b|..]
  }

  lemma EndOfEnd(c: seq<nat>, b: seq<nat>, a: seq<nat>, more: seq<nat>)
    requires IsEnd(b, a) && IsEnd(c, b + more)
    ensures IsEnd(c, a + more)
  {
    assert b + more == (a + more)[|a| - |b|..];
  }

  lemma DeliveredTakes(tasks: seq<Task>, otws: seq<Otw>, inbox: seq<nat>, early: seq<seq<nat>>, now: real, n: nat)
    requires 0 < n <= |tasks| && RefsOk(tasks, |otws|)
    ensures IsEnd(Delivered(tasks, otws, inbox, early, now, n).1,
                  Delivered(tasks, otws, inbox, early, now, n - 1).1 + Before(early, n - 1))
  {
  }

  // The mail left is the end of the mail there was.
  lemma {:induction false} DeliveredShrinks(tasks: seq<Task>, otws: seq<Otw>, inbox: seq<nat>, early: seq<seq<nat>>,
        now: real, n: nat)
    requires n <= |tasks| && RefsOk(tasks, |otws|)
    ensures IsEnd(Delivered(tasks, otws, inbox, early, now, n).1, inbox + Came(early, n))
    decreases n
  {
    if n > 0 {
      DeliveredShrinks(tasks, otws, inbox, early, now, n - 1);
      DeliveredTakes(tasks, otws, inbox, early, now, n);
      hide *;
      EndOfEnd(Delivered(tasks, otws, inbox, early, now, n).1, Delivered(tasks, otws, inbox, early, now, n - 1).1,
               inbox + Came(early, n - 1), Before(early, n - 1));
      CameMore(inbox, early, n);
    } else {
      assert inbox + [] == inbox;
    }
  }

  // Whom the mail goes to, and which message.
  function Given(tasks: seq<Task>, otws: seq<Otw>, inbox: seq<nat>, early: seq<seq<nat>>, now: real, n: nat)
      : seq<(nat, nat)>
    requires n <= |tasks| && RefsOk(tasks, |otws|)
    decreases n
  {
    if n == 0 then []
    else
      var (os, mail) := Delivered(tasks, otws, inbox, early, now, n - 1);
      var box := mail + Before(early, n - 1);
      Given(tasks, otws, inbox, early, now, n - 1)
      + if ForMail(tasks[n - 1], os) && box != [] then [(tasks[n - 1].awaiting.p, box[0])] else []
  }

  function Messages(given: seq<(nat, nat)>): seq<nat> {
    if given == [] then [] else Messages(given[..|given| - 1]) + [given[|given| - 1].1]
  }

  lemma MessagesMore(given: seq<(nat, nat)>, last: (nat, nat))
    ensures Messages(given + [last]) == Messages(given) + [last.1]
  {
    assert (given + [last])[..|given|] == given;
  }

  // Who is next gets the first message there is, or none.
  lemma GivenMore(tasks: seq<Task>, otws: seq<Otw>, inbox: seq<nat>, early: seq<seq<nat>>, now: real, n: nat)
    requires 0 < n <= |tasks| && RefsOk(tasks, |otws|)
    ensures var (os, mail) := Delivered(tasks, otws, inbox, early, now, n - 1);
            var given, box := Given(tasks, otws, inbox, early, now, n - 1), mail + Before(early, n - 1);
            if ForMail(tasks[n - 1], os) && box != [] then
              && Given(tasks, otws, inbox, early, now, n) == given + [(tasks[n - 1].awaiting.p, box[0])]
              && Delivered(tasks, otws, inbox, early, now, n).1 == box[1..]
            else
              && Given(tasks, otws, inbox, early, now, n) == given
              && Delivered(tasks, otws, inbox, early, now, n).1 == box
    ensures var (os, mail) := Delivered(tasks, otws, inbox, early, now, n - 1);
            TaskOk(tasks[n - 1], |os|) && Delivered(tasks, otws, inbox, early, now, n).0
              == Served(tasks[n - 1], os, mail + Before(early, n - 1), now).0
  {
    var (os, mail) := Delivered(tasks, otws, inbox, early, now, n - 1);
    assert TaskOk(tasks[n - 1], |os|);
    OneGiven(tasks[n - 1], os, mail + Before(early, n - 1), now);
    hide Served, Before, ForMail;
  }

  // The messages given out, in the order of the tasks that get them, then the mail left, are
  // the mail there was.
  predicate Accounts(given: seq<(nat, nat)>, left: seq<nat>, all: seq<nat>) {
    Messages(given) + left == all
  }

  lemma {:induction false} MailInOrder(tasks: seq<Task>, otws: seq<Otw>, inbox: seq<nat>, early: seq<seq<nat>>,
        now: real, n: nat)
    requires n <= |tasks| && RefsOk(tasks, |otws|)
    ensures AllAccounted(tasks, otws, inbox, early, now, n)
    decreases n
  {
    if n == 0 {
      NothingGiven(inbox);
    } else {
      hide AllAccounted;
      MailInOrder(tasks, otws, inbox, early, now, n - 1);
      MailStep(tasks, otws, inbox, early, now, n);
    }
  }

  ghost predicate AllAccounted(tasks: seq<Task>, otws: seq<Otw>, inbox: seq<nat>, early: seq<seq<nat>>, now: real,
        n: nat)
    requires n <= |tasks| && RefsOk(tasks, |otws|)
  {
    Accounts(Given(tasks, otws, inbox, early, now, n), Delivered(tasks, otws, inbox, early, now, n).1,
             inbox + Came(early, n))
  }

  lemma MailStep(tasks: seq<Task>, otws: seq<Otw>, inbox: seq<nat>, early: seq<seq<nat>>, now: real, n: nat)
    requires 0 < n <= |tasks| && RefsOk(tasks, |otws|) && AllAccounted(tasks, otws, inbox, early, now, n - 1)
    ensures AllAccounted(tasks, otws, inbox, early, now, n)
  {
    hide Accounts, Hands, Given, Delivered, Came, Before, Served, RefsOk;
    HandsOne(tasks, otws, inbox, early, now, n);
    CameMore(inbox, early, n);
    AccountsMore(Given(tasks, otws, inbox, early, now, n - 1), Delivered(tasks, otws, inbox, early, now, n - 1).1,
                 Before(early, n - 1), inbox + Came(early, n - 1),
                 Given(tasks, otws, inbox, early, now, n), Delivered(tasks, otws, inbox, early, now, n).1);
  }

  lemma NothingGiven(inbox: seq<nat>)
    ensures Accounts([], inbox, inbox + [])
  {
    assert [] + inbox == inbox + [];
  }

  lemma AccountsMore(given: seq<(nat, nat)>, mail: seq<nat>, more: seq<nat>, all: seq<nat>, after: seq<(nat, nat)>,
        left: seq<nat>)
    requires Accounts(given, mail, all)
    requires Hands(given, mail + more, after, left)
    ensures Accounts(after, left, all + more)
  {
    if TakesFirst(given, mail + more, after, left) {
      MessagesMore(given, after[|given|]);
      assert mail + more == [(mail + more)[0]] + left;
      assert Messages(after) + left == Messages(given) + ([(mail + more)[0]] + left);
    }
    assert Messages(given) + (mail + more) == (Messages(given) + mail) + more;
  }

  // The first message in the box is given out, or none.
  predicate Hands(given: seq<(nat, nat)>, box: seq<nat>, after: seq<(nat, nat)>, left: seq<nat>) {
    (after == given && left == box) || TakesFirst(given, box, after, left)
  }

  lemma HandsOne(tasks: seq<Task>, otws: seq<Otw>, inbox: seq<nat>, early: seq<seq<nat>>, now: real, n: nat)
    requires 0 < n <= |tasks| && RefsOk(tasks, |otws|)
    ensures Hands(Given(tasks, otws, inbox, early, now, n - 1),
                  Delivered(tasks, otws, inbox, early, now, n - 1).1 + Before(early, n - 1),
                  Given(tasks, otws, inbox, early, now, n), Delivered(tasks, otws, inbox, early, now, n).1)
  {
    GivenMore(tasks, otws, inbox, early, now, n);
    hide Given, Delivered, Before, RefsOk, ForMail;
  }

  predicate TakesFirst(given: seq<(nat, nat)>, box: seq<nat>, after: seq<(nat, nat)>, left: seq<nat>) {
    && box != [] && left == box[1..]
    && |after| == |given| + 1 && after[|given|].1 == box[0] && after == given + [after[|given|]]
  }

  lemma OneGiven(t: Task, otws: seq<Otw>, mail: seq<nat>, now: real)
    requires TaskOk(t, |otws|)
    ensures Served(t, otws, mail, now).1 == if ForMail(t, otws) && mail != [] then mail[1..] else mail
    ensures ForMail(t, otws) && mail != [] ==> Served(t, otws, mail, now).0[t.awaiting.p].state == Fulfilled(mail[0])
  {
  }

  // Nobody is given two messages, what is given is what the otw is settled with, and no
  // other otw is settled but late ones, with nothing.
  ghost predicate Received(given: seq<(nat, nat)>, otws: seq<Otw>, after: seq<Otw>, now: real) {
    && |after| == |otws|
    && (forall k :: 0 <= k < |given| ==> given[k].0 < |after| && after[given[k].0].state == Fulfilled(given[k].1))
    && (forall j, k :: 0 <= j < k < |given| ==> given[j].0 != given[k].0)
    && (forall p: nat :: p < |after| && !Gets(given, p) ==>
          after[p] == otws[p] || (Late(otws[p], now) && after[p].state == Fulfilled(GHOST)))
  }

  ghost predicate Gets(given: seq<(nat, nat)>, p: nat) {
    exists k :: 0 <= k < |given| && given[k].0 == p
  }

  lemma {:induction false} GivenIsReceived(tasks: seq<Task>, otws: seq<Otw>, inbox: seq<nat>, early: seq<seq<nat>>,
        now: real, n: nat)
    requires n <= |tasks| && RefsOk(tasks, |otws|)
    ensures AllReceived(tasks, otws, inbox, early, now, n)
    decreases n
  {
    if n == 0 {
      NoneReceived(otws, now);
    } else {
      hide AllReceived;
      GivenIsReceived(tasks, otws, inbox, early, now, n - 1);
      ReceivedStep(tasks, otws, inbox, early, now, n);
    }
  }

  ghost predicate AllReceived(tasks: seq<Task>, otws: seq<Otw>, inbox: seq<nat>, early: seq<seq<nat>>, now: real,
        n: nat)
    requires n <= |tasks| && RefsOk(tasks, |otws|)
  {
    Received(Given(tasks, otws, inbox, early, now, n), otws, Delivered(tasks, otws, inbox, early, now, n).0, now)
  }

  lemma ReceivedStep(tasks: seq<Task>, otws: seq<Otw>, inbox: seq<nat>, early: seq<seq<nat>>, now: real, n: nat)
    requires 0 < n <= |tasks| && RefsOk(tasks, |otws|) && AllReceived(tasks, otws, inbox, early, now, n - 1)
    ensures AllReceived(tasks, otws, inbox, early, now, n)
  {
    hide Received, Delivered, Given, Before, Served, RefsOk, TaskOk;
    GivenMore(tasks, otws, inbox, early, now, n);
    var (os, mail) := Delivered(tasks, otws, inbox, early, now, n - 1);
    ReceivedMore(Given(tasks, otws, inbox, early, now, n - 1), otws, os, tasks[n - 1],
                 mail + Before(early, n - 1), now);
  }

  lemma NoneReceived(otws: seq<Otw>, now: real)
    ensures Received([], otws, otws, now)
  {
  }

  lemma ReceivedMore(given: seq<(nat, nat)>, otws: seq<Otw>, os: seq<Otw>, t: Task, box: seq<nat>, now: real)
    requires Received(given, otws, os, now) && TaskOk(t, |os|)
    ensures var more := if ForMail(t, os) && box != [] then given + [(t.awaiting.p, box[0])] else given;
            Received(more, otws, Served(t, os, box, now).0, now)
  {
    var next := Served(t, os, box, now).0;
    OneGiven(t, os, box, now);
    ServedOnly(t, os, box, now);
    hide Served;
    if ForMail(t, os) {
      var p := t.awaiting.p;
      if box != [] {
        ReceivedOne(given, otws, os, p, box[0], next, now);
      } else {
        assert forall k :: 0 <= k < |given| ==> given[k].0 != p;
        assert os[p] == otws[p];
      }
    }
  }

  lemma ReceivedOne(given: seq<(nat, nat)>, otws: seq<Otw>, os: seq<Otw>, p: nat, m: nat, next: seq<Otw>, now: real)
    requires Received(given, otws, os, now) && p < |os| == |next| && os[p].state.Pending?
    requires next[p].state == Fulfilled(m) && forall q :: 0 <= q < |os| && q != p ==> next[q] == os[q]
    ensures Received(given + [(p, m)], otws, next, now)
  {
    var more := given + [(p, m)];
    assert more[|given|] == (p, m);
    assert forall k :: 0 <= k < |given| ==> more[k] == given[k];
    forall q: nat | !Gets(more, q) ensures q != p && !Gets(given, q) {
      GetsStill(given, (p, m), q);
    }
  }

  lemma GetsStill(given: seq<(nat, nat)>, last: (nat, nat), q: nat)
    ensures Gets(given, q) || q == last.0 ==> Gets(given + [last], q)
  {
    var more := given + [last];
    assert more[|given|] == last;
    assert forall k :: 0 <= k < |given| ==> more[k] == given[k];
  }

  lemma ServedOnly(t: Task, otws: seq<Otw>, mail: seq<nat>, now: real)
    requires TaskOk(t, |otws|)
    ensures !ForMail(t, otws) ==> Served(t, otws, mail, now).0 == otws
    ensures ForMail(t, otws) ==> forall p :: 0 <= p < |otws| && p != t.awaiting.p ==>
      Served(t, otws, mail, now).0[p] == otws[p]
    ensures ForMail(t, otws) && mail == [] ==>
      var o := Served(t, otws, mail, now).0[t.awaiting.p];
      if Late(otws[t.awaiting.p], now) then o.state == Fulfilled(GHOST) else o == otws[t.awaiting.p]
  {
  }

  // What settles an otw is something that has happened.
  predicate ForReason(o: Otw, outcome: Outcome, w: World, mail: seq<nat>) {
    || (outcome == Fulfilled(GHOST) &&
        (Due(o, w.now) || (o.waitMailbox && Late(o, w.now)) || (o.waitInterrupt && w.interrupt)))
    || (outcome == Fulfilled(TRUE) && OnSocket(o) && o.waitSocket in w.readable)
    || (outcome == Fulfilled(FALSE) && OnSocket(o) && o.waitSocket !in w.readable && Late(o, w.now))
    || (outcome.Fulfilled? && o.waitMailbox && outcome.value in mail)
    || (o.internId in w.answers && outcome == w.answers[o.internId])
  }

  ghost predicate Justified(a: seq<Otw>, b: seq<Otw>, w: World, mail: seq<nat>) {
    |a| == |b| && forall p :: 0 <= p < |a| ==> b[p] == a[p] || ForReason(a[p], b[p].state, w, mail)
  }

  lemma JustifiedTrans(tasks: seq<Task>, a: seq<Otw>, b: seq<Otw>, c: seq<Otw>, w: World, mail: seq<nat>)
    requires Justified(a, b, w, mail) && Justified(b, c, w, mail) && Progress(tasks, a, b) && Progress(tasks, b, c)
    ensures Justified(a, c, w, mail)
  {
    hide ForReason;
    forall p | 0 <= p < |a| ensures c[p] == a[p] || ForReason(a[p], c[p].state, w, mail) {
      assert b[p] == a[p] || Newly(tasks, a[p], b[p], p);
      assert c[p] == b[p] || Newly(tasks, b[p], c[p], p);
    }
  }

  // Nothing is due, readable or late that is still waited for.
  predicate NothingDue(o: Otw, w: World) {
    o.state.Pending? ==> !Due(o, w.now) && (OnSocket(o) ==> o.waitSocket !in w.readable && !Late(o, w.now))
  }

  predicate NoNews(o: Otw, w: World) {
    o.state.Pending? ==> !(o.waitInterrupt && w.interrupt)
  }

  // Who still waits for mail is not late, and all mail left came after it was looked at.
  ghost predicate NoMailFor(tasks: seq<Task>, otws: seq<Otw>, inbox: seq<nat>, w: World, i: nat)
    requires i < |tasks|
  {
    ForMail(tasks[i], otws) ==>
      !Late(otws[tasks[i].awaiting.p], w.now) && |inbox| + |Came(w.early, i + 1)| <= |Came(w.early, |tasks|)| + |w.late|
  }

  // Nobody who still waits could have been woken.
  ghost predicate NobodyMissed(tasks: seq<Task>, otws: seq<Otw>, inbox: seq<nat>, w: World) {
    && (forall p :: 0 <= p < |otws| && Parked(tasks, p) ==>
          NothingDue(otws[p], w) && NoNews(otws[p], w) && (otws[p].state.Pending? ==> otws[p].internId !in w.answers))
    && forall i :: 0 <= i < |tasks| ==> NoMailFor(tasks, otws, inbox, w, i)
  }

  lemma CollectedForReason(tasks: seq<Task>, a: seq<Otw>, b: seq<Otw>, w: World, mail: seq<nat>)
    requires |a| == |b| && forall p :: 0 <= p < |a| ==> (b[p] ==
      if Parked(tasks, p) && a[p].internId in w.answers then Settle(a[p], w.answers[a[p].internId]) else a[p])
    requires WorldOk(w)
    ensures Justified(a, b, w, mail) && Progress(tasks, a, b)
    ensures forall p :: 0 <= p < |b| && Parked(tasks, p) && b[p].state.Pending? ==> b[p].internId !in w.answers
  {
  }

  lemma TimersProgress(tasks: seq<Task>, a: seq<Otw>, b: seq<Otw>, fired: bool, w: World)
    requires |a| == |b| && forall p :: 0 <= p < |a| ==> (b[p] ==
      if Parked(tasks, p) && Due(a[p], w.now) then Settle(a[p], Fulfilled(GHOST)) else a[p])
    requires fired <==> exists p :: 0 <= p < |a| && Parked(tasks, p) && Due(a[p], w.now)
    ensures Progress(tasks, a, b) && forall mail :: Justified(a, b, w, mail)
    ensures forall p :: 0 <= p < |b| && Parked(tasks, p) ==> !Due(b[p], w.now)
    ensures fired <==> a != b
  {
    if fired {
      var p :| 0 <= p < |a| && Parked(tasks, p) && Due(a[p], w.now);
      assert a[p] != b[p];
    }
  }

  lemma SocketsProgress(tasks: seq<Task>, b: seq<Otw>, c: seq<Otw>, moved: bool, w: World)
    requires |b| == |c| && forall p :: 0 <= p < |c| ==> (c[p] ==
      if Parked(tasks, p) && OnSocket(b[p]) then
        if b[p].waitSocket in w.readable then Settle(b[p], Fulfilled(TRUE))
        else if Late(b[p], w.now) then Settle(b[p], Fulfilled(FALSE)) else b[p]
      else b[p])
    requires moved <==> exists p :: 0 <= p < |c| && c[p] != b[p]
    ensures Progress(tasks, b, c) && forall mail :: Justified(b, c, w, mail)
    ensures forall p :: 0 <= p < |c| && Parked(tasks, p) && c[p].state.Pending? && OnSocket(c[p]) ==>
      c[p].waitSocket !in w.readable && !Late(c[p], w.now)
    ensures moved <==> b != c
    ensures moved <==> exists p :: 0 <= p < |c| && Parked(tasks, p) && ReadyOrLate(b[p], w)
  {
    if p :| 0 <= p < |c| && Parked(tasks, p) && ReadyOrLate(b[p], w) {
      assert b[p] != c[p];
    }
  }

  predicate ReadyOrLate(o: Otw, w: World) {
    OnSocket(o) && (o.waitSocket in w.readable || Late(o, w.now))
  }

  // Timers and sockets together.
  lemma DueAll(tasks: seq<Task>, a: seq<Otw>, b: seq<Otw>, c: seq<Otw>, w: World)
    requires Progress(tasks, a, b) && Progress(tasks, b, c)
    requires (forall mail :: Justified(a, b, w, mail)) && (forall mail :: Justified(b, c, w, mail))
    requires forall p :: 0 <= p < |b| && Parked(tasks, p) ==> !Due(b[p], w.now)
    requires forall p :: 0 <= p < |c| && Parked(tasks, p) && c[p].state.Pending? && OnSocket(c[p]) ==>
      c[p].waitSocket !in w.readable && !Late(c[p], w.now)
    requires a != b <==> exists p :: 0 <= p < |a| && Parked(tasks, p) && Due(a[p], w.now)
    requires b != c <==> exists p :: 0 <= p < |c| && Parked(tasks, p) && ReadyOrLate(b[p], w)
    ensures Progress(tasks, a, c) && forall mail :: Justified(a, c, w, mail)
    ensures a != b || b != c <==> a != c
    ensures forall p :: 0 <= p < |c| && Parked(tasks, p) ==> NothingDue(c[p], w)
    ensures a != c <==> !QuietDue(tasks, a, w)
  {
    ProgressTrans(tasks, a, b, c);
    forall mail ensures Justified(a, c, w, mail) {
      JustifiedTrans(tasks, a, b, c, w, mail);
    }
    hide Justified, Parked;
    forall p | 0 <= p < |c| && Parked(tasks, p) ensures NothingDue(c[p], w) {
      assert c[p] == b[p] || Newly(tasks, b[p], c[p], p);
    }
    assert QuietDue(tasks, a, w) <==> forall p :: 0 <= p < |a| && Parked(tasks, p) ==>
      !Due(a[p], w.now) && !ReadyOrLate(a[p], w);
  }

  // Mail and Ctrl-C together.
  lemma NewsAll(tasks: seq<Task>, a: seq<Otw>, b: seq<Otw>, c: seq<Otw>, inbox: seq<nat>, left: seq<nat>, w: World)
    requires RefsOk(tasks, |a|) && (b, left) == Delivered(tasks, a, inbox, w.early, w.now, |tasks|)
    requires |b| == |c| && forall p :: 0 <= p < |c| ==> (c[p] ==
      if w.interrupt && Parked(tasks, p) && b[p].waitInterrupt then Settle(b[p], Fulfilled(GHOST)) else b[p])
    ensures Progress(tasks, a, b) && Progress(tasks, b, c) && Progress(tasks, a, c)
    ensures a != b || b != c ==> a != c
    ensures Justified(a, c, w, inbox + Came(w.early, |tasks|))
    ensures forall p :: 0 <= p < |c| && Parked(tasks, p) ==> NoNews(c[p], w)
    ensures forall i :: 0 <= i < |tasks| ==> NoMailFor(tasks, c, left + w.late, w, i)
    ensures IsEnd(left + w.late, AllMail(inbox, |tasks|, w))
  {
    DeliveredProgress(tasks, a, inbox, w.early, w.now, |tasks|);
    DeliveredForReason(tasks, a, inbox, w, |tasks|);
    DeliveredShrinks(tasks, a, inbox, w.early, w.now, |tasks|);
    OnlyLaterMail(tasks, a, inbox, w, |tasks|);
    hide Delivered, Came;
    InterruptsProgress(tasks, b, c, w, inbox + Came(w.early, |tasks|));
    hide Justified, ForReason, Parked;
    ProgressTrans(tasks, a, b, c);
    JustifiedTrans(tasks, a, b, c, w, inbox + Came(w.early, |tasks|));
    forall i | 0 <= i < |tasks| ensures NoMailFor(tasks, c, left + w.late, w, i) {
      if ForMail(tasks[i], c) {
        assert ForMail(tasks[i], b);
      }
    }
    EndOfMore(left, inbox + Came(w.early, |tasks|), w.late);
  }

  lemma EndOfMore(b: seq<nat>, a: seq<nat>, more: seq<nat>)
    requires IsEnd(b, a)
    ensures IsEnd(b + more, a + more)
  {
  }

  lemma InterruptsProgress(tasks: seq<Task>, b: seq<Otw>, c: seq<Otw>, w: World, mail: seq<nat>)
    requires |b| == |c| && forall p :: 0 <= p < |c| ==> (c[p] ==
      if w.interrupt && Parked(tasks, p) && b[p].waitInterrupt then Settle(b[p], Fulfilled(GHOST)) else b[p])
    ensures Progress(tasks, b, c) && Justified(b, c, w, mail)
    ensures forall p :: 0 <= p < |c| && Parked(tasks, p) ==> NoNews(c[p], w)
  {
  }

  // All passes together.
  lemma NoticedAll(tasks: seq<Task>, a: seq<Otw>, b: seq<Otw>, c: seq<Otw>, d: seq<Otw>, mail: seq<nat>,
        inbox: seq<nat>, w: World)
    requires Progress(tasks, a, b) && Progress(tasks, b, c) && WorldOk(w)
    requires (forall mail :: Justified(a, b, w, mail)) && Justified(b, c, w, mail)
    requires forall p :: 0 <= p < |b| && Parked(tasks, p) ==> NothingDue(b[p], w)
    requires forall p :: 0 <= p < |c| && Parked(tasks, p) ==> NoNews(c[p], w)
    requires forall i :: 0 <= i < |tasks| ==> NoMailFor(tasks, c, inbox, w, i)
    requires |c| == |d| && forall p :: 0 <= p < |c| ==> (d[p] ==
      if Parked(tasks, p) && c[p].internId in w.answers then Settle(c[p], w.answers[c[p].internId]) else c[p])
    ensures Justified(a, d, w, mail) && NobodyMissed(tasks, d, inbox, w)
  {
    CollectedForReason(tasks, c, d, w, mail);
    JustifiedTrans(tasks, a, b, c, w, mail);
    ProgressTrans(tasks, a, b, c);
    JustifiedTrans(tasks, a, c, d, w, mail);
    hide Justified, ForReason, Came;
    forall p | 0 <= p < |d| && Parked(tasks, p) ensures NothingDue(d[p], w) && NoNews(d[p], w) {
      assert c[p] == b[p] || Newly(tasks, b[p], c[p], p);
    }
    forall i | 0 <= i < |tasks| ensures NoMailFor(tasks, d, inbox, w, i) {
      assert NoMailFor(tasks, c, inbox, w, i);
    }
  }

  lemma {:induction false} DeliveredForReason(tasks: seq<Task>, otws: seq<Otw>, inbox: seq<nat>, w: World, n: nat)
    requires n <= |tasks| && RefsOk(tasks, |otws|)
    ensures Justified(otws, Delivered(tasks, otws, inbox, w.early, w.now, n).0, w, inbox + Came(w.early, n))
    decreases n
  {
    if n > 0 {
      var (os, mail) := Delivered(tasks, otws, inbox, w.early, w.now, n - 1);
      assert TaskOk(tasks[n - 1], |os|);
      ServedIsNext(tasks, otws, inbox, w.early, w.now, n);
      hide Delivered, Justified, Progress, RefsOk, Served, Before, Came;
      DeliveredForReason(tasks, otws, inbox, w, n - 1);
      DeliveredShrinks(tasks, otws, inbox, w.early, w.now, n - 1);
      DeliveredProgress(tasks, otws, inbox, w.early, w.now, n - 1);
      CameMore(inbox, w.early, n);
      var box, all := mail + Before(w.early, n - 1), inbox + Came(w.early, n);
      InTheEnd(mail, inbox + Came(w.early, n - 1), Before(w.early, n - 1));
      MoreReasons(otws, os, w, inbox + Came(w.early, n - 1), all);
      ServedForReason(tasks, tasks[n - 1], otws, os, box, w, all);
    }
  }

  lemma ServedIsNext(tasks: seq<Task>, otws: seq<Otw>, inbox: seq<nat>, early: seq<seq<nat>>, now: real, n: nat)
    requires 0 < n <= |tasks| && RefsOk(tasks, |otws|)
    ensures var (os, mail) := Delivered(tasks, otws, inbox, early, now, n - 1);
            TaskOk(tasks[n - 1], |os|) && Delivered(tasks, otws, inbox, early, now, n)
              == Served(tasks[n - 1], os, mail + Before(early, n - 1), now)
  {
    hide Served, Before;
  }

  lemma InTheEnd(b: seq<nat>, a: seq<nat>, more: seq<nat>)
    requires IsEnd(b, a)
    ensures forall m :: m in b + more ==> m in a + more
    ensures forall m :: m in a ==> m in a + more
  {
  }

  lemma MoreReasons(a: seq<Otw>, b: seq<Otw>, w: World, mail: seq<nat>, more: seq<nat>)
    requires Justified(a, b, w, mail) && forall m :: m in mail ==> m in more
    ensures Justified(a, b, w, more)
  {
  }

  lemma ServedForReason(tasks: seq<Task>, t: Task, otws: seq<Otw>, os: seq<Otw>, box: seq<nat>, w: World,
        all: seq<nat>)
    requires TaskOk(t, |os|) && forall m :: m in box ==> m in all
    requires Justified(otws, os, w, all) && Progress(tasks, otws, os)
    ensures Justified(otws, Served(t, os, box, w.now).0, w, all)
  {
    OneGiven(t, os, box, w.now);
    ServedOnly(t, os, box, w.now);
    var next := Served(t, os, box, w.now).0;
    hide Served;
    forall p | 0 <= p < |otws| ensures next[p] == otws[p] || ForReason(otws[p], next[p].state, w, all) {
      assert os[p] == otws[p] || Newly(tasks, otws[p], os[p], p);
    }
  }

  // The first n tasks that still wait for mail found none.
  lemma {:induction false} OnlyLaterMail(tasks: seq<Task>, otws: seq<Otw>, inbox: seq<nat>, w: World, n: nat)
    requires n <= |tasks| && RefsOk(tasks, |otws|)
    ensures var (os, mail) := Delivered(tasks, otws, inbox, w.early, w.now, n);
            forall i :: 0 <= i < n && ForMail(tasks[i], os) ==>
              !Late(os[tasks[i].awaiting.p], w.now) && |mail| + |Came(w.early, i + 1)| <= |Came(w.early, n)|
    decreases n
  {
    if n > 0 {
      OnlyLaterMail(tasks, otws, inbox, w, n - 1);
      DeliveredTakes(tasks, otws, inbox, w.early, w.now, n);
      var (os, mail) := Delivered(tasks, otws, inbox, w.early, w.now, n - 1);
      var (next, left) := Delivered(tasks, otws, inbox, w.early, w.now, n);
      var box := mail + Before(w.early, n - 1);
      assert TaskOk(tasks[n - 1], |os|);
      ServedOnly(tasks[n - 1], os, box, w.now);
      OneGiven(tasks[n - 1], os, box, w.now);
      assert |Came(w.early, n)| == |Came(w.early, n - 1)| + |Before(w.early, n - 1)|;
      hide Delivered, Served, Came, Before;
      forall i | 0 <= i < n && ForMail(tasks[i], next)
        ensures !Late(next[tasks[i].awaiting.p], w.now) && |left| + |Came(w.early, i + 1)| <= |Came(w.early, n)|
      {
        if i < n - 1 {
          assert ForMail(tasks[i], os);
        }
      }
    }
  }

  lemma WokeIfMoved(before: seq<Task>, after: seq<Task>, a: seq<Otw>, b: seq<Otw>)
    requires |before| == |after| && Progress(before, a, b)
    requires forall i :: 0 <= i < |before| ==> after[i] == Woken(before[i], b)
    requires a != b || exists i :: 0 <= i < |before| && after[i] != before[i]
    ensures SomeoneWoke(before, after)
  {
    if a != b {
      var p :| 0 <= p < |a| && a[p] != b[p];
      assert Newly(before, a[p], b[p], p);
      var i :| 0 <= i < |before| && ParkedOn(before[i], p);
      assert after[i].state.Ready?;
    }
  }

  lemma NothingMoved(tasks: seq<Task>, otws: seq<Otw>, after: seq<Otw>, inbox: seq<nat>, w: World)
    requires RefsOk(tasks, |otws|) && Progress(tasks, otws, after)
    requires forall i :: 0 <= i < |tasks| ==> tasks[i] == Woken(tasks[i], after)
    requires QuietDue(tasks, otws, w) && QuietNews(tasks, otws, inbox, w)
    requires WorldOk(w)
    requires forall p :: 0 <= p < |otws| && Parked(tasks, p) && otws[p].internId in w.answers ==>
      after[p] == Settle(otws[p], w.answers[otws[p].internId])
    ensures after == otws && Stuck(tasks, otws, inbox, w)
  {
    forall i | 0 <= i < |tasks| && tasks[i].state.Waiting?
      ensures tasks[i].awaiting.To? && tasks[i].awaiting.p < |otws| && after[tasks[i].awaiting.p].state.Pending?
    {
      assert tasks[i] == Woken(tasks[i], after) && TaskOk(tasks[i], |otws|);
    }
    assert forall p :: 0 <= p < |otws| ==> after[p] == otws[p];
    DeliveredNothing(tasks, otws, inbox, w.early, w.now, |tasks|);
    forall i | 0 <= i < |tasks| && tasks[i].state.Waiting? ensures StuckTask(tasks[i], i, otws, inbox, w) {
      assert tasks[i] == Woken(tasks[i], after) && TaskOk(tasks[i], |otws|);
      var p := tasks[i].awaiting.p;
      assert ParkedOn(tasks[i], p);
      assert otws[p].waitMailbox ==> ForMail(tasks[i], otws);
    }
  }

  // And if everybody is stuck nothing moves.
  lemma StuckIsQuiet(tasks: seq<Task>, otws: seq<Otw>, inbox: seq<nat>, w: World)
    requires Stuck(tasks, otws, inbox, w) && RefsOk(tasks, |otws|)
    ensures QuietDue(tasks, otws, w) && QuietNews(tasks, otws, inbox, w)
    ensures forall p :: 0 <= p < |otws| && Parked(tasks, p) ==> otws[p].internId !in w.answers
    ensures forall i :: 0 <= i < |tasks| ==> Woken(tasks[i], otws) == tasks[i]
  {
    forall p | 0 <= p < |otws| && Parked(tasks, p)
      ensures !Due(otws[p], w.now) && otws[p].internId !in w.answers && !(otws[p].waitInterrupt && w.interrupt)
      ensures OnSocket(otws[p]) ==> otws[p].waitSocket !in w.readable && !Late(otws[p], w.now)
    {
      var i :| 0 <= i < |tasks| && ParkedOn(tasks[i], p);
      assert StuckTask(tasks[i], i, otws, inbox, w);
    }
    forall i | 0 <= i < |tasks| && tasks[i].state.Waiting?
      ensures tasks[i].awaiting.To? && tasks[i].awaiting.p < |otws| && otws[tasks[i].awaiting.p].state.Pending?
      ensures ForMail(tasks[i], otws) ==> inbox + Came(w.early, i + 1) == [] && !Late(otws[tasks[i].awaiting.p], w.now)
    {
      assert StuckTask(tasks[i], i, otws, inbox, w);
    }
    DeliveredNothing(tasks, otws, inbox, w.early, w.now, |tasks|);
  }

  // No task waits for anything settled, readable, late, deliverable or done.
  ghost predicate Stuck(tasks: seq<Task>, otws: seq<Otw>, inbox: seq<nat>, w: World) {
    forall i :: 0 <= i < |tasks| && tasks[i].state.Waiting? ==> StuckTask(tasks[i], i, otws, inbox, w)
  }

  // Mail that came after the pass looked at task i is not seen.
  ghost predicate StuckTask(t: Task, i: nat, otws: seq<Otw>, inbox: seq<nat>, w: World) {
    && t.awaiting.To? && t.awaiting.p < |otws|
    && var o := otws[t.awaiting.p];
       && o.state.Pending? && !(o.isTimer && o.dueAt <= w.now) && !(OnSocket(o) && o.waitSocket in w.readable)
       && !(OnSocket(o) && Late(o, w.now)) && (o.waitMailbox ==> inbox + Came(w.early, i + 1) == [] && !Late(o, w.now))
       && !(w.interrupt && o.waitInterrupt) && o.internId !in w.answers
  }

  // All mail there is when it is asked whether more can come, if none was taken.
  function AllMail(inbox: seq<nat>, n: nat, w: World): seq<nat> {
    inbox + Came(w.early, n) + w.late
  }

  // Nobody can move, and nothing is behind anything anybody waits for.
  ghost predicate Stranded(tasks: seq<Task>, otws: seq<Otw>, inbox: seq<nat>, w: World) {
    && Stuck(tasks, otws, inbox, w)
    && forall i :: 0 <= i < |tasks| && Waits(tasks[i], otws) ==> !Behind(otws[tasks[i].awaiting.p], w)
  }

  ghost predicate MailWaiter(tasks: seq<Task>, otws: seq<Otw>) {
    exists i :: 0 <= i < |tasks| && ForMail(tasks[i], otws)
  }

  // Somebody waits for mail, and there is mail, which came after the pass had looked
  // at all who wait for it; by the time it is asked no intern is left to send any; and
  // nothing else has happened for anybody, or is behind anything anybody waits for.
  ghost predicate MailTooLate(tasks: seq<Task>, otws: seq<Otw>, inbox: seq<nat>, w: World) {
    && MailWaiter(tasks, otws) && !w.mailPossible && AllMail(inbox, |tasks|, w) != []
    && NoneFor(tasks, otws, inbox, w.early, w.now, |tasks|)
    && forall i :: 0 <= i < |tasks| && tasks[i].state.Waiting? ==> NothingElse(tasks[i], otws, w)
  }

  // Apart from mail.
  ghost predicate NothingElse(t: Task, otws: seq<Otw>, w: World) {
    && t.awaiting.To? && t.awaiting.p < |otws|
    && var o := otws[t.awaiting.p];
       && o.state.Pending? && !o.isTimer && o.dueAt <= 0.0 && o.waitSocket == NO_SOCKET
       && o.internId !in w.hired && o.internId !in w.answers && !o.waitInterrupt
  }

  lemma TooLateIff(tasks: seq<Task>, otws: seq<Otw>, inbox: seq<nat>, w: World)
    requires RefsOk(tasks, |otws|) && WorldOk(w)
    ensures MailTooLate(tasks, otws, inbox, w) <==>
      Stranded(tasks, otws, inbox, w) && MailWaiter(tasks, otws) && AllMail(inbox, |tasks|, w) != []
  {
    if Stranded(tasks, otws, inbox, w) && MailWaiter(tasks, otws) {
      forall i | 0 <= i < |tasks| && tasks[i].state.Waiting?
        ensures NothingElse(tasks[i], otws, w)
        ensures ForMail(tasks[i], otws) ==> !w.mailPossible && inbox + Came(w.early, i + 1) == []
      {
        assert StuckTask(tasks[i], i, otws, inbox, w) && Waits(tasks[i], otws);
      }
    }
    if MailTooLate(tasks, otws, inbox, w) {
      forall i | 0 <= i < |tasks| && tasks[i].state.Waiting?
        ensures StuckTask(tasks[i], i, otws, inbox, w) && !Behind(otws[tasks[i].awaiting.p], w)
      {
        assert NothingElse(tasks[i], otws, w);
        assert otws[tasks[i].awaiting.p].waitMailbox ==> ForMail(tasks[i], otws);
      }
    }
  }

  // Nobody was woken, and somebody waits for mail that is there, but it came after the
  // pass had looked; and as nobody waits for a socket, and somebody for an intern or for
  // mail that can still come, the loop goes to sleep in interns_wait_any all the same.
  ghost predicate MailSleptOn(tasks: seq<Task>, otws: seq<Otw>, inbox: seq<nat>, w: World) {
    && Stuck(tasks, otws, inbox, w) && MailWaiter(tasks, otws) && AllMail(inbox, |tasks|, w) != []
    && !SocketWaiter(tasks, otws) && InternWaiter(tasks, otws, w) && !w.finished
  }

  // The entry task, waiting for what `wait` is.
  method OneWaiter(wait: Otw, w: World) returns (vm: Vm)
    requires wait.state.Pending?
    ensures fresh(vm) && vm.Valid() && vm.otws == [wait] && vm.inbox == []
    ensures |vm.tasks| == 1 && vm.tasks[0].state.Waiting? && vm.tasks[0].awaiting == To(0)
  {
    vm := new Vm();
    var r := vm.TakeTurn(0, 0, Event(Suspended(0), [wait], [], [], 0, w));
  }

  // The same message as below, from an intern that is still at work: the loop sleeps
  // for up to a minute on the message that the one task waits for.
  method MailSleptThrough() returns (vm: Vm, nap: Nap)
    ensures nap == OnInterns && |vm.tasks| == 1 && ForMail(vm.tasks[0], vm.otws) && vm.inbox == [7]
  {
    var w := World(1.0, {}, false, {1}, map[], [], [7], true, false);
    vm := OneWaiter(Otw(Pending, 0, false, 0.0, NO_SOCKET, true, false, true), w);
    ghost var tasks, otws := vm.tasks, vm.otws;
    assert ForMail(tasks[0], otws) && Came(w.early, 1) == [];
    assert StuckTask(tasks[0], 0, otws, [], w) && Waits(tasks[0], otws);
    assert MailSleptOn(tasks, otws, [], w);
    var again;
    again, nap := vm.WakeWaiters(w);
  }

  // The loop: a single task waits for mail; a message comes after the pass over the
  // mailbox waits, from a worker that is done when it is asked whether mail can come.
  // The wait is rejected, and the message lies in the inbox.
  method MailLeftUnread() returns (vm: Vm)
    ensures |vm.otws| == 1 && vm.otws[0].state == Rejected(LEFT_ON_READ) && vm.inbox == [7]
  {
    var w := World(1.0, {}, false, {1}, map[1 := Fulfilled(GHOST)], [], [7], false, true);
    vm := OneWaiter(Otw(Pending, 0, false, 0.0, NO_SOCKET, true, false, true), w);
    ghost var tasks, otws := vm.tasks, vm.otws;
    assert ForMail(tasks[0], otws) && Came(w.early, 1) == [];
    assert ParkedOn(tasks[0], 0);
    assert NothingFor(tasks[0], otws, [] + Came(w.early, 1), w.now) && NothingElse(tasks[0], otws, w);
    assert MailTooLate(tasks, otws, [], w);
    TooLateIff(tasks, otws, [], w);
    var stranded := vm.LookOutside(w);
  }

  // A sleep of so many milliseconds is over before any deadline.
  ghost predicate BeforeDeadlines(tasks: seq<Task>, otws: seq<Otw>, now: real, ms: int) {
    forall i :: 0 <= i < |tasks| && HasDeadline(tasks[i], otws) ==>
      ms == 0 || now + ms as real / 1000.0 <= otws[tasks[i].awaiting.p].dueAt
  }

  // ms is what NextDeadlineMs answers.
  lemma Sooner(tasks: seq<Task>, otws: seq<Otw>, now: real, ms: int, wait: int)
    requires ms >= 0 <==> exists i :: 0 <= i < |tasks| && HasDeadline(tasks[i], otws)
    requires BeforeDeadlines(tasks, otws, now, ms) && 0 <= wait && (ms >= 0 ==> wait <= ms)
    ensures BeforeDeadlines(tasks, otws, now, wait) && !SleepsPast(tasks, otws, now, wait)
  {
    assert wait as real / 1000.0 <= ms as real / 1000.0 || ms < 0;
  }

  lemma PastTheCap(tasks: seq<Task>, otws: seq<Otw>, now: real)
    ensures SleepsPast(tasks, otws, now, MIXED_WAIT_CAP_MS) <==> NearDeadline(tasks, otws, now)
  {
  }

  // A deadline comes before the sleep is over.
  ghost predicate SleepsPast(tasks: seq<Task>, otws: seq<Otw>, now: real, wait: int) {
    && wait > 0
    && exists i :: 0 <= i < |tasks| && HasDeadline(tasks[i], otws) &&
         otws[tasks[i].awaiting.p].dueAt < now + wait as real / 1000.0
  }

  // A deadline is nearer than MIXED_WAIT_CAP_MS.
  ghost predicate NearDeadline(tasks: seq<Task>, otws: seq<Otw>, now: real) {
    exists i :: 0 <= i < |tasks| && HasDeadline(tasks[i], otws) &&
      otws[tasks[i].awaiting.p].dueAt < now + MIXED_WAIT_CAP_MS as real / 1000.0
  }

  // The entry task waits for otw 0, and a task it started for otw 1.
  method TwoWaiters(otws: seq<Otw>, w: World) returns (vm: Vm)
    requires |otws| == 3 && otws[0].state.Pending? && otws[1].state.Pending?
    ensures fresh(vm) && vm.Valid() && vm.otws == otws && |vm.tasks| == 2
    ensures vm.tasks[0].state.Waiting? && vm.tasks[0].awaiting == To(0)
    ensures vm.tasks[1].state.Waiting? && vm.tasks[1].awaiting == To(1)
  {
    vm := new Vm();
    var r := vm.TakeTurn(0, 0, Event(Suspended(0), otws, [2], [], 0, w));
    assert vm.tasks[1].state.Ready?;
    r := vm.TakeTurn(1, 0, Event(Suspended(1), otws, [], [], 0, w));
  }

  // Two tasks, one waiting for Ctrl-C and the other for a timer due in 10 ms: the loop
  // sleeps for 25.
  method Oversleeps() returns (vm: Vm, nap: Nap, wait: int)
    ensures nap == Sleeps && wait == 25 && |vm.tasks| == 2 && |vm.otws| == 3
    ensures Waits(vm.tasks[0], vm.otws) && vm.tasks[0].awaiting == To(0) && vm.otws[0].waitInterrupt
    ensures HasDeadline(vm.tasks[1], vm.otws) && vm.tasks[1].awaiting == To(1) && vm.otws[1].dueAt == 1.01
    ensures SleepsPast(vm.tasks, vm.otws, 1.0, wait)
  {
    var w := World(1.0, {}, false, {}, map[], [], [], false, false);
    var otws := [
      Otw(Pending, 0, false, 0.0, NO_SOCKET, false, true, true),
      Otw(Pending, 0, true, 1.01, NO_SOCKET, false, false, true),
      Otw(Pending, 0, false, 0.0, NO_SOCKET, false, false, false)];
    vm := TwoWaiters(otws, w);
    assert StuckTask(vm.tasks[0], 0, otws, [], w) && StuckTask(vm.tasks[1], 1, otws, [], w);
    assert HasDeadline(vm.tasks[1], otws);
    nap, wait := vm.Block(w, []);
  }

  function Woken(t: Task, otws: seq<Otw>): Task {
    if t.state.Waiting? && (t.awaiting.None? || (t.awaiting.p < |otws| && !otws[t.awaiting.p].state.Pending?))
    then t.(state := Ready, awaiting := None) else t
  }

  lemma ParkedMore(tasks: seq<Task>, i: nat)
    requires i < |tasks|
    ensures forall p :: Parked(tasks[..i + 1], p) <==> Parked(tasks[..i], p) || ParkedOn(tasks[i], p)
  {
    forall p ensures Parked(tasks[..i + 1], p) <==> Parked(tasks[..i], p) || ParkedOn(tasks[i], p) {
      if Parked(tasks[..i], p) {
        var k :| 0 <= k < i && ParkedOn(tasks[..i][k], p);
        assert ParkedOn(tasks[..i + 1][k], p);
      }
      if ParkedOn(tasks[i], p) {
        assert ParkedOn(tasks[..i + 1][i], p);
      }
      if Parked(tasks[..i + 1], p) {
        var k :| 0 <= k < i + 1 && ParkedOn(tasks[..i + 1][k], p);
        if k < i {
          assert ParkedOn(tasks[..i][k], p);
        }
      }
    }
  }
}
