// Mail between VMs (native/interns.c): the ring buffer, and the way senders and
// receivers use it under the registry lock and its one condition variable.
module Mail {
  import Bits

  // A message: the portable value, by name, and who it is from.
  datatype Dm = Dm(value: nat, fromId: nat)

  const MAILBOX_CAP := 1000000

  // The ring's index i places after head.
  function Slot(head: nat, i: nat, capacity: nat): (r: nat)
    requires head < capacity
    ensures r < capacity
    ensures i < capacity ==> r == if head + i < capacity then head + i else head + i - capacity
  {
    assert i < capacity ==> (head + i) % capacity == if head + i < capacity then head + i else head + i - capacity by {
      if i < capacity <= head + i {
        Bits.DivUnique(head + i, capacity, 1, head + i - capacity);
      }
    }
    (head + i) % capacity
  }

  class Mailbox {
    var items: array<Dm>
    var count: nat
    var head: nat

    ghost predicate Valid()
      reads this, items
    {
      && count <= items.Length
      && count <= MAILBOX_CAP
      && (if items.Length == 0 then head == 0 else head < items.Length)
    }

    // What is in the ring, oldest first.
    ghost function Contents(): seq<Dm>
      requires Valid()
      reads this, items
    {
      seq(count, i requires 0 <= i < count reads this, items requires Valid() => items[Slot(head, i, items.Length)])
    }

    constructor ()
      ensures Valid() && fresh(items) && Contents() == []
    {
      items := new Dm[0];
      count, head := 0, 0;
    }

    // The copy into a buffer twice as long, in order and from its start.
    method Grow()
      requires Valid() && count == items.Length
      modifies this`items, this`head
      ensures Valid() && fresh(items) && count < items.Length
      ensures Contents() == old(Contents())
    {
      var wanted := if items.Length == 0 then 8 else items.Length * 2;
      var grown := new Dm[wanted];
      var i := 0;
      while i < count
        invariant 0 <= i <= count
        invariant items == old(items) && head == old(head) && fresh(grown) && grown.Length == wanted
        invariant items[..] == old(items[..])
        invariant forall k :: 0 <= k < i ==> grown[k] == old(items[Slot(head, k, items.Length)])
      {
        grown[i] := items[Slot(head, i, items.Length)];
        i := i + 1;
      }
      items := grown;
      head := 0;
    }

    // A full mailbox refuses; otherwise the message goes last.
    method Push(dm: Dm) returns (ok: bool)
      requires Valid()
      modifies this, items
      ensures Valid() && (items == old(items) || fresh(items))
      ensures ok == (|old(Contents())| < MAILBOX_CAP)
      ensures Contents() == if ok then old(Contents()) + [dm] else old(Contents())
    {
      if count >= MAILBOX_CAP {
        return false;
      }
      ghost var was := Contents();
      if count == items.Length {
        Grow();
      }
      assert Contents() == was;
      items[Slot(head, count, items.Length)] := dm;
      count := count + 1;
      assert forall i :: 0 <= i < |was| ==> Contents()[i] == was[i];
      return true;
    }

    // The oldest message, if there is one.
    method Pop() returns (out: seq<Dm>)
      requires Valid()
      modifies this`count, this`head
      ensures Valid()
      ensures out == if old(Contents()) == [] then [] else [old(Contents())[0]]
      ensures Contents() == if old(Contents()) == [] then [] else old(Contents())[1..]
    {
      if count == 0 {
        return [];
      }
      ghost var was := Contents();
      out := [items[head]];
      assert Slot(head, 0, items.Length) == head;
      head := Slot(head, 1, items.Length);
      count := count - 1;
      forall i | 0 <= i < count
        ensures Contents()[i] == was[1..][i]
      {
        assert was[1..][i] == was[i + 1];
      }
    }

    // Frees every value still in it, each once.
    method Free() returns (freed: seq<nat>)
      requires Valid()
      modifies this
      ensures Valid() && fresh(items) && Contents() == []
      ensures |freed| == |old(Contents())|
      ensures forall i :: 0 <= i < |freed| ==> freed[i] == old(Contents())[i].value
    {
      freed := [];
      var i := 0;
      while i < count
        invariant 0 <= i <= count && |freed| == i
        invariant items == old(items) && head == old(head) && count == old(count)
        invariant forall k :: 0 <= k < i ==> freed[k] == old(Contents())[k].value
      {
        freed := freed + [items[Slot(head, i, items.Length)].value];
        i := i + 1;
      }
      items := new Dm[0];
      count, head := 0, 0;
    }
  }

  // ----- many VMs, one lock, one condition variable -----

  // Where a VM's thread is.  [g] marks the places where it holds the lock.
  datatype Pc =
    | Idle
    | Have(m: nat, to: nat)        // m_dm, with the copied message
    | Posting(m: nat, to: nat)     // [g] about to look at the target
    | Posted(to: nat)              // [g] in the mailbox, not yet announced
    | Announced                    // [g] broadcast done
    | Refused(m: nat)              // [g]
    | Freeing(m: nat)              // refused, the lock let go
    | Reading(m: nat)              // popped its own mailbox
    | Checking(any: bool)          // [g] interns_wait_any or interns_wait_for_mail
    | Sleepy(any: bool)            // [g] found nothing, about to wait
    | Sleeping(any: bool, n: nat)  // waiting, having gone to sleep with n messages
    | Roused                       // woken, wanting the lock back
    | Leaving                      // [g] about to unlock
    | Gone                         // its intern is done

  // A VM: its thread, its mailbox, and all that ever went in, was read or was dropped.
  datatype Vm = Vm(pc: Pc, box: seq<Dm>, released: bool, posted: seq<Dm>, taken: seq<Dm>, dropped: seq<Dm>)

  datatype Lock = Free | Held(v: nat)

  datatype State = State(vms: seq<Vm>, lock: Lock, next: nat, freed: seq<nat>)

  datatype Step =
    | Compose(v: nat, to: nat)
    | TakeLock(v: nat, any: bool)
    | Post(v: nat)
    | Announce(v: nat)
    | Unlock(v: nat)
    | FreeRefused(v: nat)
    | Read(v: nat)
    | FreeRead(v: nat)
    | Check(v: nat, found: bool)
    | Sleep(v: nat)
    | Timeout(v: nat)
    | Finish(v: nat)
    | Release(v: nat)

  datatype Outcome = Blocked | Fault | Next(s: State)

  predicate HoldsLock(pc: Pc) {
    pc.Posting? || pc.Posted? || pc.Announced? || pc.Refused? || pc.Checking? || pc.Sleepy? || pc.Leaving?
  }

  function SetPc(s: State, v: nat, pc: Pc): State
    requires v < |s.vms|
  {
    s.(vms := s.vms[v := s.vms[v].(pc := pc)])
  }

  // portable_free: a value that is freed already must not be.
  function FreeValue(s: State, m: nat): Outcome {
    if m in s.freed then Fault else Next(s.(freed := s.freed + [m]))
  }

  function Rouse(x: Vm): Vm {
    if x.pc.Sleeping? then x.(pc := Roused) else x
  }

  function Broadcast(vms: seq<Vm>): seq<Vm> {
    seq(|vms|, i requires 0 <= i < |vms| => Rouse(vms[i]))
  }

  // m_dm: the value is copied before the lock is taken.
  function DoCompose(s: State, v: nat, to: nat): Outcome
    requires v < |s.vms|
  {
    if !s.vms[v].pc.Idle? || to >= |s.vms| || to == v then Blocked
    else Next(SetPc(s.(next := s.next + 1), v, Have(s.next, to)))
  }

  // Senders, both kinds of waiter, and waiters waking up all want g_lock.
  function DoTakeLock(s: State, v: nat, any: bool): Outcome
    requires v < |s.vms|
  {
    var pc := s.vms[v].pc;
    if s.lock != Free then Blocked
    else if pc.Have? then Next(SetPc(s.(lock := Held(v)), v, Posting(pc.m, pc.to)))
    else if pc.Idle? then Next(SetPc(s.(lock := Held(v)), v, Checking(any)))
    else if pc.Roused? then Next(SetPc(s.(lock := Held(v)), v, Leaving))
    else Blocked
  }

  // Finished interns and full mailboxes refuse.
  function DoPost(s: State, v: nat): Outcome
    requires v < |s.vms|
  {
    var pc := s.vms[v].pc;
    if !pc.Posting? || pc.to >= |s.vms| then Blocked
    else
      var target := s.vms[pc.to];
      if target.pc.Gone? || |target.box| >= MAILBOX_CAP then Next(SetPc(s, v, Refused(pc.m)))
      else if target.released then Fault
      else
        var dm := Dm(pc.m, v);
        var target' := target.(box := target.box + [dm], posted := target.posted + [dm]);
        Next(s.(vms := s.vms[v := s.vms[v].(pc := Posted(pc.to))][pc.to := target']))
  }

  function DoAnnounce(s: State, v: nat): Outcome
    requires v < |s.vms|
  {
    if !s.vms[v].pc.Posted? then Blocked
    else Next(s.(vms := Broadcast(s.vms[v := s.vms[v].(pc := Announced)])))
  }

  function DoUnlock(s: State, v: nat): Outcome
    requires v < |s.vms|
  {
    var pc := s.vms[v].pc;
    if pc.Announced? || pc.Leaving? then Next(SetPc(s.(lock := Free), v, Idle))
    else if pc.Refused? then Next(SetPc(s.(lock := Free), v, Freeing(pc.m)))
    else Blocked
  }

  function DoFreeRefused(s: State, v: nat): Outcome
    requires v < |s.vms|
  {
    if !s.vms[v].pc.Freeing? then Blocked else FreeValue(SetPc(s, v, Idle), s.vms[v].pc.m)
  }

  // interns_settle_mailbox: popping needs the mailbox's own lock only.
  function DoRead(s: State, v: nat): Outcome
    requires v < |s.vms|
  {
    var x := s.vms[v];
    if !x.pc.Idle? || x.box == [] then Blocked
    else if x.released then Fault
    else
      var read := x.(pc := Reading(x.box[0].value), box := x.box[1..], taken := x.taken + [x.box[0]]);
      Next(s.(vms := s.vms[v := read]))
  }

  function DoFreeRead(s: State, v: nat): Outcome
    requires v < |s.vms|
  {
    if !s.vms[v].pc.Reading? then Blocked else FreeValue(SetPc(s, v, Idle), s.vms[v].pc.m)
  }

  // interns_wait_for_mail looks at the mailbox; interns_wait_any only whether
  // some intern is done (found).
  function DoCheck(s: State, v: nat, found: bool): Outcome
    requires v < |s.vms|
  {
    var pc := s.vms[v].pc;
    if !pc.Checking? then Blocked
    else if (if pc.any then found else s.vms[v].box != []) then Next(SetPc(s, v, Leaving))
    else Next(SetPc(s, v, Sleepy(pc.any)))
  }

  // platform_cond_wait_ms lets go of the lock and sleeps in one.
  function DoSleep(s: State, v: nat): Outcome
    requires v < |s.vms|
  {
    var pc := s.vms[v].pc;
    if !pc.Sleepy? then Blocked
    else Next(SetPc(s.(lock := Free), v, Sleeping(pc.any, |s.vms[v].box|)))
  }

  // The timeout, or a wake-up for no reason.
  function DoTimeout(s: State, v: nat): Outcome
    requires v < |s.vms|
  {
    if !s.vms[v].pc.Sleeping? then Blocked else Next(SetPc(s, v, Roused))
  }

  // A worker says done, and broadcasts, holding the lock.
  function DoFinish(s: State, v: nat): Outcome
    requires v < |s.vms|
  {
    if !s.vms[v].pc.Idle? || s.lock != Free then Blocked
    else Next(s.(vms := Broadcast(s.vms[v := s.vms[v].(pc := Gone)])))
  }

  // mailbox_free, by the VM that hired this one, after joining it.
  function DoRelease(s: State, v: nat): Outcome
    requires v < |s.vms|
  {
    var x := s.vms[v];
    if !x.pc.Gone? || x.released || s.lock != Free then Blocked
    else if exists i :: 0 <= i < |x.box| && x.box[i].value in s.freed then Fault
    else Next(s.(vms := s.vms[v := x.(box := [], released := true, dropped := x.dropped + x.box)],
                 freed := s.freed + Values(x.box)))
  }

  function Do(s: State, step: Step): Outcome {
    if step.v >= |s.vms| then Blocked
    else match step
      case Compose(v, to) => DoCompose(s, v, to)
      case TakeLock(v, any) => DoTakeLock(s, v, any)
      case Post(v) => DoPost(s, v)
      case Announce(v) => DoAnnounce(s, v)
      case Unlock(v) => DoUnlock(s, v)
      case FreeRefused(v) => DoFreeRefused(s, v)
      case Read(v) => DoRead(s, v)
      case FreeRead(v) => DoFreeRead(s, v)
      case Check(v, found) => DoCheck(s, v, found)
      case Sleep(v) => DoSleep(s, v)
      case Timeout(v) => DoTimeout(s, v)
      case Finish(v) => DoFinish(s, v)
      case Release(v) => DoRelease(s, v)
  }

  // ----- where every message is -----

  function Values(box: seq<Dm>): seq<nat> {
    seq(|box|, i requires 0 <= i < |box| => box[i].value)
  }

  // Copies of message m that a thread has in its hands.
  function InHand(pc: Pc, m: nat): nat {
    if (pc.Have? || pc.Posting? || pc.Refused? || pc.Freeing? || pc.Reading?) && pc.m == m then 1 else 0
  }

  function With(x: Vm, m: nat): nat {
    InHand(x.pc, m) + multiset(Values(x.box))[m]
  }

  function InUse(vms: seq<Vm>, n: nat, m: nat): nat
    requires n <= |vms|
    decreases n
  {
    if n == 0 then 0 else InUse(vms, n - 1, m) + With(vms[n - 1], m)
  }

  // Every copy of message m: in hands and mailboxes, or freed.
  function Copies(s: State, m: nat): nat {
    InUse(s.vms, |s.vms|, m) + multiset(s.freed)[m]
  }

  // Each message made so far is in exactly one place.
  ghost predicate Conserved(s: State) {
    forall m: nat :: Copies(s, m) == if m < s.next then 1 else 0
  }

  // Mailboxes are queues: what went in is what came out, then what was dropped
  // at the end, then what is still there.
  ghost predicate Fifo(s: State) {
    forall v :: 0 <= v < |s.vms| ==> Queue(s.vms[v])
  }

  ghost predicate Queue(x: Vm) {
    && x.posted == x.taken + x.dropped + x.box
    && |x.box| <= MAILBOX_CAP
    && (x.released ==> x.pc.Gone?)
    && (!x.released ==> x.dropped == [])
  }

  ghost predicate Locking(s: State) {
    && (forall v :: 0 <= v < |s.vms| ==> (HoldsLock(s.vms[v].pc) <==> s.lock == Held(v)))
    && (s.lock.Held? ==> s.lock.v < |s.vms|)
  }

  // A sleeper has as much mail as when it fell asleep, unless someone holding
  // the lock has just posted to it.
  ghost predicate Sleepers(s: State) {
    forall v :: 0 <= v < |s.vms| ==> SleeperOk(s, v)
  }

  ghost predicate SleeperOk(s: State, v: nat)
    requires v < |s.vms|
  {
    var x := s.vms[v];
    && (x.pc == Sleepy(false) ==> x.box == [])
    && (x.pc.Sleeping? ==>
         && (!x.pc.any ==> x.pc.n == 0)
         && (|x.box| == x.pc.n || (s.lock.Held? && s.lock.v < |s.vms| && s.vms[s.lock.v].pc == Posted(v))))
  }

  // Nobody posts to itself.
  ghost predicate Targets(s: State) {
    forall v :: 0 <= v < |s.vms| ==> TargetOk(s.vms, v)
  }

  ghost predicate TargetOk(vms: seq<Vm>, v: nat)
    requires v < |vms|
  {
    vms[v].pc.Have? || vms[v].pc.Posting? ==> vms[v].pc.to != v && vms[v].pc.to < |vms|
  }

  ghost predicate Inv(s: State) {
    Targets(s) && Conserved(s) && Fifo(s) && Locking(s) && Sleepers(s)
  }

  ghost predicate Fine(o: Outcome) {
    o != Fault && (o.Next? ==> Inv(o.s))
  }

  lemma {:induction false} InUseUpdate(vms: seq<Vm>, v: nat, x: Vm, n: nat, m: nat)
    requires v < |vms| && n <= |vms|
    ensures InUse(vms[v := x], n, m) == InUse(vms, n, m) + if v < n then With(x, m) - With(vms[v], m) else 0
    decreases n
  {
    if n > 0 {
      InUseUpdate(vms, v, x, n - 1, m);
    }
  }

  lemma {:induction false} InUseSame(vms: seq<Vm>, vms': seq<Vm>, n: nat, m: nat)
    requires |vms| == |vms'| && n <= |vms|
    requires forall i :: 0 <= i < n ==> With(vms'[i], m) == With(vms[i], m)
    ensures InUse(vms', n, m) == InUse(vms, n, m)
    decreases n
  {
    if n > 0 {
      InUseSame(vms, vms', n - 1, m);
    }
  }

  // What a VM and the freed list have of m, less what has been made of it.
  function Balance(s: State, x: Vm, m: nat): int {
    With(x, m) + multiset(s.freed)[m] - (if m < s.next then 1 else 0)
  }

  // One VM changes, perhaps one message is made and some are freed: enough that
  // the changes add up.
  lemma OneMoves(s: State, s': State, v: nat, x: Vm)
    requires Conserved(s) && v < |s.vms| && s'.vms == s.vms[v := x]
    requires forall m: nat :: Balance(s', x, m) == Balance(s, s.vms[v], m)
    ensures Conserved(s')
  {
    forall m: nat ensures Copies(s', m) == if m < s'.next then 1 else 0 {
      InUseUpdate(s.vms, v, x, |s.vms|, m);
      assert Copies(s, m) == if m < s.next then 1 else 0;
      assert Balance(s', x, m) == Balance(s, s.vms[v], m);
    }
  }

  // A message somebody has is there once, and not freed.
  lemma HasMessage(s: State, v: nat, m: nat)
    requires Conserved(s) && v < |s.vms| && With(s.vms[v], m) > 0
    ensures m !in s.freed && With(s.vms[v], m) == 1
  {
    InUseUpdate(s.vms, v, s.vms[v].(pc := Idle, box := []), |s.vms|, m);
    assert Copies(s, m) <= 1;
  }

  lemma BroadcastConserves(s: State)
    requires Conserved(s)
    ensures Conserved(s.(vms := Broadcast(s.vms)))
  {
    forall m: nat ensures Copies(s.(vms := Broadcast(s.vms)), m) == if m < s.next then 1 else 0 {
      InUseSame(s.vms, Broadcast(s.vms), |s.vms|, m);
      assert Copies(s, m) == if m < s.next then 1 else 0;
    }
  }

  lemma PostMoves(vms: seq<Vm>, v: nat, to: nat, m: nat)
    requires v < |vms| && to < |vms| && to != v && vms[v].pc.Posting?
    ensures var dm := Dm(vms[v].pc.m, v);
      var vms' := vms[v := vms[v].(pc := Posted(to))];
      InUse(vms'[to := vms[to].(box := vms[to].box + [dm], posted := vms[to].posted + [dm])], |vms|, m)
        == InUse(vms, |vms|, m)
  {
    var dm := Dm(vms[v].pc.m, v);
    var x := vms[to].(box := vms[to].box + [dm], posted := vms[to].posted + [dm]);
    InUseUpdate(vms, v, vms[v].(pc := Posted(to)), |vms|, m);
    InUseUpdate(vms[v := vms[v].(pc := Posted(to))], to, x, |vms|, m);
    assert Values(x.box) == Values(vms[to].box) + [vms[v].pc.m];
  }

  lemma PostConserves(s: State, v: nat)
    requires Conserved(s) && v < |s.vms| && DoPost(s, v).Next? && s.vms[v].pc.to != v
    ensures Conserved(DoPost(s, v).s)
  {
    var s' := DoPost(s, v).s;
    var pc := s.vms[v].pc;
    if s'.vms[v].pc.Posted? {
      forall m: nat ensures Copies(s', m) == if m < s.next then 1 else 0 {
        PostMoves(s.vms, v, pc.to, m);
        assert Copies(s, m) == if m < s.next then 1 else 0;
      }
    } else {
      OneMoves(s, s', v, s'.vms[v]);
    }
  }

  lemma ReadConserves(s: State, v: nat)
    requires Conserved(s) && v < |s.vms| && DoRead(s, v).Next?
    ensures Conserved(DoRead(s, v).s)
  {
    var box := s.vms[v].box;
    assert Values(box) == [box[0].value] + Values(box[1..]);
    OneMoves(s, DoRead(s, v).s, v, DoRead(s, v).s.vms[v]);
  }

  lemma ReleaseConserves(s: State, v: nat)
    requires Conserved(s) && v < |s.vms|
    ensures DoRelease(s, v) != Fault
    ensures DoRelease(s, v).Next? ==> Conserved(DoRelease(s, v).s)
  {
    var x := s.vms[v];
    forall i | 0 <= i < |x.box| ensures x.box[i].value !in s.freed {
      assert Values(x.box)[i] in multiset(Values(x.box));
      HasMessage(s, v, x.box[i].value);
    }
    if DoRelease(s, v).Next? {
      OneMoves(s, DoRelease(s, v).s, v, DoRelease(s, v).s.vms[v]);
    }
  }

  // A value in a thread's hands is freed, and that is its first time.
  lemma FreeConserves(s: State, v: nat)
    requires Conserved(s) && v < |s.vms|
    ensures DoFreeRefused(s, v) != Fault && DoFreeRead(s, v) != Fault
    ensures DoFreeRefused(s, v).Next? ==> Conserved(DoFreeRefused(s, v).s)
    ensures DoFreeRead(s, v).Next? ==> Conserved(DoFreeRead(s, v).s)
  {
    var pc := s.vms[v].pc;
    if pc.Freeing? || pc.Reading? {
      HasMessage(s, v, pc.m);
      var s' := SetPc(s, v, Idle).(freed := s.freed + [pc.m]);
      OneMoves(s, s', v, s'.vms[v]);
    }
  }

  // Steps that only move one thread on, and may take or release the lock.
  predicate Quiet(step: Step) {
    step.Compose? || step.TakeLock? || step.Unlock? || step.Check? || step.Sleep? || step.Timeout?
  }

  lemma QuietSteps(s: State, step: Step)
    requires step.v < |s.vms| && Quiet(step) && Do(s, step).Next?
    ensures var s' := Do(s, step).s;
      && s'.vms == s.vms[step.v := s.vms[step.v].(pc := s'.vms[step.v].pc)]
      && s'.freed == s.freed
      && (forall m: nat ::
           InHand(s'.vms[step.v].pc, m) - InHand(s.vms[step.v].pc, m) == if s.next <= m < s'.next then 1 else 0)
      && s'.next >= s.next
  {
  }

  lemma StepConserves(s: State, step: Step)
    requires Inv(s)
    ensures Do(s, step) != Fault
    ensures Do(s, step).Next? ==> Conserved(Do(s, step).s)
  {
    var v := step.v;
    if v < |s.vms| && Do(s, step) != Blocked {
      assert TargetOk(s.vms, v);
      if step.Post? {
        PostConserves(s, v);
      } else if step.Read? {
        ReadConserves(s, v);
      } else if step.Release? {
        ReleaseConserves(s, v);
      } else if step.FreeRefused? || step.FreeRead? {
        FreeConserves(s, v);
      } else if step.Announce? || step.Finish? {
        var s1 := SetPc(s, v, if step.Finish? then Gone else Announced);
        OneMoves(s, s1, v, s1.vms[v]);
        BroadcastConserves(s1);
      } else {
        QuietSteps(s, step);
        OneMoves(s, Do(s, step).s, v, Do(s, step).s.vms[v]);
      }
    }
  }

  lemma StepQueues(s: State, step: Step)
    requires Inv(s) && Do(s, step).Next?
    ensures Fifo(Do(s, step).s)
  {
    var s' := Do(s, step).s;
    forall v | 0 <= v < |s'.vms| ensures Queue(s'.vms[v]) {
      assert Queue(s.vms[v]);
      if Quiet(step) {
        QuietSteps(s, step);
      } else {
        LoudQueues(s, step, v);
      }
    }
  }

  lemma LoudQueues(s: State, step: Step, v: nat)
    requires !Quiet(step) && v < |s.vms| && Queue(s.vms[v]) && Do(s, step).Next?
    ensures |Do(s, step).s.vms| == |s.vms| && Queue(Do(s, step).s.vms[v])
  {
    if step.Read? && v == step.v {
      assert s.vms[v].box == [s.vms[v].box[0]] + s.vms[v].box[1..];
    }
  }

  lemma StepTargets(s: State, step: Step)
    requires Targets(s) && Do(s, step).Next?
    ensures Targets(Do(s, step).s)
  {
    hide Do, TargetOk;
    SameVms(s, step);
    forall v | 0 <= v < |s.vms| ensures TargetOk(Do(s, step).s.vms, v) {
      OneTarget(s, step, v);
    }
  }

  lemma OneTarget(s: State, step: Step, v: nat)
    requires Targets(s) && Do(s, step).Next? && v < |s.vms|
    ensures v < |Do(s, step).s.vms| && TargetOk(Do(s, step).s.vms, v)
  {
    assert TargetOk(s.vms, v);
  }

  lemma StepLocks(s: State, step: Step)
    requires Inv(s) && Do(s, step).Next?
    ensures Locking(Do(s, step).s)
  {
    var s' := Do(s, step).s;
    if Quiet(step) {
      QuietSteps(s, step);
    } else {
      LoudLocks(s, step);
    }
    forall v | 0 <= v < |s'.vms| ensures HoldsLock(s'.vms[v].pc) <==> s'.lock == Held(v) {
      assert HoldsLock(s.vms[v].pc) <==> s.lock == Held(v);
    }
  }

  // The other steps leave the lock, and who holds it, alone.
  lemma LoudLocks(s: State, step: Step)
    requires !Quiet(step) && Do(s, step).Next?
    ensures var s' := Do(s, step).s;
      && s'.lock == s.lock && |s'.vms| == |s.vms|
      && forall v :: 0 <= v < |s.vms| ==> HoldsLock(s'.vms[v].pc) == HoldsLock(s.vms[v].pc)
  {
  }

  lemma StepSleeps(s: State, step: Step)
    requires Inv(s) && Do(s, step).Next?
    ensures Sleepers(Do(s, step).s)
  {
    var s' := Do(s, step).s;
    hide Do, Conserved, Fifo, SleeperOk;
    SameVms(s, step);
    forall v | 0 <= v < |s'.vms| ensures SleeperOk(s', v) {
      if step.Post? {
        PostSleeps(s, step, v);
      } else {
        OtherSleeps(s, step, v);
      }
    }
  }

  lemma SameVms(s: State, step: Step)
    requires Do(s, step).Next?
    ensures |Do(s, step).s.vms| == |s.vms|
  {
  }

  lemma PostSleeps(s: State, step: Step, v: nat)
    requires step.Post? && Targets(s) && Locking(s) && Sleepers(s) && Do(s, step).Next? && v < |s.vms|
    ensures v < |Do(s, step).s.vms| && SleeperOk(Do(s, step).s, v)
  {
    assert SleeperOk(s, v) && TargetOk(s.vms, step.v);
  }

  lemma OtherSleeps(s: State, step: Step, v: nat)
    requires !step.Post? && Locking(s) && Sleepers(s) && Do(s, step).Next? && v < |s.vms|
    ensures v < |Do(s, step).s.vms| && SleeperOk(Do(s, step).s, v)
  {
    assert SleeperOk(s, v);
  }

  lemma StepKeeps(s: State, step: Step)
    requires Inv(s)
    ensures Fine(Do(s, step))
    ensures Do(s, step).Next? ==> |Do(s, step).s.vms| == |s.vms|
  {
    StepConserves(s, step);
    if Do(s, step).Next? {
      StepQueues(s, step);
      StepTargets(s, step);
      StepLocks(s, step);
      StepSleeps(s, step);
    }
  }

  // ----- whole runs -----

  function Init(n: nat): State {
    State(seq(n, i => Vm(Idle, [], false, [], [], [])), Free, 0, [])
  }

  // Any interleaving; a step that is not possible yet leaves the state alone.
  function Run(n: nat, steps: seq<Step>): Outcome
    decreases |steps|
  {
    if |steps| == 0 then Next(Init(n))
    else
      var o := Run(n, steps[..|steps| - 1]);
      if !o.Next? then o
      else
        var o' := Do(o.s, steps[|steps| - 1]);
        if o'.Blocked? then o else o'
  }

  lemma {:induction false} InitEmpty(n: nat, k: nat, m: nat)
    requires k <= n
    ensures InUse(Init(n).vms, k, m) == 0
    decreases k
  {
    if k > 0 {
      InitEmpty(n, k - 1, m);
    }
  }

  lemma InitHolds(n: nat)
    ensures Inv(Init(n))
  {
    forall m: nat ensures Copies(Init(n), m) == 0 {
      InitEmpty(n, n, m);
    }
  }

  lemma {:induction false} RunsAreSafe(n: nat, steps: seq<Step>)
    ensures Run(n, steps).Next? && Inv(Run(n, steps).s) && |Run(n, steps).s.vms| == n
    decreases |steps|
  {
    if |steps| == 0 {
      InitHolds(n);
    } else {
      RunsAreSafe(n, steps[..|steps| - 1]);
      StepKeeps(Run(n, steps[..|steps| - 1]).s, steps[|steps| - 1]);
    }
  }

  // Where a run has got to; RunsAreSafe says it never ends in a fault.
  function After(n: nat, steps: seq<Step>): (s: State)
    ensures Run(n, steps) == Next(s)
  {
    RunsAreSafe(n, steps);
    Run(n, steps).s
  }

  // Each VM reads what was posted to it, in the order it was posted, none left
  // out and none twice; what it leaves unread is dropped only once it is gone.
  lemma DeliveredInOrder(n: nat, steps: seq<Step>, v: nat)
    requires v < n
    ensures v < |After(n, steps).vms|
    ensures var x := After(n, steps).vms[v];
      && x.posted == x.taken + x.dropped + x.box
      && x.taken <= x.posted
      && (x.dropped != [] ==> x.pc.Gone? && x.released)
  {
    RunsAreSafe(n, steps);
  }

  // A message is in one place only, is freed at most once, and once it is freed
  // nobody has it.
  lemma FreedOnce(n: nat, steps: seq<Step>, m: nat)
    requires m < After(n, steps).next
    ensures var s := After(n, steps);
      && multiset(s.freed)[m] <= 1
      && (m in s.freed <==> InUse(s.vms, |s.vms|, m) == 0)
      && InUse(s.vms, |s.vms|, m) <= 1
  {
    RunsAreSafe(n, steps);
    var s := After(n, steps);
    assert Copies(s, m) == 1;
  }

  // When nobody holds the lock, a sleeper has exactly the mail it had when it
  // fell asleep; interns_wait_for_mail never sleeps on any.  So a sleeper in
  // interns_wait_any has mail if and only if it had some when it went to sleep.
  lemma NoMailMissed(n: nat, steps: seq<Step>, v: nat)
    requires v < n && After(n, steps).lock.Free? && v < |After(n, steps).vms|
    requires After(n, steps).vms[v].pc.Sleeping?
    ensures var x := After(n, steps).vms[v];
      && |x.box| == x.pc.n
      && (!x.pc.any ==> x.box == [])
  {
    RunsAreSafe(n, steps);
    assert SleeperOk(After(n, steps), v);
  }

  // And whoever holds the lock can always go on, a poster waking all sleepers.
  lemma HolderMovesOn(n: nat, steps: seq<Step>, h: nat)
    requires After(n, steps).lock == Held(h)
    ensures h < |After(n, steps).vms|
    ensures var s := After(n, steps);
      exists step: Step :: step.v == h && Do(s, step).Next?
        && (s.vms[h].pc.Posted? ==> forall w :: 0 <= w < |Do(s, step).s.vms| ==> !Do(s, step).s.vms[w].pc.Sleeping?)
  {
    RunsAreSafe(n, steps);
    var s := After(n, steps);
    assert TargetOk(s.vms, h);
    StepConserves(s, Post(h));
    var pc := s.vms[h].pc;
    var step := if pc.Posting? then Post(h) else if pc.Posted? then Announce(h)
      else if pc.Checking? then Check(h, false) else if pc.Sleepy? then Sleep(h) else Unlock(h);
    assert step.v == h && Do(s, step).Next?;
  }

  lemma Goes(n: nat, steps: seq<Step>, s: State, step: Step, s': State)
    requires Run(n, steps) == Next(s) && Do(s, step) == Next(s')
    ensures Run(n, steps + [step]) == Next(s')
  {
    assert (steps + [step])[..|steps|] == steps;
  }

  // VM 1 takes the lock to post to VM 0.
  lemma PostBegins() returns (steps: seq<Step>, s: State)
    ensures Run(2, steps) == Next(s)
    ensures var x := Vm(Idle, [], false, [], [], []); s == State([x, x.(pc := Posting(0, 0))], Held(1), 1, [])
  {
    var x := Vm(Idle, [], false, [], [], []);
    var s0 := State([x, x], Free, 0, []);
    var s1 := State([x, x.(pc := Have(0, 0))], Free, 1, []);
    s := State([x, x.(pc := Posting(0, 0))], Held(1), 1, []);
    assert Init(2) == s0;
    Goes(2, [], s0, Compose(1, 0), s1);
    Goes(2, [] + [Compose(1, 0)], s1, TakeLock(1, false), s);
    steps := [] + [Compose(1, 0)] + [TakeLock(1, false)];
  }

  // VM 1 posts to VM 0.
  lemma PostRun() returns (steps: seq<Step>, s: State)
    ensures Run(2, steps) == Next(s)
    ensures var dm := Dm(0, 1);
      s == State([Vm(Idle, [dm], false, [dm], [], []), Vm(Idle, [], false, [], [], [])], Free, 1, [])
  {
    var dm, x := Dm(0, 1), Vm(Idle, [], false, [], [], []);
    var y := Vm(Idle, [dm], false, [dm], [], []);
    var s3 := State([y, x.(pc := Posted(0))], Held(1), 1, []);
    var s4 := State([y, x.(pc := Announced)], Held(1), 1, []);
    hide Run;
    var before, s2 := PostBegins();
    s := State([y, x], Free, 1, []);
    assert [x, x.(pc := Posting(0, 0))][1 := x.(pc := Posted(0))][0 := y] == [y, x.(pc := Posted(0))];
    assert [] + [dm] == [dm];
    assert Broadcast([y, x.(pc := Announced)]) == [y, x.(pc := Announced)];
    Goes(2, before, s2, Post(1), s3);
    Goes(2, before + [Post(1)], s3, Announce(1), s4);
    Goes(2, before + [Post(1)] + [Announce(1)], s4, Unlock(1), s);
    steps := before + [Post(1)] + [Announce(1)] + [Unlock(1)];
  }

  // interns_wait_any can sleep with mail waiting: after that post, VM 0 asks
  // for finished interns only.
  lemma WaitAnySleepsOnMail()
    ensures exists steps: seq<Step> ::
      var s := After(2, steps);
      |s.vms| == 2 && s.lock.Free? && s.vms[0].pc.Sleeping? && s.vms[0].box != []
  {
    var steps, s := PostRun();
    var s1 := SetPc(s, 0, Checking(true)).(lock := Held(0));
    var s2 := SetPc(s1, 0, Sleepy(true));
    var s3 := SetPc(s2, 0, Sleeping(true, 1)).(lock := Free);
    Goes(2, steps, s, TakeLock(0, true), s1);
    Goes(2, steps + [TakeLock(0, true)], s1, Check(0, false), s2);
    Goes(2, steps + [TakeLock(0, true)] + [Check(0, false)], s2, Sleep(0), s3);
    assert After(2, steps + [TakeLock(0, true)] + [Check(0, false)] + [Sleep(0)]) == s3;
  }
}
