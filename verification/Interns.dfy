// The life of interns (native/interns.c): worker threads, the registry, done,
// joined and retired flags, collecting and teardown, as atomic steps of many
// threads.  A step that would touch freed memory, join a thread wrongly or
// release what a running worker still uses is a Fault.
module Interns {

  // A VM is a top-level one or the one a worker thread runs, named by its Intern.
  datatype Vm = Root(n: nat) | Worker(p: nat)

  // What the struct Intern carries, its owned memory folded into `released`.
  datatype Intern = Intern(id: nat, owner: Vm, spawned: bool, joined: bool, retired: bool, done: bool, released: bool)

  datatype Thread = Running | Ended

  // Where a VM's own thread is, as far as interns go.
  datatype Phase =
    | Live
    | Collecting(p: nat)   // interns_collect found p, and is about to join it
    | Collected(p: nat)    // p is joined; its answer is being read
    | Closing              // interns_join_owned_by, looking for someone to join
    | ClosingJoin(p: nat)  // ... and joining p
    | Forgetting           // ... nobody left, about to forget them all
    | Closed

  datatype State = State(
    registry: seq<nat>,           // g_interns
    interns: map<nat, Intern>,    // the Intern structs not yet freed
    threads: map<nat, Thread>,    // every thread ever started
    joins: map<nat, nat>,         // how often each was joined
    phases: map<Vm, Phase>,
    issued: seq<(Vm, nat)>)       // every id ever handed out, and by which VM

  datatype Step =
    | Hire(vm: Vm, p: nat, started: bool)
    | CollectFind(vm: Vm, id: nat)
    | CollectJoin(vm: Vm)
    | CollectFinish(vm: Vm)
    | Deliver(p: nat)
    | DmIntern(vm: Vm, id: nat)
    | DmBoss(p: nat)
    | CloseStart(vm: Vm)
    | ClosePick(vm: Vm)
    | CloseJoin(vm: Vm)
    | Forget(vm: Vm)
    | Finish(p: nat)
    | End(p: nat)

  // What a VM is told: nothing, that the id is nobody's, that the intern has finished, whose
  // mailbox the message is in, or that there is nobody left to collect.
  datatype Answer = Quiet | NotYours | Finished | Posted(p: nat) | Gone

  datatype Outcome = Blocked | Fault | Next(s: State, answer: Answer := Quiet)

  // intern_at: the first of this VM's interns with this id.
  function InternAt(s: State, vm: Vm, id: nat, i: nat): (r: nat)
    requires i <= |s.registry|
    ensures i <= r <= |s.registry|
    ensures r < |s.registry| ==> Names(s, vm, id, s.registry[r])
    ensures forall k :: i <= k < r ==> !Names(s, vm, id, s.registry[k])
    decreases |s.registry| - i
  {
    if i == |s.registry| then i
    else if Owned(s, s.registry[i], vm) && s.interns[s.registry[i]].id == id then i
    else InternAt(s, vm, id, i + 1)
  }

  predicate Names(s: State, vm: Vm, id: nat, p: nat) {
    Owned(s, p, vm) && s.interns[p].id == id
  }

  predicate Owned(s: State, p: nat, vm: Vm) {
    p in s.interns && s.interns[p].owner == vm
  }

  ghost predicate Taken(s: State, vm: Vm, id: nat) {
    exists p :: Names(s, vm, id, p)
  }

  // next_id_for, over the first n entries.
  function HighestId(s: State, vm: Vm, n: nat): nat
    requires n <= |s.registry|
    decreases n
  {
    if n == 0 then 0
    else
      var h := HighestId(s, vm, n - 1);
      var p := s.registry[n - 1];
      if Owned(s, p, vm) && s.interns[p].id > h then s.interns[p].id else h
  }

  // Someone of this VM's who was started and not joined.
  function Unjoined(s: State, vm: Vm, i: nat): (r: nat)
    requires i <= |s.registry|
    ensures i <= r <= |s.registry|
    ensures r < |s.registry| ==> Unfinished(s, s.registry[r], vm)
    ensures forall k :: i <= k < r ==> !Unfinished(s, s.registry[k], vm)
    decreases |s.registry| - i
  {
    if i == |s.registry| || Unfinished(s, s.registry[i], vm) then i else Unjoined(s, vm, i + 1)
  }

  // Started and not joined yet.
  predicate Unfinished(s: State, p: nat, vm: Vm) {
    Owned(s, p, vm) && s.interns[p].spawned && !s.interns[p].joined
  }

  function Others(s: State, vm: Vm, n: nat): seq<nat>
    requires n <= |s.registry|
    decreases n
  {
    if n == 0 then []
    else if Owned(s, s.registry[n - 1], vm) then Others(s, vm, n - 1)
    else Others(s, vm, n - 1) + [s.registry[n - 1]]
  }

  function PhaseOf(s: State, vm: Vm): Phase {
    if vm in s.phases then s.phases[vm] else Closed
  }

  // A worker's program runs only while its thread does.
  predicate CanRun(s: State, vm: Vm) {
    vm.Worker? ==> vm.p in s.threads && s.threads[vm.p].Running?
  }

  // platform_thread_join: waits for the thread; once only.
  function Join(s: State, p: nat): Outcome {
    if p !in s.threads || p !in s.joins || s.joins[p] != 0 || p !in s.interns then Fault
    else if s.threads[p].Running? then Blocked
    else Next(s.(joins := s.joins[p := 1], interns := s.interns[p := s.interns[p].(joined := true)]))
  }

  // intern_release: what the worker used goes away, so it must be done with it.
  predicate MayRelease(s: State, p: nat) {
    p in s.interns && (s.interns[p].spawned ==> p in s.threads && s.threads[p].Ended?)
  }

  function SetPhase(s: State, vm: Vm, ph: Phase): State {
    s.(phases := s.phases[vm := ph])
  }

  // This VM's own thread is in its program.
  predicate Running(s: State, vm: Vm) {
    PhaseOf(s, vm) == Live && CanRun(s, vm)
  }

  // m_hire, under the registry lock; the thread may fail to start.
  function DoHire(s: State, vm: Vm, p: nat, started: bool): Outcome {
    if !Running(s, vm) || p in s.interns || p in s.threads || Worker(p) in s.phases then Blocked
    else
      var id := HighestId(s, vm, |s.registry|) + 1;
      var rec := Intern(id, vm, started, false, !started, false, !started);
      var s1 := s.(registry := s.registry + [p], interns := s.interns[p := rec], issued := s.issued + [(vm, id)]);
      if !started then Next(s1)
      else Next(SetPhase(s1.(threads := s.threads[p := Thread.Running], joins := s.joins[p := 0]), Worker(p), Live))
  }

  // interns_collect: looking the worker up ...
  function DoCollectFind(s: State, vm: Vm, id: nat): Outcome {
    if !Running(s, vm) then Blocked
    else
      var i := InternAt(s, vm, id, 0);
      if i == |s.registry| || s.interns[s.registry[i]].retired then Next(s, Gone)
      else Next(SetPhase(s, vm, Collecting(s.registry[i])))
  }

  // ... joining it if that has not been done ...
  function DoCollectJoin(s: State, vm: Vm): Outcome {
    var ph := PhaseOf(s, vm);
    if !ph.Collecting? then Blocked
    else if ph.p !in s.interns then Fault
    else if s.interns[ph.p].spawned && !s.interns[ph.p].joined then
      var o := Join(s, ph.p);
      if o.Next? then Next(SetPhase(o.s, vm, Collected(ph.p))) else o
    else Next(SetPhase(s, vm, Collected(ph.p)))
  }

  // ... reading its answer, and retiring it.
  function DoCollectFinish(s: State, vm: Vm): Outcome {
    var ph := PhaseOf(s, vm);
    if !ph.Collected? then Blocked
    else if ph.p !in s.interns || s.interns[ph.p].released || !MayRelease(s, ph.p) then Fault
    else Next(SetPhase(s.(interns := s.interns[ph.p := s.interns[ph.p].(retired := true, released := true)]), vm, Live))
  }

  // assignment, deliver, and reading its own mailbox: a worker at its Intern.
  function DoDeliver(s: State, p: nat): Outcome {
    if !Running(s, Worker(p)) then Blocked
    else if p !in s.interns || s.interns[p].released then Fault
    else Next(s)
  }

  // m_dm to an intern: its mailbox is written under the lock.
  function DoDmIntern(s: State, vm: Vm, id: nat): Outcome {
    if !Running(s, vm) then Blocked
    else
      var i := InternAt(s, vm, id, 0);
      if i == |s.registry| then Next(s, NotYours)
      else if s.interns[s.registry[i]].done || s.interns[s.registry[i]].retired then Next(s, Finished)
      else if s.interns[s.registry[i]].released then Fault
      else Next(s, Posted(s.registry[i]))
  }

  // m_dm to "boss": the hiring VM's inbox is written.
  function DoDmBoss(s: State, p: nat): Outcome {
    if !Running(s, Worker(p)) then Blocked
    else if p !in s.interns || PhaseOf(s, s.interns[p].owner).Closed? then Fault
    else Next(s)
  }

  function DoCloseStart(s: State, vm: Vm): Outcome {
    if !Running(s, vm) then Blocked else Next(SetPhase(s, vm, Closing))
  }

  function DoClosePick(s: State, vm: Vm): Outcome {
    if PhaseOf(s, vm) != Closing then Blocked
    else
      var i := Unjoined(s, vm, 0);
      if i == |s.registry| then Next(SetPhase(s, vm, Forgetting))
      else Next(SetPhase(s, vm, ClosingJoin(s.registry[i])))
  }

  function DoCloseJoin(s: State, vm: Vm): Outcome {
    var ph := PhaseOf(s, vm);
    if !ph.ClosingJoin? then Blocked
    else
      var o := Join(s, ph.p);
      if o.Next? then Next(SetPhase(o.s, vm, Closing)) else o
  }

  // The end of teardown: everything this VM hired is released and freed.
  function DoForget(s: State, vm: Vm): Outcome {
    if PhaseOf(s, vm) != Forgetting then Blocked
    else if exists p :: p in s.interns && Owned(s, p, vm) && !MayRelease(s, p) then Fault
    else
      Next(SetPhase(s.(registry := Others(s, vm, |s.registry|),
                       interns := map p | p in s.interns && s.interns[p].owner != vm :: s.interns[p]), vm, Closed))
  }

  // A worker's last act, once its VM is gone: done, under the lock.
  function DoFinish(s: State, p: nat): Outcome {
    if Worker(p) !in s.phases || s.phases[Worker(p)] != Closed || !CanRun(s, Worker(p)) then Blocked
    else if p !in s.interns then Fault
    else if s.interns[p].done then Blocked
    else Next(s.(interns := s.interns[p := s.interns[p].(done := true)]))
  }

  function DoEnd(s: State, p: nat): Outcome {
    if !CanRun(s, Worker(p)) then Blocked
    else if p !in s.interns then Fault
    else if !s.interns[p].done then Blocked
    else Next(s.(threads := s.threads[p := Ended]))
  }

  function Do(s: State, step: Step): Outcome {
    match step
    case Hire(vm, p, started) => DoHire(s, vm, p, started)
    case CollectFind(vm, id) => DoCollectFind(s, vm, id)
    case CollectJoin(vm) => DoCollectJoin(s, vm)
    case CollectFinish(vm) => DoCollectFinish(s, vm)
    case Deliver(p) => DoDeliver(s, p)
    case DmIntern(vm, id) => DoDmIntern(s, vm, id)
    case DmBoss(p) => DoDmBoss(s, p)
    case CloseStart(vm) => DoCloseStart(s, vm)
    case ClosePick(vm) => DoClosePick(s, vm)
    case CloseJoin(vm) => DoCloseJoin(s, vm)
    case Forget(vm) => DoForget(s, vm)
    case Finish(p) => DoFinish(s, p)
    case End(p) => DoEnd(s, p)
  }

  // ----- what every step keeps -----

  ghost predicate Distinct(s: seq<nat>) {
    forall i, j :: 0 <= i < j < |s| ==> s[i] != s[j]
  }

  // The registry lists exactly the Interns there are.
  ghost predicate Registered(s: State) {
    && Distinct(s.registry)
    && (forall i :: 0 <= i < |s.registry| ==> s.registry[i] in s.interns)
    && (forall p :: p in s.interns ==> p in s.registry)
  }

  // Threads are joined at most once, after they ended, and forgotten only then.
  ghost predicate ThreadsJoined(s: State) {
    && s.joins.Keys == s.threads.Keys
    && (forall p :: p in s.threads ==> Worker(p) in s.phases)
    && (forall p :: p in s.threads ==>
         s.joins[p] <= 1 && (s.joins[p] == 1 ==> s.threads[p].Ended?) && (p !in s.interns ==> s.joins[p] == 1))
  }

  ghost predicate Flags(s: State) {
    forall p :: p in s.interns ==> FlagsOf(s, p)
  }

  ghost predicate FlagsOf(s: State, p: nat)
    requires p in s.interns
  {
    var r := s.interns[p];
    && (r.spawned <==> p in s.threads)
    && (r.joined <==> p in s.joins && s.joins[p] == 1)
    && (r.retired ==> r.spawned ==> r.joined)
    && (r.released <==> r.retired)
    && (r.done ==> Worker(p) in s.phases && s.phases[Worker(p)].Closed?)
    && (p in s.threads && s.threads[p].Ended? ==> r.done)
  }

  ghost predicate Phases(s: State) {
    forall vm :: vm in s.phases ==> PhaseOk(s, vm)
  }

  ghost predicate PhaseOk(s: State, vm: Vm)
    requires vm in s.phases
  {
    match s.phases[vm]
    case Live => true
    case Collecting(p) => Owned(s, p, vm) && !s.interns[p].retired
    case Collected(p) => Owned(s, p, vm) && !s.interns[p].retired && (s.interns[p].spawned ==> s.interns[p].joined)
    case Closing => true
    case ClosingJoin(p) => Owned(s, p, vm) && s.interns[p].spawned && !s.interns[p].joined
    case Forgetting => forall p :: Owned(s, p, vm) && s.interns[p].spawned ==> s.interns[p].joined
    case Closed => forall p :: p in s.interns ==> s.interns[p].owner != vm
  }

  // Only VMs that exist own interns, and ids are given out once.
  ghost predicate Ids(s: State) {
    && (forall p :: p in s.interns ==> s.interns[p].owner in s.phases)
    && (forall p, q :: p in s.interns && q in s.interns && p != q ==>
         s.interns[p].owner != s.interns[q].owner || s.interns[p].id != s.interns[q].id)
    && (forall i, j :: 0 <= i < j < |s.issued| ==> s.issued[i] != s.issued[j])
    && (forall i :: 0 <= i < |s.issued| ==> s.issued[i].0 in s.phases && StillListed(s, s.issued[i].0, s.issued[i].1))
  }

  // While a VM has not forgotten its interns, each id it issued still names one.
  ghost predicate StillListed(s: State, vm: Vm, id: nat) {
    PhaseOf(s, vm).Closed? || exists p :: p in s.interns && s.interns[p].owner == vm && s.interns[p].id == id
  }

  ghost predicate Inv(s: State) {
    Registered(s) && ThreadsJoined(s) && Flags(s) && Phases(s) && Ids(s)
  }

  function Init(roots: set<nat>): State {
    State([], map[], map[], map[], map n | n in roots :: Root(n) := Live, [])
  }

  lemma {:induction false} HighestBounds(s: State, vm: Vm, n: nat)
    requires n <= |s.registry|
    ensures forall i :: 0 <= i < n && Owned(s, s.registry[i], vm) ==> s.interns[s.registry[i]].id <= HighestId(s, vm, n)
    ensures HighestId(s, vm, n) == 0 || Taken(s, vm, HighestId(s, vm, n))
    decreases n
  {
    if n > 0 {
      HighestBounds(s, vm, n - 1);
      assert HighestId(s, vm, n) == HighestId(s, vm, n - 1) || Names(s, vm, HighestId(s, vm, n), s.registry[n - 1]);
    }
  }

  // Not a fault, and the invariant holds after it.
  ghost predicate Fine(o: Outcome) {
    o != Fault && (o.Next? ==> Inv(o.s))
  }

  // A VM that is not closed moves on.
  lemma SetPhaseKeeps(s: State, vm: Vm, ph: Phase)
    requires Inv(s) && vm in s.phases && !s.phases[vm].Closed?
    requires PhaseOk(SetPhase(s, vm, ph), vm)
    ensures Inv(SetPhase(s, vm, ph))
  {
    var s' := SetPhase(s, vm, ph);
    forall v | v in s'.phases ensures PhaseOk(s', v) {
      if v != vm {
        assert PhaseOk(s, v);
      }
    }
    forall i | 0 <= i < |s'.issued|
      ensures s'.issued[i].0 in s'.phases && StillListed(s', s'.issued[i].0, s'.issued[i].1)
    {
      assert StillListed(s, s.issued[i].0, s.issued[i].1);
    }
    forall p | p in s'.interns ensures FlagsOf(s', p) {
      assert FlagsOf(s, p);
    }
  }

  // One Intern's flags change.
  lemma RecordKeeps(s: State, s': State, p: nat, r: Intern)
    requires Inv(s) && p in s.interns && r.owner == s.interns[p].owner && r.id == s.interns[p].id
    requires s' == s.(interns := s.interns[p := r])
    requires FlagsOf(s', p) && forall v :: v in s.phases ==> PhaseOk(s', v)
    ensures Inv(s')
  {
    forall q | q in s'.interns ensures FlagsOf(s', q) {
      if q != p {
        assert FlagsOf(s, q);
      }
    }
    forall i | 0 <= i < |s'.issued|
      ensures s'.issued[i].0 in s'.phases && StillListed(s', s'.issued[i].0, s'.issued[i].1)
    {
      RecordListed(s, s', p, r, s.issued[i].0, s.issued[i].1);
    }
  }

  lemma RecordListed(s: State, s': State, p: nat, r: Intern, vm: Vm, id: nat)
    requires p in s.interns && r.owner == s.interns[p].owner && r.id == s.interns[p].id
    requires s' == s.(interns := s.interns[p := r]) && StillListed(s, vm, id)
    ensures StillListed(s', vm, id)
  {
    if !PhaseOf(s, vm).Closed? {
      var q :| q in s.interns && s.interns[q].owner == vm && s.interns[q].id == id;
      assert q in s'.interns && s'.interns[q].owner == vm && s'.interns[q].id == id;
    }
  }

  // An unjoined thread is joined by the VM that is at it.
  ghost predicate Joining(s: State, vm: Vm, p: nat, ph: Phase) {
    && Inv(s) && vm in s.phases && Unfinished(s, p, vm)
    && ((s.phases[vm] == Collecting(p) && ph == Collected(p)) || (s.phases[vm] == ClosingJoin(p) && ph == Closing))
  }

  lemma JoinKeeps(s: State, vm: Vm, p: nat, ph: Phase)
    requires Joining(s, vm, p, ph)
    ensures Join(s, p) != Fault
    ensures Join(s, p).Next? ==> Inv(SetPhase(Join(s, p).s, vm, ph))
  {
    JoinIsFine(s, vm, p, ph);
    if Join(s, p).Next? {
      hide Join, Joining, Registered, ThreadsJoined, Flags, Phases, Ids;
      JoinFlags(s, vm, p, ph);
      JoinPhases(s, vm, p, ph);
      JoinIds(s, vm, p, ph);
    }
  }

  lemma JoinIsFine(s: State, vm: Vm, p: nat, ph: Phase)
    requires Joining(s, vm, p, ph)
    ensures Join(s, p) != Fault
    ensures Join(s, p).Next? ==> Registered(SetPhase(Join(s, p).s, vm, ph))
  {
    hide Ids, Phases;
    assert FlagsOf(s, p);
  }

  lemma JoinIds(s: State, vm: Vm, p: nat, ph: Phase)
    requires Joining(s, vm, p, ph) && Join(s, p).Next?
    ensures Ids(SetPhase(Join(s, p).s, vm, ph))
  {
    hide Flags, Phases, Registered, ThreadsJoined, StillListed;
    var s' := SetPhase(Join(s, p).s, vm, ph);
    forall i | 0 <= i < |s'.issued|
      ensures s'.issued[i].0 in s'.phases && StillListed(s', s'.issued[i].0, s'.issued[i].1)
    {
      JoinListed(s, vm, p, ph, s.issued[i].0, s.issued[i].1);
    }
  }

  lemma JoinListed(s: State, vm: Vm, p: nat, ph: Phase, v: Vm, id: nat)
    requires Joining(s, vm, p, ph) && Join(s, p).Next? && StillListed(s, v, id)
    ensures StillListed(SetPhase(Join(s, p).s, vm, ph), v, id)
  {
    var s' := SetPhase(Join(s, p).s, vm, ph);
    if !PhaseOf(s, v).Closed? {
      var q :| q in s.interns && s.interns[q].owner == v && s.interns[q].id == id;
      assert q in s'.interns && s'.interns[q].owner == v && s'.interns[q].id == id;
    }
  }

  lemma JoinFlags(s: State, vm: Vm, p: nat, ph: Phase)
    requires Joining(s, vm, p, ph) && Join(s, p).Next?
    ensures Flags(SetPhase(Join(s, p).s, vm, ph)) && ThreadsJoined(SetPhase(Join(s, p).s, vm, ph))
  {
    var s' := SetPhase(Join(s, p).s, vm, ph);
    forall q | q in s'.interns ensures FlagsOf(s', q) {
      assert FlagsOf(s, q);
    }
  }

  lemma JoinPhases(s: State, vm: Vm, p: nat, ph: Phase)
    requires Joining(s, vm, p, ph) && Join(s, p).Next?
    ensures Phases(SetPhase(Join(s, p).s, vm, ph))
  {
    var s' := SetPhase(Join(s, p).s, vm, ph);
    forall v | v in s'.phases ensures PhaseOk(s', v) {
      assert PhaseOk(s, v);
    }
  }

  lemma HireKeeps(s: State, vm: Vm, p: nat, started: bool)
    requires Inv(s)
    ensures Fine(DoHire(s, vm, p, started))
  {
    if DoHire(s, vm, p, started).Next? {
      HireRegisters(s, vm, p, started);
      HireIds(s, vm, p, started);
      HireThreads(s, vm, p, started);
      HirePhases(s, vm, p, started);
    }
  }

  lemma HireThreads(s: State, vm: Vm, p: nat, started: bool)
    requires Inv(s) && DoHire(s, vm, p, started).Next?
    ensures ThreadsJoined(DoHire(s, vm, p, started).s) && Flags(DoHire(s, vm, p, started).s)
  {
    var s' := DoHire(s, vm, p, started).s;
    forall q | q in s'.interns ensures FlagsOf(s', q) {
      if q != p {
        assert FlagsOf(s, q);
      }
    }
  }

  lemma HirePhases(s: State, vm: Vm, p: nat, started: bool)
    requires Inv(s) && DoHire(s, vm, p, started).Next?
    ensures Phases(DoHire(s, vm, p, started).s)
  {
    var s' := DoHire(s, vm, p, started).s;
    forall v | v in s'.phases ensures PhaseOk(s', v) {
      if v != Worker(p) {
        assert PhaseOk(s, v);
      }
    }
  }

  lemma HireRegisters(s: State, vm: Vm, p: nat, started: bool)
    requires Inv(s) && DoHire(s, vm, p, started).Next?
    ensures Registered(DoHire(s, vm, p, started).s)
  {
    var s' := DoHire(s, vm, p, started).s;
    assert s'.registry[|s.registry|] == p;
    forall q | q in s'.interns ensures q in s'.registry {
      if q != p {
        var i :| 0 <= i < |s.registry| && s.registry[i] == q;
        assert s'.registry[i] == q;
      }
    }
  }

  // The new id is above all ids the VM's interns have, and all it ever gave out.
  lemma HireIds(s: State, vm: Vm, p: nat, started: bool)
    requires Inv(s) && DoHire(s, vm, p, started).Next?
    ensures Ids(DoHire(s, vm, p, started).s)
    ensures p in DoHire(s, vm, p, started).s.interns && DoHire(s, vm, p, started).s.interns[p].owner == vm
    ensures var id := DoHire(s, vm, p, started).s.interns[p].id;
      && (forall q :: q in s.interns && s.interns[q].owner == vm ==> s.interns[q].id < id)
      && (id == 1 || Taken(s, vm, id - 1))
      && forall i :: 0 <= i < |s.issued| && s.issued[i].0 == vm ==> s.issued[i].1 < id
  {
    hide Flags, ThreadsJoined, Phases;
    var s' := DoHire(s, vm, p, started).s;
    var id := HighestId(s, vm, |s.registry|) + 1;
    HighestBounds(s, vm, |s.registry|);
    forall q | q in s.interns && s.interns[q].owner == vm ensures s.interns[q].id < id {
      var i :| 0 <= i < |s.registry| && s.registry[i] == q;
    }
    forall i | 0 <= i < |s.issued|
      ensures s.issued[i] != (vm, id) && (s.issued[i].0 == vm ==> s.issued[i].1 < id)
      ensures s.issued[i].0 in s'.phases && StillListed(s', s.issued[i].0, s.issued[i].1)
    {
      HireListed(s, vm, p, started, s.issued[i].0, s.issued[i].1);
    }
    assert s'.interns[p].owner == vm && s'.interns[p].id == id;
    assert StillListed(s', vm, id);
  }

  lemma HireListed(s: State, vm: Vm, p: nat, started: bool, v: Vm, id: nat)
    requires Inv(s) && DoHire(s, vm, p, started).Next?
    requires v in s.phases && StillListed(s, v, id)
    ensures StillListed(DoHire(s, vm, p, started).s, v, id)
    ensures v == vm ==> exists q :: q in s.interns && s.interns[q].owner == vm && s.interns[q].id == id
  {
    var s' := DoHire(s, vm, p, started).s;
    if !PhaseOf(s, v).Closed? {
      var q :| q in s.interns && s.interns[q].owner == v && s.interns[q].id == id;
      assert q in s'.interns && s'.interns[q] == s.interns[q];
    }
  }

  lemma CollectKeeps(s: State, vm: Vm, id: nat)
    requires Inv(s)
    ensures Fine(DoCollectFind(s, vm, id)) && Fine(DoCollectJoin(s, vm)) && Fine(DoCollectFinish(s, vm))
  {
    if Running(s, vm) {
      var i := InternAt(s, vm, id, 0);
      if i < |s.registry| && !s.interns[s.registry[i]].retired {
        SetPhaseKeeps(s, vm, Collecting(s.registry[i]));
      }
    } else if vm in s.phases && s.phases[vm].Collecting? {
      var p := s.phases[vm].p;
      assert PhaseOk(s, vm);
      if Unfinished(s, p, vm) {
        JoinKeeps(s, vm, p, Collected(p));
      } else {
        SetPhaseKeeps(s, vm, Collected(p));
      }
    } else if vm in s.phases && s.phases[vm].Collected? {
      FinishKeeps(s, vm, s.phases[vm].p);
    }
  }

  lemma FinishKeeps(s: State, vm: Vm, p: nat)
    requires Inv(s) && vm in s.phases && s.phases[vm] == Collected(p)
    ensures Fine(DoCollectFinish(s, vm))
  {
    assert PhaseOk(s, vm) && FlagsOf(s, p);
    SetPhaseKeeps(s, vm, Live);
    var s1 := SetPhase(s, vm, Live);
    var r := s.interns[p].(retired := true, released := true);
    var s' := s1.(interns := s.interns[p := r]);
    forall v | v in s1.phases ensures PhaseOk(s', v) {
      assert PhaseOk(s1, v);
    }
    RecordKeeps(s1, s', p, r);
  }

  lemma CloseKeeps(s: State, vm: Vm)
    requires Inv(s)
    ensures Fine(DoCloseStart(s, vm)) && Fine(DoClosePick(s, vm)) && Fine(DoCloseJoin(s, vm))
  {
    if Running(s, vm) {
      SetPhaseKeeps(s, vm, Closing);
    } else if vm in s.phases && s.phases[vm].Closing? {
      var i := Unjoined(s, vm, 0);
      if i < |s.registry| {
        SetPhaseKeeps(s, vm, ClosingJoin(s.registry[i]));
      } else {
        forall p | Owned(s, p, vm) && s.interns[p].spawned ensures s.interns[p].joined {
          var k :| 0 <= k < |s.registry| && s.registry[k] == p;
          assert !Unfinished(s, s.registry[k], vm);
        }
        SetPhaseKeeps(s, vm, Forgetting);
      }
    } else if vm in s.phases && s.phases[vm].ClosingJoin? {
      assert PhaseOk(s, vm);
      JoinKeeps(s, vm, s.phases[vm].p, Closing);
    }
  }

  lemma {:induction false} OthersAre(s: State, vm: Vm, n: nat)
    requires n <= |s.registry|
    ensures forall p :: p in Others(s, vm, n) <==> p in s.registry[..n] && !Owned(s, p, vm)
    ensures Distinct(s.registry) ==> Distinct(Others(s, vm, n))
    decreases n
  {
    if n > 0 {
      OthersAre(s, vm, n - 1);
      assert s.registry[..n] == s.registry[..n - 1] + [s.registry[n - 1]];
    }
  }

  lemma ForgetKeeps(s: State, vm: Vm)
    requires Inv(s)
    ensures Fine(DoForget(s, vm))
  {
    if vm in s.phases && s.phases[vm].Forgetting? {
      assert PhaseOk(s, vm);
      forall p | p in s.interns && Owned(s, p, vm) ensures MayRelease(s, p) {
        assert FlagsOf(s, p);
      }
      var s' := DoForget(s, vm).s;
      ForgetRegisters(s, vm);
      forall v | v in s'.phases ensures PhaseOk(s', v) {
        assert PhaseOk(s, v);
      }
      forall p | p in s'.interns ensures FlagsOf(s', p) {
        assert FlagsOf(s, p);
      }
      forall p | p in s'.threads && p !in s'.interns ensures s'.joins[p] == 1 {
        if p in s.interns {
          assert FlagsOf(s, p);
        }
      }
      forall i | 0 <= i < |s'.issued| ensures StillListed(s', s'.issued[i].0, s'.issued[i].1) {
        ForgetListed(s, vm, s', s.issued[i].0, s.issued[i].1);
      }
    }
  }

  lemma ForgetRegisters(s: State, vm: Vm)
    requires Registered(s) && DoForget(s, vm).Next?
    ensures Registered(DoForget(s, vm).s)
  {
    var s' := DoForget(s, vm).s;
    OthersAre(s, vm, |s.registry|);
    assert s.registry[..|s.registry|] == s.registry;
    forall i | 0 <= i < |s'.registry| ensures s'.registry[i] in s'.interns {
      assert s'.registry[i] in s.registry;
    }
  }

  lemma ForgetListed(s: State, vm: Vm, s': State, v: Vm, id: nat)
    requires vm in s.phases && DoForget(s, vm) == Next(s') && StillListed(s, v, id)
    ensures StillListed(s', v, id)
  {
    if v != vm && !PhaseOf(s, v).Closed? {
      var q :| q in s.interns && s.interns[q].owner == v && s.interns[q].id == id;
      assert q in s'.interns && s'.interns[q] == s.interns[q];
    }
  }

  lemma WorkerKeeps(s: State, p: nat)
    requires Inv(s)
    ensures Fine(DoDeliver(s, p)) && Fine(DoDmBoss(s, p)) && Fine(DoFinish(s, p)) && Fine(DoEnd(s, p))
  {
    if p in s.interns {
      assert FlagsOf(s, p) && s.interns[p].owner in s.phases && PhaseOk(s, s.interns[p].owner);
    }
    if DoFinish(s, p).Next? {
      DoneKeeps(s, p);
    }
    if DoEnd(s, p).Next? {
      EndKeeps(s, p);
    }
  }

  lemma DmKeeps(s: State, vm: Vm, id: nat)
    requires Inv(s)
    ensures Fine(DoDmIntern(s, vm, id))
  {
    var i := InternAt(s, vm, id, 0);
    if i < |s.registry| {
      assert FlagsOf(s, s.registry[i]);
    }
  }

  lemma DoneKeeps(s: State, p: nat)
    requires Inv(s) && DoFinish(s, p).Next?
    ensures Inv(DoFinish(s, p).s)
  {
    var s' := DoFinish(s, p).s;
    assert FlagsOf(s, p);
    forall v | v in s.phases ensures PhaseOk(s', v) {
      assert PhaseOk(s, v);
    }
    RecordKeeps(s, s', p, s.interns[p].(done := true));
  }

  lemma EndKeeps(s: State, p: nat)
    requires Inv(s) && DoEnd(s, p).Next?
    ensures Inv(DoEnd(s, p).s)
  {
    var s' := DoEnd(s, p).s;
    forall q | q in s'.interns ensures FlagsOf(s', q) {
      assert FlagsOf(s, q);
    }
    forall v | v in s'.phases ensures PhaseOk(s', v) {
      assert PhaseOk(s, v);
    }
    forall i | 0 <= i < |s'.issued| ensures StillListed(s', s'.issued[i].0, s'.issued[i].1) {
      assert StillListed(s, s.issued[i].0, s.issued[i].1);
    }
  }

  lemma StepKeeps(s: State, step: Step)
    requires Inv(s)
    ensures Fine(Do(s, step))
  {
    match step
    case Hire(vm, p, started) => HireKeeps(s, vm, p, started);
    case CollectFind(vm, id) => CollectKeeps(s, vm, id);
    case CollectJoin(vm) => CollectKeeps(s, vm, 0);
    case CollectFinish(vm) => CollectKeeps(s, vm, 0);
    case Deliver(p) => WorkerKeeps(s, p);
    case DmIntern(vm, id) => DmKeeps(s, vm, id);
    case DmBoss(p) => WorkerKeeps(s, p);
    case CloseStart(vm) => CloseKeeps(s, vm);
    case ClosePick(vm) => CloseKeeps(s, vm);
    case CloseJoin(vm) => CloseKeeps(s, vm);
    case Forget(vm) => ForgetKeeps(s, vm);
    case Finish(p) => WorkerKeeps(s, p);
    case End(p) => WorkerKeeps(s, p);
  }

  // ----- whole runs -----

  // Any interleaving: steps that are not possible yet leave the state alone.
  function Run(roots: set<nat>, steps: seq<Step>): Outcome
    decreases |steps|
  {
    if |steps| == 0 then Next(Init(roots))
    else
      var o := Run(roots, steps[..|steps| - 1]);
      if !o.Next? then o
      else
        var o' := Do(o.s, steps[|steps| - 1]);
        if o'.Blocked? then o else o'
  }

  lemma {:induction false} RunsAreSafe(roots: set<nat>, steps: seq<Step>)
    ensures Run(roots, steps).Next? && Inv(Run(roots, steps).s)
    decreases |steps|
  {
    if |steps| > 0 {
      RunsAreSafe(roots, steps[..|steps| - 1]);
      StepKeeps(Run(roots, steps[..|steps| - 1]).s, steps[|steps| - 1]);
    }
  }

  // Where a run has got to; RunsAreSafe says it never ends in a fault.
  function After(roots: set<nat>, steps: seq<Step>): (s: State)
    ensures Run(roots, steps).Next? && Run(roots, steps).s == s
  {
    RunsAreSafe(roots, steps);
    Run(roots, steps).s
  }

  // Each started thread is joined at most once, never before it ended; and
  // exactly once by the time the VM that hired it has closed.  Its memory goes
  // only after it has ended.
  lemma JoinedExactlyOnce(roots: set<nat>, steps: seq<Step>, p: nat)
    requires p in After(roots, steps).threads
    ensures var s := After(roots, steps);
      && p in s.joins
      && s.joins[p] <= 1
      && (s.joins[p] == 1 ==> s.threads[p].Ended?)
      && (p !in s.interns ==> s.joins[p] == 1)
      && (p in s.interns && s.interns[p].released ==> s.threads[p].Ended?)
      && (p in s.interns ==> !PhaseOf(s, s.interns[p].owner).Closed?)
  {
    RunsAreSafe(roots, steps);
    var s := After(roots, steps);
    if p in s.interns {
      assert FlagsOf(s, p) && PhaseOk(s, s.interns[p].owner);
    }
  }

  // No VM ever gives out the same id twice, and until it closes an id it gave
  // out names exactly one of its interns.
  lemma IdsNeverReused(roots: set<nat>, steps: seq<Step>, i: nat)
    requires i < |After(roots, steps).issued|
    ensures var s := After(roots, steps);
      forall j :: 0 <= j < |s.issued| && j != i ==> s.issued[i] != s.issued[j]
    ensures var s := After(roots, steps);
      var (vm, id) := s.issued[i];
      PhaseOf(s, vm).Closed? || (exists p :: Names(s, vm, id, p) && forall q :: Names(s, vm, id, q) ==> q == p)
  {
    RunsAreSafe(roots, steps);
    var s := After(roots, steps);
    var (vm, id) := s.issued[i];
    assert StillListed(s, vm, id);
    if !PhaseOf(s, vm).Closed? {
      var p :| p in s.interns && s.interns[p].owner == vm && s.interns[p].id == id;
      assert Names(s, vm, id, p);
    }
  }

  // ----- nobody is overlooked -----

  // The lookup finds the intern this VM has under this id, if there is one.
  lemma LookedUp(s: State, vm: Vm, id: nat, p: nat)
    requires Inv(s) && Names(s, vm, id, p)
    ensures InternAt(s, vm, id, 0) < |s.registry| && s.registry[InternAt(s, vm, id, 0)] == p
  {
    var k :| 0 <= k < |s.registry| && s.registry[k] == p;
    assert Names(s, vm, id, s.registry[k]);
  }

  // Collecting goes to the intern the id names, unless it is retired; it finds nobody if
  // and only if the id names nobody, or one that is.
  lemma CollectFinds(s: State, vm: Vm, id: nat)
    requires Inv(s) && Running(s, vm)
    ensures forall p :: Names(s, vm, id, p) && !s.interns[p].retired ==>
              Do(s, CollectFind(vm, id)) == Next(SetPhase(s, vm, Collecting(p)))
    ensures Do(s, CollectFind(vm, id)) == Next(s, Gone) <==> forall p :: Names(s, vm, id, p) ==> s.interns[p].retired
  {
    forall p | Names(s, vm, id, p) ensures s.registry[InternAt(s, vm, id, 0)] == p {
      LookedUp(s, vm, id, p);
    }
    var i := InternAt(s, vm, id, 0);
    if i < |s.registry| && !s.interns[s.registry[i]].retired {
      assert Names(s, vm, id, s.registry[i]);
      assert PhaseOf(SetPhase(s, vm, Collecting(s.registry[i])), vm) != PhaseOf(s, vm);
    }
  }

  // A message goes to the mailbox of the intern the id names, if it is still at work; the
  // sender is told that it has finished, or that there is none, exactly when that is so.
  lemma DmReaches(s: State, vm: Vm, id: nat)
    returns (a: Answer)
    requires Inv(s) && Running(s, vm)
    ensures Do(s, DmIntern(vm, id)) == Next(s, a)
    ensures forall p :: a == Posted(p) <==> Names(s, vm, id, p) && !s.interns[p].done && !s.interns[p].retired
    ensures a == Finished <==> exists p :: Names(s, vm, id, p) && (s.interns[p].done || s.interns[p].retired)
    ensures a == NotYours <==> forall p :: !Names(s, vm, id, p)
  {
    var i := InternAt(s, vm, id, 0);
    forall p | Names(s, vm, id, p) ensures s.registry[i] == p {
      LookedUp(s, vm, id, p);
    }
    if i < |s.registry| {
      assert Names(s, vm, id, s.registry[i]) && FlagsOf(s, s.registry[i]);
    }
    a := Do(s, DmIntern(vm, id)).answer;
  }

  // Collecting waits for as long as the thread runs, whatever the others do meanwhile.
  lemma KeepsWaiting(s: State, vm: Vm, p: nat, step: Step)
    requires PhaseOf(s, vm) == Collecting(p) && step != CollectJoin(vm)
    ensures Do(s, step).Next? ==> PhaseOf(Do(s, step).s, vm) == Collecting(p)
  {
    hide HighestId, InternAt, Unjoined, Others, MayRelease;
  }

  lemma JoinWaits(s: State, vm: Vm, p: nat)
    requires Inv(s) && PhaseOf(s, vm) == Collecting(p)
    ensures Do(s, CollectJoin(vm)).Blocked? <==> p in s.threads && s.threads[p].Running?
  {
    assert PhaseOk(s, vm) && FlagsOf(s, p);
  }

  // Once it has ended, two steps join it and retire it, and change nothing else.
  lemma JoinsAndRetires(s: State, vm: Vm, p: nat)
    requires Inv(s) && PhaseOf(s, vm) == Collecting(p)
    requires p in s.threads ==> s.threads[p].Ended?
    ensures Do(s, CollectJoin(vm)).Next? && PhaseOf(Do(s, CollectJoin(vm)).s, vm) == Collected(p)
    ensures Do(Do(s, CollectJoin(vm)).s, CollectFinish(vm)) == Next(WithoutIntern(s, vm, p))
  {
    assert PhaseOk(s, vm) && FlagsOf(s, p);
    var s1 := Do(s, CollectJoin(vm)).s;
    var s2 := Do(s1, CollectFinish(vm)).s;
    var r := s.interns[p];
    if p in s.threads {
      assert s1.joins == s.joins[p := 1];
      assert s2.interns == s.interns[p := r.(joined := true, retired := true, released := true)];
    }
    assert s2.phases == s.phases[vm := Live];
  }

  // The VM goes on, with p's thread joined, if it had one, and p retired and released.
  function WithoutIntern(s: State, vm: Vm, p: nat): State
    requires p in s.interns
  {
    var r := s.interns[p].(joined := p in s.threads, retired := true, released := true);
    s.(interns := s.interns[p := r], joins := if p in s.threads then s.joins[p := 1] else s.joins,
       phases := s.phases[vm := Live])
  }

  lemma OneMore(roots: set<nat>, steps: seq<Step>, step: Step)
    ensures var o := Do(After(roots, steps), step);
            After(roots, steps + [step]) == if o.Next? then o.s else After(roots, steps)
  {
    RunsAreSafe(roots, steps + [step]);
    assert (steps + [step])[..|steps + [step]| - 1] == steps;
  }

  lemma StepOn(roots: set<nat>, steps: seq<Step>, step: Step, vm: Vm, p: nat)
    requires PhaseOf(After(roots, steps), vm) == Collecting(p) && step != CollectJoin(vm)
    ensures PhaseOf(After(roots, steps + [step]), vm) == Collecting(p)
  {
    KeepsWaiting(After(roots, steps), vm, p, step);
    hide Do, PhaseOf;
    OneMore(roots, steps, step);
  }

  lemma Regroup(steps: seq<Step>, more: seq<Step>)
    requires more != []
    ensures steps + more == steps + more[..|more| - 1] + [more[|more| - 1]]
  {
  }

  lemma {:induction false} WaitsOn(roots: set<nat>, steps: seq<Step>, more: seq<Step>, vm: Vm, p: nat)
    requires PhaseOf(After(roots, steps), vm) == Collecting(p) && CollectJoin(vm) !in more
    ensures PhaseOf(After(roots, steps + more), vm) == Collecting(p)
    decreases |more|
  {
    hide *;
    if more == [] {
      assert steps + more == steps;
    } else {
      var fewer, last := more[..|more| - 1], more[|more| - 1];
      Regroup(steps, more);
      WaitsOn(roots, steps, fewer, vm, p);
      StepOn(roots, steps + fewer, last, vm, p);
    }
  }

  // Over every run: a VM that asks for one of its interns that is not retired waits for
  // exactly that one, whatever happens meanwhile, and if its thread has ended by then, or it
  // never had one, it is joined and retired, and the VM goes on.
  lemma CollectsTheOneAskedFor(roots: set<nat>, steps: seq<Step>, vm: Vm, id: nat, p: nat, meanwhile: seq<Step>)
    requires var s := After(roots, steps); Running(s, vm) && Names(s, vm, id, p) && !s.interns[p].retired
    requires CollectJoin(vm) !in meanwhile
    ensures var s := After(roots, steps + [CollectFind(vm, id)] + meanwhile);
            && PhaseOf(s, vm) == Collecting(p) && p in s.interns
            && ((p in s.threads ==> s.threads[p].Ended?) ==>
                  After(roots, steps + [CollectFind(vm, id)] + meanwhile + [CollectJoin(vm)] + [CollectFinish(vm)])
                  == WithoutIntern(s, vm, p))
  {
    RunsAreSafe(roots, steps);
    CollectFinds(After(roots, steps), vm, id);
    OneMore(roots, steps, CollectFind(vm, id));
    var waiting := steps + [CollectFind(vm, id)] + meanwhile;
    WaitsOn(roots, steps + [CollectFind(vm, id)], meanwhile, vm, p);
    RunsAreSafe(roots, waiting);
    var s := After(roots, waiting);
    assert PhaseOk(s, vm);
    if p in s.threads ==> s.threads[p].Ended? {
      JoinsAndRetires(s, vm, p);
      OneMore(roots, waiting, CollectJoin(vm));
      OneMore(roots, waiting + [CollectJoin(vm)], CollectFinish(vm));
    }
  }
}
