// Upvalues and the stacks of tasks (native/frames.c, native/task.c): the running
// task's stack is in the VM's own fields, and what its Task has of it is stale.
module Frames {

  type Value = int

  const TASK_STACK_CAPACITY := 256
  const TASK_FRAMES_CAPACITY := 64
  const TASK_UPVALUES_CAPACITY := 8
  const GHOST: Value := 0

  class Upvalue {
    const task: nat
    const slot: nat
    var closed: bool
    var closedValue: Value

    constructor (task: nat, slot: nat)
      ensures this.task == task && this.slot == slot && !closed
    {
      this.task, this.slot := task, slot;
      closed, closedValue := false, GHOST;
    }
  }

  // What else is switched with a task.  A frame is its slotBase, a unit and a module's
  // name are a number; a count is the length of its sequence.
  datatype Context = Context(
    frames: seq<nat>, frameCapacity: nat,
    openUpvalues: seq<Upvalue>, openUpvalueCapacity: nat,
    currentFrameIndex: int, currentInstrStart: int,
    hadError: bool, pendingError: Value,
    unit: int, currentModuleName: int)

  // start_async_call: one frame, and what is taken over from the caller.
  function FirstContext(unit: int, currentModuleName: int): Context {
    Context([0], TASK_FRAMES_CAPACITY, [], TASK_UPVALUES_CAPACITY, 0, 0, false, GHOST, unit, currentModuleName)
  }

  class Task {
    var stack: array?<Value>  // NULL once it has been retired
    var stackCount: nat
    var context: Context
    var done: bool

    // With these values on its stack.
    constructor (args: seq<Value>, context: Context)
      ensures this.context == context && !done && stack != null
      ensures fresh(stack) && 0 < stack.Length && stackCount == |args| <= stack.Length && stack[..|args|] == args
    {
      var capacity := if TASK_STACK_CAPACITY < |args| then |args| else TASK_STACK_CAPACITY;
      stack := new Value[capacity](k => if 0 <= k < |args| then args[k] else GHOST);
      stackCount, this.context, done := |args|, context, false;
    }
  }

  class Vm {
    var tasks: seq<Task>
    var current: nat
    var stack: array<Value>
    var stackCount: nat
    var context: Context
    ghost var freed: set<array<Value>>

    // The array that is a task's stack now: this VM's, or the Task's own.
    ghost function Live(i: nat): array?<Value>
      requires i < |tasks|
      reads this, tasks
    {
      if i == current then stack else tasks[i].stack
    }

    ghost function Height(i: nat): nat
      requires i < |tasks|
      reads this, tasks
    {
      if i == current then stackCount else tasks[i].stackCount
    }

    ghost function ContextOf(i: nat): Context
      requires i < |tasks|
      reads this`tasks, this`current, this`context, tasks
    {
      if i == current then context else tasks[i].context
    }

    // A task whose stack is no more.
    ghost predicate Gone(i: nat)
      requires i < |tasks|
      reads this`tasks, this`current, tasks
    {
      i != current && tasks[i].stack == null
    }

    ghost function Arrays(): set<array?<Value>>
      reads this`tasks, this`current, this`stack, tasks
    {
      {stack} + set i | 0 <= i < |tasks| && i != current && tasks[i].stack != null :: tasks[i].stack
    }

    // A stack that is there: not freed, and holding these values.
    ghost predicate Holds(a: array<Value>, count: nat, values: seq<Value>)
      reads this`freed, a
    {
      a !in freed && 0 < a.Length && count <= a.Length && a[..count] == values
    }

    // The VM as if each task simply owned its stack: view[i] is task i's.  Their
    // arrays are apart, and none of them is freed; a retired task has none.  Of the
    // running task nothing is said about the Task's own fields.
    ghost predicate Shows(view: seq<seq<Value>>)
      reads this`tasks, this`current, this`stack, this`stackCount, this`freed, tasks, Arrays()
    {
      && current < |tasks| == |view|
      && (forall i, j :: 0 <= i < j < |tasks| ==> tasks[i] != tasks[j])
      && (forall i, j :: 0 <= i < j < |tasks| && i != current && j != current && tasks[i].stack != null ==>
           tasks[i].stack != tasks[j].stack)
      && Holds(stack, stackCount, view[current])
      && (forall i :: 0 <= i < |tasks| && i != current ==>
           if tasks[i].stack == null then view[i] == []
           else tasks[i].stack != stack && Holds(tasks[i].stack, tasks[i].stackCount, view[i]))
    }

    constructor (context: Context)
      ensures Shows([[]]) && current == 0 && this.context == context && |tasks| == 1 && !tasks[0].done
      ensures fresh(tasks[0]) && fresh(stack)
    {
      var t := new Task([], context);
      tasks, current := [t], 0;
      stack, stackCount, this.context := t.stack, t.stackCount, context;
      freed := {};
    }

    // The stack is full: it moves to an array twice as long, and the old one,
    // which the running Task may still point to, is freed.
    method Grow(ghost view: seq<seq<Value>>)
      requires Shows(view)
      modifies this`stack, this`freed
      ensures Shows(view) && fresh(stack) && stackCount < stack.Length
      ensures old(stack) in freed
    {
      var grown := TwiceAsLong(stack, stackCount);
      assert forall i :: 0 <= i < |tasks| && i != current && tasks[i].stack != null ==>
        Holds(tasks[i].stack, tasks[i].stackCount, view[i]);
      freed := freed + {stack};
      stack := grown;
    }

    static method TwiceAsLong(a: array<Value>, count: nat) returns (grown: array<Value>)
      requires count <= a.Length
      ensures fresh(grown) && grown.Length == 2 * a.Length && grown[..count] == a[..count]
    {
      grown := new Value[a.Length * 2](_ => GHOST);
      forall k | 0 <= k < count { grown[k] := a[k]; }
    }

    method Push(v: Value, ghost view: seq<seq<Value>>)
      requires Shows(view)
      modifies this`stack, this`freed, this`stackCount, stack
      ensures Shows(view[current := view[current] + [v]])
      ensures stack == old(stack) || fresh(stack)
    {
      if stackCount == stack.Length {
        Grow(view);
      }
      label Room:
      stack[stackCount] := v;
      stackCount := stackCount + 1;
      assert stack[..stackCount] == old@Room(stack[..stackCount]) + [v];
    }

    method Pop(ghost view: seq<seq<Value>>) returns (v: Value)
      requires Shows(view) && view[current] != []
      modifies this`stackCount
      ensures v == view[current][|view[current]| - 1]
      ensures Shows(view[current := view[current][..|view[current]| - 1]])
    {
      stackCount := stackCount - 1;
      v := stack[stackCount];
    }

    // A local variable of the running task.
    method SetLocal(slot: nat, v: Value, ghost view: seq<seq<Value>>)
      requires Shows(view) && slot < |view[current]|
      modifies stack
      ensures Shows(view[current := view[current][slot := v]])
    {
      stack[slot] := v;
    }

    // task_save
    method Save(t: Task)
      modifies t`stack, t`stackCount, t`context
      ensures t.stack == stack && t.stackCount == stackCount && t.context == context
    {
      t.stack, t.stackCount, t.context := stack, stackCount, context;
    }

    // task_restore
    method Restore(t: Task)
      requires t.stack != null
      modifies this`stack, this`stackCount, this`context
      ensures stack == t.stack && stackCount == t.stackCount && context == t.context
    {
      stack, stackCount, context := t.stack, t.stackCount, t.context;
    }

    // vm_task_switch: nobody's stack is any different, nor anything else that is a
    // task's own.
    method SwitchTo(to: nat, ghost view: seq<seq<Value>>)
      requires Shows(view) && to < |tasks| && !Gone(to)
      modifies this`stack, this`stackCount, this`context, this`current, tasks[current]
      ensures Shows(view) && current == to && tasks == old(tasks) && freed == old(freed)
      ensures forall i :: 0 <= i < |tasks| ==> ContextOf(i) == old(ContextOf(i)) && Gone(i) == old(Gone(i))
      ensures forall i :: 0 <= i < |tasks| ==> tasks[i].done == old(tasks[i].done)
      ensures forall a :: a in Arrays() ==> a in old(Arrays())
    {
      hide Holds;
      if to == current {
        return;
      }
      Save(tasks[current]);
      Restore(tasks[to]);
      current := to;
    }

    // A new task, with the arguments of its call on its stack.
    method Spawn(args: seq<Value>, ghost view: seq<seq<Value>>)
      requires Shows(view)
      modifies this`tasks
      ensures Shows(view + [args])
      ensures |tasks| == |old(tasks)| + 1 && tasks[..|old(tasks)|] == old(tasks)
      ensures fresh(tasks[|old(tasks)|]) && tasks[|old(tasks)|].stack != null && fresh(tasks[|old(tasks)|].stack)
      ensures !tasks[|old(tasks)|].done
      ensures ContextOf(|old(tasks)|) == FirstContext(context.unit, context.currentModuleName)
    {
      var t := new Task(args, FirstContext(context.unit, context.currentModuleName));
      tasks := tasks + [t];
    }

    // ----- upvalues -----

    // live_stack: the VM's own array while the upvalue's task is running, and
    // the Task's otherwise.
    method LiveStack(uv: Upvalue, ghost view: seq<seq<Value>>) returns (a: array<Value>)
      requires Shows(view) && uv.task < |tasks| && !Gone(uv.task)
      ensures a == Live(uv.task) && a !in freed && Height(uv.task) <= a.Length && a[..Height(uv.task)] == view[uv.task]
    {
      a := if uv.task == current then stack else tasks[uv.task].stack;
    }

    method Get(uv: Upvalue, ghost view: seq<seq<Value>>) returns (v: Value)
      requires Shows(view) && Open(uv, view)
      ensures v == Reading(uv, view)
    {
      if uv.closed {
        return uv.closedValue;
      }
      var a := LiveStack(uv, view);
      assert a[uv.slot] == a[..Height(uv.task)][uv.slot];
      v := a[uv.slot];
    }

    // Writes the upvalue's own task's slot, whichever task is running.
    method Set(uv: Upvalue, v: Value, ghost view: seq<seq<Value>>)
      requires Shows(view) && Open(uv, view)
      modifies uv`closedValue, Arrays()
      ensures !uv.closed ==> uv.closedValue == old(uv.closedValue)
      ensures Shows(Written(uv, v, view)) && Open(uv, Written(uv, v, view)) && Reading(uv, Written(uv, v, view)) == v
    {
      if uv.closed {
        uv.closedValue := v;
      } else {
        var a := LiveStack(uv, view);
        assert a in Arrays();
        a[uv.slot] := v;
        assert a[..Height(uv.task)] == view[uv.task][uv.slot := v];
      }
    }

    // It keeps what it would have read, whatever happens to the stack.
    method Close(uv: Upvalue, ghost view: seq<seq<Value>>)
      requires Shows(view) && Open(uv, view) && !uv.closed
      modifies uv
      ensures uv.closed && uv.closedValue == old(Reading(uv, view)) && Shows(view)
    {
      var a := LiveStack(uv, view);
      assert a[uv.slot] == a[..Height(uv.task)][uv.slot];
      uv.closedValue := a[uv.slot];
      uv.closed := true;
    }

    // capture_upvalue: the open upvalue there is for the slot, or a new one.
    method Capture(slot: nat, ghost uvs: seq<Upvalue>) returns (uv: Upvalue)
      requires Listed(context, current, uvs, context.frames)
      modifies this`context
      ensures uv.task == current && uv.slot == slot && !uv.closed
      ensures if OpenAt(uvs, current, slot) then uv in uvs && context == old(context)
        else fresh(uv) && context.frames == old(context.frames) && Listed(context, current, uvs + [uv], context.frames)
    {
      var list := context.openUpvalues;
      for i := 0 to |list|
        invariant forall k :: 0 <= k < i ==> list[k].closed || list[k].slot != slot
      {
        if !list[i].closed && list[i].slot == slot {
          assert list[i] in list;
          return list[i];
        }
      }
      uv := new Upvalue(current, slot);
      var capacity := context.openUpvalueCapacity;
      if |list| == capacity {
        capacity := capacity * 2;
      }
      context := context.(openUpvalues := list + [uv], openUpvalueCapacity := capacity);
    }

    // close_upvalues_from: the running task's, for its slots from minSlot on.
    method CloseFrom(minSlot: nat, uvs: seq<Upvalue>, ghost view: seq<seq<Value>>)
      requires Shows(view) && Listed(context, current, uvs, context.frames)
      requires forall u :: u in uvs && u.task == current ==> Open(u, view)
      modifies this`context, uvs
      ensures Shows(view) && context.frames == old(context.frames) && Listed(context, current, uvs, context.frames)
      ensures forall u :: u in uvs ==>
        if !old(u.closed) && u.task == current && u.slot >= minSlot
        then u.closed && u.closedValue == InSlot(view, current, u.slot)
        else u.closed == old(u.closed) && u.closedValue == old(u.closedValue)
    {
      hide Shows, InSlot;
      var list := context.openUpvalues;
      var kept: seq<Upvalue> := [];
      for i := 0 to |list|
        invariant Shows(view) && context == old(context)
        invariant forall u :: u in uvs ==>
          if !old(u.closed) && u.slot >= minSlot && u in list[..i]
          then u.closed && u.closedValue == InSlot(view, current, u.slot)
          else u.closed == old(u.closed) && u.closedValue == old(u.closedValue)
        invariant NoRepeats(kept)
        invariant forall u :: u in kept <==> u in list[..i] && (old(u.closed) || u.slot < minSlot)
      {
        assert list[..i + 1] == list[..i] + [list[i]] && list[i] !in list[..i] && list[i] in list;
        var uv := list[i];
        if !uv.closed && uv.slot >= minSlot {
          Close(uv, view);
        } else {
          kept := kept + [uv];
        }
      }
      assert list[..|list|] == list;
      KeepOpen(kept, view);
    }

    method KeepOpen(kept: seq<Upvalue>, ghost view: seq<seq<Value>>)
      requires Shows(view)
      modifies this`context
      ensures Shows(view) && context == old(context).(openUpvalues := kept)
    {
      context := context.(openUpvalues := kept);
    }

    // The stack is cut to `depth`, after what was captured above has been closed: by
    // CLOSE_UPVAL at the top, by a handler at its depth, and when a frame is left.
    method Cut(depth: nat, uvs: seq<Upvalue>, ghost view: seq<seq<Value>>)
      requires Shows(view) && Listed(context, current, uvs, context.frames) && depth <= |view[current]|
      requires forall u :: u in uvs && u.task == current ==> Open(u, view)
      modifies this`context, this`stackCount, uvs
      ensures Shows(view[current := view[current][..depth]])
      ensures context.frames == old(context.frames) && Listed(context, current, uvs, context.frames)
      ensures forall u :: u in uvs ==>
        if !old(u.closed) && u.task == current && u.slot >= depth
        then u.closed && u.closedValue == InSlot(view, current, u.slot)
        else u.closed == old(u.closed) && u.closedValue == old(u.closedValue)
    {
      CloseFrom(depth, uvs, view);
      stackCount := depth;
    }

    // push_frame
    method Call(base: nat, ghost view: seq<seq<Value>>)
      requires Shows(view)
      modifies this`context
      ensures Shows(view) && context.openUpvalues == old(context.openUpvalues)
      ensures context.frames == old(context.frames) + [base]
    {
      var capacity := context.frameCapacity;
      if |context.frames| == capacity {
        capacity := capacity * 2;
      }
      context := context.(frames := context.frames + [base], frameCapacity := capacity);
    }

    // frame_destroy
    method DropFrame(n: nat, ghost view: seq<seq<Value>>)
      requires Shows(view) && n <= |context.frames|
      modifies this`context
      ensures Shows(view) && context == old(context).(frames := old(context.frames)[..n])
    {
      context := context.(frames := context.frames[..n]);
    }

    // The running task's turn was its last.
    method End(t: Task, ghost view: seq<seq<Value>>)
      requires Shows(view) && t == tasks[current]
      modifies t`done
      ensures Shows(view) && t.done
    {
      t.done := true;
    }

    // vm_task_retire
    method Retire(t: Task, ghost i: nat, ghost view: seq<seq<Value>>)
      requires Shows(view) && i < |tasks| && t == tasks[i]
      modifies t`stack, t`stackCount, t`context, this`freed
      ensures i == current || !t.done ==>
        Shows(view) && freed == old(freed) && t.stack == old(t.stack) && t.context == old(t.context)
      ensures i != current && t.done ==>
        Shows(view[i := []]) && Gone(i) && freed == old(freed) + if old(t.stack) != null then {old(t.stack)} else {}
    {
      if t == tasks[current] || !t.done {
        return;
      }
      if t.stack != null {
        freed := freed + {t.stack};
      }
      t.stack, t.stackCount := null, 0;
      t.context := t.context.(frames := [], frameCapacity := 0, openUpvalues := [], openUpvalueCapacity := 0,
                              pendingError := GHOST, unit := 0);
    }
  }

  ghost predicate NoRepeats<T>(s: seq<T>) {
    forall i, j :: 0 <= i < j < |s| ==> s[i] != s[j]
  }

  // What is in a slot, if it is there.
  function InSlot(view: seq<seq<Value>>, task: nat, slot: nat): Value {
    if task < |view| && slot < |view[task]| then view[task][slot] else GHOST
  }

  // An upvalue that is closed, or whose slot is there.
  ghost predicate Open(uv: Upvalue, view: seq<seq<Value>>)
    reads uv
  {
    uv.closed || (uv.task < |view| && uv.slot < |view[uv.task]|)
  }

  // What an upvalue reads if each task simply owns its stack.
  ghost function Reading(uv: Upvalue, view: seq<seq<Value>>): Value
    requires Open(uv, view)
    reads uv
  {
    if uv.closed then uv.closedValue else InSlot(view, uv.task, uv.slot)
  }

  ghost function Written(uv: Upvalue, v: Value, view: seq<seq<Value>>): seq<seq<Value>>
    requires Open(uv, view)
    reads uv
  {
    if uv.closed then view else view[uv.task := view[uv.task][uv.slot := v]]
  }

  // ----- whole runs -----

  // What may happen: to the running task's stack and frames, to which task runs, to a
  // task that is over, and to the k-th upvalue captured so far.  CLOSE_UPVAL is a cut at
  // the top; a return is a pop, a leave and a push; an error leaves frame after frame,
  // or cuts to a handler's depth; `dip` ends a task with its frames as they are.
  datatype Op =
    | OpPush(v: Value)
    | OpPop
    | OpSetLocal(slot: nat, v: Value)
    | OpSwitch(to: nat)
    | OpSpawn(args: seq<Value>)
    | OpCapture(slot: nat)
    | OpGet(k: nat)
    | OpSet(k: nat, v: Value)
    | OpCut(depth: nat)
    | OpCall(base: nat)
    | OpLeave
    | OpEnd(dip: bool)
    | OpRetire(i: nat)

  // The same, if each task simply owned its stack.
  datatype Cell = Cell(task: nat, slot: nat, closed: bool, value: Value)

  datatype Plain = Plain(
    view: seq<seq<Value>>, current: nat, cells: seq<Cell>, frames: seq<seq<nat>>,
    done: set<nat>, dipped: set<nat>, gone: set<nat>)

  // The entry task, about to run.
  const START: Plain := Plain([[]], 0, [], [[0]], {}, {}, {})

  function Mine(s: Plain): seq<Value>
    requires s.current < |s.view|
  {
    s.view[s.current]
  }

  // An open upvalue of this task, at or above a slot.
  predicate OpenFrom(c: Cell, task: nat, slot: nat) {
    !c.closed && c.task == task && c.slot >= slot
  }

  predicate Captured(s: Plain, slot: nat) {
    exists k :: 0 <= k < |s.cells| && OpenFrom(s.cells[k], s.current, slot) && s.cells[k].slot == slot
  }

  predicate Enabled(s: Plain, op: Op) {
    && s.current < |s.view| == |s.frames| && (s.current in s.done ==> op.OpSwitch? || op.OpRetire?)
    && match op
       case OpPush(_) => true
       case OpPop => Mine(s) != [] && forall k :: 0 <= k < |s.cells| ==> !OpenFrom(s.cells[k], s.current, |Mine(s)| - 1)
       case OpSetLocal(slot, _) => slot < |Mine(s)|
       case OpSwitch(to) => to < |s.view| && (to == s.current || to !in s.done)
       case OpSpawn(_) => true
       case OpCapture(slot) => s.frames[s.current] != [] && slot < |Mine(s)|
       case OpGet(k) => k < |s.cells| && There(s, s.cells[k])
       case OpSet(k, _) => k < |s.cells| && There(s, s.cells[k])
       case OpCut(depth) => depth <= |Mine(s)|
       case OpCall(base) => s.frames[s.current] != [] && base <= |Mine(s)|
       case OpLeave => s.frames[s.current] != [] && Base(s) <= |Mine(s)|
       case OpEnd(dip) => dip || s.frames[s.current] == []
       case OpRetire(i) => i < |s.view|
  }

  function Base(s: Plain): nat
    requires s.current < |s.frames| && s.frames[s.current] != []
  {
    s.frames[s.current][|s.frames[s.current]| - 1]
  }

  predicate There(s: Plain, c: Cell) {
    c.closed || (c.task < |s.view| && c.slot < |s.view[c.task]|)
  }

  function ReadCell(s: Plain, c: Cell): Value {
    if c.closed then c.value else InSlot(s.view, c.task, c.slot)
  }

  // The running task's upvalues from a slot on are closed, and its stack cut there.
  function Shut(s: Plain, c: Cell, depth: nat): Cell {
    if OpenFrom(c, s.current, depth) then c.(closed := true, value := ReadCell(s, c)) else c
  }

  function CutTo(s: Plain, depth: nat): Plain
    requires s.current < |s.view| && depth <= |Mine(s)|
  {
    s.(cells := seq(|s.cells|, k requires 0 <= k < |s.cells| => Shut(s, s.cells[k], depth)),
       view := s.view[s.current := Mine(s)[..depth]])
  }

  function Next(s: Plain, op: Op): Plain
    requires Enabled(s, op)
  {
    match op
    case OpPush(v) => s.(view := s.view[s.current := Mine(s) + [v]])
    case OpPop => s.(view := s.view[s.current := Mine(s)[..|Mine(s)| - 1]])
    case OpSetLocal(slot, v) => s.(view := s.view[s.current := Mine(s)[slot := v]])
    case OpSwitch(to) => s.(current := to)
    case OpSpawn(args) => s.(view := s.view + [args], frames := s.frames + [[0]])
    case OpCapture(slot) =>
      if Captured(s, slot) then s else s.(cells := s.cells + [Cell(s.current, slot, false, GHOST)])
    case OpGet(_) => s
    case OpSet(k, v) =>
      var c := s.cells[k];
      if c.closed then s.(cells := s.cells[k := c.(value := v)])
      else s.(view := s.view[c.task := s.view[c.task][c.slot := v]])
    case OpCut(depth) => CutTo(s, depth)
    case OpCall(base) => s.(frames := s.frames[s.current := s.frames[s.current] + [base]])
    case OpLeave =>
      var fs := s.frames[s.current];
      CutTo(s, Base(s)).(frames := s.frames[s.current := fs[..|fs| - 1]])
    case OpEnd(dip) => s.(done := s.done + {s.current}, dipped := if dip then s.dipped + {s.current} else s.dipped)
    case OpRetire(i) =>
      if i == s.current || i !in s.done then s
      else s.(view := s.view[i := []], frames := s.frames[i := []], gone := s.gone + {i})
  }

  // What the program sees of it.
  function Seen(s: Plain, op: Op): seq<Value>
    requires Enabled(s, op)
  {
    match op
    case OpPop => [Mine(s)[|Mine(s)| - 1]]
    case OpGet(k) => [ReadCell(s, s.cells[k])]
    case _ => []
  }

  predicate CanRun(s: Plain, ops: seq<Op>)
    decreases |ops|
  {
    ops == [] || (Enabled(s, ops[0]) && CanRun(Next(s, ops[0]), ops[1..]))
  }

  function AllSeen(s: Plain, ops: seq<Op>): seq<Value>
    requires CanRun(s, ops)
    decreases |ops|
  {
    if ops == [] then [] else Seen(s, ops[0]) + AllSeen(Next(s, ops[0]), ops[1..])
  }

  function After(s: Plain, ops: seq<Op>): Plain
    requires CanRun(s, ops)
    decreases |ops|
  {
    if ops == [] then s else After(Next(s, ops[0]), ops[1..])
  }

  // ----- what every run keeps -----

  // An open upvalue's slot is there, and so is a frame of its task, as long as the task
  // has its stack; without one the task must have ended by dip.
  ghost predicate CellSound(s: Plain, c: Cell) {
    c.closed || (c.task < |s.view| == |s.frames| &&
      if c.task in s.gone then c.task in s.dipped else c.slot < |s.view[c.task]| && s.frames[c.task] != [])
  }

  ghost predicate TaskSound(s: Plain, i: nat) {
    && i < |s.view| == |s.frames| && (s.frames[i] != [] ==> s.frames[i][0] == 0)
    && (i in s.done && i !in s.dipped ==> s.frames[i] == []) && (i in s.gone ==> i in s.done && s.view[i] == [])
  }

  ghost predicate Sound(s: Plain) {
    && s.current < |s.view| == |s.frames| && s.current !in s.gone && s.gone <= s.done
    && (forall i :: 0 <= i < |s.view| ==> TaskSound(s, i)) && (forall i :: i in s.done ==> i < |s.view|)
    && forall k :: 0 <= k < |s.cells| ==> CellSound(s, s.cells[k])
  }

  lemma NextTask(s: Plain, op: Op, i: nat)
    requires Sound(s) && Enabled(s, op) && i < |Next(s, op).view|
    ensures TaskSound(Next(s, op), i)
  {
    if i < |s.view| {
      assert TaskSound(s, i);
    }
  }

  lemma NextCell(s: Plain, op: Op, k: nat)
    requires Sound(s) && Enabled(s, op) && k < |Next(s, op).cells|
    ensures CellSound(Next(s, op), Next(s, op).cells[k])
  {
    if k < |s.cells| {
      assert CellSound(s, s.cells[k]);
      assert s.cells[k].task < |s.view| ==> TaskSound(s, s.cells[k].task);
    }
  }

  lemma NextSound(s: Plain, op: Op)
    requires Sound(s) && Enabled(s, op)
    ensures Sound(Next(s, op))
  {
    var s' := Next(s, op);
    forall i | 0 <= i < |s'.view| ensures TaskSound(s', i) {
      NextTask(s, op, i);
    }
    forall k | 0 <= k < |s'.cells| ensures CellSound(s', s'.cells[k]) {
      NextCell(s, op, k);
    }
  }

  lemma {:induction false} RunSound(s: Plain, ops: seq<Op>)
    requires Sound(s) && CanRun(s, ops)
    ensures Sound(After(s, ops))
    decreases |ops|
  {
    if ops != [] {
      NextSound(s, ops[0]);
      RunSound(Next(s, ops[0]), ops[1..]);
    }
  }

  // In a run from the start every upvalue of a task that did not end by dip is closed
  // before the task's stack is freed; without dip every upvalue can always be read.
  lemma ClosedBeforeFreed(ops: seq<Op>, k: nat)
    requires CanRun(START, ops) && k < |After(START, ops).cells|
    ensures var s := After(START, ops); var c := s.cells[k];
      && (c.task in s.gone && !c.closed ==> c.task in s.dipped)
      && (There(s, c) <==> c.closed || c.task !in s.gone)
      && (s.dipped == {} ==> There(s, c))
  {
    hide After, CanRun;
    RunSound(START, ops);
    var s := After(START, ops);
    assert CellSound(s, s.cells[k]);
    assert s.cells[k].task < |s.view| ==> TaskSound(s, s.cells[k].task);
  }

  // Once a task is over its upvalues are open or closed for good.
  lemma OverForGood(s: Plain, op: Op, k: nat)
    requires Sound(s) && Enabled(s, op) && k < |s.cells| && s.cells[k].task in s.done
    ensures k < |Next(s, op).cells| && Next(s, op).cells[k].closed == s.cells[k].closed
  {
  }

  lemma {:induction false} RunOn(s: Plain, a: seq<Op>, b: seq<Op>)
    requires CanRun(s, a) && CanRun(After(s, a), b)
    ensures CanRun(s, a + b) && After(s, a + b) == After(After(s, a), b)
    decreases |a|
  {
    if a == [] {
      assert a + b == b;
    } else {
      RunOn(Next(s, a[0]), a[1..], b);
      assert (a + b)[1..] == a[1..] + b;
    }
  }

  // A task takes an upvalue for its only slot, dips, and is retired.
  const CAPTURED: Plain := Plain([[], [7]], 1, [Cell(1, 0, false, GHOST)], [[0], [0]], {}, {}, {})
  const RETIRED: Plain := Plain([[], []], 0, [Cell(1, 0, false, GHOST)], [[0], []], {1}, {1}, {1})

  lemma StartToCaptured()
    ensures CanRun(START, [OpSpawn([7]), OpSwitch(1), OpCapture(0)])
    ensures After(START, [OpSpawn([7]), OpSwitch(1), OpCapture(0)]) == CAPTURED
  {
  }

  lemma CapturedToRetired()
    ensures CanRun(CAPTURED, [OpEnd(true), OpSwitch(0), OpRetire(1)])
    ensures After(CAPTURED, [OpEnd(true), OpSwitch(0), OpRetire(1)]) == RETIRED
  {
    assert [[], [7]][1 := []] == [[], []];
    assert [[0], [0]][1 := []] == [[0], []];
  }

  // So a task that dips with a local captured leaves an upvalue to a stack that is
  // freed.
  lemma DipLeavesOpen()
    ensures var ops := [OpSpawn([7]), OpSwitch(1), OpCapture(0)] + [OpEnd(true), OpSwitch(0), OpRetire(1)];
      CanRun(START, ops) && var s := After(START, ops);
        s.gone == {1} && |s.cells| == 1 && !s.cells[0].closed && s.cells[0].task == 1 && !There(s, s.cells[0])
  {
    var a, b := [OpSpawn([7]), OpSwitch(1), OpCapture(0)], [OpEnd(true), OpSwitch(0), OpRetire(1)];
    StartToCaptured();
    CapturedToRetired();
    hide CanRun, After;
    RunOn(START, a, b);
  }

  // ----- the real thing does the same -----

  // The k-th upvalue is the k-th cell.
  ghost predicate Match(uvs: seq<Upvalue>, cells: seq<Cell>)
    reads uvs
  {
    && |uvs| == |cells| && NoRepeats(uvs)
    && forall k :: 0 <= k < |uvs| ==> Same(uvs[k], cells[k])
  }

  ghost predicate Same(u: Upvalue, c: Cell)
    reads u
  {
    && u.task == c.task && u.slot == c.slot && u.closed == c.closed
    && (u.closed ==> u.closedValue == c.value)
  }

  ghost predicate OpenAt(uvs: seq<Upvalue>, task: nat, slot: nat)
    reads uvs
  {
    exists u :: u in uvs && !u.closed && u.task == task && u.slot == slot
  }

  // A task's frames, and a list of its own upvalues with all that are open.
  ghost predicate Listed(c: Context, i: nat, uvs: seq<Upvalue>, frames: seq<nat>)
    reads uvs
  {
    && c.frames == frames && NoRepeats(c.openUpvalues)
    && (forall u :: u in c.openUpvalues ==> u in uvs && u.task == i)
    && forall u :: u in uvs && u.task == i && !u.closed ==> u in c.openUpvalues
  }

  ghost predicate TaskMirrored(vm: Vm, uvs: seq<Upvalue>, s: Plain, i: nat)
    requires i < |vm.tasks| == |s.frames|
    reads vm, vm.tasks, uvs
  {
    && (i in s.gone <==> vm.Gone(i)) && (i in s.done <==> vm.tasks[i].done)
    && (i !in s.gone ==> Listed(vm.ContextOf(i), i, uvs, s.frames[i]))
  }

  ghost predicate Mirrors(vm: Vm, uvs: seq<Upvalue>, s: Plain)
    reads vm, vm.tasks, vm.Arrays(), uvs
  {
    && vm.Shows(s.view) && vm.current == s.current && |s.frames| == |vm.tasks| && Match(uvs, s.cells)
    && forall i :: 0 <= i < |vm.tasks| ==> TaskMirrored(vm, uvs, s, i)
  }

  // All that a run may change.
  ghost function Footprint(vm: Vm, uvs: seq<Upvalue>): set<object>
    reads vm, vm.tasks
  {
    var self: set<object> := {vm};
    self + (set t: object | t in vm.tasks) + (set a: object | a in vm.Arrays()) + (set u: object | u in uvs)
  }

  // One operation on the real thing does what it does to the plain one: on the
  // running task's stack,
  method DoPush(vm: Vm, ghost uvs: seq<Upvalue>, op: Op, ghost s: Plain)
    requires Mirrors(vm, uvs, s) && Enabled(s, op) && op.OpPush?
    modifies vm`stack, vm`freed, vm`stackCount, vm.stack
    ensures Mirrors(vm, uvs, Next(s, op)) && Seen(s, op) == []
    ensures vm.stack == old(vm.stack) || fresh(vm.stack)
  {
    vm.Push(op.v, s.view);
    forall i | 0 <= i < |vm.tasks| ensures TaskMirrored(vm, uvs, Next(s, op), i) {
      assert old(TaskMirrored(vm, uvs, s, i));
    }
  }

  method DoPop(vm: Vm, ghost uvs: seq<Upvalue>, op: Op, ghost s: Plain) returns (seen: seq<Value>)
    requires Mirrors(vm, uvs, s) && Enabled(s, op) && op.OpPop?
    modifies vm`stackCount
    ensures Mirrors(vm, uvs, Next(s, op)) && seen == Seen(s, op)
  {
    var v := vm.Pop(s.view);
    seen := [v];
    forall i | 0 <= i < |vm.tasks| ensures TaskMirrored(vm, uvs, Next(s, op), i) {
      assert old(TaskMirrored(vm, uvs, s, i));
    }
  }

  method DoSetLocal(vm: Vm, ghost uvs: seq<Upvalue>, op: Op, ghost s: Plain)
    requires Mirrors(vm, uvs, s) && Enabled(s, op) && op.OpSetLocal?
    modifies vm.stack
    ensures Mirrors(vm, uvs, Next(s, op)) && Seen(s, op) == []
  {
    vm.SetLocal(op.slot, op.v, s.view);
    forall i | 0 <= i < |vm.tasks| ensures TaskMirrored(vm, uvs, Next(s, op), i) {
      assert old(TaskMirrored(vm, uvs, s, i));
    }
  }

  // A task that is not there yet has no upvalues.
  lemma NoneOfItsOwn(uvs: seq<Upvalue>, s: Plain, i: nat)
    requires Match(uvs, s.cells) && Sound(s) && i >= |s.view|
    ensures i !in s.gone && i !in s.done && forall u :: u in uvs && !u.closed ==> u.task != i
  {
    forall u | u in uvs && !u.closed ensures u.task != i {
      var k :| 0 <= k < |uvs| && uvs[k] == u;
      assert Same(uvs[k], s.cells[k]) && CellSound(s, s.cells[k]);
    }
  }

  // with which task runs,
  method DoSwitch(vm: Vm, ghost uvs: seq<Upvalue>, op: Op, ghost s: Plain)
    requires Mirrors(vm, uvs, s) && Sound(s) && Enabled(s, op) && op.OpSwitch?
    modifies vm`stack, vm`stackCount, vm`context, vm`current, vm.tasks[vm.current]
    ensures Mirrors(vm, uvs, Next(s, op)) && Seen(s, op) == []
    ensures vm.tasks == old(vm.tasks) && forall a :: a in vm.Arrays() ==> a in old(vm.Arrays())
  {
    assert TaskMirrored(vm, uvs, s, op.to);
    vm.SwitchTo(op.to, s.view);
    forall i | 0 <= i < |vm.tasks| ensures TaskMirrored(vm, uvs, Next(s, op), i) {
      assert old(TaskMirrored(vm, uvs, s, i));
    }
  }

  // with a new task,
  method DoSpawn(vm: Vm, ghost uvs: seq<Upvalue>, op: Op, ghost s: Plain)
    requires Mirrors(vm, uvs, s) && Sound(s) && Enabled(s, op) && op.OpSpawn?
    modifies vm`tasks
    ensures Mirrors(vm, uvs, Next(s, op)) && Seen(s, op) == []
    ensures forall t :: t in vm.tasks ==> t in old(vm.tasks) || fresh(t)
    ensures forall a :: a in vm.Arrays() ==> a in old(vm.Arrays()) || fresh(a)
  {
    vm.Spawn(op.args, s.view);
    assert forall i :: 0 <= i < |old(vm.tasks)| ==> vm.tasks[i] == vm.tasks[..|old(vm.tasks)|][i];
    forall i | 0 <= i < |vm.tasks| ensures TaskMirrored(vm, uvs, Next(s, op), i) {
      if i < |old(vm.tasks)| {
        assert old(TaskMirrored(vm, uvs, s, i));
      } else {
        NoneOfItsOwn(uvs, s, i);
      }
    }
  }

  // The running task's open upvalues are listed, and their slots are there.
  lemma AllOpen(vm: Vm, uvs: seq<Upvalue>, s: Plain)
    requires Mirrors(vm, uvs, s) && Sound(s)
    ensures Listed(vm.context, vm.current, uvs, vm.context.frames) && vm.context.frames == s.frames[vm.current]
    ensures forall u :: u in uvs && u.task == vm.current ==> Open(u, s.view)
  {
    assert TaskMirrored(vm, uvs, s, vm.current);
    forall u | u in uvs && u.task == vm.current ensures Open(u, s.view) {
      var k :| 0 <= k < |uvs| && uvs[k] == u;
      assert Same(uvs[k], s.cells[k]) && CellSound(s, s.cells[k]);
    }
  }

  lemma CapturedIff(uvs: seq<Upvalue>, s: Plain, slot: nat)
    requires Match(uvs, s.cells)
    ensures Captured(s, slot) <==> OpenAt(uvs, s.current, slot)
  {
    if Captured(s, slot) {
      var k :| 0 <= k < |s.cells| && OpenFrom(s.cells[k], s.current, slot) && s.cells[k].slot == slot;
      assert Same(uvs[k], s.cells[k]) && uvs[k] in uvs;
    }
    if OpenAt(uvs, s.current, slot) {
      var u :| u in uvs && !u.closed && u.task == s.current && u.slot == slot;
      var k :| 0 <= k < |uvs| && uvs[k] == u;
      assert Same(uvs[k], s.cells[k]) && OpenFrom(s.cells[k], s.current, slot);
    }
  }

  // with an upvalue for a slot,
  method DoCapture(vm: Vm, uvs: seq<Upvalue>, op: Op, ghost s: Plain) returns (uvs': seq<Upvalue>)
    requires Mirrors(vm, uvs, s) && Sound(s) && Enabled(s, op) && op.OpCapture?
    modifies vm`context
    ensures Mirrors(vm, uvs', Next(s, op)) && Seen(s, op) == []
    ensures forall u :: u in uvs' ==> u in uvs || fresh(u)
  {
    AllOpen(vm, uvs, s);
    CapturedIff(uvs, s, op.slot);
    var uv := vm.Capture(op.slot, uvs);
    hide Captured, OpenAt;
    if uv in uvs {
      return uvs;
    }
    uvs' := uvs + [uv];
    forall i | 0 <= i < |vm.tasks| ensures TaskMirrored(vm, uvs', Next(s, op), i) {
      assert old(TaskMirrored(vm, uvs, s, i));
    }
    assert forall k :: 0 <= k < |uvs| ==> Same(uvs'[k], s.cells[k]);
  }

  // with reading an upvalue,
  method DoGet(vm: Vm, uvs: seq<Upvalue>, op: Op, ghost s: Plain) returns (seen: seq<Value>)
    requires Mirrors(vm, uvs, s) && Enabled(s, op) && op.OpGet?
    ensures Mirrors(vm, uvs, Next(s, op)) && seen == Seen(s, op)
  {
    assert Same(uvs[op.k], s.cells[op.k]);
    var v := vm.Get(uvs[op.k], s.view);
    seen := [v];
  }

  // with writing one,
  method DoSet(vm: Vm, uvs: seq<Upvalue>, op: Op, ghost s: Plain)
    requires Mirrors(vm, uvs, s) && Enabled(s, op) && op.OpSet?
    modifies vm.Arrays(), uvs
    ensures Mirrors(vm, uvs, Next(s, op)) && Seen(s, op) == []
  {
    assert Same(uvs[op.k], s.cells[op.k]);
    vm.Set(uvs[op.k], op.v, s.view);
    forall i | 0 <= i < |vm.tasks| ensures TaskMirrored(vm, uvs, Next(s, op), i) {
      assert old(TaskMirrored(vm, uvs, s, i));
    }
  }

  // with cutting the stack,
  method DoCut(vm: Vm, uvs: seq<Upvalue>, op: Op, ghost s: Plain)
    requires Mirrors(vm, uvs, s) && Sound(s) && Enabled(s, op) && op.OpCut?
    modifies vm`context, vm`stackCount, uvs
    ensures Mirrors(vm, uvs, Next(s, op)) && Seen(s, op) == []
  {
    AllOpen(vm, uvs, s);
    vm.Cut(op.depth, uvs, s.view);
    hide Open, InSlot;
    forall k | 0 <= k < |uvs| ensures Same(uvs[k], Next(s, op).cells[k]) {
      assert old(Same(uvs[k], s.cells[k])) && uvs[k] in uvs;
    }
    forall i | 0 <= i < |vm.tasks| ensures TaskMirrored(vm, uvs, Next(s, op), i) {
      assert old(TaskMirrored(vm, uvs, s, i));
    }
  }

  // with leaving a frame,
  method DoLeave(vm: Vm, uvs: seq<Upvalue>, op: Op, ghost s: Plain)
    requires Mirrors(vm, uvs, s) && Sound(s) && Enabled(s, op) && op.OpLeave?
    modifies vm`context, vm`stackCount, uvs
    ensures Mirrors(vm, uvs, Next(s, op)) && Seen(s, op) == []
  {
    AllOpen(vm, uvs, s);
    var n := |vm.context.frames| - 1;
    var cut := OpCut(vm.context.frames[n]);
    DoCut(vm, uvs, cut, s);
    NextSound(s, cut);
    DoDrop(vm, uvs, n, Next(s, cut), Next(s, op));
  }

  method DoDrop(vm: Vm, ghost uvs: seq<Upvalue>, n: nat, ghost s: Plain, ghost s': Plain)
    requires Mirrors(vm, uvs, s) && Sound(s) && n <= |s.frames[s.current]|
    requires s' == s.(frames := s.frames[s.current := s.frames[s.current][..n]])
    modifies vm`context
    ensures Mirrors(vm, uvs, s')
  {
    AllOpen(vm, uvs, s);
    vm.DropFrame(n, s.view);
    forall i | 0 <= i < |vm.tasks| ensures TaskMirrored(vm, uvs, s', i) {
      assert old(TaskMirrored(vm, uvs, s, i));
    }
  }

  // with a call, or a task that is over,
  method DoFrame(vm: Vm, uvs: seq<Upvalue>, op: Op, ghost s: Plain)
    requires Mirrors(vm, uvs, s) && Sound(s) && Enabled(s, op)
    requires op.OpCall? || op.OpEnd?
    modifies vm`context, vm.tasks[vm.current]
    ensures Mirrors(vm, uvs, Next(s, op)) && Seen(s, op) == []
  {
    if op.OpCall? {
      vm.Call(op.base, s.view);
    } else {
      vm.End(vm.tasks[vm.current], s.view);
    }
    forall i | 0 <= i < |vm.tasks| ensures TaskMirrored(vm, uvs, Next(s, op), i) {
      assert old(TaskMirrored(vm, uvs, s, i));
    }
  }

  // and with one whose stack goes.
  method DoRetire(vm: Vm, uvs: seq<Upvalue>, op: Op, ghost s: Plain)
    requires Mirrors(vm, uvs, s) && Sound(s) && Enabled(s, op) && op.OpRetire?
    modifies vm.tasks[op.i], vm`freed
    ensures Mirrors(vm, uvs, Next(s, op)) && Seen(s, op) == []
    ensures forall a :: a in vm.Arrays() ==> a in old(vm.Arrays())
  {
    assert TaskMirrored(vm, uvs, s, op.i);
    vm.Retire(vm.tasks[op.i], op.i, s.view);
    forall i | 0 <= i < |vm.tasks| ensures TaskMirrored(vm, uvs, Next(s, op), i) {
      assert old(TaskMirrored(vm, uvs, s, i));
    }
  }

  method DoStack(vm: Vm, ghost uvs: seq<Upvalue>, op: Op, ghost s: Plain) returns (seen: seq<Value>)
    requires Mirrors(vm, uvs, s) && Enabled(s, op) && (op.OpPush? || op.OpPop? || op.OpSetLocal?)
    modifies vm`stack, vm`freed, vm`stackCount, vm.stack
    ensures Mirrors(vm, uvs, Next(s, op)) && seen == Seen(s, op)
    ensures vm.stack == old(vm.stack) || fresh(vm.stack)
  {
    hide Next, Seen, Enabled, Mirrors;
    seen := [];
    match op
    case OpPush(_) => DoPush(vm, uvs, op, s);
    case OpPop => seen := DoPop(vm, uvs, op, s);
    case OpSetLocal(_, _) => DoSetLocal(vm, uvs, op, s);
  }

  method DoUpvalue(vm: Vm, uvs: seq<Upvalue>, op: Op, ghost s: Plain) returns (seen: seq<Value>)
    requires Mirrors(vm, uvs, s) && Sound(s) && Enabled(s, op) && (op.OpGet? || op.OpSet? || op.OpCut? || op.OpLeave?)
    modifies vm.Arrays(), vm`context, vm`stackCount, uvs
    ensures Mirrors(vm, uvs, Next(s, op)) && seen == Seen(s, op)
  {
    hide Next, Seen, Enabled, Mirrors, Sound;
    seen := [];
    match op
    case OpGet(_) => seen := DoGet(vm, uvs, op, s);
    case OpSet(_, _) => DoSet(vm, uvs, op, s);
    case OpCut(_) => DoCut(vm, uvs, op, s);
    case OpLeave => DoLeave(vm, uvs, op, s);
  }

  method DoTask(vm: Vm, uvs: seq<Upvalue>, op: Op, ghost s: Plain)
    requires Mirrors(vm, uvs, s) && Sound(s) && Enabled(s, op)
    requires op.OpSwitch? || op.OpSpawn? || op.OpCall? || op.OpEnd? || op.OpRetire?
    modifies vm, vm.tasks
    ensures Mirrors(vm, uvs, Next(s, op)) && Seen(s, op) == []
    ensures forall t :: t in vm.tasks ==> t in old(vm.tasks) || fresh(t)
    ensures forall a :: a in vm.Arrays() ==> a in old(vm.Arrays()) || fresh(a)
  {
    hide Next, Seen, Sound, Match;
    match op
    case OpSwitch(_) => DoSwitch(vm, uvs, op, s);
    case OpSpawn(_) => DoSpawn(vm, uvs, op, s);
    case OpCall(_) => DoFrame(vm, uvs, op, s);
    case OpEnd(_) => DoFrame(vm, uvs, op, s);
    case OpRetire(_) => DoRetire(vm, uvs, op, s);
  }

  method Do(vm: Vm, uvs: seq<Upvalue>, op: Op, ghost s: Plain) returns (seen: seq<Value>, uvs': seq<Upvalue>)
    requires Mirrors(vm, uvs, s) && Sound(s) && Enabled(s, op)
    modifies Footprint(vm, uvs)
    ensures Mirrors(vm, uvs', Next(s, op)) && seen == Seen(s, op)
    ensures fresh(Footprint(vm, uvs') - old(Footprint(vm, uvs)))
  {
    hide Next, Seen, Enabled, Sound, Mirrors;
    seen, uvs' := [], uvs;
    if op.OpPush? || op.OpPop? || op.OpSetLocal? {
      seen := DoStack(vm, uvs, op, s);
    } else if op.OpGet? || op.OpSet? || op.OpCut? || op.OpLeave? {
      seen := DoUpvalue(vm, uvs, op, s);
    } else if op.OpCapture? {
      uvs' := DoCapture(vm, uvs, op, s);
    } else {
      DoTask(vm, uvs, op, s);
    }
  }

  // Across any run, every upvalue reads and writes its own task's slot, or the value it
  // was closed with, as if each task simply owned its stack.
  method Run(vm: Vm, uvs: seq<Upvalue>, ops: seq<Op>, ghost s: Plain) returns (seen: seq<Value>)
    requires Mirrors(vm, uvs, s) && Sound(s) && CanRun(s, ops)
    modifies Footprint(vm, uvs)
    ensures seen == AllSeen(s, ops)
    decreases |ops|
  {
    if |ops| == 0 {
      return [];
    }
    hide Next, Seen, Enabled, Mirrors, Sound;
    NextSound(s, ops[0]);
    var first, uvs' := Do(vm, uvs, ops[0], s);
    var rest := Run(vm, uvs', ops[1..], Next(s, ops[0]));
    seen := first + rest;
  }

  // As it does from the start.
  method RunFromStart(ops: seq<Op>, unit: int, currentModuleName: int) returns (seen: seq<Value>)
    requires CanRun(START, ops)
    ensures seen == AllSeen(START, ops)
  {
    var vm := new Vm(FirstContext(unit, currentModuleName));
    assert TaskMirrored(vm, [], START, 0);
    hide CanRun, AllSeen;
    seen := Run(vm, [], ops, START);
  }
}
