/**
 The task list and the scheduler of kernel/multitasking.c. A task is named by its place in the order of
 creation: the list runs from the newest task to the oldest, so the task after number i is number i - 1.
 */
module Tasks {
  import opened Words

  const WORDS := 0x1_0000_0000

  datatype Record = Record(pid: Word, cpu: Word, context: Word)

  /** `current` is None until the scheduler has chosen its first task; `active` is the active context. */
  datatype State = State(tasks: seq<Record>, current: Option<nat>, flags: Byte, lastPid: Word, active: Word)

  /** `created` is the context that vmm_create_context returns, should it be called. */
  datatype Op = Init(pid: Word, cpu: Word, created: Word) | SetFlags(flags: Byte) | Schedule(cpu: Word)

  function Initial(active: Word): State {
    State([], None, 0, 0, active)
  }

  /** `++last_pid` wraps around like any 32-bit counter. */
  function Following(pid: Word): Word {
    if pid == WORDS - 1 then 0 else pid + 1
  }

  /** The do-not-disturb flag is bit 0. */
  predicate Blocked(flags: Byte) {
    flags % 2 == 1
  }

  function AfterInit(s: State, pid: Word, cpu: Word, created: Word): State {
    var last := if pid == 0 then Following(s.lastPid) else s.lastPid;
    var own := if pid == 0 then last else pid;
    s.(tasks := s.tasks + [Record(own, cpu, if own == 1 then s.active else created)], lastPid := last)
  }

  /** The task the scheduler switches to, unless it finds the end of the list. */
  function Chosen(s: State): Option<nat> {
    match s.current
    case None => if |s.tasks| > 0 then Some(|s.tasks| - 1) else None
    case Some(i) => if 0 < i <= |s.tasks| then Some(i - 1) else None
  }

  /** The source follows a null pointer when there is no task to switch to. */
  predicate CanSchedule(s: State) {
    Blocked(s.flags) || Chosen(s).Some?
  }

  predicate WellFormed(s: State) {
    s.current.Some? ==> s.current.value < |s.tasks|
  }

  /** The tasks once the interrupted one has been given its state to continue from. */
  function Saved(s: State, cpu: Word): seq<Record>
    requires WellFormed(s)
  {
    if s.current.None? then s.tasks
    else s.tasks[s.current.value := s.tasks[s.current.value].(cpu := cpu)]
  }

  function AfterSchedule(s: State, cpu: Word): State
    requires WellFormed(s) && CanSchedule(s)
  {
    if Blocked(s.flags) then s
    else
      var i := Chosen(s).value;
      s.(tasks := Saved(s, cpu), current := Some(i), active := s.tasks[i].context)
  }

  /** The state the processor continues with. */
  function Resumed(s: State, cpu: Word): Word
    requires WellFormed(s) && CanSchedule(s)
  {
    if Blocked(s.flags) then cpu else s.tasks[Chosen(s).value].cpu
  }

  // ----- runs -----

  predicate Enabled(s: State, op: Op) {
    WellFormed(s) && (op.Schedule? ==> CanSchedule(s))
  }

  function Step(s: State, op: Op): State
    requires Enabled(s, op)
  {
    match op
    case Init(pid, cpu, created) => AfterInit(s, pid, cpu, created)
    case SetFlags(flags) => s.(flags := flags)
    case Schedule(cpu) => AfterSchedule(s, cpu)
  }

  /** The state after a run from boot; None if the scheduler was called at the end of the list. */
  function Run(active: Word, ops: seq<Op>): Option<State> {
    if ops == [] then Some(Initial(active))
    else
      match Run(active, ops[..|ops| - 1])
      case None => None
      case Some(s) => if Enabled(s, ops[|ops| - 1]) then Some(Step(s, ops[|ops| - 1])) else None
  }

  // ----- what a run amounts to, read off the operations alone -----

  function Inits(ops: seq<Op>): seq<Op> {
    if ops == [] then []
    else Inits(ops[..|ops| - 1]) + (if ops[|ops| - 1].Init? then [ops[|ops| - 1]] else [])
  }

  function Flags(ops: seq<Op>): Byte {
    if ops == [] then 0
    else match ops[|ops| - 1]
      case SetFlags(flags) => flags
      case _ => Flags(ops[..|ops| - 1])
  }

  predicate Switches(before: seq<Op>, op: Op) {
    op.Schedule? && !Blocked(Flags(before))
  }

  /** The processor states handed to the calls of the scheduler that were not blocked. */
  function Interrupted(ops: seq<Op>): seq<Word> {
    if ops == [] then []
    else
      var before, op := ops[..|ops| - 1], ops[|ops| - 1];
      Interrupted(before) + (if Switches(before, op) then [op.cpu] else [])
  }

  /** How many tasks there were when the scheduler first switched, or there are if it never has. */
  function Started(ops: seq<Op>): nat {
    if ops == [] then 0
    else
      var before, op := ops[..|ops| - 1], ops[|ops| - 1];
      if Interrupted(before) == [] && op.Init? then Started(before) + 1 else Started(before)
  }

  /**
   Where the run leaves task i to continue: the k-th switch chooses task Started - 1 - k, so the call
   that takes the processor away from task i is number Started - i.
   */
  function Continuation(ops: seq<Op>, i: nat): Word
    requires i < |Inits(ops)| && Inits(ops)[i].Init?
  {
    if Started(ops) - |Interrupted(ops)| < i < Started(ops)
    then Interrupted(ops)[Started(ops) - i]
    else Inits(ops)[i].cpu
  }

  ghost predicate Summary(s: State, ops: seq<Op>) {
    && s.flags == Flags(ops)
    && |s.tasks| == |Inits(ops)|
    && Started(ops) <= |Inits(ops)|
    && |Interrupted(ops)| <= Started(ops)
    && (Interrupted(ops) == [] ==> Started(ops) == |Inits(ops)|)
    && s.current == (if Interrupted(ops) == [] then None else Some(Started(ops) - |Interrupted(ops)|))
    && (forall i: nat | i < |s.tasks| :: Inits(ops)[i].Init? && s.tasks[i].cpu == Continuation(ops, i))
  }

  lemma Unfold(before: seq<Op>, op: Op)
    ensures Inits(before + [op]) == Inits(before) + (if op.Init? then [op] else [])
    ensures Flags(before + [op]) == if op.SetFlags? then op.flags else Flags(before)
    ensures Interrupted(before + [op]) == Interrupted(before) + (if Switches(before, op) then [op.cpu] else [])
    ensures Started(before + [op]) ==
            if Interrupted(before) == [] && op.Init? then Started(before) + 1 else Started(before)
  {
    assert (before + [op])[..|before|] == before;
  }

  lemma InitKeepsSummary(s: State, before: seq<Op>, op: Op)
    requires Summary(s, before) && op.Init?
    ensures Summary(AfterInit(s, op.pid, op.cpu, op.created), before + [op])
  {
    Unfold(before, op);
    var t, ops := AfterInit(s, op.pid, op.cpu, op.created), before + [op];
    forall i: nat | i < |t.tasks| ensures Inits(ops)[i].Init? && t.tasks[i].cpu == Continuation(ops, i) {
      if i < |s.tasks| {
        assert Inits(ops)[i] == Inits(before)[i];
      }
    }
  }

  lemma SwitchKeepsSummary(s: State, before: seq<Op>, op: Op)
    requires Summary(s, before) && op.Schedule? && WellFormed(s)
    requires !Blocked(s.flags) && Chosen(s).Some?
    ensures Summary(AfterSchedule(s, op.cpu), before + [op])
  {
    Unfold(before, op);
    var t, ops := AfterSchedule(s, op.cpu), before + [op];
    forall i: nat | i < |t.tasks| ensures Inits(ops)[i].Init? && t.tasks[i].cpu == Continuation(ops, i) {
      assert Inits(ops)[i] == Inits(before)[i];
      assert s.tasks[i].cpu == Continuation(before, i);
    }
  }

  /**
   A run in closed form. It succeeds exactly if the scheduler switches no more often than there were
   tasks at its first switch: tasks created later are never chosen, no task is chosen twice, and the
   switches go through the list in order. Every task continues from the state saved when it was
   switched out, and no other call has touched it.
   */
  lemma {:induction false} RunSummary(active: Word, ops: seq<Op>)
    ensures Run(active, ops).Some? <==> |Interrupted(ops)| <= Started(ops)
    ensures Run(active, ops).Some? ==> Summary(Run(active, ops).value, ops)
  {
    if ops != [] {
      var before, op := ops[..|ops| - 1], ops[|ops| - 1];
      RunSummary(active, before);
      assert ops == before + [op];
      Unfold(before, op);
      if Run(active, before).Some? {
        var s := Run(active, before).value;
        match op
        case Init(_, _, _) => InitKeepsSummary(s, before, op);
        case SetFlags(_) =>
        case Schedule(cpu) =>
          if !Blocked(s.flags) && Chosen(s).Some? {
            SwitchKeepsSummary(s, before, op);
          }
      } else {
        assert |Interrupted(ops)| > Started(ops) by { StartedStops(before, op); }
      }
    }
  }

  /** Once the scheduler has switched, no creation counts any more. */
  lemma StartedStops(before: seq<Op>, op: Op)
    requires |Interrupted(before)| > Started(before)
    ensures |Interrupted(before + [op])| > Started(before + [op])
  {
    Unfold(before, op);
  }

  /**
   Successive switches walk down the list: after each one the current task is the list's next, and the
   processor continues exactly where that task was created, since nothing has run it before.
   */
  lemma SwitchResumesFreshTask(active: Word, before: seq<Op>, cpu: Word)
    requires Run(active, before).Some? && !Blocked(Flags(before))
    requires Run(active, before + [Schedule(cpu)]).Some?
    ensures var s, t := Run(active, before).value, Run(active, before + [Schedule(cpu)]).value;
            var i := Started(before) - 1 - |Interrupted(before)|;
            && 0 <= i < |t.tasks|
            && t.current == Some(i) && t.active == t.tasks[i].context
            && WellFormed(s) && CanSchedule(s) && i < |Inits(before)| && Inits(before)[i].Init?
            && Resumed(s, cpu) == Inits(before)[i].cpu == t.tasks[i].cpu
  {
    var ops := before + [Schedule(cpu)];
    assert ops[..|before|] == before;
    RunSummary(active, before);
    RunSummary(active, ops);
    Unfold(before, Schedule(cpu));
    var s, i := Run(active, before).value, Started(before) - 1 - |Interrupted(before)|;
    assert s.tasks[i].cpu == Continuation(before, i);
    assert Inits(ops)[i] == Inits(before)[i];
  }

  // ----- creation -----

  /**
   A task without a number gets the one after the last, modulo 2^32; a task that is given one keeps it and
   leaves the counter alone. Only the task numbered 1 runs in the active context.
   */
  lemma CreatedByNumber(s: State, pid: Word, cpu: Word, created: Word)
    ensures var t := AfterInit(s, pid, cpu, created);
            var own := if pid == 0 then (s.lastPid + 1) % 0x1_0000_0000 else pid;
            && t.tasks == s.tasks + [Record(own, cpu, if own == 1 then s.active else created)]
            && t.lastPid == (if pid == 0 then own else s.lastPid)
            && t.current == s.current && t.flags == s.flags && t.active == s.active
  {
  }

  // ----- the do-not-disturb bit -----

  /**
   With bit 0 of the flags set, a call of the scheduler changes nothing and hands back the state it was given.
   With the bit clear it goes to the list's next task, the newest one at first, and hands out its state, and
   the task it leaves keeps the state given; it follows a null pointer exactly if there is no next task.
   */
  lemma ScheduleByFlag(s: State, cpu: Word)
    requires WellFormed(s)
    ensures s.flags % 2 == 1 ==> CanSchedule(s) && AfterSchedule(s, cpu) == s && Resumed(s, cpu) == cpu
    ensures s.flags % 2 == 0 ==> (CanSchedule(s) <==> s.tasks != [] && s.current != Some(0))
    ensures s.flags % 2 == 0 && CanSchedule(s) ==>
              var t, i := AfterSchedule(s, cpu), (if s.current.None? then |s.tasks| else s.current.value) - 1;
              && 0 <= i < |s.tasks| && |t.tasks| == |s.tasks|
              && t.current == Some(i) && t.active == s.tasks[i].context && Resumed(s, cpu) == s.tasks[i].cpu
              && (s.current.Some? ==> t.tasks[i + 1] == s.tasks[i + 1].(cpu := cpu))
              && (forall k: nat | k < |s.tasks| && s.current != Some(k) :: t.tasks[k] == s.tasks[k])
  {
  }

  /** The processor states handed to all calls of the scheduler. */
  function Handed(ops: seq<Op>): seq<Word> {
    if ops == [] then []
    else Handed(ops[..|ops| - 1]) + (if ops[|ops| - 1].Schedule? then [ops[|ops| - 1].cpu] else [])
  }

  /** From boot on, every call switches as long as nobody sets bit 0. */
  lemma {:induction false} ClearBitSwitches(ops: seq<Op>)
    requires forall k: nat | k < |ops| && ops[k].SetFlags? :: ops[k].flags % 2 == 0
    ensures Interrupted(ops) == Handed(ops) && Flags(ops) % 2 == 0
  {
    if ops != [] {
      var before, op := ops[..|ops| - 1], ops[|ops| - 1];
      forall k: nat | k < |before| && before[k].SetFlags? ensures before[k].flags % 2 == 0 {
        assert before[k] == ops[k];
      }
      ClearBitSwitches(before);
      assert op.SetFlags? ==> ops[|ops| - 1].flags % 2 == 0;
    }
  }

  /** And no call switches from where the bit is set until it is cleared. */
  lemma {:induction false} SetBitBlocks(before: seq<Op>, flags: Byte, later: seq<Op>)
    requires flags % 2 == 1
    requires forall k: nat | k < |later| && later[k].SetFlags? :: later[k].flags % 2 == 1
    ensures var ops := before + [SetFlags(flags)] + later;
            Interrupted(ops) == Interrupted(before) && Flags(ops) % 2 == 1
    decreases |later|
  {
    var start := before + [SetFlags(flags)];
    if later == [] {
      Unfold(before, SetFlags(flags));
      assert start + later == start;
    } else {
      var rest, op := later[..|later| - 1], later[|later| - 1];
      forall k: nat | k < |rest| && rest[k].SetFlags? ensures rest[k].flags % 2 == 1 {
        assert rest[k] == later[k];
      }
      SetBitBlocks(before, flags, rest);
      assert start + later == (start + rest) + [op];
      Unfold(start + rest, op);
      assert op.SetFlags? ==> later[|later| - 1].flags % 2 == 1;
    }
  }

  // ----- process numbers -----

  predicate Numbered(ops: seq<Op>) {
    forall k: nat | k < |ops| && ops[k].Init? :: ops[k].pid == 0
  }

  /** Left to itself, the kernel numbers tasks from 1 on, wrapping around after 2^32. */
  lemma {:induction false} PidsCount(active: Word, ops: seq<Op>)
    requires Numbered(ops) && Run(active, ops).Some?
    ensures var s := Run(active, ops).value;
            && s.lastPid == |s.tasks| % WORDS
            && forall i: nat | i < |s.tasks| :: s.tasks[i].pid == (i + 1) % WORDS
  {
    if ops != [] {
      var before, op := ops[..|ops| - 1], ops[|ops| - 1];
      assert forall k: nat | k < |before| :: before[k] == ops[k];
      PidsCount(active, before);
      if op.Init? {
        assert op == ops[|ops| - 1];
      }
    }
  }

  lemma CountersDiffer(i: nat, j: nat)
    requires i < j < WORDS
    ensures (i + 1) % WORDS != (j + 1) % WORDS
  {
  }

  ghost predicate DistinctPids(s: State) {
    forall i: nat, j: nat | i < j < |s.tasks| :: s.tasks[i].pid != s.tasks[j].pid
  }

  /** Process numbers are distinct exactly as long as the counter has not come round. */
  lemma PidsDistinct(active: Word, ops: seq<Op>)
    requires Numbered(ops) && Run(active, ops).Some?
    ensures DistinctPids(Run(active, ops).value) <==> |Inits(ops)| <= WORDS
  {
    PidsCount(active, ops);
    RunSummary(active, ops);
    var s := Run(active, ops).value;
    if |s.tasks| <= WORDS {
      forall i: nat, j: nat | i < j < |s.tasks| ensures s.tasks[i].pid != s.tasks[j].pid {
        CountersDiffer(i, j);
      }
    } else {
      assert (0 + 1) % WORDS == (WORDS + 1) % WORDS;
      assert s.tasks[0].pid == s.tasks[WORDS].pid;
    }
  }

  /** The first task runs in the context the kernel booted with, every later one in its own. */
  lemma {:induction false} ContextsAssigned(active: Word, ops: seq<Op>)
    requires Numbered(ops) && Run(active, ops).Some? && |Inits(ops)| <= WORDS
    ensures var s := Run(active, ops).value;
            && |s.tasks| == |Inits(ops)|
            && (s.current.None? ==> s.active == active)
            && (forall i: nat | i < |s.tasks| ::
                  && Inits(ops)[i].Init?
                  && s.tasks[i].context == if i == 0 then active else Inits(ops)[i].created)
  {
    RunSummary(active, ops);
    if ops != [] {
      var before, op := ops[..|ops| - 1], ops[|ops| - 1];
      assert ops == before + [op];
      Unfold(before, op);
      assert forall k: nat | k < |before| :: before[k] == ops[k];
      ContextsAssigned(active, before);
      RunSummary(active, before);
      PidsCount(active, before);
      var s := Run(active, before).value;
      if op.Init? {
        assert op == ops[|ops| - 1];
        NextPidIsOne(|s.tasks|, s.lastPid);
      }
    }
  }

  lemma NextPidIsOne(n: nat, last: Word)
    requires last == n % WORDS && n < WORDS
    ensures Following(last) == 1 <==> n == 0
  {
  }

  // ----- the linked list -----

  class Task {
    var pid: Word
    var cpuState: Word
    var context: Word
    var next: Task?

    constructor (pid: Word, cpuState: Word, context: Word, next: Task?)
      ensures this.pid == pid && this.cpuState == cpuState && this.context == context && this.next == next
    {
      this.pid, this.cpuState, this.context, this.next := pid, cpuState, context, next;
    }

    ghost function Contents(): Record
      reads this
    {
      Record(pid, cpuState, context)
    }
  }

  ghost function Records(tasks: seq<Task>): (r: seq<Record>)
    reads tasks
    ensures |r| == |tasks| && forall i: nat | i < |r| :: r[i] == tasks[i].Contents()
  {
    if |tasks| == 0 then []
    else Records(tasks[..|tasks| - 1]) + [tasks[|tasks| - 1].Contents()]
  }

  twostate lemma RecordsKept(tasks: seq<Task>)
    requires forall t: Task | t in tasks :: t.Contents() == old(t.Contents())
    ensures Records(tasks) == old(Records(tasks))
  {
    forall i: nat | i < |tasks| ensures Records(tasks)[i] == old(Records(tasks))[i] {
      assert tasks[i] in tasks;
    }
  }

  lemma RecordsSnoc(tasks: seq<Task>, task: Task)
    ensures Records(tasks + [task]) == Records(tasks) + [task.Contents()]
  {
    assert (tasks + [task])[..|tasks|] == tasks;
  }

  ghost predicate Distinct(tasks: seq<Task>) {
    forall i: nat, j: nat | i < j < |tasks| :: tasks[i] != tasks[j]
  }

  lemma DistinctSnoc(tasks: seq<Task>, task: Task)
    requires Distinct(tasks) && task !in tasks
    ensures Distinct(tasks + [task])
  {
  }

  /** In the list, the task after number i is the one created before it. */
  ghost predicate Linked(tasks: seq<Task>, i: nat)
    requires i < |tasks|
    reads tasks
  {
    tasks[i].next == if i == 0 then null else tasks[i - 1]
  }

  ghost predicate Chain(tasks: seq<Task>)
    reads tasks
  {
    forall i: nat | i < |tasks| :: Linked(tasks, i)
  }

  twostate lemma ChainKept(tasks: seq<Task>)
    requires old(Chain(tasks)) && forall t: Task | t in tasks :: t.next == old(t.next)
    ensures Chain(tasks)
  {
    forall i: nat | i < |tasks| ensures Linked(tasks, i) {
      assert old(Linked(tasks, i)) && tasks[i] in tasks;
    }
  }

  lemma ChainSnoc(tasks: seq<Task>, task: Task)
    requires Chain(tasks) && task.next == if |tasks| == 0 then null else tasks[|tasks| - 1]
    ensures Chain(tasks + [task])
  {
    forall i: nat | i < |tasks + [task]| ensures Linked(tasks + [task], i) {
      assert i < |tasks| ==> Linked(tasks, i);
    }
  }

  class Scheduler {
    var firstTask: Task?
    var currentTask: Task?
    var flags: Byte
    var lastPid: Word
    var activeContext: Word
    /** The tasks in order of creation, and the place of the current one. */
    ghost var tasks: seq<Task>
    ghost var current: Option<nat>

    /** The list from `firstTask` runs through all tasks, newest first, each once, and ends in null. */
    ghost predicate Valid()
      reads this, tasks
    {
      && Distinct(tasks) && Chain(tasks)
      && firstTask == (if |tasks| == 0 then null else tasks[|tasks| - 1])
      && (current.Some? ==> current.value < |tasks|)
      && currentTask == (if current.None? then null else tasks[current.value])
    }

    ghost function Value(): State
      reads this, tasks
    {
      State(Records(tasks), current, flags, lastPid, activeContext)
    }

    constructor (active: Word)
      ensures Valid() && Value() == Initial(active)
    {
      firstTask, currentTask, flags, lastPid, activeContext := null, null, 0, 0, active;
      tasks, current := [], None;
    }

    /** Allocate a task structure, fill it in and put it at the head of the list. */
    method Push(pid: Word, cpu: Word, context: Word) returns (task: Task)
      requires Valid()
      modifies this`firstTask, this`tasks
      ensures Valid() && fresh(task) && firstTask == task && task.next == old(firstTask)
      ensures Value() == old(Value()).(tasks := old(Value()).tasks + [Record(pid, cpu, context)])
    {
      task := new Task(pid, cpu, context, firstTask);
      firstTask := task;
      ghost var before := tasks;
      tasks := before + [task];
      ChainKept(before);
      ChainSnoc(before, task);
      DistinctSnoc(before, task);
      RecordsSnoc(before, task);
      RecordsKept(before);
      assert Records(tasks) == old(Records(tasks)) + [Record(pid, cpu, context)];
    }

    method InitTask(pid: Word, cpu: Word, created: Word) returns (task: Task)
      requires Valid()
      modifies this`firstTask, this`lastPid, this`tasks
      ensures Valid() && Value() == AfterInit(old(Value()), pid, cpu, created)
      ensures fresh(task) && firstTask == task && task.next == old(firstTask)
    {
      var own := pid;
      if own == 0 {
        lastPid := if lastPid == WORDS - 1 then 0 else lastPid + 1;
        own := lastPid;
        ChainKept(tasks);
        RecordsKept(tasks);
      }
      var context := created;
      if own == 1 {
        context := activeContext;
      }
      task := Push(own, cpu, context);
    }

    method SetScheduleFlags(newFlags: Byte)
      requires Valid()
      modifies this`flags
      ensures Valid() && Value() == old(Value()).(flags := newFlags)
    {
      flags := newFlags;
      RecordsKept(tasks);
      ChainKept(tasks);
    }

    /** Give the interrupted task, if there is one, its state to continue from. */
    method Save(cpu: Word)
      requires Valid()
      modifies tasks
      ensures Valid() && old(WellFormed(Value())) && Value() == old(Value()).(tasks := Saved(old(Value()), cpu))
    {
      if currentTask != null {
        currentTask.cpuState := cpu;
        ChainKept(tasks);
        assert Records(tasks) == Saved(old(Value()), cpu);
      }
    }

    /** Move on to the chosen task and activate its context. */
    method Advance() returns (resumed: Word)
      requires Valid() && Chosen(Value()).Some?
      modifies this`currentTask, this`current, this`activeContext
      ensures Valid() && old(WellFormed(Value())) && Chosen(old(Value())).value < |old(Value()).tasks|
      ensures var s := old(Value()); var i := Chosen(s).value;
              && Value() == s.(current := Some(i), active := s.tasks[i].context)
              && resumed == s.tasks[i].cpu
    {
      assert current.Some? ==> Linked(tasks, current.value);
      if currentTask == null {
        currentTask := firstTask;
        current := Some(|tasks| - 1);
      } else {
        currentTask := currentTask.next;
        current := Some(current.value - 1);
      }
      activeContext := currentTask.context;
      resumed := currentTask.cpuState;
      ChainKept(tasks);
      RecordsKept(tasks);
    }

    method Schedule(cpu: Word) returns (resumed: Word)
      requires Valid() && CanSchedule(Value())
      modifies this`currentTask, this`current, this`activeContext, tasks
      ensures Valid() && old(WellFormed(Value()))
      ensures Value() == AfterSchedule(old(Value()), cpu)
      ensures resumed == Resumed(old(Value()), cpu)
    {
      resumed := cpu;
      if flags % 2 == 0 {
        Save(cpu);
        resumed := Advance();
      }
    }
  }
}
