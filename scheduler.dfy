/**
 * The round-robin scheduler of sched/scheduler.c as values: a table of up
 * to MAX_TASKS tasks, the number in use and the running one. The page
 * pmm_alloc hands task_create for a stack is a parameter (0 when none is
 * left), and the words task_create writes are kept as a map from byte
 * address to the 64-bit word stored there. task_switch, which saves and
 * loads stack pointers in assembly, is left to its effect on current_task.
 */
module SchedSpec {
  import opened Machine

  const MAX_TASKS: int := 10
  const STACK_SIZE: int := 4096

  /** The words task_create pushes below the stack top: six zeroed callee-saved registers under the entry address. */
  const FRAME_WORDS: int := 7

  /** task_t: saved stack pointer, pid and state (0 ready, 1 running). */
  datatype Task = Task(stackPtr: u64, pid: u64, state: u64)

  /** tasks, task_count, current_task and the stack words written so far. */
  datatype Sched = Sched(tasks: seq<Task>, count: int, current: int, words: map<int, u64>)

  const EMPTY_TASK: Task := Task(0, 0, 0)

  /** The running task is 0 or one of the tasks in use. */
  predicate Wf(s: Sched)
  {
    |s.tasks| == MAX_TASKS && 0 <= s.count <= MAX_TASKS && 0 <= s.current && (s.current == 0 || s.current < s.count)
  }

  function Empty(): (r: Sched)
    ensures Wf(r)
  {
    Sched(seq(MAX_TASKS, _ => EMPTY_TASK), 0, 0, map[])
  }

  /** scheduler_init: the running kernel as task 0. */
  function Init(s: Sched): (r: Sched)
    requires Wf(s)
    ensures Wf(r)
  {
    s.(tasks := s.tasks[0 := Task(0, 0, 1)], count := 1, current := 0)
  }

  /** The initial frame on a stack page at `page`: the entry address in the top word, six zero words below it. */
  function Frame(words: map<int, u64>, page: int, entry: u64): (r: map<int, u64>)
  {
    var top := page + STACK_SIZE;
    words[top - 8 := entry][top - 16 := 0][top - 24 := 0][top - 32 := 0]
         [top - 40 := 0][top - 48 := 0][top - 56 := 0]
  }

  /**
   * task_create(entry) with the page pmm_alloc returns: nothing at
   * MAX_TASKS tasks; otherwise pid and state are written at index count,
   * and only when there is a page is the frame pushed, the stack pointer
   * set and the task counted.
   */
  function Create(s: Sched, entry: u64, page: u64): (r: Sched)
    requires Wf(s) && page + STACK_SIZE < U64_LIMIT
    ensures Wf(r)
  {
    if s.count >= MAX_TASKS then s
    else
      var named := s.tasks[s.count := s.tasks[s.count].(pid := s.count, state := 0)];
      if page == 0 then s.(tasks := named)
      else
        var sp := page + STACK_SIZE - 8 * FRAME_WORDS;
        s.(tasks := named[s.count := named[s.count].(stackPtr := sp)],
           words := Frame(s.words, page, entry), count := s.count + 1)
  }

  /** schedule: with more than one task, the next one in index order, wrapping to 0. */
  function Schedule(s: Sched): (r: Sched)
    requires Wf(s)
    ensures Wf(r)
  {
    if s.count <= 1 then s
    else
      var next := (s.current + 1) % s.count;
      if next == s.current then s else s.(current := next)
  }

  /** k calls of schedule. */
  function ScheduleTimes(s: Sched, k: nat): (r: Sched)
    requires Wf(s)
    ensures Wf(r)
    decreases k
  {
    if k == 0 then s else ScheduleTimes(Schedule(s), k - 1)
  }

  // ---------------------------------------------------------------------
  // Properties

  /** scheduler_init leaves one task, pid 0, running, and makes it current. */
  lemma InitOutcome(s: Sched)
    requires Wf(s)
    ensures var r := Init(s);
      r.count == 1 && r.current == 0 && r.tasks[0].pid == 0 && r.tasks[0].state == 1 && ScheduleTimes(r, 5) == r
  {
    var r := Init(s);
    assert Schedule(r) == r;
    assert ScheduleTimes(r, 5) == r by {
      assert ScheduleTimes(r, 1) == r;
      assert ScheduleTimes(r, 2) == r;
      assert ScheduleTimes(r, 3) == r;
      assert ScheduleTimes(r, 4) == r;
    }
  }

  /** task_create: nothing at MAX_TASKS; a new task's pid is the old count and its state ready; without a page the count stays although pid and state were written. */
  lemma CreateOutcome(s: Sched, entry: u64, page: u64)
    requires Wf(s) && page + STACK_SIZE < U64_LIMIT
    ensures s.count >= MAX_TASKS ==> Create(s, entry, page) == s
    ensures s.count < MAX_TASKS ==>
      var r := Create(s, entry, page);
      r.tasks[s.count].pid == s.count && r.tasks[s.count].state == 0 && r.current == s.current &&
      r.count == (if page == 0 then s.count else s.count + 1) &&
      (forall i :: 0 <= i < MAX_TASKS && i != s.count ==> r.tasks[i] == s.tasks[i])
  {
  }

  /** The new stack: stack_ptr is 56 bytes below the top of the page; the six words from it are 0 and the seventh is the entry address. */
  lemma CreateFrame(s: Sched, entry: u64, page: u64)
    requires Wf(s) && page + STACK_SIZE < U64_LIMIT && s.count < MAX_TASKS && page != 0
    ensures var r := Create(s, entry, page);
      var sp := r.tasks[s.count].stackPtr;
      sp == page + STACK_SIZE - 56 &&
      (forall j :: 0 <= j < 6 ==> sp + 8 * j in r.words && r.words[sp + 8 * j] == 0) &&
      sp + 48 in r.words && r.words[sp + 48] == entry &&
      (forall a :: a in s.words && !(sp <= a < sp + 56) ==> a in r.words && r.words[a] == s.words[a])
  {
  }

  /**
   * With n > 1 tasks, k <= n calls of schedule move the running task k
   * places on, wrapping past the last task, so in n calls every task runs
   * once, in index order.
   */
  lemma {:induction false} ScheduleCycles(s: Sched, k: nat)
    requires Wf(s) && s.count > 1 && k <= s.count
    ensures ScheduleTimes(s, k) == s.(current := (s.current + k) % s.count)
    ensures (s.current + k) % s.count == if s.current + k < s.count then s.current + k else s.current + k - s.count
    decreases k
  {
    ModOnce(s.current + k, s.count);
    if k > 0 {
      ModOnce(s.current + 1, s.count);
      var s1 := Schedule(s);
      assert s1 == s.(current := if s.current + 1 < s.count then s.current + 1 else 0);
      ScheduleCycles(s1, k - 1);
      ModOnce(s1.current + k - 1, s.count);
    }
  }

  /** An index below twice n, reduced modulo n, loses n at most once. */
  lemma ModOnce(x: int, n: int)
    requires n > 0 && 0 <= x < 2 * n
    ensures x % n == if x < n then x else x - n
  {
    if x >= n {
      assert x == 1 * n + (x - n);
    }
  }

  /** After count calls the scheduler is back where it started. */
  lemma ScheduleRoundTrip(s: Sched)
    requires Wf(s) && s.count > 1
    ensures ScheduleTimes(s, s.count as nat) == s
  {
    ScheduleCycles(s, s.count as nat);
  }
}

/**
 * The scheduler globals as the kernel keeps them: tasks is an array of
 * MAX_TASKS entries, task_count and current_task fields, and the stack
 * words written so far a map.
 */
module Scheduler {
  import opened Machine
  import opened SchedSpec

  class Scheduler {
    const tasks: array<Task>
    var count: int
    var current: int
    var words: map<int, u64>

    function State(): Sched
      reads this, tasks
    {
      Sched(tasks[..], count, current, words)
    }

    ghost predicate Ready()
      reads this, tasks
    {
      tasks.Length == MAX_TASKS && Wf(State())
    }

    constructor()
      ensures Ready() && State() == Empty()
    {
      tasks := new Task[MAX_TASKS](_ => EMPTY_TASK);
      count, current, words := 0, 0, map[];
    }

    /** scheduler_init. */
    method Init()
      requires Ready()
      modifies this, tasks
      ensures Ready() && State() == SchedSpec.Init(old(State()))
    {
      tasks[0] := Task(0, 0, 1);
      count := 1;
      current := 0;
    }

    /** task_create(entry), given the page pmm_alloc returns. */
    method Create(entry: u64, page: u64)
      requires Ready() && page + STACK_SIZE < U64_LIMIT
      modifies this, tasks
      ensures Ready() && State() == SchedSpec.Create(old(State()), entry, page)
    {
      if count >= MAX_TASKS {
        return;
      }
      var t := count;
      tasks[t] := tasks[t].(pid := t, state := 0);
      if page == 0 {
        return;
      }
      var top := page + STACK_SIZE;
      top := top - 8;
      words := words[top := entry];
      top := top - 8;
      words := words[top := 0];
      top := top - 8;
      words := words[top := 0];
      top := top - 8;
      words := words[top := 0];
      top := top - 8;
      words := words[top := 0];
      top := top - 8;
      words := words[top := 0];
      top := top - 8;
      words := words[top := 0];
      tasks[t] := tasks[t].(stackPtr := top);
      count := count + 1;
    }

    /** schedule: task_switch itself is not modelled. */
    method Schedule()
      requires Ready()
      modifies this
      ensures Ready() && State() == SchedSpec.Schedule(old(State()))
    {
      if count <= 1 {
        return;
      }
      var next := (current + 1) % count;
      if next == current {
        return;
      }
      current := next;
    }
  }
}
