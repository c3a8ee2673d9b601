/** The round-robin scheduler of kernel/src/proc/scheduler.c: its table as an array, and its runs as
    a state machine. */
module Scheduler {

  const MAX_PROCESSES: nat := 256

  datatype ProcessState = New | Running

  /** An interrupt frame: the five registers process_create sets, and all the others. */
  datatype Frame = Frame(rip: nat, rsp: nat, cs: nat, ss: nat, rflags: nat, others: seq<nat>)

  datatype Process = Process(pid: nat, state: ProcessState, pagemap: nat, ctx: Frame)

  /** The context process_create builds in a zeroed page: 20 further words, all 0. */
  function InitialContext(entry: nat, stack: nat): Frame {
    Frame(entry, stack + 4095, 0x08, 0x10, 0x202, seq(20, i => 0))
  }

  /** What the scheduler's variables and the processor hold. */
  datatype Sched = Sched(procs: seq<Process>, cur: nat, nextPid: nat, frame: Frame, active: nat)

  // ---------- steps ----------

  datatype Step =
    | Create(entry: nat, stack: nat, pagemap: nat)
    | Tick
    | User(f: Frame -> Frame)
    | Exit

  function CreateStep(s: Sched, entry: nat, stack: nat, pagemap: nat): Sched {
    if |s.procs| >= MAX_PROCESSES then s
    else s.(procs := s.procs + [Process(s.nextPid, New, pagemap, InitialContext(entry, stack))],
        nextPid := s.nextPid + 1)
  }

  /** The table after the running process's frame has been saved. */
  function Saved(s: Sched): seq<Process> {
    if s.cur < |s.procs| && s.procs[s.cur].state == Running
    then s.procs[s.cur := s.procs[s.cur].(ctx := s.frame)] else s.procs
  }

  function TickStep(s: Sched): Sched {
    if s.procs == [] then s else
    var saved := Saved(s);
    var next := (s.cur + 1) % |saved|;
    Sched(saved[next := saved[next].(state := Running)], next, s.nextPid, saved[next].ctx, saved[next].pagemap)
  }

  function ExitStep(s: Sched): Sched {
    if !(s.cur < |s.procs|) || s.procs[s.cur].state != Running then s else
    var rest := s.procs[..s.cur] + s.procs[s.cur + 1..];
    s.(procs := rest, cur := if rest == [] then s.cur else s.cur % |rest|)
  }

  function Next(s: Sched, step: Step): Sched {
    match step
    case Create(e, st, pm) => CreateStep(s, e, st, pm)
    case Tick => TickStep(s)
    case User(f) => s.(frame := f(s.frame))
    case Exit => ExitStep(s)
  }

  function Exec(s: Sched, steps: seq<Step>): Sched {
    if steps == [] then s else Next(Exec(s, steps[..|steps| - 1]), steps[|steps| - 1])
  }

  // ---------- the shape of the table, over every run ----------

  ghost predicate Shape(s: Sched) {
    && |s.procs| <= 256
    && (if s.procs == [] then s.cur == 0 else s.cur < |s.procs|)
    && (forall i :: 0 <= i < |s.procs| ==> s.procs[i].pid < s.nextPid)
    && (forall i, j :: 0 <= i < j < |s.procs| ==> s.procs[i].pid < s.procs[j].pid)
  }

  lemma ShapeTick(s: Sched)
    requires Shape(s)
    ensures Shape(TickStep(s))
  {
    if s.procs != [] {
      var t := TickStep(s);
      assert |t.procs| == |s.procs| && forall i :: 0 <= i < |s.procs| ==> t.procs[i].pid == s.procs[i].pid;
    }
  }

  lemma ShapeExit(s: Sched)
    requires Shape(s)
    ensures Shape(ExitStep(s))
  {
    if s.procs != [] && s.procs[s.cur].state == Running {
      var rest := s.procs[..s.cur] + s.procs[s.cur + 1..];
      assert forall i :: 0 <= i < |rest| ==> rest[i] == s.procs[if i < s.cur then i else i + 1];
    }
  }

  lemma ShapeStep(s: Sched, step: Step)
    requires Shape(s)
    ensures Shape(Next(s, step))
  {
    hide TickStep, ExitStep;
    match step
    case Create(_, _, _) =>
    case Tick => ShapeTick(s);
    case User(_) =>
    case Exit => ShapeExit(s);
  }

  lemma SavedShape(s: Sched)
    requires Shape(s)
    ensures |Saved(s)| == |s.procs|
    ensures forall i :: 0 <= i < |s.procs| ==>
              Saved(s)[i].pid == s.procs[i].pid && Saved(s)[i].pagemap == s.procs[i].pagemap
  {
  }

  /** However processes are created, switched and ended: at most 256 of them, the current index in
      range, and pids strictly increasing along the table, so that none repeats. */
  lemma {:induction false} ShapeRun(s: Sched, steps: seq<Step>)
    requires Shape(s)
    ensures Shape(Exec(s, steps))
  {
    if steps != [] {
      ShapeRun(s, steps[..|steps| - 1]);
      ShapeStep(Exec(s, steps[..|steps| - 1]), steps[|steps| - 1]);
    }
  }

  // ---------- transparency ----------

  predicate Live(s: Sched, pid: nat) {
    s.cur < |s.procs| && s.procs[s.cur].state == Running && s.procs[s.cur].pid == pid
  }

  predicate Present(s: Sched, pid: nat) {
    exists i :: 0 <= i < |s.procs| && s.procs[i].pid == pid
  }

  function SlotOf(s: Sched, pid: nat): (i: nat)
    requires Shape(s) && Present(s, pid)
    ensures i < |s.procs| && s.procs[i].pid == pid
  {
    var i :| 0 <= i < |s.procs| && s.procs[i].pid == pid;
    i
  }

  /** The register frame a process has now: the processor's if it is live, else its saved context. */
  function Held(s: Sched, pid: nat): Frame
    requires Shape(s) && Present(s, pid)
  {
    if Live(s, pid) then s.frame else s.procs[SlotOf(s, pid)].ctx
  }

  /** The frame the process would have if nothing but its own steps ever happened to it. */
  function Alone(s: Sched, steps: seq<Step>, pid: nat): Frame
    requires Shape(s)
  {
    if steps == [] then (if Present(s, pid) then Held(s, pid) else InitialContext(0, 0)) else
    var before, last := steps[..|steps| - 1], steps[|steps| - 1];
    var mid := Exec(s, before);
    match last
    case User(f) => if Live(mid, pid) then f(Alone(s, before, pid)) else Alone(s, before, pid)
    case Create(e, st, _) =>
      if pid == mid.nextPid && |mid.procs| < MAX_PROCESSES then InitialContext(e, st) else Alone(s, before, pid)
    case Tick => Alone(s, before, pid)
    case Exit => Alone(s, before, pid)
  }

  ghost predicate NoExit(steps: seq<Step>) {
    forall i :: 0 <= i < |steps| ==> !steps[i].Exit?
  }

  /** The processor runs on the pagemap of the process it runs. */
  ghost predicate Coherent(s: Sched) {
    s.cur < |s.procs| && s.procs[s.cur].state == Running ==> s.active == s.procs[s.cur].pagemap
  }

  lemma HeldIs(s: Sched, i: nat)
    requires Shape(s) && i < |s.procs|
    ensures Present(s, s.procs[i].pid)
    ensures Held(s, s.procs[i].pid) == if i == s.cur && s.procs[i].state == Running then s.frame else s.procs[i].ctx
  {
    var pid := s.procs[i].pid;
    var k := SlotOf(s, pid);
    assert k == i;
  }

  /** A timer switch changes no process's frame, wherever it is kept; it dispatches the next slot with
      the frame that process last had, on that process's pagemap. */
  lemma TickKeepsFrames(s: Sched, i: nat)
    requires Shape(s) && i < |s.procs|
    ensures var t := TickStep(s);
            && Shape(t) && |t.procs| == |s.procs| && t.procs[i].pid == s.procs[i].pid
            && Held(t, s.procs[i].pid) == Held(s, s.procs[i].pid)
            && t.cur == (s.cur + 1) % |s.procs| && Live(t, s.procs[t.cur].pid) && Coherent(t)
  {
    ShapeStep(s, Tick);
    var t := TickStep(s);
    SavedShape(s);
    HeldIs(s, i);
    HeldIs(t, i);
  }

  /** In every run of creations, user steps and switches, every process present has exactly the frame
      of running alone, so a dispatched process receives what it had when it was last switched out,
      or its initial context; and the processor is on the running process's pagemap. */
  lemma {:induction false} Transparent(s: Sched, steps: seq<Step>, pid: nat)
    requires Shape(s) && Coherent(s) && NoExit(steps)
    ensures Shape(Exec(s, steps)) && Coherent(Exec(s, steps))
    ensures Present(s, pid) ==> Present(Exec(s, steps), pid)
    ensures Present(Exec(s, steps), pid) ==> Held(Exec(s, steps), pid) == Alone(s, steps, pid)
  {
    if steps != [] {
      var before, last := steps[..|steps| - 1], steps[|steps| - 1];
      Transparent(s, before, pid);
      var mid := Exec(s, before);
      ShapeStep(mid, last);
      assert !steps[|steps| - 1].Exit?;
      FrameStep(mid, last, pid);
    }
  }

  lemma SlotsStay(s: Sched, step: Step)
    requires Shape(s) && !step.Exit?
    ensures var t := Next(s, step);
            |s.procs| <= |t.procs| && forall i :: 0 <= i < |s.procs| ==> t.procs[i].pid == s.procs[i].pid
  {
    SavedShape(s);
  }

  lemma FrameStep(s: Sched, step: Step, pid: nat)
    requires Shape(s) && !step.Exit?
    ensures var t := Next(s, step);
            && Shape(t) && (Coherent(s) ==> Coherent(t)) && (Present(s, pid) ==> Present(t, pid))
            && (Present(t, pid) ==>
                  match step
                  case User(f) =>
                    Present(s, pid) && Held(t, pid) == if Live(s, pid) then f(Held(s, pid)) else Held(s, pid)
                  case Create(e, st, _) =>
                    if pid == s.nextPid && |s.procs| < MAX_PROCESSES then Held(t, pid) == InitialContext(e, st)
                    else Present(s, pid) && Held(t, pid) == Held(s, pid)
                  case Tick => Present(s, pid) && Held(t, pid) == Held(s, pid)
                  case Exit => true)
  {
    ShapeStep(s, step);
    SlotsStay(s, step);
    var t := Next(s, step);
    if Present(s, pid) {
      var i := SlotOf(s, pid);
      HeldIs(s, i);
      HeldIs(t, i);
      if step.Tick? { TickKeepsFrames(s, i); }
    } else if Present(t, pid) {
      var i := SlotOf(t, pid);
      HeldIs(t, i);
    }
    if step.Tick? && s.procs != [] { TickKeepsFrames(s, 0); }
  }

  // ---------- a new process ----------

  /** A process that has not run yet, with its context and pagemap. */
  ghost predicate NewWith(s: Sched, pid: nat, ctx: Frame, pagemap: nat) {
    exists i :: 0 <= i < |s.procs| && s.procs[i] == Process(pid, New, pagemap, ctx)
  }

  /** It keeps them through every step, exits included, until a switch dispatches it with exactly those. */
  lemma NewStays(s: Sched, step: Step, pid: nat, ctx: Frame, pagemap: nat)
    requires Shape(s) && NewWith(s, pid, ctx, pagemap)
    ensures var t := Next(s, step);
            if step.Tick? && Live(t, pid) then t.frame == ctx && t.active == pagemap
            else NewWith(t, pid, ctx, pagemap)
  {
    var t := Next(s, step);
    var i :| 0 <= i < |s.procs| && s.procs[i] == Process(pid, New, pagemap, ctx);
    ShapeStep(s, step);
    match step
    case User(_) =>
      assert t.procs[i] == s.procs[i];
    case Create(_, _, _) =>
      assert t.procs[i] == s.procs[i];
    case Tick =>
      assert Saved(s)[i] == s.procs[i];
      if t.cur == i {
        assert Live(t, pid);
      } else {
        assert t.procs[i] == s.procs[i];
      }
    case Exit =>
      if s.cur < |s.procs| && s.procs[s.cur].state == Running {
        assert t.procs[if i < s.cur then i else i - 1] == s.procs[i];
      }
  }

  lemma {:induction false} NewThroughRun(s: Sched, steps: seq<Step>, pid: nat, ctx: Frame, pagemap: nat)
    requires Shape(s) && NewWith(s, pid, ctx, pagemap)
    requires forall i :: 0 <= i < |steps| && steps[i].Tick? ==> !Live(Exec(s, steps[..i + 1]), pid)
    ensures Shape(Exec(s, steps)) && NewWith(Exec(s, steps), pid, ctx, pagemap)
  {
    ShapeRun(s, steps);
    if steps != [] {
      hide Shape, Live, NewWith, Next;
      var n := |steps| - 1;
      var before := steps[..n];
      forall i | 0 <= i < |before| && before[i].Tick?
        ensures !Live(Exec(s, before[..i + 1]), pid)
      {
        assert before[..i + 1] == steps[..i + 1] && steps[i].Tick?;
      }
      NewThroughRun(s, before, pid, ctx, pagemap);
      assert steps[..n + 1] == steps;
      assert Exec(s, steps) == Next(Exec(s, before), steps[n]);
      assert steps[n].Tick? ==> !Live(Exec(s, steps), pid);
      NewStays(Exec(s, before), steps[n], pid, ctx, pagemap);
    }
  }

  /** A process created with entry e, stack page st and pagemap pm: whatever is created, run, switched or ended
      in between, the first switch that dispatches it leaves the processor at e with its stack pointer at the
      top of the page, kernel segments, interrupts on, every other register 0, on pagemap pm. */
  lemma FirstDispatch(s: Sched, e: nat, st: nat, pm: nat, steps: seq<Step>)
    requires Shape(s) && |s.procs| < 256
    requires var t := Next(s, Create(e, st, pm));
             && (forall i :: 0 <= i < |steps| && steps[i].Tick? ==> !Live(Exec(t, steps[..i + 1]), s.nextPid))
             && Live(Next(Exec(t, steps), Tick), s.nextPid)
    ensures var end := Next(Exec(Next(s, Create(e, st, pm)), steps), Tick);
            && end.active == pm && end.frame.rip == e && end.frame.rsp == st + 4095
            && end.frame.cs == 0x08 && end.frame.ss == 0x10 && end.frame.rflags == 0x202
            && |end.frame.others| == 20 && forall i :: 0 <= i < 20 ==> end.frame.others[i] == 0
  {
    var t := Next(s, Create(e, st, pm));
    var ctx := InitialContext(e, st);
    ShapeStep(s, Create(e, st, pm));
    assert t.procs[|s.procs|] == Process(s.nextPid, New, pm, ctx);
    assert ctx.rip == e && ctx.rsp == st + 4095 && ctx.cs == 0x08 && ctx.ss == 0x10 && ctx.rflags == 0x202;
    hide Shape, Live, InitialContext, Exec, Next;
    NewThroughRun(t, steps, s.nextPid, ctx, pm);
    NewStays(Exec(t, steps), Tick, s.nextPid, ctx, pm);
  }

  /** An exit takes away the running process's slot, keeps the rest in order, and leaves the processor alone. */
  lemma ExitRemovesOne(s: Sched)
    requires Shape(s) && s.cur < |s.procs| && s.procs[s.cur].state == Running
    ensures var t := ExitStep(s);
            && |t.procs| == |s.procs| - 1
            && (forall i :: 0 <= i < s.cur ==> t.procs[i] == s.procs[i])
            && (forall i :: s.cur <= i < |t.procs| ==> t.procs[i] == s.procs[i + 1])
            && t.frame == s.frame && t.active == s.active && t.nextPid == s.nextPid
            && (t.procs != [] ==> t.cur == if s.cur == |s.procs| - 1 then 0 else s.cur)
  {
    hide Shape;
    var rest := s.procs[..s.cur] + s.procs[s.cur + 1..];
    assert |rest| == |s.procs| - 1;
    if s.cur < |rest| { SmallModulo(s.cur, |rest|); }
  }

  // ---------- what exits break ----------

  /** After an exit the live frame is still the dead process's. If the process that takes the slot has
      already run, the next switch stores that frame over its context. Its context survives if and
      only if it was new, or happened to equal the dead process's frame. */
  lemma ExitThenTick(s: Sched)
    requires Shape(s) && s.cur < |s.procs| && s.procs[s.cur].state == Running && |s.procs| > 1
    ensures var d := ExitStep(s);
            var q := d.procs[d.cur];
            var t := TickStep(d);
            && Shape(t) && Present(t, q.pid)
            && (Held(t, q.pid) == q.ctx <==> q.state == New || q.ctx == s.frame)
  {
    ShapeStep(s, Exit);
    var d := ExitStep(s);
    ShapeStep(d, Tick);
    var t := TickStep(d);
    SavedShape(d);
    HeldIs(t, d.cur);
  }

  /** Two processes created and dispatched in turn: the first exits and the second loses its context. */
  lemma ExitLosesContext(boot: Frame, bootMap: nat) returns (s: Sched)
    ensures s == Exec(Sched([], 0, 0, boot, bootMap), [Create(1, 0, 7), Create(2, 0, 8), Tick, Tick])
    ensures Shape(s) && Coherent(s) && Present(s, 1)
    ensures var t := TickStep(ExitStep(s)); Shape(t) && Present(t, 1) && Held(t, 1) != Held(s, 1)
  {
    BothRanIs(boot, bootMap);
    hide Exec;
    s := BothRan();
    HeldIs(s, 1);
    assert ExitStep(s).procs == [Process(1, Running, 8, InitialContext(2, 0))];
    ExitThenTick(s);
  }

  lemma ExecNext(s: Sched, steps: seq<Step>, x: Step)
    ensures Exec(s, steps + [x]) == Next(Exec(s, steps), x)
  {
    assert (steps + [x])[..|steps|] == steps;
  }

  lemma FourSteps(s: Sched, a: Step, b: Step, c: Step, d: Step)
    ensures Exec(s, [a, b, c, d]) == Next(Next(Next(Next(s, a), b), c), d)
  {
    hide Next;
    assert Exec(s, []) == s;
    ExecNext(s, [], a);
    ExecNext(s, [a], b);
    ExecNext(s, [a, b], c);
    ExecNext(s, [a, b, c], d);
    hide Exec;
    assert [] + [a] == [a] && [a] + [b] == [a, b] && [a, b] + [c] == [a, b, c] && [a, b, c] + [d] == [a, b, c, d];
  }

  function BothRan(): Sched {
    var a, b := InitialContext(1, 0), InitialContext(2, 0);
    Sched([Process(0, Running, 7, a), Process(1, Running, 8, b)], 0, 2, a, 7)
  }

  lemma BothRanIs(boot: Frame, bootMap: nat)
    ensures Exec(Sched([], 0, 0, boot, bootMap), [Create(1, 0, 7), Create(2, 0, 8), Tick, Tick]) == BothRan()
  {
    hide InitialContext, Exec;
    var a, b := InitialContext(1, 0), InitialContext(2, 0);
    var s0 := Sched([], 0, 0, boot, bootMap);
    FourSteps(s0, Create(1, 0, 7), Create(2, 0, 8), Tick, Tick);
    var s1 := Next(s0, Create(1, 0, 7));
    assert s1 == Sched([Process(0, New, 7, a)], 0, 1, boot, bootMap);
    var s2 := Next(s1, Create(2, 0, 8));
    assert s2 == Sched([Process(0, New, 7, a), Process(1, New, 8, b)], 0, 2, boot, bootMap);
    var s3 := Next(s2, Tick);
    assert s3 == Sched([Process(0, New, 7, a), Process(1, Running, 8, b)], 1, 2, b, 8);
    assert Next(s3, Tick) == Sched([Process(0, Running, 7, a), Process(1, Running, 8, b)], 0, 2, a, 7);
  }

  /** The exit in this state would hand the current slot to this process, which has already run. */
  predicate TakesOver(s: Sched, pid: nat) {
    var t := ExitStep(s);
    s.cur < |s.procs| && s.procs[s.cur].state == Running && Live(t, pid)
  }

  /** An exit loses the frame of a process exactly when that process takes over the slot after having run,
      and had another frame than the dead process. */
  lemma ExitKeepsFrame(s: Sched, pid: nat)
    requires Shape(s) && Present(ExitStep(s), pid)
    ensures Shape(ExitStep(s)) && Present(s, pid)
    ensures Held(ExitStep(s), pid) == Held(s, pid) <==> !TakesOver(s, pid) || Held(s, pid) == s.frame
  {
    ShapeStep(s, Exit);
    var t := ExitStep(s);
    var i := SlotOf(t, pid);
    HeldIs(t, i);
    if s.cur < |s.procs| && s.procs[s.cur].state == Running {
      var o := if i < s.cur then i else i + 1;
      assert t.procs[i] == s.procs[o];
      HeldIs(s, o);
    } else {
      HeldIs(s, i);
    }
  }

  /** In every run, exits included, a process that never takes over a slot after having run has exactly the
      frame of running alone. */
  lemma {:induction false} TransparentWithExits(s: Sched, steps: seq<Step>, pid: nat)
    requires Shape(s)
    requires forall i :: 0 <= i < |steps| && steps[i].Exit? ==> !TakesOver(Exec(s, steps[..i]), pid)
    ensures Shape(Exec(s, steps))
    ensures Present(Exec(s, steps), pid) ==> Held(Exec(s, steps), pid) == Alone(s, steps, pid)
  {
    ShapeRun(s, steps);
    if steps != [] {
      hide Shape, TickStep, ExitStep, CreateStep, TakesOver;
      var n := |steps| - 1;
      var before, last := steps[..n], steps[n];
      forall i | 0 <= i < |before| && before[i].Exit?
        ensures !TakesOver(Exec(s, before[..i]), pid)
      {
        assert before[..i] == steps[..i] && steps[i].Exit?;
      }
      TransparentWithExits(s, before, pid);
      var mid := Exec(s, before);
      if last.Exit? {
        assert steps[n].Exit?;
        if Present(ExitStep(mid), pid) { ExitKeepsFrame(mid, pid); }
      } else {
        FrameStep(mid, last, pid);
      }
    }
  }

  // ---------- round robin ----------

  function Ticks(steps: seq<Step>): nat {
    if steps == [] then 0 else Ticks(steps[..|steps| - 1]) + (if steps[|steps| - 1].Tick? then 1 else 0)
  }

  /** Switches until slot j is dispatched, whatever is created meanwhile. */
  function Distance(cur: nat, j: nat): int {
    if j > cur then j - cur else MAX_PROCESSES - cur + j
  }

  ghost predicate DispatchedIn(s: Sched, steps: seq<Step>, j: nat) {
    exists i :: 0 <= i < |steps| && steps[i].Tick? && Exec(s, steps[..i + 1]).cur == j
  }

  /** Either slot j has been dispatched, or every switch has brought it at least one step closer. */
  lemma {:induction false} Approaches(s: Sched, steps: seq<Step>, j: nat)
    requires Shape(s) && j < |s.procs| && NoExit(steps)
    ensures var t := Exec(s, steps);
            && Shape(t) && |s.procs| <= |t.procs| && t.procs[j].pid == s.procs[j].pid
            && (DispatchedIn(s, steps, j) || Distance(t.cur, j) <= Distance(s.cur, j) - Ticks(steps))
  {
    if steps == [] {
    } else {
      hide Shape, Distance, Next, Exec, Ticks;
      var n := |steps| - 1;
      var before := steps[..n];
      Approaches(s, before, j);
      LastStep(s, steps);
      var mid := Exec(s, before);
      ShapeStep(mid, steps[n]);
      ApproachStep(mid, steps[n], j);
      assert steps[..n + 1] == steps;
      if DispatchedIn(s, before, j) {
        StillDispatched(s, steps, j);
      }
    }
  }

  lemma LastStep(s: Sched, steps: seq<Step>)
    requires steps != []
    ensures var n := |steps| - 1;
            && Exec(s, steps) == Next(Exec(s, steps[..n]), steps[n])
            && Ticks(steps) == Ticks(steps[..n]) + if steps[n].Tick? then 1 else 0
  {
  }

  lemma StillDispatched(s: Sched, steps: seq<Step>, j: nat)
    requires steps != [] && DispatchedIn(s, steps[..|steps| - 1], j)
    ensures DispatchedIn(s, steps, j)
  {
    hide Exec;
    var before := steps[..|steps| - 1];
    var i :| 0 <= i < |before| && before[i].Tick? && Exec(s, before[..i + 1]).cur == j;
    assert before[..i + 1] == steps[..i + 1] && steps[i].Tick?;
  }

  lemma ApproachStep(s: Sched, step: Step, j: nat)
    requires Shape(s) && j < |s.procs| && !step.Exit?
    ensures var t := Next(s, step);
            && |s.procs| <= |t.procs| && t.procs[j].pid == s.procs[j].pid
            && ((step.Tick? && t.cur == j) || Distance(t.cur, j) <= Distance(s.cur, j) - (if step.Tick? then 1 else 0))
  {
    if step.Tick? {
      TickKeepsFrames(s, j);
      if (s.cur + 1) % |s.procs| != j {
        StepCloser(s.cur, |s.procs|, j);
      }
    }
  }

  lemma StepCloser(cur: nat, n: nat, j: nat)
    requires cur < n <= MAX_PROCESSES && j < n && (cur + 1) % n != j
    ensures Distance((cur + 1) % n, j) <= Distance(cur, j) - 1
  {
    if cur + 1 < n {
      SmallModulo(cur + 1, n);
    } else {
      assert (cur + 1) % n == 0;
    }
  }

  /** No starvation: in any run without exits, even with creations interleaved, every process present
      is dispatched within 256 switches. */
  lemma BoundedWait(s: Sched, steps: seq<Step>, j: nat)
    requires Shape(s) && j < |s.procs| && NoExit(steps) && Ticks(steps) >= 256
    ensures DispatchedIn(s, steps, j)
  {
    Approaches(s, steps, j);
    ShapeRun(s, steps);
  }

  // ---------- waiting while processes exit ----------

  /** Step i of the run is a switch that dispatches this process. */
  ghost predicate PidDispatchedAt(s: Sched, steps: seq<Step>, i: nat, pid: nat) {
    i < |steps| && steps[i].Tick? && Live(Exec(s, steps[..i + 1]), pid)
  }

  /** The exit in this state would make the process's slot the current one without dispatching it. */
  predicate BecomesCurrent(s: Sched, pid: nat) {
    var t := ExitStep(s);
    s.cur < |s.procs| && s.procs[s.cur].state == Running && t.cur < |t.procs| && t.procs[t.cur].pid == pid
  }

  /** Switches until the process is dispatched. */
  function Wait(s: Sched, pid: nat): int
    requires Shape(s) && Present(s, pid)
  {
    Distance(s.cur, SlotOf(s, pid))
  }

  lemma SlotIs(s: Sched, i: nat)
    requires Shape(s) && i < |s.procs|
    ensures Present(s, s.procs[i].pid) && SlotOf(s, s.procs[i].pid) == i
  {
    var k := SlotOf(s, s.procs[i].pid);
  }

  /** A step without an exit brings a waiting process closer by the switches made, or dispatches it. */
  lemma StepWaits(s: Sched, step: Step, pid: nat)
    requires Shape(s) && Present(s, pid) && !step.Exit?
    ensures var t := Next(s, step);
            && Shape(t) && Present(t, pid)
            && ((step.Tick? && Live(t, pid)) || Wait(t, pid) <= Wait(s, pid) - (if step.Tick? then 1 else 0))
  {
    ShapeStep(s, step);
    SlotsStay(s, step);
    var i := SlotOf(s, pid);
    SlotIs(Next(s, step), i);
    ApproachStep(s, step, i);
    if step.Tick? { TickKeepsFrames(s, i); }
  }

  lemma DistanceAfterExit(cur: nat, n: nat, o: nat)
    requires cur < n <= MAX_PROCESSES && o < n && o != cur
    ensures var cur', i := if cur < n - 1 then cur else 0, if o < cur then o else o - 1;
            i != cur' ==> Distance(cur', i) <= Distance(cur, o)
  {
  }

  lemma ExitCurrent(s: Sched)
    requires Shape(s) && s.cur < |s.procs| && s.procs[s.cur].state == Running && |s.procs| > 1
    ensures var t := ExitStep(s);
            |t.procs| == |s.procs| - 1 && t.cur == if s.cur < |s.procs| - 1 then s.cur else 0
  {
    if s.cur < |s.procs| - 1 { SmallModulo(s.cur, |s.procs| - 1); }
  }

  /** Nor does an exit take it further away, unless it makes its slot the current one. */
  lemma ExitWaits(s: Sched, pid: nat)
    requires Shape(s) && Present(ExitStep(s), pid) && !BecomesCurrent(s, pid)
    ensures Shape(ExitStep(s)) && Present(s, pid) && Wait(ExitStep(s), pid) <= Wait(s, pid)
  {
    ShapeStep(s, Exit);
    var t := ExitStep(s);
    var i := SlotOf(t, pid);
    if s.cur < |s.procs| && s.procs[s.cur].state == Running {
      var o := if i < s.cur then i else i + 1;
      assert t.procs[i] == s.procs[o];
      SlotIs(s, o);
      ExitCurrent(s);
      hide ExitStep, Distance, Shape;
      DistanceAfterExit(s.cur, |s.procs|, o);
    } else {
      SlotIs(s, i);
    }
  }

  /** A process that is there in the end was there all along. */
  lemma StillPresent(s: Sched, step: Step, pid: nat)
    requires Shape(s) && pid < s.nextPid && Present(Next(s, step), pid)
    ensures Present(s, pid) && pid < Next(s, step).nextPid
  {
    var t := Next(s, step);
    ShapeStep(s, step);
    var i := SlotOf(t, pid);
    SavedShape(s);
    if step.Exit? && s.cur < |s.procs| && s.procs[s.cur].state == Running {
      assert t.procs[i] == s.procs[if i < s.cur then i else i + 1];
    } else {
      assert i < |s.procs| && s.procs[i].pid == pid;
    }
  }

  ghost predicate EverDispatched(s: Sched, steps: seq<Step>, pid: nat) {
    exists i: nat :: PidDispatchedAt(s, steps, i, pid)
  }

  /** No exit of the run makes the process's slot the current one. */
  ghost predicate NoHandover(s: Sched, steps: seq<Step>, pid: nat) {
    forall i :: 0 <= i < |steps| && steps[i].Exit? ==> !BecomesCurrent(Exec(s, steps[..i]), pid)
  }

  lemma HandoverPrefix(s: Sched, steps: seq<Step>, pid: nat)
    requires steps != [] && NoHandover(s, steps, pid)
    ensures var n := |steps| - 1;
            NoHandover(s, steps[..n], pid) && (steps[n].Exit? ==> !BecomesCurrent(Exec(s, steps[..n]), pid))
  {
    hide BecomesCurrent, Exec;
    var before := steps[..|steps| - 1];
    forall i | 0 <= i < |before| && before[i].Exit?
      ensures !BecomesCurrent(Exec(s, before[..i]), pid)
    {
      assert before[..i] == steps[..i] && steps[i].Exit?;
    }
  }

  lemma DispatchedPrefix(s: Sched, steps: seq<Step>, pid: nat)
    requires steps != []
    ensures EverDispatched(s, steps[..|steps| - 1], pid) ==> EverDispatched(s, steps, pid)
    ensures steps[|steps| - 1].Tick? && Live(Exec(s, steps), pid) ==> EverDispatched(s, steps, pid)
  {
    hide Exec, Live;
    var n := |steps| - 1;
    var before := steps[..n];
    if EverDispatched(s, before, pid) {
      var i: nat :| PidDispatchedAt(s, before, i, pid);
      assert before[..i + 1] == steps[..i + 1];
      assert PidDispatchedAt(s, steps, i, pid);
    }
    assert steps[..n + 1] == steps;
    assert steps[n].Tick? && Live(Exec(s, steps), pid) ==> PidDispatchedAt(s, steps, n, pid);
  }

  /** Either the process has been dispatched, or every switch has brought it at least one step closer. */
  lemma {:induction false} ApproachesPid(s: Sched, steps: seq<Step>, pid: nat)
    requires Shape(s) && Present(s, pid) && Present(Exec(s, steps), pid) && NoHandover(s, steps, pid)
    ensures Shape(Exec(s, steps))
    ensures EverDispatched(s, steps, pid) || Wait(Exec(s, steps), pid) <= Wait(s, pid) - Ticks(steps)
  {
    ShapeRun(s, steps);
    if steps != [] {
      hide Shape, Exec, Next, Ticks, Wait, BecomesCurrent, NoHandover, EverDispatched, Live, Present;
      var n := |steps| - 1;
      var before, last := steps[..n], steps[n];
      LastStep(s, steps);
      var mid := Exec(s, before);
      ShapeRun(s, before);
      PidsGrow(s, before, pid);
      StillPresent(mid, last, pid);
      HandoverPrefix(s, steps, pid);
      DispatchedPrefix(s, steps, pid);
      ApproachesPid(s, before, pid);
      if last.Exit? {
        NextIsExit(mid, last);
        ExitWaits(mid, pid);
      } else {
        StepWaits(mid, last, pid);
      }
    }
  }

  lemma NextIsExit(s: Sched, step: Step)
    requires step.Exit?
    ensures Next(s, step) == ExitStep(s)
  {
  }

  lemma {:induction false} PidsGrow(s: Sched, steps: seq<Step>, pid: nat)
    requires Shape(s) && Present(s, pid)
    ensures pid < Exec(s, steps).nextPid
  {
    if steps != [] {
      PidsGrow(s, steps[..|steps| - 1], pid);
    }
  }

  /** Bounded waiting with exits: a process still there after 256 switches has been dispatched, unless an exit
      has made its slot the current one. */
  lemma BoundedWaitWithExits(s: Sched, steps: seq<Step>, pid: nat)
    requires Shape(s) && Present(s, pid) && Present(Exec(s, steps), pid) && Ticks(steps) >= 256
    requires NoHandover(s, steps, pid)
    ensures EverDispatched(s, steps, pid)
  {
    ApproachesPid(s, steps, pid);
    var i, j := SlotOf(s, pid), SlotOf(Exec(s, steps), pid);
  }

  // Without that condition there is no bound at all.

  /** A process is created, dispatched, and exits; then comes a switch. */
  function Round(): seq<Step> {
    [Create(3, 0, 9), Tick, Exit, Tick]
  }

  function Rounds(n: nat): seq<Step> {
    if n == 0 then [] else Rounds(n - 1) + Round()
  }

  /** A process never dispatched in slot 0, another running in slot 1. */
  function Waiting(a: Frame, b: Process, next: nat): Sched {
    Sched([Process(0, New, 7, a), b.(state := Running)], 1, next, b.ctx, b.pagemap)
  }

  lemma OneRound(a: Frame, b: Process, next: nat)
    requires 0 < b.pid < next
    ensures var s := Waiting(a, b, next);
            && Next(s, Create(3, 0, 9)).cur == 1
            && Next(Next(s, Create(3, 0, 9)), Tick).cur == 2
            && Next(Next(Next(s, Create(3, 0, 9)), Tick), Exit).cur == 0
            && Next(Next(Next(Next(s, Create(3, 0, 9)), Tick), Exit), Tick) == Waiting(a, b, next + 1)
  {
    hide InitialContext;
    var p, q := Process(0, New, 7, a), b.(state := Running);
    var r := Process(next, New, 9, InitialContext(3, 0));
    var s1 := Next(Waiting(a, b, next), Create(3, 0, 9));
    assert s1 == Sched([p, q, r], 1, next + 1, b.ctx, b.pagemap);
    var s2 := Next(s1, Tick);
    assert s2 == Sched([p, q, r.(state := Running)], 2, next + 1, r.ctx, r.pagemap);
    var s3 := Next(s2, Exit);
    assert s3 == Sched([p, q], 0, next + 1, r.ctx, r.pagemap);
  }

  lemma {:induction false} ExecMore(s: Sched, a: seq<Step>, b: seq<Step>)
    ensures Exec(s, a + b) == Exec(Exec(s, a), b)
    ensures Ticks(a + b) == Ticks(a) + Ticks(b)
  {
    if b == [] {
      assert a + b == a;
    } else {
      var n := |b| - 1;
      ExecMore(s, a, b[..n]);
      assert (a + b)[..|a + b| - 1] == a + b[..n];
    }
  }

  lemma RoundEnds(s: Sched)
    ensures Exec(s, Round()) == Next(Next(Next(Next(s, Create(3, 0, 9)), Tick), Exit), Tick)
    ensures Exec(s, Round()[..2]) == Next(Next(s, Create(3, 0, 9)), Tick)
  {
    hide Next;
    FourSteps(s, Create(3, 0, 9), Tick, Exit, Tick);
    var r := Round();
    assert r[..2] == [Create(3, 0, 9), Tick];
    ExecNext(s, [], Create(3, 0, 9));
    ExecNext(s, [Create(3, 0, 9)], Tick);
    assert [] + [Create(3, 0, 9)] == [Create(3, 0, 9)] && [Create(3, 0, 9)] + [Tick] == r[..2];
  }

  lemma RoundTicks()
    ensures Ticks(Round()) == 2
  {
    var r := Round();
    assert r[..4] == r && r[..0] == [];
    TickCounts(r, 0);
    TickCounts(r, 1);
    TickCounts(r, 2);
    TickCounts(r, 3);
  }

  /** A switch in such a round dispatches slot 1 or 2. */
  lemma RoundSwitch(a: Frame, b: Process, next: nat, x: nat)
    requires 0 < b.pid < next && x < 4 && Round()[x].Tick?
    ensures !Live(Exec(Waiting(a, b, next), Round()[..x + 1]), 0)
  {
    OneRound(a, b, next);
    RoundEnds(Waiting(a, b, next));
    assert Round()[..4] == Round();
  }

  /** Starvation: for any number of rounds, and so any number of switches, the process in slot 0 is never
      dispatched. Each exit makes its slot the current one, and the switch behind it moves on. */
  lemma {:induction false} Starves(a: Frame, b: Process, next: nat, n: nat)
    requires 0 < b.pid < next
    ensures var s := Waiting(a, b, next);
            && Exec(s, Rounds(n)) == Waiting(a, b, next + n) && Ticks(Rounds(n)) == 2 * n
            && !EverDispatched(s, Rounds(n), 0)
  {
    hide Waiting, Live, Next;
    var s := Waiting(a, b, next);
    if n > 0 {
      Starves(a, b, next, n - 1);
      ExecMore(s, Rounds(n - 1), Round());
      OneRound(a, b, next + n - 1);
      RoundEnds(Waiting(a, b, next + n - 1));
      RoundTicks();
      forall i: nat | PidDispatchedAt(s, Rounds(n), i, 0) ensures false {
        RoundsPart(a, b, next, n, i);
      }
    }
  }

  lemma RoundsPart(a: Frame, b: Process, next: nat, n: nat, i: nat)
    requires 0 < b.pid < next && n > 0 && Exec(Waiting(a, b, next), Rounds(n - 1)) == Waiting(a, b, next + n - 1)
    requires !EverDispatched(Waiting(a, b, next), Rounds(n - 1), 0)
    ensures !PidDispatchedAt(Waiting(a, b, next), Rounds(n), i, 0)
  {
    hide Waiting, Live, Exec, EverDispatched;
    var s, pre := Waiting(a, b, next), Rounds(n - 1);
    if i < |pre| {
      assert Rounds(n)[..i + 1] == pre[..i + 1];
      NotDispatched(s, pre, i, 0);
    } else if i < |pre| + 4 {
      var x := i - |pre|;
      assert Rounds(n)[..i + 1] == pre + Round()[..x + 1];
      ExecMore(s, pre, Round()[..x + 1]);
      if Round()[x].Tick? { RoundSwitch(a, b, next + n - 1, x); }
    }
  }

  lemma NotDispatched(s: Sched, steps: seq<Step>, i: nat, pid: nat)
    requires !EverDispatched(s, steps, pid)
    ensures !PidDispatchedAt(s, steps, i, pid)
  {
  }

  /** The starving state is reached from the empty table by two creations and a switch. */
  lemma StarvingIsReached(boot: Frame, bootMap: nat)
    ensures var b := Process(1, Running, 8, InitialContext(2, 0));
            Exec(Sched([], 0, 0, boot, bootMap), [Create(1, 0, 7), Create(2, 0, 8), Tick])
            == Waiting(InitialContext(1, 0), b, 2)
  {
    hide InitialContext;
    var a, b := InitialContext(1, 0), InitialContext(2, 0);
    var s0 := Sched([], 0, 0, boot, bootMap);
    assert [] + [Create(1, 0, 7)] == [Create(1, 0, 7)];
    assert [Create(1, 0, 7)] + [Create(2, 0, 8)] == [Create(1, 0, 7), Create(2, 0, 8)];
    assert [Create(1, 0, 7), Create(2, 0, 8)] + [Tick] == [Create(1, 0, 7), Create(2, 0, 8), Tick];
    ExecNext(s0, [], Create(1, 0, 7));
    ExecNext(s0, [Create(1, 0, 7)], Create(2, 0, 8));
    ExecNext(s0, [Create(1, 0, 7), Create(2, 0, 8)], Tick);
    assert Exec(s0, []) == s0;
    hide Exec;
    var s1 := Next(s0, Create(1, 0, 7));
    assert s1 == Sched([Process(0, New, 7, a)], 0, 1, boot, bootMap);
    var s2 := Next(s1, Create(2, 0, 8));
    assert s2 == Sched([Process(0, New, 7, a), Process(1, New, 8, b)], 0, 2, boot, bootMap);
  }

  // ---------- one round ----------

  /** The slot reached after t rotations from cur. */
  function Turn(cur: nat, t: nat, n: nat): nat
    requires n > 0
  {
    (cur + t) % n
  }

  /** With no creations either, the slot dispatched last is the starting slot plus the switches made. */
  lemma {:induction false} Rotation(s: Sched, steps: seq<Step>)
    requires Shape(s) && s.procs != [] && forall i :: 0 <= i < |steps| ==> steps[i].Tick? || steps[i].User?
    ensures var t := Exec(s, steps);
            Shape(t) && |t.procs| == |s.procs| && t.cur == Turn(s.cur, Ticks(steps), |s.procs|)
  {
    if steps != [] {
      hide Shape, Turn;
      var n := |steps| - 1;
      Rotation(s, steps[..n]);
      var mid := Exec(s, steps[..n]);
      ShapeStep(mid, steps[n]);
      assert steps[n].Tick? || steps[n].User?;
      if steps[n].Tick? {
        hide TickStep;
        TickKeepsFrames(mid, 0);
        NextTurn(s.cur, Ticks(steps[..n]), |s.procs|);
      }
    } else {
      SmallModulo(s.cur, |s.procs|);
    }
  }

  lemma NextTurn(cur: nat, t: nat, n: nat)
    requires n > 0
    ensures (Turn(cur, t, n) + 1) % n == Turn(cur, t + 1, n)
  {
    NextModulo(cur + t, n);
  }

  lemma SmallModulo(x: nat, n: nat)
    requires x < n
    ensures x % n == x
  {
  }

  lemma NextModulo(x: nat, n: nat)
    requires n > 0
    ensures (x % n + 1) % n == (x + 1) % n
  {
    var q, r := x / n, x % n;
    assert x == n * q + r;
    if r + 1 < n {
      ModuloIs(x + 1, n, q, r + 1);
      SmallModulo(r + 1, n);
    } else {
      assert n * (q + 1) == n * q + n;
      ModuloIs(x + 1, n, q + 1, 0);
      ModuloIs(r + 1, n, 1, 0);
    }
  }

  lemma Multiple(n: int, d: int)
    requires n >= 0
    ensures d >= 1 ==> n * d >= n
    ensures d <= -1 ==> n * d <= -n
  {
    if d >= 1 {
      assert n * d == n + n * (d - 1);
    } else if d <= -1 {
      assert n * d == -n + n * (d + 1);
    }
  }

  lemma ModuloIs(a: nat, n: nat, q: nat, r: nat)
    requires r < n && a == n * q + r
    ensures a % n == r
  {
    var d := a / n - q;
    assert n * (a / n) == n * q + n * d;
    Multiple(n, d);
  }

  /** Among any n consecutive rotations each slot comes up exactly once. */
  lemma OneTurnEach(cur: nat, n: nat, j: nat) returns (t: nat)
    requires cur < n && j < n
    ensures 1 <= t <= n && forall u: nat :: 1 <= u <= n ==> (Turn(cur, u, n) == j <==> u == t)
  {
    t := if j > cur then j - cur else n - cur + j;
    if j > cur { ModuloIs(cur + t, n, 0, j); } else { ModuloIs(cur + t, n, 1, j); }
    assert Turn(cur, t, n) == j;
    forall u: nat | 1 <= u <= n && Turn(cur, u, n) == j ensures u == t {
      if cur + u < n { ModuloIs(cur + u, n, 0, cur + u); }
      else if cur + u < 2 * n { ModuloIs(cur + u, n, 1, cur + u - n); }
    }
  }

  /** Step i of the run is a switch that dispatches slot j. */
  ghost predicate DispatchedAt(s: Sched, steps: seq<Step>, i: nat, j: nat) {
    i < |steps| && steps[i].Tick? && Exec(s, steps[..i + 1]).cur == j
  }

  lemma {:induction false} TicksGrow(steps: seq<Step>, i: nat, k: nat)
    requires i <= k <= |steps|
    ensures Ticks(steps[..i]) <= Ticks(steps[..k])
  {
    if i < k {
      TicksGrow(steps, i, k - 1);
      assert steps[..k][..k - 1] == steps[..k - 1];
    }
  }

  lemma TickCounts(steps: seq<Step>, i: nat)
    requires i < |steps|
    ensures Ticks(steps[..i + 1]) == Ticks(steps[..i]) + if steps[i].Tick? then 1 else 0
  {
    assert steps[..i + 1][..i] == steps[..i];
  }

  /** The position of the t-th switch. */
  lemma {:induction false} TickIndex(steps: seq<Step>, t: nat) returns (i: nat)
    requires 1 <= t <= Ticks(steps)
    ensures i < |steps| && steps[i].Tick? && Ticks(steps[..i + 1]) == t
  {
    var n := |steps| - 1;
    if Ticks(steps[..n]) >= t {
      i := TickIndex(steps[..n], t);
      assert steps[..n][..i + 1] == steps[..i + 1];
    } else {
      i := n;
      assert steps[..n + 1] == steps;
    }
  }

  lemma DispatchMeans(s: Sched, steps: seq<Step>, i: nat)
    requires Shape(s) && s.procs != [] && forall k :: 0 <= k < |steps| ==> steps[k].Tick? || steps[k].User?
    requires i < |steps| && steps[i].Tick?
    ensures Exec(s, steps[..i + 1]).cur == Turn(s.cur, Ticks(steps[..i + 1]), |s.procs|)
    ensures 1 <= Ticks(steps[..i + 1]) <= Ticks(steps)
  {
    hide Shape, Turn, Exec, Ticks;
    Rotation(s, steps[..i + 1]);
    TickCounts(steps, i);
    TicksGrow(steps, i + 1, |steps|);
    assert steps[..|steps|] == steps;
  }

  /** In every run of switches and user steps with as many switches as there are processes, each process
      is dispatched exactly once. */
  lemma OncePerRound(s: Sched, steps: seq<Step>, j: nat) returns (i: nat)
    requires Shape(s) && j < |s.procs| && Ticks(steps) == |s.procs|
    requires forall k :: 0 <= k < |steps| ==> steps[k].Tick? || steps[k].User?
    ensures forall k: nat :: DispatchedAt(s, steps, k, j) <==> k == i
  {
    var t := OneTurnEach(s.cur, |s.procs|, j);
    i := TickIndex(steps, t);
    DispatchMeans(s, steps, i);
    hide Shape, Turn, Exec, Ticks;
    forall k: nat | DispatchedAt(s, steps, k, j)
      ensures k == i
    {
      DispatchMeans(s, steps, k);
      TickCounts(steps, k);
      TickCounts(steps, i);
      if k < i { TicksGrow(steps, k + 1, i); } else if i < k { TicksGrow(steps, i + 1, k); }
    }
  }

  // ---------- the scheduler itself ----------

  class RoundRobin {
    const processes: array<Process>
    var processCount: nat
    var currentIndex: nat
    var pidCounter: nat
    /** The frame the interrupt handler returns to, and the pagemap in CR3. */
    var frame: Frame
    var cr3: nat

    ghost predicate Valid()
      reads this, processes
    {
      processes.Length == MAX_PROCESSES && processCount <= MAX_PROCESSES && Shape(State())
    }

    ghost function State(): Sched
      requires processCount <= processes.Length
      reads this, processes
    {
      Sched(processes[..processCount], currentIndex, pidCounter, frame, cr3)
    }

    /** scheduler_init, on a processor whose frame and pagemap are the boot code's. */
    constructor (boot: Frame, bootMap: nat)
      ensures Valid() && fresh(processes)
      ensures State() == Sched([], 0, 0, boot, bootMap)
    {
      processes := new Process[MAX_PROCESSES](_ => Process(0, New, 0, InitialContext(0, 0)));
      processCount, currentIndex, pidCounter := 0, 0, 0;
      frame, cr3 := boot, bootMap;
    }

    /** scheduler_create_process with the frames it is given; -1 when the table is full. */
    method CreateProcess(entry: nat, stack: nat, pagemap: nat) returns (pid: int)
      requires Valid()
      modifies this`processCount, this`pidCounter, processes
      ensures Valid() && State() == CreateStep(old(State()), entry, stack, pagemap)
      ensures pid == if old(processCount) < 256 then old(pidCounter) else -1
      ensures pid != -1 ==>
                && old(processCount) < processes.Length
                && var p := processes[old(processCount)];
                && p.pid == old(pidCounter) && p.state == New && p.pagemap == pagemap
                && p.ctx.rip == entry && p.ctx.rsp == stack + 4095
                && p.ctx.cs == 0x08 && p.ctx.ss == 0x10 && p.ctx.rflags == 0x202
                && |p.ctx.others| == 20 && forall i :: 0 <= i < 20 ==> p.ctx.others[i] == 0
    {
      hide Shape;
      ShapeStep(State(), Create(entry, stack, pagemap));
      if processCount >= MAX_PROCESSES {
        return -1;
      }
      // a zeroed page, then the fields process_create sets
      var ctx := Frame(0, 0, 0, 0, 0, seq(20, i => 0));
      ctx := ctx.(rip := entry);
      ctx := ctx.(rsp := stack + 4095);
      ctx := ctx.(cs := 0x08, ss := 0x10, rflags := 0x202);
      var proc := Process(pidCounter, New, pagemap, ctx);
      pidCounter := pidCounter + 1;
      processes[processCount] := proc;
      processCount := processCount + 1;
      assert processes[..processCount] == old(processes[..processCount]) + [proc];
      return proc.pid;
    }

    method ContextSwitch()
      requires Valid()
      modifies this`currentIndex, this`frame, this`cr3, processes
      ensures Valid() && State() == TickStep(old(State()))
    {
      if processCount == 0 {
        return;
      }
      ghost var s := State();
      assert currentIndex < processCount;
      ShapeTick(s);
      hide Shape, InitialContext;
      if processes[currentIndex].state == Running {
        processes[currentIndex] := processes[currentIndex].(ctx := frame);
      }
      assert processes[..processCount] == Saved(s);
      currentIndex := (currentIndex + 1) % processCount;
      processes[currentIndex] := processes[currentIndex].(state := Running);
      frame := processes[currentIndex].ctx;
      cr3 := processes[currentIndex].pagemap;
      assert processes[..processCount] == Saved(s)[currentIndex := Saved(s)[currentIndex].(state := Running)];
    }

    /** Closes the gap at the current slot. */
    method ShiftDown()
      requires currentIndex < processCount <= processes.Length
      modifies processes
      ensures processes[..processCount - 1] ==
              old(processes[..currentIndex] + processes[currentIndex + 1..processCount])
    {
      for i := currentIndex to processCount - 1
        invariant forall x :: 0 <= x < currentIndex ==> processes[x] == old(processes[x])
        invariant forall x :: currentIndex <= x < i ==> processes[x] == old(processes[x + 1])
        invariant forall x :: i <= x < processCount ==> processes[x] == old(processes[x])
      {
        processes[i] := processes[i + 1];
      }
    }

    /** The table part of scheduler_terminate_current_process. The kernel idles for ever when the
        table becomes empty. */
    method TerminateCurrent()
      requires Valid() && processCount > 0
      modifies this`processCount, this`currentIndex, processes
      ensures Valid() && State() == ExitStep(old(State()))
    {
      ghost var s := State();
      assert currentIndex < processCount;
      ShapeExit(s);
      hide Shape, InitialContext;
      if processes[currentIndex].state != Running {
        return;
      }
      ShiftDown();
      processCount := processCount - 1;
      assert processes[..processCount] == s.procs[..currentIndex] + s.procs[currentIndex + 1..];
      if processCount != 0 {
        currentIndex := currentIndex % processCount;
      }
    }
  }
}
