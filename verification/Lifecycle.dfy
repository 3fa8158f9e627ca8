/** The life of a virtual machine in the browser: start, stop, reset and destroy, and the ticks that run it, one
    slice each. Listeners may call back in during any of them, or throw, and awaits let other calls in between. */
module Lifecycle {
  /** Calls on the stack that still have something to do when listeners return. */
  datatype Frame = Starting(gen: nat) | Ticking(gen: nat) | Halting

  datatype Outcome = PoweredOff | Continues | Fails

  datatype Event =
    | Start
    | StartReturns
    | StartThrows
    | Stop
    | Reset
    | ResumeReset
    | ResetThrows
    | Destroy
    | ResumeDestroy
    | Fire(gen: nat)
    | SliceEnds(outcome: Outcome)
    | HaltReturns
    | HaltThrows

  /** `scheduled` holds the generation of each timer that will call tick. */
  datatype Vm = Vm(running: bool, generation: nat, destroyed: bool, scheduled: multiset<nat>, frames: seq<Frame>,
                   resets: nat, destroys: nat)

  const NEW: Vm := Vm(false, 0, false, multiset{}, [], 0, 0)

  // ---- the calls ----

  function AfterStart(s: Vm): Vm
  {
    if s.destroyed || s.running then s
    else s.(running := true, generation := s.generation + 1, frames := s.frames + [Starting(s.generation + 1)])
  }

  function AfterStop(s: Vm): Vm
  {
    if s.destroyed || !s.running then s else s.(running := false, generation := s.generation + 1)
  }

  function AfterReset(s: Vm): Vm
  {
    if s.destroyed || !s.running then s else AfterStop(s).(resets := s.resets + 1)
  }

  function AfterDestroy(s: Vm): Vm
  {
    if s.destroyed then s
    else if s.running then AfterStop(s).(destroys := s.destroys + 1)
    else s.(destroyed := true, generation := s.generation + 1)
  }

  /** A tick runs a slice only if it is running and of the current generation. */
  function AfterFire(s: Vm, g: nat): Vm
  {
    var s1 := s.(scheduled := s.scheduled - multiset{g});
    if !s.running || g != s.generation then s1 else s1.(frames := s1.frames + [Ticking(g)])
  }

  function AfterSlice(s: Vm, g: nat, outcome: Outcome): Vm
  {
    match outcome
    case PoweredOff => s.(running := false, frames := s.frames + [Halting])
    case Fails => s.(running := false)
    case Continues => s.(scheduled := s.scheduled + multiset{g})
  }

  // ---- runs ----

  /** Timers and resumed awaits wait for an empty stack; calls come at any time. */
  predicate Possible(s: Vm, e: Event)
  {
    match e
    case Start => true
    case Stop => true
    case Reset => true
    case Destroy => true
    case StartReturns => s.frames != [] && s.frames[|s.frames| - 1].Starting?
    case StartThrows => s.frames != [] && s.frames[|s.frames| - 1].Starting?
    case HaltReturns => s.frames != [] && s.frames[|s.frames| - 1].Halting?
    case HaltThrows => s.frames != [] && s.frames[|s.frames| - 1].Halting?
    case SliceEnds(_) => s.frames != [] && s.frames[|s.frames| - 1].Ticking?
    case Fire(g) => g in s.scheduled && s.frames == []
    case ResumeReset => s.resets > 0 && s.frames == []
    case ResetThrows => s.resets > 0 && s.frames == []
    case ResumeDestroy => s.destroys > 0 && s.frames == []
  }

  function Step(s: Vm, e: Event): Vm
    requires Possible(s, e)
  {
    match e
    case Start => AfterStart(s)
    case Stop => AfterStop(s)
    case Reset => AfterReset(s)
    case Destroy => AfterDestroy(s)
    case StartReturns =>
      var g := s.frames[|s.frames| - 1].gen;
      s.(frames := s.frames[..|s.frames| - 1], scheduled := s.scheduled + multiset{g})
    case StartThrows => s.(frames := s.frames[..|s.frames| - 1])
    case HaltReturns => s.(frames := s.frames[..|s.frames| - 1])
    case HaltThrows => s.(frames := s.frames[..|s.frames| - 1], running := false)
    case SliceEnds(outcome) =>
      var g := s.frames[|s.frames| - 1].gen;
      AfterSlice(s.(frames := s.frames[..|s.frames| - 1]), g, outcome)
    case Fire(g) => AfterFire(s, g)
    case ResumeReset => AfterStart(s.(resets := s.resets - 1))
    case ResetThrows => s.(resets := s.resets - 1)
    case ResumeDestroy => s.(destroys := s.destroys - 1, destroyed := true, generation := s.generation + 1)
  }

  ghost predicate IsRun(ss: seq<Vm>, es: seq<Event>)
  {
    |ss| == |es| + 1 && ss[0] == NEW &&
    forall i :: 0 <= i < |es| ==> Possible(ss[i], es[i]) && ss[i + 1] == Step(ss[i], es[i])
  }

  predicate SliceBegins(s: Vm, e: Event) {
    e.Fire? && e.gen in s.scheduled && s.frames == [] && s.running && e.gen == s.generation
  }

  // ---- the invariant ----

  predicate IsOf(f: Frame, g: nat) { !f.Halting? && f.gen == g }

  function Count(frames: seq<Frame>, g: nat): nat
  {
    if frames == [] then 0 else Count(frames[..|frames| - 1], g) + (if IsOf(frames[|frames| - 1], g) then 1 else 0)
  }

  /** Ticks of the current generation: scheduled, executing, or about to be scheduled by a start. */
  function Live(s: Vm): nat { s.scheduled[s.generation] + Count(s.frames, s.generation) }

  predicate NotNewer(f: Frame, g: nat) { f.Halting? || f.gen <= g }

  ghost predicate Inv(s: Vm)
  {
    (forall g :: g in s.scheduled ==> g <= s.generation) &&
    (forall i :: 0 <= i < |s.frames| ==> NotNewer(s.frames[i], s.generation)) &&
    Live(s) <= 1 && (s.destroyed ==> Live(s) == 0)
  }

  lemma CountPush(frames: seq<Frame>, f: Frame, g: nat)
    ensures Count(frames + [f], g) == Count(frames, g) + (if IsOf(f, g) then 1 else 0)
  {
    assert (frames + [f])[..|frames|] == frames;
  }

  lemma {:induction false} CountNone(frames: seq<Frame>, g: nat)
    requires g > 0 && forall i :: 0 <= i < |frames| ==> NotNewer(frames[i], g - 1)
    ensures Count(frames, g) == 0
  {
    if frames != [] {
      CountNone(frames[..|frames| - 1], g);
    }
  }

  /** A new generation leaves every older tick behind. */
  lemma NoneNewer(s: Vm)
    requires Inv(s)
    ensures Count(s.frames, s.generation + 1) == 0 && s.scheduled[s.generation + 1] == 0
  {
    CountNone(s.frames, s.generation + 1);
  }

  lemma InvStart(s: Vm)
    requires Inv(s)
    ensures Inv(AfterStart(s))
  {
    NoneNewer(s);
    CountPush(s.frames, Starting(s.generation + 1), s.generation + 1);
  }

  lemma InvStop(s: Vm)
    requires Inv(s)
    ensures Inv(AfterStop(s)) && Inv(AfterReset(s)) && Inv(AfterDestroy(s))
    ensures s.destroys > 0 ==> Inv(s.(destroys := s.destroys - 1, destroyed := true, generation := s.generation + 1))
  {
    NoneNewer(s);
  }

  lemma InvFire(s: Vm, g: nat)
    requires Inv(s) && g in s.scheduled
    ensures Inv(AfterFire(s, g))
  {
    CountPush(s.frames, Ticking(g), g);
    hide Count;
    var m := s.scheduled - multiset{g};
    assert m[s.generation] == s.scheduled[s.generation] - (if g == s.generation then 1 else 0);
    assert forall x :: x in m ==> x in s.scheduled;
  }

  /** Events that leave a frame. */
  predicate Leaves(e: Event) { e.StartReturns? || e.StartThrows? || e.SliceEnds? || e.HaltReturns? || e.HaltThrows? }

  /** Leaving a frame: its tick is scheduled, or given up, or the machine is stopped. */
  lemma InvReturn(s: Vm, e: Event)
    requires Inv(s) && Possible(s, e) && Leaves(e)
    ensures Inv(Step(s, e))
  {
    PopIs(s, e);
    LivePop(s, Step(s, e));
    hide Live, Step, Possible;
  }

  /** One frame less, and its tick scheduled or not. */
  ghost predicate Pops(s: Vm, t: Vm)
  {
    s.frames != [] && t.generation == s.generation && t.destroyed == s.destroyed &&
    var rest, top := s.frames[..|s.frames| - 1], s.frames[|s.frames| - 1];
    (t.frames == rest || t.frames == rest + [Halting]) &&
    (t.scheduled == s.scheduled || (!top.Halting? && t.scheduled == s.scheduled + multiset{top.gen}))
  }

  lemma PopIs(s: Vm, e: Event)
    requires Possible(s, e) && Leaves(e)
    ensures Pops(s, Step(s, e)) && (Step(s, e).running ==> s.running)
    ensures Step(s, e).running && !e.StartThrows? && IsOf(s.frames[|s.frames| - 1], s.generation) ==>
              Step(s, e).scheduled != s.scheduled
  {
    var m, g := s.scheduled, s.frames[|s.frames| - 1];
    if !g.Halting? {
      assert (m + multiset{g.gen})[g.gen] == m[g.gen] + 1;
    }
  }

  lemma LivePop(s: Vm, t: Vm)
    requires Pops(s, t)
    ensures Live(t) == Live(s) -
                       if t.scheduled == s.scheduled && IsOf(s.frames[|s.frames| - 1], s.generation) then 1 else 0
  {
    var rest, top := s.frames[..|s.frames| - 1], s.frames[|s.frames| - 1];
    CountPush(rest, Halting, s.generation);
    if !top.Halting? {
      assert (s.scheduled + multiset{top.gen})[top.gen] == s.scheduled[top.gen] + 1;
    }
  }

  lemma InvStep(s: Vm, e: Event)
    requires Inv(s) && Possible(s, e)
    ensures Inv(Step(s, e))
  {
    hide Inv, AfterStart, AfterStop, AfterReset, AfterDestroy, AfterFire, AfterSlice;
    match e {
      case Start => InvStart(s);
      case Stop => InvStop(s);
      case Reset => InvStop(s);
      case Destroy => InvStop(s);
      case ResumeDestroy => InvStop(s);
      case Fire(g) => InvFire(s, g);
      case ResumeReset =>
        InvResets(s, s.resets - 1);
        InvStart(s.(resets := s.resets - 1));
      case ResetThrows => InvResets(s, s.resets - 1);
      case StartReturns => InvReturn(s, e);
      case StartThrows => InvReturn(s, e);
      case SliceEnds(_) => InvReturn(s, e);
      case HaltReturns => InvReturn(s, e);
      case HaltThrows => InvReturn(s, e);
    }
  }

  lemma InvResets(s: Vm, n: nat)
    requires Inv(s)
    ensures Inv(s.(resets := n))
  {
  }

  lemma {:induction false} InvRun(ss: seq<Vm>, es: seq<Event>, i: nat)
    requires IsRun(ss, es) && i < |ss|
    ensures Inv(ss[i])
  {
    if i > 0 {
      InvRun(ss, es, i - 1);
      InvStep(ss[i - 1], es[i - 1]);
    }
  }

  // ---- what follows ----

  /** The generations whose start listener threw, after the first `i` events. */
  ghost function Thrown(ss: seq<Vm>, es: seq<Event>, i: nat): set<nat>
    requires IsRun(ss, es) && i < |ss|
  {
    if i == 0 then {} else ThrownBy(ss[i - 1], es[i - 1], Thrown(ss, es, i - 1))
  }

  function ThrownBy(s: Vm, e: Event, lost: set<nat>): set<nat>
    requires Possible(s, e)
  {
    if e.StartThrows? then lost + {s.frames[|s.frames| - 1].gen} else lost
  }

  /** A machine that runs has its tick exactly if the start of its generation was not lost. */
  ghost predicate Ticks(s: Vm, lost: set<nat>)
  {
    Inv(s) && (forall g :: g in lost ==> g <= s.generation) && (s.generation in lost ==> Live(s) == 0) &&
    (s.running && !s.destroyed && s.generation !in lost ==> Live(s) == 1)
  }

  lemma TicksReturn(s: Vm, e: Event, lost: set<nat>)
    requires Ticks(s, lost) && Possible(s, e) && Leaves(e)
    ensures Ticks(Step(s, e), ThrownBy(s, e, lost))
  {
    InvReturn(s, e);
    PopIs(s, e);
    LivePop(s, Step(s, e));
    hide Live, Inv, Pops;
  }

  lemma TicksStep(s: Vm, e: Event, lost: set<nat>)
    requires Ticks(s, lost) && Possible(s, e)
    ensures Ticks(Step(s, e), ThrownBy(s, e, lost))
  {
    InvStep(s, e);
    if Leaves(e) {
      TicksReturn(s, e, lost);
    } else {
      CallLive(s, e);
      hide Live, Inv;
    }
  }

  /** Calls and timers: the tick of the generation stays while it runs, and a new generation that runs has one. */
  lemma CallLive(s: Vm, e: Event)
    requires Inv(s) && Possible(s, e) && !Leaves(e)
    ensures var t := Step(s, e);
            if t.generation == s.generation then
              Live(t) <= Live(s) && (s.running ==> Live(t) == Live(s)) && t.running == s.running &&
              t.destroyed == s.destroyed
            else t.generation == s.generation + 1 && (t.running && !t.destroyed ==> Live(t) == 1)
  {
    hide Inv, Count;
    if e.Fire? {
      FireLive(s, e.gen);
    } else if e.Start? {
      StartLive(s);
    } else if e.ResumeReset? {
      InvResets(s, s.resets - 1);
      StartLive(s.(resets := s.resets - 1));
    }
  }

  lemma StartLive(s: Vm)
    requires Inv(s)
    ensures !s.destroyed && !s.running ==> Live(AfterStart(s)) == 1
  {
    NoneNewer(s);
    CountPush(s.frames, Starting(s.generation + 1), s.generation + 1);
  }

  lemma FireLive(s: Vm, g: nat)
    requires g in s.scheduled
    ensures Live(AfterFire(s, g)) <= Live(s) && (s.running ==> Live(AfterFire(s, g)) == Live(s))
  {
    CountPush(s.frames, Ticking(g), s.generation);
    var m := s.scheduled - multiset{g};
    assert m[s.generation] == s.scheduled[s.generation] - (if g == s.generation then 1 else 0);
  }

  lemma {:induction false} TicksRun(ss: seq<Vm>, es: seq<Event>, i: nat)
    requires IsRun(ss, es) && i < |ss|
    ensures Ticks(ss[i], Thrown(ss, es, i))
  {
    if i > 0 {
      TicksRun(ss, es, i - 1);
      TicksStep(ss[i - 1], es[i - 1], Thrown(ss, es, i - 1));
    }
  }

  /** In every run at most one live tick exists. While a machine that was not destroyed runs there is one, if and only
      if no listener threw when it was started. */
  lemma OneLiveTick(ss: seq<Vm>, es: seq<Event>, i: nat)
    requires IsRun(ss, es) && i < |ss|
    ensures ss[i].scheduled[ss[i].generation] <= Live(ss[i]) <= 1
    ensures ss[i].running && !ss[i].destroyed ==> (Live(ss[i]) == 1 <==> ss[i].generation !in Thrown(ss, es, i))
  {
    TicksRun(ss, es, i);
  }

  /** A tick that was lost does not come back within its generation. */
  lemma {:induction false} LostStays(ss: seq<Vm>, es: seq<Event>, i: nat, j: nat)
    requires IsRun(ss, es) && i <= j < |es| && Live(ss[i]) == 0 && ss[j].generation == ss[i].generation
    ensures Live(ss[j]) == 0 && !SliceBegins(ss[j], es[j])
    decreases j
  {
    if i < j {
      LaterGeneration(ss, es, i, j - 1);
      LaterGeneration(ss, es, j - 1, j);
      LostStays(ss, es, i, j - 1);
      NoGain(ss[j - 1], es[j - 1]);
    }
  }

  lemma {:induction false} LaterGeneration(ss: seq<Vm>, es: seq<Event>, i: nat, j: nat)
    requires IsRun(ss, es) && i <= j < |ss|
    ensures ss[i].generation <= ss[j].generation
    decreases j
  {
    if i < j {
      LaterGeneration(ss, es, i, j - 1);
    }
  }

  lemma NoGain(s: Vm, e: Event)
    requires Possible(s, e) && Step(s, e).generation == s.generation && Live(s) == 0
    ensures Live(Step(s, e)) == 0
  {
    if Leaves(e) {
      PopIs(s, e);
      LivePop(s, Step(s, e));
    } else if e.Fire? {
      FireGain(s, e.gen);
    }
  }

  lemma FireGain(s: Vm, g: nat)
    requires g in s.scheduled && Live(s) == 0
    ensures Live(AfterFire(s, g)) == 0
  {
    assert s.scheduled[s.generation] == 0 && g != s.generation;
  }

  /** A listener throws on the first start: the machine counts as running, has no tick, and starting it again does
      nothing. */
  lemma StartLost() returns (ss: seq<Vm>, es: seq<Event>)
    ensures IsRun(ss, es) && es == [Start, StartThrows, Start]
    ensures ss[3].running && Live(ss[3]) == 0
  {
    var s1 := AfterStart(NEW);
    var s2 := s1.(frames := []);
    assert s1.frames[..0] == [];
    ss, es := [NEW, s1, s2, s2], [Start, StartThrows, Start];
    assert ss[3].scheduled[1] == 0;
  }

  /** After a stop no slice begins until the next start, or the start that ends a reset. */
  lemma {:induction false} NoSliceUntilStart(ss: seq<Vm>, es: seq<Event>, i: nat, j: nat)
    requires IsRun(ss, es) && i <= j < |es| && !ss[i].running
    requires forall k :: i <= k < j ==> !es[k].Start? && !es[k].ResumeReset?
    ensures !ss[j].running && !SliceBegins(ss[j], es[j])
    decreases j
  {
    if i < j {
      NoSliceUntilStart(ss, es, i, j - 1);
    }
  }

  /** After destroy no slice ever begins again. */
  lemma {:induction false} NoSliceAfterDestroy(ss: seq<Vm>, es: seq<Event>, i: nat, j: nat)
    requires IsRun(ss, es) && i <= j < |es| && ss[i].destroyed
    ensures ss[j].destroyed && !SliceBegins(ss[j], es[j])
    decreases j
  {
    if i < j {
      NoSliceAfterDestroy(ss, es, i, j - 1);
    }
    InvRun(ss, es, j);
  }

  // ---- what the calls do, by their names ----

  /** Events that make a machine run, end its running, or end it. */
  predicate Starts(e: Event) { e == Start || e == ResumeReset }

  predicate Halts(e: Event) { e == Stop || e == Reset || e == Destroy || Ends(e) }

  predicate Ends(e: Event) { e == SliceEnds(PoweredOff) || e == SliceEnds(Fails) || e == HaltThrows }

  /** What one event of a run does to whether the machine runs and is destroyed. */
  lemma RunningChanges(ss: seq<Vm>, es: seq<Event>, i: nat)
    requires IsRun(ss, es) && i < |es|
    ensures var s, e, t := ss[i], es[i], ss[i + 1];
            (Starts(e) && !s.destroyed ==> t.running) && (Halts(e) && !s.destroyed ==> !t.running) &&
            (Ends(e) ==> !t.running) && (!Starts(e) && !Halts(e) ==> t.running == s.running)
    ensures var s, e, t := ss[i], es[i], ss[i + 1];
            t.destroyed <==> s.destroyed || e == ResumeDestroy || (e == Destroy && !s.running)
    ensures var s, e, t := ss[i], es[i], ss[i + 1];
            s.running && !s.destroyed && (e == Stop || e == Reset || e == Destroy) ==>
              t.generation > s.generation && (e == Reset ==> t.resets > s.resets) &&
              (e == Destroy ==> t.destroys > s.destroys)
  {
    assert Possible(ss[i], es[i]) && ss[i + 1] == Step(ss[i], es[i]);
  }

  /** After stop, or reset or destroy, which stop, and after a slice that powers off or fails: no slice begins until
      the next start, or the start that ends a reset. */
  lemma HaltHalts(ss: seq<Vm>, es: seq<Event>, i: nat, j: nat)
    requires IsRun(ss, es) && i < j < |es| && Halts(es[i]) && (Ends(es[i]) || !ss[i].destroyed)
    requires forall k :: i < k < j ==> !Starts(es[k])
    ensures !ss[j].running && !SliceBegins(ss[j], es[j])
  {
    hide Step, IsRun, SliceBegins;
    RunningChanges(ss, es, i);
    NoSliceUntilStart(ss, es, i + 1, j);
  }

  /** A tick from before a stop never runs a slice, even if the machine was started again meanwhile. */
  lemma NoStaleTick(ss: seq<Vm>, es: seq<Event>, i: nat, j: nat)
    requires IsRun(ss, es) && i < j < |es| && (es[i] == Stop || es[i] == Reset || es[i] == Destroy)
    requires ss[i].running && !ss[i].destroyed && es[j].Fire? && es[j].gen in ss[i].scheduled
    ensures !SliceBegins(ss[j], es[j])
  {
    hide Step, Possible;
    RunningChanges(ss, es, i);
    InvRun(ss, es, i);
    LaterGeneration(ss, es, i + 1, j);
  }

  /** After a start, or the start that ends a reset, a machine that was not destroyed runs until something halts it. */
  lemma {:induction false} StartRuns(ss: seq<Vm>, es: seq<Event>, i: nat, j: nat)
    requires IsRun(ss, es) && i < j < |ss| && Starts(es[i]) && !ss[i].destroyed
    requires forall k :: i < k < j ==> !Halts(es[k]) && es[k] != ResumeDestroy
    ensures ss[j].running && !ss[j].destroyed
    decreases j
  {
    hide Step, Possible;
    RunningChanges(ss, es, j - 1);
    if i < j - 1 {
      StartRuns(ss, es, i, j - 1);
    }
  }

  /** A machine is destroyed when the rest of destroy has run, at once if it was not running; then no slice ever
      begins. */
  lemma DestroyDestroys(ss: seq<Vm>, es: seq<Event>, i: nat, j: nat)
    requires IsRun(ss, es) && i < j < |es| && (es[i] == ResumeDestroy || (es[i] == Destroy && !ss[i].running))
    ensures ss[j].destroyed && !SliceBegins(ss[j], es[j])
  {
    hide Step, IsRun, Possible, SliceBegins;
    RunningChanges(ss, es, i);
    NoSliceAfterDestroy(ss, es, i + 1, j);
  }

  /** A start that returns leaves its tick scheduled, and so does a slice that continues. */
  lemma TickFollows(ss: seq<Vm>, es: seq<Event>, i: nat)
    requires IsRun(ss, es) && i < |es| && (es[i] == StartReturns || es[i] == SliceEnds(Continues))
    ensures ss[i].frames != [] && !ss[i].frames[|ss[i].frames| - 1].Halting?
    ensures var g := ss[i].frames[|ss[i].frames| - 1].gen; ss[i + 1].scheduled[g] == ss[i].scheduled[g] + 1
  {
    assert Possible(ss[i], es[i]) && ss[i + 1] == Step(ss[i], es[i]);
  }

  // ---- the object ----

  /** The fields as the methods update them. A method that notifies listeners half-way is two methods here, the
      second being what is left to do when the listeners have returned. */
  class Machine {
    var running: bool
    var generation: nat
    var destroyed: bool
    var scheduled: multiset<nat>
    var frames: seq<Frame>
    var resets: nat
    var destroys: nat

    function State(): Vm
      reads this
    {
      Vm(running, generation, destroyed, scheduled, frames, resets, destroys)
    }

    constructor ()
      ensures State() == NEW && Inv(State())
    {
      running, generation, destroyed, scheduled, frames, resets, destroys := false, 0, false, multiset{}, [], 0, 0;
    }

    method Start()
      requires Inv(State())
      modifies this
      ensures State() == Step(old(State()), Event.Start) && Inv(State())
      ensures !old(destroyed) ==> running && (!old(running) ==> generation == old(generation) + 1)
    {
      InvStep(State(), Event.Start);
      if destroyed || running {
        return;
      }
      running := true;
      generation := generation + 1;
      frames := frames + [Starting(generation)];
    }

    method FinishStart()
      requires Inv(State()) && Possible(State(), StartReturns)
      modifies this
      ensures State() == Step(old(State()), StartReturns) && Inv(State())
    {
      InvStep(State(), StartReturns);
      var g := frames[|frames| - 1].gen;
      frames := frames[..|frames| - 1];
      scheduled := scheduled + multiset{g};
    }

    /** A start listener throws, and nothing is scheduled. */
    method AbandonStart()
      requires Inv(State()) && Possible(State(), StartThrows)
      modifies this
      ensures State() == Step(old(State()), StartThrows) && Inv(State())
    {
      InvStep(State(), StartThrows);
      frames := frames[..|frames| - 1];
    }

    method Stop()
      requires Inv(State())
      modifies this
      ensures State() == Step(old(State()), Event.Stop) && Inv(State())
      ensures !old(destroyed) ==> !running && (old(running) ==> generation == old(generation) + 1)
    {
      InvStep(State(), Event.Stop);
      if destroyed || !running {
        return;
      }
      running := false;
      generation := generation + 1;
    }

    method Reset()
      requires Inv(State())
      modifies this
      ensures State() == Step(old(State()), Event.Reset) && Inv(State())
    {
      InvStep(State(), Event.Reset);
      var restart := !destroyed && running;
      if restart {
        Stop();
        resets := resets + 1;
      }
    }

    /** After the stop that a reset waited for: it starts the machine again, unless something else did. */
    method FinishReset()
      requires Inv(State()) && Possible(State(), ResumeReset)
      modifies this
      ensures State() == Step(old(State()), ResumeReset) && Inv(State())
    {
      InvStep(State(), ResumeReset);
      hide Inv;
      resets := resets - 1;
      if destroyed || running {
        return;
      }
      running := true;
      generation := generation + 1;
      frames := frames + [Starting(generation)];
    }

    /** Assembling the machine again, or a listener that is told of it, throws. */
    method AbandonReset()
      requires Inv(State()) && Possible(State(), ResetThrows)
      modifies this
      ensures State() == Step(old(State()), ResetThrows) && Inv(State())
    {
      InvStep(State(), ResetThrows);
      resets := resets - 1;
    }

    method Destroy()
      requires Inv(State())
      modifies this
      ensures State() == Step(old(State()), Event.Destroy) && Inv(State())
    {
      InvStep(State(), Event.Destroy);
      if destroyed {
        return;
      }
      if running {
        Stop();
        destroys := destroys + 1;
        return;
      }
      destroyed := true;
      generation := generation + 1;
    }

    method FinishDestroy()
      requires Inv(State()) && Possible(State(), ResumeDestroy)
      modifies this
      ensures State() == Step(old(State()), ResumeDestroy) && Inv(State())
    {
      InvStep(State(), ResumeDestroy);
      destroys := destroys - 1;
      destroyed := true;
      generation := generation + 1;
    }

    /** A timer calls tick; `begins` says whether it runs a slice. */
    method Tick(g: nat) returns (begins: bool)
      requires Inv(State()) && Possible(State(), Fire(g))
      modifies this
      ensures State() == Step(old(State()), Fire(g)) && Inv(State()) && begins == SliceBegins(old(State()), Fire(g))
    {
      InvStep(State(), Fire(g));
      scheduled := scheduled - multiset{g};
      if !running || g != generation {
        return false;
      }
      frames := frames + [Ticking(g)];
      return true;
    }

    method FinishTick(outcome: Outcome)
      requires Inv(State()) && Possible(State(), SliceEnds(outcome))
      modifies this
      ensures State() == Step(old(State()), SliceEnds(outcome)) && Inv(State())
    {
      InvStep(State(), SliceEnds(outcome));
      var g := frames[|frames| - 1].gen;
      frames := frames[..|frames| - 1];
      if outcome.Continues? {
        scheduled := scheduled + multiset{g};
        return;
      }
      running := false;
      if outcome.PoweredOff? {
        frames := frames + [Halting];
      }
    }

    /** The listeners that are told of a machine that powered off return, or one throws: then it counts as failed, even
        if another has started it again. */
    method FinishHalt(throws: bool)
      requires Inv(State()) && Possible(State(), if throws then HaltThrows else HaltReturns)
      modifies this
      ensures State() == Step(old(State()), if throws then HaltThrows else HaltReturns) && Inv(State())
    {
      InvStep(State(), if throws then HaltThrows else HaltReturns);
      frames := frames[..|frames| - 1];
      if throws {
        running := false;
      }
    }
  }
}
