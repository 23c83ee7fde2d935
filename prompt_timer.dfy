/**
 * The prompt-driven front end (app.ts): the waiting states ask the user to
 * pick the next state from a list and take the guarded transition whose
 * target matches the answer; the timed states poll with TICK and move on
 * once the duration has passed, or return to `idle` on STOP.
 *
 * Unlike the event-driven front end, `break` finishes into
 * `breakFinished` here.
 */
module PromptTimer {
  import opened Wrappers
  import opened Phases
  import opened Lib
  import EventTimer

  const IdleTransitions: seq<string> := ["work", "break", "exit"]
  const WorkFinishedPrompts: seq<string> := ["break", "idle"]
  const BreakFinishedPrompts: seq<string> := ["work", "idle"]

  /** The answers the prompt invoked by a waiting state offers; the other states invoke no prompt. */
  function Choices(p: Phase): (r: seq<string>)
    ensures r == [] <==> IsTimed(p) || p == Exit
    ensures |r| <= 3
  {
    match p
    case Idle => IdleTransitions
    case WorkFinished => WorkFinishedPrompts
    case BreakFinished => BreakFinishedPrompts
    case _ => []
  }

  /**
   * `createOnDone`: one guarded transition per choice, whose guard holds
   * when the answer equals its target. xstate takes the first one that
   * holds; None when none holds.
   */
  function SelectGuarded(targets: seq<string>, answer: string): (r: Option<string>)
    ensures r.Some? <==> answer in targets
    ensures r.Some? ==> r.value == answer
  {
    if targets == [] then None
    else if targets[0] == answer then Some(targets[0])
    else SelectGuarded(targets[1..], answer)
  }

  /** How many of the guards `createOnDone` builds hold for an answer. */
  function GuardsHolding(targets: seq<string>, answer: string): nat {
    if targets == [] then 0
    else (if targets[0] == answer then 1 else 0) + GuardsHolding(targets[1..], answer)
  }

  predicate NoDuplicates(s: seq<string>) {
    forall i, j :: 0 <= i < j < |s| ==> s[i] != s[j]
  }

  /** In a list without repeats, exactly one guard holds for an offered answer and none for any other. */
  lemma {:induction false} OneGuardHolds(targets: seq<string>, answer: string)
    requires NoDuplicates(targets)
    ensures GuardsHolding(targets, answer) == if answer in targets then 1 else 0
  {
    if targets != [] {
      var rest := targets[1..];
      assert NoDuplicates(rest) by {
        forall i, j | 0 <= i < j < |rest| ensures rest[i] != rest[j] {
          assert rest[i] == targets[i + 1] && rest[j] == targets[j + 1];
        }
      }
      OneGuardHolds(rest, answer);
      if targets[0] == answer {
        assert answer !in rest by {
          forall k | 0 <= k < |rest| ensures rest[k] != answer {
            assert rest[k] == targets[k + 1];
          }
        }
      }
      assert answer in targets <==> targets[0] == answer || answer in rest;
    }
  }

  /** The prompt lists have no repeats. */
  lemma ChoicesDistinct(p: Phase)
    ensures NoDuplicates(Choices(p))
  {
  }

  /** The state a transition's target string names. */
  function PhaseNamed(name: string): (r: Option<Phase>)
    ensures r.Some? ==> Name(r.value) == name
    ensures r.None? ==> forall p: Phase :: Name(p) != name
  {
    if name == "idle" then Some(Idle)
    else if name == "work" then Some(Work)
    else if name == "workFinished" then Some(WorkFinished)
    else if name == "break" then Some(Break)
    else if name == "breakFinished" then Some(BreakFinished)
    else if name == "exit" then Some(Exit)
    else None
  }

  /** Every offered answer names a state. */
  lemma ChoicesNamePhases(p: Phase, answer: string)
    requires answer in Choices(p)
    ensures PhaseNamed(answer).Some?
  {
  }

  /** The events the running machine handles: a prompt's answer, the timer's TICK and the stop confirmation. */
  datatype Event = Done(answer: string) | TICK | STOP

  /** `getDuration` of a timed state. */
  function Duration(p: Phase, c: Context): nat {
    DurationOf(Name(p), c)
  }

  /** The TICK guard: a start time is set and at least `duration` minutes have passed since it. */
  predicate TickDue(minute: nat, duration: nat, startTime: Option<int>, now: int)
    requires minute > 0
  {
    startTime.Some? && (now - startTime.value) as real / minute as real >= duration as real
  }

  /** The guard is the integer comparison "elapsed milliseconds at least duration times minute". */
  lemma TickDueWhenElapsed(minute: nat, duration: nat, startTime: Option<int>, now: int)
    requires minute > 0
    ensures TickDue(minute, duration, startTime, now) <==>
      startTime.Some? && now - startTime.value >= duration * minute
  {
    if startTime.Some? {
      var d, m := (now - startTime.value) as real, minute as real;
      assert d / m >= duration as real <==> d >= duration as real * m;
    }
  }

  /**
   * The guard agrees with the progress calculator of lib.ts: in a timed
   * state with the same minute length, the TICK moves on exactly when the
   * progress exists and its fraction is 0.
   */
  lemma TickDueIffProgressDone(minute: nat, p: Phase, c: Context, now: int)
    requires minute > 0 && ValidDurations(c) && IsTimed(p)
    ensures TickDue(minute, Duration(p, c), c.startTime, now) <==>
      GetProgress(minute, Name(p), c, now).Some? && GetProgress(minute, Name(p), c, now).value.percent == 0.0
  {
    TimedByName(p);
    TickDueWhenElapsed(minute, Duration(p, c), c.startTime, now);
  }

  /** The state an event leads to; None when the state has no transition for it or its guard fails. */
  function Target(minute: nat, p: Phase, c: Context, e: Event, now: int): Option<Phase>
    requires minute > 0
  {
    match p
    case Idle | WorkFinished | BreakFinished =>
      (match e
       case Done(answer) =>
         (match SelectGuarded(Choices(p), answer)
          case Some(t) => PhaseNamed(t)
          case None => None)
       case _ => None)
    case Work | Break =>
      (match e
       case TICK =>
         if TickDue(minute, Duration(p, c), c.startTime, now)
         then Some(if p == Work then WorkFinished else BreakFinished)
         else None
       case STOP => Some(Idle)
       case Done(_) => None)
    case Exit => None
  }

  /** A prompt's answer, when offered, leads to the state it names; any other answer is ignored. */
  lemma AnswerSelectsItsState(minute: nat, p: Phase, c: Context, answer: string, now: int)
    requires minute > 0
    ensures answer in Choices(p) ==>
      Target(minute, p, c, Done(answer), now).Some? && Name(Target(minute, p, c, Done(answer), now).value) == answer
    ensures answer !in Choices(p) ==> Target(minute, p, c, Done(answer), now) == None
  {
    if answer in Choices(p) {
      ChoicesNamePhases(p, answer);
    }
  }

  /** `idle` offers exactly work, break and exit. */
  lemma IdleChoices(minute: nat, c: Context, now: int)
    requires minute > 0
    ensures Target(minute, Idle, c, Done("work"), now) == Some(Work)
    ensures Target(minute, Idle, c, Done("break"), now) == Some(Break)
    ensures Target(minute, Idle, c, Done("exit"), now) == Some(Exit)
    ensures forall a :: a != "work" && a != "break" && a != "exit" ==> Target(minute, Idle, c, Done(a), now) == None
  {
  }

  /**
   * In a timed state TICK moves on exactly when the duration has passed:
   * `work` to `workFinished`, `break` to `breakFinished`; STOP always
   * returns to `idle`.
   */
  lemma TimedTransitions(minute: nat, p: Phase, c: Context, now: int)
    requires minute > 0 && IsTimed(p)
    ensures Target(minute, p, c, TICK, now).Some? <==>
      c.startTime.Some? && now - c.startTime.value >= Duration(p, c) * minute
    ensures Target(minute, p, c, TICK, now).Some? ==>
      Target(minute, p, c, TICK, now).value == (if p == Work then WorkFinished else BreakFinished)
    ensures Target(minute, p, c, STOP, now) == Some(Idle)
  {
    TickDueWhenElapsed(minute, Duration(p, c), c.startTime, now);
  }

  /** `exit` is final, and only `idle` leads to it. */
  lemma ExitOnlyFromIdle(minute: nat, p: Phase, c: Context, e: Event, now: int)
    requires minute > 0
    ensures Target(minute, Exit, c, e, now) == None
    ensures Target(minute, p, c, e, now) == Some(Exit) ==> p == Idle
  {
    match p
    case WorkFinished =>
      if e.Done? && e.answer in Choices(p) { assert e.answer == "break" || e.answer == "idle"; }
    case BreakFinished =>
      if e.Done? && e.answer in Choices(p) { assert e.answer == "work" || e.answer == "idle"; }
    case _ =>
  }

  /** Taking a transition: entering `work` or `break` runs `setStartTime`, stamping `now`. */
  function Next(minute: nat, s: State, e: Event, now: int): State
    requires minute > 0
  {
    match Target(minute, s.phase, s.context, e, now)
    case None => s
    case Some(q) =>
      State(q, if IsTimed(q) then s.context.(startTime := Some(now)) else s.context)
  }

  /**
   * An event without a transition (or whose guard fails) changes nothing;
   * a transition sets the target state, entering `work` or `break` stamps
   * `now` as the start time, and nothing else touches the context.
   */
  lemma EntryStampsStartTime(minute: nat, s: State, e: Event, now: int)
    requires minute > 0
    ensures Target(minute, s.phase, s.context, e, now).None? ==> Next(minute, s, e, now) == s
    ensures Target(minute, s.phase, s.context, e, now).Some? ==>
      Next(minute, s, e, now).phase == Target(minute, s.phase, s.context, e, now).value
    ensures Next(minute, s, e, now).context.workDuration == s.context.workDuration
    ensures Next(minute, s, e, now).context.breakDuration == s.context.breakDuration
    ensures Next(minute, s, e, now).context.startTime ==
      if Target(minute, s.phase, s.context, e, now).Some? && IsTimed(Target(minute, s.phase, s.context, e, now).value)
      then Some(now) else s.context.startTime
  {
  }

  /**
   * `breakFinished` is reachable here: from `idle`, choosing break and
   * ticking once the break duration has passed.
   */
  lemma BreakFinishedReachable(minute: nat, c: Context, now: int)
    requires minute > 0
    ensures Next(minute, State(Idle, c), Done("break"), now).phase == Break
    ensures Next(minute, Next(minute, State(Idle, c), Done("break"), now), TICK, now + c.breakDuration * minute).phase
            == BreakFinished
  {
    var s := Next(minute, State(Idle, c), Done("break"), now);
    assert s.context.startTime == Some(now);
    TickDueWhenElapsed(minute, c.breakDuration, s.context.startTime, now + c.breakDuration * minute);
  }

  /** The busylight activity of each state in this front end; the timed states show a steady light. */
  function LightOf(p: Phase): (r: Option<Light>)
    ensures r.None? <==> p == Exit
    ensures r.Some? ==> (r.value.mode == Solid <==> IsTimed(p))
  {
    match p
    case Idle => Some(Light(Pulse, Orange))
    case Work => Some(Light(Solid, Red))
    case WorkFinished => Some(Light(Pulse, Green))
    case Break => Some(Light(Solid, Green))
    case BreakFinished => Some(Light(Pulse, Red))
    case Exit => None
  }

  /** Both front ends show the same signal in every state. */
  lemma LightsAgree(p: Phase)
    ensures LightOf(p) == EventTimer.LightOf(p)
  {
  }

  /** The interpreted machine: current state, context, and the light its activity keeps on. */
  class Timer {
    const minute: nat
    var phase: Phase
    var context: Context
    var light: Option<Light>

    ghost predicate Valid()
      reads this
    {
      minute > 0 && ValidDurations(context) &&
      light == LightOf(phase) &&
      (IsTimed(phase) ==> context.startTime.Some?)
    }

    function Snapshot(): State
      reads this
    {
      State(phase, context)
    }

    /** The initial `idle` state; a debug run uses one-second minutes and a five-minute work interval. */
    constructor (debug: bool)
      ensures Valid()
      ensures minute == if debug then SECOND else MINUTE
      ensures phase == Idle && light == Some(Light(Pulse, Orange))
      ensures context == Context(if debug then 5 else 25, 5, None)
    {
      minute := if debug then SECOND else MINUTE;
      phase := Idle;
      context := Context(if debug then 5 else 25, 5, None);
      light := LightOf(Idle);
    }

    /** Handles one event at time `now`: the new state's light replaces the old one. */
    method Send(e: Event, now: int)
      requires Valid()
      modifies this
      ensures Valid()
      ensures Snapshot() == Next(minute, old(Snapshot()), e, now)
    {
      var target := Target(minute, phase, context, e, now);
      if target.Some? {
        var q := target.value;
        phase := q;
        if IsTimed(q) {
          context := context.(startTime := Some(now));
        }
        light := LightOf(q);
      }
    }
  }
}
