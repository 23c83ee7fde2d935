/**
 * The event-driven front end (app.tsx): a strict state machine whose
 * transition table is data, a FINISHED event raised when the progress of
 * the running interval reaches 0, a menu built from the events the current
 * state accepts, and a busylight signal per state.
 *
 * The table is reproduced as written: `break` finishes into
 * `workFinished`, so `breakFinished` can never be entered.
 */
module EventTimer {
  import opened Wrappers
  import opened Decimal
  import opened Phases
  import opened Lib

  /** The event types the machine declares. */
  datatype Event = WORK | BREAK | EXIT | FINISHED | STOP

  function EventName(e: Event): string {
    match e
    case WORK => "WORK"
    case BREAK => "BREAK"
    case EXIT => "EXIT"
    case FINISHED => "FINISHED"
    case STOP => "STOP"
  }

  /**
   * The machine is strict: an event type it does not declare is an error,
   * not a silently ignored event.
   */
  function ParseEvent(name: string): (r: Option<Event>)
    ensures r.Some? ==> EventName(r.value) == name
    ensures r.None? ==> forall e: Event :: EventName(e) != name
  {
    if name == "WORK" then Some(WORK)
    else if name == "BREAK" then Some(BREAK)
    else if name == "EXIT" then Some(EXIT)
    else if name == "FINISHED" then Some(FINISHED)
    else if name == "STOP" then Some(STOP)
    else None
  }

  /** One entry of a state's `on` block. */
  datatype Transition = Transition(on: Event, target: Phase)

  /**
   * The `on` block of each state, in the order the configuration lists it.
   * An `on` block is an object keyed by event type, so no event has two
   * entries; only `exit` has none.
   */
  function Table(p: Phase): (r: seq<Transition>)
    ensures forall i, j :: 0 <= i < j < |r| ==> r[i].on != r[j].on
    ensures r == [] <==> p == Exit
  {
    match p
    case Idle => [Transition(WORK, Work), Transition(BREAK, Break), Transition(EXIT, Exit)]
    case Work => [Transition(FINISHED, WorkFinished), Transition(STOP, Idle)]
    case WorkFinished => [Transition(BREAK, Break), Transition(STOP, Idle)]
    case Break => [Transition(FINISHED, WorkFinished), Transition(STOP, Idle)]
    case BreakFinished => [Transition(WORK, Work), Transition(STOP, Idle)]
    case Exit => []
  }

  /** The target of the first entry for `e`, if there is one. */
  function Lookup(ts: seq<Transition>, e: Event): (r: Option<Phase>)
    ensures r.Some? <==> exists i :: 0 <= i < |ts| && ts[i].on == e
    ensures r.Some? ==> exists i :: 0 <= i < |ts| && ts[i] == Transition(e, r.value)
  {
    if ts == [] then None
    else if ts[0].on == e then Some(ts[0].target)
    else
      var r := Lookup(ts[1..], e);
      assert forall i :: 0 < i < |ts| ==> ts[i] == ts[1..][i - 1];
      r
  }

  /** The state `e` leads to from `p`; None when `p` has no entry for `e`. */
  function Step(p: Phase, e: Event): (r: Option<Phase>)
    ensures r.None? <==> forall t :: t in Table(p) ==> t.on != e
    ensures r.Some? ==> Transition(e, r.value) in Table(p)
  {
    Lookup(Table(p), e)
  }

  /** The event types of a list of entries, in order. */
  function EventsOf(ts: seq<Transition>): (es: seq<Event>)
    ensures |es| == |ts|
    ensures forall i :: 0 <= i < |ts| ==> es[i] == ts[i].on
  {
    if ts == [] then [] else [ts[0].on] + EventsOf(ts[1..])
  }

  /** xstate's `nextEvents`: the event types the state has an entry for. */
  function NextEvents(p: Phase): seq<Event> {
    EventsOf(Table(p))
  }

  /** `Array.filter(e => e !== x)`: the elements other than x, in their order. */
  function Without(es: seq<Event>, x: Event): (r: seq<Event>)
    ensures forall e :: e in r <==> e in es && e != x
    ensures |r| <= |es|
  {
    if es == [] then []
    else if es[0] == x then Without(es[1..], x)
    else [es[0]] + Without(es[1..], x)
  }

  /** Filtering a concatenation filters each part: the order of the kept events is the original one. */
  lemma {:induction false} WithoutConcat(a: seq<Event>, b: seq<Event>, x: Event)
    ensures Without(a + b, x) == Without(a, x) + Without(b, x)
    decreases |a|
  {
    if a == [] {
      assert a + b == b;
    } else {
      assert (a + b)[0] == a[0] && (a + b)[1..] == a[1..] + b;
      WithoutConcat(a[1..], b, x);
    }
  }

  /** A single event is kept exactly when it differs from x. */
  lemma WithoutSingle(y: Event, x: Event)
    ensures Without([y], x) == if y == x then [] else [y]
  {
  }

  /** The menu: the events the state accepts, without the internal FINISHED. */
  function MenuItems(p: Phase): seq<Event> {
    Without(NextEvents(p), FINISHED)
  }

  /** The menu offers exactly the user events that move the machine. */
  lemma MenuOffersLegalEvents(p: Phase, e: Event)
    ensures e in MenuItems(p) <==> e != FINISHED && Step(p, e).Some?
  {
    assert e in NextEvents(p) <==> exists i :: 0 <= i < |Table(p)| && Table(p)[i].on == e;
  }

  lemma MenuExamples()
    ensures MenuItems(Idle) == [WORK, BREAK, EXIT]
    ensures MenuItems(Work) == [STOP]
    ensures MenuItems(WorkFinished) == [BREAK, STOP]
    ensures MenuItems(Break) == [STOP]
    ensures MenuItems(BreakFinished) == [WORK, STOP]
    ensures MenuItems(Exit) == []
  {
  }

  /** `exit` is final: no event leaves it. */
  lemma ExitIsFinal(e: Event)
    ensures Step(Exit, e) == None
  {
  }

  /** No entry of the table targets `breakFinished`. */
  lemma NothingEntersBreakFinished(p: Phase, e: Event)
    ensures Step(p, e) != Some(BreakFinished)
  {
  }

  /** The state after a sequence of events; an event without an entry leaves the state. */
  function Run(p: Phase, es: seq<Event>): Phase
    decreases |es|
  {
    if es == [] then p
    else
      var q := match Step(p, es[0]) case Some(t) => t case None => p;
      Run(q, es[1..])
  }

  /** Starting anywhere but `breakFinished`, no sequence of events ever reaches it. */
  lemma {:induction false} BreakFinishedUnreachable(p: Phase, es: seq<Event>)
    requires p != BreakFinished
    ensures Run(p, es) != BreakFinished
    decreases |es|
  {
    if es != [] {
      NothingEntersBreakFinished(p, es[0]);
      var q := match Step(p, es[0]) case Some(t) => t case None => p;
      BreakFinishedUnreachable(q, es[1..]);
    }
  }

  /** Every other state is reachable from the initial `idle`. */
  lemma OtherPhasesReachable()
    ensures Run(Idle, []) == Idle
    ensures Run(Idle, [WORK]) == Work
    ensures Run(Idle, [WORK, FINISHED]) == WorkFinished
    ensures Run(Idle, [BREAK]) == Break
    ensures Run(Idle, [EXIT]) == Exit
  {
    assert [WORK, FINISHED][1..] == [FINISHED];
  }

  /**
   * The busylight activity of each state; `exit` has none, so the light is
   * off. The timed states show a steady light, the waiting states a pulse.
   */
  function LightOf(p: Phase): (r: Option<Light>)
    ensures r.None? <==> p == Exit
    ensures r.Some? ==> (r.value.mode == Solid <==> IsTimed(p))
  {
    match p
    case Idle => Some(Light(Pulse, Orange))
    case Work => Some(Light(Solid, Red))
    case WorkFinished => Some(Light(Pulse, Green))
    case Break => Some(Light(Solid, Green))
    case BreakFinished => Some(Light(Pulse, Red))
    case Exit => None
  }

  /**
   * Taking the entry for `e`: entering `work` or `break` runs
   * `setStartTime`, which overwrites the start time with `now`; nothing
   * else touches the context.
   */
  function Next(s: State, e: Event, now: int): State {
    match Step(s.phase, e)
    case None => s
    case Some(q) =>
      State(q, if IsTimed(q) then s.context.(startTime := Some(now)) else s.context)
  }

  /**
   * The start time is that of the latest entry into a timed state: an
   * entry stamps `now`, and every other event keeps the old start time
   * (it is never cleared) and both durations. An event the state has no
   * entry for changes nothing.
   */
  lemma StartTimeOfLatestEntry(s: State, e: Event, now: int)
    ensures Step(s.phase, e).None? ==> Next(s, e, now) == s
    ensures Next(s, e, now).context.workDuration == s.context.workDuration
    ensures Next(s, e, now).context.breakDuration == s.context.breakDuration
    ensures Step(s.phase, e).Some? && IsTimed(Step(s.phase, e).value)
            ==> Next(s, e, now).phase == Step(s.phase, e).value && Next(s, e, now).context.startTime == Some(now)
    ensures !(Step(s.phase, e).Some? && IsTimed(Step(s.phase, e).value))
            ==> Next(s, e, now).context.startTime == s.context.startTime
  {
  }

  /** The state `Next` moves to is the one the table run over that single event gives. */
  lemma NextFollowsRun(s: State, e: Event, now: int)
    ensures Next(s, e, now).phase == Run(s.phase, [e])
  {
  }

  /** The effect in `PomodoroTimer`: FINISHED is due when the progress exists and is at most 0. */
  predicate FinishDue(minute: nat, s: State, now: int)
    requires minute > 0 && ValidDurations(s.context)
  {
    match GetProgress(minute, Name(s.phase), s.context, now)
    case Some(p) => p.percent <= 0.0
    case None => false
  }

  /** FINISHED is due exactly when a timed state has run for its whole duration. */
  lemma FinishDueWhenElapsed(minute: nat, s: State, now: int)
    requires minute > 0 && ValidDurations(s.context)
    ensures FinishDue(minute, s, now) <==>
      IsTimed(s.phase) && s.context.startTime.Some? &&
      now - s.context.startTime.value >= (if s.phase == Work then s.context.workDuration else s.context.breakDuration) * minute
  {
    TimedByName(s.phase);
  }

  /**
   * FINISHED is raised once: when it is due the machine accepts it, and
   * the state it leads to has no progress, so it is never due again there,
   * whatever the time.
   */
  lemma FinishedRaisedOnce(minute: nat, s: State, now: int, later: int)
    requires minute > 0 && ValidDurations(s.context)
    requires FinishDue(minute, s, now)
    ensures Step(s.phase, FINISHED) == Some(WorkFinished)
    ensures Next(s, FINISHED, now).phase == WorkFinished
    ensures !FinishDue(minute, Next(s, FINISHED, now), later)
  {
    TimedByName(s.phase);
    TimedByName(WorkFinished);
  }

  /** app.tsx `pad`: no size guard, the last `size` characters of the nine-zero-prefixed number. */
  function PadTail(num: nat, size: nat): string {
    var s := Zeros(9) + Digits(num);
    Substr(s, |s| - size)
  }

  /** The result is always `size` digits and denotes num modulo 10^size: wider numbers are truncated. */
  lemma PadTailTruncates(num: nat, size: nat)
    requires size <= 10
    ensures |PadTail(num, size)| == size && AllDigits(PadTail(num, size))
    ensures Value(PadTail(num, size)) == num % Pow10(size)
  {
    var s := Zeros(9) + Digits(num);
    ValueIgnoresLeadingZeros(9, Digits(num));
    ValueOfSuffix(s, size);
  }

  /** Where lib.ts `pad` does not hit its guard, the two versions agree. */
  lemma PadTailAgreesBelowWidth(num: nat, size: nat)
    requires num < Pow10(size)
    ensures PadTail(num, size) == Pad(num, size)
  {
  }

  /** app.tsx `formatMillis`, with the debug-dependent minute length. */
  function FormatMillis(minute: nat, millis: nat): string
    requires minute > 0
  {
    PadTail(millis / minute, 2) + ":" + PadTail((millis % minute) / SECOND, 2)
  }

  /**
   * Always five characters `MM:SS`; the minutes shown are the whole
   * minutes modulo 100, and the seconds the whole seconds left over
   * (below 60 with the standard minute).
   */
  lemma FormatMillisWraps(minute: nat, millis: nat)
    requires minute > 0
    ensures |FormatMillis(minute, millis)| == 5 && FormatMillis(minute, millis)[2] == ':'
    ensures AllDigits(FormatMillis(minute, millis)[..2])
    ensures Value(FormatMillis(minute, millis)[..2]) == (millis / minute) % 100
    ensures AllDigits(FormatMillis(minute, millis)[3..])
    ensures Value(FormatMillis(minute, millis)[3..]) == ((millis % minute) / SECOND) % 100
    ensures minute == MINUTE ==> Value(FormatMillis(minute, millis)[3..]) == (millis % minute) / SECOND < 60
  {
    var r := FormatMillis(minute, millis);
    PadTailTruncates(millis / minute, 2);
    PadTailTruncates((millis % minute) / SECOND, 2);
    assert r[..2] == PadTail(millis / minute, 2);
    assert r[3..] == PadTail((millis % minute) / SECOND, 2);
  }

  /**
   * The running machine: the current state and context held by
   * `useMachine`, and the busylight, which each state's activity switches
   * on at entry and its cleanup switches off at exit.
   */
  class Timer {
    const minute: nat
    var phase: Phase
    var context: Context
    var light: Option<Light>

    ghost predicate Valid()
      reads this
    {
      minute > 0 && ValidDurations(context) &&
      light == LightOf(phase) &&
      (IsTimed(phase) ==> context.startTime.Some?)
    }

    function Snapshot(): State
      reads this
    {
      State(phase, context)
    }

    /** The initial `idle` state; a debug run uses one-second minutes and a five-minute work interval. */
    constructor (debug: bool)
      ensures Valid()
      ensures minute == if debug then SECOND else MINUTE
      ensures phase == Idle && light == Some(Light(Pulse, Orange))
      ensures context == Context(if debug then 5 else 25, 5, None)
    {
      minute := if debug then SECOND else MINUTE;
      phase := Idle;
      context := Context(if debug then 5 else 25, 5, None);
      light := LightOf(Idle);
    }

    /** Takes the entry for a known event: the new state's light replaces the old one. */
    method Apply(e: Event, now: int)
      requires Valid()
      modifies this
      ensures Valid()
      ensures Snapshot() == Next(old(Snapshot()), e, now)
    {
      match Step(phase, e)
      case None =>
      case Some(q) =>
        phase := q;
        if IsTimed(q) {
          context := context.(startTime := Some(now));
        }
        light := LightOf(q);
    }

    /** `send` with an event type: an undeclared type is rejected and changes nothing. */
    method Send(name: string, now: int) returns (known: bool)
      requires Valid()
      modifies this
      ensures Valid()
      ensures known == ParseEvent(name).Some?
      ensures Snapshot() == if known then Next(old(Snapshot()), ParseEvent(name).value, now) else old(Snapshot())
    {
      var e := ParseEvent(name);
      known := e.Some?;
      if known {
        Apply(e.value, now);
      }
    }

    /** The progress effect, run with each new time: it sends FINISHED when the progress reaches 0. */
    method Refresh(now: int) returns (finished: bool)
      requires Valid()
      modifies this
      ensures Valid()
      ensures finished == FinishDue(minute, old(Snapshot()), now)
      ensures Snapshot() == if finished then Next(old(Snapshot()), FINISHED, now) else old(Snapshot())
    {
      var progress := GetProgress(minute, Name(phase), context, now);
      finished := progress.Some? && progress.value.percent <= 0.0;
      if finished {
        Apply(FINISHED, now);
      }
    }
  }
}
