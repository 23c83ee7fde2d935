/**
 * The phases of a pomodoro session and the busylight signals, shared by
 * both front ends (the event-driven terminal UI and the prompt-driven CLI).
 */
module Phases {

  /** The closed set of machine states; `Exit` is the final state. */
  datatype Phase = Idle | Work | WorkFinished | Break | BreakFinished | Exit

  /** The state's name as the machine configuration spells it. */
  function Name(p: Phase): string {
    match p
    case Idle => "idle"
    case Work => "work"
    case WorkFinished => "workFinished"
    case Break => "break"
    case BreakFinished => "breakFinished"
    case Exit => "exit"
  }

  /** The phases that run a countdown: they stamp a start time on entry. */
  predicate IsTimed(p: Phase) {
    p == Work || p == Break
  }

  /** The only names the progress calculator accepts are those of the timed phases. */
  lemma TimedByName(p: Phase)
    ensures Name(p) == "work" <==> p == Work
    ensures Name(p) == "break" <==> p == Break
    ensures (Name(p) == "work" || Name(p) == "break") <==> IsTimed(p)
  {
    match p
    case Idle => assert Name(p)[0] == 'i';
    case Work =>
    case WorkFinished => assert |Name(p)| != 4 && |Name(p)| != 5;
    case Break =>
    case BreakFinished => assert |Name(p)| != 4 && |Name(p)| != 5;
    case Exit => assert Name(p)[0] == 'e';
  }

  datatype Color = Red | Green | Orange

  /** `light` (steady) or `pulse` (blinking) on the busylight device. */
  datatype LightMode = Solid | Pulse

  datatype Light = Light(mode: LightMode, color: Color)
}
