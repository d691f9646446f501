/**
 The two shared session flags, "typing is active" and "typing is paused",
 and the three controls that drive them: start, pause/resume and stop.
 */
module Session {
  import opened Text

  datatype Flags = Flags(active: bool, paused: bool)

  /** Both flags as the application sets them when it opens. */
  const Idle := Flags(false, false)

  /** What a start request turned into: ignored because a session is already
      active, refused with one of the two intake errors, or started on the
      stripped text. */
  datatype StartOutcome = AlreadyActive | NoText | InvalidNumbers | Started(text: string)

  datatype StartResult = StartResult(flags: Flags, outcome: StartOutcome)

  /** The start control. `input` is the editor's contents and `numbersParse`
      tells whether both the start delay and the typing speed read as
      numbers. A start while active is ignored silently; an editor holding
      only whitespace, or a delay or speed that does not parse, is refused;
      in all three cases both flags are left as they were. Otherwise typing
      becomes active and unpaused, and the stripped text is handed on. */
  function Start(f: Flags, input: string, numbersParse: bool): (r: StartResult)
    ensures r.outcome.Started? <==> !f.active && !AllSpace(input) && numbersParse
    ensures !r.outcome.Started? ==> r.flags == f
    ensures r.outcome.Started? ==> r.flags == Flags(true, false)
    ensures r.outcome.Started? ==> r.outcome.text == Strip(input) && r.outcome.text != []
    ensures f.active ==> r.outcome == AlreadyActive
    ensures !f.active && AllSpace(input) ==> r.outcome == NoText
    ensures !f.active && !AllSpace(input) && !numbersParse ==> r.outcome == InvalidNumbers
  {
    if f.active then StartResult(f, AlreadyActive)
    else
      var text := Strip(input);
      if text == [] then StartResult(f, NoText)
      else if !numbersParse then StartResult(f, InvalidNumbers)
      else StartResult(Flags(true, false), Started(text))
  }

  /** The pause/resume control: nothing happens unless typing is active;
      while active it flips the pause flag and nothing else. */
  function TogglePause(f: Flags): (g: Flags)
    ensures !f.active ==> g == f
    ensures f.active ==> g.active && g.paused != f.paused
  {
    if !f.active then f else f.(paused := !f.paused)
  }

  /** The stop control: nothing happens unless typing is active; then typing
      stops. The pause flag is left as it was: only the next start clears it. */
  function Stop(f: Flags): (g: Flags)
    ensures !g.active
    ensures g.paused == f.paused
    ensures !f.active ==> g == f
  {
    if !f.active then f else f.(active := false)
  }

  /** Pausing and resuming returns to the same flags. */
  lemma ToggleTwice(f: Flags)
    ensures TogglePause(TogglePause(f)) == f
  {
  }

  /** Once stopped, the pause and stop controls do nothing and a second start
      is accepted again; a start right after a start is always ignored. */
  lemma StopSettles(f: Flags, input: string, numbersParse: bool)
    ensures TogglePause(Stop(f)) == Stop(f)
    ensures Stop(Stop(f)) == Stop(f)
    ensures Start(Stop(f), input, numbersParse).outcome.Started? <==> !AllSpace(input) && numbersParse
    ensures Start(f, input, numbersParse).outcome.Started? ==>
              Start(Start(f, input, numbersParse).flags, input, numbersParse).outcome == AlreadyActive
  {
  }
}
