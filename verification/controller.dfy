/**
 The application as a whole: the shared flags, every worker launched so
 far, and the events that change them. The events are the three controls
 and one step of some worker. A start that is accepted launches a new
 worker; the controls and the workers meet only through the flags.
 */
module Controller {
  import opened Text
  import opened TypingPlan
  import opened Session
  import opened Worker

  datatype Event =
    | PressStart(input: string, numbersParse: bool, countdown: nat)
    | PressPause
    | PressStop
    | Tick(id: nat, settings: Settings, fault: Fault)

  /** The flags, the number of the latest session, and every worker in
      launch order. */
  datatype Desk = Desk(flags: Flags, session: nat, workers: seq<Worker>)

  const Opened := Desk(Idle, 0, [])

  /** The three controls, which the program as written and the corrected model share. */
  function Press(d: Desk, e: Event): (r: Desk)
    requires !e.Tick?
    ensures e.PressPause? ==>
              && r.session == d.session && r.workers == d.workers
              && (d.flags.active ==> r.flags == Flags(true, !d.flags.paused))
              && (!d.flags.active ==> r == d)
    ensures e.PressStop? ==> r == d.(flags := Flags(false, d.flags.paused))
    ensures e.PressStart? ==>
              var accepted := !d.flags.active && !AllSpace(e.input) && e.numbersParse;
              && (accepted ==>
                    r == Desk(Flags(true, false), d.session + 1,
                              d.workers + [Launch(Strip(e.input), d.session + 1, e.countdown)]))
              && (!accepted ==> r == d)
    ensures |d.workers| <= |r.workers| <= |d.workers| + 1
    ensures r.workers[..|d.workers|] == d.workers
  {
    match e
    case PressPause => d.(flags := TogglePause(d.flags))
    case PressStop => d.(flags := Stop(d.flags))
    case PressStart(input, numbersParse, countdown) =>
      var s := Start(d.flags, input, numbersParse);
      if s.outcome.Started? then
        Desk(s.flags, d.session + 1, d.workers + [Launch(s.outcome.text, d.session + 1, countdown)])
      else d
  }

  /** One event. A worker sees typing as active only while the flag is set
      AND its own session is the latest one, and only a worker of the latest
      session may clear the flag when it ends. */
  function Handle(d: Desk, e: Event): (r: Desk)
    ensures |d.workers| <= |r.workers|
  {
    if !e.Tick? then Press(d, e)
    else if e.id >= |d.workers| then d
    else
      var w := d.workers[e.id];
      var own := w.session == d.session;
      var r := Step(w, StepInput(d.flags.active && own, d.flags.paused, e.settings, e.fault));
      var flags := if r.clearsActive && own then d.flags.(active := false) else d.flags;
      Desk(flags, d.session, d.workers[e.id := r.worker])
  }

  /** One event as written: every worker reads the one
      shared active flag, whichever session launched it, and every worker
      clears it when it ends. */
  function HandleAsWritten(d: Desk, e: Event): (r: Desk)
    ensures |d.workers| <= |r.workers|
  {
    if !e.Tick? then Press(d, e)
    else if e.id >= |d.workers| then d
    else
      var w := d.workers[e.id];
      var r := StepAsWritten(w, StepInput(d.flags.active, d.flags.paused, e.settings, e.fault));
      var flags := if r.clearsActive then d.flags.(active := false) else d.flags;
      Desk(flags, d.session, d.workers[e.id := r.worker])
  }

  /** Sessions are numbered 1, 2, ... in launch order, every worker's log is
      in line with its phase, and the flag is set only while the latest
      worker has not finished. */
  ghost predicate Good(d: Desk) {
    && d.session == |d.workers|
    && (forall i :: 0 <= i < |d.workers| ==> d.workers[i].session == i + 1 && Inv(d.workers[i]))
    && (d.flags.active ==> |d.workers| > 0 && !d.workers[|d.workers| - 1].phase.Finished?)
  }

  lemma OpenedGood()
    ensures Good(Opened)
  {
  }

  /** Every event keeps the desk good. */
  lemma HandleGood(d: Desk, e: Event)
    requires Good(d)
    ensures Good(Handle(d, e))
  {
    if e.PressStart? {
      StartGood(d, e.input, e.numbersParse, e.countdown);
    } else if e.Tick? && e.id < |d.workers| {
      TickGood(d, e.id, e.settings, e.fault);
    }
  }

  lemma StartGood(d: Desk, input: string, numbersParse: bool, countdown: nat)
    requires Good(d)
    ensures Good(Handle(d, PressStart(input, numbersParse, countdown)))
  {
    var s := Start(d.flags, input, numbersParse);
    if s.outcome.Started? {
      var w := Launch(s.outcome.text, d.session + 1, countdown);
      LaunchInv(s.outcome.text, d.session + 1, countdown);
      var d' := Desk(s.flags, d.session + 1, d.workers + [w]);
      assert Handle(d, PressStart(input, numbersParse, countdown)) == d';
      assert forall i :: 0 <= i < |d.workers| ==> d'.workers[i] == d.workers[i];
    }
  }

  lemma TickGood(d: Desk, id: nat, settings: Settings, fault: Fault)
    requires Good(d) && id < |d.workers|
    ensures Good(Handle(d, Tick(id, settings, fault)))
  {
    var w := d.workers[id];
    var own := w.session == d.session;
    assert own <==> id + 1 == |d.workers|;
    var inp := StepInput(d.flags.active && own, d.flags.paused, settings, fault);
    var r := Step(w, inp);
    StepInv(w, inp);
    var flags := if r.clearsActive && own then d.flags.(active := false) else d.flags;
    assert Handle(d, Tick(id, settings, fault)) == Desk(flags, d.session, d.workers[id := r.worker]);
    ReplaceGood(d, id, r.worker, flags);
  }

  /** The program as written keeps the desk good too: a stale worker may type and
      clear the flag, but it only clears it, and the latest worker ends with
      the flag set only when it was stopped. */
  lemma HandleAsWrittenGood(d: Desk, e: Event)
    requires Good(d)
    ensures Good(HandleAsWritten(d, e))
  {
    if e.PressStart? {
      StartGood(d, e.input, e.numbersParse, e.countdown);
      assert HandleAsWritten(d, e) == Handle(d, e);
    } else if e.Tick? && e.id < |d.workers| {
      TickAsWrittenGood(d, e.id, e.settings, e.fault);
    }
  }

  lemma TickAsWrittenGood(d: Desk, id: nat, settings: Settings, fault: Fault)
    requires Good(d) && id < |d.workers|
    ensures Good(HandleAsWritten(d, Tick(id, settings, fault)))
  {
    var w := d.workers[id];
    var inp := StepInput(d.flags.active, d.flags.paused, settings, fault);
    var r := StepAsWritten(w, inp);
    StepInv(w, inp);
    var flags := if r.clearsActive then d.flags.(active := false) else d.flags;
    assert HandleAsWritten(d, Tick(id, settings, fault)) == Desk(flags, d.session, d.workers[id := r.worker]);
    ReplaceGood(d, id, r.worker, flags);
  }

  /** Replacing one worker by a good successor keeps the desk good, as long
      as the flag is set only while the latest worker is unfinished. */
  lemma ReplaceGood(d: Desk, id: nat, v: Worker, flags: Flags)
    requires Good(d) && id < |d.workers|
    requires v.session == id + 1 && Inv(v)
    requires flags.active ==>
               !(if id + 1 == |d.workers| then v else d.workers[|d.workers| - 1]).phase.Finished?
    ensures Good(Desk(flags, d.session, d.workers[id := v]))
  {
    var ws := d.workers[id := v];
    assert forall i :: 0 <= i < |ws| && i != id ==> ws[i] == d.workers[i];
  }

  /** A worker of an earlier session never acts again: whatever the flags
      say, its step adds nothing to its log and leaves the flags alone. */
  lemma StaleWorkerSilent(d: Desk, id: nat, settings: Settings, fault: Fault)
    requires Good(d) && id + 1 < |d.workers|
    ensures Handle(d, Tick(id, settings, fault)).workers[id].log == d.workers[id].log
    ensures Handle(d, Tick(id, settings, fault)).flags == d.flags
  {
  }

  /** After a stop nothing is typed, pasted or reported by any worker until
      the next accepted start. */
  lemma StoppedDeskSilent(d: Desk, e: Event)
    requires Good(d) && !d.flags.active && !e.PressStart?
    ensures |Handle(d, e).workers| == |d.workers|
    ensures forall i :: 0 <= i < |d.workers| ==> Handle(d, e).workers[i].log == d.workers[i].log
    ensures !Handle(d, e).flags.active
  {
    var d' := Handle(d, e);
    if e.Tick? && e.id < |d.workers| {
      assert forall i :: 0 <= i < |d.workers| && i != e.id ==> d'.workers[i] == d.workers[i];
    }
  }

  /** A start while typing is active changes nothing, so at most one worker
      of the latest session exists. */
  lemma StartWhileActiveIgnored(d: Desk, input: string, numbersParse: bool, countdown: nat)
    requires d.flags.active
    ensures Handle(d, PressStart(input, numbersParse, countdown)) == d
    ensures HandleAsWritten(d, PressStart(input, numbersParse, countdown)) == d
  {
  }

  /** A start on an inactive desk with an editor text that is not all
      whitespace and valid numbers launches one worker on the stripped text. */
  lemma AcceptedStart(d: Desk, input: string, countdown: nat) returns (r: Desk)
    requires !d.flags.active && !AllSpace(input)
    ensures r == Press(d, PressStart(input, true, countdown))
    ensures r == Desk(Flags(true, false), d.session + 1, d.workers + [Launch(Strip(input), d.session + 1, countdown)])
    ensures r.workers[|d.workers|].text != []
  {
    r := Press(d, PressStart(input, true, countdown));
  }

  /** Start a text, stop, start another text: two workers with nothing
      done, and typing active for the second one. */
  lemma Restart(first: string, second: string) returns (d: Desk)
    requires !AllSpace(first) && !AllSpace(second)
    ensures d == Press(Press(Press(Opened, PressStart(first, true, 0)), PressStop), PressStart(second, true, 0))
    ensures d == Desk(Flags(true, false), 2, [Launch(Strip(first), 1, 0), Launch(Strip(second), 2, 0)])
  {
    var d1 := AcceptedStart(Opened, first, 0);
    var d2 := Press(d1, PressStop);
    assert d2 == Desk(Idle, 1, [Launch(Strip(first), 1, 0)]);
    d := AcceptedStart(d2, second, 0);
  }

  /** The language and mode used by the counterexamples: English text, so
      every character is written directly. */
  const Plain := Settings(EnglishOnly, CharByChar)

  /** A worker's step as the desk sees it, as written ... */
  lemma TickAsWritten(d: Desk, id: nat, settings: Settings, fault: Fault, r: StepResult)
    requires id < |d.workers|
    requires StepAsWritten(d.workers[id], StepInput(d.flags.active, d.flags.paused, settings, fault)) == r
    ensures HandleAsWritten(d, Tick(id, settings, fault))
            == Desk(if r.clearsActive then d.flags.(active := false) else d.flags, d.session, d.workers[id := r.worker])
  {
  }

  /** ... and corrected. */
  lemma TickOwned(d: Desk, id: nat, settings: Settings, fault: Fault, r: StepResult)
    requires id < |d.workers|
    requires var own := d.workers[id].session == d.session;
             Step(d.workers[id], StepInput(d.flags.active && own, d.flags.paused, settings, fault)) == r
    ensures var own := d.workers[id].session == d.session;
            Handle(d, Tick(id, settings, fault))
            == Desk(if r.clearsActive && own then d.flags.(active := false) else d.flags, d.session, d.workers[id := r.worker])
  {
  }

  /** The end of the countdown of an English text, as written: the maximum
      is set and per-character typing begins, whatever the flag says. */
  lemma PlainBegins(w: Worker, inp: StepInput)
    requires w.phase == Countdown(0) && w.log == [] && inp.settings == Plain
    ensures StepAsWritten(w, inp) == StepResult(w.(phase := Typing(0, false), log := [SetMaximum(|w.text|)]), false)
  {
  }

  /** A live, unpaused, fault-free step writes the next character and
      reports it. */
  lemma PlainUnit(w: Worker, inp: StepInput)
    requires w.phase.Typing? && !w.phase.arabic && w.phase.next < |w.text|
    requires inp.live && !inp.paused && inp.fault == NoFault
    ensures var i := w.phase.next;
            StepAsWritten(w, inp)
            == StepResult(w.(phase := Typing(i + 1, false), log := w.log + [Write([w.text[i]]), Progress(i + 1)]), false)
  {
  }

  /** Once every unit is done the next step completes and clears the flag. */
  lemma PlainCompletes(w: Worker, inp: StepInput)
    requires w.phase.Typing? && w.phase.next == |w.text|
    ensures StepAsWritten(w, inp) == StepResult(w.(phase := Finished(Completed)), true)
  {
  }

  /** Start, stop, start again before the first worker has looked at the
      flag: as written, the first worker then goes on typing its own
      text beside the second one; with session ownership it ends untouched.
      Any two editor texts that are not all whitespace show it. */
  lemma StaleWorkerTypesAsWritten(first: string, second: string)
    requires !AllSpace(first) && !AllSpace(second)
    ensures var d := Press(Press(Press(Opened, PressStart(first, true, 0)), PressStop), PressStart(second, true, 0));
            var t := Tick(0, Plain, NoFault);
            && |d.workers| == 2
            && HandleAsWritten(HandleAsWritten(d, t), t).workers[0].log
               == [SetMaximum(|Strip(first)|), Write([Strip(first)[0]]), Progress(1)]
            && Handle(Handle(d, t), t).workers[0].log == []
  {
    var d := Restart(first, second);
    var w := d.workers[0];
    var inp := StepInput(true, false, Plain, NoFault);
    PlainBegins(w, inp);
    var w1 := w.(phase := Typing(0, false), log := [SetMaximum(|Strip(first)|)]);
    TickAsWritten(d, 0, Plain, NoFault, StepResult(w1, false));
    var a1 := d.(workers := d.workers[0 := w1]);
    PlainUnit(w1, inp);
    var w2 := w1.(phase := Typing(1, false), log := w1.log + [Write([Strip(first)[0]]), Progress(1)]);
    TickAsWritten(a1, 0, Plain, NoFault, StepResult(w2, false));
    assert a1.workers[0 := w2][0].log == [SetMaximum(|Strip(first)|), Write([Strip(first)[0]]), Progress(1)];
    var c := w.(phase := Finished(Cancelled));
    TickOwned(d, 0, Plain, NoFault, StepResult(c, false));
    var c1 := d.(workers := d.workers[0 := c]);
    TickOwned(c1, 0, Plain, NoFault, StepResult(c, false));
  }

  /** ... and because that stale worker also clears the shared flag when it
      ends, it switches off the session that is still in its countdown:
      a first text of one character once stripped (a letter and the editor's
      trailing newline, say) is typed and completed in three steps. */
  lemma StaleWorkerClearsFlagAsWritten(first: string, second: string)
    requires |Strip(first)| == 1 && !AllSpace(second)
    ensures var d := Press(Press(Press(Opened, PressStart(first, true, 0)), PressStop), PressStart(second, true, 0));
            var t := Tick(0, Plain, NoFault);
            var e := HandleAsWritten(HandleAsWritten(HandleAsWritten(d, t), t), t);
            && |d.workers| == 2 && |e.workers| == 2
            && d.flags.active && !d.workers[1].phase.Finished?
            && !e.flags.active && e.workers[1] == d.workers[1]
  {
    var d := Restart(first, second);
    var w := d.workers[0];
    var inp := StepInput(true, false, Plain, NoFault);
    PlainBegins(w, inp);
    var w1 := w.(phase := Typing(0, false), log := [SetMaximum(1)]);
    TickAsWritten(d, 0, Plain, NoFault, StepResult(w1, false));
    var d1 := d.(workers := d.workers[0 := w1]);
    PlainUnit(w1, inp);
    var w2 := w1.(phase := Typing(1, false), log := w1.log + [Write([w.text[0]]), Progress(1)]);
    TickAsWritten(d1, 0, Plain, NoFault, StepResult(w2, false));
    var d2 := d1.(workers := d1.workers[0 := w2]);
    var w3 := w2.(phase := Finished(Completed));
    PlainCompletes(w2, inp);
    TickAsWritten(d2, 0, Plain, NoFault, StepResult(w3, true));
    var t := Tick(0, Plain, NoFault);
    assert HandleAsWritten(d, t) == d1;
    assert HandleAsWritten(d1, t) == d2;
    var e := HandleAsWritten(d2, t);
    assert e.workers == d2.workers[0 := w3] && !e.flags.active;
    assert |d1.workers| == 2 && d1.workers[1] == d.workers[1];
    assert |d2.workers| == 2 && d2.workers[1] == d.workers[1];
    assert |e.workers| == 2 && e.workers[1] == d.workers[1];
  }

  /** One event, as corrected or as written. */
  function Next(d: Desk, e: Event, asWritten: bool): (r: Desk)
    ensures |d.workers| <= |r.workers|
  {
    if asWritten then HandleAsWritten(d, e) else Handle(d, e)
  }

  /** The desk after a sequence of events, as corrected or as written. */
  function Run(d: Desk, events: seq<Event>, asWritten: bool): (r: Desk)
    ensures |d.workers| <= |r.workers|
    decreases |events|
  {
    if events == [] then d else Run(Next(d, events[0], asWritten), events[1..], asWritten)
  }

  /** Any sequence of events from a good desk leaves it good, as
      written as well as with session ownership; in particular every worker
      has typed a prefix of its text, and the whole text once it completed. */
  lemma {:induction false} RunGood(d: Desk, events: seq<Event>, asWritten: bool)
    requires Good(d)
    ensures Good(Run(d, events, asWritten))
    decreases |events|
  {
    if events != [] {
      if asWritten {
        HandleAsWrittenGood(d, events[0]);
      } else {
        HandleGood(d, events[0]);
      }
      RunGood(Next(d, events[0], asWritten), events[1..], asWritten);
    }
  }

  /** From the opened application, whatever controls are pressed and
      however the workers' steps and foreign-call failures interleave, each
      worker has delivered a prefix of its text to the focused window, in
      order, with strictly increasing progress within the text length; one
      that completed has delivered all of it and filled the bar. As written
      this holds only at the granularity of a unit, whose copy, settle wait
      and paste are one step here. */
  lemma EveryWorkerDeliversPrefix(events: seq<Event>, asWritten: bool, i: nat, origin: World) returns (k: nat)
    requires i < |Run(Opened, events, asWritten).workers|
    ensures var w := Run(Opened, events, asWritten).workers[i];
            && k <= |w.text|
            && Perform(w.log, origin).typed == origin.typed + w.text[..k]
            && Ascending(Reported(w.log), |w.text|)
            && (w.phase == Finished(Completed) ==>
                  k == |w.text| && Perform(w.log, origin).bar == |w.text| && Perform(w.log, origin).barMax == |w.text|)
  {
    OpenedGood();
    RunGood(Opened, events, asWritten);
    k := InvDelivers(Run(Opened, events, asWritten).workers[i], origin);
  }
}
