/**
 The background typing worker as a sequence of steps. Before each step it
 reads the shared flags, which the controls may have changed since the last
 step; a step is one countdown tick, the start of typing, one unit, or one
 poll while paused. Foreign calls (clipboard, key injection, sleeps) are
 outside the model: each step is told which of them, if any, raises.
 */
module Worker {
  import opened Text
  import opened TypingPlan

  /** The language and Arabic typing mode as read from the settings when the
      countdown ends (they may change while it runs). */
  datatype Settings = Settings(lang: LangMode, mode: ArabicMode)

  /** Which foreign call of a step raises, counted from 0 in the order the
      step makes them; `NoFault` when none does. */
  datatype Fault = NoFault | FailsAt(call: nat)

  /** What a step reads before it acts: whether typing is still active for
      this worker, whether typing is paused, the settings, and the fault. */
  datatype StepInput = StepInput(live: bool, paused: bool, settings: Settings, fault: Fault)

  /** How a worker ended: all units done, stopped by the flag, stopped by an
      exception, or (whole-text route) finished after every paste attempt
      failed. */
  datatype Ending = Completed | Cancelled | Errored | PasteFailed

  datatype Phase =
    | Countdown(remaining: nat)       // whole seconds still to wait
    | Typing(next: nat, arabic: bool) // index of the next unit, and the route
    | Finished(ending: Ending)

  /** A worker: the text it types, the session that launched it, its phase,
      and every action it has performed so far. */
  datatype Worker = Worker(text: string, session: nat, phase: Phase, log: seq<Action>)

  /** A step's new worker, and whether the step cleared the active flag. */
  datatype StepResult = StepResult(worker: Worker, clearsActive: bool)

  function Launch(text: string, session: nat, countdown: nat): Worker {
    Worker(text, session, Countdown(countdown), [])
  }

  /** Foreign call `call` of a step is made and returns normally. */
  predicate Succeeds(f: Fault, call: nat) {
    f.NoFault? || call < f.call
  }

  function Finish(w: Worker, acts: seq<Action>, ending: Ending): StepResult {
    StepResult(w.(phase := Finished(ending), log := w.log + acts), ending != Cancelled)
  }

  /** The end of the countdown: the progress maximum is set, the text is
      classified, and either the whole text is pasted at once or the
      per-character route begins. The whole-text route makes four foreign
      calls: the clipboard write, the clipboard settle wait, the paste (whose
      failure is only reported) and the final wait. No flag is read here. */
  function Begin(w: Worker, settings: Settings, fault: Fault): (r: StepResult)
    ensures r.worker.text == w.text && r.worker.session == w.session
    ensures !PasteRouted(w.text, settings) ==>
              r == StepResult(w.(phase := Typing(0, Classify(w.text, settings.lang)),
                                 log := w.log + [SetMaximum(|w.text|)]), false)
    ensures PasteRouted(w.text, settings) ==>
              && r.worker.phase.Finished? && r.clearsActive && r.worker.phase.ending != Cancelled
              && (Succeeds(fault, 3) ==>
                    r == StepResult(w.(phase := Finished(Completed), log := w.log + PastePlan(w.text)), true))
              && (fault == FailsAt(2) ==>
                    r == StepResult(w.(phase := Finished(PasteFailed), log := w.log + PasteUndelivered(w.text)), true))
              && (!Succeeds(fault, 3) && fault != FailsAt(2) ==>
                    r.worker.phase == Finished(Errored) && IsPrefix(r.worker.log, w.log + PastePlan(w.text)))
  {
    var n := |w.text|;
    var arabic := Classify(w.text, settings.lang);
    if PasteRouted(w.text, settings) then
      if !Succeeds(fault, 1) then
        Finish(w, [SetMaximum(n)] + (if Succeeds(fault, 0) then [Copy(w.text)] else []), Errored)
      else
        var acts := [SetMaximum(n), Copy(w.text)]
                    + (if Succeeds(fault, 2) then [PasteKeys] else []) + [Progress(n)];
        Finish(w, acts, if !Succeeds(fault, 2) then PasteFailed
                        else if !Succeeds(fault, 3) then Errored
                        else Completed)
    else
      StepResult(w.(phase := Typing(0, arabic), log := w.log + [SetMaximum(n)]), false)
  }

  /** Arabic text in paste mode goes through the whole-text route. */
  predicate PasteRouted(text: string, settings: Settings) {
    Classify(text, settings.lang) && settings.mode == PasteWhole
  }

  /** One unit of the per-character route. Arabic: clipboard write, settle
      wait, paste keys, pacing wait; otherwise: key injection, pacing wait.
      The progress report follows the pacing wait; an exception anywhere
      ends the worker and clears the active flag. */
  function Unit(w: Worker, i: nat, arabic: bool, fault: Fault): (r: StepResult)
    requires i < |w.text|
    ensures r.worker.text == w.text && r.worker.session == w.session
    ensures var blk := Dispatch(Chunks(w.text)[i], arabic) + [Progress(i + 1)];
            && (Succeeds(fault, if arabic then 3 else 1) ==>
                  r == StepResult(w.(phase := Typing(i + 1, arabic), log := w.log + blk), false))
            && (!Succeeds(fault, if arabic then 3 else 1) ==>
                  r.worker.phase == Finished(Errored) && r.clearsActive
                  && IsPrefix(r.worker.log, w.log + blk) && |r.worker.log| < |w.log + blk|)
  {
    var u := Chunks(w.text)[i];
    var last := if arabic then 3 else 1;
    var acts := if arabic then
                  (if Succeeds(fault, 0) then [Copy(u)] else [])
                  + (if Succeeds(fault, 2) then [PasteKeys] else [])
                else
                  (if Succeeds(fault, 0) then [Write(u)] else []);
    if Succeeds(fault, last) then
      StepResult(w.(phase := Typing(i + 1, arabic), log := w.log + acts + [Progress(i + 1)]), false)
    else
      Finish(w, acts, Errored)
  }

  /** One step of the worker. A countdown tick or a unit first checks that
      typing is still active for this worker and ends the worker without any
      further action if not; while paused a unit step only polls. Once every
      unit is done the worker completes and clears the active flag. A finished
      worker does nothing. Unlike the program as written, the end of the countdown also
      checks the flag (see `StepAsWritten`). */
  function Step(w: Worker, inp: StepInput): (r: StepResult)
    ensures r.worker.text == w.text && r.worker.session == w.session
    ensures IsPrefix(w.log, r.worker.log)
    ensures w.phase.Finished? ==> r == StepResult(w, false)
    ensures !inp.live ==> r.worker.log == w.log
    ensures !inp.live && (w.phase.Countdown? || (w.phase.Typing? && w.phase.next < |w.text|)) ==>
              r == StepResult(w.(phase := Finished(Cancelled)), false)
    ensures inp.live && inp.paused && w.phase.Typing? && w.phase.next < |w.text| ==> r == StepResult(w, false)
    ensures r.clearsActive <==> !w.phase.Finished? && r.worker.phase.Finished? && r.worker.phase.ending != Cancelled
    ensures !w.phase.Finished? && r.worker.phase == Finished(Cancelled) ==> !inp.live
    // a live countdown second
    ensures inp.live && w.phase.Countdown? && w.phase.remaining > 0 ==>
              r == StepResult(w.(phase := Countdown(w.phase.remaining - 1)), false)
    // the end of a live countdown: the route the settings select
    ensures inp.live && w.phase == Countdown(0) && !PasteRouted(w.text, inp.settings) ==>
              r == StepResult(w.(phase := Typing(0, Classify(w.text, inp.settings.lang)),
                                 log := w.log + [SetMaximum(|w.text|)]), false)
    ensures inp.live && w.phase == Countdown(0) && PasteRouted(w.text, inp.settings) ==>
              && (Succeeds(inp.fault, 3) ==>
                    r == StepResult(w.(phase := Finished(Completed), log := w.log + PastePlan(w.text)), true))
              && (inp.fault == FailsAt(2) ==>
                    r == StepResult(w.(phase := Finished(PasteFailed), log := w.log + PasteUndelivered(w.text)), true))
              && (!Succeeds(inp.fault, 3) && inp.fault != FailsAt(2) ==>
                    r.worker.phase == Finished(Errored) && r.clearsActive
                    && IsPrefix(r.worker.log, w.log + PastePlan(w.text)))
    // a live, unpaused unit: its block when every foreign call of the unit
    // returns, otherwise an error before the report
    ensures inp.live && !inp.paused && w.phase.Typing? && w.phase.next < |w.text| ==>
              var i, arabic := w.phase.next, w.phase.arabic;
              var blk := Dispatch(Chunks(w.text)[i], arabic) + [Progress(i + 1)];
              && (Succeeds(inp.fault, if arabic then 3 else 1) ==>
                    r == StepResult(w.(phase := Typing(i + 1, arabic), log := w.log + blk), false))
              && (!Succeeds(inp.fault, if arabic then 3 else 1) ==>
                    r.worker.phase == Finished(Errored) && r.clearsActive
                    && IsPrefix(r.worker.log, w.log + blk) && |r.worker.log| < |w.log + blk|)
    // every unit done
    ensures w.phase.Typing? && w.phase.next >= |w.text| ==>
              r == StepResult(w.(phase := Finished(Completed)), true)
  {
    match w.phase
    case Finished(_) => StepResult(w, false)
    case Countdown(k) =>
      if !inp.live then Finish(w, [], Cancelled)
      else if k > 0 then StepResult(w.(phase := Countdown(k - 1)), false)
      else Begin(w, inp.settings, inp.fault)
    case Typing(i, arabic) =>
      if i >= |w.text| then Finish(w, [], Completed)
      else if !inp.live then Finish(w, [], Cancelled)
      else if inp.paused then StepResult(w, false)
      else Unit(w, i, arabic, inp.fault)
  }

  /** The step as written: the end of the countdown starts
      typing without reading the active flag, so the whole-text route pastes
      even after a stop that came during the last countdown second. */
  function StepAsWritten(w: Worker, inp: StepInput): StepResult {
    if w.phase == Countdown(0) then Begin(w, inp.settings, inp.fault) else Step(w, inp)
  }

  /** A stop during the last countdown second, with any text the settings
      send down the whole-text route: the program as written still copies and
      pastes the whole text, while `Step` ends the worker without any action. */
  lemma PasteIgnoresStopAsWritten(text: string, session: nat, settings: Settings)
    requires text != [] && PasteRouted(text, settings)
    ensures var w := Launch(text, session, 0);
            var inp := StepInput(false, false, settings, NoFault);
            && StepAsWritten(w, inp).worker.log == PastePlan(text)
            && StepAsWritten(w, inp).worker.phase == Finished(Completed)
            && Step(w, inp).worker.log == []
  {
  }

  /** What a worker's log says about each phase: nothing is done during the
      countdown; while typing, exactly the first `next` units have gone
      through the per-character route; a completed worker made a full run;
      any other ending left a run cut short. */
  ghost predicate Inv(w: Worker) {
    && w.text != []
    && match w.phase
       case Countdown(_) => w.log == []
       case Typing(i, arabic) =>
         i <= |w.text| && w.log == [SetMaximum(|w.text|)] + CharPlan(Chunks(w.text[..i]), arabic)
       case Finished(ending) =>
         if ending == Completed then FullRun(w.text, w.log) else PartialRun(w.text, w.log)
  }

  lemma LaunchInv(text: string, session: nat, countdown: nat)
    requires text != []
    ensures Inv(Launch(text, session, countdown))
  {
  }

  lemma TypingIsPartial(w: Worker)
    requires Inv(w) && w.phase.Typing?
    ensures IsPrefix(w.log, CharRun(w.text, w.phase.arabic))
    ensures w.phase.next == |w.text| ==> w.log == CharRun(w.text, w.phase.arabic)
    ensures PartialRun(w.text, w.log)
    ensures w.phase.next == |w.text| ==> FullRun(w.text, w.log)
  {
    var i, arabic := w.phase.next, w.phase.arabic;
    var units := Chunks(w.text);
    ChunksPrefix(w.text, i);
    CharPlanPrefix(units, i, arabic);
    var p := CharPlan(units[..i], arabic);
    assert CharRun(w.text, arabic) == [SetMaximum(|w.text|)] + CharPlan(units, arabic);
    assert CharRun(w.text, arabic)[..|w.log|] == [SetMaximum(|w.text|)] + CharPlan(units, arabic)[..|p|];
    assert w.text[..|w.text|] == w.text;
  }

  lemma BeginInv(w: Worker, settings: Settings, fault: Fault)
    requires Inv(w) && w.phase == Countdown(0)
    ensures Inv(Begin(w, settings, fault).worker)
  {
    var n := |w.text|;
    var plan := PastePlan(w.text);
    var r := Begin(w, settings, fault).worker;
    assert w.text[..0] == [];
    if Classify(w.text, settings.lang) && settings.mode == PasteWhole {
      if !Succeeds(fault, 1) {
        assert r.log == plan[..1] || r.log == plan[..2];
      } else if !Succeeds(fault, 2) {
        assert r.log == PasteUndelivered(w.text);
      } else {
        assert r.log == plan;
      }
    }
  }

  /** The actions a unit step performs: a prefix of the unit's block, and
      the whole block when the step did not fail. */
  lemma UnitActs(w: Worker, i: nat, arabic: bool, fault: Fault)
    requires i < |w.text|
    ensures var r := Unit(w, i, arabic, fault).worker;
            var blk := Dispatch(Chunks(w.text)[i], arabic) + [Progress(i + 1)];
            && |w.log| <= |r.log| && r.log[..|w.log|] == w.log
            && IsPrefix(r.log[|w.log|..], blk)
            && (r.phase.Typing? ==> r.log == w.log + blk && r.phase == Typing(i + 1, arabic))
            && (!r.phase.Typing? ==> r.phase == Finished(Errored))
  {
    var u := Chunks(w.text)[i];
    var blk := Dispatch(u, arabic) + [Progress(i + 1)];
    var r := Unit(w, i, arabic, fault).worker;
    var acts := r.log[|w.log|..];
    assert r.log == w.log + acts;
    if arabic {
      assert blk == [Copy(u), PasteKeys, Progress(i + 1)];
    } else {
      assert blk == [Write(u), Progress(i + 1)];
    }
  }

  lemma UnitInv(w: Worker, fault: Fault)
    requires Inv(w) && w.phase.Typing? && w.phase.next < |w.text|
    ensures Inv(Unit(w, w.phase.next, w.phase.arabic, fault).worker)
  {
    var r := Unit(w, w.phase.next, w.phase.arabic, fault).worker;
    var blk := Dispatch(Chunks(w.text)[w.phase.next], w.phase.arabic) + [Progress(w.phase.next + 1)];
    UnitActs(w, w.phase.next, w.phase.arabic, fault);
    var acts := r.log[|w.log|..];
    assert r.log == w.log + acts;
    if r.phase.Typing? {
      UnitAdvances(w, r.phase, blk);
      assert r == w.(phase := r.phase, log := w.log + blk);
    } else {
      UnitStops(w, acts);
      assert r == w.(phase := Finished(Errored), log := w.log + acts);
    }
  }

  /** The per-character invariant carries over a unit that went through. */
  lemma UnitAdvances(w: Worker, p: Phase, blk: seq<Action>)
    requires Inv(w) && w.phase.Typing? && w.phase.next < |w.text|
    requires blk == Dispatch(Chunks(w.text)[w.phase.next], w.phase.arabic) + [Progress(w.phase.next + 1)]
    requires p == Typing(w.phase.next + 1, w.phase.arabic)
    ensures Inv(w.(phase := p, log := w.log + blk))
  {
    var i, arabic := w.phase.next, w.phase.arabic;
    var head := [SetMaximum(|w.text|)];
    var p := CharPlan(Chunks(w.text[..i]), arabic);
    CharPlanNext(w.text, i, arabic);
    assert w.log == head + p;
    AppendAssoc(head, p, blk);
    assert w.log + blk == head + (p + blk);
  }

  /** A unit that raised leaves a run cut short. */
  lemma UnitStops(w: Worker, acts: seq<Action>)
    requires Inv(w) && w.phase.Typing? && w.phase.next < |w.text|
    requires IsPrefix(acts, Dispatch(Chunks(w.text)[w.phase.next], w.phase.arabic) + [Progress(w.phase.next + 1)])
    ensures IsPrefix(w.log + acts, CharRun(w.text, w.phase.arabic))
    ensures Inv(w.(phase := Finished(Errored), log := w.log + acts))
  {
    var i, arabic := w.phase.next, w.phase.arabic;
    var units := Chunks(w.text);
    var head := [SetMaximum(|w.text|)];
    var blk := Dispatch(units[i], arabic) + [Progress(i + 1)];
    var p := CharPlan(Chunks(w.text[..i]), arabic);
    var all := CharPlan(units, arabic);
    CharPlanNext(w.text, i, arabic);
    PrefixExtend(p, acts, blk);
    ChunksPrefix(w.text, i + 1);
    CharPlanPrefix(units, i + 1, arabic);
    PrefixTrans(p + acts, p + blk, all);
    PrefixExtend(head, p + acts, all);
    assert w.log == head + p;
    AppendAssoc(head, p, acts);
    assert IsPrefix(w.log + acts, CharRun(w.text, arabic));
  }

  /** Every step keeps the log in line with the phase. */
  lemma StepInv(w: Worker, inp: StepInput)
    requires Inv(w)
    ensures Inv(Step(w, inp).worker)
    ensures Inv(StepAsWritten(w, inp).worker)
  {
    match w.phase
    case Finished(_) =>
    case Countdown(k) =>
      if k == 0 {
        BeginInv(w, inp.settings, inp.fault);
      }
    case Typing(i, arabic) =>
      TypingIsPartial(w);
      if i < |w.text| && inp.live && !inp.paused {
        UnitInv(w, inp.fault);
      }
  }

  /** What a worker has done so far, as seen by the focused window and the
      progress bar: the window has received a prefix of the text, all of it
      once the worker completed; the progress reports strictly increase and
      never exceed the text length, which is the maximum once set. */
  lemma InvDelivers(w: Worker, origin: World) returns (k: nat)
    requires Inv(w)
    ensures k <= |w.text|
    ensures Perform(w.log, origin).typed == origin.typed + w.text[..k]
    ensures Ascending(Reported(w.log), |w.text|)
    ensures w.phase == Finished(Completed) ==>
              k == |w.text| && Perform(w.log, origin).bar == |w.text| && Perform(w.log, origin).barMax == |w.text|
  {
    if w.phase == Finished(Completed) {
      FullRunDelivers(w.text, w.log, origin);
      k := |w.text|;
      assert w.text[..k] == w.text;
    } else {
      if w.phase.Typing? {
        TypingIsPartial(w);
      }
      k := PartialRunFacts(w.text, w.log, origin);
    }
  }

  /** The route a worker follows once it has read the settings `s` at the
      end of its countdown: the per-character route through the clipboard
      exactly when the text is classified Arabic and not pasted whole; a
      completed worker performed exactly the plan of those settings, any
      other ending a part of it (or the undelivered paste). */
  ghost predicate Follows(w: Worker, s: Settings) {
    match w.phase
    case Countdown(_) => true
    case Typing(_, arabic) => !PasteRouted(w.text, s) && arabic == Classify(w.text, s.lang)
    case Finished(ending) =>
      if ending == Completed then w.log == Plan(w.text, s.lang, s.mode)
      else IsPrefix(w.log, Plan(w.text, s.lang, s.mode))
           || (PasteRouted(w.text, s) && w.log == PasteUndelivered(w.text))
  }

  lemma BeginFollows(w: Worker, s: Settings, fault: Fault)
    requires Inv(w) && w.phase == Countdown(0)
    ensures Follows(Begin(w, s, fault).worker, s)
  {
    assert w.log == [];
    if PasteRouted(w.text, s) {
      assert Plan(w.text, s.lang, s.mode) == PastePlan(w.text);
      assert w.log + PastePlan(w.text) == PastePlan(w.text);
      assert w.log + PasteUndelivered(w.text) == PasteUndelivered(w.text);
    }
  }

  /** Every step, as corrected and as written, keeps the worker on the route
      of the settings it reads when its countdown ends. */
  lemma StepFollows(w: Worker, inp: StepInput, s: Settings)
    requires Inv(w) && Follows(w, s)
    requires w.phase == Countdown(0) ==> inp.settings == s
    ensures Follows(Step(w, inp).worker, s)
    ensures Follows(StepAsWritten(w, inp).worker, s)
  {
    match w.phase
    case Finished(_) =>
    case Countdown(k) =>
      CountdownFollows(w, inp, s);
    case Typing(i, arabic) =>
      assert StepAsWritten(w, inp) == Step(w, inp);
      TypingFollows(w, inp, s);
  }

  lemma CountdownFollows(w: Worker, inp: StepInput, s: Settings)
    requires Inv(w) && w.phase.Countdown?
    requires w.phase == Countdown(0) ==> inp.settings == s
    ensures Follows(Step(w, inp).worker, s)
    ensures Follows(StepAsWritten(w, inp).worker, s)
  {
    assert IsPrefix(w.log, Plan(w.text, s.lang, s.mode));
    if w.phase.remaining == 0 {
      BeginFollows(w, s, inp.fault);
    }
  }

  lemma TypingFollows(w: Worker, inp: StepInput, s: Settings)
    requires Inv(w) && Follows(w, s) && w.phase.Typing?
    ensures Follows(Step(w, inp).worker, s)
  {
    var i, arabic := w.phase.next, w.phase.arabic;
    var plan := Plan(w.text, s.lang, s.mode);
    TypingIsPartial(w);
    assert plan == CharRun(w.text, arabic);
    var r := Step(w, inp).worker;
    if i >= |w.text| {
      assert r.log == w.log && r.phase == Finished(Completed);
    } else if !inp.live {
      assert r.log == w.log;
    } else if inp.paused {
      assert r == w;
    } else if r.phase.Finished? {
      var blk := Dispatch(Chunks(w.text)[i], arabic) + [Progress(i + 1)];
      assert IsPrefix(blk, blk);
      UnitStops(w, blk);
      PrefixTrans(r.log, w.log + blk, plan);
    }
  }

  /** The worker after a schedule of step inputs, each carrying whatever the
      controls had set the flags to by then. */
  function Run(w: Worker, schedule: seq<StepInput>): (v: Worker)
    ensures v.text == w.text && v.session == w.session
    ensures IsPrefix(w.log, v.log)
    ensures w.phase.Finished? ==> v == w
    decreases |schedule|
  {
    if schedule == [] then w
    else
      var u := Step(w, schedule[0]).worker;
      var v := Run(u, schedule[1..]);
      PrefixTrans(w.log, u.log, v.log);
      v
  }

  /** Any schedule keeps the log in line with the phase. */
  lemma {:induction false} RunInv(w: Worker, schedule: seq<StepInput>)
    requires Inv(w)
    ensures Inv(Run(w, schedule))
    decreases |schedule|
  {
    if schedule != [] {
      StepInv(w, schedule[0]);
      RunInv(Step(w, schedule[0]).worker, schedule[1..]);
    }
  }

  /** A schedule whose settings stay `s` keeps the worker on their route. */
  lemma {:induction false} RunFollows(w: Worker, schedule: seq<StepInput>, s: Settings)
    requires Inv(w) && Follows(w, s)
    requires forall j :: 0 <= j < |schedule| ==> schedule[j].settings == s
    ensures Follows(Run(w, schedule), s)
    decreases |schedule|
  {
    if schedule != [] {
      StepInv(w, schedule[0]);
      StepFollows(w, schedule[0], s);
      RunFollows(Step(w, schedule[0]).worker, schedule[1..], s);
    }
  }

  /** How many live, unpaused, fault-free steps a worker still needs to
      complete under the settings `s`. */
  function StepsLeft(w: Worker, s: Settings): nat {
    match w.phase
    case Countdown(k) => k + 1 + (if PasteRouted(w.text, s) then 0 else |w.text| + 1)
    case Typing(i, _) => if i <= |w.text| then |w.text| - i + 1 else 1
    case Finished(_) => 0
  }

  lemma {:induction false} CleanRunCompletes(w: Worker, schedule: seq<StepInput>, s: Settings)
    requires Inv(w) && Follows(w, s)
    requires !w.phase.Finished? || w.phase == Finished(Completed)
    requires forall j :: 0 <= j < |schedule| ==> schedule[j] == StepInput(true, false, s, NoFault)
    requires StepsLeft(w, s) <= |schedule|
    ensures Run(w, schedule) == w.(phase := Finished(Completed), log := Plan(w.text, s.lang, s.mode))
    decreases |schedule|
  {
    if schedule != [] && !w.phase.Finished? {
      var inp := schedule[0];
      var v := Step(w, inp).worker;
      StepInv(w, inp);
      StepFollows(w, inp, s);
      assert StepsLeft(v, s) + 1 == StepsLeft(w, s);
      assert !v.phase.Finished? || v.phase == Finished(Completed);
      CleanRunCompletes(v, schedule[1..], s);
    }
  }

  /** A worker that always sees typing active and unpaused and whose
      foreign calls all return completes within its countdown, the length of
      its text and two more steps, having performed exactly the plan of the
      settings it read: the whole-text paste for Arabic text in paste mode,
      otherwise one copy and paste or one write per character. */
  lemma CleanRunTypesPlan(text: string, session: nat, countdown: nat, s: Settings, schedule: seq<StepInput>)
    requires text != []
    requires forall j :: 0 <= j < |schedule| ==> schedule[j] == StepInput(true, false, s, NoFault)
    requires countdown + |text| + 2 <= |schedule|
    ensures Run(Launch(text, session, countdown), schedule)
            == Worker(text, session, Finished(Completed), Plan(text, s.lang, s.mode))
  {
    LaunchInv(text, session, countdown);
    CleanRunCompletes(Launch(text, session, countdown), schedule, s);
  }
}
