# Auto Typer: a Dafny model of its typing core

Auto Typer is a desktop tool that types a text into whichever window has the
focus. A text the language mode routes as Latin is typed by key injection.
A text it routes as Arabic (always in "arabic" mode, when it holds an
Arabic character in "auto" mode, never in "english" mode) goes through the
clipboard, either one character at a time or as one paste of the whole
text. The tool has a start delay, pause, resume and stop controls, a
progress bar, and a store of named texts.

This project models the logic inside that UI in Dafny and proves properties
of it. The model has six modules:

- `Text`: Python's `str.strip()` with no arguments (using the `str.isspace`
  code points) and the test for the Arabic block U+0600..U+06FF.
- `TypingPlan`: the decisions the worker makes.
  - Script classification.
  - One unit per character.
  - Per-unit dispatch: a copy and a paste for Arabic, a key write otherwise.
  - The whole-text paste route.
  - The progress reports.

  The actions get an independent meaning through `Perform`, which tracks the
  text the focused window receives, the clipboard, and the progress bar's
  value and maximum.
- `Session`: the two shared flags ("typing active", "typing paused") and the
  start, pause/resume and stop controls.
- `Worker`: the background typing routine as a step function. Before each
  step it reads the flags. A step is one countdown second, the start of
  typing, one unit, or one poll while paused. Each step is told which of its
  foreign calls (clipboard write, key injection, sleep), if any, raises.
- `Controller`: the application as a whole. It holds the flags and every
  worker launched so far. An event is either a control or a step of some
  worker, so any interleaving of the controls with the workers' steps can be
  stated.
- `SavedTexts`: the name-to-text store, with save, load, delete, and the
  sorted listing of names.

The worker types one character per unit, by `pyautogui.write` or through
the clipboard, and the session state is two independent boolean flags.

## Model

| member | source | states |
|---|---|---|
| Text.IsSpace | auto_typer.py:240 | the whitespace Python's `str.isspace` recognises, which `strip` removes from the editor text and the name (lines 240, 413 and 418); what stripping with it gives is stated by `Text.Strip` |
| Text.AnyArabic | auto_typer.py:283 | true exactly when some character of the text has a code point in the Arabic block U+0600..U+06FF; `TypingPlan.Classify` states how the language mode uses it |
| Text.Strip | auto_typer.py:240 | the stripped text is empty exactly when the input is all whitespace; otherwise it begins and ends with a non-space character; it is the input with only whitespace removed from each end |
| Text.StripIdempotent | auto_typer.py:413 | stripping an already stripped text (the stored and typed form) changes nothing |
| Text.StripKeeps | auto_typer.py:240 | a text is its own strip exactly when it is empty or neither begins nor ends with whitespace |
| TypingPlan.Classify | auto_typer.py:282-284 | Arabic exactly when the mode is "arabic", or the mode is "auto" and some character has a code point in 0x0600..0x06FF; "english" is never Arabic |
| TypingPlan.Chunks | auto_typer.py:381-385 | as many units as characters, unit i being the one-character string of character i |
| TypingPlan.ChunksConcat | auto_typer.py:294 | joining the units gives back the text |
| TypingPlan.ClipboardPlanShape | auto_typer.py:294-327 | on the per-character route for Arabic text, unit i becomes three actions: a clipboard copy of the unit, a paste, and the report i + 1 |
| TypingPlan.WritePlanShape | auto_typer.py:294-327 | on the per-character route for other text, unit i becomes two actions: a write of the unit and the report i + 1 |
| TypingPlan.CharRunShape | auto_typer.py:279-328 | a per-character run first sets the progress maximum to the text length, then the units' blocks follow in text order |
| TypingPlan.Dispatch | auto_typer.py:306-314 | one unit's foreign calls: a clipboard copy of the unit and a paste when routed as Arabic, a key write of it otherwise; its place in the run is stated by `TypingPlan.ClipboardPlanShape`, `TypingPlan.WritePlanShape` and `TypingPlan.CharRunShape` |
| TypingPlan.CharPlan | auto_typer.py:294-328 | the units' dispatch blocks in text order, each followed by the report of its position; stated by index in `TypingPlan.ClipboardPlanShape` and `TypingPlan.WritePlanShape`, its reports by `TypingPlan.CharRunReports` |
| TypingPlan.CharRun | auto_typer.py:279-328 | the per-character route: set the maximum to the text length, then every unit's block; stated by `TypingPlan.CharRunShape` and `TypingPlan.CharRouteActions` |
| TypingPlan.PasteUndelivered | auto_typer.py:345-370 | the whole-text route when every paste method fails: the maximum, the copy and the full-length report, with no paste; `Worker.Begin` states when a worker takes it and `TypingPlan.PasteRoute` that it delivers nothing but still reports the length |
| TypingPlan.PastePlan | auto_typer.py:338-370 | the whole-text route: set the maximum, copy the whole text, paste it, report the full length; what it delivers and reports is stated by `TypingPlan.PasteRoute` and `TypingPlan.PasteRouteActions` |
| TypingPlan.Plan | auto_typer.py:282-314 | every action of an uninterrupted run without failures: the whole-text route for text classified Arabic in paste mode, otherwise the per-character route; which actions it holds, what it delivers and what it reports are stated by `TypingPlan.PlanRoute`, `TypingPlan.PlanDelivers` and `TypingPlan.PlanReports` |
| TypingPlan.CharRouteActions | auto_typer.py:306-314 | on the per-character route a non-empty text goes through the clipboard exactly when it is routed as Arabic and is written by key injection exactly when it is not; every copy holds one character |
| TypingPlan.PasteRouteActions | auto_typer.py:334-370 | the whole-text route copies exactly once, the whole text, and never writes keys |
| TypingPlan.PlanRoute | auto_typer.py:282-314 | a complete run of a non-empty text uses the clipboard exactly when the text is classified Arabic and key injection exactly when it is not; in paste mode the only copy is of the whole text, otherwise every copy is of a single character |
| TypingPlan.PlanDelivers | auto_typer.py:289-332 | a complete run delivers exactly the text to the focused window, whatever the modes (given that key injection and pasting deliver every character they are given), and leaves the bar full at the text length |
| TypingPlan.PasteRoute | auto_typer.py:334-370 | the paste route delivers the whole text at the paste and nothing before it, and reports only the text length; when every paste fails nothing is delivered but the full length is still reported |
| TypingPlan.CharRunReports | auto_typer.py:325-327 | the per-character run reports 1, 2, ..., len(text), one report per character |
| TypingPlan.PlanReports | auto_typer.py:325-370 | progress reports strictly increase, never exceed the text length and end at it; on the per-character route they are 1, 2, ..., len(text); on the paste route the single report is len(text) |
| TypingPlan.CharPlanPrefixDelivers | auto_typer.py:297-328 | any point of the per-character route has delivered exactly the first k units, for some k |
| TypingPlan.PartialRunFacts | auto_typer.py:319-324 | a run cut short by a stop or an exception has delivered a prefix of the text, and its reports are still ascending and within the length |
| Session.Start | auto_typer.py:236-253 | a start is accepted exactly when typing is inactive, the editor holds more than whitespace and both numbers parse; a refused start leaves both flags as they were and reports why, in the order the code checks; an accepted one sets active, clears paused and hands on the stripped, non-empty text |
| Session.TogglePause | auto_typer.py:387-391 | no effect while inactive; while active it flips the pause flag and keeps typing active |
| Session.Stop | auto_typer.py:399-403 | afterwards typing is inactive; the pause flag is kept; no effect while inactive |
| Session.ToggleTwice | auto_typer.py:391 | pausing then resuming returns to the same flags |
| Session.StopSettles | auto_typer.py:236-253 | after a stop, pause and stop do nothing and a start is accepted again on valid input; a second start right after an accepted one is ignored |
| Worker.Launch | auto_typer.py:264-266 | the worker a start launches: its text, its session, the countdown of whole seconds and an empty log; `Worker.LaunchInv` states it starts in line with its phase and `Worker.CleanRunTypesPlan` that an undisturbed run from it types its plan |
| Worker.Begin | auto_typer.py:278-291 | at the end of the countdown Arabic text in paste mode takes the whole-text route: with every call returning it performs the paste plan and completes; a failed paste performs the undelivered plan and ends; any other failing call ends in an error after a part of the plan; every other text starts the per-character route, through the clipboard exactly when it is classified Arabic, after setting the maximum |
| Worker.Unit | auto_typer.py:306-327 | a unit whose foreign calls all return performs the unit's dispatch block and its report and moves to the next unit; a failing call (any of the four on the clipboard route, either of the two otherwise) ends the worker with an error, clears the flag and leaves a part of the block without the report |
| Worker.Step | auto_typer.py:268-332 | corrected: a step keeps the text and only extends the log; a finished worker is inert; a worker that is no longer live acts no more and, during the countdown or before a unit, ends cancelled; a live countdown second counts down; the end of a live countdown takes the route the settings select (as `Begin`); a paused step only polls; a live unpaused unit goes as `Unit`; once every unit is done the worker completes and clears the flag; only an ending other than a stop clears the flag |
| Worker.StepAsWritten | auto_typer.py:268-332 | as written: the end of the countdown begins typing without reading the active flag, and every other step is the corrected one; it keeps the log in line with the phase and the worker on its route (`Worker.StepInv`, `Worker.StepFollows`) and pastes after a stop (`Worker.PasteIgnoresStopAsWritten`) |
| Worker.StepInv | auto_typer.py:268-332 | every step, as corrected and as written, keeps the log in line with the phase: nothing during the countdown, exactly the first i units while typing unit i, a full run once completed and a run cut short otherwise |
| Worker.StepFollows | auto_typer.py:282-327 | every step, as corrected and as written, keeps the worker on the route of the settings it reads at the end of its countdown: per-character through the clipboard exactly when the text is classified Arabic and not pasted whole, and a completed worker has performed exactly that plan |
| Worker.Run | auto_typer.py:297-304 | corrected: running a worker over any schedule of flag readings, settings and faults keeps its text and only extends its log; a finished worker stays as it is |
| Worker.RunInv | auto_typer.py:297-304 | any schedule keeps the log in line with the phase |
| Worker.RunFollows | auto_typer.py:282-304 | any schedule whose settings stay the same keeps the worker on those settings' route |
| Worker.CleanRunTypesPlan | auto_typer.py:268-332 | a worker on a non-empty text (the only kind a start launches) that always sees typing active and unpaused and whose foreign calls all return has, after its countdown, the text length and two more steps, completed with exactly the plan of its settings as its log |
| Worker.InvDelivers | auto_typer.py:296-328 | at any point a worker has delivered a prefix of its text with ascending progress reports; a completed worker has delivered all of it with the bar full at the maximum |
| Worker.PasteIgnoresStopAsWritten | auto_typer.py:270-291 | for every non-empty text classified Arabic in paste mode, after a stop during the last countdown second the code as written still copies and pastes the whole text and completes, while the corrected step does nothing |
| Controller.Press | auto_typer.py:236-266 | pause flips the pause flag while typing is active and does nothing otherwise; stop clears the active flag and keeps the pause flag; a start is accepted exactly when typing is inactive, the editor holds more than whitespace and both numbers parse, and then sets the flags to active and unpaused and adds one worker on the stripped text under the next session number; a refused start changes nothing; no control touches a launched worker |
| Controller.Handle | auto_typer.py:236-332 | corrected: a control goes as `Press`; a worker's step sees typing as active only while the flag is set and its session is the latest, and only such a worker clears the flag; no event removes a worker; what this keeps is stated by `Controller.HandleGood`, `Controller.StaleWorkerSilent` and `Controller.StoppedDeskSilent` |
| Controller.HandleAsWritten | auto_typer.py:236-332 | as written: a control goes as `Press`; every worker reads the one shared active flag and clears it when it ends, whichever session launched it; no event removes a worker; what this keeps and breaks is stated by `Controller.HandleAsWrittenGood`, `Controller.StaleWorkerTypesAsWritten` and `Controller.StaleWorkerClearsFlagAsWritten` |
| Controller.AcceptedStart | auto_typer.py:236-266 | a start on an idle desk with an editor text that is not all whitespace launches exactly one new worker, on the stripped (non-empty) text, under the next session number, with typing active and not paused |
| Controller.Restart | auto_typer.py:236-266 | start, stop, start with two such editor texts leaves two fresh workers, one per stripped text, and typing active |
| Controller.HandleGood | auto_typer.py:252-332 | corrected: every event keeps the desk good: sessions are numbered in launch order, every worker's log matches its phase, and the flag is set only while the latest worker is unfinished |
| Controller.TickGood | auto_typer.py:268-332 | corrected: a step of any worker, stale or current, with any flag reading, fault and settings, keeps the desk good |
| Controller.HandleAsWrittenGood | auto_typer.py:252-332 | as written: every event keeps the desk good as well, although stale workers read and clear the shared flag |
| Controller.TickAsWrittenGood | auto_typer.py:268-332 | as written: a step of any worker keeps the desk good |
| Controller.RunGood | auto_typer.py:252-332 | any sequence of events, as corrected and as written, keeps the desk good |
| Controller.StaleWorkerSilent | auto_typer.py:298-299 | corrected: with session ownership a worker of an earlier session never types again and never touches the flags |
| Controller.StoppedDeskSilent | auto_typer.py:297-304 | corrected: once typing is inactive no worker delivers anything until the next start |
| Controller.StartWhileActiveIgnored | auto_typer.py:236-238 | a start while active changes nothing, both as corrected and as written |
| Controller.StaleWorkerTypesAsWritten | auto_typer.py:298-299 | for any two editor texts that are not all whitespace, as written, after start, stop, start under English settings (each character written by key injection) the first worker's next two steps set the bar and type the first character of its own stripped text; with session ownership the same steps type nothing |
| Controller.StaleWorkerClearsFlagAsWritten | auto_typer.py:330-332 | as written, a stale worker on a text of one character once stripped completes in three steps and clears the active flag, while the second session's worker is still in its countdown and untouched |
| Controller.EveryWorkerDeliversPrefix | auto_typer.py:268-332 | from the opened application, under any interleaving of controls, steps and faults, every worker has delivered a prefix of its text in order with ascending progress, all of it once completed; this holds as corrected, and as written at unit granularity (a unit's copy, wait and paste are one step) |
| SavedTexts.Save | auto_typer.py:412-427 | a save with an all-whitespace editor is refused first, then one with an all-whitespace name; a refused save changes nothing; otherwise the stripped text is stored under the stripped name, replacing any earlier one, no other entry changes and the name field is cleared |
| SavedTexts.Load | auto_typer.py:429-441 | nothing selected is an error; a selected name that is stored loads its text; one that is not is ignored |
| SavedTexts.Delete | auto_typer.py:443-453 | removes the selected name and nothing else, and only if it is stored; otherwise the store is unchanged |
| SavedTexts.SaveThenLoad | auto_typer.py:412-441 | a text saved under a name loads back, stripped, under that name |
| SavedTexts.DeleteThenLoad | auto_typer.py:443-453 | a deleted name no longer loads, and deleting it again finds nothing |
| SavedTexts.SaveThenDelete | auto_typer.py:412-453 | saving under a new name and then deleting it restores the store |
| SavedTexts.SaveClean | auto_typer.py:412-423 | saves keep every name and text of the store non-empty and stripped |
| SavedTexts.DeleteClean | auto_typer.py:448-450 | deletes keep every name and text of the store non-empty and stripped |
| SavedTexts.Below | auto_typer.py:457 | Python's order on strings, which `sorted` uses: code point by code point, a proper prefix first; that it is a strict total order is stated by `SavedTexts.BelowTotal` and `SavedTexts.BelowTransitive` |
| SavedTexts.BelowTotal | auto_typer.py:457 | Python's string order is total: of two different names one comes first |
| SavedTexts.BelowTransitive | auto_typer.py:457 | Python's string order is transitive |
| SavedTexts.ListNames | auto_typer.py:455-458 | the listing holds every stored name and nothing else, in strictly increasing string order |
| SavedTexts.SortedUnique | auto_typer.py:455-458 | only one sequence lists a set of names in strictly increasing order, so the listing is determined by the store |

## Left out

- Widgets, themes, button states (`reset_buttons`), status-bar messages and
  the switch to the typing tab after a load (auto_typer.py:13-234 and
  478-505) are not modelled.
- pyautogui, pyperclip, the keyboard hotkeys and win32clipboard are foreign
  code. They are modelled only as the actions `Copy`, `PasteKeys` and `Write`
  and as the fault a step is given.
- Worker.Begin: the three paste methods of the whole-text route
  (auto_typer.py:345-367) are one paste that either succeeds or fails. The
  second clipboard write of the third method is not modelled.
- Worker.Step: at most one foreign call raises per step, and only its index
  is modelled, not the exception's message. The sleeps of the countdown are
  not modelled as calls that can raise.
- TypingPlan.Effect: a `Write` or a paste is taken to deliver every
  character it is given. Whether `pyautogui.write` can inject a character
  outside the keyboard layout (Arabic text in "english" mode) is up to the
  foreign library and is not modelled; this is what "whatever the modes"
  in `TypingPlan.PlanDelivers` rests on.
- Controller.EveryWorkerDeliversPrefix: a unit's clipboard copy, settle
  wait and paste (auto_typer.py:309-311) are one step, so the race on the
  clipboard between two workers running at once is not modelled. As
  written, two workers can run at once (the first finding), and one
  worker's copy can land during the other's wait, which then pastes a
  character of the other text. With session ownership only the latest
  session's worker types (`Controller.StaleWorkerSilent`).
- Worker.RunFollows: stated for schedules whose settings never change.
  Only the settings read at the end of the countdown matter, and
  `Worker.StepFollows` states the exact one-step condition.
- Sleeps, pacing and the float parsing of the delay, the speed and the
  clipboard delay are not modelled. A parse of the delay and the speed is the
  boolean `numbersParse`. The countdown is a whole number of seconds, as
  `int(delay)` gives, and the caller supplies it. A negative delay is a
  countdown of 0, since `range(int(delay), 0, -1)` is then empty. A clipboard
  delay that does not parse, or a negative speed, is a fault of the wait that
  reads it.
- Controller.Press: a delay that `float()` accepts but `int()` rejects
  ("inf", "nan", "1e999"; auto_typer.py:246 and 270) is not modelled as its
  own case. Such a start is accepted and sets the active flag (line 252),
  and then `int(delay)` raises outside any `try`, so the worker ends at once
  with the flag still set. Every later start is then ignored (line 237)
  until stop is pressed. The model shows this only as a launched worker
  that is never stepped again.
- Threads and `root.after` are not modelled. The controls and the workers'
  steps interleave at step granularity in `Controller.Run`, and each
  progress update takes effect in order.
- A paused worker polls once per step; the 0.1 s poll interval is not
  modelled.
- The listbox is modelled by the selected name, not by the selected index.
- Reading and writing the store's JSON file (auto_typer.py:460-476) is not
  modelled. A file edited by hand may hold names and texts that are not
  stripped, so `SavedTexts.Clean` is stated as something saves keep, not as
  something always true.
- The duplicated `setup_settings_tab` and `toggle_rtl_support` under the
  `__main__` block (auto_typer.py:512-596) are dead code.

## Findings

| source | as written | input that shows it | evidently intended | confidence | as-written member | corrected member |
|---|---|---|---|---|---|---|
| auto_typer.py:298-299 | every worker reads the one shared `typing_active` flag, and every worker clears it when it ends (auto_typer.py:330-332) | start a text, then stop and start a second text before the first worker next reads the flag (for instance within one second of a countdown; the model shows it with no delay, before the first worker's first step): the first worker then types the first character of its own text and goes on; with a one-character first text its completion clears the flag while the second text is still counting down | a stopped session never types again and never ends a later session | not executed | Controller.StaleWorkerTypesAsWritten | Controller.StaleWorkerSilent |
| auto_typer.py:270-291 | the countdown checks the flag only before each second, and the whole-text paste route never checks it afterwards | Arabic text "س" in "auto" language and "paste" mode, stopped during the last countdown second: the whole text is still copied and pasted | no typing after a stop | not executed | Worker.PasteIgnoresStopAsWritten | Worker.Step |

`Controller.HandleAsWritten` and `Worker.StepAsWritten` model the code as
written. `Controller.Handle` and `Worker.Step` are the corrected versions,
and the rest of the model uses them. `Controller.Handle` gives each accepted
start a session number. A worker counts as live only while the flag is set
and its session is the latest one, and only such a worker may clear the
flag. `Worker.Step` also checks the flag when the countdown ends.
