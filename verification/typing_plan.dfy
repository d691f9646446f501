/**
 The decision logic of the typing worker, stated as pure functions: how a
 text is classified as Arabic, how it is cut into units, and which actions
 (clipboard writes, key injection, progress updates) an uninterrupted,
 failure-free run performs. The actions get an independent meaning through
 `Perform`, which tracks what the focused window receives, what the
 clipboard holds and what the progress bar shows.
 */
module TypingPlan {
  import opened Text

  /** The "Language Settings" radio values "auto", "arabic" and "english". */
  datatype LangMode = Auto | ArabicOnly | EnglishOnly

  /** The "Arabic Typing Mode" radio values "character" and "paste". */
  datatype ArabicMode = CharByChar | PasteWhole

  /** One effect of the worker on the outside world. */
  datatype Action =
    | SetMaximum(n: nat)  // the progress bar's maximum
    | Copy(s: string)     // a clipboard write
    | PasteKeys           // the ctrl+v key combination
    | Write(s: string)    // direct key injection of a text
    | Progress(n: nat)    // the progress bar's value

  /** The text received by the focused window, the clipboard contents and
      the progress bar's value and maximum. */
  datatype World = World(typed: string, clipboard: string, bar: nat, barMax: nat)

  function Effect(w: World, a: Action): World {
    match a
    case SetMaximum(n) => w.(barMax := n)
    case Copy(s) => w.(clipboard := s)
    case PasteKeys => w.(typed := w.typed + w.clipboard)
    case Write(s) => w.(typed := w.typed + s)
    case Progress(n) => w.(bar := n)
  }

  /** The world after the actions, performed in order, starting from `w`. */
  function Perform(acts: seq<Action>, w: World): World {
    if acts == [] then w else Perform(acts[1..], Effect(w, acts[0]))
  }

  /** The progress values the actions report, in order. */
  function Reported(acts: seq<Action>): seq<nat> {
    if acts == [] then []
    else (if acts[0].Progress? then [acts[0].n] else []) + Reported(acts[1..])
  }

  /** `a` is a prefix of `b`. Kept instead of the built-in `a <= b` so that
      the proofs can work with the slice `b[..|a|]` directly. */
  predicate IsPrefix<T(==)>(a: seq<T>, b: seq<T>) {
    |a| <= |b| && b[..|a|] == a
  }

  lemma AppendAssoc<T>(a: seq<T>, b: seq<T>, c: seq<T>)
    ensures (a + b) + c == a + (b + c)
  {
  }

  lemma PrefixTrans<T>(a: seq<T>, b: seq<T>, c: seq<T>)
    requires IsPrefix(a, b) && IsPrefix(b, c)
    ensures IsPrefix(a, c)
  {
    assert c[..|b|][..|a|] == c[..|a|];
  }

  lemma PrefixExtend<T>(x: seq<T>, a: seq<T>, b: seq<T>)
    requires IsPrefix(a, b)
    ensures IsPrefix(x + a, x + b)
  {
    assert (x + b)[..|x + a|] == x + b[..|a|];
  }

  /** Progress values that strictly increase and never exceed `n`. */
  ghost predicate Ascending(r: seq<nat>, n: nat) {
    && (forall j :: 0 <= j < |r| ==> r[j] <= n)
    && (forall j, k :: 0 <= j < k < |r| ==> r[j] < r[k])
  }

  lemma {:induction false} PerformAppend(a: seq<Action>, b: seq<Action>, w: World)
    ensures Perform(a + b, w) == Perform(b, Perform(a, w))
  {
    if a == [] {
      assert a + b == b;
    } else {
      assert (a + b)[1..] == a[1..] + b;
      PerformAppend(a[1..], b, Effect(w, a[0]));
    }
  }

  lemma {:induction false} ReportedAppend(a: seq<Action>, b: seq<Action>)
    ensures Reported(a + b) == Reported(a) + Reported(b)
  {
    if a == [] {
      assert a + b == b;
    } else {
      var h := if a[0].Progress? then [a[0].n] else [];
      assert (a + b)[0] == a[0];
      assert (a + b)[1..] == a[1..] + b;
      ReportedAppend(a[1..], b);
      AppendAssoc(h, Reported(a[1..]), Reported(b));
    }
  }

  lemma PerformTwo(a: Action, b: Action, w: World)
    ensures Perform([a], w) == Effect(w, a)
    ensures Perform([a, b], w) == Effect(Effect(w, a), b)
    ensures Reported([a, b]) == Reported([a]) + Reported([b])
  {
    assert [a, b][1..] == [b];
    assert [b][1..] == [] && [a][1..] == [];
    assert Perform([a, b], w) == Perform([b], Effect(w, a));
    assert Perform([b], Effect(w, a)) == Perform([], Effect(Effect(w, a), b));
    assert [a, b] == [a] + [b];
    ReportedAppend([a], [b]);
  }

  lemma PerformThree(a: Action, b: Action, c: Action, w: World)
    ensures Perform([a, b, c], w) == Effect(Effect(Effect(w, a), b), c)
    ensures Reported([a, b, c]) == Reported([a]) + Reported([b]) + Reported([c])
  {
    assert [a, b, c][1..] == [b, c];
    assert [a, b, c] == [a] + [b, c];
    PerformTwo(b, c, Effect(w, a));
    ReportedAppend([a], [b, c]);
    PerformTwo(b, c, w);
  }

  /** What one dispatched unit and its report do to the world. */
  lemma UnitEffect(u: string, arabic: bool, n: nat, w: World)
    ensures var blk := Dispatch(u, arabic) + [Progress(n)];
            && Perform(blk, w).typed == w.typed + u
            && Perform(blk, w).bar == n
            && Perform(blk, w).barMax == w.barMax
            && Reported(blk) == [n]
            && Perform(blk[..|blk| - 1], w).typed == w.typed + u
            && (arabic ==> Perform(blk[..1], w).typed == w.typed)
  {
    var blk := Dispatch(u, arabic) + [Progress(n)];
    if arabic {
      assert blk == [Copy(u), PasteKeys, Progress(n)];
      PerformThree(Copy(u), PasteKeys, Progress(n), w);
      PerformTwo(Copy(u), PasteKeys, w);
      assert blk[..|blk| - 1] == [Copy(u), PasteKeys];
      assert blk[..1] == [Copy(u)];
    } else {
      assert blk == [Write(u), Progress(n)];
      PerformTwo(Write(u), Progress(n), w);
      assert blk[..|blk| - 1] == [Write(u)];
    }
  }

  /** Whether the run takes the Arabic (clipboard) route: the mode forces
      Arabic, or the mode is automatic and some code point of the text lies
      in the Arabic block. The English mode is never Arabic. */
  function Classify(text: string, mode: LangMode): (arabic: bool)
    ensures arabic <==> (mode == ArabicOnly || (mode == Auto && exists i :: 0 <= i < |text| && IsArabic(text[i])))
    ensures mode == EnglishOnly ==> !arabic
  {
    mode == ArabicOnly || (mode == Auto && AnyArabic(text))
  }

  /** The units the per-character route types: one single-character string
      per character of the text, in order. */
  function Chunks(text: string): (units: seq<string>)
    ensures |units| == |text|
    ensures forall i :: 0 <= i < |text| ==> units[i] == [text[i]]
  {
    if text == [] then []
    else Chunks(text[..|text| - 1]) + [[text[|text| - 1]]]
  }

  /** The units joined back together. */
  function Concat(units: seq<string>): string {
    if units == [] then [] else Concat(units[..|units| - 1]) + units[|units| - 1]
  }

  /** Joining the chunks gives back the text. */
  lemma {:induction false} ChunksConcat(text: string)
    ensures Concat(Chunks(text)) == text
  {
    if text != [] {
      var t' := text[..|text| - 1];
      ChunksConcat(t');
      assert Chunks(text)[..|text| - 1] == Chunks(t');
      assert text == t' + [text[|text| - 1]];
    }
  }

  /** The chunks of a prefix are the prefix of the chunks. */
  lemma ChunksPrefix(text: string, i: nat)
    requires i <= |text|
    ensures Chunks(text[..i]) == Chunks(text)[..i]
  {
  }

  /** How one unit is delivered: through the clipboard for Arabic, by key
      injection otherwise. */
  function Dispatch(unit: string, arabic: bool): seq<Action> {
    if arabic then [Copy(unit), PasteKeys] else [Write(unit)]
  }

  /** The per-character route over `units`: each unit is dispatched and then
      the number of units done so far is reported. */
  function CharPlan(units: seq<string>, arabic: bool): seq<Action> {
    if units == [] then []
    else
      CharPlan(units[..|units| - 1], arabic)
      + Dispatch(units[|units| - 1], arabic) + [Progress(|units|)]
  }

  /** The whole-text route: one clipboard write, one paste, and the progress
      bar set to the full length at once. */
  function PastePlan(text: string): seq<Action> {
    [SetMaximum(|text|), Copy(text), PasteKeys, Progress(|text|)]
  }

  /** The whole-text route when every paste fallback failed. */
  function PasteUndelivered(text: string): seq<Action> {
    [SetMaximum(|text|), Copy(text), Progress(|text|)]
  }

  /** The per-character route over the whole text, after the maximum is set. */
  function CharRun(text: string, arabic: bool): seq<Action> {
    [SetMaximum(|text|)] + CharPlan(Chunks(text), arabic)
  }

  /** Every action of an uninterrupted, failure-free run, in order. */
  function Plan(text: string, lang: LangMode, mode: ArabicMode): seq<Action> {
    var arabic := Classify(text, lang);
    if arabic && mode == PasteWhole then PastePlan(text) else CharRun(text, arabic)
  }

  /** A run that went to its end. */
  predicate FullRun(text: string, log: seq<Action>) {
    log == CharRun(text, false) || log == CharRun(text, true) || log == PastePlan(text)
  }

  /** A run that may have been cut short by a stop or a failed foreign call. */
  predicate PartialRun(text: string, log: seq<Action>) {
    || IsPrefix(log, CharRun(text, false))
    || IsPrefix(log, CharRun(text, true))
    || IsPrefix(log, PastePlan(text))
    || log == PasteUndelivered(text)
  }

  /** The shape of a per-character run: unit `i` is delivered by a copy and
      a paste (Arabic) or by a direct write, and is followed at once by the
      report `i + 1`. */
  lemma {:induction false} ClipboardPlanShape(units: seq<string>)
    ensures |CharPlan(units, true)| == 3 * |units|
    ensures forall i :: 0 <= i < |units| ==>
              && CharPlan(units, true)[3 * i] == Copy(units[i])
              && CharPlan(units, true)[3 * i + 1] == PasteKeys
              && CharPlan(units, true)[3 * i + 2] == Progress(i + 1)
  {
    if units != [] {
      var n := |units| - 1;
      var u' := units[..n];
      ClipboardPlanShape(u');
      var p := CharPlan(u', true);
      var plan := CharPlan(units, true);
      assert plan == p + [Copy(units[n]), PasteKeys, Progress(n + 1)];
      forall i | 0 <= i < |units|
        ensures && plan[3 * i] == Copy(units[i]) && plan[3 * i + 1] == PasteKeys && plan[3 * i + 2] == Progress(i + 1)
      {
        if i < n {
          assert units[i] == u'[i];
        }
      }
    }
  }

  lemma {:induction false} WritePlanShape(units: seq<string>)
    ensures |CharPlan(units, false)| == 2 * |units|
    ensures forall i :: 0 <= i < |units| ==>
              && CharPlan(units, false)[2 * i] == Write(units[i])
              && CharPlan(units, false)[2 * i + 1] == Progress(i + 1)
  {
    if units != [] {
      var n := |units| - 1;
      var u' := units[..n];
      WritePlanShape(u');
      var p := CharPlan(u', false);
      var plan := CharPlan(units, false);
      assert plan == p + [Write(units[n]), Progress(n + 1)];
      forall i | 0 <= i < |units|
        ensures plan[2 * i] == Write(units[i]) && plan[2 * i + 1] == Progress(i + 1)
      {
        if i < n {
          assert units[i] == u'[i];
        }
      }
    }
  }

  /** The dispatch choice of a per-character run: after the maximum is set,
      character `i` is copied and pasted (Arabic) or written (not Arabic),
      and followed at once by the report `i + 1`. */
  lemma CharRunShape(text: string, arabic: bool)
    ensures CharRun(text, arabic)[0] == SetMaximum(|text|)
    ensures arabic ==>
              |CharRun(text, arabic)| == 1 + 3 * |text|
              && forall i :: 0 <= i < |text| ==>
                   && CharRun(text, arabic)[1 + 3 * i] == Copy([text[i]])
                   && CharRun(text, arabic)[2 + 3 * i] == PasteKeys
                   && CharRun(text, arabic)[3 + 3 * i] == Progress(i + 1)
    ensures !arabic ==>
              |CharRun(text, arabic)| == 1 + 2 * |text|
              && forall i :: 0 <= i < |text| ==>
                   && CharRun(text, arabic)[1 + 2 * i] == Write([text[i]])
                   && CharRun(text, arabic)[2 + 2 * i] == Progress(i + 1)
  {
    var units := Chunks(text);
    var cp := CharPlan(units, arabic);
    var run := CharRun(text, arabic);
    assert run == [SetMaximum(|text|)] + cp;
    if arabic {
      ClipboardPlanShape(units);
      forall i | 0 <= i < |text|
        ensures run[1 + 3 * i] == Copy([text[i]]) && run[2 + 3 * i] == PasteKeys && run[3 + 3 * i] == Progress(i + 1)
      {
        assert run[1 + 3 * i] == cp[3 * i] && run[2 + 3 * i] == cp[3 * i + 1] && run[3 + 3 * i] == cp[3 * i + 2];
      }
    } else {
      WritePlanShape(units);
      forall i | 0 <= i < |text|
        ensures run[1 + 2 * i] == Write([text[i]]) && run[2 + 2 * i] == Progress(i + 1)
      {
        assert run[1 + 2 * i] == cp[2 * i] && run[2 + 2 * i] == cp[2 * i + 1];
      }
    }
  }

  /** A per-character run through the clipboard consists of the maximum,
      copies of single characters, pastes and reports: no direct write. */
  lemma ClipboardRunActions(text: string)
    ensures forall j :: 0 <= j < |CharRun(text, true)| ==>
              CharRun(text, true)[j].SetMaximum? || CharRun(text, true)[j].PasteKeys?
              || CharRun(text, true)[j].Progress?
              || (CharRun(text, true)[j].Copy? && |CharRun(text, true)[j].s| == 1)
  {
    var run := CharRun(text, true);
    CharRunShape(text, true);
    forall j | 0 <= j < |run|
      ensures run[j].SetMaximum? || run[j].PasteKeys? || run[j].Progress? || (run[j].Copy? && |run[j].s| == 1)
    {
      if j > 0 {
        var q, r := (j - 1) / 3, (j - 1) % 3;
        assert j == 1 + 3 * q + r && q < |text|;
        if r == 0 {
          assert run[1 + 3 * q] == Copy([text[q]]);
        }
      }
    }
  }

  /** A per-character run by key injection consists of the maximum, writes
      of single characters and reports: nothing goes through the clipboard. */
  lemma WriteRunActions(text: string)
    ensures forall j :: 0 <= j < |CharRun(text, false)| ==>
              CharRun(text, false)[j].SetMaximum? || CharRun(text, false)[j].Progress?
              || (CharRun(text, false)[j].Write? && |CharRun(text, false)[j].s| == 1)
  {
    var run := CharRun(text, false);
    CharRunShape(text, false);
    forall j | 0 <= j < |run|
      ensures run[j].SetMaximum? || run[j].Progress? || (run[j].Write? && |run[j].s| == 1)
    {
      if j > 0 {
        var q, r := (j - 1) / 2, (j - 1) % 2;
        assert j == 1 + 2 * q + r && q < |text|;
        if r == 0 {
          assert run[1 + 2 * q] == Write([text[q]]);
        }
      }
    }
  }

  /** On the per-character route a non-empty text goes through the
      clipboard exactly when it is routed as Arabic, and is written by key
      injection exactly when it is not; every copy holds one character. */
  lemma CharRouteActions(text: string, arabic: bool)
    ensures text != [] ==>
              ((exists j :: 0 <= j < |CharRun(text, arabic)| && CharRun(text, arabic)[j].Copy?) <==> arabic)
    ensures text != [] ==>
              ((exists j :: 0 <= j < |CharRun(text, arabic)| && CharRun(text, arabic)[j].Write?) <==> !arabic)
    ensures forall j :: 0 <= j < |CharRun(text, arabic)| && CharRun(text, arabic)[j].Copy? ==>
              |CharRun(text, arabic)[j].s| == 1
  {
    if arabic {
      ClipboardRunActions(text);
    } else {
      WriteRunActions(text);
    }
    if text != [] {
      CharRunShape(text, arabic);
      assert CharRun(text, arabic)[1] == if arabic then Copy([text[0]]) else Write([text[0]]);
    }
  }

  /** The paste route copies exactly once, the whole text, and never writes. */
  lemma PasteRouteActions(text: string)
    ensures exists j :: 0 <= j < |PastePlan(text)| && PastePlan(text)[j].Copy?
    ensures forall j :: 0 <= j < |PastePlan(text)| ==> !PastePlan(text)[j].Write?
    ensures forall j :: 0 <= j < |PastePlan(text)| && PastePlan(text)[j].Copy? ==>
              j == 1 && PastePlan(text)[j].s == text
  {
    assert PastePlan(text)[1].Copy?;
  }

  /** The dispatch choice of a complete run. A non-empty text goes through
      the clipboard exactly when it is classified Arabic, and is written by
      key injection exactly when it is not. Arabic text in paste mode is
      copied once, as a whole; on the per-character route each copy holds
      one character. */
  lemma PlanRoute(text: string, lang: LangMode, mode: ArabicMode)
    ensures text != [] ==>
              ((exists j :: 0 <= j < |Plan(text, lang, mode)| && Plan(text, lang, mode)[j].Copy?)
               <==> Classify(text, lang))
    ensures text != [] ==>
              ((exists j :: 0 <= j < |Plan(text, lang, mode)| && Plan(text, lang, mode)[j].Write?)
               <==> !Classify(text, lang))
    ensures Classify(text, lang) && mode == PasteWhole ==>
              forall j :: 0 <= j < |Plan(text, lang, mode)| && Plan(text, lang, mode)[j].Copy? ==>
                j == 1 && Plan(text, lang, mode)[j].s == text
    ensures mode != PasteWhole ==>
              forall j :: 0 <= j < |Plan(text, lang, mode)| && Plan(text, lang, mode)[j].Copy? ==>
                |Plan(text, lang, mode)[j].s| == 1
  {
    var arabic := Classify(text, lang);
    if arabic && mode == PasteWhole {
      assert Plan(text, lang, mode) == PastePlan(text);
      PasteRouteActions(text);
    } else {
      assert Plan(text, lang, mode) == CharRun(text, arabic);
      CharRouteActions(text, arabic);
    }
  }

  /** Performing the per-character route types exactly the joined units,
      leaves the maximum alone and ends with the bar at the unit count. */
  lemma {:induction false} CharPlanDelivers(units: seq<string>, arabic: bool, origin: World)
    ensures Perform(CharPlan(units, arabic), origin).typed == origin.typed + Concat(units)
    ensures Perform(CharPlan(units, arabic), origin).barMax == origin.barMax
    ensures units != [] ==> Perform(CharPlan(units, arabic), origin).bar == |units|
  {
    if units != [] {
      var u' := units[..|units| - 1];
      var u := units[|units| - 1];
      var blk := Dispatch(u, arabic) + [Progress(|units|)];
      CharPlanDelivers(u', arabic, origin);
      assert CharPlan(units, arabic) == CharPlan(u', arabic) + blk;
      PerformAppend(CharPlan(u', arabic), blk, origin);
      UnitEffect(u, arabic, |units|, Perform(CharPlan(u', arabic), origin));
      assert Concat(units) == Concat(u') + u;
      AppendAssoc(origin.typed, Concat(u'), u);
    }
  }

  /** The per-character route reports 1, 2, ..., one value per unit. */
  lemma {:induction false} CharPlanReports(units: seq<string>, arabic: bool)
    ensures |Reported(CharPlan(units, arabic))| == |units|
    ensures forall j :: 0 <= j < |units| ==> Reported(CharPlan(units, arabic))[j] == j + 1
  {
    if units != [] {
      var u' := units[..|units| - 1];
      var blk := Dispatch(units[|units| - 1], arabic) + [Progress(|units|)];
      CharPlanReports(u', arabic);
      assert CharPlan(units, arabic) == CharPlan(u', arabic) + blk;
      ReportedAppend(CharPlan(u', arabic), blk);
      UnitEffect(units[|units| - 1], arabic, |units|, World([], [], 0, 0));
    }
  }

  /** Round trip: a complete run types exactly the text, whatever the modes
      and whatever the clipboard held, and leaves the progress bar full. */
  lemma PlanDelivers(text: string, lang: LangMode, mode: ArabicMode, origin: World)
    ensures Perform(Plan(text, lang, mode), origin).typed == origin.typed + text
    ensures Perform(Plan(text, lang, mode), origin).barMax == |text|
    ensures text != [] ==> Perform(Plan(text, lang, mode), origin).bar == |text|
  {
    var arabic := Classify(text, lang);
    if !(arabic && mode == PasteWhole) {
      var head := [SetMaximum(|text|)];
      PerformAppend(head, CharPlan(Chunks(text), arabic), origin);
      CharPlanDelivers(Chunks(text), arabic, Perform(head, origin));
      ChunksConcat(text);
    } else {
      PasteRoute(text, origin);
    }
  }

  /** What the whole-text route does, and what it does when the paste fails. */
  lemma PasteRoute(text: string, origin: World)
    ensures Perform(PastePlan(text), origin) == origin.(typed := origin.typed + text, clipboard := text, bar := |text|, barMax := |text|)
    ensures Perform(PastePlan(text)[..2], origin).typed == origin.typed
    ensures Perform(PastePlan(text)[..3], origin).typed == origin.typed + text
    ensures Reported(PastePlan(text)) == [|text|]
    ensures Perform(PasteUndelivered(text), origin).typed == origin.typed
    ensures Reported(PasteUndelivered(text)) == [|text|]
  {
    var plan := PastePlan(text);
    var m := SetMaximum(|text|);
    assert plan == [m] + [Copy(text), PasteKeys, Progress(|text|)];
    PerformAppend([m], [Copy(text), PasteKeys, Progress(|text|)], origin);
    PerformThree(Copy(text), PasteKeys, Progress(|text|), Effect(origin, m));
    PerformTwo(m, Copy(text), origin);
    PerformThree(m, Copy(text), PasteKeys, origin);
    ReportedAppend([m], [Copy(text), PasteKeys, Progress(|text|)]);
    PerformThree(Copy(text), PasteKeys, Progress(|text|), origin);
    assert plan[..2] == [m, Copy(text)];
    assert plan[..3] == [m, Copy(text), PasteKeys];
    PerformThree(m, Copy(text), Progress(|text|), origin);
  }

  /** Progress of a complete run: the per-character route reports k after the
      k-th character, the paste route reports the full length once; in both
      the values strictly increase up to the text length. */
  lemma PlanReports(text: string, lang: LangMode, mode: ArabicMode)
    ensures Ascending(Reported(Plan(text, lang, mode)), |text|)
    ensures text != [] ==> (|Reported(Plan(text, lang, mode))| > 0
              && Reported(Plan(text, lang, mode))[|Reported(Plan(text, lang, mode))| - 1] == |text|)
    ensures Classify(text, lang) && mode == PasteWhole ==> Reported(Plan(text, lang, mode)) == [|text|]
    ensures !(Classify(text, lang) && mode == PasteWhole) ==>
              |Reported(Plan(text, lang, mode))| == |text|
              && forall j :: 0 <= j < |text| ==> Reported(Plan(text, lang, mode))[j] == j + 1
  {
    var arabic := Classify(text, lang);
    if !(arabic && mode == PasteWhole) {
      assert Plan(text, lang, mode) == CharRun(text, arabic);
      CharRunReports(text, arabic);
      CountingAscends(Reported(CharRun(text, arabic)));
    } else {
      assert Plan(text, lang, mode) == PastePlan(text);
      PasteRoute(text, World([], [], 0, 0));
    }
  }

  /** A per-character run reports 1, 2, ..., len(text). */
  lemma CharRunReports(text: string, arabic: bool)
    ensures |Reported(CharRun(text, arabic))| == |text|
    ensures forall j :: 0 <= j < |text| ==> Reported(CharRun(text, arabic))[j] == j + 1
  {
    var m := SetMaximum(|text|);
    ReportedAppend([m], CharPlan(Chunks(text), arabic));
    assert [m][1..] == [];
    assert Reported([m]) == [];
    CharPlanReports(Chunks(text), arabic);
  }

  /** The counting sequence 1, 2, ..., n is ascending within n and ends at n. */
  lemma CountingAscends(r: seq<nat>)
    requires forall j :: 0 <= j < |r| ==> r[j] == j + 1
    ensures Ascending(r, |r|)
    ensures |r| > 0 ==> r[|r| - 1] == |r|
  {
  }

  /** The per-character route over a prefix of the units is a prefix of the
      route over all of them. */
  lemma {:induction false} CharPlanPrefix(units: seq<string>, i: nat, arabic: bool)
    requires i <= |units|
    ensures IsPrefix(CharPlan(units[..i], arabic), CharPlan(units, arabic))
  {
    if i < |units| {
      var u' := units[..|units| - 1];
      CharPlanPrefix(u', i, arabic);
      assert u'[..i] == units[..i];
      assert CharPlan(units, arabic) == CharPlan(u', arabic) + Dispatch(units[|units| - 1], arabic) + [Progress(|units|)];
    } else {
      assert units[..i] == units;
    }
  }

  /** Extending the units by one extends the route by that unit's block. */
  lemma CharPlanSnoc(units: seq<string>, i: nat, arabic: bool)
    requires i < |units|
    ensures CharPlan(units[..i + 1], arabic)
            == CharPlan(units[..i], arabic) + Dispatch(units[i], arabic) + [Progress(i + 1)]
  {
    assert units[..i + 1][..i] == units[..i];
  }

  /** Typing one more character of the text extends the route by that
      character's block. */
  lemma CharPlanNext(text: string, i: nat, arabic: bool)
    requires i < |text|
    ensures CharPlan(Chunks(text[..i + 1]), arabic)
            == CharPlan(Chunks(text[..i]), arabic) + (Dispatch(Chunks(text)[i], arabic) + [Progress(i + 1)])
  {
    ChunksPrefix(text, i);
    ChunksPrefix(text, i + 1);
    CharPlanSnoc(Chunks(text), i, arabic);
  }

  /** Any prefix of the per-character route has typed the first `k` units,
      for the `k` returned. */
  lemma {:induction false} CharPlanPrefixDelivers(units: seq<string>, arabic: bool, j: nat, origin: World)
    returns (k: nat)
    requires j <= |CharPlan(units, arabic)|
    ensures k <= |units|
    ensures Perform(CharPlan(units, arabic)[..j], origin).typed == origin.typed + Concat(units[..k])
  {
    var plan := CharPlan(units, arabic);
    if units == [] {
      k := 0;
      assert plan[..j] == [];
    } else {
      var u' := units[..|units| - 1];
      var u := units[|units| - 1];
      var prev := CharPlan(u', arabic);
      var blk := Dispatch(u, arabic) + [Progress(|units|)];
      assert plan == prev + blk;
      if j <= |prev| {
        assert plan[..j] == prev[..j];
        k := CharPlanPrefixDelivers(u', arabic, j, origin);
        assert u'[..k] == units[..k];
      } else {
        k := LastBlockDelivers(units, arabic, j, origin);
      }
    }
  }

  /** The case of `CharPlanPrefixDelivers` where the prefix ends inside the
      last unit's block. */
  lemma LastBlockDelivers(units: seq<string>, arabic: bool, j: nat, origin: World) returns (k: nat)
    requires units != []
    requires |CharPlan(units[..|units| - 1], arabic)| < j <= |CharPlan(units, arabic)|
    ensures k <= |units|
    ensures Perform(CharPlan(units, arabic)[..j], origin).typed == origin.typed + Concat(units[..k])
  {
    var u' := units[..|units| - 1];
    var u := units[|units| - 1];
    var prev := CharPlan(u', arabic);
    var blk := Dispatch(u, arabic) + [Progress(|units|)];
    var plan := CharPlan(units, arabic);
    assert plan == prev + blk;
    var part := blk[..j - |prev|];
    assert plan[..j] == prev + part;
    PerformAppend(prev, part, origin);
    CharPlanDelivers(u', arabic, origin);
    var whole := BlockPrefixDelivers(u, arabic, |units|, j - |prev|, Perform(prev, origin));
    if whole {
      k := |units|;
      assert units[..k] == units;
      assert Concat(units) == Concat(u') + u;
      AppendAssoc(origin.typed, Concat(u'), u);
    } else {
      k := |units| - 1;
      assert units[..k] == u';
      assert origin.typed + [] == origin.typed;
    }
  }

  /** A non-empty prefix of one unit's block has delivered either the whole
      unit or, for Arabic before the paste, nothing. */
  lemma BlockPrefixDelivers(u: string, arabic: bool, n: nat, m: nat, w: World) returns (whole: bool)
    requires 0 < m <= |Dispatch(u, arabic) + [Progress(n)]|
    ensures Perform((Dispatch(u, arabic) + [Progress(n)])[..m], w).typed == w.typed + (if whole then u else [])
  {
    var blk := Dispatch(u, arabic) + [Progress(n)];
    UnitEffect(u, arabic, n, w);
    whole := !(arabic && m == 1);
    if whole {
      assert blk[..m] == blk || blk[..m] == blk[..|blk| - 1];
    } else {
      assert w.typed + [] == w.typed;
    }
  }

  /** The reports of a prefix are a prefix of the reports. */
  lemma ReportedPrefix(acts: seq<Action>, j: nat)
    requires j <= |acts|
    ensures IsPrefix(Reported(acts[..j]), Reported(acts))
  {
    var a, b := acts[..j], acts[j..];
    assert acts == a + b;
    ReportedAppend(a, b);
    assert Reported(acts)[..|Reported(a)|] == Reported(a);
  }

  /** A prefix of an ascending report sequence is ascending. */
  lemma AscendingPrefix(r: seq<nat>, s: seq<nat>, n: nat)
    requires IsPrefix(r, s) && Ascending(s, n)
    ensures Ascending(r, n)
  {
    assert forall j :: 0 <= j < |r| ==> r[j] == s[j];
  }

  /** A run cut short has typed some prefix of the text, and its progress
      reports still strictly increase up to the text length. */
  lemma PartialRunFacts(text: string, log: seq<Action>, origin: World) returns (k: nat)
    requires PartialRun(text, log)
    ensures k <= |text|
    ensures Perform(log, origin).typed == origin.typed + text[..k]
    ensures Ascending(Reported(log), |text|)
  {
    if log == PasteUndelivered(text) {
      k := 0;
      PasteRoute(text, origin);
    } else if IsPrefix(log, PastePlan(text)) {
      k := PastePrefixDelivers(text, log, origin);
    } else {
      var arabic := IsPrefix(log, CharRun(text, true));
      k := CharRunPrefixDelivers(text, arabic, log, origin);
    }
  }

  lemma PastePrefixDelivers(text: string, log: seq<Action>, origin: World) returns (k: nat)
    requires IsPrefix(log, PastePlan(text))
    ensures k <= |text|
    ensures Perform(log, origin).typed == origin.typed + text[..k]
    ensures Ascending(Reported(log), |text|)
  {
    var plan := PastePlan(text);
    PasteRoute(text, origin);
    ReportedPrefix(plan, |log|);
    AscendingPrefix(Reported(log), Reported(plan), |text|);
    assert text[..|text|] == text;
    if |log| <= 2 {
      k := 0;
      if |log| == 1 {
        assert log == [SetMaximum(|text|)];
      } else if |log| == 0 {
        assert log == [];
      }
    } else {
      k := |text|;
      assert log == plan[..3] || log == plan;
    }
  }

  lemma CharRunPrefixDelivers(text: string, arabic: bool, log: seq<Action>, origin: World) returns (k: nat)
    requires IsPrefix(log, CharRun(text, arabic))
    ensures k <= |text|
    ensures Perform(log, origin).typed == origin.typed + text[..k]
    ensures Ascending(Reported(log), |text|)
  {
    CharRunPrefixAscending(text, arabic, log);
    k := CharRunPrefixTyped(text, arabic, log, origin);
  }

  lemma CharRunPrefixAscending(text: string, arabic: bool, log: seq<Action>)
    requires IsPrefix(log, CharRun(text, arabic))
    ensures Ascending(Reported(log), |text|)
  {
    var run := CharRun(text, arabic);
    var lang := if arabic then ArabicOnly else EnglishOnly;
    assert run == Plan(text, lang, CharByChar);
    PlanReports(text, lang, CharByChar);
    ReportedPrefix(run, |log|);
    AscendingPrefix(Reported(log), Reported(run), |text|);
  }

  lemma CharRunPrefixTyped(text: string, arabic: bool, log: seq<Action>, origin: World) returns (k: nat)
    requires IsPrefix(log, CharRun(text, arabic))
    ensures k <= |text|
    ensures Perform(log, origin).typed == origin.typed + text[..k]
  {
    if log == [] {
      k := 0;
    } else {
      var m := SetMaximum(|text|);
      var plan := CharPlan(Chunks(text), arabic);
      var rest := log[1..];
      assert log == [m] + rest;
      assert CharRun(text, arabic) == [m] + plan;
      assert rest == plan[..|rest|];
      PerformAppend([m], rest, origin);
      PerformTwo(m, m, origin);
      var o := Perform([m], origin);
      k := CharPlanPrefixDelivers(Chunks(text), arabic, |rest|, o);
      ChunksPrefix(text, k);
      ChunksConcat(text[..k]);
    }
  }

  /** A complete run has typed the whole text. */
  lemma FullRunDelivers(text: string, log: seq<Action>, origin: World)
    requires FullRun(text, log)
    ensures Perform(log, origin).typed == origin.typed + text
    ensures Ascending(Reported(log), |text|)
    ensures text != [] ==> Perform(log, origin).bar == |text| && Perform(log, origin).barMax == |text|
  {
    if log == PastePlan(text) {
      PlanDelivers(text, ArabicOnly, PasteWhole, origin);
      PlanReports(text, ArabicOnly, PasteWhole);
    } else {
      var lang := if log == CharRun(text, true) then ArabicOnly else EnglishOnly;
      PlanDelivers(text, lang, CharByChar, origin);
      PlanReports(text, lang, CharByChar);
    }
  }
}
