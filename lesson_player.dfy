/**
 * The lesson player: a step-by-step walk through generated lesson content
 * with a per-step countdown, a pause switch and free-text quiz answers,
 * and the completion-rate "quiz score" computed when the lesson ends.
 */
module LessonPlayer {
  import opened Wrappers
  import Rounding
  import Decimal
  import Maps

  datatype StepKind = Concept | Example | Quiz | Application

  /** One step of generated content; quiz steps carry their question texts. */
  datatype LessonStep = LessonStep(
    step: int,
    kind: StepKind,
    content: Option<string>,
    questions: Option<seq<string>>)

  datatype LessonContent = LessonContent(topic: string, steps: seq<LessonStep>)

  /** One element of a step's answer array; None is a hole left by writing past the end. */
  type Slot = Option<string>

  /** Captured answers: step index to that step's answer array. */
  type Answers = map<nat, seq<Slot>>

  /** Every step is shown for at most 5 * 60 seconds. */
  const StepWindow: nat := 300

  // ---------------------------------------------------------------------
  // Answer capture

  /** The answer array of a step, or an empty one (`quizAnswers[i] || []`). */
  function SlotsOf(answers: Answers, step: nat): seq<Slot> {
    if step in answers then answers[step] else []
  }

  /**
   * `slots[q] = answer` on a JavaScript array: overwrite in place, or grow
   * the array, leaving holes between the old end and q.
   */
  function SetSlot(slots: seq<Slot>, q: nat, answer: string): (r: seq<Slot>)
    ensures |r| == if q < |slots| then |slots| else q + 1
    ensures r[q] == Some(answer)
    ensures forall i :: 0 <= i < |slots| && i != q ==> r[i] == slots[i]
    ensures forall i :: |slots| <= i < |r| && i != q ==> r[i] == None
  {
    if q < |slots| then slots[q := Some(answer)]
    else slots + Holes(q - |slots|) + [Some(answer)]
  }

  // ---------------------------------------------------------------------
  // Blank answers: `answer.trim()` is empty

  /** The characters `String.prototype.trim` removes: white space and line terminators. */
  predicate IsJsWhitespace(c: char) {
    c == '\t' || c == '\n' || c == '\U{000B}' || c == '\U{000C}' || c == '\r' || c == ' ' ||
    c == '\U{00A0}' || c == '\U{1680}' || ('\U{2000}' <= c <= '\U{200A}') ||
    c == '\U{2028}' || c == '\U{2029}' || c == '\U{202F}' || c == '\U{205F}' ||
    c == '\U{3000}' || c == '\U{FEFF}'
  }

  /** `trimStart`: the suffix left after dropping leading white space. */
  function TrimStart(s: string): (r: string)
    ensures |r| <= |s| && r == s[|s| - |r|..]
    ensures r != [] ==> !IsJsWhitespace(r[0])
  {
    if s != [] && IsJsWhitespace(s[0]) then TrimStart(s[1..]) else s
  }

  /** `trimEnd`: the prefix left after dropping trailing white space. */
  function TrimEnd(s: string): (r: string)
    ensures |r| <= |s| && r == s[..|r|]
    ensures r != [] ==> !IsJsWhitespace(r[|r| - 1])
  {
    if s != [] && IsJsWhitespace(s[|s| - 1]) then TrimEnd(s[..|s| - 1]) else s
  }

  /** `trim`: a slice of s that neither starts nor ends with white space. */
  function Trim(s: string): (r: string)
    ensures |r| <= |s|
    ensures r != [] ==> !IsJsWhitespace(r[0]) && !IsJsWhitespace(r[|r| - 1])
  {
    var t := TrimStart(s);
    var r := TrimEnd(t);
    assert r != [] ==> r[0] == t[0];
    r
  }

  predicate IsBlank(s: string) {
    forall i :: 0 <= i < |s| ==> IsJsWhitespace(s[i])
  }

  lemma {:induction false} TrimStartEmpty(s: string)
    ensures TrimStart(s) == [] <==> IsBlank(s)
    ensures TrimStart(s) != [] ==> !IsJsWhitespace(TrimStart(s)[0])
  {
    if s != [] && IsJsWhitespace(s[0]) {
      TrimStartEmpty(s[1..]);
      assert IsBlank(s) <==> IsBlank(s[1..]) by {
        assert forall i :: 0 <= i < |s[1..]| ==> s[1..][i] == s[i + 1];
      }
    }
  }

  lemma {:induction false} TrimEndEmpty(s: string)
    ensures TrimEnd(s) == [] <==> IsBlank(s)
  {
    if s != [] && IsJsWhitespace(s[|s| - 1]) {
      TrimEndEmpty(s[..|s| - 1]);
      assert IsBlank(s) <==> IsBlank(s[..|s| - 1]) by {
        assert forall i :: 0 <= i < |s| - 1 ==> s[..|s| - 1][i] == s[i];
      }
    }
  }

  /** What `trimStart` drops is white space: the removed prefix is blank. */
  lemma {:induction false} TrimStartDropsBlank(s: string)
    ensures IsBlank(s[..|s| - |TrimStart(s)|])
  {
    if s != [] && IsJsWhitespace(s[0]) {
      TrimStartDropsBlank(s[1..]);
      var d := s[1..][..|s[1..]| - |TrimStart(s[1..])|];
      assert s[..|s| - |TrimStart(s)|] == [s[0]] + d;
    }
  }

  /** What `trimEnd` drops is white space: the removed suffix is blank. */
  lemma {:induction false} TrimEndDropsBlank(s: string)
    ensures IsBlank(s[|TrimEnd(s)|..])
  {
    if s != [] && IsJsWhitespace(s[|s| - 1]) {
      var u := s[..|s| - 1];
      TrimEndDropsBlank(u);
      assert s[|TrimEnd(s)|..] == u[|TrimEnd(u)|..] + [s[|s| - 1]];
    }
  }

  /** `trim` removes exactly blank runs at both ends: s == lead + Trim(s) + tail. */
  lemma TrimDropsBlank(s: string)
    ensures exists i, j :: 0 <= i <= j <= |s| && Trim(s) == s[i..j] && IsBlank(s[..i]) && IsBlank(s[j..])
  {
    var t := TrimStart(s);
    TrimStartDropsBlank(s);
    TrimEndDropsBlank(t);
    var i := |s| - |t|;
    var j := i + |TrimEnd(t)|;
    assert t == s[i..];
    assert TrimEnd(t) == s[i..j];
    assert t[|TrimEnd(t)|..] == s[j..];
  }

  /** An answer counts as given exactly when it has a character trim() keeps. */
  lemma TrimEmptyIffBlank(s: string)
    ensures Trim(s) == "" <==> IsBlank(s)
  {
    TrimStartEmpty(s);
    var t := TrimStart(s);
    TrimEndEmpty(t);
    if t != [] {
      assert !IsJsWhitespace(t[0]);
    }
  }

  // ---------------------------------------------------------------------
  // The completion-rate quiz score

  /** An answer slot that `Object.values(..).flat().filter(a => a.trim())` keeps. */
  predicate IsFilled(slot: Slot) {
    slot.Some? && Trim(slot.value) != ""
  }

  function FilledCount(slots: seq<Slot>): (n: nat)
    ensures n <= |slots|
  {
    if slots == [] then 0
    else FilledCount(slots[..|slots| - 1]) + (if IsFilled(slots[|slots| - 1]) then 1 else 0)
  }

  /** The number of non-blank answers over all steps; the order of the map is irrelevant. */
  ghost function AnsweredCount(m: Answers): nat
    decreases |m|
  {
    if m == map[] then 0
    else
      var k :| k in m;
      assert |m - {k}| < |m| by { Maps.RemoveShrinks(m, k); }
      FilledCount(m[k]) + AnsweredCount(m - {k})
  }

  /** Any step may be taken out of the count first. */
  lemma {:induction false} AnsweredCountRemove(m: Answers, k: nat)
    requires k in m
    ensures AnsweredCount(m) == FilledCount(m[k]) + AnsweredCount(m - {k})
    decreases |m|
  {
    var j :| j in m && AnsweredCount(m) == FilledCount(m[j]) + AnsweredCount(m - {j});
    if j != k {
      Maps.RemoveShrinks(m, j);
      Maps.RemoveShrinks(m, k);
      AnsweredCountRemove(m - {j}, k);
      AnsweredCountRemove(m - {k}, j);
      assert m - {j} - {k} == m - {k} - {j};
    }
  }

  function QuestionCount(step: LessonStep): nat {
    if step.questions.Some? then |step.questions.value| else 0
  }

  /** `steps.filter(step => step.type === 'quiz')`. */
  function QuizSteps(steps: seq<LessonStep>): (qs: seq<LessonStep>)
    ensures forall i :: 0 <= i < |qs| ==> qs[i].kind == Quiz
    ensures forall i :: 0 <= i < |qs| ==> qs[i] in steps
    ensures forall i :: 0 <= i < |steps| && steps[i].kind == Quiz ==> steps[i] in qs
    ensures qs == [] <==> forall i :: 0 <= i < |steps| ==> steps[i].kind != Quiz
  {
    if steps == [] then []
    else
      var init := QuizSteps(steps[..|steps| - 1]);
      var last := steps[|steps| - 1];
      assert forall i :: 0 <= i < |steps| - 1 ==> steps[..|steps| - 1][i] == steps[i];
      init + (if last.kind == Quiz then [last] else [])
  }

  /** The kept steps are exactly the quiz steps of the lesson. */
  lemma QuizStepsMembers(steps: seq<LessonStep>)
    ensures forall x :: x in QuizSteps(steps) <==> x in steps && x.kind == Quiz
  {
  }

  /** The filter distributes over concatenation, so it keeps every quiz step in order. */
  lemma {:induction false} QuizStepsAppend(a: seq<LessonStep>, b: seq<LessonStep>)
    ensures QuizSteps(a + b) == QuizSteps(a) + QuizSteps(b)
    decreases |b|
  {
    if b == [] {
      assert a + b == a;
    } else {
      var init, last := b[..|b| - 1], b[|b| - 1];
      assert (a + b)[..|a + b| - 1] == a + init;
      assert (a + b)[|a + b| - 1] == last;
      QuizStepsAppend(a, init);
    }
  }

  /** `quizSteps.reduce((sum, step) => sum + (step.questions?.length || 0), 0)`. */
  function TotalQuestions(qs: seq<LessonStep>): nat {
    if qs == [] then 0 else TotalQuestions(qs[..|qs| - 1]) + QuestionCount(qs[|qs| - 1])
  }

  function QuizStepsOf(lesson: Option<LessonContent>): seq<LessonStep> {
    if lesson.Some? then QuizSteps(lesson.value.steps) else []
  }

  /** The score is a number: no quiz steps, or at least one question among them. */
  predicate ScoreDefined(lesson: Option<LessonContent>) {
    QuizStepsOf(lesson) == [] || TotalQuestions(QuizStepsOf(lesson)) > 0
  }

  /**
   * `calculateQuizScore`: 100 without quiz steps, otherwise the answered
   * questions as a rounded percentage of all quiz questions.
   */
  ghost function QuizScore(lesson: Option<LessonContent>, answers: Answers): (score: nat)
    requires ScoreDefined(lesson)
    ensures QuizStepsOf(lesson) == [] ==> score == 100
    ensures QuizStepsOf(lesson) != [] ==>
      var a, t := AnsweredCount(answers), TotalQuestions(QuizStepsOf(lesson));
      2 * t * score <= 200 * a + t < 2 * t * (score + 1)
  {
    var qs := QuizStepsOf(lesson);
    if qs == [] then 100
    else Rounding.RoundPercent(AnsweredCount(answers), TotalQuestions(qs))
  }

  /** Answers sit only in slots of displayed quiz questions (what the quiz view offers). */
  ghost predicate AnswersFit(steps: seq<LessonStep>, answers: Answers) {
    forall k :: k in answers ==>
      k < |steps| && steps[k].kind == Quiz && |answers[k]| <= QuestionCount(steps[k])
  }

  lemma AnswersFitRemove(steps: seq<LessonStep>, m: Answers, k: nat)
    requires AnswersFit(steps, m)
    ensures AnswersFit(steps, m - {k})
  {
  }

  lemma AnsweredWithin(steps: seq<LessonStep>, m: Answers, n: nat)
    requires n <= |steps| && AnswersFit(steps, m)
    requires forall k :: k in m ==> k < n
    ensures AnsweredCount(m) <= TotalQuestions(QuizSteps(steps[..n]))
  {
    AnsweredWithinPrefix(steps, m, n);
    QuestionsBeforeIsTotal(steps, n);
  }

  /** The question count of the quiz steps among the first n steps. */
  function QuestionsBefore(steps: seq<LessonStep>, n: nat): nat
    requires n <= |steps|
  {
    if n == 0 then 0
    else QuestionsBefore(steps, n - 1) + (if steps[n - 1].kind == Quiz then QuestionCount(steps[n - 1]) else 0)
  }

  lemma {:induction false} QuestionsBeforeIsTotal(steps: seq<LessonStep>, n: nat)
    requires n <= |steps|
    ensures QuestionsBefore(steps, n) == TotalQuestions(QuizSteps(steps[..n]))
  {
    if n > 0 {
      QuestionsBeforeIsTotal(steps, n - 1);
      TotalQuestionsStep(steps, n);
    }
  }

  lemma {:induction false} AnsweredWithinPrefix(steps: seq<LessonStep>, m: Answers, n: nat)
    requires n <= |steps| && AnswersFit(steps, m)
    requires forall k :: k in m ==> k < n
    ensures AnsweredCount(m) <= QuestionsBefore(steps, n)
  {
    if n == 0 {
      assert m == map[];
    } else {
      var rest := m - {n - 1};
      AnswersFitRemove(steps, m, n - 1);
      AnsweredWithinPrefix(steps, rest, n - 1);
      if n - 1 in m {
        AnsweredStepWithin(steps, m, n - 1);
      } else {
        assert rest == m;
      }
    }
  }

  /** The answers of one displayed quiz step add at most that step's question count. */
  lemma AnsweredStepWithin(steps: seq<LessonStep>, m: Answers, k: nat)
    requires AnswersFit(steps, m) && k in m
    ensures k < |steps| && steps[k].kind == Quiz
    ensures AnsweredCount(m) <= AnsweredCount(m - {k}) + QuestionCount(steps[k])
  {
    AnsweredCountRemove(m, k);
    assert FilledCount(m[k]) <= |m[k]| <= QuestionCount(steps[k]);
  }

  /** One more step adds its questions to the total exactly when it is a quiz step. */
  lemma TotalQuestionsStep(steps: seq<LessonStep>, n: nat)
    requires 0 < n <= |steps|
    ensures TotalQuestions(QuizSteps(steps[..n]))
         == TotalQuestions(QuizSteps(steps[..n - 1])) + (if steps[n - 1].kind == Quiz then QuestionCount(steps[n - 1]) else 0)
  {
    assert steps[..n][..n - 1] == steps[..n - 1];
    var qs := QuizSteps(steps[..n]);
    var init := QuizSteps(steps[..n - 1]);
    if steps[n - 1].kind == Quiz {
      assert qs == init + [steps[n - 1]];
      assert qs[..|qs| - 1] == init;
    } else {
      assert qs == init;
    }
  }

  /** With answers only in displayed quiz slots, the score is a percentage. */
  lemma QuizScoreInRange(lesson: Option<LessonContent>, answers: Answers)
    requires ScoreDefined(lesson)
    requires lesson.Some? ==> AnswersFit(lesson.value.steps, answers)
    ensures 0 <= QuizScore(lesson, answers) <= 100
  {
    if QuizStepsOf(lesson) != [] {
      var steps := lesson.value.steps;
      assert steps[..|steps|] == steps;
      AnsweredWithin(steps, answers, |steps|);
    }
  }

  /** Answering a displayed quiz question keeps the answers within the displayed slots. */
  lemma RecordAnswerKeepsFit(steps: seq<LessonStep>, answers: Answers, step: nat, q: nat, answer: string)
    requires AnswersFit(steps, answers)
    requires step < |steps| && steps[step].kind == Quiz && q < QuestionCount(steps[step])
    ensures AnswersFit(steps, answers[step := SetSlot(SlotsOf(answers, step), q, answer)])
  {
  }

  lemma {:induction false} FilledCountAppend(s: seq<Slot>, t: seq<Slot>)
    ensures FilledCount(s + t) == FilledCount(s) + FilledCount(t)
    decreases |t|
  {
    if t == [] {
      assert s + t == s;
    } else {
      assert (s + t)[..|s + t| - 1] == s + t[..|t| - 1];
      FilledCountAppend(s, t[..|t| - 1]);
    }
  }

  /** n holes, as JavaScript leaves them when an array grows past its end. */
  function Holes(n: nat): (r: seq<Slot>)
    ensures |r| == n && forall i :: 0 <= i < n ==> r[i] == None
  {
    seq(n, _ => None)
  }

  lemma {:induction false} HolesAreUnfilled(n: nat)
    ensures FilledCount(Holes(n)) == 0
  {
    if n > 0 {
      assert Holes(n)[..n - 1] == Holes(n - 1);
      HolesAreUnfilled(n - 1);
    }
  }

  lemma {:induction false} FilledCountUpdate(s: seq<Slot>, q: nat, x: Slot)
    requires q < |s|
    ensures FilledCount(s[q := x]) + (if IsFilled(s[q]) then 1 else 0)
         == FilledCount(s) + (if IsFilled(x) then 1 else 0)
  {
    assert s == s[..q] + [s[q]] + s[q + 1..];
    assert s[q := x] == s[..q] + [x] + s[q + 1..];
    FilledCountAppend(s[..q] + [s[q]], s[q + 1..]);
    FilledCountAppend(s[..q] + [x], s[q + 1..]);
    FilledCountAppend(s[..q], [s[q]]);
    FilledCountAppend(s[..q], [x]);
    assert [x][..0] == [] && [s[q]][..0] == [];
  }

  /**
   * Recording an answer moves the answered count by what the slot held
   * before and what it holds now: a first non-blank answer raises it by one.
   */
  lemma RecordAnswerCount(answers: Answers, step: nat, q: nat, answer: string)
    ensures var slots := SlotsOf(answers, step);
      var was := q < |slots| && IsFilled(slots[q]);
      AnsweredCount(answers[step := SetSlot(slots, q, answer)]) + (if was then 1 else 0)
      == AnsweredCount(answers) + (if IsFilled(Some(answer)) then 1 else 0)
  {
    var slots := SlotsOf(answers, step);
    var m' := answers[step := SetSlot(slots, q, answer)];
    AnsweredCountRemove(m', step);
    assert m' - {step} == answers - {step};
    if step in answers {
      AnsweredCountRemove(answers, step);
    } else {
      assert answers - {step} == answers;
    }
    if q < |slots| {
      FilledCountUpdate(slots, q, Some(answer));
    } else {
      HolesAreUnfilled(q - |slots|);
      FilledCountAppend(slots, Holes(q - |slots|));
      FilledCountAppend(slots + Holes(q - |slots|), [Some(answer)]);
      assert [Some(answer)][..0] == [];
    }
  }

  // ---------------------------------------------------------------------
  // `formatTime`: m:ss

  /** `${mins}:${secs.toString().padStart(2, '0')}`. */
  function FormatTime(seconds: nat): (r: string)
    ensures |r| >= 4 && r[|r| - 3] == ':'
    ensures Decimal.AllDigits(r[..|r| - 3]) && Decimal.AllDigits(r[|r| - 2..])
    ensures r[..|r| - 3] == Decimal.NatToString(seconds / 60)
  {
    var secs := seconds % 60;
    var d := Decimal.NatToString(secs);
    assert |d| <= 2 by {
      if secs >= 10 { assert 10 <= secs < 100; }
    }
    var ss := Decimal.PadStart(d, 2, '0');
    assert |ss| == 2 && ss[1] == d[|d| - 1];
    assert ss[0] == if |d| == 2 then d[0] else '0';
    var r := Decimal.NatToString(seconds / 60) + ":" + ss;
    assert r[|r| - 2..] == ss;
    assert r[..|r| - 3] == Decimal.NatToString(seconds / 60);
    r
  }

  /** Reads `m:ss` back into minutes and seconds, or nothing if it is not of that form. */
  function ParseTime(s: string): Option<(nat, nat)> {
    var (m, rest) := Decimal.SpanDigits(s);
    if m != [] && |rest| == 3 && rest[0] == ':' && Decimal.AllDigits(rest[1..]) then
      Some((Decimal.Value(m), Decimal.Value(rest[1..])))
    else
      None
  }

  /** The display reads back as whole minutes and the remaining seconds below 60. */
  lemma FormatTimeRoundTrip(seconds: nat)
    ensures ParseTime(FormatTime(seconds)) == Some((seconds / 60, seconds % 60))
    ensures seconds % 60 < 60 && (seconds / 60) * 60 + seconds % 60 == seconds
  {
    ClockRoundTrip(seconds / 60, seconds % 60);
  }

  lemma ClockRoundTrip(mins: nat, secs: nat)
    requires secs < 60
    ensures var d := Decimal.NatToString(secs);
      ParseTime(Decimal.NatToString(mins) + ":" + Decimal.PadStart(d, 2, '0')) == Some((mins, secs))
  {
    var m := Decimal.NatToString(mins);
    var d := Decimal.NatToString(secs);
    assert |d| <= 2 by {
      if secs >= 10 { assert 10 <= secs < 100; }
    }
    var ss := Decimal.PadStart(d, 2, '0');
    var rest := ":" + ss;
    assert m + ":" + ss == m + rest;
    Decimal.SpanDigitsOf(m, rest);
    assert rest[1..] == ss;
    PaddedValue(d, 2);
    Decimal.ValueOfNatToString(mins);
    Decimal.ValueOfNatToString(secs);
  }

  /** Zero padding keeps a digit string's value. */
  lemma PaddedValue(d: string, width: nat)
    requires Decimal.AllDigits(d)
    ensures Decimal.AllDigits(Decimal.PadStart(d, width, '0'))
    ensures Decimal.Value(Decimal.PadStart(d, width, '0')) == Decimal.Value(d)
  {
    var ss := Decimal.PadStart(d, width, '0');
    var z := ss[..|ss| - |d|];
    assert ss == z + d;
    assert forall i :: 0 <= i < |z| ==> z[i] == '0';
    Decimal.ValueIgnoresLeadingZeros(z, d);
  }

  // ---------------------------------------------------------------------
  // The session

  class LessonSession {
    var lesson: Option<LessonContent>
    var currentStep: nat
    var timeLeft: nat
    var paused: bool
    var answers: Answers

    /** The countdown stays within one window and the index points at a step (or is 0). */
    ghost predicate Valid()
      reads this
    {
      && 1 <= timeLeft <= StepWindow
      && (currentStep == 0 || (lesson.Some? && currentStep < |lesson.value.steps|))
    }

    /** `lesson && currentStepIndex < lesson.steps.length - 1`. */
    predicate HasNextStep()
      reads this
    {
      lesson.Some? && currentStep + 1 < |lesson.value.steps|
    }

    /** The player as mounted: no lesson yet, step 0, a full window, running. */
    constructor ()
      ensures Valid()
      ensures lesson == None && currentStep == 0 && timeLeft == StepWindow
      ensures !paused && answers == map[]
    {
      lesson := None;
      currentStep := 0;
      timeLeft := StepWindow;
      paused := false;
      answers := map[];
    }

    /** `loadLesson` succeeded: show the content from its first step with a full window. */
    method Load(content: LessonContent)
      modifies this
      ensures Valid()
      ensures lesson == Some(content) && currentStep == 0 && timeLeft == StepWindow
      ensures paused == old(paused) && answers == old(answers)
    {
      lesson := Some(content);
      currentStep := 0;
      timeLeft := StepWindow;
    }

    /**
     * `handleNextStep`: advance one step with a fresh window, or, on the last
     * step (or with no lesson), leave the state as it is and report completion.
     */
    method Next() returns (completed: bool)
      requires Valid()
      modifies this
      ensures Valid()
      ensures completed == !old(HasNextStep())
      ensures !completed ==> currentStep == old(currentStep) + 1 && timeLeft == StepWindow
      ensures completed ==> currentStep == old(currentStep) && timeLeft == old(timeLeft)
      ensures lesson == old(lesson) && paused == old(paused) && answers == old(answers)
    {
      if HasNextStep() {
        currentStep := currentStep + 1;
        timeLeft := StepWindow;
        completed := false;
      } else {
        completed := true;
      }
    }

    /** `handlePrevStep`: back one step with a fresh window; nothing at step 0. */
    method Prev()
      requires Valid()
      modifies this
      ensures Valid()
      ensures old(currentStep) == 0 ==> currentStep == 0 && timeLeft == old(timeLeft)
      ensures old(currentStep) > 0 ==> currentStep == old(currentStep) - 1 && timeLeft == StepWindow
      ensures lesson == old(lesson) && paused == old(paused) && answers == old(answers)
    {
      if currentStep > 0 {
        currentStep := currentStep - 1;
        timeLeft := StepWindow;
      }
    }

    /**
     * One second of the countdown. While paused (or at 0) nothing happens;
     * above 1 the countdown drops by one; at 1 the player moves on as Next
     * does and the countdown restarts.
     */
    method Tick() returns (completed: bool)
      requires Valid()
      modifies this
      ensures Valid()
      ensures old(paused) || old(timeLeft) == 0 ==>
        !completed && currentStep == old(currentStep) && timeLeft == old(timeLeft)
      ensures !old(paused) && old(timeLeft) > 1 ==>
        !completed && currentStep == old(currentStep) && timeLeft == old(timeLeft) - 1
      ensures !old(paused) && 0 < old(timeLeft) <= 1 ==>
        && completed == !old(HasNextStep())
        && currentStep == (if completed then old(currentStep) else old(currentStep) + 1)
        && timeLeft == StepWindow
      ensures lesson == old(lesson) && paused == old(paused) && answers == old(answers)
    {
      completed := false;
      if !paused && timeLeft > 0 {
        if timeLeft <= 1 {
          completed := Next();
          timeLeft := StepWindow;
        } else {
          timeLeft := timeLeft - 1;
        }
      }
    }

    /** `togglePause`. */
    method TogglePause()
      requires Valid()
      modifies this
      ensures Valid()
      ensures paused == !old(paused)
      ensures lesson == old(lesson) && currentStep == old(currentStep)
      ensures timeLeft == old(timeLeft) && answers == old(answers)
    {
      paused := !paused;
    }

    /** `handleQuizAnswer`: write slot q of the current step's answer array. */
    method RecordAnswer(q: nat, answer: string)
      requires Valid()
      modifies this
      ensures Valid()
      ensures answers == old(answers)[currentStep := SetSlot(SlotsOf(old(answers), currentStep), q, answer)]
      ensures lesson == old(lesson) && currentStep == old(currentStep)
      ensures timeLeft == old(timeLeft) && paused == old(paused)
    {
      var stepAnswers := SlotsOf(answers, currentStep);
      stepAnswers := SetSlot(stepAnswers, q, answer);
      answers := answers[currentStep := stepAnswers];
    }
  }
}
