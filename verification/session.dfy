/** The quiz held between interactions (app.py, lines 27-33, 107-144): the
    question list, the answer letter stored per question index, and the
    score once answers are submitted. */
module QuizSession {
  import opened JsonValue
  import opened Questions
  import Scoring

  datatype Session = Session(questions: seq<Question>, answers: map<int, string>, score: Option<nat>)

  /** Lines 28-33: nothing generated, nothing answered, no score. */
  const Initial: Session := Session([], map[], None)

  /** Line 121. */
  const Letters: seq<char> := ['A', 'B', 'C', 'D']

  /** Line 130: `f"{letters[idx]}) {opt_text}"`, with `text` the option
      already rendered as a string. */
  function Label(idx: nat, text: string): string
    requires idx < |Letters|
  {
    [Letters[idx]] + ") " + text
  }

  /** Lines 127-130: one label per option, the first four only, each the
      option's letter, `) ` and the option's text. `show` stands for
      Python's `str()` on an option value. */
  method LabelOptions(options: seq<Json>, show: Json -> string) returns (labels: seq<string>)
    ensures |labels| == Min(|options|, |Letters|)
    ensures forall idx :: 0 <= idx < |labels| ==>
              |labels[idx]| >= 3
              && labels[idx][0] == Letters[idx]
              && labels[idx][1..3] == ") "
              && labels[idx][3..] == show(options[idx])
  {
    labels := [];
    var idx := 0;
    while idx < |options|
      invariant 0 <= idx <= |options|
      invariant |labels| == Min(idx, |Letters|)
      invariant forall k :: 0 <= k < |labels| ==> labels[k] == Label(k, show(options[k]))
    {
      if idx < |Letters| {
        labels := labels + [Label(idx, show(options[idx]))];
      }
      idx := idx + 1;
    }
  }

  /** Line 138: `choice[0] if choice else ""`, where the radio widget gives
      back the chosen label or `None`. */
  function AnswerOf(choice: Option<string>): (a: string)
    ensures |a| <= 1
    ensures choice.Some? && |choice.value| > 0 ==> a == [choice.value[0]]
    ensures choice.None? || |choice.value| == 0 ==> a == ""
  {
    if choice.Some? && |choice.value| > 0 then [choice.value[0]] else ""
  }

  /** The option position an answer letter names, if it names one. */
  function LetterIndex(a: string): (r: Option<nat>)
    ensures r.Some? ==> r.value < |Letters| && a == [Letters[r.value]]
    ensures r.None? ==> forall idx :: 0 <= idx < |Letters| ==> a != [Letters[idx]]
  {
    if a == "A" then Some(0)
    else if a == "B" then Some(1)
    else if a == "C" then Some(2)
    else if a == "D" then Some(3)
    else None
  }

  /** Choosing the label of option `idx` stores that option's letter, one
      of A-D, which names option `idx` again. */
  lemma ChosenLetterRoundTrip(idx: nat, text: string)
    requires idx < |Letters|
    ensures AnswerOf(Some(Label(idx, text))) == [Letters[idx]]
    ensures AnswerOf(Some(Label(idx, text))) in {"A", "B", "C", "D"}
    ensures LetterIndex(AnswerOf(Some(Label(idx, text)))) == Some(idx)
  {
  }

  /** Line 138: store the letter of the choice for question `i`; the
      questions and the score are left as they are. */
  function RecordAnswer(s: Session, i: nat, choice: Option<string>): (r: Session)
    requires i < |s.questions|
    ensures r.questions == s.questions && r.score == s.score
    ensures r.answers.Keys == s.answers.Keys + {i}
    ensures forall j :: j in s.answers && j != i ==> r.answers[j] == s.answers[j]
    ensures r.answers[i] == AnswerOf(choice)
  {
    s.(answers := s.answers[i := AnswerOf(choice)])
  }

  /** Choosing option `idx` for question `i` makes that question count
      exactly when its expected letter is the letter of position `idx`. */
  lemma ChoiceCountsIff(s: Session, i: nat, idx: nat, text: string)
    requires i < |s.questions|
    requires idx < |Letters|
    ensures var r := RecordAnswer(s, i, Some(Label(idx, text)));
      Scoring.Matched(r.questions, r.answers, i) <==> s.questions[i].correct == [Letters[idx]]
  {
  }

  /** Lines 107-115. Without an API key nothing happens (the message is
      not modelled). Otherwise the quiz is replaced wholesale: the new
      questions, no answers, no score. The "model not initialized" branch
      of line 110 cannot be taken, since a model exists whenever a key
      does (lines 15-19). */
  function GenerateQuiz(s: Session, apiKey: string, reply: Reply, parse: string -> Option<Json>, p: Params): (r: Session)
    ensures apiKey == "" ==> r == s
    ensures apiKey != "" ==> r.answers == map[] && r.score == None
    ensures apiKey != "" ==> r.questions == GenerateQuestions(reply, parse, p)
    ensures apiKey != "" && reply.CallFailed? ==> r.questions == []
    ensures apiKey != "" ==> |r.questions| <= p.count && forall q :: q in r.questions ==> |q.options| == OptionCount
  {
    if apiKey == "" then s
    else Session(GenerateQuestions(reply, parse, p), map[], None)
  }

  /** Lines 143-144: the submit button exists only while there are
      questions; pressing it sets the score and nothing else. */
  function Submit(s: Session): (r: Session)
    ensures |s.questions| == 0 ==> r == s
    ensures |s.questions| > 0 ==> r.questions == s.questions && r.answers == s.answers
    ensures |s.questions| > 0 ==> r.score.Some? && r.score.value <= |s.questions|
    ensures |s.questions| > 0 ==>
              r.score.value == |set i | 0 <= i < |s.questions| && Scoring.Matched(s.questions, s.answers, i)|
  {
    if |s.questions| == 0 then s
    else s.(score := Some(Scoring.Score(s.questions, s.answers)))
  }

  /** Choosing option `idx` for question `i` and submitting scores one
      more than the other questions' matches when `idx` is the expected
      letter's position, and no more otherwise. */
  lemma ScoreAfterChoice(s: Session, i: nat, idx: nat, text: string)
    requires i < |s.questions|
    requires idx < |Letters|
    ensures var before := Scoring.Score(s.questions, s.answers);
      var after := Submit(RecordAnswer(s, i, Some(Label(idx, text)))).score.value;
      after + (if Scoring.Matched(s.questions, s.answers, i) then 1 else 0)
        == before + (if s.questions[i].correct == [Letters[idx]] then 1 else 0)
  {
    Scoring.ScoreAfterAnswer(s.questions, s.answers, i, [Letters[idx]], |s.questions|);
  }

  /** Answering every question with its expected letter and submitting
      scores the whole quiz. */
  lemma AllCorrectScoresAll(s: Session)
    requires |s.questions| > 0
    requires forall i :: 0 <= i < |s.questions| ==> i in s.answers && s.answers[i] == s.questions[i].correct
    ensures Submit(s).score == Some(|s.questions|)
  {
    Scoring.AllCorrectFullScore(s.questions, s.answers, |s.questions|);
  }

  /** The indices `0..n`, as a set. */
  function Indices(n: nat): (r: set<int>)
    ensures forall i :: i in r <==> 0 <= i < n
  {
    if n == 0 then {} else Indices(n - 1) + {n - 1}
  }

  /** Lines 118-138, run on every interaction while there are questions:
      question `i` gets a radio whose current choice is `choices[i]`, and
      the letter of that choice is stored for `i`. Answers stored under
      other indices are kept. */
  function ShowQuiz(s: Session, choices: seq<Option<string>>): (r: Session)
    requires |choices| == |s.questions|
    ensures r.questions == s.questions && r.score == s.score
    ensures forall i :: 0 <= i < |s.questions| ==> i in r.answers && r.answers[i] == AnswerOf(choices[i])
    ensures forall j :: j in s.answers && !(0 <= j < |s.questions|) ==> j in r.answers && r.answers[j] == s.answers[j]
    ensures forall j :: j in r.answers ==> j in s.answers || 0 <= j < |s.questions|
  {
    var shown := Indices(|s.questions|);
    s.(answers := map j | j in s.answers.Keys + shown ::
                   if 0 <= j < |s.questions| then AnswerOf(choices[j]) else s.answers[j])
  }

  /** When every radio's choice is one of its labels, every question shown
      holds one of A-D, namely the letter of the chosen position. */
  lemma ShownAnswersAreLetters(s: Session, choices: seq<Option<string>>, picks: seq<nat>, texts: seq<string>)
    requires |choices| == |s.questions| && |picks| == |choices| && |texts| == |choices|
    requires forall i :: 0 <= i < |choices| ==> picks[i] < |Letters| && choices[i] == Some(Label(picks[i], texts[i]))
    ensures forall i :: 0 <= i < |s.questions| ==>
              ShowQuiz(s, choices).answers[i] in {"A", "B", "C", "D"}
              && LetterIndex(ShowQuiz(s, choices).answers[i]) == Some(picks[i])
  {
  }

  /** Showing the quiz and then submitting scores the questions whose
      radio shows the expected letter; earlier answers play no part. */
  lemma ShowThenSubmit(s: Session, choices: seq<Option<string>>)
    requires |choices| == |s.questions| && |s.questions| > 0
    ensures Submit(ShowQuiz(s, choices)).score
         == Some(|set i | 0 <= i < |s.questions| && AnswerOf(choices[i]) == s.questions[i].correct|)
  {
    var r := ShowQuiz(s, choices);
    assert (set i | 0 <= i < |s.questions| && Scoring.Matched(r.questions, r.answers, i))
        == (set i | 0 <= i < |s.questions| && AnswerOf(choices[i]) == s.questions[i].correct);
  }

  /** What each radio returns before the user touches it: `st.radio` with
      no `index` selects its first label, and returns `None` when it has no
      options. `show` stands for Python's `str()` on an option value. */
  function UntouchedChoices(qs: seq<Question>, show: Json -> string): (r: seq<Option<string>>)
    ensures |r| == |qs|
    ensures forall i :: 0 <= i < |qs| && |qs[i].options| > 0 ==> r[i] == Some(Label(0, show(qs[i].options[0])))
    ensures forall i :: 0 <= i < |qs| && |qs[i].options| == 0 ==> r[i] == None
  {
    seq(|qs|, i requires 0 <= i < |qs| =>
      if |qs[i].options| > 0 then Some(Label(0, show(qs[i].options[0]))) else None)
  }

  /** Submitting a quiz nobody answered does not score 0: every radio still
      shows option A, so the score is the number of questions whose
      expected letter is A. */
  lemma UntouchedQuizScoresA(s: Session, show: Json -> string)
    requires |s.questions| > 0
    requires forall q :: q in s.questions ==> |q.options| > 0
    ensures Submit(ShowQuiz(s, UntouchedChoices(s.questions, show))).score
         == Some(|set i | 0 <= i < |s.questions| && s.questions[i].correct == "A"|)
  {
    var choices := UntouchedChoices(s.questions, show);
    ShowThenSubmit(s, choices);
    forall i | 0 <= i < |s.questions|
      ensures AnswerOf(choices[i]) == "A"
    {
      assert s.questions[i] in s.questions;
    }
    assert (set i | 0 <= i < |s.questions| && AnswerOf(choices[i]) == s.questions[i].correct)
        == (set i | 0 <= i < |s.questions| && s.questions[i].correct == "A");
  }

  /** The fallback quiz, submitted untouched, gets full marks: its answer is
      A everywhere and every radio shows A. */
  lemma UntouchedFallbackFullMarks(s: Session, p: Params, show: Json -> string)
    requires s.questions == Fallback(p) && p.count > 0
    ensures Submit(ShowQuiz(s, UntouchedChoices(s.questions, show))).score == Some(p.count)
  {
    var r := ShowQuiz(s, UntouchedChoices(s.questions, show));
    forall i | 0 <= i < |r.questions|
      ensures i in r.answers && r.answers[i] == r.questions[i].correct
    {
      assert r.questions[i] in r.questions;
    }
    AllCorrectScoresAll(r);
  }

  /** On a fresh page (lines 28-33), pressing "Generate quiz" without an
      API key leaves no quiz: nothing is shown, and there is nothing to
      submit. */
  lemma NoKeyNoQuiz(reply: Reply, parse: string -> Option<Json>, p: Params)
    ensures GenerateQuiz(Initial, "", reply, parse, p) == Initial
    ensures Submit(ShowQuiz(GenerateQuiz(Initial, "", reply, parse, p), [])) == Initial
  {
  }

  /** A failed model call after a quiz was shown leaves an empty quiz, not
      the previous one: `generate_questions` returns `[]` and the session
      takes it. */
  lemma FailedCallClearsQuiz(s: Session, apiKey: string, parse: string -> Option<Json>, p: Params)
    requires apiKey != ""
    ensures GenerateQuiz(s, apiKey, CallFailed, parse, p) == Session([], map[], None)
  {
  }
}
