/** `calculate_score` (app.py, lines 97-102): the number of questions whose
    stored answer equals the record's `correct` string. A question with no
    stored answer compares `None` with a string and is simply not counted. */
module Scoring {
  import opened Questions

  /** `answers.get(i) == questions[i]["correct"]`. */
  predicate Matched(qs: seq<Question>, answers: map<int, string>, i: int)
    requires 0 <= i < |qs|
  {
    i in answers && answers[i] == qs[i].correct
  }

  /** The indices below `k` whose answer matches. */
  ghost function MatchedBelow(qs: seq<Question>, answers: map<int, string>, k: int): set<int>
    requires 0 <= k <= |qs|
  {
    set i | 0 <= i < k && Matched(qs, answers, i)
  }

  /** The matches among the first `k` questions, counted one by one. */
  function CountMatches(qs: seq<Question>, answers: map<int, string>, k: int): (n: nat)
    requires 0 <= k <= |qs|
    ensures n == |MatchedBelow(qs, answers, k)|
    ensures n <= k
  {
    if k == 0 then
      assert MatchedBelow(qs, answers, 0) == {};
      0
    else
      var prev := CountMatches(qs, answers, k - 1);
      var hit := Matched(qs, answers, k - 1);
      assert MatchedBelow(qs, answers, k) ==
        MatchedBelow(qs, answers, k - 1) + (if hit then {k - 1} else {});
      prev + (if hit then 1 else 0)
  }

  /** The score of a quiz: how many of its questions were answered with the
      expected letter. */
  function Score(qs: seq<Question>, answers: map<int, string>): (n: nat)
    ensures n == |MatchedBelow(qs, answers, |qs|)|
    ensures n <= |qs|
  {
    CountMatches(qs, answers, |qs|)
  }

  /** Lines 97-102 as written: one pass over the questions with a running
      count. */
  method CalculateScore(qs: seq<Question>, answers: map<int, string>) returns (score: nat)
    ensures score == |set i | 0 <= i < |qs| && Matched(qs, answers, i)|
    ensures score <= |qs|
  {
    score := 0;
    var i := 0;
    while i < |qs|
      invariant 0 <= i <= |qs|
      invariant score == CountMatches(qs, answers, i)
    {
      if i in answers && answers[i] == qs[i].correct {
        score := score + 1;
      }
      i := i + 1;
    }
    assert score == |MatchedBelow(qs, answers, |qs|)|;
  }

  /** Submitting with no answers at all scores zero, without error. */
  lemma NoAnswersScoreZero(qs: seq<Question>)
    ensures Score(qs, map[]) == 0
  {
  }

  /** Answering every question with its expected letter scores the full
      length of the quiz. */
  lemma {:induction false} AllCorrectFullScore(qs: seq<Question>, answers: map<int, string>, k: int)
    requires 0 <= k <= |qs|
    requires forall i :: 0 <= i < |qs| ==> i in answers && answers[i] == qs[i].correct
    ensures CountMatches(qs, answers, k) == k
  {
    if k > 0 {
      AllCorrectFullScore(qs, answers, k - 1);
    }
  }

  /** Changing the answer stored for question `j` moves the score by at
      most one: it loses the old match, if there was one, and gains the new
      one, if the new letter is right. */
  lemma {:induction false} ScoreAfterAnswer(qs: seq<Question>, answers: map<int, string>, j: int, letter: string, k: int)
    requires 0 <= j < |qs|
    requires 0 <= k <= |qs|
    ensures CountMatches(qs, answers[j := letter], k) + (if j < k && Matched(qs, answers, j) then 1 else 0)
         == CountMatches(qs, answers, k) + (if j < k && letter == qs[j].correct then 1 else 0)
  {
    if k > 0 {
      ScoreAfterAnswer(qs, answers, j, letter, k - 1);
    }
  }

  /** Only the answers stored under the quiz's own indices matter: keys
      outside `0..|qs|` never change the score. */
  lemma {:induction false} ScoreIgnoresOtherKeys(qs: seq<Question>, answers: map<int, string>, k: int)
    requires 0 <= k <= |qs|
    ensures CountMatches(qs, answers, k)
         == CountMatches(qs, map i | i in answers && 0 <= i < |qs| :: answers[i], k)
  {
    if k > 0 {
      ScoreIgnoresOtherKeys(qs, answers, k - 1);
    }
  }
}
