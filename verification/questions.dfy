/** Turning the parsed reply into question records (app.py, lines 66-95),
    and the whole of `generate_questions` once the model has answered. */
module Questions {
  import opened JsonValue
  import opened Text
  import Sanitise

  /** A question record as the quiz stores it. The values of `question` and
      `explanation` are whatever the reply held, so they stay JSON values;
      `correct` is always a string. */
  datatype Question = Question(question: Json, options: seq<Json>, correct: string, explanation: Json)

  /** What the user chose in the form; the difficulty only feeds the prompt,
      which is not modelled. */
  datatype Params = Params(subject: string, topic: string, count: nat)

  /** What the model call produced: its text, or an exception. */
  datatype Reply = Replied(text: string) | CallFailed

  const NoQuestion: Json := Str("No question")
  const DummyOption: Json := Str("Dummy option")
  const DefaultCorrect: string := "A"
  const NoExplanation: Json := Str("")
  const OptionCount: nat := 4

  /** Lines 78-79: append the placeholder option until there are four. */
  function PadOptions(options: seq<Json>): (r: seq<Json>)
    requires |options| <= OptionCount
    ensures |r| == OptionCount
    ensures r[..|options|] == options
    ensures forall k :: |options| <= k < OptionCount ==> r[k] == DummyOption
    decreases OptionCount - |options|
  {
    if |options| == OptionCount then options
    else
      var r := PadOptions(options + [DummyOption]);
      assert r[..|options|] == r[..|options| + 1][..|options|];
      r
  }

  /** Lines 77-79: exactly four options, the given ones first (at most four
      of them), the placeholder after. */
  function NormaliseOptions(options: seq<Json>): (r: seq<Json>)
    ensures |r| == OptionCount
    ensures forall k :: 0 <= k < Min(OptionCount, |options|) ==> r[k] == options[k]
    ensures forall k :: |options| <= k < OptionCount ==> r[k] == DummyOption
  {
    var kept := options[..Min(OptionCount, |options|)];
    var r := PadOptions(kept);
    assert forall k :: 0 <= k < |kept| ==> r[k] == r[..|kept|][k];
    r
  }

  /** `q.get("correct", "A")` is a string, so `.strip()` does not raise. */
  predicate CorrectIsString(members: seq<(string, Json)>) {
    Lookup(members, "correct").None? || Lookup(members, "correct").value.Str?
  }

  /** `list(q.get("options", []))` does not raise. */
  predicate OptionsIterable(members: seq<(string, Json)>) {
    Lookup(members, "options").None? || AsList(Lookup(members, "options").value).Some?
  }

  /** The default answer letter is already stripped and upper-case. */
  lemma DefaultCorrectIsNormal()
    ensures Upper(Strip(DefaultCorrect)) == DefaultCorrect
  {
    StripVisible(DefaultCorrect);
    assert Upper(DefaultCorrect) == DefaultCorrect;
  }

  /** An empty option list becomes four placeholders. */
  lemma FourPlaceholders()
    ensures NormaliseOptions([]) == [DummyOption, DummyOption, DummyOption, DummyOption]
  {
  }

  /** Line 73: the answer letter, or `None` when `.strip()` would raise.
      It is the element's string trimmed and upper-cased, and `A` when
      the key is absent. */
  function CorrectField(members: seq<(string, Json)>): (r: Option<string>)
    ensures r.Some? <==> CorrectIsString(members)
    ensures Lookup(members, "correct").None? ==> r == Some(DefaultCorrect)
    ensures Lookup(members, "correct").Some? && r.Some? ==>
              r.value == Upper(Strip(Lookup(members, "correct").value.s))
  {
    var v := Get(members, "correct", Str(DefaultCorrect));
    if !v.Str? then None
    else
      DefaultCorrectIsNormal();
      Some(Upper(Strip(v.s)))
  }

  /** Lines 72 and 77-79: the four options, or `None` when `list(...)`
      would raise. They are the element's list cut or padded to four, and
      four placeholders when the key is absent. */
  function OptionsField(members: seq<(string, Json)>): (r: Option<seq<Json>>)
    ensures r.Some? <==> OptionsIterable(members)
    ensures r.Some? ==> |r.value| == OptionCount
    ensures Lookup(members, "options").None? ==>
              r == Some([DummyOption, DummyOption, DummyOption, DummyOption])
    ensures Lookup(members, "options").Some? && r.Some? ==>
              r.value == NormaliseOptions(AsList(Lookup(members, "options").value).value)
  {
    var v := AsList(Get(members, "options", Arr([])));
    if v.None? then None
    else
      FourPlaceholders();
      Some(NormaliseOptions(v.value))
  }

  /** Lines 71-86 for one element of the reply. Python raises, and the
      whole reply falls back, exactly when the element is not a dict, its
      `correct` is not a string, or its `options` cannot be turned into a
      list. */
  function NormaliseQuestion(q: Json): (r: Option<Question>)
    ensures r.Some? <==> q.Obj? && CorrectIsString(q.members) && OptionsIterable(q.members)
    ensures r.Some? ==> |r.value.options| == OptionCount
  {
    match q
    case Obj(members) =>
      var correct := CorrectField(members);
      var options := OptionsField(members);
      if correct.None? || options.None? then None
      else
        Some(Question(
          Get(members, "question", NoQuestion),
          options.value,
          correct.value,
          Get(members, "explanation", NoExplanation)))
    case _ => None
  }

  /** The fields of a normalised record. The question text and the
      explanation are the element's own values when present, and the
      defaults of lines 71 and 74 when absent. The answer letter and the
      options are those of `CorrectField` and `OptionsField`: the element's
      `correct` stripped and upper-cased (or `A`), and its options cut or
      padded to four (or four placeholders). */
  lemma NormalisedText(q: Json)
    requires NormaliseQuestion(q).Some?
    ensures var r := NormaliseQuestion(q).value;
      && (Lookup(q.members, "question").None? ==> r.question == NoQuestion)
      && (Lookup(q.members, "question").Some? ==> r.question == Lookup(q.members, "question").value)
      && (Lookup(q.members, "explanation").None? ==> r.explanation == NoExplanation)
      && (Lookup(q.members, "explanation").Some? ==> r.explanation == Lookup(q.members, "explanation").value)
      && r.correct == CorrectField(q.members).value
      && r.options == OptionsField(q.members).value
  {
  }

  /** All values when every entry is present, `None` otherwise. */
  function AllPresent<T>(xs: seq<Option<T>>): (r: Option<seq<T>>)
    ensures r.Some? <==> forall k :: 0 <= k < |xs| ==> xs[k].Some?
    ensures r.Some? ==> |r.value| == |xs| && forall k :: 0 <= k < |xs| ==> xs[k] == Some(r.value[k])
  {
    if |xs| == 0 then Some([])
    else
      var tail := AllPresent(xs[1..]);
      if xs[0].None? then None
      else if tail.None? then
        var k :| 0 <= k < |xs[1..]| && xs[1..][k].None?;
        assert xs[k + 1] == xs[1..][k];
        None
      else
        var r := [xs[0].value] + tail.value;
        assert forall k :: 1 <= k < |xs| ==> xs[k] == xs[1..][k - 1] && r[k] == tail.value[k - 1];
        Some(r)
  }

  /** The loop of lines 70-86: every element normalised, in order, or
      `None` when one of them raises (the loop stops there, and the result
      is the fallback whichever element it was). */
  function NormaliseAll(items: seq<Json>): (r: Option<seq<Question>>)
    ensures r.Some? <==> forall k :: 0 <= k < |items| ==> NormaliseQuestion(items[k]).Some?
    ensures r.Some? ==> |r.value| == |items|
    ensures r.Some? ==> forall k :: 0 <= k < |items| ==> Some(r.value[k]) == NormaliseQuestion(items[k])
  {
    var each := seq(|items|, k requires 0 <= k < |items| => NormaliseQuestion(items[k]));
    assert forall k :: 0 <= k < |items| ==> each[k] == NormaliseQuestion(items[k]);
    AllPresent(each)
  }

  /** Every record the loop produces has four options. */
  lemma NormalisedHaveFourOptions(items: seq<Json>)
    requires NormaliseAll(items).Some?
    ensures forall q :: q in NormaliseAll(items).value ==> |q.options| == OptionCount
  {
    var qs := NormaliseAll(items).value;
    forall q | q in qs
      ensures |q.options| == OptionCount
    {
      var k :| 0 <= k < |qs| && qs[k] == q;
      assert Some(q) == NormaliseQuestion(items[k]);
    }
  }

  /** The canned question of lines 90-95. */
  function FallbackQuestion(p: Params): Question {
    Question(
      Str("What is " + p.topic + " in " + p.subject + "?"),
      [Str("Basic idea"), Str("Hard theorem"), Str("History"), Str("Formula")],
      DefaultCorrect,
      Str("You should first know the basic idea."))
  }

  /** Lines 90-95: `count` copies of the canned question, each with four
      options and `A` as its answer. */
  function Fallback(p: Params): (r: seq<Question>)
    ensures |r| == p.count
    ensures forall k :: 0 <= k < |r| ==> r[k] == FallbackQuestion(p)
    ensures forall q :: q in r ==> |q.options| == OptionCount && q.correct == DefaultCorrect
  {
    seq(p.count, _ => FallbackQuestion(p))
  }

  /** Lines 66-95 from the outcome of `json.loads` (`None` when it raised):
      slice to `count` elements, normalise each, or fall back. */
  function FromParsed(parsed: Option<Json>, p: Params): (r: seq<Question>)
    ensures |r| <= p.count
    ensures forall q :: q in r ==> |q.options| == OptionCount
    ensures parsed.None? ==> r == Fallback(p)
  {
    if parsed.None? then Fallback(p)
    else
      match Take(parsed.value, p.count)
      case None => Fallback(p)
      case Some(items) =>
        match NormaliseAll(items)
        case None => Fallback(p)
        case Some(qs) =>
          NormalisedHaveFourOptions(items);
          qs
  }

  /** `generate_questions` after the prompt: a failed model call gives no
      questions (lines 55-57); otherwise the reply is sanitised and handed
      to `parse`, which stands for `json.loads`. */
  function GenerateQuestions(reply: Reply, parse: string -> Option<Json>, p: Params): (r: seq<Question>)
    ensures reply.CallFailed? ==> r == []
    ensures |r| <= p.count
    ensures forall q :: q in r ==> |q.options| == OptionCount
  {
    match reply
    case CallFailed => []
    case Replied(text) => FromParsed(parse(Sanitise.SanitiseReply(text)), p)
  }

  /** A parsed list whose first `count` elements all normalise gives one
      record per element, in order, and no padding when it is short. */
  lemma ListSuccess(items: seq<Json>, p: Params)
    requires forall k :: 0 <= k < Min(p.count, |items|) ==> NormaliseQuestion(items[k]).Some?
    ensures |FromParsed(Some(Arr(items)), p)| == Min(p.count, |items|)
    ensures forall k :: 0 <= k < Min(p.count, |items|) ==>
              Some(FromParsed(Some(Arr(items)), p)[k]) == NormaliseQuestion(items[k])
  {
    var kept := items[..Min(p.count, |items|)];
    assert Take(Arr(items), p.count) == Some(kept);
    assert forall k :: 0 <= k < |kept| ==> kept[k] == items[k];
    assert NormaliseAll(kept).Some?;
    assert FromParsed(Some(Arr(items)), p) == NormaliseAll(kept).value;
  }

  /** One element among the first `count` that raises makes the whole
      result the fallback list. */
  lemma ListFailure(items: seq<Json>, p: Params, bad: nat)
    requires bad < Min(p.count, |items|)
    requires NormaliseQuestion(items[bad]).None?
    ensures FromParsed(Some(Arr(items)), p) == Fallback(p)
  {
    var kept := items[..Min(p.count, |items|)];
    assert kept[bad] == items[bad];
  }

  /** A parsed value that is neither a list nor a string cannot be sliced,
      so the fallback list comes back. */
  lemma UnsliceableFallsBack(v: Json, p: Params)
    requires !v.Arr? && !v.Str?
    ensures FromParsed(Some(v), p) == Fallback(p)
  {
  }

  /** A parsed string slices into one-character strings, none of which is a
      dict: a non-empty string (with `count > 0`) falls back, the empty string
      gives an empty quiz. */
  lemma StringReply(s: string, p: Params)
    ensures |s| == 0 || p.count == 0 ==> FromParsed(Some(Str(s)), p) == []
    ensures |s| > 0 && p.count > 0 ==> FromParsed(Some(Str(s)), p) == Fallback(p)
  {
  }
}
