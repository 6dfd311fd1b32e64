/** Cleaning the model's reply before it is parsed (app.py, lines 60-64):
    delete every six-backtick fence, then every `$`, strip whitespace, and
    cut the text down to the span from the first `[` to the last `]` when
    such a span exists. */
module Sanitise {
  import opened Text

  const Backtick: char := '`'

  /** The literal the code deletes: six backticks in a row. */
  const Fence: string := "``````"

  /** The first replace, the second replace and the strip of line 60. */
  function Clean(raw: string): string {
    Strip(RemoveAll(RemoveAll(raw, Fence), "$"))
  }

  /** Some `[` comes before some `]`: exactly when lines 61-63 slice. */
  ghost predicate HasBracketSpan(t: string) {
    exists i, j :: 0 <= i < j < |t| && t[i] == '[' && t[j] == ']'
  }

  /** `r` is the infix of `t` at `i` that runs from the first `[` of `t` to
      the last `]` of `t`, both included. */
  predicate IsBracketSpan(t: string, r: string, i: int) {
    && OccursAt(t, r, i)
    && |r| >= 2
    && r[0] == '['
    && r[|r| - 1] == ']'
    && '[' !in t[..i]
    && ']' !in t[i + |r|..]
  }

  /** Lines 61-64: keep `t[start..end+1]` when `start != -1 and end > start`,
      with `start` the first `[` and `end` the last `]`; otherwise `t`. */
  function Extract(t: string): (r: string)
    ensures r == t || IsBracketSpan(t, r, Find(t, '['))
  {
    var start := Find(t, '[');
    var end := RFind(t, ']');
    if start != -1 && end > start then
      var r := t[start..end + 1];
      assert t[start + |r|..] == t[end + 1..];
      r
    else
      t
  }

  /** The whole of lines 60-64: what is handed to `json.loads`. */
  function SanitiseReply(raw: string): string {
    Extract(Clean(raw))
  }

  /** Extraction, both directions: with no `[` before a `]` the text is
      passed on unchanged; otherwise the result is the span from the first
      `[` to the last `]`. */
  lemma ExtractCharacterised(t: string)
    ensures !HasBracketSpan(t) ==> Extract(t) == t
    ensures HasBracketSpan(t) ==> exists i :: IsBracketSpan(t, Extract(t), i)
  {
    var start := Find(t, '[');
    var end := RFind(t, ']');
    if HasBracketSpan(t) {
      var i, j :| 0 <= i < j < |t| && t[i] == '[' && t[j] == ']';
      assert IsBracketSpan(t, Extract(t), start);
    } else {
      if start != -1 && end > start {
        assert false;
      }
    }
  }

  /** Extracting again changes nothing. */
  lemma ExtractIdempotent(t: string)
    ensures Extract(Extract(t)) == Extract(t)
  {
  }

  /** A character missing from `s` is missing from each of its infixes. */
  lemma AbsentFromInfix(s: string, r: string, i: int, c: char)
    requires OccursAt(s, r, i)
    requires c !in s
    ensures c !in r
  {
  }

  /** Where the extracted text starts inside `t`. */
  function ExtractOffset(t: string): int {
    if Extract(t) == t then 0 else Find(t, '[')
  }

  /** The reply is cut down to an infix of itself. */
  lemma ExtractOccursAt(t: string)
    ensures OccursAt(t, Extract(t), ExtractOffset(t))
  {
  }

  /** The text handed to the parser holds no `$`, and it is an infix of the
      cleaned reply. */
  lemma SanitiseRemovesDollar(raw: string)
    ensures '$' !in SanitiseReply(raw)
    ensures OccursAt(Clean(raw), SanitiseReply(raw), ExtractOffset(Clean(raw)))
  {
    var a := RemoveAll(raw, Fence);
    var b := RemoveAll(a, "$");
    RemoveCharGone(a, '$');
    assert ['$'] == "$";
    var c := Strip(b);
    AbsentFromInfix(b, c, StripOffset(b, IsSpace), '$');
    ExtractOccursAt(c);
    AbsentFromInfix(c, Extract(c), ExtractOffset(c), '$');
  }

  /** The number of backticks `s` starts with. */
  function LeadingTicks(s: string): (n: nat)
    ensures n <= |s|
  {
    if |s| > 0 && s[0] == Backtick then 1 + LeadingTicks(s[1..]) else 0
  }

  /** A string starts with `k` backticks exactly when its run of leading
      backticks is at least `k` long. */
  lemma {:induction false} LeadingTicksAtLeast(s: string, k: nat)
    ensures LeadingTicks(s) >= k <==> (k <= |s| && forall m :: 0 <= m < k ==> s[m] == Backtick)
    decreases k
  {
    if k > 0 && |s| > 0 && s[0] == Backtick {
      LeadingTicksAtLeast(s[1..], k - 1);
      if k <= |s| && forall m :: 0 <= m < k ==> s[m] == Backtick {
        assert forall m :: 0 <= m < k - 1 ==> s[1..][m] == s[m + 1];
      }
    }
  }

  /** The fence occurs at the start of `s` exactly when `s` starts with six
      backticks. */
  lemma FenceAtStart(s: string)
    ensures OccursAt(s, Fence, 0) <==> LeadingTicks(s) >= 6
  {
    LeadingTicksAtLeast(s, 6);
    if LeadingTicks(s) >= 6 {
      assert s[..6] == Fence;
    }
    if OccursAt(s, Fence, 0) {
      assert forall m :: 0 <= m < 6 ==> s[m] == s[..6][m];
    }
  }

  /** Deleting fences from a string that starts with fewer than six
      backticks keeps that leading run intact. */
  lemma {:induction false} RemoveFencesKeepsShortLead(s: string)
    requires LeadingTicks(s) < 6
    ensures LeadingTicks(RemoveAll(s, Fence)) == LeadingTicks(s)
    decreases |s|
  {
    if |s| >= |Fence| {
      FenceAtStart(s);
      assert s[..|Fence|] != Fence;
      if s[0] == Backtick {
        RemoveFencesKeepsShortLead(s[1..]);
      }
    }
  }

  /** After the first replace of line 60 no fence is left: the scan goes
      left to right, so each run of backticks is cut down below six. */
  lemma {:induction false} NoFenceAfterRemoval(s: string)
    ensures !Occurs(RemoveAll(s, Fence), Fence)
    decreases |s|
  {
    var r := RemoveAll(s, Fence);
    if |s| < |Fence| {
      assert r == s;
    } else if s[..|Fence|] == Fence {
      NoFenceAfterRemoval(s[|Fence|..]);
    } else {
      var rest := RemoveAll(s[1..], Fence);
      NoFenceAfterRemoval(s[1..]);
      assert r == [s[0]] + rest;
      forall i | OccursAt(r, Fence, i)
        ensures false
      {
        if i == 0 {
          FenceAtStart(r);
          FenceAtStart(s);
          if s[0] == Backtick {
            RemoveFencesKeepsShortLead(s[1..]);
          }
        } else {
          assert r[i..i + |Fence|] == rest[i - 1..i - 1 + |Fence|];
          assert OccursAt(rest, Fence, i - 1);
        }
      }
    }
  }

  /** Stripping keeps a pattern absent. */
  lemma NoOccurrenceAfterStrip(b: string, pat: string)
    requires !Occurs(b, pat)
    ensures !Occurs(Strip(b), pat)
  {
    var c := Strip(b);
    var i := StripOffset(b, IsSpace);
    NoOccurrenceInInfix(b, pat, i, i + |c|);
    assert b[i..i + |c|] == c;
  }

  /** Extracting keeps a pattern absent. */
  lemma NoOccurrenceAfterExtract(c: string, pat: string)
    requires !Occurs(c, pat)
    ensures !Occurs(Extract(c), pat)
  {
    var e := Extract(c);
    var j := ExtractOffset(c);
    ExtractOccursAt(c);
    NoOccurrenceInInfix(c, pat, j, j + |e|);
    assert c[j..j + |e|] == e;
  }

  /** When the reply holds no `$`, no six-backtick fence reaches the
      parser. */
  lemma NoFenceWithoutDollar(raw: string)
    requires '$' !in raw
    ensures !Occurs(SanitiseReply(raw), Fence)
  {
    var a := RemoveAll(raw, Fence);
    NoFenceAfterRemoval(raw);
    AbsentCharDoesNotOccur(a, '$');
    assert ['$'] == "$";
    RemoveAbsentIsIdentity(a, "$");
    NoOccurrenceAfterStrip(a, Fence);
    NoOccurrenceAfterExtract(Strip(a), Fence);
  }

  /** Three backticks: half a fence. */
  const HalfFence: string := "```"

  /** A reply whose `$` sits between two halves of a fence. */
  const SplitFence: string := HalfFence + "$" + HalfFence

  /** With a `$` the fence can survive: deleting the `$` of "```$```"
      joins two short runs into a fence, because the `$` is removed after
      the fences are. */
  lemma FenceCanSurvive()
    ensures SanitiseReply(SplitFence) == Fence
  {
    NoFenceAroundDollar();
    RemoveAbsentIsIdentity(SplitFence, Fence);
    assert RemoveAll(SplitFence, Fence) == SplitFence;
    DollarJoinsTicks();
    assert RemoveAll(RemoveAll(SplitFence, Fence), "$") == Fence;
    FenceIsClean();
    assert Clean(SplitFence) == Fence;
  }

  /** "```$```" holds no fence: every window of six characters covers
      the `$`. */
  lemma NoFenceAroundDollar()
    ensures !Occurs(SplitFence, Fence)
  {
    forall i | 0 <= i && i + |Fence| <= |SplitFence|
      ensures !OccursAt(SplitFence, Fence, i)
    {
      assert SplitFence[i..i + |Fence|][3 - i] == '$';
    }
  }

  /** A fence on its own survives the strip and the bracket extraction. */
  lemma FenceIsClean()
    ensures Strip(Fence) == Fence
    ensures Extract(Fence) == Fence
  {
    StripVisible(Fence);
    assert Find(Fence, '[') == -1;
  }

  /** Deleting the `$` between two runs of three backticks joins them. */
  lemma DollarJoinsTicks()
    ensures RemoveAll(SplitFence, "$") == Fence
  {
    assert ['$'] == "$";
    RemoveCharConcat(HalfFence + "$", HalfFence, '$');
    RemoveCharConcat(HalfFence, "$", '$');
    AbsentCharDoesNotOccur(HalfFence, '$');
    RemoveAbsentIsIdentity(HalfFence, "$");
    assert RemoveAll("$", "$") == "";
  }
}
