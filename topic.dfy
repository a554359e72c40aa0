/**
 * Choosing the topic of the next post (`choose_topic`): every attempt asks the text
 * service for a title, keeps the first non-blank line of the answer without its
 * surrounding quotes, and accepts it when it passes a word-count, a length and a
 * keyword test; after `max_retries` attempts without an accepted title the topic falls
 * back to a fixed phrase followed by the date.
 */
module Topic {
  import opened Wrappers
  import opened PyText

  /** The developer keywords of the acceptance test. */
  const Keywords: seq<string> := [
    "ai", "ml", "machine", "learning", "python", "java", "node", "django", "flask", "fastapi",
    "performance", "security", "latency", "load", "kubernetes", "docker", "devops", "algorithm",
    "data structure", "dsa", "optimization", "framework", "testing", "deployment", "observability",
    "cloud", "scalability", "database", "sql", "nosql"
  ]

  /** The connectors and stems that, as substrings, also pass the acceptance test. */
  const Connectors: seq<string> := ["with", "using", "in", "for", "how", "optim", "secure", "build", "deploy"]

  /** The topic used when no attempt produced an acceptable one. */
  function Fallback(date: string): (r: string)
    ensures EndsWith(r, date)
    ensures StartsWith(r, "Developer trends and tooling")
  {
    "Developer trends and tooling — " + date
  }

  /** `strip()` applied to each line. */
  function StripEach(lines: seq<string>): (r: seq<string>)
    ensures |r| == |lines|
  {
    seq(|lines|, i requires 0 <= i < |lines| => Strip(lines[i]))
  }

  /** The first string of `xs` that is not empty, or "" when all are. */
  function FirstNonEmpty(xs: seq<string>): string
    decreases |xs|
  {
    if xs == [] then ""
    else if xs[0] != "" then xs[0]
    else FirstNonEmpty(xs[1..])
  }

  /** `FirstNonEmpty` gives the first string that is not empty, and "" exactly when every
      string is empty. */
  lemma {:induction false} FirstNonEmptyIsFirst(xs: seq<string>) returns (k: nat)
    ensures FirstNonEmpty(xs) == "" <==> forall j :: 0 <= j < |xs| ==> xs[j] == ""
    ensures FirstNonEmpty(xs) != "" ==>
              k < |xs| && FirstNonEmpty(xs) == xs[k] && forall j :: 0 <= j < k ==> xs[j] == ""
    decreases |xs|
  {
    k := 0;
    if xs != [] && xs[0] == "" {
      var k' := FirstNonEmptyIsFirst(xs[1..]);
      k := k' + 1;
      assert forall j :: 1 <= j < |xs| ==> xs[1..][j - 1] == xs[j];
    }
  }

  /** `strip('"').strip("'")`. */
  function TrimQuotes(s: string): string {
    StripChars(StripChars(s, {'"'}), {'\''})
  }

  /** The topic read from one answer of the text service. */
  function TopicOf(answer: string): string {
    TrimQuotes(FirstNonEmpty(StripEach(SplitLines(Strip(answer)))))
  }

  /** The acceptance test an extracted topic has to pass. */
  predicate Acceptable(topic: string) {
    && topic != ""
    && 3 <= |Words(topic)| <= 20
    && |topic| > 10
    && (ContainsAny(Lower(topic), Keywords) || ContainsAny(Lower(topic), Connectors))
  }

  /** Reads the topic out of one answer: strips it, scans its lines for the first one that is
      not blank, then removes the surrounding double and single quotes. */
  method ExtractTopic(answer: string) returns (topic: string)
    ensures topic == TopicOf(answer)
  {
    var lines := SplitLines(Strip(answer));
    ghost var stripped := StripEach(lines);
    topic := "";
    var i := 0;
    while i < |lines|
      invariant 0 <= i <= |lines|
      invariant FirstNonEmpty(stripped) == FirstNonEmpty(stripped[i..])
    {
      var line := Strip(lines[i]);
      assert line == stripped[i..][0];
      if line != "" {
        topic := line;
        break;
      }
      assert stripped[i..][1..] == stripped[i + 1..];
      i := i + 1;
    }
    topic := TrimQuotes(topic);
  }

  /** The answer of attempt `i`; `None` stands for a call that raised, and attempts past the
      end of the given answers fail in the same way. */
  function AnswerAt(answers: seq<Option<string>>, i: nat): Option<string> {
    if i < |answers| then answers[i] else None
  }

  /** Attempt `i` produced an acceptable topic. */
  predicate AcceptedAt(answers: seq<Option<string>>, i: nat) {
    AnswerAt(answers, i).Some? && Acceptable(TopicOf(AnswerAt(answers, i).value))
  }

  /** The number of attempts `range(max_retries)` makes. */
  function Attempts(maxRetries: int): nat {
    if maxRetries < 0 then 0 else maxRetries
  }

  /** Whether each of the first `n` attempts produced an acceptable topic. */
  function Verdicts(answers: seq<Option<string>>, n: nat): (r: seq<bool>)
    ensures |r| == n
  {
    seq(n, i requires 0 <= i < n => AcceptedAt(answers, i))
  }

  /** The first index from `from` on whose flag is set. */
  function FirstSet(flags: seq<bool>, from: nat): Option<nat>
    decreases |flags| - from
  {
    if from >= |flags| then None
    else if flags[from] then Some(from)
    else FirstSet(flags, from + 1)
  }

  /** `FirstSet` finds the first set flag, and finds one whenever there is one. */
  lemma {:induction false} FirstSetIsFirst(flags: seq<bool>, from: nat)
    ensures FirstSet(flags, from).Some? ==>
              var k := FirstSet(flags, from).value;
              from <= k < |flags| && flags[k] && forall j :: from <= j < k ==> !flags[j]
    ensures FirstSet(flags, from).None? ==> forall j :: from <= j < |flags| ==> !flags[j]
    decreases |flags| - from
  {
    if from < |flags| && !flags[from] {
      FirstSetIsFirst(flags, from + 1);
    }
  }

  /** What the retry loop promises, stated without the flags: the chosen attempt is accepted
      and no attempt before it is; when there is none, no attempt at all is accepted. */
  lemma RetryOutcome(answers: seq<Option<string>>, maxRetries: int)
    ensures match FirstSet(Verdicts(answers, Attempts(maxRetries)), 0)
            case Some(k) =>
              k < Attempts(maxRetries) && AcceptedAt(answers, k) &&
              forall j: nat :: j < k ==> !AcceptedAt(answers, j)
            case None =>
              forall j: nat :: j < Attempts(maxRetries) ==> !AcceptedAt(answers, j)
  {
    var flags := Verdicts(answers, Attempts(maxRetries));
    FirstSetIsFirst(flags, 0);
    assert forall j :: 0 <= j < |flags| ==> flags[j] == AcceptedAt(answers, j);
  }

  /** The retry loop of `choose_topic`: the topic of the first of the first `maxRetries`
      attempts whose topic is acceptable, or the dated fallback when none is. */
  method ChooseTopic(answers: seq<Option<string>>, maxRetries: int, date: string) returns (topic: string)
    ensures match FirstSet(Verdicts(answers, Attempts(maxRetries)), 0)
            case Some(k) => AnswerAt(answers, k).Some? && topic == TopicOf(AnswerAt(answers, k).value)
            case None => topic == Fallback(date)
    ensures topic == Fallback(date) || Acceptable(topic)
  {
    var n := Attempts(maxRetries);
    ghost var flags := Verdicts(answers, n);
    var attempt: nat := 0;
    while attempt < n
      invariant attempt <= n
      invariant FirstSet(flags, 0) == FirstSet(flags, attempt)
    {
      var answer := AnswerAt(answers, attempt);
      if answer.Some? {
        var candidate := ExtractTopic(answer.value);
        if Acceptable(candidate) {
          assert flags[attempt];
          return candidate;
        }
      }
      assert !flags[attempt];
      attempt := attempt + 1;
    }
    topic := Fallback(date);
  }

  /** The first line of a stripped, non-empty answer is never blank, so the topic is that
      line, stripped and unquoted; a blank answer gives the empty topic. */
  lemma TopicIsFirstLine(answer: string)
    ensures Strip(answer) == "" ==> TopicOf(answer) == ""
    ensures Strip(answer) != "" ==>
              TopicOf(answer) == TrimQuotes(Strip(SplitLines(Strip(answer))[0]))
  {
    var s := Strip(answer);
    if s != "" {
      var _ := StripCharsSlice(answer, Whitespace);
      assert s[0] !in LineBreaks;
      var first := SplitLines(s)[0];
      assert first[0] == s[0];
      StripEmptyIff(first);
    } else {
      assert StripChars("", {'"'}) == "";
    }
  }

  /** A topic never spans two lines. */
  lemma TopicIsOneLine(answer: string)
    ensures NoneIn(TopicOf(answer), LineBreaks)
  {
    var lines := SplitLines(Strip(answer));
    var first := FirstNonEmpty(StripEach(lines));
    if first != "" {
      var k := FirstNonEmptyIsFirst(StripEach(lines));
      StripKeepsNoneIn(lines[k], Whitespace, LineBreaks);
    }
    StripKeepsNoneIn(first, {'"'}, LineBreaks);
    StripKeepsNoneIn(StripChars(first, {'"'}), {'\''}, LineBreaks);
  }

  /** The keyword test ignores case: a title holding a keyword or connector written in any
      mix of ASCII upper and lower case passes it. */
  lemma KeywordTestIgnoresCase(topic: string, written: string)
    requires Contains(topic, written)
    requires Lower(written) in Keywords || Lower(written) in Connectors
    ensures ContainsAny(Lower(topic), Keywords) || ContainsAny(Lower(topic), Connectors)
  {
    LowerKeepsOccurrences(topic, written);
    if Lower(written) in Keywords {
      var k :| 0 <= k < |Keywords| && Keywords[k] == Lower(written);
    } else {
      var k :| 0 <= k < |Connectors| && Connectors[k] == Lower(written);
    }
  }
}
