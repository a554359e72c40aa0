/**
 * The quality and safety checks run before publishing (`run_basic_checks`): the HTML body
 * must hold at least 400 characters, and the lower-cased title must not contain any of a
 * few banned words, as substrings.
 */
module Checks {
  import opened Wrappers
  import opened PyText
  import opened Posts

  datatype CheckError = TooShort | UnsafeTitle

  const MinBodyLength: nat := 400
  const Banned: seq<string> := ["bomb", "kill", "hate", "terror"]

  /** The body is missing, empty or shorter than the minimum. */
  predicate BodyTooShort(bodyHtml: Option<string>) {
    bodyHtml.None? || |bodyHtml.value| < MinBodyLength
  }

  /** The title, lower-cased, contains a banned word; a missing title counts as empty. */
  predicate UnsafeTitleText(title: Option<string>) {
    ContainsAny(Lower(title.GetOr("")), Banned)
  }

  /** Checks the body length first, then every banned word against the title in turn. */
  method RunBasicChecks(post: Post) returns (r: Outcome<CheckError>)
    ensures r == Fail(TooShort) <==> BodyTooShort(post.bodyHtml)
    ensures r == Fail(UnsafeTitle) <==> !BodyTooShort(post.bodyHtml) && UnsafeTitleText(post.title)
    ensures r == Pass <==> !BodyTooShort(post.bodyHtml) && !UnsafeTitleText(post.title)
  {
    if post.bodyHtml.None? || post.bodyHtml.value == "" || |post.bodyHtml.value| < MinBodyLength {
      return Fail(TooShort);
    }
    var title := Lower(post.title.GetOr(""));
    var i := 0;
    while i < |Banned|
      invariant 0 <= i <= |Banned|
      invariant forall k :: 0 <= k < i ==> !Contains(title, Banned[k])
    {
      if Contains(title, Banned[i]) {
        return Fail(UnsafeTitle);
      }
      i := i + 1;
    }
    r := Pass;
  }

  /** The banned-word test ignores case: a title holding a banned word in any mix of ASCII
      upper and lower case is unsafe. */
  lemma BannedWordIgnoresCase(title: string, written: string)
    requires Contains(title, written) && Lower(written) in Banned
    ensures UnsafeTitleText(Some(title))
  {
    LowerKeepsOccurrences(title, written);
    var k :| 0 <= k < |Banned| && Banned[k] == Lower(written);
  }

  /** Banned words are matched as substrings, not as words: a title that mentions skills
      is unsafe, since "skill" contains "kill". */
  lemma SubstringMatchesInsideWords(title: string)
    requires Contains(Lower(title), "skill")
    ensures UnsafeTitleText(Some(title))
  {
    var t := Lower(title);
    var i := Find(t, "skill");
    assert t[i + 1..i + 5] == t[i..i + 5][1..] == "kill";
    assert Occurs(t, "kill", i + 1);
    assert Banned[1] == "kill";
  }

  /** The fixed last-resort body is 227 characters plus the topic, so the post built from it
      fails the length check unless the topic has at least 173 characters. */
  lemma LastResortLength(topic: string)
    ensures BodyTooShort(LastResortPost(topic).bodyHtml) <==> |topic| < 173
  {
    assert |LastResortOpening| == 89;
    assert |LastResortClosing| == 138;
  }
}
