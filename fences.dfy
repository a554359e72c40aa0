/**
 * Extraction of the JSON payload from a code-fenced answer of the text service
 * (`generate_post`): a "```json" fence takes precedence over a bare "```" fence, the
 * payload runs up to the next "```" after the opening fence and is stripped, and the text
 * is left as it is when the fence is not closed by a later, distinct fence.
 */
module Fences {
  import opened PyText

  const JsonFence: string := "```json"
  const Fence: string := "```"

  /** The stripped text between `start` and the next fence at or after it, or `text` itself
      when there is no such fence or it sits right at `start`. */
  function Between(text: string, start: nat): (r: string)
    ensures r == text || !Contains(r, Fence)
  {
    var end := FindFrom(text, Fence, start);
    if end > start then
      NoFenceBefore(text, start, end);
      Strip(text[start..end])
    else text
  }

  /** No fence occurs between `start` and the first fence at or after it, before or after
      stripping. */
  lemma NoFenceBefore(text: string, start: nat, end: int)
    requires end == FindFrom(text, Fence, start) && end > start
    ensures !Contains(Strip(text[start..end]), Fence)
  {
    NothingBeforeFirst(text, Fence, start, end);
    StripKeepsAbsence(text[start..end], Whitespace, Fence);
  }

  /** The text handed to the JSON parser, computed from the stripped answer. */
  function Payload(text: string): (r: string)
    ensures !Contains(text, Fence) ==> r == text
    ensures r == text || !Contains(r, Fence)
  {
    if Contains(text, JsonFence) then Between(text, Find(text, JsonFence) + 7)
    else if Contains(text, Fence) then Between(text, Find(text, Fence) + 3)
    else text
  }

  /** An occurrence inside the stretch `a..b` of `s` is an occurrence in that slice. */
  lemma OccursInSlice(s: string, a: nat, b: nat, sub: string, j: nat)
    requires a <= j && j + |sub| <= b <= |s|
    ensures Occurs(s, sub, j) <==> Occurs(s[a..b], sub, j - a)
  {
    forall i | j <= i < j + |sub| ensures s[a..b][i - a] == s[i] {
    }
    assert s[a..b][j - a..j - a + |sub|] == s[j..j + |sub|];
  }

  /** When `text` starts with `pre + sub` and the first `sub` there is the appended one, it
      is also the first `sub` of `text`. */
  lemma FirstIn(text: string, pre: string, sub: string)
    requires |pre| + |sub| <= |text| && text[..|pre| + |sub|] == pre + sub
    requires Find(pre + sub, sub) == |pre|
    ensures Find(text, sub) == |pre|
  {
    var n := |pre| + |sub|;
    assert text[0..n] == pre + sub;
    forall j | 0 <= j < |pre| ensures !Occurs(text, sub, j) {
      OccursInSlice(text, 0, n, sub, j);
    }
    OccursInSlice(text, 0, n, sub, |pre|);
    FindIs(text, sub, |pre|);
  }

  /** The first fence from `start` on closes `w` when `w`, which holds no fence and does not
      end in a backtick, sits at `start` and a fence follows it. */
  lemma FenceAfter(text: string, start: nat, w: string)
    requires start + |w| + 3 <= |text| && Occurs(text, Fence, start + |w|)
    requires text[start..start + |w| + 2] == w + "``" && !Contains(w + "``", Fence)
    ensures FindFrom(text, Fence, start) == start + |w|
  {
    var end := start + |w|;
    forall j | start <= j < end ensures !Occurs(text, Fence, j) {
      OccursInSlice(text, start, end + 2, Fence, j);
    }
    FindFromIs(text, Fence, start, end);
  }

  /** Where the parts of a fenced answer sit. */
  lemma FencedLayout(pre: string, open: string, payload: string, post: string)
    ensures var text := pre + open + payload + Fence + post;
            var a := |pre| + |open|;
            var e := a + |payload|;
            |text| == e + 3 + |post| && text[..a] == pre + open && text[a..e] == payload &&
            text[a..e + 2] == payload + "``" && Occurs(text, Fence, e)
  {
    var text := pre + open + payload + Fence + post;
    var a := |pre| + |open|;
    var e := a + |payload|;
    assert text == (pre + open) + (payload + Fence) + post;
    assert text[e..e + 3] == Fence;
    assert text[a..e + 2] == (payload + Fence)[..|payload| + 2];
  }

  /** In a fenced answer whose opening fence `open` is the first one after `pre`, the
      opening fence is found at `|pre|`. */
  lemma FencedOpening(pre: string, open: string, payload: string, post: string)
    requires Find(pre + open, open) == |pre|
    ensures Find(pre + open + payload + Fence + post, open) == |pre|
  {
    var text := pre + open + payload + Fence + post;
    FencedLayout(pre, open, payload, post);
    FirstIn(text, pre, open);
  }

  /** In a fenced answer whose payload holds no fence and does not end in a backtick, the
      payload runs up to the fence after it. */
  lemma FencedClosing(pre: string, open: string, payload: string, post: string)
    requires !Contains(payload + "``", Fence)
    ensures var text := pre + open + payload + Fence + post;
            var a := |pre| + |open|;
            FindFrom(text, Fence, a) == a + |payload| && text[a..a + |payload|] == payload
  {
    var text := pre + open + payload + Fence + post;
    FencedLayout(pre, open, payload, post);
    FenceAfter(text, |pre| + |open|, payload);
  }

  /** Both: the opening fence is found at `|pre|` and the payload runs up to the fence
      after it. */
  lemma FencedFinds(pre: string, open: string, payload: string, post: string)
    requires Find(pre + open, open) == |pre|
    requires !Contains(payload + "``", Fence)
    ensures var text := pre + open + payload + Fence + post;
            var a := |pre| + |open|;
            Find(text, open) == |pre| && FindFrom(text, Fence, a) == a + |payload| &&
            text[a..a + |payload|] == payload
  {
    FencedOpening(pre, open, payload, post);
    FencedClosing(pre, open, payload, post);
  }

  /** A payload that holds no fence and does not end in a backtick, wrapped in the first
      "```json" fence of the text, comes out stripped, whatever follows the closing fence. */
  lemma JsonFencedPayload(pre: string, payload: string, post: string)
    requires Find(pre + JsonFence, JsonFence) == |pre|
    requires payload != "" && !Contains(payload + "``", Fence)
    ensures Payload(pre + JsonFence + payload + Fence + post) == Strip(payload)
  {
    FencedFinds(pre, JsonFence, payload, post);
    assert Find(pre + JsonFence + payload + Fence + post, JsonFence) + 7 == |pre| + |JsonFence|;
    assert |payload| > 0;
    assert FindFrom(pre + JsonFence + payload + Fence + post, Fence, |pre| + |JsonFence|) > |pre| + |JsonFence|;
    assert Between(pre + JsonFence + payload + Fence + post, |pre| + |JsonFence|) ==
      Strip((pre + JsonFence + payload + Fence + post)[|pre| + |JsonFence|..|pre| + |JsonFence| + |payload|]);
    assert Between(pre + JsonFence + payload + Fence + post, |pre| + |JsonFence|) == Strip(payload);
  }

  /** The same for the first bare "```" fence, when the text holds no "```json" fence. */
  lemma BareFencedPayload(pre: string, payload: string, post: string)
    requires Find(pre + Fence, Fence) == |pre|
    requires payload != "" && !Contains(payload + "``", Fence)
    requires !Contains(pre + Fence + payload + Fence + post, JsonFence)
    ensures Payload(pre + Fence + payload + Fence + post) == Strip(payload)
  {
    FencedFinds(pre, Fence, payload, post);
    assert Find(pre + Fence + payload + Fence + post, Fence) + 3 == |pre| + |Fence|;
    assert |payload| > 0;
    assert FindFrom(pre + Fence + payload + Fence + post, Fence, |pre| + |Fence|) > |pre| + |Fence|;
    assert Between(pre + Fence + payload + Fence + post, |pre| + |Fence|) ==
      Strip((pre + Fence + payload + Fence + post)[|pre| + |Fence|..|pre| + |Fence| + |payload|]);
    assert Between(pre + Fence + payload + Fence + post, |pre| + |Fence|) == Strip(payload);
  }

  /** A "```json" fence starts with a bare fence, so it comes no earlier than the first one. */
  lemma JsonFenceNotFirst(text: string)
    requires Contains(text, JsonFence)
    ensures Contains(text, Fence) && Find(text, Fence) <= Find(text, JsonFence)
  {
    var i := Find(text, JsonFence);
    assert text[i..i + |Fence|] == text[i..i + |JsonFence|][..|Fence|];
    assert Occurs(text, Fence, i);
  }

  /** When no fence follows the text's first one, none follows a "```json" fence either,
      since that starts with a bare fence, so the text after it is kept. */
  lemma JsonFenceUnclosed(text: string)
    requires Contains(text, Fence) && FindFrom(text, Fence, Find(text, Fence) + 3) == -1
    requires Contains(text, JsonFence)
    ensures Between(text, Find(text, JsonFence) + 7) == text
  {
    JsonFenceNotFirst(text);
    var j := Find(text, JsonFence);
    assert Occurs(text, JsonFence, j);
    FindFromNone(text, Fence, j + 7);
    NotClosed(text, j + 7);
  }

  /** With no fence from `start` on, the text is kept. */
  lemma NotClosed(text: string, start: nat)
    requires FindFrom(text, Fence, start) == -1
    ensures Between(text, start) == text
  {
  }

  /** A "```json" fence whose text after it is kept leaves the whole text as it is. */
  lemma KeptAfterJsonFence(text: string)
    requires Contains(text, JsonFence) && Between(text, Find(text, JsonFence) + 7) == text
    ensures Payload(text) == text
  {
  }

  /** An unclosed first fence that turns out to open a "```json" fence keeps the text. */
  lemma UnclosedJsonFence(text: string)
    requires Contains(text, Fence) && FindFrom(text, Fence, Find(text, Fence) + 3) == -1
    requires Contains(text, JsonFence)
    ensures Payload(text) == text
  {
    JsonFenceUnclosed(text);
    KeptAfterJsonFence(text);
  }

  /** An unclosed bare first fence, with no "```json" fence anywhere, keeps the text. */
  lemma UnclosedBareFence(text: string)
    requires Contains(text, Fence) && FindFrom(text, Fence, Find(text, Fence) + 3) == -1
    requires !Contains(text, JsonFence)
    ensures Payload(text) == text
  {
    NotClosed(text, Find(text, Fence) + 3);
  }

  /** An opening fence that is never closed leaves the text as it is, whether or not it is
      a "```json" fence. */
  lemma UnclosedFenceKeepsText(text: string)
    requires Contains(text, Fence) && FindFrom(text, Fence, Find(text, Fence) + 3) == -1
    ensures Payload(text) == text
  {
    if Contains(text, JsonFence) {
      UnclosedJsonFence(text);
    } else {
      UnclosedBareFence(text);
    }
  }

  /** In "```json```", the first fence after the opening one sits right at its end. */
  lemma EmptyJsonFinds(pre: string, post: string)
    requires Find(pre + JsonFence, JsonFence) == |pre|
    ensures var text := pre + JsonFence + Fence + post;
            Find(text, JsonFence) == |pre| && FindFrom(text, Fence, |pre| + 7) == |pre| + 7
  {
    var text := pre + JsonFence + Fence + post;
    assert Find(text, JsonFence) == |pre| by {
      assert text[..|pre| + |JsonFence|] == pre + JsonFence;
      FirstIn(text, pre, JsonFence);
    }
    assert FindFrom(text, Fence, |pre| + 7) == |pre| + 7 by {
      assert text[|pre| + 7..|pre| + 10] == Fence;
      FindFromIs(text, Fence, |pre| + 7, |pre| + 7);
    }
  }

  /** "```json```" is not a fenced payload: the closing fence must come strictly after the
      opening one, so such a text is left as it is. */
  lemma EmptyJsonFenceKeepsText(pre: string, post: string)
    requires Find(pre + JsonFence, JsonFence) == |pre|
    ensures Payload(pre + JsonFence + Fence + post) == pre + JsonFence + Fence + post
  {
    EmptyJsonFinds(pre, post);
  }

  /** Extracting twice gives what extracting once gives. */
  lemma PayloadIdempotent(text: string)
    ensures Payload(Payload(text)) == Payload(text)
  {
  }
}
