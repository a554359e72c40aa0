/**
 * The post dictionary and how `generate_post` builds it: the answer to the JSON prompt is
 * stripped, its fenced payload extracted and parsed; when parsing fails the article is
 * asked for again as plain text and converted to HTML, and when that call fails too a
 * fixed one-paragraph post is used. Both fallbacks take the topic as title and its first
 * three words, lower-cased, as tags.
 */
module Posts {
  import opened Wrappers
  import opened PyText
  import Fences
  import PlainHtml

  /** The post dictionary; `None` stands for a key the dictionary does not have. */
  datatype Post = Post(
    title: Option<string>,
    subtitle: Option<string>,
    bodyHtml: Option<string>,
    tags: Option<seq<string>>)

  /** No ASCII upper-case letter in `s`. */
  predicate LowerCase(s: string) {
    forall i :: 0 <= i < |s| ==> !('A' <= s[i] <= 'Z')
  }

  function Min(a: int, b: int): int {
    if a <= b then a else b
  }

  /** The tags of a fallback post: the first three words of the topic, lower-cased. */
  function Tags(topic: string): (r: seq<string>)
    ensures |r| == Min(3, |Words(topic)|)
    ensures forall k :: 0 <= k < |r| ==>
              |r[k]| == |Words(topic)[k]| && r[k] != "" && NoneIn(r[k], Whitespace) && LowerCase(r[k])
  {
    var words := Words(topic);
    var r := seq(Min(3, |words|), k requires 0 <= k < Min(3, |words|) => Lower(words[k]));
    assert forall k :: 0 <= k < |r| ==> NoneIn(r[k], Whitespace) by {
      forall k, i | 0 <= k < |r| && 0 <= i < |r[k]| ensures r[k][i] !in Whitespace {
        LowerCharSpace(words[k][i]);
      }
    }
    r
  }

  /** The tags do not depend on how the topic is capitalised. */
  lemma TagsIgnoreCase(topic: string)
    ensures Tags(Lower(topic)) == Tags(topic)
  {
    WordsOfLower(topic);
    var words := Words(topic);
    forall k | 0 <= k < Min(3, |words|) ensures Tags(Lower(topic))[k] == Tags(topic)[k] {
      LowerIdempotent(words[k]);
    }
  }

  /** The post built from the plain-text answer when the JSON answer could not be parsed. */
  function PlainTextPost(topic: string, plainAnswer: string): Post {
    Post(Some(topic), Some("A detailed guide on " + topic), Some(PlainHtml.Html(plainAnswer)), Some(Tags(topic)))
  }

  const LastResortOpening: string :=
    "<p>This article explores the key concepts, best practices, and practical applications of "
  const LastResortClosing: string :=
    " in modern development. Whether you're a beginner or an experienced developer, you'll find valuable insights and actionable takeaways.</p>"

  /** The post used when the plain-text call fails as well. */
  function LastResortPost(topic: string): Post {
    Post(Some(topic), Some("Expert insights on " + topic), Some(LastResortOpening + topic + LastResortClosing), Some(Tags(topic)))
  }

  /** The post `generate_post` returns. `answer` is the text of the answer to the JSON
      prompt; `parse` stands for `json.loads`, `None` meaning that it raised; `plainAnswer`
      is the text of the answer to the plain-text prompt, `None` meaning that the call
      raised. */
  function GeneratePost(topic: string, answer: string, parse: string -> Option<Post>,
                        plainAnswer: Option<string>): (r: Post)
    ensures parse(Fences.Payload(Strip(answer))).Some? ==> r == parse(Fences.Payload(Strip(answer))).value
    ensures parse(Fences.Payload(Strip(answer))).None? ==>
              r.title == Some(topic) && r.tags == Some(Tags(topic)) &&
              r.bodyHtml == Some(match plainAnswer
                                 case Some(t) => PlainHtml.Html(t)
                                 case None => LastResortOpening + topic + LastResortClosing)
  {
    match parse(Fences.Payload(Strip(answer)))
    case Some(data) => data
    case None =>
      match plainAnswer
      case Some(text) => PlainTextPost(topic, text)
      case None => LastResortPost(topic)
  }

  /** An answer that, once stripped, is a fenced JSON payload, possibly after some words,
      is parsed from the stripped payload. */
  lemma FencedAnswerIsParsed(topic: string, answer: string, pre: string, payload: string, post: string,
                             parse: string -> Option<Post>, plainAnswer: Option<string>)
    requires Strip(answer) == pre + Fences.JsonFence + payload + Fences.Fence + post
    requires Find(pre + Fences.JsonFence, Fences.JsonFence) == |pre|
    requires payload != "" && !Contains(payload + "``", Fences.Fence)
    requires parse(Strip(payload)).Some?
    ensures GeneratePost(topic, answer, parse, plainAnswer) == parse(Strip(payload)).value
  {
    Fences.JsonFencedPayload(pre, payload, post);
  }
}
