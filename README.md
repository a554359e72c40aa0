# ai-agent-blogger: the text handling of `auto_post_wp.py`, in Dafny

`auto_post_wp.py` asks a Gemini model for a developer-blog topic, asks it again for an
article about that topic, checks the article and publishes it on WordPress, over XML-RPC
or through WordPress's "Post by Email". This project models the deterministic text
handling of that script and proves what it guarantees:

- `Topic` (`choose_topic`): the retry loop, the reading of the first non-blank line of an
  answer, the quote trimming, the acceptance test (length, word count, keywords and
  connectors), and the dated fallback topic.
- `Fences` (`generate_post`): the extraction of the payload between a "```json" or a "```"
  fence and the next "```".
- `PlainHtml` (`generate_post`): the conversion of a plain-text article into `<p>` and
  `<ul>`/`<li>` elements.
- `Posts` (`generate_post`): the post dictionary, the tags of the fallback posts, and the
  choice between the parsed answer, the plain-text post and the last-resort post.
- `Checks` (`run_basic_checks`): the body-length check and the banned-word check.
- `XmlRpcRequest` (`publish_to_wordpress`): the endpoints tried, the post structure
  handed to `metaWeblog.newPost`, and the blog ids tried on each endpoint.
- `EmailPost` (`publish_via_email`): the body cleanup and the layout of the message.

`PyText` gives the Python string operations these use (`strip`, `lstrip`, `rstrip`
with and without a character set, `in`, `find`, `startswith`, `endswith`, `replace`,
`split(sep)`, `split()`, `splitlines`, `join`, `lower`), with `str.isspace`'s 29
whitespace characters and `splitlines`' line boundaries. `Wrappers` holds `Option` and
`Outcome`.

Loops in the source are methods with loop invariants. Most are proved equal to a
function of their inputs (`ExtractTopic`, `ChooseTopic`, `ConvertToHtml`, `AppendItems`,
`BlogIdsToTry`, `CleanEmailBody`), and the lemmas state what those functions guarantee;
`RunBasicChecks` is instead specified by three if-and-only-if statements over the
predicates `BodyTooShort` and `UnsafeTitleText`.

Where the code and its comments or documentation differ, the model follows the code:
the JSON-line test of the email cleanup is `(A and B) or C`, as Python parses it; a
"```json" fence closed right away ("```json```") is not extracted, because the closing
fence must start strictly after the opening one; the banned words are matched as
substrings, so a title about "skills" is refused; the last-resort body is 227
characters plus the topic, so it fails the 400-character check for every topic shorter
than 173 characters.

## Model

| member | source | states |
|---|---|---|
| Topic.TrimQuotes | auto_post_wp.py:80 | definition: `strip('"')` then `strip("'")` |
| Topic.TopicOf | auto_post_wp.py:70-80 | definition: the first non-blank stripped line of the stripped answer, quotes trimmed, or "" |
| Topic.FirstNonEmpty | auto_post_wp.py:73-78 | definition: the first line whose strip is non-empty, stripped, or "" when every line is blank |
| Topic.Acceptable | auto_post_wp.py:82-92 | definition of the acceptance test: non-empty, 3 to 20 words, more than 10 characters, and the lower-cased topic holds one of the 30 keywords or 9 connectors as a substring |
| Topic.ChooseTopic | auto_post_wp.py:63-101 | the topic is the one read from the first of the first `max_retries` answers whose topic passes the acceptance test, and the dated fallback when none does; either way it is the fallback or an acceptable topic |
| Topic.RetryOutcome | auto_post_wp.py:63-101 | the attempt chosen produced an answer whose topic is acceptable, and every attempt before it (every attempt, when the fallback is used) failed or gave an unacceptable topic |
| Topic.ExtractTopic | auto_post_wp.py:70-80 | the loop over the lines yields the first non-blank stripped line of the stripped answer, with surrounding quotes trimmed |
| Topic.FirstNonEmptyIsFirst | auto_post_wp.py:73-78 | the line scan gives "" exactly when every line is blank, and otherwise a non-blank line before which every line is blank |
| Topic.TopicIsFirstLine | auto_post_wp.py:71-78 | a blank answer gives an empty topic; otherwise the topic is the first line of the stripped answer, stripped, with quotes trimmed |
| Topic.TopicIsOneLine | auto_post_wp.py:74-80 | a topic never holds a line boundary |
| Topic.KeywordTestIgnoresCase | auto_post_wp.py:85-93 | a keyword or connector written in any ASCII case inside the topic passes the keyword test |
| Topic.Fallback | auto_post_wp.py:100 | the fallback topic starts with "Developer trends and tooling" and ends with the date |
| Topic.Attempts | auto_post_wp.py:63 | definition: the number of attempts `range(max_retries)` makes, which is none for a count of zero or below |
| Fences.Payload | auto_post_wp.py:127-136 | a text without a fence is handed to the parser unchanged; otherwise the text is unchanged or the extracted payload holds no fence |
| Fences.Between | auto_post_wp.py:129-136 | the stripped slice up to the closing fence holds no fence, or the text is kept when there is no closing fence after the opening one |
| Fences.NoFenceBefore | auto_post_wp.py:129-131 | nothing between the opening fence and the first closing fence is a fence, even after stripping |
| Fences.JsonFencedPayload | auto_post_wp.py:127-131 | an answer made of a preamble, its first "```json" fence, a non-empty payload holding no "```" and not ending in a backtick, and a closing fence yields the stripped payload, whatever follows |
| Fences.BareFencedPayload | auto_post_wp.py:132-136 | the same for the first bare "```" fence when the text holds no "```json" fence |
| Fences.NotClosed | auto_post_wp.py:129-131 | when the search for "```" from the end of the opening fence finds none, the text is kept as it is |
| Fences.UnclosedFenceKeepsText | auto_post_wp.py:127-136 | a text whose first "```" is followed by no other "```" is left as it is, whether or not that fence is a "```json" fence |
| Fences.EmptyJsonFenceKeepsText | auto_post_wp.py:127-131 | the first "```json" fence closed right away ("```json```") leaves the text as it is |
| Fences.PayloadIdempotent | auto_post_wp.py:127-136 | extracting from an extracted payload changes nothing |
| PlainHtml.ItemText | auto_post_wp.py:171 | definition: `strip().lstrip('-').lstrip('*').strip()` of a bullet line |
| PlainHtml.BlockOf | auto_post_wp.py:164-176 | definition: nothing for a blank chunk, a list of the non-empty cleaned lines for a chunk starting with `-` or `*`, a paragraph of the stripped chunk otherwise |
| PlainHtml.Html | auto_post_wp.py:162-176 | definition: the rendering of the elements of the `split('\n\n')` chunks, in order |
| PlainHtml.IsBulleted | auto_post_wp.py:167 | definition: the stripped chunk starts with `-` or with `*` |
| PlainHtml.RenderItems | auto_post_wp.py:170-173 | definition: one `<li>` element per item, in order |
| PlainHtml.Render | auto_post_wp.py:169-176 | definition: a paragraph as `<p>` around its text, unescaped; a list as `<ul>` around its items |
| PlainHtml.ConvertToHtml | auto_post_wp.py:162-176 | the loop over the paragraphs builds exactly the rendering of the paragraphs' elements, in order |
| PlainHtml.AppendChunk | auto_post_wp.py:164-176 | one paragraph appends nothing when blank, a list when it starts with a dash or an asterisk, a `<p>` element otherwise |
| PlainHtml.AppendItems | auto_post_wp.py:168-174 | the loop over the lines of a bulleted paragraph appends one `<li>` per line whose cleaned text is not empty, in order |
| PlainHtml.NonEmptyMembers | auto_post_wp.py:171-173 | the items kept are exactly the cleaned lines that are not empty |
| PlainHtml.ItemTextShape | auto_post_wp.py:171 | the cleaned text of a one-line bullet is stripped and one line long |
| PlainHtml.ChunkElement | auto_post_wp.py:163-176 | a paragraph without a blank line becomes a well-formed element: a stripped, non-empty, non-bulleted `<p>` text, or stripped one-line non-empty items |
| PlainHtml.BlocksWellFormed | auto_post_wp.py:163-176 | every element of the body of an answer is well formed |
| PlainHtml.PlainParagraph | auto_post_wp.py:176 | a one-paragraph answer comes out between `<p>` and `</p>` verbatim, without escaping |
| PlainHtml.BulletParagraph | auto_post_wp.py:167-174 | a one-paragraph bulleted answer becomes one list of its cleaned non-empty bullets, in order |
| PlainHtml.EmptyIffBlank | auto_post_wp.py:159-176 | the HTML body is empty exactly when the answer is blank |
| Posts.Tags | auto_post_wp.py:182 | the tags are as many as the topic's first three words, each as long as its word, non-empty, without whitespace and lower-case |
| Posts.TagsIgnoreCase | auto_post_wp.py:182 | the tags do not depend on how the topic is capitalised |
| Posts.PlainTextPost | auto_post_wp.py:178-183 | definition: the topic as title, "A detailed guide on" the topic as subtitle, the HTML of the plain-text answer, the topic's tags |
| Posts.LastResortPost | auto_post_wp.py:188-193 | definition: the topic as title, "Expert insights on" the topic as subtitle, the fixed one-paragraph body around the topic, the topic's tags |
| Posts.GeneratePost | auto_post_wp.py:123-195 | a parsed payload is the post; otherwise the post has the topic as title, the topic's tags, and the HTML of the plain-text answer, or the last-resort body when that call failed |
| Posts.FencedAnswerIsParsed | auto_post_wp.py:124-140 | an answer that, once stripped, is a preamble, its first "```json" fence, a payload holding no "```" and not ending in a backtick, and a closing fence, becomes the post parsed from the stripped payload |
| Checks.BodyTooShort | auto_post_wp.py:199 | definition: the body is missing or shorter than 400 characters (an empty body is shorter) |
| Checks.UnsafeTitleText | auto_post_wp.py:201-204 | definition: the lower-cased title, "" when missing, holds "bomb", "kill", "hate" or "terror" |
| Checks.RunBasicChecks | auto_post_wp.py:197-205 | the post is refused as too short exactly when its body is missing or under 400 characters, as unsafe exactly when it is long enough and its lower-cased title contains a banned word, and passes otherwise |
| Checks.BannedWordIgnoresCase | auto_post_wp.py:201-204 | a banned word written in any ASCII case inside the title makes it unsafe |
| Checks.SubstringMatchesInsideWords | auto_post_wp.py:202-204 | a title whose lower-cased form contains "skill" is unsafe |
| Checks.LastResortLength | auto_post_wp.py:188-193 | the last-resort post fails the length check exactly when the topic is shorter than 173 characters |
| XmlRpcRequest.Endpoints | auto_post_wp.py:213-223 | the site's own endpoint comes first, and the wordpress.com endpoint second exactly when the site is on wordpress.com |
| XmlRpcRequest.EndpointsAreXmlRpc | auto_post_wp.py:217-223 | every endpoint tried ends in "/xmlrpc.php" |
| XmlRpcRequest.Content | auto_post_wp.py:228 | definition: "<h2>", the subtitle ("" when missing), "</h2>", a newline, then the body ("None" when missing) |
| XmlRpcRequest.BodyText | auto_post_wp.py:228 | definition: the body as the f-string prints it, "None" when it is missing |
| XmlRpcRequest.BuildPostData | auto_post_wp.py:226-231 | the title is the post's, the type is "post", the status is "draft" exactly when "draft" was asked for and "publish" otherwise, the content is the subtitle heading then the body |
| XmlRpcRequest.ContentRoundTrip | auto_post_wp.py:228 | when the subtitle holds no "</h2>", the first "</h2>" and newline of the content close the heading, and the subtitle and the body can be read back |
| XmlRpcRequest.TruthyIds | auto_post_wp.py:250-258 | definition: the truthy `blogid`s of the entries, in order |
| XmlRpcRequest.Truthy | auto_post_wp.py:257 | definition: `if bid:` holds for a non-zero int and for a non-empty string |
| XmlRpcRequest.TruthyIdsMembers | auto_post_wp.py:250-258 | an id is collected exactly when some entry reports it and it is truthy |
| XmlRpcRequest.BlogIdsToTry | auto_post_wp.py:250-261 | the ids tried are the truthy reported ids in order, then 0 and 1 |
| EmailPost.LooksLikeJson | auto_post_wp.py:335-338 | definition: the stripped line holds a key marker, or `(starts with '"' and ends with '",') or ends with '":'`, with `and` binding tighter than `or` |
| EmailPost.Kept | auto_post_wp.py:331-339 | definition: a line survives when its stripped form is neither empty nor JSON-like |
| EmailPost.Unfenced | auto_post_wp.py:327 | definition: every "```json" removed, then every "```" |
| EmailPost.Collapse | auto_post_wp.py:343-344 | the collapsed text holds no three newlines in a row and is no longer than the input, and it is the input exactly when the input held none |
| EmailPost.CleanBody | auto_post_wp.py:327-344 | definition: the surviving lines of the unfenced body joined by newlines, stripped, then collapsed |
| EmailPost.CleanEmailBody | auto_post_wp.py:327-344 | the cleanup and collapsing loops compute the cleaned body: fences removed, surviving lines joined and stripped, runs of newlines collapsed |
| EmailPost.ComposeEmail | auto_post_wp.py:321-351 | the subject is the title or "Untitled"; the text is the title, a blank line, the subtitle and a blank line when there is one, then the cleaned body |
| EmailPost.EmailText | auto_post_wp.py:348-351 | the message starts with the title and a blank line, ends with the body, and is as long as its parts |
| EmailPost.EmailLines | auto_post_wp.py:346-351 | with a one-line title and subtitle, the message's first line is the title, then a blank line, then the subtitle and a blank line when there is one |
| EmailPost.RemoveFences | auto_post_wp.py:327 | removing every "```" leaves none, even where backtick runs were longer than three |
| EmailPost.UnfencedHasNoFence | auto_post_wp.py:327 | the body with its fences removed holds no "```" |
| EmailPost.KeptLinesMembers | auto_post_wp.py:330-339 | a line survives exactly when it is a line of the body that, stripped, is neither empty nor JSON-like |
| EmailPost.CleanBodyShape | auto_post_wp.py:327-344 | the cleaned body holds no "```" and no blank line, so the collapsing loop never changes anything |
| EmailPost.CleanBodyLines | auto_post_wp.py:329-341 | a non-empty cleaned body has as many lines as there are surviving lines, and each of its lines, stripped, is neither empty nor JSON-like: the outer `strip` only trims the first and last line |
| EmailPost.JoinNoBlankLine | auto_post_wp.py:341 | non-empty one-line lines joined by newlines leave no blank line |
| EmailPost.CollapseNothing | auto_post_wp.py:343-344 | a text without two newlines in a row is left as it is by the collapsing |
| PyText.LStrip | auto_post_wp.py:171 | definition: `lstrip(chars)` drops the longest prefix of characters in the set |
| PyText.RStrip | auto_post_wp.py:71 | definition: `rstrip(chars)` drops the longest suffix of characters in the set |
| PyText.StripChars | auto_post_wp.py:80 | definition: `strip(chars)` is `lstrip` then `rstrip` |
| PyText.Strip | auto_post_wp.py:71 | definition: `strip()` is the character-set strip with the 29 `isspace` characters; it also models the calls at lines 75, 124, 159, 164, 171, 331 and 341 |
| PyText.StripCharsSlice | auto_post_wp.py:71 | `strip` leaves the slice between the first and the last character outside the set, and "" exactly when every character is in it |
| PyText.StripIdempotent | auto_post_wp.py:164 | stripping twice is stripping once |
| PyText.Find | auto_post_wp.py:128 | `find` gives -1 or an index where the substring occurs, and no occurrence lies before it |
| PyText.FindFrom | auto_post_wp.py:129 | `find` from a start index gives -1 or an occurrence at or after the start, with none between |
| PyText.SplitOn | auto_post_wp.py:163 | `split(sep)` gives at least one piece, and no piece holds the separator |
| PyText.JoinSplitOn | auto_post_wp.py:163 | joining the pieces of a split with its separator gives back the string |
| PyText.SplitOnJoin | auto_post_wp.py:341 | splitting a join on its one-character separator gives back the parts when none holds it |
| PyText.Join | auto_post_wp.py:341 | definition: `sep.join(parts)`, "" for no parts |
| PyText.Contains | auto_post_wp.py:127 | definition: `sub in s` holds exactly when `find` gives an index; it also models the tests at lines 92, 132, 203, 215, 335 and 343 |
| PyText.StartsWith | auto_post_wp.py:167 | definition: `startswith(prefix)`, also at line 337 |
| PyText.EndsWith | auto_post_wp.py:337 | definition: `endswith(suffix)` |
| PyText.ContainsAny | auto_post_wp.py:92 | definition: `any(k in s for k in subs)`, also at line 335 |
| PyText.LStripJoin | auto_post_wp.py:341 | `lstrip` of a join only strips its first part when that part is not all stripped away |
| PyText.RStripJoin | auto_post_wp.py:341 | `rstrip` of a join only strips its last part when that part is not all stripped away |
| PyText.SplitLines | auto_post_wp.py:74 | `splitlines` gives no line for an empty string, lines without boundaries, the first ending at the first boundary |
| PyText.Words | auto_post_wp.py:82 | `split()` gives non-empty words without whitespace |
| PyText.WordsCoverNonSpace | auto_post_wp.py:82 | the words hold all the non-whitespace characters, in order, and nothing else |
| PyText.NoWordsIffBlank | auto_post_wp.py:82 | a string has no words exactly when it is all whitespace |
| PyText.Lower | auto_post_wp.py:91 | `lower` keeps the length and maps each character on its own |
| PyText.LowerKeepsOccurrences | auto_post_wp.py:91-92 | a substring of the string, lower-cased, is a substring of the lower-cased string |
| PyText.WordsOfLower | auto_post_wp.py:182 | the words of the lower-cased string are the lower-cased words |
| PyText.Replace | auto_post_wp.py:327 | definition: `replace(pat, repl)` replaces every leftmost non-overlapping occurrence, scanning left to right |
| PyText.ReplaceAbsent | auto_post_wp.py:327 | `replace` without an occurrence changes nothing |
| PyText.ReplaceShrinks | auto_post_wp.py:343-344 | replacing by something shorter never lengthens, and shortens as soon as there is an occurrence |

## Left out

- The calls to the Gemini model are inputs: each answer is a string, or `None` for a
  call that raised. The first call of `generate_post` (auto_post_wp.py:117-121) is
  outside any `try`, so when it raises, `generate_post` raises; `Posts.GeneratePost`
  takes that answer as a plain string and does not represent this path. `getattr(response, "text", None) or str(response)` is taken to be
  the answer's text.
- `json.loads` is the function parameter `parse` of `Posts.GeneratePost`; JSON itself
  is not modelled, nor values of the post dictionary that are not strings (a `None`
  title, a `tags` value that is not a list), which the script would print or fail on.
- `parse` returns a post or nothing, so it cannot represent a `json.loads` result that is
  not a JSON object (a list, a number, a string). `generate_post` returns such a value
  as `data` (auto_post_wp.py:140 and 195), and `run_basic_checks` would then fail on
  `.get`; this path is not part of this model.
- `time.sleep` between attempts and the logging are left out; `time.strftime` is the
  `date` parameter of `Topic.Fallback` and `Topic.ChooseTopic`.
- `str.lower` is modelled on ASCII letters only; Python's full Unicode case mapping
  is not part of this model.
- Strings are sequences of Unicode scalar values; a Python `str` holding a lone
  surrogate (U+D800 to U+DFFF) has no counterpart in this model.
- `publish_to_wordpress`'s network part is left out: the SSL context, the
  `xmlrpc.client.ServerProxy` calls, the loop that tries each blog id on each endpoint
  until one succeeds, and the error collection. `wp.getUsersBlogs` is the input of
  `XmlRpcRequest.BlogIdsToTry`, each entry reduced to its `blogid` (an int or a string,
  or none); raising is the empty list.
- `publish_via_email`'s sending is left out: the environment checks, the MIME parts and
  the SMTP session. `XmlRpcRequest.BuildPostData` takes the post and the status as inputs;
  `EmailPost.ComposeEmail` takes only the post, since `publish_status` has no effect on
  the email text.
- `main`, the environment loading, the log file and `SystemExit` are left out, and so
  are `diagnose_wp.py` and `test_content_generation.py`; the HTML loop of the latter
  repeats the one in `generate_post`, which is modelled.
- Topic.ChooseTopic: an attempt that raises is an input answer of `None`, so the model
  does not distinguish the kinds of exception the loop catches.
