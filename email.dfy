/**
 * What `publish_via_email` sends to WordPress's "Post by Email" address: the body is
 * cleaned of code fences and of lines that look like pieces of JSON, blank lines are
 * dropped, and the message text is the title, a blank line, the subtitle and a blank line
 * when there is a subtitle, then the cleaned body.
 */
module EmailPost {
  import opened Wrappers
  import opened PyText
  import opened Posts
  import Fences

  /** A stripped line holding one of these is taken for a JSON key and dropped. */
  const KeyMarkers: seq<string> :=
    ["\"title\":", "\"subtitle\":", "\"body_html\":", "\"tags\":", "\"name\":", "\"app"]

  /** A stripped line that looks like a piece of JSON: it holds a key marker, or it is a
      quoted value followed by a comma, or it ends a key. As in the source, the `and` binds
      tighter than the `or`. */
  predicate LooksLikeJson(stripped: string) {
    ContainsAny(stripped, KeyMarkers)
    || (StartsWith(stripped, "\"") && EndsWith(stripped, "\",")) || EndsWith(stripped, "\":")
  }

  /** A line survives the cleanup when, stripped, it is neither empty nor JSON-like. */
  predicate Kept(line: string) {
    var stripped := Strip(line);
    stripped != "" && !LooksLikeJson(stripped)
  }

  /** Whether each line survives. */
  function KeepEach(lines: seq<string>): (r: seq<bool>)
    ensures |r| == |lines|
  {
    seq(|lines|, k requires 0 <= k < |lines| => Kept(lines[k]))
  }

  /** The lines whose flag is set, in order. */
  function Select(lines: seq<string>, keep: seq<bool>): seq<string>
    requires |keep| == |lines|
    decreases |lines|
  {
    if lines == [] then []
    else
      var n := |lines| - 1;
      Select(lines[..n], keep[..n]) + (if keep[n] then [lines[n]] else [])
  }

  /** The lines that survive the cleanup, unchanged and in order. */
  function KeptLines(lines: seq<string>): seq<string> {
    Select(lines, KeepEach(lines))
  }

  /** The body with every "```json" and then every "```" removed. */
  function Unfenced(bodyHtml: string): string {
    Replace(Replace(bodyHtml, Fences.JsonFence, ""), Fences.Fence, "")
  }

  /** Replaces three newlines by two until no three newlines in a row remain. */
  function Collapse(s: string): (r: string)
    ensures !Contains(r, "\n\n\n") && |r| <= |s|
    ensures r == s <==> !Contains(s, "\n\n\n")
    decreases |s|
  {
    if Contains(s, "\n\n\n") then
      ReplaceShrinks(s, "\n\n\n", "\n\n");
      Collapse(Replace(s, "\n\n\n", "\n\n"))
    else s
  }

  /** The cleaned body: fences removed, the surviving lines joined by newlines and
      stripped, then runs of newlines collapsed. */
  function CleanBody(bodyHtml: string): string {
    Collapse(Strip(Join("\n", KeptLines(SplitOn(Unfenced(bodyHtml), "\n")))))
  }

  /** One more line adds itself when its flag is set. */
  lemma SelectStep(lines: seq<string>, keep: seq<bool>, i: nat)
    requires |keep| == |lines| && i < |lines|
    ensures Select(lines[..i + 1], keep[..i + 1]) ==
            Select(lines[..i], keep[..i]) + (if keep[i] then [lines[i]] else [])
  {
    assert lines[..i + 1][..i] == lines[..i];
    assert keep[..i + 1][..i] == keep[..i];
  }

  /** The cleanup loop and the collapsing loop of the body. */
  method CleanEmailBody(bodyHtml: string) returns (body: string)
    ensures body == CleanBody(bodyHtml)
  {
    var text := Replace(Replace(bodyHtml, Fences.JsonFence, ""), Fences.Fence, "");
    var lines := SplitOn(text, "\n");
    ghost var keep := KeepEach(lines);
    var kept: seq<string> := [];
    for i := 0 to |lines|
      invariant kept == Select(lines[..i], keep[..i])
    {
      SelectStep(lines, keep, i);
      var stripped := Strip(lines[i]);
      if stripped == "" {
        continue;
      }
      if ContainsAny(stripped, KeyMarkers) {
        continue;
      }
      if (StartsWith(stripped, "\"") && EndsWith(stripped, "\",")) || EndsWith(stripped, "\":") {
        continue;
      }
      kept := kept + [lines[i]];
    }
    assert lines[..|lines|] == lines && keep[..|lines|] == keep;
    body := Strip(Join("\n", kept));
    ghost var joined := body;
    while Contains(body, "\n\n\n")
      invariant Collapse(body) == Collapse(joined)
      decreases |body|
    {
      ReplaceShrinks(body, "\n\n\n", "\n\n");
      body := Replace(body, "\n\n\n", "\n\n");
    }
  }

  /** The text of the message: the title, a blank line, the subtitle and a blank line when
      the subtitle is not empty, then the body. */
  function EmailText(title: string, subtitle: string, body: string): (r: string)
    ensures StartsWith(r, title + "\n\n") && EndsWith(r, body)
    ensures |r| == |title| + 2 + (if subtitle != "" then |subtitle| + 2 else 0) + |body|
  {
    var r := title + "\n\n" + (if subtitle != "" then subtitle + "\n\n" else "") + body;
    assert r[..|title| + 2] == title + "\n\n";
    assert r[|r| - |body|..] == body;
    r
  }

  /** The subject and the text of the message for a post; a missing title is "Untitled",
      a missing body or subtitle is empty. */
  method ComposeEmail(post: Post) returns (subject: string, text: string)
    ensures subject == post.title.GetOr("Untitled")
    ensures text == EmailText(subject, post.subtitle.GetOr(""), CleanBody(post.bodyHtml.GetOr("")))
  {
    var title := post.title.GetOr("Untitled");
    var bodyHtml := post.bodyHtml.GetOr("");
    var subtitle := post.subtitle.GetOr("");
    var body := CleanEmailBody(bodyHtml);
    text := title + "\n\n";
    if subtitle != "" {
      text := text + (subtitle + "\n\n");
    }
    text := text + body;
    subject := title;
  }

  // ---------------------------------------------------------------------------
  // What the cleanup guarantees

  /** The number of backticks `s` starts with. */
  function LeadTicks(s: string): nat
    decreases |s|
  {
    if s != [] && s[0] == '`' then 1 + LeadTicks(s[1..]) else 0
  }

  /** A string starts with "```" exactly when it starts with three or more backticks. */
  lemma LeadTicksFence(s: string)
    ensures LeadTicks(s) >= 3 <==> Occurs(s, Fences.Fence, 0)
  {
    var f := Fences.Fence;
    if s != [] && s[0] == '`' {
      var t := s[1..];
      if t != [] && t[0] == '`' {
        var u := t[1..];
        assert LeadTicks(s) == 2 + LeadTicks(u);
        if u != [] && u[0] == '`' {
          assert s[..3] == f;
        } else if |s| >= 3 {
          MismatchAt(s, f, 0, 2);
        }
      } else if |s| >= 2 {
        MismatchAt(s, f, 0, 1);
      }
    } else if s != [] {
      MismatchAt(s, f, 0, 0);
    }
  }

  /** Dropping a leading "```" takes three backticks off the front. */
  lemma LeadTicksAfterFence(s: string)
    requires Occurs(s, Fences.Fence, 0)
    ensures LeadTicks(s) == 3 + LeadTicks(s[3..])
  {
    assert s[0] == s[..3][0] && s[1] == s[..3][1] && s[2] == s[..3][2];
    assert s[1..][1..][1..] == s[3..];
    assert LeadTicks(s) == 1 + LeadTicks(s[1..]);
    assert LeadTicks(s[1..]) == 1 + LeadTicks(s[1..][1..]);
  }

  /** A character put in front of a string without "```" creates none when the string
      starts with at most one backtick after a backtick. */
  lemma ConsNoFence(c: char, rest: string)
    requires !Contains(rest, Fences.Fence)
    requires c == '`' ==> LeadTicks(rest) <= 1
    ensures !Contains([c] + rest, Fences.Fence)
    ensures LeadTicks([c] + rest) == if c == '`' then 1 + LeadTicks(rest) else 0
  {
    var f := Fences.Fence;
    var r := [c] + rest;
    assert r[1..] == rest;
    LeadTicksFence(r);
    forall i | 0 < i <= |r| ensures !Occurs(r, f, i) {
      if i + 3 <= |r| {
        assert !Occurs(rest, f, i - 1);
        assert r[i..i + 3] == rest[i - 1..i + 2];
      }
    }
    ContainsIff(r, f);
  }

  /** Removing every "```" leaves none, and the backticks a string starts with are left
      modulo three. */
  lemma {:induction false} RemoveFences(s: string)
    ensures !Contains(Replace(s, Fences.Fence, ""), Fences.Fence)
    ensures LeadTicks(Replace(s, Fences.Fence, "")) == LeadTicks(s) % 3
    decreases |s|
  {
    var f := Fences.Fence;
    if s == [] {
    } else if StartsWith(s, f) {
      assert Replace(s, f, "") == Replace(s[3..], f, "") by {
        assert |f| == 3;
        assert Replace(s, f, "") == "" + Replace(s[3..], f, "");
        assert "" + Replace(s[3..], f, "") == Replace(s[3..], f, "");
      }
      RemoveFences(s[3..]);
      assert LeadTicks(s) % 3 == LeadTicks(s[3..]) % 3 by {
        LeadTicksAfterFence(s);
        var x := LeadTicks(s[3..]);
        assert (3 + x) % 3 == x % 3;
      }
    } else {
      var rest := Replace(s[1..], f, "");
      assert Replace(s, f, "") == [s[0]] + rest by {
        assert !StartsWith(s, f);
      }
      RemoveFences(s[1..]);
      assert LeadTicks(s) == if s[0] == '`' then 1 + LeadTicks(s[1..]) else 0 by {
        LeadTicksFence(s);
      }
      ConsNoFence(s[0], rest);
    }
  }

  /** The body with its fences removed holds no "```". */
  lemma UnfencedHasNoFence(bodyHtml: string)
    ensures !Contains(Unfenced(bodyHtml), Fences.Fence)
  {
    RemoveFences(Replace(bodyHtml, Fences.JsonFence, ""));
  }

  /** A part of a join is a substring of the join. */
  lemma {:induction false} PartInJoin(sep: string, parts: seq<string>, k: nat, sub: string)
    requires k < |parts| && Contains(parts[k], sub)
    ensures Contains(Join(sep, parts), sub)
    decreases k
  {
    var j := Join(sep, parts);
    if |parts| == 1 {
    } else {
      var p := parts[0];
      var rest := Join(sep, parts[1..]);
      assert j == p + sep + rest;
      if k == 0 {
        assert j[..|p|] == p;
        ContainsOfSlice(j, 0, |p|, sub);
      } else {
        PartInJoin(sep, parts[1..], k - 1, sub);
        assert j[|p| + |sep|..|j|] == rest;
        ContainsOfSlice(j, |p| + |sep|, |j|, sub);
      }
    }
  }

  /** A join with a one-character separator holds a string without that character only
      where one of its parts does. */
  lemma {:induction false} JoinKeepsAbsence(c: char, parts: seq<string>, sub: string)
    requires sub != [] && forall j :: 0 <= j < |sub| ==> sub[j] != c
    requires forall k :: 0 <= k < |parts| ==> !Contains(parts[k], sub)
    ensures !Contains(Join([c], parts), sub)
    decreases |parts|
  {
    if |parts| > 1 {
      JoinKeepsAbsence(c, parts[1..], sub);
      var rest := Join([c], parts[1..]);
      assert Join([c], parts) == parts[0] + [c] + rest;
      if Contains(parts[0] + [c] + rest, sub) {
        ContainsAcross(parts[0], c, rest, sub);
      }
    }
  }

  /** No two newlines in a row. */
  predicate NoBlankLine(s: string) {
    forall i :: 0 <= i < |s| - 1 ==> s[i] != '\n' || s[i + 1] != '\n'
  }

  /** Lines that are not empty and hold no newline, joined by newlines, leave no blank
      line between them. */
  lemma {:induction false} JoinNoBlankLine(parts: seq<string>)
    requires forall k :: 0 <= k < |parts| ==> parts[k] != "" && NoneIn(parts[k], {'\n'})
    ensures NoBlankLine(Join("\n", parts))
    decreases |parts|
  {
    if |parts| > 1 {
      JoinNoBlankLine(parts[1..]);
      var p := parts[0];
      var rest := Join("\n", parts[1..]);
      var j := p + "\n" + rest;
      assert Join("\n", parts) == j;
      assert rest != "" && rest[0] == parts[1][0] by {
        if |parts[1..]| == 1 {
        } else {
          assert rest == parts[1] + "\n" + Join("\n", parts[2..]) by {
            assert parts[1..][1..] == parts[2..];
          }
        }
      }
      forall i | 0 <= i < |j| - 1 ensures j[i] != '\n' || j[i + 1] != '\n' {
        if i < |p| {
          assert j[i] == p[i];
        } else if i > |p| {
          assert j[i] == rest[i - |p| - 1] && j[i + 1] == rest[i - |p|];
        }
      }
    }
  }

  /** A string without two newlines in a row holds no "\n\n". */
  lemma NoBlankLineContains(s: string)
    requires NoBlankLine(s)
    ensures !Contains(s, "\n\n")
  {
    forall i | 0 <= i <= |s| ensures !Occurs(s, "\n\n", i) {
      if i + 1 < |s| {
        if s[i] != '\n' {
          MismatchAt(s, "\n\n", i, 0);
        } else {
          MismatchAt(s, "\n\n", i, 1);
        }
      }
    }
    ContainsIff(s, "\n\n");
  }

  /** Without "\n\n" there is nothing to collapse. */
  lemma CollapseNothing(s: string)
    requires !Contains(s, "\n\n")
    ensures Collapse(s) == s
  {
    forall i | 0 <= i <= |s| ensures !Occurs(s, "\n\n\n", i) {
      if i + 3 <= |s| {
        assert !Occurs(s, "\n\n", i);
        assert s[i..i + 3][..2] == s[i..i + 2];
      }
    }
    ContainsIff(s, "\n\n\n");
  }

  /** Every kept line is a line that survives the cleanup, and conversely. */
  lemma {:induction false} SelectMembers(lines: seq<string>, keep: seq<bool>)
    requires |keep| == |lines|
    ensures forall x :: x in Select(lines, keep) <==> exists k :: 0 <= k < |lines| && keep[k] && lines[k] == x
    decreases |lines|
  {
    if lines != [] {
      var n := |lines| - 1;
      SelectMembers(lines[..n], keep[..n]);
      forall x ensures x in Select(lines, keep) <==> exists k :: 0 <= k < |lines| && keep[k] && lines[k] == x {
        if x in Select(lines[..n], keep[..n]) {
          var k :| 0 <= k < n && keep[..n][k] && lines[..n][k] == x;
          assert keep[k] && lines[k] == x;
        }
        if exists k :: 0 <= k < |lines| && keep[k] && lines[k] == x {
          var k :| 0 <= k < |lines| && keep[k] && lines[k] == x;
          if k < n {
            assert keep[..n][k] && lines[..n][k] == x;
          }
        }
      }
    }
  }

  /** A line is kept exactly when it is one of the lines and survives the cleanup. */
  lemma KeptLinesMembers(lines: seq<string>)
    ensures forall x :: x in KeptLines(lines) <==> x in lines && Kept(x)
  {
    SelectMembers(lines, KeepEach(lines));
  }

  /** The cleaned body holds no code fence and no blank line, and so the collapsing loop
      never has anything to do: the body is the kept lines joined by newlines, stripped. */
  lemma CleanBodyShape(bodyHtml: string)
    ensures !Contains(CleanBody(bodyHtml), Fences.Fence)
    ensures !Contains(CleanBody(bodyHtml), "\n\n")
    ensures CleanBody(bodyHtml) == Strip(Join("\n", KeptLines(SplitOn(Unfenced(bodyHtml), "\n"))))
  {
    var u := Unfenced(bodyHtml);
    var lines := SplitOn(u, "\n");
    var kept := KeptLines(lines);
    var joined := Join("\n", kept);
    UnfencedHasNoFence(bodyHtml);
    JoinSplitOn(u, "\n");
    KeptLinesMembers(lines);
    forall k | 0 <= k < |kept|
      ensures kept[k] != "" && NoneIn(kept[k], {'\n'}) && !Contains(kept[k], Fences.Fence)
    {
      var x := kept[k];
      assert x in kept;
      var m :| 0 <= m < |lines| && lines[m] == x;
      AbsentChar(x, '\n');
      if Contains(x, Fences.Fence) {
        PartInJoin("\n", lines, m, Fences.Fence);
      }
      if x == "" {
        StripEmptyIff(x);
      }
    }
    JoinKeepsAbsence('\n', kept, Fences.Fence);
    JoinNoBlankLine(kept);
    NoBlankLineContains(joined);
    StripKeepsAbsence(joined, Whitespace, Fences.Fence);
    StripKeepsAbsence(joined, Whitespace, "\n\n");
    CollapseNothing(Strip(joined));
  }

  /** The lines that survive the cleanup hold no newline. */
  lemma KeptLinesOneLine(u: string)
    ensures forall x :: x in KeptLines(SplitOn(u, "\n")) ==> Kept(x) && NoneIn(x, {'\n'})
  {
    var lines := SplitOn(u, "\n");
    KeptLinesMembers(lines);
    forall x | x in KeptLines(lines) ensures NoneIn(x, {'\n'}) {
      var m :| 0 <= m < |lines| && lines[m] == x;
      AbsentChar(x, '\n');
    }
  }

  /** Stripping lines that survive the cleanup, joined by newlines, only trims the first
      and the last of them, and a trimmed line still survives. */
  lemma StripKeptJoin(parts: seq<string>) returns (trimmed: seq<string>)
    requires parts != [] && forall x :: x in parts ==> Kept(x) && NoneIn(x, {'\n'})
    ensures Strip(Join("\n", parts)) == Join("\n", trimmed)
    ensures |trimmed| == |parts| && forall k :: 0 <= k < |trimmed| ==> Kept(trimmed[k]) && NoneIn(trimmed[k], {'\n'})
  {
    var n := |parts| - 1;
    assert parts[0] in parts && parts[n] in parts;
    LStripJoin("\n", parts, Whitespace);
    var first := [LStrip(parts[0], Whitespace)] + parts[1..];
    StripOfRStrip(parts[n], Whitespace);
    RStripJoin("\n", first, Whitespace);
    trimmed := first[..n] + [RStrip(first[n], Whitespace)];
    forall k | 0 <= k < |trimmed| ensures Kept(trimmed[k]) && NoneIn(trimmed[k], {'\n'}) {
      assert parts[k] in parts;
      if k == 0 && n == 0 {
        StripIdempotent(parts[0], Whitespace);
        StripKeepsNoneIn(parts[0], Whitespace, {'\n'});
      } else if k == 0 {
        StripOfLStrip(parts[0], Whitespace);
        LStripKeepsNoneIn(parts[0], Whitespace, {'\n'});
      } else if k == n {
        RStripKeepsNoneIn(parts[n], Whitespace, {'\n'});
      } else {
        assert trimmed[k] == parts[k];
      }
    }
  }

  /** Every line of a cleaned body that is not empty is a line that survives the cleanup,
      and there are as many of them as there are surviving lines. */
  lemma CleanBodyLines(bodyHtml: string)
    ensures CleanBody(bodyHtml) != "" ==>
              |SplitOn(CleanBody(bodyHtml), "\n")| == |KeptLines(SplitOn(Unfenced(bodyHtml), "\n"))| &&
              forall l :: l in SplitOn(CleanBody(bodyHtml), "\n") ==> Kept(l)
  {
    var q := KeptLines(SplitOn(Unfenced(bodyHtml), "\n"));
    CleanBodyShape(bodyHtml);
    KeptLinesOneLine(Unfenced(bodyHtml));
    if q != [] {
      var trimmed := StripKeptJoin(q);
      SplitOnJoin('\n', trimmed);
    }
  }

  /** Splitting at the first newline. */
  lemma SplitOnFirstLine(x: string, y: string)
    requires NoneIn(x, {'\n'})
    ensures SplitOn(x + "\n" + y, "\n") == [x] + SplitOn(y, "\n")
  {
    var s := x + "\n" + y;
    assert Occurs(s, "\n", |x|);
    forall i | 0 <= i < |x| ensures !Occurs(s, "\n", i) {
      MismatchAt(s, "\n", i, 0);
    }
    FindIs(s, "\n", |x|);
    assert s[..|x|] == x;
    assert s[|x| + 1..] == y;
  }

  /** A line followed by a blank line. */
  lemma LineThenBlank(x: string, rest: string)
    requires NoneIn(x, {'\n'})
    ensures SplitOn(x + "\n\n" + rest, "\n") == [x, ""] + SplitOn(rest, "\n")
  {
    var t := "\n" + rest;
    assert x + "\n\n" + rest == x + "\n" + t;
    assert SplitOn(x + "\n" + t, "\n") == [x] + SplitOn(t, "\n") by {
      SplitOnFirstLine(x, t);
    }
    assert SplitOn(t, "\n") == [""] + SplitOn(rest, "\n") by {
      assert t == "" + "\n" + rest;
      SplitOnFirstLine("", rest);
    }
  }

  /** WordPress reads the first line of the message as the title: when the title and the
      subtitle hold no newline, the message's lines start with the title, a blank line, and
      then, when there is a subtitle, the subtitle and a blank line. */
  lemma EmailLines(title: string, subtitle: string, body: string)
    requires NoneIn(title, {'\n'}) && NoneIn(subtitle, {'\n'})
    ensures var lines := SplitOn(EmailText(title, subtitle, body), "\n");
            |lines| >= 3 && lines[0] == title && lines[1] == "" &&
            (subtitle != "" ==> |lines| >= 5 && lines[2] == subtitle && lines[3] == "")
  {
    var middle := if subtitle != "" then subtitle + "\n\n" else "";
    assert EmailText(title, subtitle, body) == title + "\n\n" + (middle + body);
    LineThenBlank(title, middle + body);
    if subtitle != "" {
      assert middle + body == subtitle + "\n\n" + body;
      LineThenBlank(subtitle, body);
    }
  }
}
