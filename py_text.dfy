/**
 * The Python `str` operations the blog-posting script is built from, stated over
 * `string` (a sequence of Unicode scalar values; a Python `str` may also hold lone
 * surrogates, U+D800 to U+DFFF, which a Dafny `char` excludes and this model leaves out):
 * `strip`/`lstrip`/`rstrip` with and without a character set, `find` and `in`,
 * `replace`, `split(sep)`, `split()`, `splitlines()`, `join`, `startswith`,
 * `endswith` and `lower`.
 */
module PyText {

  /** The characters for which Python's `str.isspace()` holds; `strip()` and `split()`
      without arguments remove and split on exactly these. */
  const Whitespace: set<char> := {
    '\t', '\n', '\U{0B}', '\U{0C}', '\r', '\U{1C}', '\U{1D}', '\U{1E}', '\U{1F}', ' ',
    '\U{85}', '\U{A0}', '\U{1680}',
    '\U{2000}', '\U{2001}', '\U{2002}', '\U{2003}', '\U{2004}', '\U{2005}', '\U{2006}',
    '\U{2007}', '\U{2008}', '\U{2009}', '\U{200A}',
    '\U{2028}', '\U{2029}', '\U{202F}', '\U{205F}', '\U{3000}'
  }

  /** The line boundaries of Python's `str.splitlines()`; a "\r\n" pair counts as one. */
  const LineBreaks: set<char> := {
    '\n', '\r', '\U{0B}', '\U{0C}', '\U{1C}', '\U{1D}', '\U{1E}', '\U{85}', '\U{2028}', '\U{2029}'
  }

  lemma LineBreaksAreWhitespace(c: char)
    requires c in LineBreaks
    ensures c in Whitespace
  {
  }

  /** Every character of `s` is in `chars`. */
  predicate AllIn(s: string, chars: set<char>) {
    forall i :: 0 <= i < |s| ==> s[i] in chars
  }

  /** No character of `s` is in `chars`. */
  predicate NoneIn(s: string, chars: set<char>) {
    forall i :: 0 <= i < |s| ==> s[i] !in chars
  }

  // ---------------------------------------------------------------------------
  // strip, lstrip, rstrip

  /** `s.lstrip(chars)`: drop the longest prefix made of characters in `chars`. */
  function LStrip(s: string, chars: set<char>): string
    decreases |s|
  {
    if s != [] && s[0] in chars then LStrip(s[1..], chars) else s
  }

  /** `lstrip` leaves a suffix, drops only characters in `chars`, and stops at the first
      character outside them. */
  lemma {:induction false} LStripSpec(s: string, chars: set<char>)
    ensures |LStrip(s, chars)| <= |s| && LStrip(s, chars) == s[|s| - |LStrip(s, chars)|..]
    ensures forall i :: 0 <= i < |s| - |LStrip(s, chars)| ==> s[i] in chars
    ensures LStrip(s, chars) == [] || LStrip(s, chars)[0] !in chars
    decreases |s|
  {
    if s != [] && s[0] in chars {
      LStripSpec(s[1..], chars);
    }
  }

  /** `s.rstrip(chars)`: drop the longest suffix made of characters in `chars`. */
  function RStrip(s: string, chars: set<char>): string
    decreases |s|
  {
    if s != [] && s[|s| - 1] in chars then RStrip(s[..|s| - 1], chars) else s
  }

  /** `rstrip` leaves a prefix, drops only characters in `chars`, and stops at the last
      character outside them. */
  lemma {:induction false} RStripSpec(s: string, chars: set<char>)
    ensures |RStrip(s, chars)| <= |s| && RStrip(s, chars) == s[..|RStrip(s, chars)|]
    ensures forall i :: |RStrip(s, chars)| <= i < |s| ==> s[i] in chars
    ensures RStrip(s, chars) == [] || RStrip(s, chars)[|RStrip(s, chars)| - 1] !in chars
    decreases |s|
  {
    if s != [] && s[|s| - 1] in chars {
      RStripSpec(s[..|s| - 1], chars);
    }
  }

  /** `s.strip(chars)`. */
  function StripChars(s: string, chars: set<char>): string {
    RStrip(LStrip(s, chars), chars)
  }

  /** `s.strip()`. */
  function Strip(s: string): string {
    StripChars(s, Whitespace)
  }

  /** The prefix `LStrip` removes is exactly the one up to the first character outside `chars`. */
  lemma LStripAt(s: string, chars: set<char>, k: nat)
    requires k <= |s| && (forall i :: 0 <= i < k ==> s[i] in chars)
    requires k == |s| || s[k] !in chars
    ensures LStrip(s, chars) == s[k..]
  {
    LStripSpec(s, chars);
    var r := LStrip(s, chars);
    assert |s| - |r| == k;
  }

  /** The suffix `RStrip` removes is exactly the one after the last character outside `chars`. */
  lemma RStripAt(s: string, chars: set<char>, k: nat)
    requires k <= |s| && (forall i :: k <= i < |s| ==> s[i] in chars)
    requires k == 0 || s[k - 1] !in chars
    ensures RStrip(s, chars) == s[..k]
  {
    RStripSpec(s, chars);
    var r := RStrip(s, chars);
    assert |r| == k;
  }

  /** `strip(chars)` leaves the slice between the first and the last character outside
      `chars`, and the empty string exactly when every character is in `chars`. */
  lemma StripCharsSlice(s: string, chars: set<char>) returns (a: nat)
    ensures a + |StripChars(s, chars)| <= |s|
    ensures StripChars(s, chars) == s[a..a + |StripChars(s, chars)|]
    ensures StripChars(s, chars) == [] <==> AllIn(s, chars)
    ensures StripChars(s, chars) != [] ==>
              StripChars(s, chars)[0] !in chars && StripChars(s, chars)[|StripChars(s, chars)| - 1] !in chars
  {
    var l := LStrip(s, chars);
    LStripSpec(s, chars);
    a := |s| - |l|;
    var r := RStrip(l, chars);
    RStripSpec(l, chars);
    assert r == s[a..a + |r|];
    if r != [] {
      assert r[0] == l[0];
    }
  }

  /** Stripping adds no character: what `s` lacks, its stripped form lacks too. */
  lemma StripKeepsNoneIn(s: string, chars: set<char>, absent: set<char>)
    requires NoneIn(s, absent)
    ensures NoneIn(StripChars(s, chars), absent)
  {
    var a := StripCharsSlice(s, chars);
    var r := StripChars(s, chars);
    assert forall i :: 0 <= i < |r| ==> r[i] == s[a + i];
  }

  /** `lstrip` adds no character either. */
  lemma LStripKeepsNoneIn(s: string, chars: set<char>, absent: set<char>)
    requires NoneIn(s, absent)
    ensures NoneIn(LStrip(s, chars), absent)
  {
    LStripSpec(s, chars);
    var r := LStrip(s, chars);
    assert forall i :: 0 <= i < |r| ==> r[i] == s[|s| - |r| + i];
  }

  /** `rstrip` adds no character either. */
  lemma RStripKeepsNoneIn(s: string, chars: set<char>, absent: set<char>)
    requires NoneIn(s, absent)
    ensures NoneIn(RStrip(s, chars), absent)
  {
    RStripSpec(s, chars);
    var r := RStrip(s, chars);
    assert forall i :: 0 <= i < |r| ==> r[i] == s[i];
  }

  /** `lstrip` of a concatenation stops inside the first string when that string holds a
      character outside `chars`. */
  lemma LStripConcat(x: string, y: string, chars: set<char>)
    requires LStrip(x, chars) != []
    ensures LStrip(x + y, chars) == LStrip(x, chars) + y
  {
    LStripSpec(x, chars);
    var k := |x| - |LStrip(x, chars)|;
    assert (x + y)[k] == LStrip(x, chars)[0];
    LStripAt(x + y, chars, k);
    assert (x + y)[k..] == x[k..] + y;
  }

  /** `rstrip` of a concatenation stops inside the second string when that string holds a
      character outside `chars`. */
  lemma RStripConcat(x: string, y: string, chars: set<char>)
    requires RStrip(y, chars) != []
    ensures RStrip(x + y, chars) == x + RStrip(y, chars)
  {
    RStripSpec(y, chars);
    var r := RStrip(y, chars);
    var k := |x| + |r|;
    assert (x + y)[k - 1] == r[|r| - 1];
    RStripAt(x + y, chars, k);
    assert (x + y)[..k] == x + y[..|r|];
  }

  /** `strip()` of a string that has a non-whitespace character is not empty. */
  lemma StripEmptyIff(s: string)
    ensures Strip(s) == [] <==> AllIn(s, Whitespace)
  {
    var _ := StripCharsSlice(s, Whitespace);
  }

  lemma LStripIdempotent(s: string, chars: set<char>)
    ensures LStrip(LStrip(s, chars), chars) == LStrip(s, chars)
  {
    LStripSpec(s, chars);
    LStripAt(LStrip(s, chars), chars, 0);
  }

  lemma RStripIdempotent(s: string, chars: set<char>)
    ensures RStrip(RStrip(s, chars), chars) == RStrip(s, chars)
  {
    RStripSpec(s, chars);
    var r := RStrip(s, chars);
    RStripAt(r, chars, |r|);
  }

  /** Stripping the left end first changes nothing about the fully stripped string. */
  lemma StripOfLStrip(s: string, chars: set<char>)
    ensures StripChars(LStrip(s, chars), chars) == StripChars(s, chars)
  {
    LStripIdempotent(s, chars);
  }

  /** `lstrip` of a prefix that still reaches past the stripped characters. */
  lemma LStripOfPrefix(s: string, chars: set<char>, b: nat)
    requires 0 <= |s| - |LStrip(s, chars)| < b <= |s|
    ensures LStrip(s[..b], chars) == s[|s| - |LStrip(s, chars)|..b]
  {
    LStripSpec(s, chars);
    var a := |s| - |LStrip(s, chars)|;
    assert s[..b][a] == LStrip(s, chars)[0];
    LStripAt(s[..b], chars, a);
  }

  /** `rstrip` of a suffix that starts before the stripped characters. */
  lemma RStripOfSuffix(s: string, chars: set<char>, a: nat)
    requires a < |RStrip(s, chars)| <= |s|
    ensures RStrip(s[a..], chars) == s[a..|RStrip(s, chars)|]
  {
    RStripSpec(s, chars);
    var b := |RStrip(s, chars)|;
    assert s[a..][b - a - 1] == RStrip(s, chars)[b - 1];
    RStripAt(s[a..], chars, b - a);
  }

  /** Both orders of stripping the two ends meet at the same slice. */
  lemma StripBothEnds(s: string, chars: set<char>)
    requires LStrip(s, chars) != []
    ensures LStrip(RStrip(s, chars), chars) == RStrip(LStrip(s, chars), chars)
  {
    var l := LStrip(s, chars);
    LStripSpec(s, chars);
    RStripSpec(s, chars);
    var a := |s| - |l|;
    var b := |RStrip(s, chars)|;
    assert s[a] == l[0];
    LStripOfPrefix(s, chars, b);
    RStripOfSuffix(s, chars, a);
  }

  /** Stripping the right end first changes nothing about the fully stripped string. */
  lemma StripOfRStrip(s: string, chars: set<char>)
    ensures StripChars(RStrip(s, chars), chars) == StripChars(s, chars)
  {
    var l := LStrip(s, chars);
    LStripSpec(s, chars);
    if l == [] {
      // every character is in `chars`
      RStripAt(s, chars, 0);
    } else {
      StripBothEnds(s, chars);
      RStripIdempotent(l, chars);
    }
  }

  lemma StripIdempotent(s: string, chars: set<char>)
    ensures StripChars(StripChars(s, chars), chars) == StripChars(s, chars)
  {
    var l := LStrip(s, chars);
    StripOfRStrip(l, chars);
    LStripIdempotent(s, chars);
  }

  // ---------------------------------------------------------------------------
  // startswith, endswith, find, in

  predicate StartsWith(s: string, prefix: string) {
    |prefix| <= |s| && s[..|prefix|] == prefix
  }

  predicate EndsWith(s: string, suffix: string) {
    |suffix| <= |s| && s[|s| - |suffix|..] == suffix
  }

  /** `sub` occurs in `s` at index `i`. */
  predicate Occurs(s: string, sub: string, i: int) {
    0 <= i && i + |sub| <= |s| && s[i..i + |sub|] == sub
  }

  /** `s.find(sub)`: the lowest index where `sub` occurs, or -1 when it does not occur. */
  function Find(s: string, sub: string): (r: int)
    ensures r == -1 || Occurs(s, sub, r)
    ensures forall i :: 0 <= i <= |s| && (r == -1 || i < r) ==> !Occurs(s, sub, i)
    decreases |s|
  {
    if StartsWith(s, sub) then 0
    else if s == [] then -1
    else
      var r := Find(s[1..], sub);
      assert forall i :: 1 <= i <= |s| && Occurs(s, sub, i) ==> Occurs(s[1..], sub, i - 1) by {
        forall i | 1 <= i <= |s| && Occurs(s, sub, i) ensures Occurs(s[1..], sub, i - 1) {
          assert s[1..][i - 1..i - 1 + |sub|] == s[i..i + |sub|];
        }
      }
      if r < 0 then -1
      else
        assert s[1..][r..r + |sub|] == s[r + 1..r + 1 + |sub|];
        r + 1
  }

  /** `sub in s`. */
  predicate Contains(s: string, sub: string)
  {
    Find(s, sub) >= 0
  }

  lemma ContainsIff(s: string, sub: string)
    ensures Contains(s, sub) <==> exists i :: 0 <= i <= |s| && Occurs(s, sub, i)
  {
  }

  /** `s.find(sub, start)` for a start index that is not negative. */
  function FindFrom(s: string, sub: string, start: nat): (r: int)
    ensures r == -1 || (start <= r && Occurs(s, sub, r))
    ensures forall i :: start <= i <= |s| && (r == -1 || i < r) ==> !Occurs(s, sub, i)
  {
    if start > |s| then -1
    else
      var r := Find(s[start..], sub);
      assert forall i :: start <= i <= |s| && Occurs(s, sub, i) ==> Occurs(s[start..], sub, i - start) by {
        forall i | start <= i <= |s| && Occurs(s, sub, i) ensures Occurs(s[start..], sub, i - start) {
          assert s[start..][i - start..i - start + |sub|] == s[i..i + |sub|];
        }
      }
      if r < 0 then -1
      else
        assert s[start..][r..r + |sub|] == s[start + r..start + r + |sub|];
        start + r
  }

  /** A substring of a slice of `s` is a substring of `s`. */
  lemma ContainsOfSlice(s: string, a: nat, b: nat, sub: string)
    requires a <= b <= |s|
    requires Contains(s[a..b], sub)
    ensures Contains(s, sub)
  {
    var i := Find(s[a..b], sub);
    assert s[a..b][i..i + |sub|] == s[a + i..a + i + |sub|];
    assert Occurs(s, sub, a + i);
  }

  /** `sub` cannot occur where `s` holds a character other than the first of `sub`. */
  lemma NotOccursAt(s: string, sub: string, i: int)
    requires sub != [] && 0 <= i < |s| && s[i] != sub[0]
    ensures !Occurs(s, sub, i)
  {
    if i + |sub| <= |s| {
      assert s[i..i + |sub|][0] == s[i];
    }
  }

  /** `sub` does not occur at `i` when one of the characters it would cover differs. */
  lemma MismatchAt(s: string, sub: string, i: int, j: nat)
    requires 0 <= i && j < |sub| && i + j < |s| && s[i + j] != sub[j]
    ensures !Occurs(s, sub, i)
  {
    if i + |sub| <= |s| {
      assert s[i..i + |sub|][j] == s[i + j];
    }
  }

  /** An occurrence with none before it is what `find` returns. */
  lemma FindIs(s: string, sub: string, i: int)
    requires Occurs(s, sub, i) && forall j :: 0 <= j < i ==> !Occurs(s, sub, j)
    ensures Find(s, sub) == i
  {
  }

  /** An occurrence at or after `start` with none between is what `find` from `start`
      returns. */
  lemma FindFromIs(s: string, sub: string, start: nat, i: int)
    requires start <= i && Occurs(s, sub, i) && forall j :: start <= j < i ==> !Occurs(s, sub, j)
    ensures FindFrom(s, sub, start) == i
  {
  }

  /** Without an occurrence at or after `start`, `find` from `start` returns -1. */
  lemma FindFromNone(s: string, sub: string, start: nat)
    requires sub != [] && forall j :: start <= j < |s| ==> !Occurs(s, sub, j)
    ensures FindFrom(s, sub, start) == -1
  {
  }

  /** `sub` does not occur between `start` and its first occurrence at or after `start`. */
  lemma NothingBeforeFirst(s: string, sub: string, start: nat, end: int)
    requires sub != [] && end == FindFrom(s, sub, start) && end >= start
    ensures !Contains(s[start..end], sub)
  {
    assert Occurs(s, sub, end);
    var t := s[start..end];
    forall i | 0 <= i <= |t| ensures !Occurs(t, sub, i) {
      if i + |sub| <= |t| {
        var u, v := t[i..i + |sub|], s[start + i..start + i + |sub|];
        forall k | 0 <= k < |sub| ensures u[k] == v[k] {
          assert t[i + k] == s[start + i + k];
        }
        assert u == v;
        assert !Occurs(s, sub, start + i);
      }
    }
    ContainsIff(t, sub);
  }

  /** Stripping never creates an occurrence. */
  lemma StripKeepsAbsence(s: string, chars: set<char>, sub: string)
    requires !Contains(s, sub)
    ensures !Contains(StripChars(s, chars), sub)
  {
    var a := StripCharsSlice(s, chars);
    if Contains(StripChars(s, chars), sub) {
      ContainsOfSlice(s, a, a + |StripChars(s, chars)|, sub);
    }
  }

  /** The characters covered by an occurrence of `sub` are those of `sub`. */
  lemma OccurrenceAvoids(s: string, sub: string, i: int, c: char)
    requires Occurs(s, sub, i)
    requires forall j :: 0 <= j < |sub| ==> sub[j] != c
    ensures forall k :: i <= k < i + |sub| ==> s[k] != c
  {
    forall k | i <= k < i + |sub| ensures s[k] != c {
      assert s[k] == s[i..i + |sub|][k - i];
    }
  }

  /** An occurrence in `x + [c] + y` of a string without `c` lies inside `x` or inside `y`. */
  lemma ContainsAcross(x: string, c: char, y: string, sub: string)
    requires forall j :: 0 <= j < |sub| ==> sub[j] != c
    requires Contains(x + [c] + y, sub)
    ensures Contains(x, sub) || Contains(y, sub)
  {
    var s := x + [c] + y;
    var i := Find(s, sub);
    if i + |sub| <= |x| {
      assert s[i..i + |sub|] == x[i..i + |sub|];
      assert Occurs(x, sub, i);
    } else {
      OccurrenceAvoids(s, sub, i, c);
      assert s[|x|] == c;
      assert i > |x|;
      var j := i - |x| - 1;
      assert s[|x| + 1..] == y;
      assert s[i..i + |sub|] == s[|x| + 1..][j..j + |sub|];
      assert Occurs(y, sub, i - |x| - 1);
    }
  }

  /** Python's `any(k in s for k in subs)`. */
  predicate ContainsAny(s: string, subs: seq<string>) {
    exists k :: 0 <= k < |subs| && Contains(s, subs[k])
  }

  // ---------------------------------------------------------------------------
  // replace

  /** `s.replace(pat, repl)`: every non-overlapping occurrence of `pat`, scanning from the
      left, is replaced by `repl`; the result is not scanned again. */
  function Replace(s: string, pat: string, repl: string): string
    requires pat != []
    decreases |s|
  {
    if s == [] then []
    else if StartsWith(s, pat) then repl + Replace(s[|pat|..], pat, repl)
    else [s[0]] + Replace(s[1..], pat, repl)
  }

  /** Nothing to replace leaves the string unchanged. */
  lemma {:induction false} ReplaceAbsent(s: string, pat: string, repl: string)
    requires pat != [] && !Contains(s, pat)
    ensures Replace(s, pat, repl) == s
    decreases |s|
  {
    if s != [] {
      assert !Occurs(s, pat, 0);
      assert !Contains(s[1..], pat);
      ReplaceAbsent(s[1..], pat, repl);
    }
  }

  /** Replacing by something shorter never lengthens the string, and shortens it as soon as
      there is an occurrence. */
  lemma {:induction false} ReplaceShrinks(s: string, pat: string, repl: string)
    requires pat != [] && |repl| < |pat|
    ensures |Replace(s, pat, repl)| <= |s|
    ensures Contains(s, pat) ==> |Replace(s, pat, repl)| < |s|
    decreases |s|
  {
    if s != [] {
      if StartsWith(s, pat) {
        ReplaceShrinks(s[|pat|..], pat, repl);
      } else {
        ReplaceShrinks(s[1..], pat, repl);
        if Contains(s, pat) {
          var i := Find(s, pat);
          assert i > 0;
          assert s[1..][i - 1..i - 1 + |pat|] == s[i..i + |pat|];
          assert Occurs(s[1..], pat, i - 1);
        }
      }
    }
  }

  // ---------------------------------------------------------------------------
  // split(sep) and join

  /** `s.split(sep)` with an explicit, non-empty separator: the pieces between the
      non-overlapping occurrences of `sep`, scanning from the left; empty pieces are kept. */
  function SplitOn(s: string, sep: string): (r: seq<string>)
    requires sep != []
    ensures |r| >= 1
    ensures forall k :: 0 <= k < |r| ==> !Contains(r[k], sep)
    decreases |s|
  {
    var i := Find(s, sep);
    if i < 0 then [s]
    else
      assert !Contains(s[..i], sep) by {
        if Contains(s[..i], sep) {
          var j := Find(s[..i], sep);
          assert s[..i][j..j + |sep|] == s[j..j + |sep|];
          assert Occurs(s, sep, j);
        }
      }
      [s[..i]] + SplitOn(s[i + |sep|..], sep)
  }

  /** A string that does not contain the one-character string `[c]` has no `c`. */
  lemma AbsentChar(s: string, c: char)
    requires !Contains(s, [c])
    ensures NoneIn(s, {c})
  {
    forall i | 0 <= i < |s| ensures s[i] != c {
      assert s[i..i + 1] == [s[i]];
      assert !Occurs(s, [c], i);
    }
  }

  /** `sep.join(parts)`. */
  function Join(sep: string, parts: seq<string>): string
    decreases |parts|
  {
    if parts == [] then ""
    else if |parts| == 1 then parts[0]
    else parts[0] + sep + Join(sep, parts[1..])
  }

  /** Joining the pieces of a split with the same separator gives back the string. */
  lemma {:induction false} JoinSplitOn(s: string, sep: string)
    requires sep != []
    ensures Join(sep, SplitOn(s, sep)) == s
    decreases |s|
  {
    var i := Find(s, sep);
    if i >= 0 {
      var rest := s[i + |sep|..];
      var r := SplitOn(rest, sep);
      assert SplitOn(s, sep) == [s[..i]] + r;
      JoinSplitOn(rest, sep);
      assert ([s[..i]] + r)[1..] == r;
      assert Join(sep, [s[..i]] + r) == s[..i] + sep + Join(sep, r);
      assert s[i..i + |sep|] == sep;
      assert s == s[..i] + sep + rest;
    } else {
      assert SplitOn(s, sep) == [s];
    }
  }

  /** Splitting a join on its one-character separator gives back the parts when none of
      them holds the separator. */
  lemma {:induction false} SplitOnJoin(c: char, parts: seq<string>)
    requires parts != []
    requires forall k :: 0 <= k < |parts| ==> NoneIn(parts[k], {c})
    ensures SplitOn(Join([c], parts), [c]) == parts
    decreases |parts|
  {
    var p := parts[0];
    if |parts| == 1 {
      forall i | 0 <= i < |p| ensures !Occurs(p, [c], i) {
        assert p[i..i + 1] == [p[i]];
      }
      assert !Contains(p, [c]);
    } else {
      var rest := Join([c], parts[1..]);
      var s := p + [c] + rest;
      assert Join([c], parts) == s;
      assert Occurs(s, [c], |p|);
      forall i | 0 <= i < |p| ensures !Occurs(s, [c], i) {
        assert s[i] == p[i];
      }
      assert Find(s, [c]) == |p|;
      assert s[..|p|] == p;
      assert s[|p| + 1..] == rest;
      assert SplitOn(s, [c]) == [p] + SplitOn(rest, [c]);
      SplitOnJoin(c, parts[1..]);
      assert parts == [p] + parts[1..];
    }
  }

  /** A join that is not all whitespace, with a whitespace separator, has a part that is
      not all whitespace. */
  lemma {:induction false} NonBlankPart(sep: string, parts: seq<string>) returns (k: nat)
    requires parts != [] && AllIn(sep, Whitespace)
    requires !AllIn(Join(sep, parts), Whitespace)
    ensures k < |parts| && !AllIn(parts[k], Whitespace)
    decreases |parts|
  {
    if |parts| == 1 || !AllIn(parts[0], Whitespace) {
      k := 0;
    } else {
      var rest := Join(sep, parts[1..]);
      assert Join(sep, parts) == parts[0] + sep + rest;
      var k' := NonBlankPart(sep, parts[1..]);
      k := k' + 1;
    }
  }

  /** The join of one more part. */
  lemma {:induction false} JoinSnoc(sep: string, parts: seq<string>, last: string)
    requires parts != []
    ensures Join(sep, parts + [last]) == Join(sep, parts) + sep + last
    decreases |parts|
  {
    if |parts| > 1 {
      assert (parts + [last])[1..] == parts[1..] + [last];
      JoinSnoc(sep, parts[1..], last);
    } else {
      assert (parts + [last])[1..] == [last];
    }
  }

  /** `lstrip` of a join strips only its first part, when that part holds a character
      outside `chars`. */
  lemma LStripJoin(sep: string, parts: seq<string>, chars: set<char>)
    requires parts != [] && LStrip(parts[0], chars) != []
    ensures LStrip(Join(sep, parts), chars) == Join(sep, [LStrip(parts[0], chars)] + parts[1..])
  {
    var head := [LStrip(parts[0], chars)] + parts[1..];
    if |parts| > 1 {
      assert head[1..] == parts[1..];
      LStripConcat(parts[0], sep + Join(sep, parts[1..]), chars);
      assert parts[0] + sep + Join(sep, parts[1..]) == parts[0] + (sep + Join(sep, parts[1..]));
    }
  }

  /** `rstrip` of a join strips only its last part, when that part holds a character
      outside `chars`. */
  lemma RStripJoin(sep: string, parts: seq<string>, chars: set<char>)
    requires parts != [] && RStrip(parts[|parts| - 1], chars) != []
    ensures RStrip(Join(sep, parts), chars) ==
            Join(sep, parts[..|parts| - 1] + [RStrip(parts[|parts| - 1], chars)])
  {
    var n := |parts| - 1;
    var last := parts[n];
    if n == 0 {
      assert parts[..n] + [RStrip(last, chars)] == [RStrip(last, chars)];
    } else {
      assert parts[..n] + [last] == parts;
      JoinSnoc(sep, parts[..n], last);
      JoinSnoc(sep, parts[..n], RStrip(last, chars));
      RStripConcat(Join(sep, parts[..n]) + sep, last, chars);
    }
  }

  // ---------------------------------------------------------------------------
  // splitlines

  /** The index of the first line boundary in `s`, or `|s|` when there is none. */
  function LineEnd(s: string): (r: nat)
    ensures r <= |s| && NoneIn(s[..r], LineBreaks)
    ensures r == |s| || s[r] in LineBreaks
    decreases |s|
  {
    if s == [] || s[0] in LineBreaks then 0
    else
      var r := LineEnd(s[1..]);
      assert s[..r + 1] == [s[0]] + s[1..][..r];
      r + 1
  }

  /** `s.splitlines()`: the lines of `s`, without their boundaries; a trailing boundary does
      not start a further, empty line. */
  function SplitLines(s: string): (r: seq<string>)
    ensures (r == []) == (s == [])
    ensures forall k :: 0 <= k < |r| ==> NoneIn(r[k], LineBreaks)
    ensures r != [] ==> r[0] == s[..LineEnd(s)]
    decreases |s|
  {
    if s == [] then []
    else
      var i := LineEnd(s);
      if i == |s| then [s]
      else
        var width := if s[i] == '\r' && i + 1 < |s| && s[i + 1] == '\n' then 2 else 1;
        [s[..i]] + SplitLines(s[i + width..])
  }

  // ---------------------------------------------------------------------------
  // split() without arguments

  /** The index of the first whitespace character of `s`, or `|s|` when there is none. */
  function TokenEnd(s: string): (r: nat)
    ensures r <= |s| && NoneIn(s[..r], Whitespace)
    ensures r == |s| || s[r] in Whitespace
    decreases |s|
  {
    if s == [] || s[0] in Whitespace then 0
    else
      var r := TokenEnd(s[1..]);
      assert s[..r + 1] == [s[0]] + s[1..][..r];
      r + 1
  }

  /** `s.split()`: the maximal runs of non-whitespace characters, in order. */
  function Words(s: string): (r: seq<string>)
    ensures forall k :: 0 <= k < |r| ==> r[k] != [] && NoneIn(r[k], Whitespace)
    decreases |s|
  {
    if s == [] then []
    else if s[0] in Whitespace then Words(s[1..])
    else
      var n := TokenEnd(s);
      [s[..n]] + Words(s[n..])
  }

  /** The concatenation of the strings in `parts`. */
  function Concat(parts: seq<string>): string
    decreases |parts|
  {
    if parts == [] then "" else parts[0] + Concat(parts[1..])
  }

  /** `s` with every whitespace character removed. */
  function NonSpace(s: string): string
    decreases |s|
  {
    if s == [] then ""
    else if s[0] in Whitespace then NonSpace(s[1..])
    else [s[0]] + NonSpace(s[1..])
  }

  lemma {:induction false} NonSpaceAppend(x: string, y: string)
    ensures NonSpace(x + y) == NonSpace(x) + NonSpace(y)
    decreases |x|
  {
    if x != [] {
      assert (x + y)[0] == x[0];
      assert (x + y)[1..] == x[1..] + y;
      NonSpaceAppend(x[1..], y);
    } else {
      assert x + y == y;
    }
  }

  lemma {:induction false} NonSpaceOfToken(s: string)
    requires NoneIn(s, Whitespace)
    ensures NonSpace(s) == s
    decreases |s|
  {
    if s != [] {
      NonSpaceOfToken(s[1..]);
    }
  }

  /** The words of a string are its non-whitespace characters, none lost, none added,
      in their order. */
  lemma {:induction false} WordsCoverNonSpace(s: string)
    ensures Concat(Words(s)) == NonSpace(s)
    decreases |s|
  {
    if s != [] {
      if s[0] in Whitespace {
        WordsCoverNonSpace(s[1..]);
      } else {
        var n := TokenEnd(s);
        WordsCoverNonSpace(s[n..]);
        assert s == s[..n] + s[n..];
        NonSpaceAppend(s[..n], s[n..]);
        NonSpaceOfToken(s[..n]);
      }
    }
  }

  /** A string has no words exactly when it is all whitespace. */
  lemma {:induction false} NoWordsIffBlank(s: string)
    ensures Words(s) == [] <==> AllIn(s, Whitespace)
    decreases |s|
  {
    if s != [] && s[0] in Whitespace {
      NoWordsIffBlank(s[1..]);
    }
  }

  // ---------------------------------------------------------------------------
  // lower

  /** The lower-case form of an ASCII upper-case letter; every other character is kept. */
  function LowerChar(c: char): char {
    if 'A' <= c <= 'Z' then (c as int + 32) as char else c
  }

  /** `s.lower()` restricted to the ASCII letters. */
  function Lower(s: string): (r: string)
    ensures |r| == |s|
    ensures forall i :: 0 <= i < |s| ==> r[i] == LowerChar(s[i])
  {
    seq(|s|, i requires 0 <= i < |s| => LowerChar(s[i]))
  }

  /** Lower-casing keeps every occurrence: if `t` occurs in `s`, `t.lower()` occurs in `s.lower()`. */
  lemma LowerKeepsOccurrences(s: string, t: string)
    requires Contains(s, t)
    ensures Contains(Lower(s), Lower(t))
  {
    var i := Find(s, t);
    assert Lower(s)[i..i + |t|] == Lower(t);
    assert Occurs(Lower(s), Lower(t), i);
  }

  /** Lower-casing twice is lower-casing once. */
  lemma LowerIdempotent(s: string)
    ensures Lower(Lower(s)) == Lower(s)
  {
    assert forall i :: 0 <= i < |s| ==> LowerChar(LowerChar(s[i])) == LowerChar(s[i]);
  }

  /** Lower-casing turns no character into whitespace and no whitespace into something else. */
  lemma LowerCharSpace(c: char)
    ensures LowerChar(c) in Whitespace <==> c in Whitespace
  {
  }

  /** The lower-cased form of a slice is the slice of the lower-cased string. */
  lemma LowerSlice(s: string, a: nat, b: nat)
    requires a <= b <= |s|
    ensures Lower(s)[a..b] == Lower(s[a..b])
  {
  }

  /** The end of the first token is the one index that closes a run of non-whitespace
      characters from the start. */
  lemma TokenEndIs(s: string, r: nat)
    requires r <= |s| && (forall i :: 0 <= i < r ==> s[i] !in Whitespace)
    requires r == |s| || s[r] in Whitespace
    ensures TokenEnd(s) == r
  {
    var t := TokenEnd(s);
    forall i | 0 <= i < t ensures s[i] !in Whitespace {
      assert s[..t][i] == s[i];
    }
  }

  /** Lower-casing keeps the end of the first token. */
  lemma TokenEndOfLower(s: string)
    ensures TokenEnd(Lower(s)) == TokenEnd(s)
  {
    var n := TokenEnd(s);
    var l := Lower(s);
    forall i | 0 <= i < n ensures l[i] !in Whitespace {
      assert s[..n][i] == s[i];
      LowerCharSpace(s[i]);
    }
    if n < |s| {
      LowerCharSpace(s[n]);
    }
    TokenEndIs(l, n);
  }

  /** Every string of `words`, lower-cased. */
  function LowerEach(words: seq<string>): (r: seq<string>)
    ensures |r| == |words|
  {
    seq(|words|, k requires 0 <= k < |words| => Lower(words[k]))
  }

  /** Lower-casing a string that starts with whitespace keeps that whitespace in front. */
  lemma WordsOfLowerSpace(s: string)
    requires s != [] && s[0] in Whitespace
    ensures Words(Lower(s)) == Words(Lower(s[1..]))
  {
    LowerCharSpace(s[0]);
    var l := Lower(s);
    assert l[0] == LowerChar(s[0]);
    LowerSlice(s, 1, |s|);
    assert l[1..] == Lower(s[1..]);
    assert Words(l) == Words(l[1..]);
  }

  /** Lower-casing a string that starts with a token lower-cases that token. */
  lemma WordsOfLowerToken(s: string)
    requires s != [] && s[0] !in Whitespace
    ensures Words(Lower(s)) == [Lower(s[..TokenEnd(s)])] + Words(Lower(s[TokenEnd(s)..]))
  {
    LowerCharSpace(s[0]);
    var l := Lower(s);
    assert l[0] == LowerChar(s[0]);
    var n := TokenEnd(s);
    TokenEndOfLower(s);
    assert Words(l) == [l[..n]] + Words(l[n..]);
    LowerSlice(s, 0, n);
    LowerSlice(s, n, |s|);
    assert l[..n] == Lower(s[..n]) && l[n..] == Lower(s[n..]);
  }

  lemma LowerEachCons(w: string, ws: seq<string>)
    ensures LowerEach([w] + ws) == [Lower(w)] + LowerEach(ws)
  {
    var l := LowerEach([w] + ws);
    assert forall k :: 0 < k < |l| ==> l[k] == Lower(ws[k - 1]);
  }

  /** The words of the lower-cased string are the lower-cased words. */
  lemma {:induction false} WordsOfLower(s: string)
    ensures Words(Lower(s)) == LowerEach(Words(s))
    decreases |s|
  {
    if s != [] {
      if s[0] in Whitespace {
        WordsOfLowerSpace(s);
        WordsOfLower(s[1..]);
      } else {
        var n := TokenEnd(s);
        WordsOfLowerToken(s);
        WordsOfLower(s[n..]);
        var rest := Words(s[n..]);
        assert Words(s) == [s[..n]] + rest;
        LowerEachCons(s[..n], rest);
      }
    }
  }
}
