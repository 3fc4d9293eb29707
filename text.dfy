/**
 * The parts of Python's `str` API the pipeline relies on, over ASCII text:
 * `strip()`, `strip(chars)`, `lower()`, `startswith`, `endswith`, `in`,
 * `split("\n")`, `"\n".join`, slicing `s[:n]`, `str(int)`, and the
 * markdown code-fence stripping that both the Blueprint generator and the
 * Gemini JSON parser apply to model output.
 */
module Text {

  /** Characters for which Python's `str.isspace()` holds, restricted to ASCII. */
  predicate IsSpace(c: char) {
    c == ' ' || ('\t' <= c <= '\r') || ('\U{1C}' <= c <= '\U{1F}')
  }

  predicate IsDigit(c: char) {
    '0' <= c <= '9'
  }

  predicate AllDigits(s: string) {
    forall i :: 0 <= i < |s| ==> IsDigit(s[i])
  }

  /** `str.lower()` on one ASCII character. */
  function LowerChar(c: char): (r: char)
    ensures !('A' <= r <= 'Z')
  {
    if 'A' <= c <= 'Z' then (c as int - 'A' as int + 'a' as int) as char else c
  }

  function Lower(s: string): (r: string)
    ensures |r| == |s|
    ensures forall i :: 0 <= i < |s| ==> r[i] == LowerChar(s[i])
  {
    seq(|s|, i requires 0 <= i < |s| => LowerChar(s[i]))
  }

  predicate StartsWith(s: string, prefix: string) {
    |prefix| <= |s| && s[..|prefix|] == prefix
  }

  predicate EndsWith(s: string, suffix: string) {
    |suffix| <= |s| && s[|s| - |suffix|..] == suffix
  }

  /** Python's `sub in s`. */
  predicate Contains(s: string, sub: string)
    decreases |s|
  {
    StartsWith(s, sub) || (s != [] && Contains(s[1..], sub))
  }

  /** A text that occurs in `a` also occurs in any extension of `a`. */
  lemma {:induction false} ContainsInLeft(a: string, b: string, sub: string)
    requires Contains(a, sub)
    ensures Contains(a + b, sub)
    decreases |a|
  {
    if StartsWith(a, sub) {
      assert (a + b)[..|sub|] == a[..|sub|];
    } else {
      assert (a + b)[1..] == a[1..] + b;
      ContainsInLeft(a[1..], b, sub);
    }
  }

  /** A text that occurs in `b` also occurs after any `a` is put in front of it. */
  lemma {:induction false} ContainsInRight(a: string, b: string, sub: string)
    requires Contains(b, sub)
    ensures Contains(a + b, sub)
    decreases |a|
  {
    if a != [] {
      assert (a + b)[1..] == a[1..] + b;
      ContainsInRight(a[1..], b, sub);
    } else {
      assert a + b == b;
    }
  }

  /** Whatever contains `x + y` contains `x`. */
  lemma {:induction false} ContainsPrefixOfSub(s: string, x: string, y: string)
    requires Contains(s, x + y)
    ensures Contains(s, x)
    decreases |s|
  {
    if StartsWith(s, x + y) {
      assert s[..|x|] == (x + y)[..|x|];
    } else {
      ContainsPrefixOfSub(s[1..], x, y);
    }
  }

  lemma LowerAppend(a: string, b: string)
    ensures Lower(a + b) == Lower(a) + Lower(b)
  {
  }

  /** `str.lstrip()`: drops leading whitespace, and nothing else. */
  function LStrip(s: string): (r: string)
    ensures |r| <= |s| && r == s[|s| - |r|..]
    ensures r == [] || !IsSpace(r[0])
    ensures forall i :: 0 <= i < |s| - |r| ==> IsSpace(s[i])
  {
    if s != [] && IsSpace(s[0]) then LStrip(s[1..]) else s
  }

  /** `str.rstrip()`: drops trailing whitespace, and nothing else. */
  function RStrip(s: string): (r: string)
    ensures |r| <= |s| && r == s[..|r|]
    ensures r == [] || !IsSpace(r[|r| - 1])
    ensures forall i :: |r| <= i < |s| ==> IsSpace(s[i])
  {
    if s != [] && IsSpace(s[|s| - 1]) then RStrip(s[..|s| - 1]) else s
  }

  /** `str.strip()`. */
  function Strip(s: string): (r: string)
    ensures |r| <= |s|
    ensures r == [] || (!IsSpace(r[0]) && !IsSpace(r[|r| - 1]))
  {
    RStrip(LStrip(s))
  }

  lemma StripUnchanged(s: string)
    requires s == [] || (!IsSpace(s[0]) && !IsSpace(s[|s| - 1]))
    ensures Strip(s) == s
  {
  }

  /** `str.strip(c)` for a single character `c`. */
  function StripChar(s: string, c: char): (r: string)
    ensures r == [] || (r[0] != c && r[|r| - 1] != c)
  {
    RStripChar(LStripChar(s, c), c)
  }

  /** What `strip(c)` keeps is a contiguous slice of its input. */
  lemma StripCharSlice(s: string, c: char) returns (i: nat, j: nat)
    ensures i <= j <= |s| && StripChar(s, c) == s[i..j]
  {
    var l := LStripChar(s, c);
    i := |s| - |l|;
    var r := StripChar(s, c);
    j := i + |r|;
    assert l == s[i..];
    assert r == l[..|r|];
    assert s[i..j] == l[..|r|];
  }

  function LStripChar(s: string, c: char): (r: string)
    ensures |r| <= |s| && r == s[|s| - |r|..]
    ensures r == [] || r[0] != c
    ensures forall i :: 0 <= i < |s| - |r| ==> s[i] == c
  {
    if s != [] && s[0] == c then LStripChar(s[1..], c) else s
  }

  function RStripChar(s: string, c: char): (r: string)
    ensures |r| <= |s| && r == s[..|r|]
    ensures r == [] || (r[|r| - 1] != c && (s[0] != c ==> r[0] != c))
    ensures forall i :: |r| <= i < |s| ==> s[i] == c
  {
    if s != [] && s[|s| - 1] == c then RStripChar(s[..|s| - 1], c) else s
  }

  lemma StripCharUnchanged(s: string, c: char)
    requires s == [] || (s[0] != c && s[|s| - 1] != c)
    ensures StripChar(s, c) == s
  {
  }

  /** Python's prefix slice `s[:n]`, including its meaning for a negative `n`. */
  function Take(s: string, n: int): (r: string)
    ensures n >= 0 ==> |r| == if n < |s| then n else |s|
    ensures StartsWith(s, r)
  {
    if n >= 0 then (if n < |s| then s[..n] else s)
    else if |s| + n > 0 then s[..|s| + n] else []
  }

  /** `s.replace(a, b)` for single characters. */
  function ReplaceChar(s: string, a: char, b: char): (r: string)
    ensures |r| == |s|
    ensures forall i :: 0 <= i < |s| ==> r[i] == if s[i] == a then b else s[i]
  {
    seq(|s|, i requires 0 <= i < |s| => if s[i] == a then b else s[i])
  }

  /** Index of the last occurrence of `c` in `s`, or -1 (like `str.rfind`). */
  function LastIndexOf(s: string, c: char): (k: int)
    ensures -1 <= k < |s|
    ensures k >= 0 ==> s[k] == c
    ensures forall i :: k < i < |s| ==> s[i] != c
  {
    if s == [] then -1
    else if s[|s| - 1] == c then |s| - 1
    else LastIndexOf(s[..|s| - 1], c)
  }

  /** Number of decimal digits at the end of `s`. */
  function TrailingDigits(s: string): (n: nat)
    ensures n <= |s|
    ensures AllDigits(s[|s| - n..])
    ensures n < |s| ==> !IsDigit(s[|s| - n - 1])
  {
    if s != [] && IsDigit(s[|s| - 1]) then
      var n := TrailingDigits(s[..|s| - 1]);
      assert s[|s| - (n + 1)..] == s[..|s| - 1][|s| - 1 - n..] + [s[|s| - 1]];
      n + 1
    else 0
  }

  /** `str(n)` for a natural number. */
  function NatToString(n: nat): (r: string)
    ensures |r| >= 1 && AllDigits(r)
  {
    var d := ['0', '1', '2', '3', '4', '5', '6', '7', '8', '9'][n % 10];
    if n < 10 then [d] else NatToString(n / 10) + [d]
  }

  /** `str(i)` for an integer. */
  function IntToString(i: int): string {
    if i < 0 then "-" + NatToString(-i) else NatToString(i)
  }

  /** `s.split(c)`: the pieces between occurrences of `c`; never empty. */
  function Split(s: string, c: char): (r: seq<string>)
    ensures |r| >= 1
  {
    if s == [] then [""]
    else
      var rest := Split(s[1..], c);
      if s[0] == c then [""] + rest else [[s[0]] + rest[0]] + rest[1..]
  }

  /** `sep.join(parts)`. */
  function Join(sep: string, parts: seq<string>): string {
    if |parts| == 0 then ""
    else if |parts| == 1 then parts[0]
    else parts[0] + sep + Join(sep, parts[1..])
  }

  /** A join starts with its first part and ends with its last. */
  lemma {:induction false} JoinEnds(sep: string, parts: seq<string>)
    requires parts != []
    ensures StartsWith(Join(sep, parts), parts[0])
    ensures EndsWith(Join(sep, parts), parts[|parts| - 1])
  {
    if |parts| > 1 {
      JoinEnds(sep, parts[1..]);
      var rest := Join(sep, parts[1..]);
      assert Join(sep, parts) == parts[0] + sep + rest;
      assert (parts[0] + sep + rest)[..|parts[0]|] == parts[0];
      var last := parts[|parts| - 1];
      assert (parts[0] + sep + rest)[|parts[0] + sep + rest| - |last|..] == rest[|rest| - |last|..];
    }
  }

  /** Joining the pieces of a split with the same separator gives the text back. */
  lemma {:induction false} JoinSplit(s: string, c: char)
    ensures Join([c], Split(s, c)) == s
  {
    if s != [] {
      var rest := Split(s[1..], c);
      JoinSplit(s[1..], c);
      if s[0] == c {
        assert Split(s, c) == [""] + rest;
        assert ([""] + rest)[1..] == rest;
      } else if |rest| > 1 {
        assert Split(s, c) == [[s[0]] + rest[0]] + rest[1..];
        assert Join([c], rest) == rest[0] + [c] + Join([c], rest[1..]);
        assert ([[s[0]] + rest[0]] + rest[1..])[1..] == rest[1..];
        assert s == [s[0]] + s[1..];
      } else {
        assert s == [s[0]] + s[1..];
      }
    }
  }

  /** One unfolding step of `Split`. */
  lemma SplitCons(x: char, t: string, c: char)
    ensures Split([x] + t, c) ==
      if x == c then [""] + Split(t, c) else [[x] + Split(t, c)[0]] + Split(t, c)[1..]
  {
    assert ([x] + t)[0] == x && ([x] + t)[1..] == t;
  }

  /** Prepending a character to a split whose first piece is shared. */
  lemma ConsOntoPieces(x: char, c: char, ra: seq<string>, rb: seq<string>, rest: seq<string>)
    requires |ra| >= 1 && rest == ra + rb
    ensures (if x == c then [""] + rest else [[x] + rest[0]] + rest[1..]) ==
            (if x == c then [""] + ra else [[x] + ra[0]] + ra[1..]) + rb
  {
    if x != c {
      assert rest[0] == ra[0];
      assert rest[1..] == ra[1..] + rb;
    }
  }

  /** A separator splits the text into the pieces of each side. */
  lemma {:induction false} SplitAround(a: string, b: string, c: char)
    ensures Split(a + [c] + b, c) == Split(a, c) + Split(b, c)
  {
    if a == [] {
      assert a + [c] + b == [c] + b;
      SplitCons(c, b, c);
    } else {
      var t := a[1..];
      assert a == [a[0]] + t;
      assert a + [c] + b == [a[0]] + (t + [c] + b);
      SplitAround(t, b, c);
      SplitCons(a[0], t + [c] + b, c);
      SplitCons(a[0], t, c);
      ConsOntoPieces(a[0], c, Split(t, c), Split(b, c), Split(t + [c] + b, c));
    }
  }

  lemma SplitWithout(s: string, c: char)
    requires c !in s
    ensures Split(s, c) == [s]
  {
    if s != [] {
      SplitWithout(s[1..], c);
      assert s == [s[0]] + s[1..];
    }
  }

  const Fence := "```"

  /**
   * Strips a markdown code fence from model output: the text is trimmed;
   * if it starts with three backticks, its first line is dropped, and its
   * last line too when that line trims to exactly three backticks.
   */
  function StripCodeFences(text: string): (r: string)
    ensures !StartsWith(Strip(text), Fence) ==> r == Strip(text)
  {
    var t := Strip(text);
    if !StartsWith(t, Fence) then t else Join("\n", DropFenceLines(Split(t, '\n')))
  }

  /** The line-level part of fence stripping: the opening line, then a closing fence line. */
  function DropFenceLines(lines: seq<string>): seq<string>
    requires |lines| >= 1
  {
    var body := if StartsWith(lines[0], Fence) then lines[1..] else lines;
    if |body| > 0 && Strip(body[|body| - 1]) == Fence then body[..|body| - 1] else body
  }

  /** The lines of a fenced block are the fence line, the body's lines and the closing fence. */
  lemma FencedLines(lang: string, body: string)
    requires '\n' !in lang
    ensures Split(Fence + lang + "\n" + body + "\n" + Fence, '\n')
         == [Fence + lang] + Split(body, '\n') + [Fence]
  {
    var head := Fence + lang;
    var tail := body + "\n" + Fence;
    assert Fence + lang + "\n" + body + "\n" + Fence == head + ['\n'] + tail;
    assert '\n' !in head;
    SplitWithout(head, '\n');
    SplitWithout(Fence, '\n');
    SplitAround(head, tail, '\n');
    assert tail == body + ['\n'] + Fence;
    SplitAround(body, Fence, '\n');
  }

  lemma FencedTextTrimmed(lang: string, body: string)
    ensures var t := Fence + lang + "\n" + body + "\n" + Fence; Strip(t) == t && StartsWith(t, Fence)
  {
    var t := Fence + lang + "\n" + body + "\n" + Fence;
    var after := lang + "\n" + body + "\n" + Fence;
    assert t == Fence + after;
    assert t[..|Fence|] == Fence;
    assert t[0] == '`' && t[|t| - 1] == '`';
    StripUnchanged(t);
  }

  lemma DropFenceLinesOfFenced(lang: string, lines: seq<string>)
    ensures DropFenceLines([Fence + lang] + lines + [Fence]) == lines
  {
    var all := [Fence + lang] + lines + [Fence];
    assert (Fence + lang)[..|Fence|] == Fence;
    var rest := all[1..];
    assert rest == lines + [Fence];
    StripUnchanged(Fence);
    assert rest[..|rest| - 1] == lines;
  }

  /** Wrapping any text in an opening fence line and a closing fence line, then stripping, gives it back. */
  lemma FencedRoundTrip(lang: string, body: string)
    requires '\n' !in lang
    ensures StripCodeFences(Fence + lang + "\n" + body + "\n" + Fence) == body
  {
    var t := Fence + lang + "\n" + body + "\n" + Fence;
    FencedTextTrimmed(lang, body);
    FencedLines(lang, body);
    DropFenceLinesOfFenced(lang, Split(body, '\n'));
    JoinSplit(body, '\n');
  }
}
