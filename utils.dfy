/**
 * String helpers of the pipeline: slugs for file names and tags, display
 * truncation, short author lists and arXiv URLs. Python's `str.lower()` and
 * the regular expressions are modelled over ASCII.
 */
module Utils {
  import opened Text

  /** Characters that survive `re.sub(r"[^a-z0-9]+", "-", ...)` unchanged. */
  predicate IsAlnumLower(c: char) {
    'a' <= c <= 'z' || IsDigit(c)
  }

  predicate IsSlugChar(c: char) {
    IsAlnumLower(c) || c == '-'
  }

  predicate NoDoubleHyphen(s: string) {
    forall i :: 0 <= i < |s| - 1 ==> !(s[i] == '-' && s[i + 1] == '-')
  }

  predicate SlugChars(s: string) {
    forall i :: 0 <= i < |s| ==> IsSlugChar(s[i])
  }

  /** The shape every slug has: a-z, 0-9 and single hyphens, never at either end. */
  predicate IsSlug(s: string) {
    SlugChars(s) && NoDoubleHyphen(s) && (s != [] ==> s[0] != '-' && s[|s| - 1] != '-')
  }

  // ---------------------------------------------------------------------------
  // slugify

  /** `re.sub(r"^(a|an|the)\s+", "", t)`: one leading article and the whitespace after it. */
  function DropArticle(t: string): string {
    if |t| > 1 && t[0] == 'a' && IsSpace(t[1]) then LStrip(t[1..])
    else if |t| > 2 && t[0] == 'a' && t[1] == 'n' && IsSpace(t[2]) then LStrip(t[2..])
    else if |t| > 3 && t[0] == 't' && t[1] == 'h' && t[2] == 'e' && IsSpace(t[3]) then LStrip(t[3..])
    else t
  }

  function SkipNonAlnum(s: string): (r: string)
    ensures |r| <= |s| && r == s[|s| - |r|..]
    ensures r == [] || IsAlnumLower(r[0])
  {
    if s != [] && !IsAlnumLower(s[0]) then
      var r := SkipNonAlnum(s[1..]);
      assert s[1..][|s| - 1 - |r|..] == s[|s| - |r|..];
      r
    else s
  }

  /** The characters of `s` in a-z0-9, in order. */
  function Alnums(s: string): string {
    if s == [] then [] else (if IsAlnumLower(s[0]) then [s[0]] else []) + Alnums(s[1..])
  }

  /**
   * The number of maximal runs of characters outside a-z0-9 in `s`, counted
   * by a left-to-right scan; `afterAlnum` says whether the character before
   * `s` (if any) was in a-z0-9, with the start of the text counting as one.
   */
  function RunsFrom(s: string, afterAlnum: bool): nat {
    if s == [] then 0
    else (if afterAlnum && !IsAlnumLower(s[0]) then 1 else 0) + RunsFrom(s[1..], IsAlnumLower(s[0]))
  }

  function Runs(s: string): nat {
    RunsFrom(s, true)
  }

  function HyphenCount(s: string): nat {
    if s == [] then 0 else (if s[0] == '-' then 1 else 0) + HyphenCount(s[1..])
  }

  lemma {:induction false} SkipKeepsAlnums(t: string)
    ensures Alnums(SkipNonAlnum(t)) == Alnums(t)
    ensures RunsFrom(SkipNonAlnum(t), true) == RunsFrom(t, false)
  {
    if t != [] && !IsAlnumLower(t[0]) {
      SkipKeepsAlnums(t[1..]);
    }
  }

  /** `re.sub(r"[^a-z0-9]+", "-", s)`: each maximal run of other characters becomes one hyphen. */
  function Hyphenate(s: string): (r: string)
    ensures SlugChars(r) && NoDoubleHyphen(r)
    ensures s != [] && IsAlnumLower(s[0]) ==> r != [] && r[0] == s[0]
    ensures s != [] && !IsAlnumLower(s[0]) ==> r != [] && r[0] == '-'
    ensures s == [] <==> r == []
    ensures Alnums(r) == Alnums(s)
    ensures HyphenCount(r) == Runs(s)
    decreases |s|
  {
    if s == [] then []
    else if IsAlnumLower(s[0]) then
      var rest := Hyphenate(s[1..]);
      assert ([s[0]] + rest)[1..] == rest;
      [s[0]] + rest
    else
      SkipKeepsAlnums(s[1..]);
      var rest := Hyphenate(SkipNonAlnum(s[1..]));
      assert ("-" + rest)[1..] == rest;
      "-" + rest
  }

  /** Skipping a run stops at the first a-z0-9 character, so text after one is untouched. */
  lemma {:induction false} SkipAppend(x: string, t: string)
    requires t != [] && IsAlnumLower(t[0])
    ensures SkipNonAlnum(x + t) == SkipNonAlnum(x) + t
  {
    if x == [] {
      assert x + t == t;
    } else {
      assert (x + t)[1..] == x[1..] + t;
      SkipAppend(x[1..], t);
    }
  }

  /**
   * The substitution is local: the result splits right after every a-z0-9
   * character of the input, so each run becomes its hyphen where it stood.
   */
  lemma {:induction false} HyphenateSplitsAtAlnum(a: string, c: char, b: string)
    requires IsAlnumLower(c)
    ensures Hyphenate(a + [c] + b) == Hyphenate(a + [c]) + Hyphenate(b)
    decreases |a|, 1
  {
    if a == [] {
      assert a + [c] + b == [c] + b && a + [c] == [c];
      HyphenateAlnumHead([c], b);
    } else if IsAlnumLower(a[0]) {
      SplitAfterAlnumHead(a, c, b);
    } else {
      SplitAfterRunHead(a, c, b);
    }
  }

  lemma {:induction false} SplitAfterAlnumHead(a: string, c: char, b: string)
    requires IsAlnumLower(c) && a != [] && IsAlnumLower(a[0])
    ensures Hyphenate(a + [c] + b) == Hyphenate(a + [c]) + Hyphenate(b)
    decreases |a|, 0
  {
    var whole, part, tail := Hyphenate(a[1..] + [c] + b), Hyphenate(a[1..] + [c]), Hyphenate(b);
    assert whole == part + tail by {
      HyphenateSplitsAtAlnum(a[1..], c, b);
    }
    assert Hyphenate(a + [c] + b) == [a[0]] + whole by {
      HyphenateAlnumHeadWithTail(a, c, b);
    }
    assert Hyphenate(a + [c]) == [a[0]] + part by {
      HyphenateAlnumHeadWithTail(a, c, []);
      assert a + [c] + [] == a + [c] && a[1..] + [c] + [] == a[1..] + [c];
    }
    PrefixKeepsSplit([a[0]], Hyphenate(a + [c] + b), Hyphenate(a + [c]), whole, part, tail);
  }

  lemma {:induction false} SplitAfterRunHead(a: string, c: char, b: string)
    requires IsAlnumLower(c) && a != [] && !IsAlnumLower(a[0])
    ensures Hyphenate(a + [c] + b) == Hyphenate(a + [c]) + Hyphenate(b)
    decreases |a|, 0
  {
    var y := SkipNonAlnum(a[1..]);
    var whole, part, tail := Hyphenate(y + [c] + b), Hyphenate(y + [c]), Hyphenate(b);
    assert whole == part + tail by {
      HyphenateSplitsAtAlnum(y, c, b);
    }
    assert Hyphenate(a + [c] + b) == "-" + whole by {
      HyphenateRunHeadWithTail(a, c, b);
    }
    assert Hyphenate(a + [c]) == "-" + part by {
      HyphenateRunHead(a, [c]);
    }
    PrefixKeepsSplit("-", Hyphenate(a + [c] + b), Hyphenate(a + [c]), whole, part, tail);
  }

  /** The same prefix on both sides keeps a split. */
  lemma PrefixKeepsSplit(h: string, x: string, y: string, w: string, p: string, t: string)
    requires x == h + w && y == h + p && w == p + t
    ensures x == y + t
  {
  }

  /** The a-z0-9 head case with the text after `c` left intact. */
  lemma HyphenateAlnumHeadWithTail(a: string, c: char, b: string)
    requires a != [] && IsAlnumLower(a[0])
    ensures Hyphenate(a + [c] + b) == [a[0]] + Hyphenate(a[1..] + [c] + b)
  {
    var s := a + [c] + b;
    assert s[0] == a[0] && s[1..] == a[1..] + [c] + b;
  }

  /** The run head case with the text after `c` left intact. */
  lemma HyphenateRunHeadWithTail(a: string, c: char, b: string)
    requires a != [] && !IsAlnumLower(a[0]) && IsAlnumLower(c)
    ensures Hyphenate(a + [c] + b) == "-" + Hyphenate(SkipNonAlnum(a[1..]) + [c] + b)
  {
    var y := SkipNonAlnum(a[1..]);
    assert a + [c] + b == a + ([c] + b);
    assert y + [c] + b == y + ([c] + b);
    HyphenateRunHead(a, [c] + b);
  }

  /** The head case for an a-z0-9 first character, with a tail appended. */
  lemma HyphenateAlnumHead(t: string, b: string)
    requires t != [] && IsAlnumLower(t[0])
    ensures Hyphenate(t + b) == [t[0]] + Hyphenate(t[1..] + b)
    ensures Hyphenate(t) == [t[0]] + Hyphenate(t[1..])
  {
    assert (t + b)[0] == t[0] && (t + b)[1..] == t[1..] + b;
  }

  /** The head case for a run: it becomes one hyphen and is skipped. */
  lemma HyphenateRunStep(s: string)
    requires s != [] && !IsAlnumLower(s[0])
    ensures Hyphenate(s) == "-" + Hyphenate(SkipNonAlnum(s[1..]))
  {
  }

  /** The head case for a run, when text starting with a-z0-9 follows it. */
  lemma HyphenateRunHead(a: string, u: string)
    requires a != [] && !IsAlnumLower(a[0]) && u != [] && IsAlnumLower(u[0])
    ensures Hyphenate(a + u) == "-" + Hyphenate(SkipNonAlnum(a[1..]) + u)
  {
    assert (a + u)[0] == a[0] && (a + u)[1..] == a[1..] + u;
    HyphenateRunStep(a + u);
    SkipAppend(a[1..], u);
  }

  /** `u.rsplit("-", 1)[0]`: everything before the last hyphen, or `u` if it has none. */
  function CutAtLastHyphen(u: string): string {
    var k := LastIndexOf(u, '-');
    if k < 0 then u else u[..k]
  }

  /** The slug before the length limit is applied. */
  function SlugBody(text: string): string {
    StripChar(Hyphenate(DropArticle(Strip(Lower(text)))), '-')
  }

  /** The length limit of `slugify`: an over-long slug is cut back to its last hyphen within the limit. */
  function LimitSlug(body: string, maxLength: nat): string {
    if |body| > maxLength then CutAtLastHyphen(body[..maxLength]) else body
  }

  /** `slugify(text, max_length)`. */
  function Slugify(text: string, maxLength: nat): string {
    LimitSlug(SlugBody(text), maxLength)
  }

  /** Trimming the hyphens off a hyphenated string leaves a slug. */
  lemma TrimmedHyphenationIsSlug(h: string)
    requires SlugChars(h) && NoDoubleHyphen(h)
    ensures IsSlug(StripChar(h, '-'))
  {
    var i, j := StripCharSlice(h, '-');
    assert forall k :: 0 <= k < j - i ==> StripChar(h, '-')[k] == h[i + k];
  }

  lemma SlugBodyIsSlug(text: string)
    ensures IsSlug(SlugBody(text))
  {
    TrimmedHyphenationIsSlug(Hyphenate(DropArticle(Strip(Lower(text)))));
  }

  lemma {:induction false} CutKeepsSlug(u: string)
    requires SlugChars(u) && NoDoubleHyphen(u) && (u != [] ==> u[0] != '-')
    ensures IsSlug(CutAtLastHyphen(u))
    ensures StartsWith(u, CutAtLastHyphen(u))
  {
    var k := LastIndexOf(u, '-');
    if k >= 0 {
      assert k > 0;
      assert u[k - 1] != '-';
    }
  }

  lemma LimitKeepsSlug(body: string, maxLength: nat)
    requires IsSlug(body)
    ensures IsSlug(LimitSlug(body, maxLength))
    ensures |LimitSlug(body, maxLength)| <= maxLength
  {
    if |body| > maxLength {
      CutKeepsSlug(body[..maxLength]);
    }
  }

  /** A slug is made of a-z, 0-9 and single inner hyphens, and fits the length limit. */
  lemma SlugifyIsSlug(text: string, maxLength: nat)
    ensures IsSlug(Slugify(text, maxLength))
    ensures |Slugify(text, maxLength)| <= maxLength
  {
    SlugBodyIsSlug(text);
    LimitKeepsSlug(SlugBody(text), maxLength);
  }

  lemma CutPrefixShape(body: string, maxLength: nat)
    requires |body| > maxLength
    ensures var r := CutAtLastHyphen(body[..maxLength]);
      StartsWith(body, r) &&
      ((r == body[..maxLength] && forall i :: 0 <= i < maxLength ==> body[i] != '-') ||
       (|r| < maxLength && body[|r|] == '-' && forall i :: |r| < i < maxLength ==> body[i] != '-'))
  {
    var u := body[..maxLength];
    assert forall i :: 0 <= i < maxLength ==> u[i] == body[i];
    var k := LastIndexOf(u, '-');
    if k >= 0 {
      assert CutAtLastHyphen(u) == body[..k];
    }
  }

  /**
   * When the slug is too long it is cut at the last hyphen among its first
   * `maxLength` characters; if there is none, those characters are kept whole.
   */
  lemma SlugifyCutsAtHyphen(text: string, maxLength: nat)
    requires |SlugBody(text)| > maxLength
    ensures var body, r := SlugBody(text), Slugify(text, maxLength);
      StartsWith(body, r) &&
      ((r == body[..maxLength] && forall i :: 0 <= i < maxLength ==> body[i] != '-') ||
       (|r| < maxLength && body[|r|] == '-' && forall i :: |r| < i < maxLength ==> body[i] != '-'))
  {
    CutPrefixShape(SlugBody(text), maxLength);
  }

  // The identity lemmas behind idempotence: each step leaves a slug unchanged.

  lemma LowerOfSlug(s: string)
    requires SlugChars(s)
    ensures Lower(s) == s
  {
    assert forall i :: 0 <= i < |s| ==> Lower(s)[i] == s[i];
  }

  lemma {:induction false} HyphenateOfSlug(s: string)
    requires SlugChars(s) && NoDoubleHyphen(s)
    ensures Hyphenate(s) == s
    decreases |s|
  {
    if s != [] {
      var rest := s[1..];
      assert SlugChars(rest) && NoDoubleHyphen(rest);
      HyphenateOfSlug(rest);
      assert s == [s[0]] + rest;
      if IsAlnumLower(s[0]) {
        assert Hyphenate(s) == [s[0]] + Hyphenate(rest);
      } else {
        assert rest == [] || IsAlnumLower(rest[0]);
        assert SkipNonAlnum(rest) == rest;
        assert Hyphenate(s) == "-" + Hyphenate(rest);
      }
    }
  }

  lemma SlugBodyOfSlug(s: string)
    requires IsSlug(s)
    ensures SlugBody(s) == s
  {
    LowerOfSlug(s);
    StripUnchanged(s);
    assert forall i :: 0 <= i < |s| ==> !IsSpace(s[i]);
    assert DropArticle(s) == s;
    HyphenateOfSlug(s);
    StripCharUnchanged(s, '-');
  }

  /** Slugifying a slug again with the same limit changes nothing. */
  lemma SlugifyIdempotent(text: string, maxLength: nat)
    ensures Slugify(Slugify(text, maxLength), maxLength) == Slugify(text, maxLength)
  {
    SlugifyIsSlug(text, maxLength);
    SlugifyOfSlug(Slugify(text, maxLength), maxLength);
  }

  /** A slug within the limit is its own slug. */
  lemma SlugifyOfSlug(s: string, maxLength: nat)
    requires IsSlug(s) && |s| <= maxLength
    ensures Slugify(s, maxLength) == s
  {
    SlugBodyOfSlug(s);
  }

  lemma {:induction false} LStripSpaces(sp: string, y: string)
    requires forall i :: 0 <= i < |sp| ==> IsSpace(sp[i])
    requires y == [] || !IsSpace(y[0])
    ensures LStrip(sp + y) == y
  {
    if sp != [] {
      assert (sp + y)[1..] == sp[1..] + y;
      LStripSpaces(sp[1..], y);
    }
  }

  /** The article rule removes exactly one leading "a", "an" or "the" and the whitespace after it. */
  lemma DropOneArticle(w: string, sp: string, y: string)
    requires w == "a" || w == "an" || w == "the"
    requires |sp| > 0 && forall i :: 0 <= i < |sp| ==> IsSpace(sp[i])
    requires y == [] || !IsSpace(y[0])
    ensures DropArticle(w + sp + y) == y
  {
    var t := w + sp + y;
    assert t[|w|..] == sp + y;
    assert t[|w|] == sp[0];
    LStripSpaces(sp, y);
    if w == "a" {
      assert t[0] == 'a' && IsSpace(t[1]);
    } else if w == "an" {
      assert t[0] == 'a' && t[1] == 'n' && IsSpace(t[2]) && !IsSpace(t[1]);
    } else {
      assert t[0] == 't' && t[1] == 'h' && t[2] == 'e' && IsSpace(t[3]);
      assert !(t[0] == 'a');
    }
  }

  // ---------------------------------------------------------------------------
  // truncate

  /** `truncate(text, max_length)`, including Python's slice for a `max_length` below 3. */
  function Truncate(text: string, maxLength: int): (r: string)
    ensures |text| <= maxLength ==> r == text
    ensures |text| > maxLength >= 3 ==>
      |r| == maxLength && r == text[..maxLength - 3] + "..."
  {
    if |text| <= maxLength then text else Take(text, maxLength - 3) + "..."
  }

  // ---------------------------------------------------------------------------
  // authors

  /** The maximal whitespace-free suffix of `t`. */
  function LastWord(t: string): (w: string)
    ensures |w| <= |t| && w == t[|t| - |w|..]
    ensures forall i :: 0 <= i < |w| ==> !IsSpace(w[i])
    ensures |w| < |t| ==> IsSpace(t[|t| - |w| - 1])
    ensures t != [] && !IsSpace(t[|t| - 1]) ==> |w| > 0
  {
    if t == [] || IsSpace(t[|t| - 1]) then []
    else
      var u, c := t[..|t| - 1], t[|t| - 1];
      var w := LastWord(u);
      assert t == u + [c];
      assert t[|t| - |w| - 1..] == w + [c];
      assert |w| + 1 < |t| ==> t[|t| - |w| - 2] == u[|u| - |w| - 1];
      w + [c]
  }

  predicate IsWord(w: string) {
    w != [] && forall i :: 0 <= i < |w| ==> !IsSpace(w[i])
  }

  /** `s.split()`: the maximal runs of non-whitespace characters, in order. */
  function Words(s: string): (r: seq<string>)
    ensures forall k :: 0 <= k < |r| ==> IsWord(r[k])
    ensures r == [] <==> RStrip(s) == []
    decreases |s|
  {
    var t := RStrip(s);
    if t == [] then []
    else
      var w := LastWord(t);
      Words(t[..|t| - |w|]) + [w]
  }

  /** `_last_name(full_name)`. */
  function LastName(fullName: string): string {
    var parts := Words(Strip(fullName));
    if parts == [] then fullName else parts[|parts| - 1]
  }

  /**
   * The last name is the last whitespace-separated token of the trimmed
   * name: a non-empty, whitespace-free suffix preceded by whitespace or by
   * nothing. A name with no token comes back unchanged.
   */
  lemma LastNameIsLastToken(fullName: string)
    ensures var t, r := Strip(fullName), LastName(fullName);
      if t == [] then r == fullName
      else IsWord(r) && EndsWith(t, r) && (|r| == |t| || IsSpace(t[|t| - |r| - 1]))
  {
    var t := Strip(fullName);
    if t != [] {
      WordsOfTrimmed(t);
      assert LastName(fullName) == LastWord(t);
      LastWordIsToken(t);
    }
  }

  lemma LastWordIsToken(t: string)
    requires t != [] && !IsSpace(t[|t| - 1])
    ensures var w := LastWord(t);
      IsWord(w) && EndsWith(t, w) && (|w| == |t| || IsSpace(t[|t| - |w| - 1]))
  {
  }

  lemma WordsOfTrimmed(t: string)
    requires t != [] && !IsSpace(t[|t| - 1])
    ensures Words(t) != [] && Words(t)[|Words(t)| - 1] == LastWord(t)
  {
    assert RStrip(t) == t;
  }

  /** `format_authors_short(authors)`. */
  function FormatAuthorsShort(authors: seq<string>): (r: string)
    ensures authors == [] ==> r == "Unknown"
    ensures authors != [] ==> StartsWith(r, LastName(authors[0]))
    ensures |authors| == 1 ==> r == LastName(authors[0])
    ensures |authors| == 2 ==> EndsWith(r, " & " + LastName(authors[1])) && |r| == |LastName(authors[0])| + 3 + |LastName(authors[1])|
    ensures |authors| >= 3 ==> EndsWith(r, " et al.") && |r| == |LastName(authors[0])| + 7
  {
    if |authors| == 0 then "Unknown"
    else if |authors| == 1 then LastName(authors[0])
    else
      var first := LastName(authors[0]);
      if |authors| == 2 then
        var second := " & " + LastName(authors[1]);
        assert (first + second)[..|first|] == first && (first + second)[|first|..] == second;
        first + second
      else
        assert (first + " et al.")[..|first|] == first && (first + " et al.")[|first|..] == " et al.";
        first + " et al."
  }

  // ---------------------------------------------------------------------------
  // arXiv URLs

  /** `re.sub(r"v\d+$", "", arxiv_id)`: drops one trailing "v" followed by digits. */
  function StripVersionSuffix(id: string): string {
    var n := TrailingDigits(id);
    if 0 < n < |id| && id[|id| - n - 1] == 'v' then id[..|id| - n - 1] else id
  }

  const AbsBase := "https://arxiv.org/abs/"
  const PdfBase := "https://arxiv.org/pdf/"

  /** `arxiv_id` ends in "v" followed by one or more digits; `k` is the position of that "v". */
  predicate VersionAt(id: string, k: int) {
    0 <= k < |id| - 1 && id[k] == 'v' && AllDigits(id[k + 1..])
  }

  predicate HasVersionSuffix(id: string) {
    exists k :: 0 <= k < |id| && VersionAt(id, k)
  }

  lemma VersionedStrips(id: string, k: int)
    requires VersionAt(id, k)
    ensures StripVersionSuffix(id) == id[..k]
  {
    TrailingDigitsAfter(id[..k + 1], id[k + 1..]);
    assert id[..k + 1] + id[k + 1..] == id;
  }

  /** The id changes exactly when it carries a version suffix, and then it loses exactly that suffix. */
  lemma VersionSuffixRule(id: string)
    ensures HasVersionSuffix(id) <==> StripVersionSuffix(id) != id
    ensures forall k :: VersionAt(id, k) ==> StripVersionSuffix(id) == id[..k]
  {
    var n := TrailingDigits(id);
    if 0 < n < |id| && id[|id| - n - 1] == 'v' {
      assert VersionAt(id, |id| - n - 1);
    }
    forall k | VersionAt(id, k) ensures StripVersionSuffix(id) == id[..k] {
      VersionedStrips(id, k);
    }
  }

  /** `format_arxiv_url(arxiv_id)`: the canonical abs URL, without any version. */
  function FormatArxivUrl(id: string): (r: string)
    ensures StartsWith(r, AbsBase)
    ensures !HasVersionSuffix(id) ==> r == AbsBase + id
    ensures forall k :: VersionAt(id, k) ==> r == AbsBase + id[..k]
  {
    VersionSuffixRule(id);
    AbsBase + StripVersionSuffix(id)
  }

  /** `format_arxiv_pdf_url(arxiv_id)`: the canonical PDF URL, without any version. */
  function FormatArxivPdfUrl(id: string): (r: string)
    ensures StartsWith(r, PdfBase)
    ensures !HasVersionSuffix(id) ==> r == PdfBase + id
    ensures forall k :: VersionAt(id, k) ==> r == PdfBase + id[..k]
  {
    VersionSuffixRule(id);
    PdfBase + StripVersionSuffix(id)
  }

  lemma TrailingDigitsAfter(b: string, d: string)
    requires d != [] && AllDigits(d)
    requires b != [] && !IsDigit(b[|b| - 1])
    ensures TrailingDigits(b + d) == |d|
  {
    var s := b + d;
    assert s[|s| - |d|..] == d;
  }

  /** The version suffix "v" + digits is exactly what is removed. */
  lemma StripVersionOf(b: string, d: string)
    requires d != [] && AllDigits(d)
    ensures StripVersionSuffix(b + "v" + d) == b
  {
    TrailingDigitsAfter(b + "v", d);
    assert (b + "v" + d)[..|b|] == b;
  }

  /** Both URL forms of a versioned id point at the version-less id. */
  lemma ArxivUrlsDropVersion(b: string, d: string)
    requires d != [] && AllDigits(d)
    ensures FormatArxivUrl(b + "v" + d) == AbsBase + b
    ensures FormatArxivPdfUrl(b + "v" + d) == PdfBase + b
  {
    StripVersionOf(b, d);
  }
}
