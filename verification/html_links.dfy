/**
 The link pass `convert_html_links_to_md`. The regular expression
 `(\[([^\]]+)\]\([^)]*\.html(?:[^)]*)?\))` is restated as a deterministic
 scanner: `LinkLength` decides whether a link starts at the head of a string,
 and `RewriteLinks` walks the page left to right, rewriting each matched link
 with `replace_html_link` and resuming after it.
 */
module HtmlLinks {
  import opened Text

  /** `s` holds the five characters `.html` starting at index `i`. */
  predicate HtmlAt(s: string, i: int) {
    && 0 <= i && i + 5 <= |s|
    && s[i] == '.' && s[i + 1] == 'h' && s[i + 2] == 't' && s[i + 3] == 'm' && s[i + 4] == 'l'
  }

  predicate ContainsHtml(s: string) {
    exists i | 0 <= i <= |s| - 5 :: HtmlAt(s, i)
  }

  /** A string shorter than `.html` cannot contain it. */
  lemma ShortHasNoHtml(s: string)
    requires |s| < 5
    ensures !ContainsHtml(s)
  {
  }

  /** Occurrences of `.html` in a tail are occurrences in the whole string. */
  lemma ContainsHtmlTail(s: string, k: nat)
    requires k <= |s|
    requires !ContainsHtml(s)
    ensures !ContainsHtml(s[k..])
  {
    forall i | 0 <= i <= |s[k..]| - 5
      ensures !HtmlAt(s[k..], i)
    {
      assert !HtmlAt(s, k + i);
    }
  }

  // ---------------------------------------------------------------------------
  // Rewriting inside one matched link (`replace_html_link`)
  // ---------------------------------------------------------------------------

  /** Every `.html` becomes `.md`, scanning left to right without overlaps. */
  function ReplaceHtml(s: string): (r: string)
    ensures |r| <= |s|
    ensures s != [] ==> r != [] && r[0] == s[0]
    decreases |s|
  {
    if s == [] then []
    else if HtmlAt(s, 0) then ".md" + ReplaceHtml(s[5..])
    else [s[0]] + ReplaceHtml(s[1..])
  }

  /** `re.sub(r'\.html(?=[^)]*\))', '.md', link_text)` as written: an
      occurrence is replaced only when a `)` follows it somewhere later. */
  function ReplaceInLink(m: string): (r: string)
    ensures Replaces(m, r)
    ensures |r| <= |m|
    decreases |m|
  {
    if m == [] then []
    else if HtmlAt(m, 0) && ')' in m[5..] then
      var t := ReplaceInLink(m[5..]);
      assert (".md" + t)[3..] == t;
      ".md" + t
    else
      var t := ReplaceInLink(m[1..]);
      assert ([m[0]] + t)[1..] == t;
      [m[0]] + t
  }

  /** Inside a matched link, which always ends in `)`, the lookahead never
      fails: the rewrite replaces every `.html`, link text included. */
  lemma {:induction false} ReplaceInLinkIsReplaceAll(m: string)
    requires m == [] || m[|m| - 1] == ')'
    ensures ReplaceInLink(m) == ReplaceHtml(m)
    decreases |m|
  {
    if m != [] {
      if HtmlAt(m, 0) {
        assert m[4] == 'l';
        assert m[5..][|m| - 6] == ')';
        ReplaceInLinkIsReplaceAll(m[5..]);
      } else {
        ReplaceInLinkIsReplaceAll(m[1..]);
      }
    }
  }

  /** `r` is `s` with some of its occurrences of `.html` (possibly none)
      replaced by `.md`, and nothing else changed. */
  predicate Replaces(s: string, r: string)
    decreases |s|
  {
    if s == [] then r == []
    else
      || (HtmlAt(s, 0) && |r| >= 3 && r[..3] == ".md" && Replaces(s[5..], r[3..]))
      || (r != [] && r[0] == s[0] && Replaces(s[1..], r[1..]))
  }

  lemma {:induction false} ReplacesRefl(s: string)
    ensures Replaces(s, s)
    decreases |s|
  {
    if s != [] {
      ReplacesRefl(s[1..]);
    }
  }

  lemma {:induction false} ReplaceHtmlReplaces(s: string)
    ensures Replaces(s, ReplaceHtml(s))
    decreases |s|
  {
    if s != [] {
      if HtmlAt(s, 0) {
        ReplaceHtmlReplaces(s[5..]);
        assert (".md" + ReplaceHtml(s[5..]))[3..] == ReplaceHtml(s[5..]);
      } else {
        ReplaceHtmlReplaces(s[1..]);
        assert ([s[0]] + ReplaceHtml(s[1..]))[1..] == ReplaceHtml(s[1..]);
      }
    }
  }

  lemma {:induction false} ReplacesAppend(a: string, a': string, b: string, b': string)
    requires Replaces(a, a') && Replaces(b, b')
    ensures Replaces(a + b, a' + b')
    decreases |a|
  {
    if a == [] {
      assert a + b == b && a' + b' == b';
    } else if HtmlAt(a, 0) && |a'| >= 3 && a'[..3] == ".md" && Replaces(a[5..], a'[3..]) {
      ReplacesAppend(a[5..], a'[3..], b, b');
      assert (a + b)[..5] == a[..5];
      assert (a + b)[5..] == a[5..] + b;
      assert (a' + b')[3..] == a'[3..] + b';
      assert (a' + b')[..3] == a'[..3];
    } else {
      ReplacesAppend(a[1..], a'[1..], b, b');
      assert (a + b)[1..] == a[1..] + b;
      assert (a' + b')[1..] == a'[1..] + b';
    }
  }

  /** Replacing only ever shortens, by two characters per replacement. */
  lemma {:induction false} ReplacesShorter(s: string, r: string)
    requires Replaces(s, r)
    ensures |r| <= |s|
    ensures |r| == |s| ==> r == s
    decreases |s|
  {
    if s != [] {
      if HtmlAt(s, 0) && |r| >= 3 && r[..3] == ".md" && Replaces(s[5..], r[3..]) {
        ReplacesShorter(s[5..], r[3..]);
      } else {
        ReplacesShorter(s[1..], r[1..]);
        if |r| == |s| {
          assert r == [r[0]] + r[1..] && s == [s[0]] + s[1..];
        }
      }
    }
  }

  /** Replacing keeps the number of every character that occurs in neither
      `.html` nor `.md`; in particular the page keeps its newlines. */
  lemma {:induction false} ReplacesCount(s: string, r: string, c: char)
    requires Replaces(s, r)
    requires c !in ".html" && c != 'd'
    ensures Count(r, c) == Count(s, c)
    decreases |s|
  {
    if s != [] {
      if HtmlAt(s, 0) && |r| >= 3 && r[..3] == ".md" && Replaces(s[5..], r[3..]) {
        ReplacesCount(s[5..], r[3..], c);
        SliceSplit(s, 5);
        SliceSplit(r, 3);
        CountAppend(s[..5], s[5..], c);
        CountAppend(r[..3], r[3..], c);
        CountAbsent(s[..5], c);
        CountAbsent(r[..3], c);
      } else {
        ReplacesCount(s[1..], r[1..], c);
      }
    }
  }

  /** Without any `.html` there is nothing to replace. */
  lemma {:induction false} ReplacesWithoutHtml(s: string, r: string)
    requires Replaces(s, r)
    requires !ContainsHtml(s)
    ensures r == s
    decreases |s|
  {
    if s != [] {
      assert !HtmlAt(s, 0);
      ContainsHtmlTail(s, 1);
      ReplacesWithoutHtml(s[1..], r[1..]);
      assert r == [r[0]] + r[1..] && s == [s[0]] + s[1..];
    }
  }

  lemma ReplaceHtmlWithoutHtml(s: string)
    requires !ContainsHtml(s)
    ensures ReplaceHtml(s) == s
  {
    ReplaceHtmlReplaces(s);
    ReplacesWithoutHtml(s, ReplaceHtml(s));
  }

  /** Replacing every occurrence leaves no `.html` behind: no new occurrence
      forms across a `.md` or across a copied character. */
  lemma {:induction false} ReplaceHtmlNoHtml(s: string)
    ensures !ContainsHtml(ReplaceHtml(s))
    decreases |s|
  {
    if s != [] {
      var r := ReplaceHtml(s);
      if HtmlAt(s, 0) {
        var t := ReplaceHtml(s[5..]);
        ReplaceHtmlNoHtml(s[5..]);
        assert r == ".md" + t;
        forall i | 0 <= i <= |r| - 5
          ensures !HtmlAt(r, i)
        {
          if i >= 3 {
            assert !HtmlAt(t, i - 3);
          }
        }
      } else {
        var t := ReplaceHtml(s[1..]);
        ReplaceHtmlNoHtml(s[1..]);
        assert r == [s[0]] + t;
        forall i | 0 <= i <= |r| - 5
          ensures !HtmlAt(r, i)
        {
          if i >= 1 {
            assert !HtmlAt(t, i - 1);
          } else if HtmlAt(r, 0) {
            ReplaceHtmlNotDot(s[1..]);
            assert false;
          }
        }
      }
    }
  }

  /** An output that begins with `html` comes from an input that begins with
      `html`: none of those four characters can be the head of an occurrence. */
  lemma ReplaceHtmlNotDot(s: string)
    requires |ReplaceHtml(s)| >= 4 && ReplaceHtml(s)[..4] == "html"
    ensures |s| >= 4 && s[..4] == "html"
  {
    var r := ReplaceHtml(s);
    assert r[0] == r[..4][0] == 'h' && r[1] == r[..4][1] == 't';
    assert r[2] == r[..4][2] == 'm' && r[3] == r[..4][3] == 'l';
    var t1 := ReplaceHtml(s[1..]);
    assert r == [s[0]] + t1;
    assert t1[0] == 't';
    var t2 := ReplaceHtml(s[2..]);
    assert s[1..][1..] == s[2..];
    assert t1 == [s[1]] + t2;
    assert t2[0] == 'm';
    var t3 := ReplaceHtml(s[3..]);
    assert s[2..][1..] == s[3..];
    assert t2 == [s[2]] + t3;
    assert t3[0] == 'l';
  }

  /** `ReplaceHtml` distributes over a cut that no occurrence of `.html` can
      straddle: the right part does not continue a `.html` begun on the left. */
  lemma {:induction false} ReplaceHtmlAppend(a: string, b: string)
    requires b == [] || b[0] !in "html"
    ensures ReplaceHtml(a + b) == ReplaceHtml(a) + ReplaceHtml(b)
    decreases |a|
  {
    if a == [] {
      assert a + b == b;
    } else if HtmlAt(a, 0) {
      assert (a + b)[..5] == a[..5];
      assert (a + b)[5..] == a[5..] + b;
      ReplaceHtmlAppend(a[5..], b);
    } else {
      if |a| >= 5 {
        assert (a + b)[..5] == a[..5];
      }
      assert !HtmlAt(a + b, 0);
      assert (a + b)[1..] == a[1..] + b;
      ReplaceHtmlAppend(a[1..], b);
    }
  }

  // ---------------------------------------------------------------------------
  // Recognising a link
  // ---------------------------------------------------------------------------

  /** `m` splits at index `j` into `[`, a link text without `]`, `](`, a target
      without `)` that contains `.html`, and a closing `)`. */
  predicate LinkShape(m: string, j: int) {
    && 1 < j && j + 2 < |m|
    && m[0] == '['
    && ']' !in m[1..j]
    && m[j] == ']'
    && m[j + 1] == '('
    && m[|m| - 1] == ')'
    && ')' !in m[j + 2..|m| - 1]
    && ContainsHtml(m[j + 2..|m| - 1])
  }

  /** `m` is a whole match of the link pattern `\[([^\]]+)\]\([^)]*\.html(?:[^)]*)?\)`. */
  predicate IsHtmlLink(m: string) {
    exists j | 0 <= j < |m| :: LinkShape(m, j)
  }

  /** Length of the link match at the head of `s`, if the pattern matches there. */
  function LinkLength(s: string): (r: Option<nat>)
    ensures r.Some? ==> 0 < r.value <= |s| && s[r.value - 1] == ')'
  {
    if s == [] || s[0] != '[' then None
    else match IndexOf(s[1..], ']')
      case None => None
      case Some(a) =>
        var j := a + 1;
        if j == 1 || j + 1 >= |s| || s[j + 1] != '(' then None
        else match IndexOf(s[j + 2..], ')')
          case None => None
          case Some(b) =>
            var k := j + 2 + b;
            if ContainsHtml(s[j + 2..k]) then Some(k + 1) else None
  }

  /** Every link the scanner finds is a whole match of the pattern. */
  lemma LinkLengthSound(s: string, n: nat)
    requires LinkLength(s) == Some(n)
    ensures IsHtmlLink(s[..n])
  {
    var a := IndexOf(s[1..], ']').value;
    var j := a + 1;
    var b := IndexOf(s[j + 2..], ')').value;
    assert n == j + 3 + b;
    var m := s[..n];
    assert m[1..j] == s[1..][..a];
    assert m[j + 2..n - 1] == s[j + 2..][..b] == s[j + 2..j + 2 + b];
    assert LinkShape(m, j);
  }

  /** The scanner's steps, given the positions of `]` and `)` it will find. */
  lemma LinkLengthFromParts(s: string, j: nat, b: nat)
    requires 1 < j && j + 1 < |s| && s[0] == '[' && s[j + 1] == '('
    requires IndexOf(s[1..], ']') == Some(j - 1)
    requires IndexOf(s[j + 2..], ')') == Some(b)
    requires ContainsHtml(s[j + 2..j + 2 + b])
    ensures LinkLength(s) == Some(j + 3 + b)
  {
  }

  /** Every whole match of the pattern at the head of `s` is what the scanner finds. */
  lemma LinkLengthComplete(s: string, n: nat)
    requires n <= |s| && IsHtmlLink(s[..n])
    ensures LinkLength(s) == Some(n)
  {
    var m := s[..n];
    var j :| 0 <= j < |m| && LinkShape(m, j);
    var b := n - 1 - (j + 2);
    SliceOfPrefix(s, n, 1, j);
    IndexOfFrom(s, ']', 1, j);
    SliceOfPrefix(s, n, j + 2, n - 1);
    IndexOfFrom(s, ')', j + 2, n - 1);
    LinkLengthFromParts(s, j, b);
  }

  /** The scanner agrees with the pattern: a link of length `n` is found at the
      head of `s` exactly when `s[..n]` is a whole match. */
  lemma LinkLengthIff(s: string, n: nat)
    ensures LinkLength(s) == Some(n) <==> n <= |s| && IsHtmlLink(s[..n])
  {
    if LinkLength(s) == Some(n) {
      LinkLengthSound(s, n);
    }
    if n <= |s| && IsHtmlLink(s[..n]) {
      LinkLengthComplete(s, n);
    }
  }

  // ---------------------------------------------------------------------------
  // The whole pass
  // ---------------------------------------------------------------------------

  /** `convert_html_links_to_md(text)`: leftmost, non-overlapping matches; after
      a match the scan resumes just past its `)`, otherwise one character on. */
  function RewriteLinks(s: string): (r: string)
    ensures |r| <= |s|
    decreases |s|
  {
    if s == [] then []
    else match LinkLength(s)
      case Some(n) => ReplaceInLink(s[..n]) + RewriteLinks(s[n..])
      case None => [s[0]] + RewriteLinks(s[1..])
  }

  /** The pass changes the page only by turning some `.html` into `.md`. */
  lemma {:induction false} RewriteOnlyReplaces(s: string)
    ensures Replaces(s, RewriteLinks(s))
    decreases |s|
  {
    if s != [] {
      match LinkLength(s)
      case Some(n) =>
        RewriteOnlyReplaces(s[n..]);
        ReplacesAppend(s[..n], ReplaceInLink(s[..n]), s[n..], RewriteLinks(s[n..]));
        assert s == s[..n] + s[n..];
      case None =>
        ReplacesRefl([s[0]]);
        RewriteOnlyReplaces(s[1..]);
        ReplacesAppend([s[0]], [s[0]], s[1..], RewriteLinks(s[1..]));
        assert s == [s[0]] + s[1..];
    }
  }

  /** The rewritten page is never longer than the input, and equally long only
      when nothing was rewritten. */
  lemma RewriteNeverLonger(s: string)
    ensures |RewriteLinks(s)| <= |s|
    ensures |RewriteLinks(s)| == |s| ==> RewriteLinks(s) == s
  {
    RewriteOnlyReplaces(s);
    ReplacesShorter(s, RewriteLinks(s));
  }

  /** A page without `.html` anywhere is returned unchanged. */
  lemma RewriteWithoutHtml(s: string)
    requires !ContainsHtml(s)
    ensures RewriteLinks(s) == s
  {
    RewriteOnlyReplaces(s);
    ReplacesWithoutHtml(s, RewriteLinks(s));
  }

  /** Text without `[` passes through the scanner untouched. */
  lemma {:induction false} RewriteSkipsPlain(u: string, rest: string)
    requires '[' !in u
    ensures RewriteLinks(u + rest) == u + RewriteLinks(rest)
    decreases |u|
  {
    if u == [] {
      assert u + rest == rest;
    } else {
      assert (u + rest)[0] == u[0];
      assert (u + rest)[1..] == u[1..] + rest;
      RewriteSkipsPlain(u[1..], rest);
    }
  }

  /** A page without `[` contains no link and is returned unchanged. */
  lemma RewriteWithoutBracket(s: string)
    requires '[' !in s
    ensures RewriteLinks(s) == s
  {
    RewriteSkipsPlain(s, []);
    assert s + [] == s;
  }

  /** The link `[text](prefix.htmlsuffix)`. */
  function HtmlLink(text: string, prefix: string, suffix: string): string {
    ("[" + text) + ("](" + prefix) + (".html" + suffix) + ")"
  }

  /** The link `[text](prefix.mdsuffix)`. */
  function MdLink(text: string, prefix: string, suffix: string): string {
    ("[" + text) + ("](" + prefix) + (".md" + suffix) + ")"
  }

  lemma HtmlLinkMatches(text: string, prefix: string, suffix: string)
    requires |text| > 0 && ']' !in text
    requires ')' !in prefix && ')' !in suffix
    ensures IsHtmlLink(HtmlLink(text, prefix, suffix))
  {
    var link := HtmlLink(text, prefix, suffix);
    var target := prefix + ".html" + suffix;
    var j := 1 + |text|;
    assert link[1..j] == text;
    assert link[j + 2..|link| - 1] == target;
    assert HtmlAt(target, |prefix|);
    assert LinkShape(link, j);
  }

  /** A character other than `.` is copied and the rewrite continues after it. */
  lemma ReplaceHtmlCons(c: char, x: string)
    requires c != '.'
    ensures ReplaceHtml([c] + x) == [c] + ReplaceHtml(x)
  {
    assert ([c] + x)[1..] == x;
  }

  lemma ReplaceHtmlHead(x: string)
    ensures ReplaceHtml(".html" + x) == ".md" + ReplaceHtml(x)
  {
    assert (".html" + x)[5..] == x;
  }

  /** `ReplaceHtmlAppend` applied at three cuts. */
  lemma ReplaceHtmlAppend4(a: string, b: string, c: string, d: string)
    requires b == [] || b[0] !in "html"
    requires c == [] || c[0] !in "html"
    requires d == [] || d[0] !in "html"
    ensures ReplaceHtml(a + b + c + d) == ReplaceHtml(a) + ReplaceHtml(b) + ReplaceHtml(c) + ReplaceHtml(d)
  {
    ReplaceHtmlAppend(a + b + c, d);
    ReplaceHtmlAppend(a + b, c);
    ReplaceHtmlAppend(a, b);
  }

  lemma ReplaceHtmlLinkTarget(prefix: string)
    ensures ReplaceHtml("](" + prefix) == "](" + ReplaceHtml(prefix)
  {
    ReplaceHtmlCons('(', prefix);
    assert "](" + prefix == [']'] + ("(" + prefix);
    ReplaceHtmlCons(']', "(" + prefix);
  }

  lemma ReplaceHtmlClose()
    ensures ReplaceHtml(")") == ")"
  {
    ReplaceHtmlCons(')', []);
    assert ")" == [')'] + [];
  }

  /** Rewriting a whole link rewrites each of its parts. */
  lemma ReplaceHtmlOfLink(text: string, prefix: string, suffix: string)
    ensures ReplaceHtml(HtmlLink(text, prefix, suffix))
         == MdLink(ReplaceHtml(text), ReplaceHtml(prefix), ReplaceHtml(suffix))
  {
    ReplaceHtmlAppend4("[" + text, "](" + prefix, ".html" + suffix, ")");
    ReplaceHtmlCons('[', text);
    ReplaceHtmlLinkTarget(prefix);
    ReplaceHtmlHead(suffix);
    ReplaceHtmlClose();
  }

  /** Where a link of length `n` starts, the scanner rewrites it and resumes after it. */
  lemma RewriteLinkStep(s: string, n: nat)
    requires LinkLength(s) == Some(n)
    ensures RewriteLinks(s) == ReplaceHtml(s[..n]) + RewriteLinks(s[n..])
  {
    ReplaceInLinkIsReplaceAll(s[..n]);
  }

  /** A link `[text](prefix.htmlsuffix)` at the scan position is rewritten in
      full (every `.html` in it, link text included, becomes `.md`) and the scan
      resumes right after its `)`. */
  lemma RewriteAtLink(text: string, prefix: string, suffix: string, rest: string)
    requires |text| > 0 && ']' !in text
    requires ')' !in prefix && ')' !in suffix
    ensures RewriteLinks(HtmlLink(text, prefix, suffix) + rest)
         == MdLink(ReplaceHtml(text), ReplaceHtml(prefix), ReplaceHtml(suffix)) + RewriteLinks(rest)
  {
    var link := HtmlLink(text, prefix, suffix);
    AppendSlices(link, rest);
    HtmlLinkMatches(text, prefix, suffix);
    LinkLengthComplete(link + rest, |link|);
    RewriteLinkStep(link + rest, |link|);
    ReplaceHtmlOfLink(text, prefix, suffix);
  }

  /** A `[` whose bracketed text is followed by `(target)` without `.html`
      does not start a match. */
  lemma NoLinkBeforePlainTarget(u: string, target: string, rest: string)
    requires u != [] && u[0] == '[' && ']' !in u
    requires ')' !in target && !ContainsHtml(target)
    ensures LinkLength(u + "](" + target + ")" + rest) == None
  {
    var s := u + "](" + target + ")" + rest;
    LinkIndices(u, target, rest);
    if |u| > 1 {
      LinkLengthRejects(s, |u|, |target|);
    } else {
      LinkLengthEmptyText(s);
    }
  }

  /** What the scanner's two searches find in `u](target)rest`. */
  lemma LinkIndices(u: string, target: string, rest: string)
    requires u != [] && ']' !in u && ')' !in target
    ensures var s := u + "](" + target + ")" + rest;
            && |u| + 1 < |s| && s[0] == u[0] && s[|u| + 1] == '('
            && IndexOf(s[1..], ']') == Some(|u| - 1)
            && IndexOf(s[|u| + 2..], ')') == Some(|target|)
            && s[|u| + 2..|u| + 2 + |target|] == target
  {
    var s := u + "](" + target + ")" + rest;
    var j := |u|;
    LinkParts(u, target, rest);
    assert s[1..j] == u[1..];
    IndexOfFrom(s, ']', 1, j);
    IndexOfFrom(s, ')', j + 2, j + 2 + |target|);
  }

  /** `[]` never starts a match: the link text must be non-empty. */
  lemma LinkLengthEmptyText(s: string)
    requires s != [] && IndexOf(s[1..], ']') == Some(0)
    ensures LinkLength(s) == None
  {
  }

  /** The scanner's steps when the target it finds has no `.html`. */
  lemma LinkLengthRejects(s: string, j: nat, b: nat)
    requires 1 < j && j + 1 < |s| && s[0] == '[' && s[j + 1] == '('
    requires IndexOf(s[1..], ']') == Some(j - 1)
    requires IndexOf(s[j + 2..], ')') == Some(b)
    requires !ContainsHtml(s[j + 2..j + 2 + b])
    ensures LinkLength(s) == None
  {
  }

  /** Where the pieces of `u](target)rest` sit. */
  lemma LinkParts(u: string, target: string, rest: string)
    ensures var s := u + "](" + target + ")" + rest;
            && |s| == |u| + 3 + |target| + |rest|
            && s[..|u|] == u && s[|u|] == ']' && s[|u| + 1] == '('
            && s[|u| + 2..|u| + 2 + |target|] == target && s[|u| + 2 + |target|] == ')'
  {
  }

  /** Where no link starts, the scanner copies one character and moves on. */
  lemma RewriteNoLinkStep(s: string)
    requires s != [] && LinkLength(s) == None
    ensures RewriteLinks(s) == [s[0]] + RewriteLinks(s[1..])
  {
  }

  /** No `[` of `u` starts a match when `u` is followed by `w`. */
  predicate NoLinkStarts(u: string, w: string)
    decreases |u|
  {
    u == [] || ((u[0] != '[' || LinkLength(u + w) == None) && NoLinkStarts(u[1..], w))
  }

  /** One step of `RewriteCopies`: a head character that starts no match. */
  lemma RewriteCopiesStep(u: string, w: string)
    requires u != [] && LinkLength(u + w) == None
    requires RewriteLinks(u[1..] + w) == u[1..] + RewriteLinks(w)
    ensures RewriteLinks(u + w) == u + RewriteLinks(w)
  {
    TailOfAppend(u, w);
    RewriteNoLinkStep(u + w);
    ConsAppend(u, RewriteLinks(w));
  }

  /** Text in which no `[` starts a match (given what follows it) is copied
      unchanged, and the scan continues with what follows. */
  lemma {:induction false} RewriteCopies(u: string, w: string)
    requires NoLinkStarts(u, w)
    ensures RewriteLinks(u + w) == u + RewriteLinks(w)
    decreases |u|
  {
    if u == [] {
      assert u + w == w;
    } else {
      RewriteCopies(u[1..], w);
      RewriteCopiesStep(u, w);
    }
  }

  /** No `[` in a link text without `]` starts a match when the text is
      followed by `(target)` without `.html`. */
  lemma {:induction false} NoLinkInText(u: string, target: string, rest: string)
    requires ']' !in u
    requires ')' !in target && !ContainsHtml(target)
    ensures NoLinkStarts(u, "](" + target + ")" + rest)
    decreases |u|
  {
    if u != [] {
      if u[0] == '[' {
        NoLinkBeforePlainTarget(u, target, rest);
        assert u + "](" + target + ")" + rest == u + ("](" + target + ")" + rest);
      }
      NoLinkInText(u[1..], target, rest);
    }
  }

  /** A bracketed text followed by `(target)` where the target has no `.html`
      (and no `[`) is left alone, and so is every `[` inside the text. */
  lemma RewriteNonHtmlTarget(u: string, target: string, rest: string)
    requires ']' !in u
    requires ')' !in target && '[' !in target && !ContainsHtml(target)
    ensures RewriteLinks(u + "](" + target + ")" + rest) == u + "](" + target + ")" + RewriteLinks(rest)
  {
    var tail := "](" + target + ")";
    NoLinkInText(u, target, rest);
    AppendAssoc(u, tail, rest);
    AppendAssoc(u, "](" + target, ")");
    AppendAssoc(u, "](", target);
    RewriteCopies(u, tail + rest);
    assert '[' !in tail;
    RewriteSkipsPlain(tail, rest);
    AppendAssoc(u, tail, RewriteLinks(rest));
  }

  /** A link with empty text, `[]`, never starts a match. */
  lemma RewriteEmptyText(rest: string)
    ensures RewriteLinks("[]" + rest) == "[]" + RewriteLinks(rest)
  {
    var s := "[]" + rest;
    EmptyTextNoLink(rest);
    RewriteNoLinkStep(s);
    assert s[0] == '[' && s[1..] == "]" + rest;
    RewriteSkipsPlain("]", rest);
    AppendAssoc("[", "]", RewriteLinks(rest));
  }

  lemma EmptyTextNoLink(rest: string)
    ensures LinkLength("[]" + rest) == None
  {
    var s := "[]" + rest;
    assert s[1..][0] == ']';
    IndexOfIs(s[1..], ']', 0);
    LinkLengthEmptyText(s);
  }

  /** A string in which no `.` is followed by `h` has no `.html`. */
  lemma NoDotH(s: string)
    requires forall i :: 0 <= i < |s| - 1 && s[i] == '.' ==> s[i + 1] != 'h'
    ensures !ContainsHtml(s)
  {
  }

  /** A link whose text, path and fragment have no `.html` of their own, such
      as `[text](SomePage.html)`, `[text](./SomePage.html)`,
      `[text](../SomePage.html)` or `[text](../Page.html#frag)`, becomes the
      same link with `.md` in place of `.html`. */
  lemma RewritePlainLink(text: string, path: string, fragment: string, rest: string)
    requires |text| > 0 && ']' !in text && !ContainsHtml(text)
    requires ')' !in path && !ContainsHtml(path)
    requires ')' !in fragment && !ContainsHtml(fragment)
    ensures RewriteLinks(HtmlLink(text, path, fragment) + rest)
         == MdLink(text, path, fragment) + RewriteLinks(rest)
  {
    ReplaceHtmlWithoutHtml(text);
    ReplaceHtmlWithoutHtml(path);
    ReplaceHtmlWithoutHtml(fragment);
    RewriteAtLink(text, path, fragment, rest);
  }

  /** The relative forms `page`, `./page` and `../page` of a link target are
      all rewritten the same way. */
  lemma RewriteRelativeLinks(text: string, page: string, fragment: string)
    requires |text| > 0 && ']' !in text && '.' !in text
    requires ')' !in page && '.' !in page
    requires ')' !in fragment && '.' !in fragment
    ensures RewriteLinks(HtmlLink(text, page, fragment)) == MdLink(text, page, fragment)
    ensures RewriteLinks(HtmlLink(text, "./" + page, fragment)) == MdLink(text, "./" + page, fragment)
    ensures RewriteLinks(HtmlLink(text, "../" + page, fragment)) == MdLink(text, "../" + page, fragment)
  {
    NoDotH(text);
    NoDotH(page);
    NoDotH(fragment);
    var dot := "./" + page;
    var dotdot := "../" + page;
    assert forall i :: 2 <= i < |dot| ==> dot[i] == page[i - 2];
    assert forall i :: 3 <= i < |dotdot| ==> dotdot[i] == page[i - 3];
    NoDotH(dot);
    NoDotH(dotdot);
    assert RewriteLinks([]) == [];
    RewritePlainLink(text, page, fragment, []);
    RewritePlainLink(text, dot, fragment, []);
    RewritePlainLink(text, dotdot, fragment, []);
    AppendNil(HtmlLink(text, page, fragment));
    AppendNil(HtmlLink(text, dot, fragment));
    AppendNil(HtmlLink(text, dotdot, fragment));
    AppendNil(MdLink(text, page, fragment));
    AppendNil(MdLink(text, dot, fragment));
    AppendNil(MdLink(text, dotdot, fragment));
  }

  /** A link with empty text, such as `[](x.html)`, is never rewritten. */
  lemma RewriteEmptyTextLink(target: string)
    requires '[' !in target
    ensures RewriteLinks("[](" + target + ")") == "[](" + target + ")"
  {
    var tail := "(" + target + ")";
    assert '[' !in tail;
    RewriteWithoutBracket(tail);
    RewriteEmptyText(tail);
    AppendAssoc("[]", "(" + target, ")");
    AppendAssoc("[]", "(", target);
    assert "[]" + "(" == "[](";
  }

  /** No character of `s` is a bracket, a parenthesis or a dot. */
  predicate Plain(s: string) {
    '[' !in s && ']' !in s && '(' !in s && ')' !in s && '.' !in s
  }

  /** A `.md` between two dot-free strings is the only dot, so no `.html`. */
  lemma MdNoHtml(x: string, y: string)
    requires '.' !in x && '.' !in y
    ensures !ContainsHtml(x + ".md" + y)
  {
    NoDotH(x + ".md" + y);
  }

  /** A link with an empty suffix, regrouped as text, `](`, target and `)`. */
  lemma MdLinkAsPlain(text: string, prefix: string)
    ensures MdLink(text, prefix, "") == ("[" + text) + "](" + (prefix + ".md") + ")"
  {
  }

  /** First pass over `[a](b[c.html)d](e.html)`: the first link is rewritten,
      the rest holds no `[` and is copied. */
  lemma NotIdempotentFirstPass(a: string, b: string, c: string, d: string, e: string)
    requires |a| > 0 && Plain(a) && Plain(b) && Plain(c) && Plain(d) && Plain(e)
    ensures RewriteLinks(HtmlLink(a, b + "[" + c, "") + (d + "](" + e + ".html)"))
         == MdLink(a, b + "[" + c, "") + (d + "](" + e + ".html)")
  {
    var p1 := b + "[" + c;
    var r1 := d + "](" + e + ".html)";
    assert '.' !in p1 && ')' !in p1 && '[' !in r1 && '.' !in a && ']' !in a;
    FirstPassFacts(a, p1, r1);
  }

  lemma FirstPassFacts(a: string, p1: string, r1: string)
    requires |a| > 0 && '.' !in a && ']' !in a && '.' !in p1 && ')' !in p1 && '[' !in r1
    ensures RewriteLinks(HtmlLink(a, p1, "") + r1) == MdLink(a, p1, "") + r1
  {
    NoDotH(a);
    NoDotH(p1);
    ShortHasNoHtml([]);
    RewriteWithoutBracket(r1);
    RewritePlainLink(a, p1, "", r1);
  }

  /** Second pass: the first `[` no longer matches (its target now ends in
      `.md`), but the `[` inside that target opens a link that runs to the
      remaining `.html)`. */
  lemma NotIdempotentSecondPass(a: string, b: string, c: string, d: string, e: string)
    requires |a| > 0 && Plain(a) && Plain(b) && Plain(c) && Plain(d) && Plain(e)
    ensures RewriteLinks(MdLink(a, b + "[" + c, "") + (d + "](" + e + ".html)"))
         == "[" + a + "](" + b + MdLink(c + ".md)" + d, e, "")
  {
    var p1 := b + "[" + c;
    var r1 := d + "](" + e + ".html)";
    var target := p1 + ".md";
    assert '.' !in p1 && ')' !in target && ']' !in a;
    MdNoHtml(p1, []);
    assert target + [] == target;
    MdLinkAsPlain(a, p1);
    RewriteUnmatchedBracket("[" + a, target, r1);
    assert ("[" + a)[1..] == a;
    NotIdempotentInnerLink(a, b, c, d, e);
    RegroupHead(a, b, MdLink(c + ".md)" + d, e, ""));
  }

  /** The head `[` of a bracketed text followed by `(target)` without `.html`
      is copied, and the scan resumes just after it. */
  lemma RewriteUnmatchedBracket(u: string, target: string, rest: string)
    requires u != [] && u[0] == '[' && ']' !in u
    requires ')' !in target && !ContainsHtml(target)
    ensures RewriteLinks(u + "](" + target + ")" + rest)
         == "[" + RewriteLinks(u[1..] + "](" + target + ")" + rest)
  {
    NoLinkBeforePlainTarget(u, target, rest);
    var s := u + "](" + target + ")" + rest;
    RewriteNoLinkStep(s);
    assert s[1..] == u[1..] + "](" + target + ")" + rest;
  }

  lemma RegroupInnerLink(a: string, b: string, c: string, d: string, e: string)
    ensures a + "](" + (b + "[" + c + ".md") + ")" + (d + "](" + e + ".html)")
         == (a + "](" + b) + HtmlLink(c + ".md)" + d, e, "")
  {
  }

  lemma RegroupHead(a: string, b: string, m: string)
    ensures "[" + (a + "](" + b + m) == "[" + a + "](" + b + m
  {
  }

  lemma NotIdempotentInnerLink(a: string, b: string, c: string, d: string, e: string)
    requires Plain(a) && Plain(b) && Plain(c) && Plain(d) && Plain(e)
    ensures RewriteLinks(a + "](" + (b + "[" + c + ".md") + ")" + (d + "](" + e + ".html)"))
         == a + "](" + b + MdLink(c + ".md)" + d, e, "")
  {
    var text2 := c + ".md)" + d;
    RegroupInnerLink(a, b, c, d, e);
    assert text2 == c + ".md" + (")" + d);
    MdNoHtml(c, ")" + d);
    RewriteLoneLink(a + "](" + b, text2, e);
  }

  /** Text without `[` followed by a final link whose text and target have no `.html`. */
  lemma RewriteLoneLink(v: string, text: string, path: string)
    requires '[' !in v
    requires |text| > 0 && ']' !in text && !ContainsHtml(text)
    requires ')' !in path && '.' !in path
    ensures RewriteLinks(v + HtmlLink(text, path, "")) == v + MdLink(text, path, "")
  {
    RewriteSkipsPlain(v, HtmlLink(text, path, ""));
    NoDotH(path);
    ShortHasNoHtml([]);
    RewritePlainLink(text, path, "", []);
    AppendNil(HtmlLink(text, path, ""));
    assert RewriteLinks([]) == [];
    AppendNil(MdLink(text, path, ""));
  }

  /** The pass is not idempotent: in `[a](b[c.html)d](e.html)` only the first
      link matches, and the `[` left inside its target opens a second match on
      the next pass. */
  lemma RewriteNotIdempotent(a: string, b: string, c: string, d: string, e: string)
    requires |a| > 0 && Plain(a) && Plain(b) && Plain(c) && Plain(d) && Plain(e)
    ensures var once := RewriteLinks(HtmlLink(a, b + "[" + c, "") + (d + "](" + e + ".html)"));
            && once == MdLink(a, b + "[" + c, "") + (d + "](" + e + ".html)")
            && RewriteLinks(once) == "[" + a + "](" + b + MdLink(c + ".md)" + d, e, "")
            && RewriteLinks(once) != once
  {
    NotIdempotentFirstPass(a, b, c, d, e);
    NotIdempotentSecondPass(a, b, c, d, e);
  }
}
