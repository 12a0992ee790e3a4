/**
 The blank-line pass `clean_markdown`: every run of three or more newlines
 (`re.sub(r'\n{3,}', '\n\n', text)`) becomes one blank line, then the whole
 page is stripped of leading and trailing whitespace.
 */
module CleanMarkdown {
  import opened Text

  /** No three consecutive newline characters anywhere in `s`. */
  predicate NoTripleNewline(s: string) {
    forall i :: 0 <= i && i + 2 < |s| ==> !(s[i] == '\n' && s[i + 1] == '\n' && s[i + 2] == '\n')
  }

  /** A page the pass leaves alone: no triple newline, no surrounding whitespace. */
  predicate IsClean(s: string) {
    NoTripleNewline(s) && Stripped(s)
  }

  /** Length of the run of newlines at the head of `s`. */
  function NewlineRun(s: string): (n: nat)
    ensures n <= |s|
    ensures forall i :: 0 <= i < n ==> s[i] == '\n'
    ensures n == |s| || s[n] != '\n'
  {
    if s != [] && s[0] == '\n' then 1 + NewlineRun(s[1..]) else 0
  }

  /** The regex substitution `\n{3,}` -> `\n\n`: the leftmost maximal run of
      newlines is replaced when it has three or more, kept when it has fewer. */
  function CollapseNewlines(s: string): (r: string)
    ensures NoTripleNewline(r)
    ensures |r| <= |s|
    ensures (r != [] && r[0] == '\n') <==> (s != [] && s[0] == '\n')
    decreases |s|
  {
    if s == [] then []
    else if s[0] != '\n' then [s[0]] + CollapseNewlines(s[1..])
    else
      var n := NewlineRun(s);
      var run := if n >= 3 then "\n\n" else s[..n];
      var r := run + CollapseNewlines(s[n..]);
      assert forall i :: 0 <= i < |run| ==> r[i] == '\n';
      r
  }

  /** `k` newline characters. */
  function Newlines(k: nat): (r: string)
    ensures |r| == k
    ensures forall i :: 0 <= i < k ==> r[i] == '\n'
  {
    seq(k, _ => '\n')
  }

  /** The run at the head of `k` newlines followed by a non-newline is `k` long. */
  lemma {:induction false} NewlineRunOf(k: nat, v: string)
    requires v == [] || v[0] != '\n'
    ensures NewlineRun(Newlines(k) + v) == k
  {
    if k > 0 {
      NewlineRunOf(k - 1, v);
      assert (Newlines(k) + v)[1..] == Newlines(k - 1) + v;
    }
  }

  /** The substitution rule on one maximal run: three or more newlines become
      exactly one blank line, fewer are kept as they are, and the collapse
      carries on after the run. */
  lemma CollapseRun(k: nat, v: string)
    requires v == [] || v[0] != '\n'
    ensures k >= 3 ==> CollapseNewlines(Newlines(k) + v) == "\n\n" + CollapseNewlines(v)
    ensures k < 3 ==> CollapseNewlines(Newlines(k) + v) == Newlines(k) + CollapseNewlines(v)
  {
    var s := Newlines(k) + v;
    NewlineRunOf(k, v);
    assert s[k..] == v;
    if k == 0 {
      assert s == v;
    } else {
      assert s[..k] == Newlines(k);
    }
  }

  /** `clean_markdown(text)`. */
  function Clean(s: string): (r: string)
    ensures IsClean(r)
  {
    var c := CollapseNewlines(s);
    StripNoTripleNewline(c);
    Strip(c)
  }

  /** Stripping cannot create a triple newline. */
  lemma StripNoTripleNewline(s: string)
    requires NoTripleNewline(s)
    ensures NoTripleNewline(Strip(s))
  {
    StripDecomposes(s);
    var w1, w2 :| s == w1 + Strip(s) + w2;
    MiddleNoTripleNewline(w1, Strip(s), w2);
  }

  /** A middle part of a string without triple newlines has none either. */
  lemma MiddleNoTripleNewline(w1: string, t: string, w2: string)
    requires NoTripleNewline(w1 + t + w2)
    ensures NoTripleNewline(t)
  {
    var s := w1 + t + w2;
    forall i | 0 <= i && i + 2 < |t|
      ensures !(t[i] == '\n' && t[i + 1] == '\n' && t[i + 2] == '\n')
    {
      var a := |w1|;
      assert t[i] == s[a + i] && t[i + 1] == s[a + i + 1] && t[i + 2] == s[a + i + 2];
    }
  }

  /** The collapse changes exactly the strings that contain a triple newline. */
  lemma {:induction false} CollapseFixedIff(s: string)
    ensures CollapseNewlines(s) == s <==> NoTripleNewline(s)
    decreases |s|
  {
    if NoTripleNewline(s) && s != [] {
      if s[0] != '\n' {
        assert NoTripleNewline(s[1..]) by {
          forall i | 0 <= i && i + 2 < |s[1..]|
            ensures !(s[1..][i] == '\n' && s[1..][i + 1] == '\n' && s[1..][i + 2] == '\n')
          {
            assert s[1..][i] == s[i + 1];
          }
        }
        CollapseFixedIff(s[1..]);
      } else {
        var n := NewlineRun(s);
        if |s| >= 3 {
          assert !(s[0] == '\n' && s[1] == '\n' && s[2] == '\n');
        }
        assert NoTripleNewline(s[n..]) by {
          forall i | 0 <= i && i + 2 < |s[n..]|
            ensures !(s[n..][i] == '\n' && s[n..][i + 1] == '\n' && s[n..][i + 2] == '\n')
          {
            assert s[n..][i] == s[n + i];
          }
        }
        CollapseFixedIff(s[n..]);
        assert s == s[..n] + s[n..];
      }
    }
  }

  /** The characters other than newlines, in order. */
  function DropNewlines(s: string): (r: string)
    ensures '\n' !in r
    ensures |r| <= |s|
  {
    if s == [] then []
    else if s[0] == '\n' then DropNewlines(s[1..])
    else [s[0]] + DropNewlines(s[1..])
  }

  lemma {:induction false} DropNewlinesAppend(a: string, b: string)
    ensures DropNewlines(a + b) == DropNewlines(a) + DropNewlines(b)
    decreases |a|
  {
    if a != [] {
      assert (a + b)[1..] == a[1..] + b;
      DropNewlinesAppend(a[1..], b);
    } else {
      assert a + b == b;
    }
  }

  lemma {:induction false} DropNewlinesOfRun(s: string)
    requires forall i :: 0 <= i < |s| ==> s[i] == '\n'
    ensures DropNewlines(s) == []
    decreases |s|
  {
    if s != [] {
      DropNewlinesOfRun(s[1..]);
    }
  }

  /** Collapsing touches only newlines: every other character survives, in order. */
  lemma {:induction false} CollapseKeepsText(s: string)
    ensures DropNewlines(CollapseNewlines(s)) == DropNewlines(s)
    decreases |s|
  {
    if s != [] {
      if s[0] != '\n' {
        CollapseKeepsText(s[1..]);
        DropNewlinesAppend([s[0]], CollapseNewlines(s[1..]));
      } else {
        var n := NewlineRun(s);
        var run := if n >= 3 then "\n\n" else s[..n];
        CollapseKeepsText(s[n..]);
        DropNewlinesAppend(run, CollapseNewlines(s[n..]));
        DropNewlinesOfRun(run);
        assert s == s[..n] + s[n..];
        DropNewlinesAppend(s[..n], s[n..]);
        DropNewlinesOfRun(s[..n]);
      }
    }
  }

  /** The pass leaves a page unchanged exactly when the page is already clean. */
  lemma CleanFixedIff(s: string)
    ensures Clean(s) == s <==> IsClean(s)
  {
    if IsClean(s) {
      CollapseFixedIff(s);
      StripStripped(s);
    }
  }

  /** Running the pass twice is the same as running it once. */
  lemma CleanIdempotent(s: string)
    ensures Clean(Clean(s)) == Clean(s)
  {
    CleanFixedIff(Clean(s));
  }
}
