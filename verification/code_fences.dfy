/**
 The fence pass `convert_code_blocks_to_csharp`: the page is split into lines,
 and a line whose stripped form starts with three backticks is a fence. Fences
 alternate between opening and closing a code block. A bare opening fence
 becomes "```csharp", an opening fence that already names a language is kept
 as it is, and every closing fence becomes a bare "```". All other lines are
 copied.
 */
module CodeFences {
  import opened Text

  const Fence: string := "```"
  const CsharpFence: string := "```csharp"

  /** A fence line: after stripping, it starts with three backticks. */
  predicate IsFence(line: string) {
    StartsWith(Strip(line), Fence)
  }

  /** A fence line without a language tag. */
  predicate IsBareFence(line: string) {
    Strip(line) == Fence
  }

  /** Which lines are fences. */
  function FenceFlags(lines: seq<string>): (flags: seq<bool>)
    ensures |flags| == |lines|
    ensures forall i :: 0 <= i < |lines| ==> flags[i] == IsFence(lines[i])
  {
    seq(|lines|, i requires 0 <= i < |lines| => IsFence(lines[i]))
  }

  /** Number of fences among the first `i` lines. */
  function FencesBefore(flags: seq<bool>, i: nat): nat
    requires i <= |flags|
  {
    if i == 0 then 0
    else FencesBefore(flags, i - 1) + (if flags[i - 1] then 1 else 0)
  }

  /** The `in_code_block` state before line `i`: each fence toggles it. */
  predicate Toggled(flags: seq<bool>, i: nat)
    requires i <= |flags|
  {
    if i == 0 then false
    else if flags[i - 1] then !Toggled(flags, i - 1)
    else Toggled(flags, i - 1)
  }

  /** Line `i` lies inside a code block. */
  predicate InBlockAt(lines: seq<string>, i: nat)
    requires i <= |lines|
  {
    Toggled(FenceFlags(lines), i)
  }

  /** What the pass writes for line `i`, decided by fence parity alone. */
  function ExpectedLine(lines: seq<string>, i: nat): string
    requires i < |lines|
  {
    var line := lines[i];
    if !IsFence(line) then line
    else if InBlockAt(lines, i) then Fence
    else if IsBareFence(line) then CsharpFence
    else line
  }

  /** The pass on a list of lines, line by line. */
  function Converted(lines: seq<string>): (out: seq<string>)
    ensures |out| == |lines|
    ensures forall i :: 0 <= i < |lines| && !IsFence(lines[i]) ==> out[i] == lines[i]
  {
    seq(|lines|, i requires 0 <= i < |lines| => ExpectedLine(lines, i))
  }

  /** The pass on a page: split at newlines, convert, join. */
  function CodeBlocks(text: string): (r: string)
    ensures Split(r, '\n') == Converted(Split(text, '\n'))
  {
    var lines := Split(text, '\n');
    ConvertedNoNewline(lines);
    SplitJoin(Converted(lines), '\n');
    Join(Converted(lines), '\n')
  }

  lemma FenceStrip()
    ensures Strip(Fence) == Fence
  {
    StripStripped(Fence);
  }

  lemma CsharpStrip()
    ensures Strip(CsharpFence) == CsharpFence
  {
    StripStripped(CsharpFence);
  }

  /** "```" is a bare fence. */
  lemma BareFenceLiteral()
    ensures IsFence(Fence) && IsBareFence(Fence)
  {
    FenceStrip();
  }

  /** "```csharp" is a fence with a language tag. */
  lemma CsharpFenceLiteral()
    ensures IsFence(CsharpFence) && !IsBareFence(CsharpFence)
  {
    CsharpStrip();
    assert CsharpFence[..3] == Fence;
  }

  /** The loop of `convert_code_blocks_to_csharp`, with `in_code_block` as its
      only state; it computes `CodeBlocks`. */
  method ConvertCodeBlocks(text: string) returns (r: string)
    ensures r == CodeBlocks(text)
  {
    var lines := Split(text, '\n');
    var newLines: seq<string> := [];
    var inCodeBlock := false;
    for i := 0 to |lines|
      invariant |newLines| == i
      invariant forall k :: 0 <= k < i ==> newLines[k] == ExpectedLine(lines, k)
      invariant inCodeBlock == InBlockAt(lines, i)
    {
      var line := lines[i];
      var stripped := Strip(line);
      var out: string;
      if StartsWith(stripped, Fence) {
        if stripped == Fence {
          if !inCodeBlock {
            out := CsharpFence;
          } else {
            out := Fence;
          }
        } else {
          if !inCodeBlock {
            out := line;
          } else {
            out := Fence;
          }
        }
        inCodeBlock := !inCodeBlock;
      } else {
        out := line;
      }
      assert out == ExpectedLine(lines, i);
      newLines := newLines + [out];
    }
    assert newLines == Converted(lines);
    r := Join(newLines, '\n');
  }

  /** The toggled state is the parity of the fences seen so far. */
  lemma {:induction false} ToggledParity(flags: seq<bool>, i: nat)
    requires i <= |flags|
    ensures Toggled(flags, i) <==> FencesBefore(flags, i) % 2 == 1
  {
    if i > 0 {
      ToggledParity(flags, i - 1);
    }
  }

  /** An opening fence in the output always carries a language tag: its
      stripped form is longer than the three backticks. */
  lemma OpeningFenceTagged(lines: seq<string>, i: nat)
    requires i < |lines| && IsFence(lines[i]) && !InBlockAt(lines, i)
    ensures |Strip(Converted(lines)[i])| > |Fence|
  {
    ConvertedLine(lines, i);
  }

  /** Every output line is a fence exactly when its input line is one; an
      opening fence never comes out bare, a closing fence always does. */
  lemma ConvertedLine(lines: seq<string>, i: nat)
    requires i < |lines|
    ensures IsFence(Converted(lines)[i]) <==> IsFence(lines[i])
    ensures IsFence(lines[i]) && InBlockAt(lines, i) ==> Converted(lines)[i] == Fence
    ensures IsFence(lines[i]) && !InBlockAt(lines, i) ==> !IsBareFence(Converted(lines)[i])
    ensures IsFence(lines[i]) && !InBlockAt(lines, i) && IsBareFence(lines[i])
            ==> Converted(lines)[i] == CsharpFence
    ensures IsFence(lines[i]) && !InBlockAt(lines, i) && !IsBareFence(lines[i])
            ==> Converted(lines)[i] == lines[i]
  {
    var line := lines[i];
    assert Converted(lines)[i] == ExpectedLine(lines, i);
    if IsFence(line) {
      if InBlockAt(lines, i) {
        BareFenceLiteral();
      } else if IsBareFence(line) {
        CsharpFenceLiteral();
      }
    }
  }

  /** The output has its fences at the same places, so every line keeps its
      inside/outside status. */
  lemma ConvertedFlags(lines: seq<string>)
    ensures FenceFlags(Converted(lines)) == FenceFlags(lines)
  {
    forall i | 0 <= i < |lines|
      ensures IsFence(Converted(lines)[i]) == IsFence(lines[i])
    {
      ConvertedLine(lines, i);
    }
  }

  /** Converting twice is converting once. */
  lemma ConvertedIdempotent(lines: seq<string>)
    ensures Converted(Converted(lines)) == Converted(lines)
  {
    var out := Converted(lines);
    forall i | 0 <= i < |lines|
      ensures Converted(out)[i] == out[i]
    {
      ConvertedLine(lines, i);
      ConvertedFlags(lines);
      if IsFence(lines[i]) {
        ConvertedLine(out, i);
        if InBlockAt(lines, i) {
          BareFenceLiteral();
        }
      }
    }
  }

  /** The pass introduces no newline into any line. */
  lemma ConvertedNoNewline(lines: seq<string>)
    requires NoneContains(lines, '\n')
    ensures NoneContains(Converted(lines), '\n')
  {
    assert '\n' !in Fence && '\n' !in CsharpFence;
  }

  /** A page without fence lines is returned unchanged. */
  lemma CodeBlocksWithoutFences(text: string)
    requires forall line | line in Split(text, '\n') :: !IsFence(line)
    ensures CodeBlocks(text) == text
  {
    var lines := Split(text, '\n');
    assert Converted(lines) == lines;
    JoinSplit(text, '\n');
  }

  /** Running the pass twice is the same as running it once. */
  lemma CodeBlocksIdempotent(text: string)
    ensures CodeBlocks(CodeBlocks(text)) == CodeBlocks(text)
  {
    ConvertedIdempotent(Split(text, '\n'));
  }
}
