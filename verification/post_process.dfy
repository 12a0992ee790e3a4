/**
 The Markdown post-processing applied to every converted page, in the order
 `convert_single_file` runs it: blank-line cleanup, then the link pass, then
 the fence pass.
 */
module PostProcess {
  import opened Text
  import CleanMarkdown
  import HtmlLinks
  import CodeFences

  /** The three passes composed. */
  function PostProcess(markdown: string): (r: string)
    ensures |Split(r, '\n')| == |Split(CleanMarkdown.Clean(markdown), '\n')|
  {
    var cleaned := CleanMarkdown.Clean(markdown);
    RewriteKeepsLines(cleaned);
    CodeFences.CodeBlocks(HtmlLinks.RewriteLinks(cleaned))
  }

  /** The link pass keeps every newline, so the page keeps its line count. */
  lemma RewriteKeepsLines(s: string)
    ensures |Split(HtmlLinks.RewriteLinks(s), '\n')| == |Split(s, '\n')|
  {
    HtmlLinks.RewriteOnlyReplaces(s);
    HtmlLinks.ReplacesCount(s, HtmlLinks.RewriteLinks(s), '\n');
    SplitCount(s, '\n');
    SplitCount(HtmlLinks.RewriteLinks(s), '\n');
  }

  /** A clean page with no `[` and no fence line passes through unchanged. */
  lemma PostProcessFixed(markdown: string)
    requires CleanMarkdown.IsClean(markdown)
    requires '[' !in markdown
    requires forall line | line in Split(markdown, '\n') :: !CodeFences.IsFence(line)
    ensures PostProcess(markdown) == markdown
  {
    CleanMarkdown.CleanFixedIff(markdown);
    HtmlLinks.RewriteWithoutBracket(markdown);
    CodeFences.CodeBlocksWithoutFences(markdown);
  }

  /** Cleaning the page first changes nothing: the cleanup is idempotent. */
  lemma PostProcessOfCleaned(markdown: string)
    ensures PostProcess(CleanMarkdown.Clean(markdown)) == PostProcess(markdown)
  {
    CleanMarkdown.CleanIdempotent(markdown);
  }

  /** The post-processing steps of `convert_single_file`, with the fence pass
      run as its loop. */
  method ConvertMarkdown(markdown: string) returns (result: string)
    ensures result == PostProcess(markdown)
    ensures |Split(result, '\n')| == |Split(CleanMarkdown.Clean(markdown), '\n')|
  {
    var cleaned := CleanMarkdown.Clean(markdown);
    var linked := HtmlLinks.RewriteLinks(cleaned);
    result := CodeFences.ConvertCodeBlocks(linked);
  }
}
