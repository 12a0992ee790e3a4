# Markdown post-processing of the Unity documentation converter

`convert_unity_docs.py` turns a tree of Unity HTML documentation pages into
Markdown. After an HTML-to-Markdown renderer has produced a page, three
string-to-string passes run on it, in this order:

1. `clean_markdown`: every run of three or more newlines becomes one blank
   line, and the page is stripped of leading and trailing whitespace.
2. `convert_html_links_to_md`: every Markdown link of the form
   `[text](...html...)` is rewritten so that each `.html` inside it becomes `.md`.
3. `convert_code_blocks_to_csharp`: a line-by-line state machine over code
   fences. A bare opening fence becomes "```csharp", a tagged opening fence is
   kept, and every closing fence becomes a bare "```".

The project models these passes and their composition, and proves properties
of them. The project is laid out as follows:

- `text.dfy` (module `Text`) holds the string helpers:
  - Python's `str.strip`, with the `str.isspace` table written out;
  - first-occurrence search;
  - `str.split` and `str.join` on one separator, with the round-trip lemmas `Join(Split(s)) == s` and `Split(Join(pieces)) == pieces`;
  - a character count.
- `clean_markdown.dfy` (module `CleanMarkdown`) holds the first pass.
- `html_links.dfy` (module `HtmlLinks`) holds the link pass. The regular expression `(\[([^\]]+)\]\([^)]*\.html(?:[^)]*)?\))` is written two ways:
  - `IsHtmlLink` and `LinkShape` state the language the pattern matches;
  - the scanner `LinkLength` decides whether a match starts at the head of a string;
  - `LinkLengthIff` proves that the two agree.

  `RewriteLinks` is the leftmost, non-overlapping substitution. After a match the scan resumes just past its `)`; otherwise it moves on one character.
- `code_fences.dfy` (module `CodeFences`) holds the fence pass:
  - `Converted` decides each output line from fence parity alone;
  - the method `ConvertCodeBlocks` is the source's loop, with `in_code_block` as its only state, and it is proved to compute the same thing.
- `post_process.dfy` (module `PostProcess`) holds the three passes composed.

## Model

| member | source | states |
|---|---|---|
| CleanMarkdown.CollapseNewlines | convert_unity_docs.py:76 | the result has no three consecutive newlines, is never longer than the input, and starts with a newline exactly when the input does |
| CleanMarkdown.CollapseRun | convert_unity_docs.py:76 | the substitution rule on one maximal run of `k` newlines: with `k >= 3` the run becomes exactly `"\n\n"`, with fewer it is kept as it is, and the collapse carries on after the run |
| CleanMarkdown.CollapseFixedIff | convert_unity_docs.py:76 | the substitution leaves a string unchanged exactly when it has no run of three newlines |
| CleanMarkdown.CollapseKeepsText | convert_unity_docs.py:76 | the substitution touches only newlines: every other character survives, in order |
| CleanMarkdown.Clean | convert_unity_docs.py:71-81 | the cleaned page has no triple newline and no leading or trailing whitespace |
| CleanMarkdown.CleanFixedIff | convert_unity_docs.py:71-81 | a page is a fixed point of the pass exactly when it is already clean |
| CleanMarkdown.CleanIdempotent | convert_unity_docs.py:71-81 | cleaning twice equals cleaning once |
| CleanMarkdown.StripNoTripleNewline | convert_unity_docs.py:79 | stripping cannot create a triple newline |
| Text.Strip | convert_unity_docs.py:79 | `strip()` returns a string whose first and last characters are not whitespace |
| Text.StripDecomposes | convert_unity_docs.py:79 | the input is the stripped string with whitespace on either side |
| Text.StripPadded | convert_unity_docs.py:79 | any stripped string, padded with whitespace on both sides, strips back to itself |
| Text.Split | convert_unity_docs.py:110 | `split('\n')` yields at least one line, and no line contains a newline |
| Text.Join | convert_unity_docs.py:150 | `'\n'.join` of newline-free lines puts exactly one newline between neighbours, so the page has one newline fewer than it has lines |
| Text.JoinSplit | convert_unity_docs.py:110-150 | joining the pieces of `split('\n')` with `'\n'` gives back the page |
| Text.SplitJoin | convert_unity_docs.py:110-150 | splitting a join of newline-free lines gives back the lines |
| Text.SplitCount | convert_unity_docs.py:110 | `split('\n')` yields one line more than the page has newlines |
| HtmlLinks.LinkLength | convert_unity_docs.py:90 | a match found at the head lies within the string and ends in `)`; `LinkLengthIff` gives the exact language |
| HtmlLinks.LinkLengthIff | convert_unity_docs.py:90 | the scanner finds a link of length `n` at the head of `s` exactly when `s[..n]` is a whole match of the link pattern |
| HtmlLinks.ReplaceInLink | convert_unity_docs.py:92-96 | `replace_html_link` as written, lookahead included, only turns occurrences of `.html` into `.md` and never lengthens the link |
| HtmlLinks.ReplaceInLinkIsReplaceAll | convert_unity_docs.py:92-96 | inside a matched link, which ends in `)`, the lookahead always holds, so the link is rewritten by the replace-all `ReplaceHtml`, link text included |
| HtmlLinks.ReplaceHtmlNoHtml | convert_unity_docs.py:95 | after replacing every occurrence, no `.html` is left: none survives and none forms across a `.md` or a copied character |
| HtmlLinks.RewriteLinks | convert_unity_docs.py:83-101 | the pass never makes the page longer; `RewriteOnlyReplaces` and `RewriteAtLink` state what it changes |
| HtmlLinks.RewriteOnlyReplaces | convert_unity_docs.py:83-101 | the pass changes the page only by turning some occurrences of `.html` into `.md` |
| HtmlLinks.RewriteNeverLonger | convert_unity_docs.py:83-101 | the output is never longer than the input, and is equally long only when nothing changed |
| HtmlLinks.RewriteWithoutHtml | convert_unity_docs.py:83-101 | a page without `.html` is returned unchanged |
| HtmlLinks.ReplacesCount | convert_unity_docs.py:95 | replacing `.html` by `.md` keeps the count of every other character, newlines in particular |
| HtmlLinks.RewriteAtLink | convert_unity_docs.py:90-99 | a link `[text](prefix.htmlsuffix)` at the scan position is rewritten in full, and the scan resumes after its `)` |
| HtmlLinks.RewritePlainLink | convert_unity_docs.py:86-99 | `[text](path.html#frag)` becomes `[text](path.md#frag)`, and the fragment is kept |
| HtmlLinks.RewriteRelativeLinks | convert_unity_docs.py:89 | the targets `page.html`, `./page.html` and `../page.html` all become the same link with `.md` |
| HtmlLinks.RewriteEmptyTextLink | convert_unity_docs.py:90 | a link with empty text, such as `[](x.html)`, is never rewritten |
| HtmlLinks.NoLinkBeforePlainTarget | convert_unity_docs.py:90 | a `[` whose first following `](` target, up to the first `)`, holds no `.html` does not start a match |
| HtmlLinks.RewriteNonHtmlTarget | convert_unity_docs.py:90 | a bracketed text followed by a target without `.html`, such as `[a](b.txt)`, is copied unchanged, together with every `[` inside the text |
| HtmlLinks.RewriteNotIdempotent | convert_unity_docs.py:90-99 | on `[a](b[c.html)d](e.html)` the first pass rewrites only the first link, and a second pass rewrites a link that the `[` inside the old target opens |
| CodeFences.ConvertCodeBlocks | convert_unity_docs.py:103-150 | the loop with one boolean state computes the parity-based conversion, line for line |
| CodeFences.Converted | convert_unity_docs.py:115-148 | there is one output line per input line, and every line that is not a fence is copied verbatim |
| CodeFences.ToggledParity | convert_unity_docs.py:112-145 | the `in_code_block` flag before a line is the parity of the fences above it |
| CodeFences.ConvertedLine | convert_unity_docs.py:119-145 | fences stay fences and nothing else becomes one; inside a block a fence becomes exactly "```"; outside, a bare fence becomes "```csharp" and a tagged one is kept |
| CodeFences.OpeningFenceTagged | convert_unity_docs.py:119-140 | every opening fence of the output, stripped, is longer than three backticks, so it carries a language tag |
| CodeFences.ConvertedFlags | convert_unity_docs.py:115-148 | the output has its fences on the same lines as the input |
| CodeFences.ConvertedIdempotent | convert_unity_docs.py:115-148 | converting the lines twice equals converting them once |
| CodeFences.CodeBlocks | convert_unity_docs.py:103-150 | the page's lines after the pass are exactly the converted lines, one for one, so the line count is unchanged |
| CodeFences.CodeBlocksWithoutFences | convert_unity_docs.py:110-150 | a page without fence lines is returned unchanged |
| CodeFences.CodeBlocksIdempotent | convert_unity_docs.py:103-150 | running the fence pass twice equals running it once |
| PostProcess.ConvertMarkdown | convert_unity_docs.py:200-206 | the three passes in order; the result has as many lines as the cleaned page |
| PostProcess.PostProcess | convert_unity_docs.py:200-206 | the three passes in order; after the cleanup, neither the link pass nor the fence pass adds or removes a line |
| PostProcess.RewriteKeepsLines | convert_unity_docs.py:203 | the link pass keeps the page's line count |
| PostProcess.PostProcessFixed | convert_unity_docs.py:200-206 | a clean page with no `[` and no fence line passes through unchanged |
| PostProcess.PostProcessOfCleaned | convert_unity_docs.py:200 | cleaning the input beforehand changes nothing |

## Left out

- `clean_content` and the tooltip and table clean-up (convert_unity_docs.py:21-69, 184-194) are left out. They are DOM queries and edits on a foreign HTML library's tree.
- The HTML-to-Markdown renderer call (convert_unity_docs.py:197) is left out. It is an opaque third-party library, and the model starts from its output string.
- File reading and writing, the directory walk, and output-path mapping are left out. These are filesystem I/O.
- The thread-pool batch driver, the physical-core count, the command line and the interactive prompt are left out. They are concurrency, host queries and user I/O.
- `code_block_language` (convert_unity_docs.py:113, 126, 131, 139-140, 145) is never read, so the fence pass keeps only `in_code_block`.
- Regular-expression engine details are not modelled. Instead, the link pattern is stated as a language (`IsHtmlLink`) and as a scanner proved equivalent to it.
- HtmlLinks.RewriteNonHtmlTarget: requires the target to contain no `[`. Such a `[` could open a later link. The exact statement that no match starts at the outer `[` is `NoLinkBeforePlainTarget`, which has no such requirement.
- HtmlLinks.RewriteRelativeLinks: requires the link text, page and fragment to contain no `.` and states the three target forms for a whole page made of that one link. `RewritePlainLink` states the general case, with any following text and any parts free of `.html`.

## Notes on the source's behaviour

- The link pass is not idempotent. It is sometimes described as a no-op on already rewritten text, but the code is not. In `[a](b[c.html)d](e.html)` the pattern matches only `[a](b[c.html)`. The `[` inside that target is consumed with the match. On a second pass, the first link's target now ends in `.md` and no longer matches. The inner `[` then opens the match `[c.md)d](e.html)`. `HtmlLinks.RewriteNotIdempotent` proves this for every choice of the plain parts `a` to `e`. The model follows the code.
- A closing fence is sometimes described as left unchanged. The code instead writes a bare "```" for every closing fence. An indented or tagged closing fence therefore changes. The model follows the code.
- `str.strip` is modelled with CPython's full whitespace table, not only the ASCII whitespace characters.
