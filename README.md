# Readme transformer and version-consistency checker, modelled in Dafny

This project models the two command-line tools of a WordPress plugin
template.

**The readme transformer** (`tools/transform-readme.php`) turns the
plugin's `README.md` into the `readme.txt` layout that the WordPress plugin
directory expects. It makes five rewrite passes over one text buffer, in
order:

1. Fenced code blocks become `<pre>` blocks holding the trimmed,
   HTML-escaped body (module `CodeBlocks`, with `HtmlEscape`).
2. The header block before `## Description` is rewritten (modules
   `HeaderBlock`, `Metadata`, `Header`, using `MarkdownLinks`):
   - badge, image and comment lines are deleted;
   - the rest is cut into title, short description and `**Key:** value`
     metadata;
   - the header is checked and written back as `Key: value` lines.
3. Image links to YouTube videos become the bare video URL (module
   `YouTube`).
4. The first `## Screenshots` … `## Changelog` region becomes a numbered
   caption list. Afterwards the listing of screenshot files is checked
   against the caption count (module `Screenshots`).
5. Markdown headings of level 1 to 3 become `=`-wrapped headings (module
   `Headings`).

The first `error()` ends the run. `Diagnostic(message, line)` models it:
the message the script prints and the `__LINE__` it passes.
`TransformReadme.Transform` chains the passes as functions. The method
`TransformReadme.TransformReadme` reassigns one buffer pass by pass, as
the script does, and is proved equal to `Transform`.

**The version-consistency checker** (`tools/verify-version-consistency.php`)
collects the plugin's version references into the `$versions` array
(modules `VersionScan` and `VersionCheck`):

- package.json's `version`;
- the readme's `**Stable tag:**`;
- the first changelog heading;
- the bootstrap file's `Version:` header and its `VERSION` constant.

It then decides whether they are consistent. An error is the message the
script prints before `exit( 1 )`.

Each regular expression is modelled as a hand-written scanner. The scanner
makes the choices PCRE makes for that pattern: the leftmost match, greedy
or lazy quantifiers with their backtracking, and `^`/`$` under `/m` as
line start and line end. Three details of the code that the model keeps:

- trim() strips only `" \t\n\r\0\x0B"`;
- the `\s` after a heading's `#` run may be a line break;
- the metadata value's `\s+` gives back its last character when the line
  ends in whitespace.

Inputs that the scripts read from disk are parameters:

- the README text;
- the screenshot file listing, in glob order;
- the parsed package.json, as a `map<string, string>`;
- the PHP files of the plugin directory, as (path, contents) pairs in
  glob order;
- PHP's `version_compare( a, b, '<' )`, as the function parameter `less`.

## Model

| member | source | states |
|---|---|---|
| CodeBlocks.CloseFrom | tools/transform-readme.php:61 | the lazy `.+?\n```` step finds the first closing fence (line break, then "```") at or after the given index; none is skipped, and None means there is none |
| CodeBlocks.FenceAt | tools/transform-readme.php:61 | a match fits in the text and its opening "```" follows the prefix |
| CodeBlocks.FenceFrom | tools/transform-readme.php:61 | a match after the prefix `s[..k]` fits in the text and keeps that prefix |
| CodeBlocks.FenceAtShape | tools/transform-readme.php:61 | a match spells out prefix + "```" + tag + line break + body + "```"; the prefix is a line break, or empty at the start of the document; the tag is word characters; the body is at least two characters and ends with a line break |
| CodeBlocks.FenceFound | tools/transform-readme.php:61 | conversely, a block that the document spells out this way, with no earlier closing fence in its body, is the match found |
| CodeBlocks.FenceRewritten | tools/transform-readme.php:60-66 | such a block is replaced by the same prefix, `<pre>`, the escaped trimmed body and `</pre>`, and the pass resumes right after the closing fence |
| CodeBlocks.LanguageTagDropped | tools/transform-readme.php:60-66 | two blocks that differ only in their language tag give the same output |
| CodeBlocks.WithoutFenceUnchanged | tools/transform-readme.php:60-68 | a document without a backquote passes through unchanged |
| CodeBlocks.RewriteCodeBlocks | tools/transform-readme.php:60-68 | the code-block pass over the whole document returns a document without a backquote unchanged; BlockInDocument states that a block after any text without a backquote becomes its `<pre>` block with that text copied before it |
| CodeBlocks.RewriteFrom | tools/transform-readme.php:60-68 | the scan of preg_replace_callback; CodeCopied, FenceRewritten, WithoutFenceUnchanged and LanguageTagDropped state what it returns |
| CodeBlocks.CodeCopied | tools/transform-readme.php:60-68 | text without a backquote, before a rest that does not start with one, is copied as it is, and the rest is scanned as the document start only when nothing came before it |
| CodeBlocks.BlockInDocument | tools/transform-readme.php:60-68 | a fenced block after any text without a backquote: the text is copied, and the block becomes its line break, `<pre>`, the escaped trimmed body and `</pre>`, with the pass going on after the closing fence |
| HtmlEscape.EscapeChar | tools/transform-readme.php:64 | a character becomes an entity (starting with '&') exactly when it is one of the five special characters; the result holds no special character other than '&' |
| HtmlEscape.Escape | tools/transform-readme.php:64 | htmlspecialchars() leaves no '<', '>', '"' or '\'' in its result and never shortens the text |
| HtmlEscape.UnescapeEscape | tools/transform-readme.php:64 | decoding the entities gives back the original text, so escaping loses nothing |
| Text.TrimStart | tools/transform-readme.php:63 | ltrim() keeps a suffix that starts with a non-trim character and drops only trim characters |
| Text.TrimEnd | tools/transform-readme.php:63 | rtrim() keeps a prefix that ends with a non-trim character and drops only trim characters |
| Text.Trim | tools/transform-readme.php:63 | trim() returns an infix of the text that neither starts nor ends with a trim character; everything it drops before and after that infix is a trim character |
| Text.TrimKeeps | tools/transform-readme.php:63 | trim() leaves a text as it is exactly when it is empty or neither of its ends is a trim character |
| Text.Split | tools/transform-readme.php:91 | explode() returns at least one part, and no part holds the delimiter |
| Text.JoinSplit | tools/transform-readme.php:91 | gluing the parts of explode() back with the delimiter gives the original text |
| Text.SplitJoin | tools/transform-readme.php:91 | explode() of parts glued with a delimiter they do not hold gives the parts back |
| Text.SplitUnlines | tools/transform-readme.php:91 | text made of lines each ending in a line break splits into those lines and one empty tail |
| Text.FindFrom | tools/transform-readme.php:72 | the first occurrence at or after an index; none is skipped, and None means there is none |
| Text.NatToString | tools/transform-readme.php:156 | sprintf( '%d', n ) is a digit string without a leading zero whose decimal value is n |
| Text.Repeat | tools/transform-readme.php:198 | str_repeat() gives n copies of the character |
| Text.Basename | tools/transform-readme.php:176 | basename() is the suffix after the last '/' and holds no '/' |
| Text.BasenameOf | tools/transform-readme.php:176 | the basename of `dir/name` is `name` |
| MarkdownLinks.TextEnd | tools/transform-readme.php:97 | the lazy link text ends at the first "](" from its start, and never crosses a line break; when there is none, every later "](" lies past a line break |
| MarkdownLinks.UrlEnd | tools/transform-readme.php:97 | the lazy link URL ends at the first ')' and never crosses a line break |
| MarkdownLinks.LinkAt | tools/transform-readme.php:97 | a link found at the start of the text is spelled `[text](url)`, with text and URL non-empty and on one line; text that does not start with '[' holds no link there |
| MarkdownLinks.PlainLinkReplaced | tools/transform-readme.php:97-103 | a link `[text](url)` is replaced by its text (line 97) or by its URL (line 103), and the rest is rewritten the same way |
| MarkdownLinks.ReplaceLinksPrefix | tools/transform-readme.php:97 | text before the first '[' is copied unchanged |
| MarkdownLinks.ReplaceLinksWithoutBracket | tools/transform-readme.php:97 | text without '[' holds no link and is returned unchanged |
| MarkdownLinks.ReplaceLinks | tools/transform-readme.php:97-103 | the two link replacements; PlainLinkReplaced, ReplaceLinksPrefix and ReplaceLinksWithoutBracket state what they return |
| HeaderBlock.ImageEnd | tools/transform-readme.php:75 | an image or linked-image match ends after its start, at a line end |
| HeaderBlock.ImgTagEnd | tools/transform-readme.php:75 | an `<img …>` match ends after its start, at a line end |
| HeaderBlock.CommentEnd | tools/transform-readme.php:75 | an HTML comment match ends after its start, at a line end |
| HeaderBlock.DecorationEnd | tools/transform-readme.php:75 | a match of the three-way alternative ends after its start |
| HeaderBlock.StripSkips | tools/transform-readme.php:75 | a decoration found at a line start is deleted and scanning resumes after it |
| HeaderBlock.StripCopies | tools/transform-readme.php:75 | text in which no decoration starts is copied through |
| HeaderBlock.PlainLineKept | tools/transform-readme.php:75 | a line not starting with '[', '!' or '<' is kept as it is |
| HeaderBlock.BadgeEndIs | tools/transform-readme.php:75 | a badge `[![alt](image)](link)` that fills a line is matched up to its line end |
| HeaderBlock.BadgeLineDeleted | tools/transform-readme.php:75 | a badge line is deleted and its line break stays |
| HeaderBlock.ImageEndIs | tools/transform-readme.php:75 | an image `![alt](image)` that fills a line is matched up to its line end |
| HeaderBlock.ImageLineDeleted | tools/transform-readme.php:75 | an image line is deleted and its line break stays |
| HeaderBlock.CommentEndIs | tools/transform-readme.php:75 | a comment `<!--text-->` that fills a line is matched up to its line end |
| HeaderBlock.CommentLineDeleted | tools/transform-readme.php:75 | a comment line is deleted and its line break stays |
| HeaderBlock.ImgTagEndIs | tools/transform-readme.php:75 | an `<img …>` tag that fills a line is matched up to its line end |
| HeaderBlock.ImgTagLineDeleted | tools/transform-readme.php:75 | an `<img …>` line is deleted and its line break stays |
| HeaderBlock.StripDecorations | tools/transform-readme.php:75 | text in which no decoration starts is returned unchanged; the *LineDeleted lemmas state that each decoration line is deleted with its line break kept |
| HeaderBlock.StripFrom | tools/transform-readme.php:75 | the scan of preg_replace; StripSkips, StripCopies, PlainLineKept and the *LineDeleted lemmas state what it returns |
| HeaderBlock.SplitParagraphs | tools/transform-readme.php:77 | preg_split on runs of two or more line breaks returns at least one part, and no part holds a blank line |
| HeaderBlock.FirstBlankLine | tools/transform-readme.php:77 | in `p + "\n\n" + rest`, the first blank line is the one after the paragraph p |
| HeaderBlock.SplitJoinParagraphs | tools/transform-readme.php:77 | paragraphs separated by single blank lines split back into exactly those paragraphs |
| Header.HeaderParts | tools/transform-readme.php:75-77 | the stripped, trimmed header yields at least one part, and no part holds a blank line |
| Header.ParseParts | tools/transform-readme.php:79-125 | a part count other than 3 fails with "Too many sections…" (line 80); a description over 150 characters fails quoting it (line 87); otherwise success holds exactly when every metadata line parses and every required key has a value; a success carries the title and the description parts verbatim |
| Header.EmitHeader | tools/transform-readme.php:127-133 | the loop appends the `Key: value` lines in insertion order between the title and the description |
| Header.HeaderLayout | tools/transform-readme.php:127-133 | the new header is the title, a blank line, the `Key: value` lines joined by line breaks, a blank line, and the description followed by a blank line |
| Header.RewriteBlock | tools/transform-readme.php:73-134 | the callback succeeds exactly when the header parses and checks, and then returns its new layout |
| Header.HeaderCallback | tools/transform-readme.php:73-134 | the callback's statements, with both loops, return what RewriteBlock specifies |
| Header.RewriteHeader | tools/transform-readme.php:71-136 | without a "## Description" after the first character, the document is unchanged; otherwise the text before the first one is replaced by its new layout, or the pass fails exactly when that header does |
| Header.ReplaceHeader | tools/transform-readme.php:71-136 | the replacement as the script performs it, through the callback, equals RewriteHeader |
| Header.DescriptionSectionKept | tools/transform-readme.php:71-136 | everything from the first "## Description" on ends the output unchanged |
| Metadata.Put | tools/transform-readme.php:99 | assigning a key keeps every key unique; an existing key keeps its place, and a new key goes at the end |
| Metadata.PutLookup | tools/transform-readme.php:99 | after the assignment the key reads back the new value, and every other key reads back its old value |
| Metadata.KeyEnd | tools/transform-readme.php:93 | the lazy key group ends at the first place where ":**" and a value follow; none is skipped, and None means there is none |
| Metadata.ValueAtShape | tools/transform-readme.php:93 | the value is a non-empty tail of the line after at least one whitespace character, and one is found whenever whitespace follows and the line does not end in whitespace |
| Metadata.ParseMetaLine | tools/transform-readme.php:93 | a parsed line starts `**key:**` with the shortest key for which the rest matches; a line not starting with `**` or without a key end does not parse |
| Metadata.MetaLineParsed | tools/transform-readme.php:93 | a line `**key:** value` with a key free of ':' parses back to that key and value |
| Metadata.AddMetaLine | tools/transform-readme.php:91-111 | one pass of the foreach keeps the keys unique |
| Metadata.AddMetaLines | tools/transform-readme.php:91-111 | the lines, added in order, keep the keys unique; MetadataContents states the keys and values of the result |
| Metadata.MetadataOf | tools/transform-readme.php:90-111 | `$metadata` built from the metadata part has unique keys; MetadataOfContents states its keys and values |
| Metadata.FirstOccurrences | tools/transform-readme.php:99 | the keys of a history of assignments in the order of their first assignment: the same keys, none twice |
| Metadata.LastValue | tools/transform-readme.php:99 | the value a key was last assigned, None exactly when it never was |
| Metadata.PutFollows | tools/transform-readme.php:99 | one more assignment keeps a dictionary whose keys are in first-assignment order and whose values are the last assigned ones |
| Metadata.PutAllDescribes | tools/transform-readme.php:91-111 | assignments carried out in order from an empty dictionary leave exactly that first-assignment key order and the last assigned values |
| Metadata.PutAllAppend | tools/transform-readme.php:91-111 | carrying out two runs of assignments is carrying out the first, then the second |
| Metadata.LineCarriedOut | tools/transform-readme.php:97-110 | a successful meta line sets its key to the value with links replaced by their text and, for "License", then sets "License URI" to the value with links replaced by their URL |
| Metadata.LinesCarriedOut | tools/transform-readme.php:91-111 | a successful run carries out the assignments of every line, in line order |
| Metadata.MetadataContents | tools/transform-readme.php:91-111 | in the final dictionary the keys appear in the order of their first assignment (a new "License URI" right after "License") and each holds the value of the line that set it last |
| Metadata.MetadataOfContents | tools/transform-readme.php:90-111 | the same for `$metadata` built from the metadata part of the header |
| Metadata.ParseMetadata | tools/transform-readme.php:90-111 | the foreach loop over the lines returns what AddMetaLines specifies |
| Metadata.AddMetaLinesSnoc | tools/transform-readme.php:91-111 | adding lines one after another is adding the first ones and then the last; a failure stops the run |
| Metadata.LineAdded | tools/transform-readme.php:97-110 | a successful line stores its value with each link replaced by its text; for "License", "License URI" holds the value with each link replaced by its URL, and that starts with "http" |
| Metadata.LastLineWins | tools/transform-readme.php:97-110 | the same holds in the final dictionary for the last line |
| Metadata.SuccessMeansEveryLineParses | tools/transform-readme.php:93-95 | when the run succeeds, every line matches the `**key:** value` pattern |
| Metadata.MissingFrom | tools/transform-readme.php:121-125 | finds the first required key without a value, or None exactly when every one has a value |
| Metadata.IsEmptyValue | tools/transform-readme.php:122 | what empty() rejects in a string value, "" and "0"; CheckRequired states where it is used |
| Metadata.CheckRequired | tools/transform-readme.php:113-125 | passes exactly when all six required keys hold a value that empty() does not reject; otherwise it reports the first missing key in list order (line 123) |
| Metadata.RenderedLines | tools/transform-readme.php:128-130 | the emitted metadata, cut at its line breaks, is one `Key: value` line per entry in insertion order |
| YouTube.HostEnd | tools/transform-readme.php:140 | the host alternative ends after its '/' |
| YouTube.HostEndShape | tools/transform-readme.php:140 | what the host alternative steps over is www.youtube.com, youtube.com or youtu.be |
| YouTube.UrlClose | tools/transform-readme.php:140 | the lazy video URL closes at a ')' past "https://" and the host |
| YouTube.HostEndIs | tools/transform-readme.php:140 | each of www.youtube.com, youtube.com and youtu.be is accepted, ending after its '/' |
| YouTube.UrlCloseShape | tools/transform-readme.php:140 | the URL that the lazy `.+?\)` closes is "https://", an accepted host, '/' and a non-empty path, with no line break |
| YouTube.UrlCloseIs | tools/transform-readme.php:140 | a video URL whose path holds no ')' closes at the first ')' after it |
| YouTube.ImageSearch | tools/transform-readme.php:140 | the lazy image-URL search returns a match whose parts lie in order within the text |
| YouTube.AltSearch | tools/transform-readme.php:140 | the lazy alternative-text search returns a match whose parts lie in order within the text |
| YouTube.VideoAt | tools/transform-readme.php:140 | a match of the whole pattern has its parts in order after the opening "[![" |
| YouTube.ImageSearchFits | tools/transform-readme.php:140 | a match found by the image-URL search has "](", ")](" and the closed video URL where the pattern needs them |
| YouTube.AltSearchFits | tools/transform-readme.php:140 | so has a match found by the alternative-text search |
| YouTube.VideoAtFits | tools/transform-readme.php:140 | a match starts with "[![", fits the pattern, and the URL it captures as `$1` is "https://", an accepted host, '/' and a non-empty path, on one line |
| YouTube.ReplaceStep | tools/transform-readme.php:139-143 | each step of preg_replace moves forward within the text |
| YouTube.VideoFound | tools/transform-readme.php:140 | an image linked to `https://host/path` (alt without ']', image without ')', path without ')', all on one line) is the match found, and the capture is exactly that URL |
| YouTube.VideoUnwrapped | tools/transform-readme.php:139-143 | such a linked image is replaced by the bare video URL, and the pass goes on after it |
| YouTube.WithoutBracketUnchanged | tools/transform-readme.php:139-143 | text without '[' passes through unchanged |
| YouTube.UnwrapVideos | tools/transform-readme.php:139-143 | text without '[' is returned unchanged; VideoInDocument states that a linked video after any text without '[' becomes its bare URL with that text copied before it |
| YouTube.UnwrapFrom | tools/transform-readme.php:139-143 | the scan of preg_replace; VideoCopied, VideoUnwrapped, ReplaceStep and WithoutBracketUnchanged state what it returns |
| YouTube.VideoCopied | tools/transform-readme.php:139-143 | a stretch without '[' is copied as it is, and the scan goes on after it |
| YouTube.VideoInDocument | tools/transform-readme.php:139-143 | a linked video with no '[' before it in the document: the text before it is copied, and the link becomes "https://", its host, '/' and its path, with the pass going on after it |
| Screenshots.BodyEnd | tools/transform-readme.php:148 | the lazy body ends at the first line break followed by "## Changelog"; none is skipped, and None means there is none |
| Screenshots.RegionAt | tools/transform-readme.php:148 | a region starts with "\n## Screenshots", its heading ends in a line break, and its body ends at the first place, at least two characters past the heading, where a line break and "## Changelog" follow |
| Screenshots.RegionAtIs | tools/transform-readme.php:148 | conversely, a heading, a run of line breaks and a first close at least two characters further give that region, the heading taking the whole run |
| Screenshots.FindRegion | tools/transform-readme.php:148 | the region found is the leftmost one; None means there is none |
| Screenshots.CaptionOf | tools/transform-readme.php:150 | a line holds a caption exactly when it starts with "### " and the caption is not empty; the caption is the rest of the line, without a closing " ###" |
| Screenshots.CaptionsOf | tools/transform-readme.php:150 | no more captions than lines, and none exactly when no line holds one |
| Screenshots.ClosedCaption | tools/transform-readme.php:150 | "### c ###" gives back c |
| Screenshots.OpenCaption | tools/transform-readme.php:150 | "### c" gives back c when c does not end in " ###" |
| Screenshots.CaptionsOfOne | tools/transform-readme.php:150 | a single line gives its caption when it holds one and nothing otherwise |
| Screenshots.CaptionsOfAppend | tools/transform-readme.php:150 | the captions of two runs of lines are those of the first followed by those of the second, so every caption line contributes its caption in line order |
| Screenshots.CaptionsOfBody | tools/transform-readme.php:150 | the captions of any body are the captions of its lines in line order, whatever the other lines hold |
| Screenshots.CaptionsParsed | tools/transform-readme.php:150 | a body made only of closed caption headings, one per line, gives back exactly those captions in order (a special case of CaptionsOfBody) |
| Screenshots.Captions | tools/transform-readme.php:150 | the captions preg_match_all collects from the body; CaptionsOfBody states that they are the captions of its lines in line order |
| Screenshots.NumberedLines | tools/transform-readme.php:156 | the i-th line is "(i+1). caption_i" |
| Screenshots.CaptionListStep | tools/transform-readme.php:155-156 | one more caption appends its numbered line to the list |
| Screenshots.ListedLines | tools/transform-readme.php:155-156 | the list, cut at its line breaks, is one numbered line per caption, in order |
| Screenshots.RenderCaptions | tools/transform-readme.php:154-159 | the loop returns the heading, the numbered lines and a blank line, and counts one per caption |
| Screenshots.Relisted | tools/transform-readme.php:147-161 | the text up to the end of the heading is kept, the body becomes the caption list, and the text from "## Changelog" on is kept |
| Screenshots.ScreenshotsFixed | tools/transform-readme.php:146-169 | without a region, the text is unchanged and the count is 0 (line 168 only warns); with one, the pass fails exactly when the body holds no caption (line 151); otherwise only the first region's body is replaced and the count is the number of captions |
| Screenshots.FixScreenshots | tools/transform-readme.php:146-166 | the callback with its caption counter returns what ScreenshotsFixed specifies |
| Screenshots.FirstOutOfSequence | tools/transform-readme.php:175-179 | the first listed file whose basename does not start with `screenshot-<i+1>.`; none is skipped |
| Screenshots.FilesChecked | tools/transform-readme.php:171-179 | passes exactly when the listing has one file per caption and the i-th basename starts with `screenshot-<i+1>.`; a count mismatch is reported first (line 173), then the first file out of sequence (line 177) |
| Screenshots.CheckScreenshotFiles | tools/transform-readme.php:171-179 | the count test and the loop over the listing return what FilesChecked specifies |
| Screenshots.NumberedFilesPass | tools/transform-readme.php:171-179 | the listing `dir/screenshot-1.ext` … `dir/screenshot-N.ext`, in numeric order, passes for N captions (glob() sorts names as strings, so from ten files on the real listing is not in this order) |
| Headings.TextEnd | tools/transform-readme.php:183 | the lazy heading text and the optional closing group end at a line end |
| Headings.TextEndShape | tools/transform-readme.php:183 | the text stays on its line and is followed either by the closing marks and the line end, or by the line end alone |
| Headings.HeadingAt | tools/transform-readme.php:183 | a heading starts at a line start with its level's run of '#', ends at a line end, and has a non-empty text on one line; no heading starts where no '#' starts a line |
| Headings.HeadingAfter | tools/transform-readme.php:183 | the level is the length of the whole '#' run |
| Headings.HeadingLineMatched | tools/transform-readme.php:183 | a line of L marks, a space and a text is matched with level L and that whole text, up to MatchEnd; a closing run of L marks is excluded from the text |
| Headings.MatchedText | tools/transform-readme.php:183 | the match of a heading line covers the line itself, and also the next line exactly when the line is open and the next line holds just its L marks (the `\s` of `(\s\1)?` taking the line break) |
| Headings.HeadingInDocument | tools/transform-readme.php:183 | a heading line standing as a whole line anywhere in a document is matched at its start |
| Headings.Banner | tools/transform-readme.php:191-200 | the readme.txt heading is the text wrapped in 4 - L '=' characters and a space on each side |
| Headings.ConvertFrom | tools/transform-readme.php:182-205 | the only error the callback pass raises is the line-193 one, and it converts at most one heading per character |
| Headings.ConvertHeadings | tools/transform-readme.php:182-208 | the heading pass fails only with the line-193 or the line-207 error |
| Headings.ConvertedAt | tools/transform-readme.php:184-200 | at a match of level 1 to 3 the pass puts out its banner, counts it and goes on after the match; at level four or more it stops, quoting the whole match |
| Headings.CopiedThrough | tools/transform-readme.php:182-205 | where no heading starts, preg_replace_callback copies the text unchanged and counts nothing |
| Headings.ConvertedAfterPlain | tools/transform-readme.php:182-205 | with no heading before the first match, the text before it is copied, then the match is converted or stops the pass |
| Headings.OneHeadingConverted | tools/transform-readme.php:182-208 | a heading line of level 1 to 3, open or closed, standing anywhere in a document with no heading before it, becomes its banner: the text before it is copied, and the result is what the pass makes of the rest, or its error |
| Headings.OnlyHeadingConverted | tools/transform-readme.php:182-208 | when that line is the document's only heading, the rest of the document is copied as it is |
| Headings.SmallHeadingFails | tools/transform-readme.php:191-194 | a heading line of level four or more, anywhere in a document with no heading before it, fails with "Heading too small to transform: <whole match>." |
| Headings.NothingConverted | tools/transform-readme.php:182-205 | a pass that succeeded and counted nothing met no heading |
| Headings.NoHeadingFails | tools/transform-readme.php:206-208 | the pass fails with "Unable to transform headings." if and only if no heading starts anywhere in the document |
| TransformReadme.Transform | tools/transform-readme.php:57-208 | the passes run in the script's order and the first error ends the run: a header failure is the result; otherwise a screenshot failure is; otherwise a listing that fails the check gives its error; otherwise the result is the heading pass on the captioned text. Conversely a success means every pass succeeded and the listing has one file per caption, each in sequence |
| TransformReadme.TransformReadme | tools/transform-readme.php:57-208 | the script's statements, reassigning one buffer, return what Transform specifies |
| VersionScan.Leftmost | tools/verify-version-consistency.php:41 | the leftmost index at which a pattern matches; None means there is none |
| VersionScan.FirstCapture | tools/verify-version-consistency.php:41 | preg_match finds a capture exactly when the pattern matches somewhere, and the capture is the one at the leftmost match |
| VersionScan.StableTagAt | tools/verify-version-consistency.php:41 | a match starts with `**Stable tag:**`, ignoring case, followed by whitespace; the tag is a non-empty run of non-whitespace |
| VersionScan.StableTagAtIs | tools/verify-version-consistency.php:41-45 | the tag read is the first token after the label and the whitespace |
| VersionScan.StableTag | tools/verify-version-consistency.php:41-45 | the stable tag is found exactly when the label pattern matches somewhere, and it is the tag at the leftmost match |
| VersionScan.ChangelogLineAt | tools/verify-version-consistency.php:47 | a match starts at a line start with "## Changelog", and the captured line is non-empty and has no line break |
| VersionScan.ChangelogLineAtIs | tools/verify-version-consistency.php:47-51 | the line read is the first line with content after the heading |
| VersionScan.ChangelogLine | tools/verify-version-consistency.php:47-51 | the first changelog line is found exactly when the pattern matches somewhere, and it is the line at the leftmost match |
| VersionScan.ClassifyEntry | tools/verify-version-consistency.php:52-59 | the entry is the latest version exactly when the line is "### " followed by a digit and at least one more character, and the version is the rest of the line; otherwise it is external exactly when the line holds a Markdown link |
| VersionScan.BootstrapFrom | tools/verify-version-consistency.php:62-69 | the bootstrap file is the first listed file with a ` * Plugin Name:` line; None means there is none |
| VersionScan.DeclaresPlugin | tools/verify-version-consistency.php:64 | a file declares the plugin when a ` * Plugin Name:` line starts somewhere in it; BootstrapFrom states how the first such file is chosen |
| VersionScan.FindBootstrap | tools/verify-version-consistency.php:61-73 | the foreach loop with its break returns what BootstrapFrom specifies |
| VersionScan.VersionEnd | tools/verify-version-consistency.php:76 | a version starts with a digit, is at least three characters long and stays on its line; ReleaseVersionEnd and PrereleaseVersionEnd state the whole version read for X.Y.Z and for X.Y.Z-tag |
| VersionScan.PluginVersionAt | tools/verify-version-consistency.php:76 | a match starts with '*', and the version it captures starts with a digit and stays on one line |
| VersionScan.ReleaseVersionEnd | tools/verify-version-consistency.php:76 | digits, '.', digits, '.', digits, not followed by a digit or '-', form the whole version |
| VersionScan.PrereleaseVersionEnd | tools/verify-version-consistency.php:76 | digits, '.', digits, any one character other than a line break or digit (the pattern's unescaped `.`), digits, '-' and a run of word characters ending the word form the whole version, so a prerelease is read with its tag |
| VersionScan.ReleaseVersionAt | tools/verify-version-consistency.php:76-80 | a `* Version: X.Y.Z` line is read as X.Y.Z |
| VersionScan.PluginVersion | tools/verify-version-consistency.php:76-80 | the header version is found exactly when the pattern matches somewhere, and it is the version at the leftmost match |
| VersionScan.ConstantAt | tools/verify-version-consistency.php:82 | a match starts with "const ", and the captured value is non-empty and holds no quote |
| VersionScan.ConstantAtIs | tools/verify-version-consistency.php:82-86 | `const VERSION = '…'` and `const PLUGIN_VERSION = '…'` are read as the quoted value |
| VersionScan.VersionConstant | tools/verify-version-consistency.php:82-86 | the constant is found exactly when the pattern matches somewhere, and it is the value at the leftmost match |
| VersionCheck.Recorded | tools/verify-version-consistency.php:34-86 | a missing package.json version fails with its message (FirstMissingReported gives the message for each later lookup); the array is recorded exactly when every lookup finds its value and the first changelog entry is identified, and then holds exactly the recorded keys with their values (the latest changelog version only for a release heading) |
| VersionCheck.FirstMissingReported | tools/verify-version-consistency.php:41-85 | a failure after package.json names the first lookup that found nothing, with the script's message for it: stable tag, changelog, its first entry, bootstrap file, header version, VERSION constant |
| VersionCheck.CollectVersions | tools/verify-version-consistency.php:22-86 | filling `$versions` key by key, stopping at the first missing reference, returns what Recorded specifies |
| VersionCheck.Decide | tools/verify-version-consistency.php:91-112 | passes exactly when all references except the stable tag share one value, a stable tag that differs from the plugin version faces a prerelease that `less` puts above it, and a plugin version without '-' matches `^\d+\.\d+\.\d+$`; each failure carries the message of the first rule broken, in the script's order (lines 94, 100, 104 and 110) |
| VersionCheck.OneValueMeansEqual | tools/verify-version-consistency.php:91-96 | array_unique leaves one value exactly when every reference except the stable tag equals the plugin version |
| VersionCheck.PrereleaseAhead | tools/verify-version-consistency.php:98-107 | with a prerelease plugin version that differs from the stable tag, the check passes exactly when the stable tag compares less; otherwise it fails with the "greater than the stable tag" message |
| VersionCheck.ShortReleaseRejected | tools/verify-version-consistency.php:109-112 | 0.9 is rejected for lacking a patch number even when every reference agrees |
| VersionCheck.AgreedReleasePasses | tools/verify-version-consistency.php:91-112 | references that all agree on X.Y.Z, the stable tag included, pass |
| VersionCheck.ReleaseVersionIsThreeNumbers | tools/verify-version-consistency.php:109 | for a version on one line, the pattern `^\d+\.\d+\.\d+$` accepts exactly three numbers joined by dots |
| VersionCheck.IsReleaseVersion | tools/verify-version-consistency.php:109 | the `^\d+\.\d+\.\d+$` test; ReleaseVersionIsThreeNumbers states which versions it accepts |
| VersionCheck.Checked | tools/verify-version-consistency.php:91-112 | a missing reference decides the failure; otherwise the outcome is the decision on the recorded array, as Decide specifies; a pass means package.json, the plugin header, the VERSION constant and a release changelog heading all name the same version |
| VersionCheck.AgreedScanPasses | tools/verify-version-consistency.php:91-112 | a complete scan in which every reference reads the release X.Y.Z passes, when the first changelog entry is that release or a link to the full changelog |
| VersionCheck.ReleaseScanPasses | tools/verify-version-consistency.php:52-112 | in particular a scan whose first changelog line is "### X.Y.Z" and whose references all read X.Y.Z passes |
| VersionCheck.Scanned | tools/verify-version-consistency.php:22-86 | each lookup on the inputs: package.json's version is found exactly when the manifest holds one, and a bootstrap file is found exactly when some file declares the plugin, and then its header version and constant are read from it |
| VersionCheck.Verify | tools/verify-version-consistency.php:22-112 | the whole check: a manifest without a version, or a listing in which no file declares the plugin, fails; a pass means the bootstrap file's header version and constant equal package.json's version |

## Left out

- Reading README.md, package.json and the PHP files, globbing, and writing readme.txt are left out. The texts, the listings in glob order and the parsed manifest are inputs, and the readme.txt text is the result. A read or write failure (lines 53-55 and 210-212 of the transformer, 24-33 of the checker) is not modelled.
- The `php_sapi_name()` guards, the log line at the end of the transformer, and the checker's "Located bootstrap file" and JSON dump of `$versions` are output only and are left out.
- The warning "There are no screenshots." is not modelled. Only its effect, an unchanged text and a count of 0, is.
- The checker's "Notice: … It may be external" line is not modelled. Only its effect is: the run goes on and no latest changelog version is recorded.
- json_decode() is not modelled. The manifest is taken as a `map<string, string>` of its top-level keys, so a non-string `version` value is not covered.
- PHP's version_compare() is not modelled. It is the parameter `less`, and the lemmas hold for any `less`.
- The PCRE engine is not modelled. Each pattern is a scanner written for that pattern.
- The scanners work on characters, while PHP works on bytes. The 150-character limit on the short description is therefore counted in characters, where strlen() counts bytes; the two agree on ASCII text.
- `\s`, `\w`, `\d` and `/i` are their ASCII meanings, as PCRE has them without the `u` flag.
- htmlspecialchars() is modelled with ENT_QUOTES: the five special characters become entities. Its handling of invalid UTF-8 (ENT_SUBSTITUTE) is left out.
- Basename: models basename() for paths that do not end in '/'; glob() never returns such a path.
- `$versions` has string keys in the script. The model uses the five keys it can hold, as the datatype `Key`.
- Metadata.ParseMetaLine: takes a line without line breaks, which explode( "\n", … ) guarantees; `.` in the pattern would stop at a line break.
- Header.DescriptionSectionKept: states that the tail from "## Description" on is kept. It does not restate that this tail starts with "## Description"; Text.FindFrom states that.
- Headings.HeadingLineMatched: an open line whose own text ends in a whitespace character and L marks is read by PCRE as a closed line with a shorter text. The heading lemmas leave such an open line out; when that whitespace is a space, the same line is their closed form of the shorter text, which they cover.
- YouTube.UrlClose: its own contract states only where the closing ')' lies. The shape of the URL it closes ("https://", an accepted host, '/', a non-empty path, no line break) is stated by YouTube.UrlCloseShape and YouTube.VideoAtFits.
