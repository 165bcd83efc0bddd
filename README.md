# linkchecker_rust in Dafny

A model of the link checker in `src/main.rs`. The program reads a markdown file and
collects the destination of every inline link `[label](destination)`. It fetches each
destination over HTTP, at most 32 at a time, and writes one markdown link per url, each
followed by a newline.
The line's brackets hold the page's title, or the reason the title could not be had.

The model has four parts, one module each, plus two small support modules
(`Wrappers` for `Option`, `Strings` for counting characters):

- `LinkScanner` (`scanner.dfy`): `extract_urls`.
  - The regex `\[[^\]]*\]\(([^)]+)\)` is written as a left-to-right scan (`Scan`), the
    way the regex engine finds leftmost-first, non-overlapping matches.
  - Leftmost-first and non-overlapping is also stated on its own as a predicate
    (`LeftmostMatches`). The scan's answer satisfies it, and any answer that satisfies it
    is the scan's answer.
  - Further lemmas: the urls are non-empty and hold no ')'; each url comes from a piece
    `[label](url)` of the input; there are no more urls than '[' characters; there are no
    urls exactly when there is no link.
- `FetchWorker` (`fetch.dfy`): `process_url` and `extract_title`.
  - What the network returns (`client.get(url).send()`, then `resp.text()`) is the input
    value `Fetched`. The HTML parser with the `title` selector is the function parameter
    `firstTitleText`.
  - `ProcessUrl` states the order in which the outcome is decided: transport error, then
    a status outside 2xx ("HTTP " + the status's display text), then a body that cannot
    be read ("BODY READ ERROR"), then a missing title element ("NO TITLE"), and
    otherwise the trimmed title.
  - Rust's `str::trim` is modelled with the Unicode White_Space table that
    `char::is_whitespace` uses.
- `ResultSerializer` (`render.dfy`): the output loop at the end of `main`, as a method
  proved against the function `Rendered`. Lemmas: one line per result when no title,
  reason or url holds a newline, and scanning the output for links gives the urls back
  when no title or reason holds ']' and every url is non-empty without ')' (as every url
  the scanner finds is).
- `Pipeline` (`pipeline.dfy`): the whole run. `buffer_unordered` delivers results in
  completion order, so the collected results are any arrangement (equal multiset) of the
  per-url entries. Lemmas over every such arrangement:
  - the number of results and their urls
  - each result is the outcome of its own url's fetch, and one fetch does not change
    another url's entry
  - the output's line count
  - the round trip from input urls to output urls, when no title or reason holds ']'
  - an input without links gives an empty output
  - a two-link example with a 200 page and a 404 page

A title element whose text is empty or whitespace only gives `Ok("")`: a line with empty
brackets, not "NO TITLE" (`src/main.rs:35-36`, `src/main.rs:55`). The model follows the
code, and `FetchWorker.BlankTitleIsEmpty` states it.

## Model

| member | source | states |
|---|---|---|
| LinkScanner.IsMatch | src/main.rs:9 | the language of the pattern: '[', a label without ']', "](", a non-empty destination without ')', then ')'; newlines, '[' and '(' are allowed inside |
| LinkScanner.LeftmostMatches | src/main.rs:11 | what `captures_iter` returns: matches in order, not overlapping, with no match beginning at any position passed over between them |
| LinkScanner.FindChar | src/main.rs:9 | the position returned is the first at or after `from` holding the character, or the end of the text; this is where `[^\]]*` and `[^)]+` stop |
| LinkScanner.Dest | src/main.rs:12 | the capture group of a match is non-empty and holds no ')' |
| LinkScanner.MatchAt | src/main.rs:9 | an attempt at a position that succeeds gives a match of the pattern that begins there |
| LinkScanner.MatchAtComplete | src/main.rs:9 | the attempt at a position fails exactly when no match of the pattern begins there |
| LinkScanner.MatchShape | src/main.rs:9 | a match spans exactly "[" + label + "](" + destination + ")", with no ']' in the label |
| LinkScanner.MatchUnique | src/main.rs:9 | two matches that begin at the same position are the same match |
| LinkScanner.Scan | src/main.rs:11 | every match found lies inside the text, at or after the starting position |
| LinkScanner.Dests | src/main.rs:12-13 | one destination per match, in order: the k-th is the capture group of match k |
| LinkScanner.ExtractUrls | src/main.rs:8-14 | every url returned is non-empty and holds no ')' |
| LinkScanner.ScanIsLeftmost | src/main.rs:11 | the matches found are leftmost-first and non-overlapping: in order, not overlapping, and no match begins at a position passed over |
| LinkScanner.LeftmostIsScan | src/main.rs:11 | any leftmost-first, non-overlapping answer equals the scan's answer, so those semantics determine the result |
| LinkScanner.NoLinkNoUrls | src/main.rs:8-14 | the result is empty if and only if no match of the pattern begins anywhere in the text |
| LinkScanner.UrlsComeFromLinks | src/main.rs:8-14 | the k-th url is the destination of a piece "[label](url)" of the text with no ']' in the label, and the pieces come left to right without overlapping |
| LinkScanner.ScanBound | src/main.rs:11 | the matches found from a position are no more than the '[' characters from there on |
| LinkScanner.UrlsBoundedByBrackets | src/main.rs:8-14 | there are never more urls than '[' characters in the text |
| LinkScanner.ExtractAfterPrefix | src/main.rs:11 | after a prefix, the scan finds in the rest of the text what it finds in the rest alone |
| LinkScanner.LinkThenRest | src/main.rs:8-14 | a text starting with a link "[t](u)", with no ']' in t and u non-empty without ')', yields u followed by the urls of the rest |
| LinkScanner.SkipChar | src/main.rs:8-14 | a leading character other than '[' does not change the urls found |
| FetchWorker.IsWhitespace | src/main.rs:55 | `char::is_whitespace`, which `trim` uses: the code point has the Unicode White_Space property |
| FetchWorker.TrimStart | src/main.rs:55 | the result is a suffix of the input, everything dropped is whitespace, and the result does not begin with whitespace |
| FetchWorker.TrimEnd | src/main.rs:55 | the result is a prefix of the input, everything dropped is whitespace, and the result does not end with whitespace |
| FetchWorker.Trim | src/main.rs:55 | the trimmed text is empty exactly when the input is all whitespace, and otherwise begins and ends with a character that is not |
| FetchWorker.TrimSlice | src/main.rs:55 | the trimmed text is a slice of the input with only whitespace outside it |
| FetchWorker.TrimUnique | src/main.rs:55 | any slice with only whitespace outside it, and no whitespace at either end, is the trimmed text |
| FetchWorker.TrimIdempotent | src/main.rs:55 | trimming a trimmed text changes nothing |
| FetchWorker.IsSuccess | src/main.rs:24 | `is_success`: the status is in 200-299 |
| FetchWorker.ExtractTitle | src/main.rs:48-56 | there is a title exactly when the document has a title element, and the title is that element's text trimmed |
| FetchWorker.ProcessUrl | src/main.rs:16-46 | the url is returned unchanged; a transport error gives its message; a status outside 2xx gives "HTTP " + its display text whatever the body; an unreadable body gives "BODY READ ERROR"; no title element gives "NO TITLE"; the outcome is Ok exactly when none of these holds, with the trimmed title |
| FetchWorker.FailedStatusIgnoresBody | src/main.rs:24-29 | with a status outside 2xx, neither the body nor the parser affects the outcome |
| FetchWorker.BlankTitleIsEmpty | src/main.rs:33-36 | a title element whose text is whitespace only gives Ok(""), not "NO TITLE" |
| FetchWorker.ErrorReasons | src/main.rs:20-45 | every failure reason is the transport message, "HTTP " + the status text, "BODY READ ERROR" or "NO TITLE" |
| ResultSerializer.Text | src/main.rs:84-97 | what goes between the brackets: the title of an Ok result, the reason of an Err result |
| LinkScanner.Link | src/main.rs:87 | the shape "[" + text + "](" + url + ")" that the format string writes |
| ResultSerializer.Line | src/main.rs:86-96 | the line written for one result: "[" + text + "](" + url + ")" and a newline |
| ResultSerializer.Rendered | src/main.rs:81-99 | the reference for the loop: the lines of the results, in the order of the results |
| ResultSerializer.BracketInTitleLosesUrl | src/main.rs:86-89 | a title a + "]" + b, with no ']' in a, b not starting with '(', and no '[' in a, b or the url, gives a line in which no link begins, so its url is not found again |
| ResultSerializer.Urls | src/main.rs:83 | the k-th url is the url of the k-th result |
| ResultSerializer.RenderedAppend | src/main.rs:81-99 | the output of results followed by more results is the output of the first followed by that of the second |
| ResultSerializer.RenderOutput | src/main.rs:81-99 | the loop builds the lines "[title](url)" or "[reason](url)" of the results, in the order the results arrive |
| ResultSerializer.LineCount | src/main.rs:83-98 | with no newline in any text or url, the output has exactly one newline per result (without that condition the source writes more) |
| ResultSerializer.RenderRoundTrip | src/main.rs:86-96 | scanning the output for links gives back the urls of the results, in order, when no text holds ']' and every url is non-empty without ')' |
| Pipeline.ProcessAll | src/main.rs:69-76 | entry k is `process_url` of url k with the result of url k's own fetch, so the entries carry the given urls, in order |
| Pipeline.UrlsPermuted | src/main.rs:77-78 | rearranging the entries rearranges their urls the same way |
| Pipeline.ArrangedUrls | src/main.rs:69-79 | results collected in any order have the number and the urls of the entries |
| Pipeline.RunUrls | src/main.rs:63-79 | the results hold one entry per url found in the input, each url as often as it was found, and each result is the outcome of some found url's own fetch |
| Pipeline.ResultsFromOwnFetch | src/main.rs:69-79 | every collected result, in whatever order it arrived, is the entry of one url and that url's own fetch |
| Pipeline.FetchIsolation | src/main.rs:70-75 | what one url's fetch gives, a failure included, leaves every other url's entry unchanged |
| Pipeline.OutputLineCount | src/main.rs:69-99 | whatever the order of the results, the output has one line per entry, provided no title, reason or url holds a newline |
| Pipeline.OutputRoundTrip | src/main.rs:63-99 | whatever the order of the results, scanning the output finds the input's urls, each as often, when no title or reason holds ']' |
| Pipeline.NoLinksNoOutput | src/main.rs:63-99 | an input with no link gives an empty output |
| Pipeline.TwoLinkExample | src/main.rs:63-99 | for "[a](http://x.test/1)", a newline and "[b](http://x.test/2)", with the first page titled and the second answering 404, the output is "[title](http://x.test/1)" and "[HTTP 404 Not Found](http://x.test/2)", one line each, in either order |

## Left out

- Reading `input.md` and writing `output.md` (`src/main.rs:61`, `src/main.rs:101`) and the two progress messages (`src/main.rs:65`, `src/main.rs:103`): these are I/O. The model takes the input text as a parameter and gives the output text as a result.
- The HTTP client (`reqwest`, `src/main.rs:20`, `src/main.rs:31`, `src/main.rs:67`): each request's result is the input value `Fetched`. The text of a transport error (`e.to_string()`) and the display text of a status code (such as "404 Not Found") come from the library, so they are opaque strings in that value.
- Concurrency (`tokio`, `buffer_unordered(32)`, `src/main.rs:69-79`): the results are any arrangement of the per-url entries. The model does not bound the number of requests in flight at 32, and does not say which arrangement the timing produces.
- HTML parsing (`scraper`, `src/main.rs:49-54`): the first title element's text is the function parameter `firstTitleText`, so the model makes no claim about how HTML is parsed.
- The general regex engine: only the one pattern of `src/main.rs:9` is modelled, by a scan written for it. Positions count characters, not UTF-8 bytes; the urls found are the same.
- The output's line count is one per result only when no title, reason or url holds a newline. `[^)]+` accepts newlines, so the input `[a](x` newline `y)` gives the url "x" newline "y", and its output line spans two lines. `LineCount` and `OutputLineCount` state the count under that condition; the model promises nothing about the count otherwise.
- The round trip from input urls to output urls is proved only when no title or reason holds ']'. The source writes the title between the brackets as it is, so a title holding ']' can lose its url or change it. With `[WIP] x` or `a]b` the pattern no longer matches the line, and the url is not found in the output again; `BracketInTitleLosesUrl` shows this for titles and urls without '['. With `a](b` the line is `[a](b](u)`, and the scan reads "b](u" as the url. Other such titles, like `a]x[y`, still give the url back. `RenderRoundTrip` and `OutputRoundTrip` state the round trip under that condition; the model promises nothing about the urls of the output otherwise.
- That running `extract_urls` twice gives the same result needs no lemma, because `ExtractUrls` is a function of its text.
- FetchWorker.ProcessUrl: the status code is any natural number. Status values outside 100-999, which the HTTP library refuses, are not excluded.
