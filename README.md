# SEO analyser core, modelled in Dafny

This project models the core of an SEO audit web application. The core has three parts:

- **The scraper** (`src/lib/scraper.ts`) fetches a page and reduces it to a summary record called `SEOData`. The record holds:
  - the title, description and headings;
  - counts of internal and external links;
  - the images with their alt text;
  - the cleaned text content;
  - asset counts.

  When the page cannot be read, the scraper returns a fixed sentinel record instead.
- **The scorer** (`src/lib/gemini.ts`, `analyzeSEO`) asks a list of generative models, in order, for a JSON verdict on that record.
  - Each model gets at most two attempts. After every retryable failure the scorer sleeps. The first sleep of every model is 10 seconds, and the delay doubles after each sleep of that model, so a model sleeps 10 then 20 seconds at most.
  - Each reply is cleaned: surrounding code fences are stripped. Then the text from the first `{` to the last `}`, both included, is cut out; when the last `}` comes before the first `{`, `substring` swaps the two bounds.
  - Once every model has failed, the scorer throws either a quota error or a congestion error, chosen from the last failure.
- **The report view** (`src/components/AnalysisResult.tsx`) turns the verdict into display values:
  - a colour band per score;
  - the style of the niche verdict;
  - the radar series of the five metrics;
  - the two-slice pie of the authority score;
  - the class of each roadmap step's impact badge.

The files are:

| file | module | contents |
|---|---|---|
| `wrappers.dfy` | `Wrappers` | the `Option` type |
| `jsstring.dfy` | `JsString` | the JavaScript string built-ins the core relies on: `trim` (with the ECMAScript white-space set), `startsWith`, `endsWith`, `includes`, `indexOf`, `lastIndexOf`, `substring` (its clamping and its swap of reversed bounds), `toLowerCase` and the decimal rendering of a number |
| `gemini.dfy` | `Gemini` | the error classification; the reply sanitiser; how one attempt goes from invocation outcome to parsed answer; a reference definition of the whole retry and fallback run (`ModelTurn`, `Cascade`, `Run`); and the controller as the source writes it, proved equal to that definition |
| `scraper.dfy` | `Scraper` | the page as a flat list of elements; the selectors; the sentinel records; the headings table; link classification; image tags; the content source and its cleaning; `scrapeURL` itself |
| `analysis_result.dfy` | `AnalysisResult` | the display helpers |

The outside world is passed in as parameters:

- **Model invocations.** The i-th model invocation of a run (counting across all models) ends with `outcomes[i]`: it either throws an `AiError` or replies with text.
- **`JSON.parse`.** An oracle `parse` says what it does with a candidate string.
- **The fetch.** Its result is a `FetchOutcome`: the fetch failed, or it answered with a status and a page.
- **The WHATWG `URL` constructor.** It is an oracle `resolve(input, base)`. The result is the hostname, or `None` when the constructor throws.

## Model

| member | source | states |
|---|---|---|
| `JsString.IsSpace` | src/lib/scraper.ts:106-108 | reference definition, without a contract of its own: the white-space characters and line terminators that `trim` removes and `\s` matches. The contracts of `JsString.TrimStart`, `JsString.TrimEnd`, `JsString.Trim`, `Scraper.CollapseWhitespace` and `Scraper.CollapseSpaces` are stated with it |
| `JsString.TrimStart` | src/lib/gemini.ts:120 | the result is a suffix of the input; everything removed from the front is white space; the result is empty or starts with a character that is not white space |
| `JsString.TrimEnd` | src/lib/gemini.ts:120 | the result is a prefix of the input; everything removed from the end is white space; the result is empty or ends with a character that is not white space |
| `JsString.Trim` | src/lib/gemini.ts:120-122 | the input is the trimmed text with only white space before and after it; the trimmed text neither starts nor ends with white space |
| `JsString.IndexOf` | src/lib/gemini.ts:125 | -1 exactly when the character is absent; otherwise the position of its first occurrence |
| `JsString.LastIndexOf` | src/lib/gemini.ts:126 | -1 exactly when the character is absent; otherwise the position of its last occurrence |
| `JsString.Substring` | src/lib/gemini.ts:132 | the slice between the two bounds clamped to the string, with a reversed pair of bounds swapped |
| `JsString.ToLower` | src/lib/gemini.ts:138 | same length; every ASCII capital is lowered and every other character is kept |
| `JsString.StartsWith` | src/lib/gemini.ts:121 | reference definition, without a contract of its own: the prefix is no longer than the string and equals its first characters. `Gemini.CleanReply` branches on it, and `Scraper.CleanContentBounds` states the cut with it |
| `JsString.EndsWith` | src/lib/gemini.ts:122 | reference definition, without a contract of its own: the suffix is no longer than the string and equals its last characters, as the `$` anchor of `/\n```$/` requires. It is characterised through `Gemini.ClosingFenceStripped` |
| `JsString.Includes` | src/lib/gemini.ts:145-149 | reference definition, without a contract of its own: the substring occurs at some position of the string. It is characterised by `JsString.NotIncludesMissingChar`, `JsString.IncludesTransitive`, `JsString.PrefixIncluded` and `JsString.SuffixIncluded` |
| `JsString.DecimalString` | src/lib/scraper.ts:56 | a nonempty string of decimal digits with no leading zero |
| `JsString.DecimalRoundTrip` | src/lib/scraper.ts:56 | reading the rendered digits back gives the number |
| `Gemini.DerivedStatus` | src/lib/gemini.ts:137 | reference definition, without a contract of its own: the top-level status, or the response's status when the top-level one is missing (0). It is characterised by `Gemini.QuotaOnlyInResponseStatus` (a 429 on the response alone makes an error retryable) and `Gemini.MessageCaseIgnored` |
| `Gemini.IsRetryable` | src/lib/gemini.ts:137-149 | reference definition, without a contract of its own: derived status 429, 500 or 503, or a lowered message containing "quota", "fetch failed", "timeout", "und_err_connect_timeout" or "service unavailable". It is characterised by `Gemini.Try`, `Gemini.TryOutcome`, `Gemini.NoJsonNotRetryable`, `Gemini.QuotaOnlyInResponseStatus` and `Gemini.MessageCaseIgnored` |
| `Gemini.FinalError` | src/lib/gemini.ts:166-172 | the quota error exactly when the last error has top-level status 429, or a message that contains "quota" after lowering; the congestion error otherwise, including when there was no error |
| `Gemini.FinalMessage` | src/lib/gemini.ts:168-172 | the error thrown at the end carries the quota message exactly when the last error has top-level status 429 or mentions "quota", and the congestion message otherwise |
| `Gemini.LetterRun` | src/lib/gemini.ts:122 | the length of the longest prefix made of ASCII letters, which is how `[a-z]*` matches under the `i` flag |
| `Gemini.BraceSlice` | src/lib/gemini.ts:125-132 | None exactly when a brace is missing; otherwise the text from the first `{` to the last `}` when they are in order, and, when they are not, the swapped `substring` slice, which holds no `{` |
| `Gemini.Try` | src/lib/gemini.ts:110-149 | a failed attempt is marked retryable exactly when its error is retryable |
| `Gemini.TryOutcome` | src/lib/gemini.ts:110-149 | an attempt answers exactly when the model replied, the reply has a JSON candidate and `JSON.parse` accepts it, and then with the parsed value; a thrown error is kept and classified; a reply without braces fails with the no-JSON error, not retryably; a rejected candidate fails with the parser's message |
| `Gemini.ModelTurn` | src/lib/gemini.ts:109-160 | a turn makes one or two invocations, and it ends with an answer exactly when it records no error |
| `Gemini.TurnAnswered` | src/lib/gemini.ts:109-156 | an answer on attempt i, after i retryable failures, ends the turn with that value, i + 1 invocations and i sleeps of 10000 then 20000 ms |
| `Gemini.TurnFailed` | src/lib/gemini.ts:135-160 | a turn that fails after n invocations keeps the last error, and it has slept once per retryable failure, 10000 then 20000 ms |
| `Gemini.Cascade` | src/lib/gemini.ts:89-172 | reference definition, without a contract of its own, of the loop over the models: each model's turn in order, stopping at the first answer, and the final choice of error once the list is spent. It is characterised by `Gemini.CascadeOutcome`, `Gemini.CascadeSchedule`, `Gemini.CascadeSleepCount`, `Gemini.CascadeBackoff`, `Gemini.CascadeWait`, `Gemini.CascadeCallCount` and `Gemini.FailThenAnswer`; `Gemini.CycleModels` implements it |
| `Gemini.Run` | src/lib/gemini.ts:89-172 | reference definition, without a contract of its own: `Gemini.Cascade` over the fixed models, with no earlier error. It is characterised by `Gemini.RunBounds`, `Gemini.AllRateLimited` and `Gemini.NoJsonFallsThrough`; `Gemini.AnalyzeSeo` implements it |
| `Gemini.TryModel` | src/lib/gemini.ts:93-161 | the inner loop, with its per-model delay, `continue`, `break` and early `return`, computes exactly the reference turn of the attempts from invocation `next` on |
| `Gemini.CycleModels` | src/lib/gemini.ts:89-172 | the loop over the models, with the final choice of error, computes exactly the reference run: the same result, the same calls in order and the same sleeps in order |
| `Gemini.AnalyzeSeo` | src/lib/gemini.ts:11-172 | `analyzeSEO` on its fixed list of three models is the reference run |
| `Gemini.TurnSleeps` | src/lib/gemini.ts:93-155 | a turn sleeps after each of its invocations except possibly the last, and its sleeps are 10000 ms, then 20000 ms, as many as it made |
| `Gemini.CascadeSchedule` | src/lib/gemini.ts:92-164 | the calls invoke a prefix of the model list in order, each model once or twice; a failed run has given every model a turn, and a successful one has given at least the first model a turn; the sleeps are, model by model, the first n of 10000 ms and 20000 ms, where n is that model's invocations or one less, so the delay starts again at 10000 ms for every model |
| `Gemini.CascadeOutcome` | src/lib/gemini.ts:89-172 | every attempt before the last one made failed; the run succeeds exactly when the last attempt answered, and with its value; a failed run stops with the error chosen from that last attempt alone; with no models, nothing is invoked and the earlier error decides |
| `Gemini.TurnSleepCount` | src/lib/gemini.ts:151-155 | a turn sleeps once per retryable failure among the attempts it made |
| `Gemini.CascadeSleepCount` | src/lib/gemini.ts:92-164 | a run sleeps once per retryable failure among the invocations it made, including a retryable failure on the last attempt of a model |
| `Gemini.TurnBackoff` | src/lib/gemini.ts:93-155 | a turn's sleeps are 10000 ms, or 10000 then 20000 ms, and sum to at most 30000 ms |
| `Gemini.CascadeBackoff` | src/lib/gemini.ts:92-155 | each sleep is 10000 ms or 20000 ms, the first is 10000 ms, every 20000 ms sleep directly follows a 10000 ms one, and there are at most twice as many sleeps as models |
| `Gemini.CascadeWait` | src/lib/gemini.ts:92-164 | a run sleeps at most 30000 ms per model in total |
| `Gemini.CleanReplyIncluded` | src/lib/gemini.ts:120-123 | the cleaned reply is a contiguous part of the raw reply |
| `Gemini.BraceSliceIncluded` | src/lib/gemini.ts:125-132 | the JSON candidate is a contiguous part of the cleaned reply |
| `Gemini.ExtractJsonIncluded` | src/lib/gemini.ts:120-132 | any JSON candidate is a contiguous part of the raw reply; a reply missing either brace yields none |
| `Gemini.StripOpeningFence` | src/lib/gemini.ts:122 | reference definition, without a contract of its own, of `replace(/^```[a-z]*\n/i, '')`: a leading fence, its run of ASCII letters and the newline are removed, and anything else is left alone. It is characterised by `Gemini.OpeningFenceStripped` and `Gemini.OpeningFenceIncluded` (the result is part of the input) |
| `Gemini.StripClosingFence` | src/lib/gemini.ts:122 | reference definition, without a contract of its own, of `replace(/\n```$/i, '')`. It is characterised by `Gemini.ClosingFenceStripped` and `Gemini.ClosingFenceIncluded` (the result is part of the input) |
| `Gemini.CleanReply` | src/lib/gemini.ts:120-123 | reference definition, without a contract of its own: trim, and when the text starts with three backticks, strip both fences and trim again. It is characterised by `Gemini.CleanReplyIncluded` and `Gemini.FencedReply` |
| `Gemini.ExtractJson` | src/lib/gemini.ts:120-132 | reference definition, without a contract of its own: `Gemini.BraceSlice` of `Gemini.CleanReply`. It is characterised by `Gemini.ExtractJsonIncluded`, `Gemini.FencedReply` and `Gemini.TryOutcome` |
| `Gemini.OpeningFenceStripped` | src/lib/gemini.ts:122 | an opening fence with an all-letter language tag, and its newline, is removed entirely |
| `Gemini.ClosingFenceStripped` | src/lib/gemini.ts:122 | a trailing newline and closing fence are removed |
| `Gemini.FencedReply` | src/lib/gemini.ts:119-132 | a body wrapped in a fenced code block cleans to the same text, and cuts to the same JSON candidate, as the bare body |
| `Gemini.NoJsonNotRetryable` | src/lib/gemini.ts:128-149 | the error thrown for a reply without braces is not retryable, so the controller moves on to the next model |
| `Gemini.ReplyWithoutBraces` | src/lib/gemini.ts:128-149 | a reply missing either brace fails, not retryably, with that error, whatever the parser would do |
| `Gemini.QuotaOnlyInResponseStatus` | src/lib/gemini.ts:137-172 | a 429 that appears only in `response.status` is retried, but the final choice, which reads only the top-level `status`, reports congestion |
| `Gemini.MessageCaseIgnored` | src/lib/gemini.ts:137-168 | two errors whose status and lowered message agree are classified alike, both for retrying and for the final error |
| `Gemini.CascadeCallCount` | src/lib/gemini.ts:90-161 | a run makes at most two invocations per model, and at least one when there is a model |
| `Gemini.RunBounds` | src/lib/gemini.ts:89-164 | `analyzeSEO` makes one to six invocations and at most six sleeps, in the backoff pattern, with at most 90000 ms in total; when it fails, it has invoked all three models |
| `Gemini.AllRateLimited` | src/lib/gemini.ts:89-169 | when every invocation throws a 429, each model is invoked twice; the sleeps are 10000 and 20000 ms per model; the result is the quota error |
| `Gemini.FailThenAnswer` | src/lib/gemini.ts:151-163 | a non-retryable first failure moves to the next model without sleeping, and that model's answer ends the run |
| `Gemini.NoJsonFallsThrough` | src/lib/gemini.ts:125-163 | when the first model replies without JSON and the second replies with a parsable candidate, the run answers after exactly those two calls and no sleep |
| `Scraper.Select` | src/lib/scraper.ts:64 | `$(tag)`: the elements with that tag, each drawn from the page, and every such element of the page included |
| `Scraper.WithAttr` | src/lib/scraper.ts:65 | an attribute selector: the elements whose attribute has exactly that value, and all of them |
| `Scraper.SelectAppend` | src/lib/scraper.ts:64 | selecting from two lists of elements is selecting from the first and then from the second, so the page order is kept |
| `Scraper.SelectOne` | src/lib/scraper.ts:64 | selecting from one element gives that element exactly when it has the tag, and nothing otherwise |
| `Scraper.WithAttrAppend` | src/lib/scraper.ts:65 | the attribute filter over two lists is the filter over the first, then over the second |
| `Scraper.WithAttrOne` | src/lib/scraper.ts:65 | the attribute filter over one element keeps it exactly when its attribute has the value |
| `Scraper.DescriptionMetasMatch` | src/lib/scraper.ts:65 | `meta[name="description"]` selects, in page order, exactly the `meta` elements whose `name` is "description" |
| `Scraper.NoDescriptionMeta` | src/lib/scraper.ts:65 | the description selector finds nothing exactly when the page has no `meta` element named "description" |
| `Scraper.FirstDescriptionMeta` | src/lib/scraper.ts:65 | the first element the description selector finds is the first such element of the page |
| `Scraper.AttrOrEmpty` | src/lib/scraper.ts:96-97 | the attribute value when present, and "" otherwise |
| `Scraper.Restricted` | src/lib/scraper.ts:21-32 | the sentinel record keeps the URL, is marked simulated, and counts nothing |
| `Scraper.StatusContentNamesStatus` | src/lib/scraper.ts:51-57 | the content written for a status that is not ok names that status in decimal, and the number can be read back from it |
| `Scraper.Description` | src/lib/scraper.ts:65 | "" when no element of the page is a `meta` named "description"; otherwise the `content` of the first such element of the page, or "" when it has none |
| `Scraper.LevelTexts` | src/lib/scraper.ts:70 | at most ten entries, one per heading of that level in page order, each its trimmed text |
| `Scraper.HeadingTable` | src/lib/scraper.ts:67-71 | reference definition, without a contract of its own: one entry per heading level. It is characterised by `Scraper.HeadingKeys` and `Scraper.HeadingEntries`; `Scraper.CollectHeadings` implements it |
| `Scraper.HeadingKeys` | src/lib/scraper.ts:68-71 | the headings table has exactly the keys h1 to h6, even for a page without headings |
| `Scraper.HeadingEntries` | src/lib/scraper.ts:67-71 | each level lists the first ten headings of that level, or all of them when there are fewer, trimmed |
| `Scraper.CollectHeadings` | src/lib/scraper.ts:68-71 | the `forEach` over the six levels builds exactly the headings table |
| `Scraper.ClassifyLink` | src/lib/scraper.ts:79-91 | a link is internal exactly when it has a nonempty `href` that resolves against the page URL to the page's hostname; external exactly when it resolves to another, nonempty hostname; ignored otherwise, including when the `URL` constructor throws |
| `Scraper.LinksOfKind` | src/lib/scraper.ts:74-92 | the links of one kind are no more than the anchors, and none of them is empty |
| `Scraper.LinkTotals` | src/lib/scraper.ts:74-92 | a link is counted at most once: internal plus external links are at most the anchors |
| `Scraper.CollectLinks` | src/lib/scraper.ts:74-92 | the `each` loop, with its early returns and swallowed exceptions, pushes exactly the internal and the external links, in page order |
| `Scraper.ImageAltTags` | src/lib/scraper.ts:95-98 | one entry per image in page order, with its `src` and `alt`, or "" when either is missing |
| `Scraper.TextOf` | src/lib/scraper.ts:64 | reference definition, without a contract of its own, of `.text()` on a selection: the texts of the elements concatenated in order. `Scraper.ContentSource` is stated with it (scraper.ts:101-103) |
| `Scraper.ContentSource` | src/lib/scraper.ts:101-103 | the text of the `main` elements if there are any, otherwise of the `article` elements if there are any, otherwise of the `body` |
| `Scraper.CollapseWhitespace` | src/lib/scraper.ts:106 | the result has no two adjacent white-space characters, and starts with white space exactly when the input does; `Scraper.CollapseAppend`, `Scraper.CollapseSpaces` and `Scraper.CollapseBetween` say what becomes of each run |
| `Scraper.CollapseKeepsText` | src/lib/scraper.ts:106 | the collapse keeps every character that is not white space, in order, and adds none |
| `Scraper.CollapseAddsOnlySpaces` | src/lib/scraper.ts:106 | every character of the result is a character of the input or a plain space |
| `Scraper.CollapseHasText` | src/lib/scraper.ts:106 | the collapsed text has a character that is not white space exactly when the input has |
| `Scraper.CollapseAppend` | src/lib/scraper.ts:106 | the replacement is global and works run by run: collapsing two strings joined where no white-space run is cut gives the two collapsed strings joined |
| `Scraper.CollapseSpaces` | src/lib/scraper.ts:106 | a run of two or more white-space characters becomes exactly one space, and a lone white-space character is kept as it is |
| `Scraper.CollapseOne` | src/lib/scraper.ts:106 | a single character, white space or not, is kept |
| `Scraper.CollapseBetween` | src/lib/scraper.ts:106 | white space between two words becomes one space when it is two characters or more, is kept when it is one character (a tab included), and each word collapses on its own |
| `Scraper.NewlinesToSpaces` | src/lib/scraper.ts:107 | same length; every newline becomes a space and every other character is kept where it was |
| `Scraper.TrimKeepsText` | src/lib/scraper.ts:108 | trimming keeps every character that is not white space, in order |
| `Scraper.TidiedKeepsText` | src/lib/scraper.ts:105-108 | collapsing, replacing newlines and trimming keep every character that is not white space, in order |
| `Scraper.CleanContentKeepsText` | src/lib/scraper.ts:105-109 | the characters of the cleaned content that are not white space begin those of the source text, and are all of them when the tidied text has at most 5000 characters |
| `Scraper.TrimEmpty` | src/lib/scraper.ts:108 | trimming gives the empty string exactly when the text is all white space |
| `Scraper.CleanContentBounds` | src/lib/scraper.ts:105-109 | the cleaned content has at most 5000 characters and is a prefix of the tidied text, and all of it when that is short enough |
| `Scraper.CleanContentSpacing` | src/lib/scraper.ts:105-109 | the cleaned content has no newline and no two adjacent white-space characters |
| `Scraper.CleanContentEmpty` | src/lib/scraper.ts:105-109 | the cleaned content is empty exactly when the source text is all white space |
| `Scraper.Tidied` | src/lib/scraper.ts:105-108 | reference definition, without a contract of its own: collapse, replace newlines, trim. It is characterised by `Scraper.TidiedKeepsText` and `Scraper.CleanContentBounds` |
| `Scraper.CleanContent` | src/lib/scraper.ts:105-109 | reference definition, without a contract of its own: the first 5000 characters of `Scraper.Tidied`. It is characterised by `Scraper.CleanContentBounds`, `Scraper.CleanContentSpacing`, `Scraper.CleanContentEmpty` and `Scraper.CleanContentKeepsText` |
| `Scraper.IsOk` | src/lib/scraper.ts:51 | reference definition, without a contract of its own, of `response.ok`: a status from 200 to 299. `Scraper.SimulatedExactlyWhenUnread`, `Scraper.ReadPageSummarised` and `Scraper.ConnectionLimited` are stated with it |
| `Scraper.StatusContent` | src/lib/scraper.ts:56 | reference definition, without a contract of its own, of the template string. It is characterised by `Scraper.StatusContentNamesStatus` (the decimal status can be read back from it) |
| `Scraper.Summary` | src/lib/scraper.ts:60-126 | reference definition, without a contract of its own, of the record built from a page that was read. It is characterised by `Scraper.SummaryShape`, `Scraper.ReadPageSummarised` and the lemmas about each of its fields |
| `Scraper.Scrape` | src/lib/scraper.ts:20-131 | reference definition, without a contract of its own, of `scrapeURL` once the fetch has answered. It is characterised by `Scraper.RestrictedPaths`, `Scraper.ConnectionLimited`, `Scraper.ReadPageSummarised` and `Scraper.SimulatedExactlyWhenUnread`; `Scraper.ScrapeUrl` implements it |
| `Scraper.ScrapeUrl` | src/lib/scraper.ts:20-131 | `scrapeURL`, once the fetch has answered, returns exactly the record the reference definition gives |
| `Scraper.RestrictedPaths` | src/lib/scraper.ts:46-130 | a failed fetch, a 401 or 403, or a URL that does not parse returns the sentinel record, titled "Access Restricted" |
| `Scraper.ConnectionLimited` | src/lib/scraper.ts:51-57 | any other status that is not ok returns the sentinel record retitled "Connection Limited", with content naming the status, and otherwise unchanged |
| `Scraper.SimulatedExactlyWhenUnread` | src/lib/scraper.ts:21-130 | the record keeps the URL; it is marked simulated exactly when the page was not read; a simulated record counts nothing |
| `Scraper.ReadPageSummarised` | src/lib/scraper.ts:60-126 | an ok response whose URL parses gives the page summary under the URL's hostname, not marked simulated |
| `Scraper.SummaryShape` | src/lib/scraper.ts:68-124 | a summary has the six heading keys and no more links than anchors, and lists one alt tag per image it counts |
| `Scraper.EmptyHostnameOnEmptyBase` | src/lib/scraper.ts:84-88 | a link resolving to an empty hostname is internal when the page's own hostname is empty, and ignored otherwise |
| `AnalysisResult.ScoreColor` | src/components/AnalysisResult.tsx:39-43 | green exactly from 80 up, amber exactly from 50 to below 80, red exactly below 50 |
| `AnalysisResult.ScoreColorMonotone` | src/components/AnalysisResult.tsx:39-43 | a higher score never gets a lower band |
| `AnalysisResult.VerdictStyle` | src/components/AnalysisResult.tsx:45-49 | the leader style exactly when the verdict contains "Leader"; otherwise the challenger style exactly when it contains "Challenger"; otherwise the laggard style |
| `AnalysisResult.LeaderBeatsChallenger` | src/components/AnalysisResult.tsx:46-47 | a verdict containing both words is styled as a leader |
| `AnalysisResult.VerdictWords` | src/components/AnalysisResult.tsx:45-49 | the three verdict words each get their own style |
| `AnalysisResult.VerdictCaseSensitive` | src/components/AnalysisResult.tsx:45-49 | the match is case-sensitive ("leader" is red), and an empty verdict is red |
| `AnalysisResult.RadarData` | src/components/AnalysisResult.tsx:51-57 | no spokes without metrics; otherwise five spokes in the fixed subject order, each out of 100 |
| `AnalysisResult.RadarRoundTrip` | src/components/AnalysisResult.tsx:51-57 | the metrics can be read back from the radar series, field by field |
| `AnalysisResult.ScorePie` | src/components/AnalysisResult.tsx:128-137 | two slices, the score and the rest, summing to 100; the score slice is in its band's colour and the rest in the track colour |
| `AnalysisResult.ScorePieInRange` | src/components/AnalysisResult.tsx:128 | for a score from 0 to 100, both slices are between 0 and 100 |
| `AnalysisResult.ImpactBadge` | src/components/AnalysisResult.tsx:234-236 | red exactly for "High", amber exactly for "Med", emerald for anything else |
| `AnalysisResult.ImpactBadgesDistinct` | src/components/AnalysisResult.tsx:234-236 | the three roadmap impacts get three different badges |

Two behaviours of the code that a reader might not expect, both modelled as written:

- **Empty hostnames.** A link is compared with the page's hostname before the emptiness test. So when the page's own hostname is empty, a link with an empty hostname counts as internal (`Scraper.EmptyHostnameOnEmptyBase`).
- **The final error.** The choice reads only the top-level `status`. The retry test reads `status`, then `response.status`. So a 429 carried only in `response.status` is retried, but it ends as congestion (`Gemini.QuotaOnlyInResponseStatus`).

## Left out

- The network. The request headers, the 10-second abort timeout and `response.text()` are left out; the fetch's outcome is a parameter.
- The HTML parser (cheerio) is abstracted:
  - The page is a flat list of elements, each with a tag, attributes and its text content. Nesting is not modelled.
  - A selector returns the matching elements in document order.
  - `.text()` on several elements concatenates their texts.
- The WHATWG URL parser. It is an oracle from an input and an optional base to a hostname.
- The generative model client: the API key, the prompt text (its construction from `SEOData` is not modelled), the safety settings and the response object. Each invocation's outcome is an oracle.
- `JSON.parse`. It is an oracle, and its result is a type parameter: the source does not validate the parsed object against `AnalysisResult`.
- Real sleeping. Each `setTimeout` delay is recorded in the run's `sleeps` instead of elapsing.
- Console logging is left out. So is the development-mode branch, which only logs.
- Gemini.TryModel and Gemini.CycleModels: the source's nested loop is written as a method for one model's turn (the inner loop) called from the loop over the models. Both require an outcome to be ready for every invocation the run can make, two per model.
- `NoJsonMessage` is written as three concatenated pieces. It is the same string as in the source.
- JsString.ToLower: lowers ASCII capitals only. Unicode case mapping is not modelled.
- Scraper.CleanContentBounds: strings are sequences of characters. UTF-16 surrogate pairs are not distinguished, so `slice(0, 5000)` on text outside the Basic Multilingual Plane is not modelled exactly.
- AnalysisResult.ScoreColor: scores are reals. NaN, the infinities and non-numeric values that could reach the view from unvalidated JSON are not modelled.
- The route handler (`src/app/api/analyze/route.ts`), the database layer (`src/lib/db.ts`), the JSX layout, the animations and the image export (`handleExport`) are not part of this model.
- Attribute selectors match attribute values exactly and case-sensitively. The HTML mode of the selector library compares the values of some attributes, `rel` among them, case-insensitively. So a `<link rel="StyleSheet">` counts toward `cssCount` in the source but not in the model. `name` is not one of these attributes, so the description selector is modelled as the library behaves.
- `.attr()` on a selection reads the first matching element, as the model does. For `meta[name="description"]`, a first element without `content` gives "", as in the source.
