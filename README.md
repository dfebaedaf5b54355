# hipo: the analysis pipeline, modelled in Dafny

hipo is a browser extension that scores how polarized a web page is. A
content script pulls the readable text out of the page. The background
worker sends that text to a language service and parses the free-text reply
into a polarization report. It also keeps the reports in an in-memory cache
keyed by page. The popup turns the report's score into a level and a
coloured label.

This project models that pipeline and proves properties of the model:

- `Wrappers.dfy`: the `Option` and `Result` types.
- `JsText.dfy`: the JavaScript string operations the pipeline relies on.
  These are `\s` and `trim` (the JavaScript white-space and line-terminator
  set), `\w`, ASCII case folding for the `i` flag, `split` and `join` on one
  character, `String(n)` for a natural number, and `.length` counted in
  UTF-16 code units.
- `ResponseParser.dfy`: `parseAnalysis` and the `extract*` helpers. Each
  regular expression is written as a scanner. Its contract says which text
  the expression matches: the leftmost match for the searches, and the
  whole white-space run for the anchored bullet pattern and for `\s+`. The
  parsed JSON envelope is a `JsValue`.
- `AnalysisClient.dfy`: `analyzePolarization` and its switch on the
  response status. The request is not modelled. Its outcome (rejected, or
  received with a status, a body and the JSON parse) is an input.
- `Background.dfy`: the class `BackgroundAnalyzer` with its cache, which
  is a JavaScript `Map`. The Map is modelled as the sequence of its keys in
  insertion order plus a map from key to value. The class also holds its
  API configuration. It has the methods `initializeAPI`, `cleanupCache`
  (the loop over the entries that deletes while it walks) and
  `handleContentAnalysis`. The analyzer stores every entry without a
  `timestamp`, so the age test of `cleanupCache` never removes one of its
  own entries and the cache behaves first in, first out. The file also
  holds the badge table of `updateBadge`.
- `ContentExtractor.dfy`: the content script's extractor. The document is
  an abstract `Page`: which selectors match and with what text, the
  paragraph texts, the body text with and without the noisy elements, the
  meta tags, and the location and title. On that page it models the
  strategy cascade, the whitespace normaliser, the metadata reader and
  `extractContent`.
- `Popup.dfy`: the table of polarization levels, `getPolarizationLevel`
  and `getScoreDisplay`. Scores are JavaScript numbers, so they may be
  fractional, infinite or NaN.

### Behaviour as written

The model follows the code. Where the code and the prose description of
the extension disagree, the code wins:

- A section ends only at a newline followed by one word and a colon. A
  multi-word label such as `Missing perspectives:` on the next line does
  not end the section before it
  (`ResponseParser.MultiWordLabelDoesNotEndSection`).
- The summary is the whole trimmed section. It is not cut at the first
  sentence.
- A viewpoint link has a title and a URL but no description. The section
  is split on every newline, including empty lines. An absent section
  gives one link with an empty title and the URL `#`
  (`ResponseParser.AbsentLinkSection`).
- `cleanupCache` compares `now - value.timestamp` with thirty minutes.
  The cached values are reports, which have no `timestamp`, so the age rule
  never removes anything. Only the size rule acts
  (`Background.SweepWithoutTimestamps`, `Background.FullCacheEvictsOldest`).
- `handleContentAnalysis` replaces any error whose message contains `401`
  with the invalid-key message. This includes an unknown status whose body
  merely mentions 401 (`Background.UnknownStatusMentioning401`).
- `getPolarizationLevel` and `getScoreDisplay` disagree on NaN and on
  fractions between two ranges. NaN is "Extremely Biased" but its level is
  balanced. 30.5 is shown yellow but its level is green
  (`Popup.DisplayOfNaN`, `Popup.FractionDisagrees`). They agree on every
  integer score from 0 to 100 (`Popup.ColourAgreement`).
- The second replacement of `cleanContent` (blank lines to one newline)
  never changes anything. The first replacement has already turned every
  newline into a space (`ContentExtractor.BlankLinesAlreadyGone`).

## Model

| member | source | states |
|---|---|---|
| JsText.Trim | background/background.js:344 | the result has no leading or trailing JavaScript white space; it is the slice of the input that starts after the leading white-space run and is followed only by white space; an already trimmed string is returned unchanged |
| JsText.TrimKeepsNonSpace | background/background.js:344 | trimming removes only white space: the non-space characters are exactly those of the input, in order |
| JsText.JoinSplit | background/background.js:367 | joining the pieces of `split` with the separator gives back the original string |
| JsText.SplitJoin | background/background.js:367 | splitting a join of separator-free pieces gives back the pieces, the other half of the round trip |
| JsText.Split | background/background.js:367 | `split` on one character gives one piece more than there are separators, and no piece contains the separator |
| JsText.NatToStringRoundTrip | background/background.js:294 | the decimal text of a status reads back as the same number |
| ResponseParser.FindLabel | background/background.js:342-343 | the case-insensitive search returns the leftmost occurrence of the label, or none when there is none |
| ResponseParser.HeaderAtMeansWordThenColon | background/background.js:342 | the scanner's end-of-section test holds exactly when a run of word characters followed by a colon starts there, as the look-ahead `(?!\w+:)` requires |
| ResponseParser.SectionEnd | background/background.js:342 | the section runs to the first newline that starts a `word:` header, or to the end of the text |
| ResponseParser.ExtractSection | background/background.js:339-351 | the section text is trimmed, and it is empty when the label does not occur |
| ResponseParser.ExtractSectionSpan | background/background.js:339-351 | the section is the trimmed text from just after the first occurrence of the label, and after its optional colon, up to the first header line |
| ResponseParser.FirstLabelIsFound | background/background.js:343 | the first occurrence of the label is the one the search returns |
| ResponseParser.SectionEndIsFirstEnd | background/background.js:342 | the section end is the first header position after the label |
| ResponseParser.MultiWordLabelDoesNotEndSection | background/background.js:342 | a line starting with two words then a colon does not end a section |
| ResponseParser.SingleWordLabelEndsSection | background/background.js:342 | a line starting with one word then a colon ends a section |
| ResponseParser.FindNumberAfter | background/background.js:355 | returns the leftmost position where `Polarization score:`, white space and a digit run occur, or none when there is none |
| ResponseParser.FirstNumberIsFound | background/background.js:355 | the first such position is the one the search returns |
| ResponseParser.ExtractPolarizationScore | background/background.js:353-361 | the score is at most 100, and it is 50 when the text holds no score |
| ResponseParser.ScoreFromFirstMatch | background/background.js:355-356 | the score is the first matched digit run read as a decimal number and capped at 100 |
| ResponseParser.StripBullet | background/background.js:368 | a line starting with `-`, `*` or `•` loses that character and the whole white-space run after it: the result is a suffix of the line, only white space lies between the bullet and it, and it does not start with white space; any other line is unchanged |
| ResponseParser.CleanItem | background/background.js:368 | a cleaned list line is trimmed |
| ResponseParser.NonEmptyItems | background/background.js:369 | the non-empty cleaned lines, in order (a subsequence of all cleaned lines), each non-empty cleaned line occurring as often as among all cleaned lines |
| ResponseParser.ExtractListSection | background/background.js:363-375 | the items are the first `min(maxItems, n)` of the `n` non-empty cleaned lines of the section, so each is non-empty and trimmed; an absent section gives no items |
| ResponseParser.ListKeepsEveryItemBelowLimit | background/background.js:366-370 | when there are no more non-empty lines than the limit, every non-empty cleaned line of the section is an item |
| ResponseParser.UrlEnd | background/background.js:383 | finds the first `)` after `](` with no line terminator before it, as the lazy `(.*?)` does |
| ResponseParser.FindLink | background/background.js:383 | returns the match `\[(.*?)\]\((.*?)\)` finds first: the leftmost `[`, then the shortest title, then the shortest URL |
| ResponseParser.LineToLink | background/background.js:382-394 | a line without a markdown link gives its bullet-stripped, trimmed text and `#`; a line with one gives the title and URL of the match the regular expression finds first (leftmost `[`, then shortest title, then shortest URL) |
| ResponseParser.LinkSliceParts | background/background.js:383 | a matched link is exactly `[`, its title, `](`, its URL and `)` |
| ResponseParser.LinkLineMatched | background/background.js:383-389 | when `[title](url)` at a given place is the first match, the link holds exactly that title and URL |
| ResponseParser.FirstLinkIsFound | background/background.js:383 | the link search returns the first match |
| ResponseParser.ExtractLinkSection | background/background.js:377-400 | one link per line of the section, empty lines included, and at most three |
| ResponseParser.AbsentLinkSection | background/background.js:377-400 | an absent section gives exactly one link with an empty title and `#` |
| ResponseParser.ReplyText | background/background.js:309-322 | the text is found exactly when `content` is a truthy string, or when `content` is falsy and `messages[0].content` is a string; it is `content` in the first case and `messages[0].content` in the second |
| ResponseParser.ReportOf | background/background.js:324-330 | every report built from reply text has a score from 0 to 100, a trimmed summary, at most three non-empty trimmed biases and missing perspectives, and one to three links |
| ResponseParser.ParseAnalysis | background/background.js:307-336 | parsing succeeds exactly when the reply text is found, and then gives the report of that text; a failure carries the prefixed message |
| ResponseParser.ReplyWithoutLabels | background/background.js:324-330 | a reply with none of the labels gives score 50, an empty summary and lists, and one empty link |
| AnalysisClient.ClassifyStatus | background/background.js:280-295 | 401 gives one of the two 401 kinds, split exactly on whether the body mentions CORS; 403, 429 and 500 each give their kind and no other status does; every other status is unknown and keeps status and body |
| AnalysisClient.Message | background/background.js:283-294 | the message of an unknown status reads back as exactly its status and body; the five fixed messages never read as the message of an unknown status |
| AnalysisClient.MessageInjective | background/background.js:283-294 | two errors are thrown with the same message only when they are the same error |
| AnalysisClient.UnknownMessageRoundTrip | background/background.js:294 | the text `API Error: <status> - <body>` reads back to exactly that status and body |
| AnalysisClient.UnknownMessageMentionsBody | background/background.js:294 | the message of an unknown status mentions whatever its body mentions |
| AnalysisClient.AnalyzePolarization | background/background.js:229-305 | no key means `API not configured`; a rejected request keeps its message; a response that is not ok means the status's message; an ok response whose body is not JSON keeps the parse error; an ok JSON response succeeds exactly when its reply text is found, giving a well-formed report, and otherwise fails with the prefixed parse message |
| AnalysisClient.UnauthorizedAndRateLimited | background/background.js:281-290 | a 401 whose body does not mention CORS asks for the API key, and a 429 reports the rate limit |
| Background.CacheKey | background/background.js:206 | the key is the URL, a dash, then a digit run that reads back as the timestamp |
| Background.CacheKeyInjective | background/background.js:206 | two pages share a cache key only when URL and timestamp are both equal |
| Background.Expired | background/background.js:409 | an entry without a timestamp is never expired; one with a timestamp is expired exactly when it is more than thirty minutes older than now |
| Background.ExpiredStaysExpired | background/background.js:409 | an expired entry stays expired at any later time |
| Background.SweepExpired | background/background.js:407-412 | the sweep keeps at most the keys it was given |
| Background.SweepKeepsExactlyLive | background/background.js:407-412 | a key survives the sweep exactly when it was present and is not expired |
| Background.SweepIsSubsequence | background/background.js:407-412 | the surviving keys keep their insertion order |
| Background.SweepWithoutTimestamps | background/background.js:409 | entries without a timestamp are never expired, so the sweep keeps them all |
| Background.CleanedOrder | background/background.js:402-419 | cleanup never adds keys and keeps insertion order; of the keys the expiry sweep leaves, it drops the earliest exactly when more than 100 are left and nothing else, so the result is that sweep or its tail; when the sweep leaves at most 101 keys, at most 100 remain |
| Background.InsertKeepsBound | background/background.js:216-217 | adding one entry to a cache of at most 100 and cleaning up leaves at most 100 |
| Background.FullCacheEvictsOldest | background/background.js:415-418 | a cache of 101 entries without timestamps loses exactly its earliest key |
| Background.CleanupKeepsSmallCache | background/background.js:402-419 | a cache of at most 100 entries without timestamps is unchanged by cleanup |
| Background.DistinctCount | background/background.js:415 | the Map's size equals the number of keys in its order |
| Background.SweepEntries | background/background.js:407-412 | the loop that deletes while it walks the entries leaves exactly the sweep's keys, in order, with their old values |
| Background.SweepState | background/background.js:408-411 | after sweeping a prefix of the keys, the live keys followed by the unvisited keys describe the Map |
| Background.DeleteAt | background/background.js:410 | deleting one key from the middle keeps the order and the Map in step |
| Background.ConfigFrom | background/background.js:170-191 | the configuration is set exactly when the read succeeds with a non-empty key, and then holds that key and `claude` |
| Background.Remap | background/background.js:219-226 | a report passes through; an error mentioning `401` becomes the invalid-key message; any other error passes through |
| Background.UnknownStatusMentioning401 | background/background.js:222-223 | an unknown status whose body mentions 401 is reported as an invalid key |
| Background.UnknownStatusPassesThrough | background/background.js:225 | an unknown status whose message does not mention 401 keeps a message that reads back to its status and body |
| Background.InsertIsFirstInFirstOut | background/background.js:402-419 | for a cache of at most 100 entries without timestamps, inserting an entry without one and cleaning up appends the key, and evicts the earliest key exactly when 100 were stored |
| Background.BackgroundAnalyzer.constructor | background/background.js:164-168 | the analyzer starts with an empty cache and no configuration |
| Background.BackgroundAnalyzer.InitializeAPI | background/background.js:170-191 | the configuration becomes the one the storage read gives |
| Background.BackgroundAnalyzer.CleanupCache | background/background.js:402-419 | the new order is the cleaned order, and the new Map is the old one restricted to it |
| Background.BackgroundAnalyzer.StoreAnalysis | background/background.js:216-217 | the cache after `set` and cleanup keeps its invariant: keys distinct and in step with the Map, at most 100 entries, none with a `timestamp`; since no entry can expire, the new key is appended and the earliest key is evicted exactly when 100 were already stored (first in, first out) |
| Background.BackgroundAnalyzer.LookupOrStore | background/background.js:209-218 | a cached key returns its report and changes nothing; otherwise the analysis is returned, and stored only when it is a report |
| Background.BackgroundAnalyzer.HandleContentAnalysis | background/background.js:193-227 | the configuration is read again only when missing; without a key the configuration error; a cache hit returns the cached report; otherwise the remapped analysis, stored when it succeeds |
| Background.BadgeFor | background/background.js:150-157 | exactly the three statuses have badges: analyzing is `...` in grey `#808080`, error is `×` in red `#FF4444`, and a ready badge warns with `!` in amber `#FFB100` exactly when the score exceeds 70 and is otherwise `✓` in green `#8BC34A` |
| ContentExtractor.FirstSelected | content/contentExtractor.js:82-88 | the text of the first selector in the list that matches; none exactly when no selector matches |
| ContentExtractor.FirstSelectorWins | content/contentExtractor.js:82-88 | the earliest matching selector decides, whatever later ones match |
| ContentExtractor.GetArticleContent | content/contentExtractor.js:69-89 | text exactly when one of the eight article selectors matches |
| ContentExtractor.GetMainContent | content/contentExtractor.js:91-98 | the text of `main` exactly when it matches |
| ContentExtractor.NoContainers | content/contentExtractor.js:69-98 | a page matching no article selector has neither article text nor `main` text |
| ContentExtractor.LongParagraphs | content/contentExtractor.js:102-104 | the kept paragraphs are trimmed and longer than 20 UTF-16 units, in page order (a subsequence of the trimmed texts), each long text occurring as often as among the trimmed texts |
| ContentExtractor.LongParagraphKept | content/contentExtractor.js:102-104 | every paragraph longer than 20 units after trimming is kept |
| ContentExtractor.LongParagraphOrigin | content/contentExtractor.js:102-104 | every kept paragraph is the trimmed text of a page paragraph |
| ContentExtractor.GetAllParagraphs | content/contentExtractor.js:100-110 | no text exactly when no trimmed paragraph is longer than 20 units; otherwise the long paragraphs joined by a blank line |
| ContentExtractor.FirstSubstantial | content/contentExtractor.js:54-62 | the first candidate longer than 100 units; none exactly when no candidate is |
| ContentExtractor.Strategies | content/contentExtractor.js:47-52 | four strategies; the `main` strategy finds text only when the article strategy already did, since `main` is one of its selectors; the last always gives the stripped body |
| ContentExtractor.GetBodyContent | content/contentExtractor.js:112-121 | the body text without its noisy elements, as the page gives it |
| ContentExtractor.GetPageContent | content/contentExtractor.js:45-67 | the raw body text when no strategy gives more than 100 units, otherwise a text longer than 100 units |
| ContentExtractor.CascadeTakesFirst | content/contentExtractor.js:54-62 | the content is the first strategy's text that is longer than 100 units |
| ContentExtractor.ArticleWins | content/contentExtractor.js:47-59 | long enough article text is the content |
| ContentExtractor.ParagraphsWithoutContainers | content/contentExtractor.js:47-59 | with no article or main element, long enough paragraphs are the content |
| ContentExtractor.BodyFallback | content/contentExtractor.js:64-66 | when no strategy is long enough, the raw body text is the content |
| ContentExtractor.CollapseSpaces | content/contentExtractor.js:125 | an empty result exactly for an empty input; every white-space run becomes one space, so the result has no two white-space characters in a row and none but the space |
| ContentExtractor.CollapseAcrossRun | content/contentExtractor.js:125 | a white-space run between two non-space characters (or an end) becomes exactly one space, and the text on either side is collapsed on its own |
| ContentExtractor.CollapseKeepsNonSpace | content/contentExtractor.js:125 | collapsing keeps every non-space character in order |
| ContentExtractor.ReplaceBlankLines | content/contentExtractor.js:126 | replacing blank-line runs keeps the non-space characters, never lengthens the text, and leaves a text without newlines unchanged |
| ContentExtractor.BlankLineBecomesNewline | content/contentExtractor.js:126 | a newline, a white-space run and a newline, before text that starts with no white space, become a single newline, and the replacement goes on after them |
| ContentExtractor.CleanContent | content/contentExtractor.js:123-128 | cleaned text is trimmed, collapsed and free of newlines, and keeps every non-space character of the input in order |
| ContentExtractor.BlankLinesAlreadyGone | content/contentExtractor.js:125-126 | the blank-line replacement never changes the output of the white-space replacement |
| ContentExtractor.CleanContentIdempotent | content/contentExtractor.js:123-128 | cleaning cleaned text changes nothing |
| ContentExtractor.FindMetaContent | content/contentExtractor.js:140-142 | the content of the meta tag exactly when one is present |
| ContentExtractor.JsOr | content/contentExtractor.js:132-134 | the first value when it is a non-empty string, otherwise the second |
| ContentExtractor.ExtractMetadata | content/contentExtractor.js:130-138 | author and publish date fall back to their second tag when the first is missing or empty; keywords and description are the content of their tag, and absent exactly when their tag is |
| ContentExtractor.ExtractContent | content/contentExtractor.js:10-43 | fails with `Not enough content found on page` exactly when the trimmed content is shorter than 100 units; otherwise the page's location, title, cleaned content, metadata and timestamp |
| ContentExtractor.ExactlyMinimumPasses | content/contentExtractor.js:20 | content of exactly 100 units after trimming is accepted |
| ContentExtractor.PaddedArticleIsRejected | content/contentExtractor.js:20-22 | article text long only because of white space passes the cascade but is rejected |
| ContentExtractor.ExtractedContentIsClean | content/contentExtractor.js:25-32 | extracted content is trimmed, has no newline, and keeps every non-space character of the page content |
| Popup.FirstLevel | popup/popup.js:157-161 | the first level whose inclusive range holds the score; none exactly when no range does |
| Popup.GetPolarizationLevel | popup/popup.js:155-165 | a level of the table, `balanced` when no range holds the score, and otherwise one whose range holds it |
| Popup.FirstLevelWins | popup/popup.js:157-161 | levels are tried in declaration order |
| Popup.RangesDisjoint | popup/popup.js:3-32 | no score lies in two ranges |
| Popup.LevelOfInteger | popup/popup.js:155-165 | each integer from 0 to 100 lies in exactly one range, and that range's level is returned |
| Popup.LevelFallback | popup/popup.js:162-165 | a score falls through every range exactly when it is NaN, infinite, negative, above 100 or a fraction between two ranges, and every such score falls back to `balanced` |
| Popup.GetScoreDisplay | popup/popup.js:239-250 | one of the four labels |
| Popup.DisplayThresholds | popup/popup.js:239-250 | each label is chosen exactly by the inclusive thresholds 30, 60 and 80 |
| Popup.DisplayMonotone | popup/popup.js:239-250 | a higher score never gets a less severe label |
| Popup.DisplayOfNaN | popup/popup.js:239-250 | NaN is shown as the most severe label while its level is `balanced` |
| Popup.ColourAgreement | popup/popup.js:155-165 | for integer scores from 0 to 100 the label's colour is the level's colour |
| Popup.FractionDisagrees | popup/popup.js:239-250 | 30.5 is shown yellow while its level is green |
| Popup.ReportLevelAgrees | popup/popup.js:170 | every parsed report's score gets a level whose range holds it and a label of the same colour |

## Left out

- The network request, the Chrome storage, tabs, messaging and badge APIs, the DOM and the clock are not modelled. A storage read, the request's outcome, the abstract page and the time are parameters. Console logging is dropped.
- The request body sent to the language service (model name, headers, prompt) is not modelled. Only the outcome matters to the code that follows.
- The constructor's un-awaited `initializeAPI` runs concurrently with the rest of the worker. The model starts with no configuration and treats the read as a separate call. Interleavings of concurrent `handleContentAnalysis` flows for different tabs are not modelled.
- Background.BackgroundAnalyzer.LookupOrStore: receives the analysis outcome as a value instead of making the request. The model therefore does not capture that the request is made only after a cache miss.
- `BackgroundController` (message dispatch, `initializeAnalysis`, `ensureContentScript`, `storeAnalysis` to session storage) is not modelled. The only part kept is the badge table of `updateBadge`. It is I/O glue around the analyzer.
- `storeFeedback` and `storeReport` are not modelled. They only log.
- content/content.js, settings/settings.js and content/types.js are not part of this model.
- The popup's rendering, event binding and messaging are not modelled. Only the two pure score functions and the level table are.
- Popup.GetScoreDisplay: JavaScript numbers are modelled as reals plus the infinities and NaN. Floating-point rounding is not modelled.
- ContentExtractor.GetBodyContent: the removal of header, footer, navigation and advertising elements from a clone of the body is not modelled. The page supplies the text that remains.
- ResponseParser.ReplyText: the JSON envelope keeps numbers as integers. Fractional numbers and the property names that `parseAnalysis` does not read play no part.
- ResponseParser.ExtractPolarizationScore: `parseInt` on a very long digit run would give a floating-point value. The model reads the digit run exactly before capping it at 100.
