# QuantGemini stock terminal: a Dafny model of its core

QuantGemini is a browser terminal for stock analysis. The user types stock codes or a theme, or
drops in a chart screenshot. The application asks a Gemini model for a report and streams it
into a Markdown view. Several codes at once give a batch table instead. A watchlist portfolio
can be toggled, edited, imported and filled from a broker screenshot. Around the report sit a
position-sizing panel, a signal gauge and an animated progress list.

This project models the logic behind those features as pure Dafny functions, with lemmas
stating what they promise:

- `Maybe`: `Option` and `Result`.
- `JsString`: the JavaScript string operations the code relies on, over `seq<char>`. It covers
  `trim`, `includes`, `indexOf`, `lastIndexOf`, `substring`, `replace` with a string pattern,
  `split`, `join`, and ASCII `toUpperCase`.
- `JsonValue`: a JSON value with JavaScript truthiness, property reads and writes, and
  `toString`.
- `Sanitiser`: `safeJsonParse` in services/geminiService.ts, one function per cleaning step.
  The steps are fence removal, trim, line comments, block comments, slicing out the outermost
  object or array, and trailing commas.
- `GeminiService`: the rest of services/geminiService.ts, from the model's reply onward. That
  is the configuration lookup, the streaming fold, the pick of structured data, the data-URL
  split, theme discovery, the array guards, the three validators with their fallbacks, and the
  field overwrite on re-analysis.
- `Portfolio`: the watchlist updaters of App.tsx. They toggle an entry, edit one field, import
  a list, and merge screenshot holdings.
- `AppFlow`: the rest of App.tsx's logic. It covers the search-box tokeniser and the search
  dispatch, the batch/single decision, and batch signal colours. It also covers the batch
  cache update after a price edit, the names copied from a batch, and the follow-up chat.
- `Markdown`: components/MarkdownRenderer.tsx. Each report line is classified as title,
  section, signal, key/value, list item, disclaimer, spacer or paragraph. Signal tones and the
  colours of bold runs in list items are modelled too.
- `QuantTools`: components/QuantTools.tsx. It covers the risk budget, the risk of one share,
  the share count, and the gauge and needle colours.
- `TerminalLoader`: components/TerminalLoader.tsx. Its step list is advanced by a timer tick.

Every call to the Gemini model is cut off at its result. A reply is its text, with the empty
string standing for a missing `text`. A streamed reply is its list of chunks. A call whose
exception the source catches is `None`. `JSON.parse` is a function parameter
`parse: string -> Option<Json>`, with `None` for a thrown `SyntaxError`. Clocks (`Date.now()`,
`toLocaleTimeString()`) and environment variables are parameters too.

When a follow-up stream fails, App.tsx drops every empty message from the history. A failure
before any text arrived therefore takes the empty placeholder away
(`AppFlow.FailedFollowUpDropsPlaceholder`), while text already streamed into the placeholder
stays as a partial answer (`AppFlow.FailedFollowUpKeepsPartial`).

## Model

| member | source | states |
|---|---|---|
| GeminiService.TrimTrailingSlash | services/geminiService.ts:43 | the result is the URL with at most its final character removed, and is a prefix of it |
| GeminiService.TrimTrailingSlashInverse | services/geminiService.ts:43 | a URL without a trailing slash is unchanged; adding one slash and trimming gives the URL back |
| GeminiService.ResolveBaseUrl | services/geminiService.ts:38-43 | the first non-empty variable wins, else the default proxy; the trailing slash is dropped |
| GeminiService.ResolveApiKey | services/geminiService.ts:32-35 | the key is empty exactly when both variables are missing or empty; otherwise the first non-empty one, the primary before the secondary, is the key |
| GeminiService.ClientConfig | services/geminiService.ts:46-55 | "API Key missing." exactly when no key is configured; the base URL is passed only when non-empty |
| GeminiService.TextsAppend | services/geminiService.ts:263-268 | the texts of two chunk lists appended are the two text lists appended |
| GeminiService.RunningIsPrefixChain | services/geminiService.ts:263-268 | update k holds the first k+1 texts joined; with non-empty texts each update is a proper prefix of the next |
| GeminiService.FoldStream | services/geminiService.ts:260-268 | the full text is all chunk texts joined; one update per text chunk, each a prefix of the next, the last equal to the full text |
| GeminiService.RunningEnds | services/geminiService.ts:260-268 | with non-empty texts, each running buffer is a proper prefix of the next, and the last is the whole text |
| GeminiService.SendFollowUp | services/geminiService.ts:288-298 | the reply is all chunk texts joined; the callback sees every running prefix |
| GeminiService.PickStructured | services/geminiService.ts:270-271 | structured data is kept exactly when the parsed value is truthy and has a truthy `signal` |
| GeminiService.InlinePayload | services/geminiService.ts:219 | the payload is the whole URL or a non-empty piece without a comma |
| GeminiService.InlinePayloadNoComma | services/geminiService.ts:219 | a URL without a comma is sent whole |
| GeminiService.InlinePayloadAfterFirstComma | services/geminiService.ts:219 | the payload is the piece between the first and the second comma (or the end), and the whole URL when that piece is empty |
| GeminiService.InlinePayloadSecondPiece | services/geminiService.ts:219 | with two commas, the non-empty text between them is the payload |
| GeminiService.MimeType | services/geminiService.ts:220 | the MIME type is the default or a non-empty run without `;` |
| GeminiService.MimeTypeDefault | services/geminiService.ts:220 | a URL in which `data:` does not occur gets `image/jpeg` |
| GeminiService.MimeAtStart | services/geminiService.ts:220 | `data:<mime>;…` yields exactly `<mime>` |
| GeminiService.DataUrlRoundTrip | services/geminiService.ts:255-256 | a data URL built from a MIME type and a base64 payload splits back into the same two parts |
| GeminiService.StockMessage | services/geminiService.ts:253-258 | without an image the message is plain text; with one it carries the text and an inline-data part |
| GeminiService.StartStockChat | services/geminiService.ts:246-277 | the raw text is the whole stream; the symbol is the code or `IMAGE`; structured data is picked from the parsed text |
| GeminiService.ArrayOrEmpty | services/geminiService.ts:226 | an array is kept; anything else gives the empty list |
| GeminiService.ScreenshotRows | services/geminiService.ts:214-227 | a reply that parses to an array gives exactly its elements; one that does not gives no rows; an empty reply is parsed as `[]` |
| GeminiService.BatchAnalysis | services/geminiService.ts:229-244 | a batch record with symbol BATCH; the raw text is the reply or `[]`; the rows are the elements of the array the reply parses to, or none |
| GeminiService.NormaliseCode | services/geminiService.ts:211 | only ASCII letters and digits remain, and none is added |
| GeminiService.NormaliseCodeOne | services/geminiService.ts:211 | a single letter or digit stays; any other single character goes |
| GeminiService.NormaliseCodeAppend | services/geminiService.ts:211 | normalising a concatenation is normalising each part and concatenating |
| GeminiService.NormaliseCodeKeepsAlnum | services/geminiService.ts:211 | a code made of ASCII letters and digits only is unchanged |
| GeminiService.NormaliseCodeIdempotent | services/geminiService.ts:211 | normalising twice equals normalising once |
| GeminiService.DiscoverCodes | services/geminiService.ts:204-212 | a reply that is not an array gives no codes; an array gives at most six codes, all ASCII alphanumeric, each one a converted array element, and is an error exactly when some element's `toString()` throws |
| GeminiService.FirstCodes | services/geminiService.ts:211 | an error exactly when some element is null or is, or holds inside arrays, an object with its own `toString` key, carrying the TypeError of the first such element; otherwise the first six elements, or all when there are fewer, each turned into a string and stripped to ASCII letters and digits |
| GeminiService.FirstThrow | services/geminiService.ts:211 | the position of the first element whose `toString()` throws, after only elements that do not |
| GeminiService.ToStringError | services/geminiService.ts:211 | the TypeError names reading a property of null exactly when the element is null |
| GeminiService.ToStringKeyThrows | services/geminiService.ts:211 | `["AAPL", {"toString": "x"}]` fails with "c.toString is not a function" although its first element is a good code |
| GeminiService.MarketOverview | services/geminiService.ts:119-139 | the result always has a numeric score and an array `indices`; a valid reply keeps its fields, anything else gives the fallback |
| GeminiService.DeepMacro | services/geminiService.ts:166-191 | the result always has a truthy strategy; a valid reply is returned unchanged, anything else gives the BALANCE fallback |
| GeminiService.TradeSetup | services/geminiService.ts:194-202 | success exactly when the parsed reply is truthy with a truthy `updatedData`; otherwise "Trade Setup Data Invalid" |
| GeminiService.Overwrite | services/geminiService.ts:284 | code, name, price and lastUpdated are set; every other field is kept |
| GeminiService.Reanalysed | services/geminiService.ts:279-286 | null and falsy values pass through; objects get the four fields; truthy primitives throw |
| GeminiService.Reanalyze | services/geminiService.ts:283-285 | a non-empty reply is parsed after cleaning and then overwritten; an empty one is parsed as `{}` itself |
| Sanitiser.StripFences | services/geminiService.ts:62 | removing fences never lengthens the text |
| Sanitiser.StripFencesLeavesNoFence | services/geminiService.ts:62 | no triple backtick is left in the result |
| Sanitiser.StripFencesPlain | services/geminiService.ts:62 | text without a backtick is unchanged |
| Sanitiser.StripLineComments | services/geminiService.ts:64 | removing line comments never lengthens the text |
| Sanitiser.FencedBlockUnwrapped | services/geminiService.ts:62 | a json-tagged fenced block comes back as its surrounding text and body, with the fences gone |
| Sanitiser.LineEndStops | services/geminiService.ts:64 | `.*` stops at the first line terminator, or at the end |
| Sanitiser.StripLineCommentsLeavesNoOpener | services/geminiService.ts:64 | no `//` is left after the line-comment step |
| Sanitiser.StripLineCommentsKeepsLines | services/geminiService.ts:64 | the line-comment step keeps every line terminator, in order |
| Sanitiser.StripLineCommentsPlain | services/geminiService.ts:64 | text without a slash is unchanged |
| Sanitiser.LineCommentRemoved | services/geminiService.ts:64 | a `//` comment is cut up to the line end, and the text before it is kept |
| Sanitiser.UrlInStringIsCut | services/geminiService.ts:64 | a `//` inside a JSON string, as in a URL, is also cut to the line end |
| Sanitiser.StripBlockComments | services/geminiService.ts:64 | removing block comments never lengthens the text |
| Sanitiser.StripBlockCommentsPlain | services/geminiService.ts:64 | text without a slash is unchanged |
| Sanitiser.BlockCommentRemoved | services/geminiService.ts:64 | a block comment is removed up to its first closer, and the text before it is kept |
| Sanitiser.FirstOpenerDecides | services/geminiService.ts:66-77 | the earlier of `{` and `[` decides the kind, and the span ends at the last matching closer |
| Sanitiser.SliceSpan | services/geminiService.ts:79-81 | with an opener and a later closer the slice runs from one to the other inclusive; a closer first gives the text between them |
| Sanitiser.SliceUnclosed | services/geminiService.ts:79-81 | an opener with no closer leaves the text whole |
| Sanitiser.SliceNoOpener | services/geminiService.ts:66-81 | text with neither opener is not sliced |
| Sanitiser.SliceStructure | services/geminiService.ts:66-82 | the slice is never longer than the text |
| Sanitiser.SpaceRun | services/geminiService.ts:85 | the run counts exactly the leading white space |
| Sanitiser.RemoveTrailingCommas | services/geminiService.ts:85 | removing trailing commas never lengthens the text |
| Sanitiser.TrailingCommasKeepEssentials | services/geminiService.ts:85 | removing trailing commas keeps every character other than commas and white space, in order |
| Sanitiser.NoTrailingCommaUnchanged | services/geminiService.ts:85 | text without a comma before a closer is unchanged |
| Sanitiser.TrailingCommasPlainPrefix | services/geminiService.ts:85 | text without a trailing comma, followed by a character that is neither white space nor a closer, is kept as it is in front of the rest |
| Sanitiser.TrailingCommaInFront | services/geminiService.ts:85 | a comma, white space and a closer at the front become the closer alone |
| Sanitiser.TrailingCommaRemoved | services/geminiService.ts:85 | a comma followed only by white space before `}` or `]` is removed with that white space; the text before it is kept and the closer stays |
| Sanitiser.SafeJsonParse | services/geminiService.ts:58-92 | empty text gives null; any other text gives exactly the parser's result on the cleaned candidate |
| Sanitiser.BareScalarReachesParser | services/geminiService.ts:58-92 | clean text without fences, comments, braces or commas reaches the parser unchanged |
| Sanitiser.Candidate | services/geminiService.ts:60-85 | the text that reaches the parser is never longer than the reply |
| Sanitiser.EmptyArrayReachesParser | services/geminiService.ts:225 | the `[]` put in for an empty reply reaches the parser unchanged |
| Sanitiser.EmptyObjectReachesParser | services/geminiService.ts:283 | the `{}` put in for an empty re-analysis reply reaches the parser unchanged |
| Sanitiser.BracketPairReachesParser | services/geminiService.ts:58-92 | an opener right before its matching closer reaches the parser unchanged |
| JsString.Trim | App.tsx:575 | the result is a piece of the text with only white space before and after it and none at its own ends; it is empty exactly when the text is all white space, and a text without white space at its ends is kept |
| JsString.JoinSplit | components/MarkdownRenderer.tsx:11 | joining the pieces of a split with its separator gives the text back |
| JsString.SplitCount | components/MarkdownRenderer.tsx:11 | splitting at a character gives one more piece than it has occurrences |
| JsonValue.Get | services/geminiService.ts:126 | a property is present exactly for an object with that key |
| JsonValue.Set | services/geminiService.ts:131 | the field is set and every other field is kept |
| Portfolio.RemoveCode | App.tsx:396 | no entry of the code remains, and the list does not grow |
| Portfolio.Toggle | App.tsx:392-401 | a listed code is removed entirely; an unlisted code is appended as a new entry |
| Portfolio.ToggleTwiceRestores | App.tsx:392-401 | toggling an unlisted code twice restores the list |
| Portfolio.ToggleKeepsUnique | App.tsx:392-401 | toggling keeps codes unique |
| Portfolio.UpdateField | App.tsx:403-405 | every entry of the code gets the value in the named field; all other entries and fields are unchanged |
| Portfolio.ImportMerge | App.tsx:430-438 | the merged list is at least as long as the previous one and at most one entry longer per imported item |
| Portfolio.ImportKeepsPrefix | App.tsx:430-438 | the previous list is the unchanged prefix of the merged one |
| Portfolio.ImportKeepsUnique | App.tsx:430-438 | unique codes stay unique after an import |
| Portfolio.ImportCoversImported | App.tsx:430-438 | every imported code is on the merged list |
| Portfolio.ImportAddsOnlyImported | App.tsx:430-438 | every appended entry is an imported one |
| Portfolio.FindIndex | App.tsx:355 | the first index of the code, or -1 exactly when it is absent |
| Portfolio.MergeHolding | App.tsx:355-369 | a known code keeps its entry apart from quantity and cost; an unknown code is pushed as a new entry with the holding's code, name, quantity and cost, the current market and the current time |
| Portfolio.MergeScreenshot | App.tsx:352-372 | the merged list is at least as long as the previous one and at most one entry longer per holding |
| Portfolio.ScreenshotNewEntries | App.tsx:352-372 | every appended entry has a code not on the old list, the name of the first holding with that code, the current market and the current time |
| Portfolio.ScreenshotKeepsEntries | App.tsx:352-372 | each old entry keeps code, name, market and date; only quantity and cost may change |
| Portfolio.ScreenshotKeepsUntouched | App.tsx:352-372 | an entry whose code no holding names is unchanged |
| Portfolio.ScreenshotKeepsUniqueAndCovers | App.tsx:352-372 | codes stay unique, and every holding's code is on the list |
| Portfolio.ScreenshotLastWins | App.tsx:352-372 | the list shows the quantity and cost of the last holding with each code |
| AppFlow.SplitCodesAtRun | App.tsx:574 | a separator-free piece in front of a maximal separator run is split off whole, and splitting goes on after the run |
| AppFlow.SplitCodesClean | App.tsx:574 | text without separators is one piece |
| AppFlow.Tokenise | App.tsx:574-575 | every code is non-empty and has no white space or comma |
| AppFlow.TokensKeepCodeChars | App.tsx:574-575 | the codes joined together are the search text with its separators removed |
| AppFlow.NoTokensIffSeparatorsOnly | App.tsx:574-576 | no code comes out exactly when the text is made of separators only |
| AppFlow.TokeniseAtSeparator | App.tsx:574-575 | the codes of a text with a separator in it are the codes before the separator followed by the codes after it |
| AppFlow.TwoCodes | App.tsx:574-575 | two codes with any separator between them come out as those two codes |
| AppFlow.CommaSplitsCodes | App.tsx:574-575 | `A,B` gives the two codes `A` and `B` |
| AppFlow.TokeniseJoin | App.tsx:574-575 | codes written with single spaces between them tokenise back to the same codes |
| AppFlow.HandleSearch | App.tsx:543-579 | an image always wins; blank text without an image is ignored; discovery passes the theme on; the code path passes the tokens on |
| AppFlow.AfterDiscovery | App.tsx:559-566 | an empty discovery falls back to the theme itself; otherwise the discovered codes are used |
| AppFlow.RunAnalysis | App.tsx:459-527 | batch exactly when there is more than one code and no image; a single run names the first code, or 图片分析 / Image Analysis when it is missing or empty, and passes the image on |
| AppFlow.ImageForcesSingle | App.tsx:548-551 | a search with an image is always a single analysis |
| AppFlow.BatchSignalTone | App.tsx:726-733 | empty gives neutral; otherwise BUY beats SELL beats HOLD, in any letter case |
| AppFlow.BatchSignalToneIgnoresCase | App.tsx:726-733 | upper-casing the signal first changes nothing |
| AppFlow.ReplaceRows | App.tsx:619 | a null row is an error; otherwise rows with the code become the updated row and others stay |
| AppFlow.UpdateCache | App.tsx:617-621 | no cache or no rows means no change; otherwise only the rows change |
| AppFlow.ReplaceAbsentCode | App.tsx:619 | an edit for a code no row has leaves the rows unchanged |
| AppFlow.FindRow | App.tsx:483 | a found row has the code; nothing is found exactly when no row is null or has the code |
| AppFlow.FindRowFirst | App.tsx:483 | the first row with the code is the one found |
| AppFlow.RowName | App.tsx:484 | a name is taken exactly when the row has a non-empty string name |
| AppFlow.NameFromBatch | App.tsx:480-489 | only names change; an entry whose found row has a non-empty name takes it, every other entry keeps its name; a null row before a match is an error |
| AppFlow.NameFromFirstMatch | App.tsx:483-485 | an entry takes the name of the first row with its code when no null row comes before it |
| AppFlow.NameFromBatchIdempotent | App.tsx:480-489 | applying the rename twice equals applying it once |
| AppFlow.NameFromBatchKeepsUnique | App.tsx:480-489 | renaming keeps codes unique |
| AppFlow.FollowUpText | App.tsx:635-637 | a message is sent only with a session and non-blank text; custom text is preferred |
| AppFlow.OpenFollowUp | App.tsx:640-655 | the history gains the user message and then an empty model placeholder |
| AppFlow.StreamUpdate | App.tsx:662-672 | only a final model message changes, to the streamed text; everything else is kept |
| AppFlow.ApplyUpdates | App.tsx:662-672 | the history keeps its length and every role, and only the last message can change |
| AppFlow.StreamingFillsPlaceholder | App.tsx:662-672 | after the updates the placeholder holds the last update and nothing before it changed |
| AppFlow.StreamedExchange | App.tsx:645-672 | after streaming, a follow-up is the history, the question, and the answer holding the last streamed text |
| AppFlow.FollowUpExchange | App.tsx:633-681 | the question is followed by the complete streamed answer; the earlier history is unchanged |
| AppFlow.DropEmpty | App.tsx:677 | the result holds no empty message, only messages of the history, and every non-empty message of the history |
| AppFlow.DropEmptyAppend | App.tsx:677 | dropping empty messages distributes over appending |
| AppFlow.DropEmptyTwo | App.tsx:677 | two messages with text survive the filter behind what is left of the history |
| AppFlow.FailedFollowUpDropsPlaceholder | App.tsx:677 | on a failure before any text arrived the empty placeholder goes and the question stays |
| AppFlow.FailedFollowUpKeepsPartial | App.tsx:656-677 | on a failure after text arrived the placeholder stays with the last streamed text, after the question |
| Markdown.ToneOfSignal | components/MarkdownRenderer.tsx:32-36 | each tone is chosen exactly when its word (BUY/买入, SELL/卖出, HOLD/持有, WAIT/观望, English in any ASCII case) occurs and no earlier word does; default when none occurs |
| Markdown.UpperKeepsWord | components/MarkdownRenderer.tsx:33-36 | upper-casing does not create or destroy a word without ASCII letters |
| Markdown.ToneOfSignalIgnoresCase | components/MarkdownRenderer.tsx:33-36 | the tone of an upper-cased signal is the same |
| Markdown.MatchSignal | components/MarkdownRenderer.tsx:27 | a match exactly when the line opens with `**`, Signal or 信号, either colon and `**`; a match has that tag and colon, and a capture that holds no line terminator and stops at the end of the text or right before a line terminator |
| Markdown.MatchSignalLine | components/MarkdownRenderer.tsx:27 | a line opening with the signal marker is matched with its tag and colon, and the capture is the rest of the line up to its first line terminator |
| Markdown.CloseOf | components/MarkdownRenderer.tsx:64 | a bold run closes at the first later `**` when no line terminator stands before it; it fails exactly when every later `**` has a line terminator before it, or there is none |
| Markdown.Scan | components/MarkdownRenderer.tsx:64 | the pieces of a list item put back together give the item text |
| Markdown.StrongTextsClean | components/MarkdownRenderer.tsx:64 | a bold run's text has no `**` and no line terminator |
| Markdown.ScanPlain | components/MarkdownRenderer.tsx:64 | text without `**` is all literal characters |
| Markdown.ScanPlainPrefix | components/MarkdownRenderer.tsx:64 | text without a star is copied character by character, and scanning goes on after it unchanged |
| Markdown.ScanStrongAfterPlain | components/MarkdownRenderer.tsx:64 | a `**x**` after plain text is recognised as a bold run too |
| Markdown.ItemHtmlStrongAfterPlain | components/MarkdownRenderer.tsx:64-71 | plain text before a bold run is copied, then the run becomes its strong element, and the rest follows |
| Markdown.ScanStrongFirst | components/MarkdownRenderer.tsx:64 | a leading `**x**` becomes one bold run, and scanning goes on after it |
| Markdown.KeywordColour | components/MarkdownRenderer.tsx:65-69 | target words beat stop words, which beat entry words; otherwise white |
| Markdown.ItemHtmlStrongFirst | components/MarkdownRenderer.tsx:64-71 | a leading bold run becomes its strong element, and the rest follows |
| Markdown.ItemHtmlPlain | components/MarkdownRenderer.tsx:64 | an item without `**` is shown as it is |
| Markdown.ItemHtml | components/MarkdownRenderer.tsx:64-71 | pieces without a bold run are shown as the text they stand for |
| Markdown.SplitAtOccurrence | components/MarkdownRenderer.tsx:50 | when the separator occurs, the first piece is the text before its first occurrence |
| Markdown.BlockOf | components/MarkdownRenderer.tsx:18-82 | each kind of block is chosen exactly when its rule matches and no earlier rule (title, section, signal, key/value, list, disclaimer, blank) does; a signal carries the tone of its text |
| Markdown.Classify | components/MarkdownRenderer.tsx:16-82 | a spacer exactly for a blank line; a paragraph shows the trimmed line |
| Markdown.StarIsNoHeading | components/MarkdownRenderer.tsx:18-22 | a line starting with `*` is neither title nor section |
| Markdown.SignalLineShown | components/MarkdownRenderer.tsx:27-36 | a signal line shows its tag, its text up to the first line terminator, trimmed, and that text's tone |
| Markdown.KeyIsNoSignal | components/MarkdownRenderer.tsx:27-47 | a bold key other than Signal or 信号 is not a signal line |
| Markdown.KeyValueOf | components/MarkdownRenderer.tsx:47-52 | a `**` line with a key/value separator always gives a key/value block |
| Markdown.KeyValueSplit | components/MarkdownRenderer.tsx:47-52 | `**key:**value` splits into exactly that key and that value |
| Markdown.KeyValueParts | components/MarkdownRenderer.tsx:47-52 | with a second `:**` in the line, the value is only the text between the first and the second separator |
| Markdown.KeyValueAsciiWins | components/MarkdownRenderer.tsx:47-52 | with both separators present, the ASCII one splits even when the full-width one comes first, so the key keeps the full-width one |
| Markdown.KeyValueLineShown | components/MarkdownRenderer.tsx:47-52 | such a line is shown as a key/value pair |
| Markdown.ListLineBlock | components/MarkdownRenderer.tsx:62-73 | a `- **` line is a list item of its text after `- `, whatever follows |
| Markdown.DisclaimerBlock | components/MarkdownRenderer.tsx:75-77 | a `*Disclaimer` or `*免责声明` line is shown as the disclaimer |
| Markdown.Render | components/MarkdownRenderer.tsx:11-16 | one block per line, each the classification of that line |
| Markdown.RenderCountsLines | components/MarkdownRenderer.tsx:11 | the number of blocks is the number of line feeds plus one |
| QuantTools.RiskAmount | components/QuantTools.tsx:22 | the budget is non-negative for non-negative inputs, the whole capital at 100 percent, and nothing at 0 |
| QuantTools.RiskPerShare | components/QuantTools.tsx:23 | the risk of one share is non-negative, zero exactly when entry equals stop, and equal to their distance |
| QuantTools.Shares | components/QuantTools.tsx:29-32 | the count fits the budget and one more share would not; zero when there is no distance |
| QuantTools.FloorBounds | components/QuantTools.tsx:31 | the floor of budget over distance, multiplied back, brackets the budget |
| QuantTools.SharesIsLargestFit | components/QuantTools.tsx:29-32 | every count whose risk fits the budget is at most the suggested count |
| QuantTools.Size | components/QuantTools.tsx:22-34 | the panel's four figures, with position value equal to shares times entry |
| QuantTools.StopLossWithinBudget | components/QuantTools.tsx:22-34 | stopped out, the position loses at most the budget, and one more share would lose more |
| QuantTools.GaugeColour | components/QuantTools.tsx:37-41 | SELL gives rose, otherwise BUY gives green, otherwise yellow; case-sensitive |
| QuantTools.NeedleColour | components/QuantTools.tsx:91 | BUY gives green, otherwise SELL gives rose, otherwise yellow |
| QuantTools.GaugeAndNeedle | components/QuantTools.tsx:37-91 | gauge and needle disagree exactly when the signal contains both BUY and SELL |
| TerminalLoader.Init | components/TerminalLoader.tsx:30-32 | one step per message, ids are indices, only the first is active, none is completed |
| TerminalLoader.Tick | components/TerminalLoader.tsx:37-55 | the index moves on by one; ids and messages are kept; completed steps stay completed; only two steps can change |
| TerminalLoader.TickAdvances | components/TerminalLoader.tsx:37-55 | one tick takes the k-th state to the (k+1)-th |
| TerminalLoader.TicksReach | components/TerminalLoader.tsx:30-55 | after k ticks the steps before k are done, step k is active and the rest wait |
| TerminalLoader.AtMostOneActive | components/TerminalLoader.tsx:30-55 | in every reached state at most one step is active |
| TerminalLoader.Ticks | components/TerminalLoader.tsx:37-55 | k ticks keep the number of steps and move the index on by k |
| TerminalLoader.TickCount | components/TerminalLoader.tsx:57-59 | the timer fires once per message, and once when there is none |
| TerminalLoader.Run | components/TerminalLoader.tsx:34-60 | when the timer stops every step is completed and none is active; it took as many ticks as messages |

## Left out

- Network calls, the Gemini SDK, prompts, system instructions, model settings and
  `MARKET_CONFIG` are not modelled. Every call is cut off at its reply.
- `testProxyConnection` is not modelled. It only reports the HTTP status of a `fetch`.
- `JSON.parse` is a parameter; the JSON grammar itself is not modelled.
- Environment variables, `Date.now()` and `toLocaleTimeString()` are parameters. The caught
  exception from reading `process.env` is a missing value.
- Portfolio.MergeScreenshot and AppFlow.OpenFollowUp: one time stamp `now` is used for every
  entry appended in one screenshot merge and for both messages of one follow-up. The source
  reads the clock once per appended entry (App.tsx:365) and once per message (App.tsx:643,
  653), so its stamps may differ by the time between those reads.
- React timing is not modelled. That covers batched and double-invoked updaters, loading flags,
  view switches, `alert`, file readers and the export download. Each updater is modelled as
  the pure function React is handed.
- TerminalLoader: the 800 ms interval and the in-place mutation of the shared step objects are
  left out. The closure's index is a field of the state. With no messages at all the timer
  still fires once (`TerminalLoader.TickCount`).
- Strings are sequences of Unicode scalar values, while JavaScript strings are sequences of
  UTF-16 code units. Lone surrogates cannot be written, and a character outside the Basic
  Multilingual Plane counts as one character instead of two. The modelled operations cut and
  compare strings at the same characters either way; only the numbers given as lengths and
  indices would count such characters differently.
- Numbers are unbounded reals, not IEEE doubles. NaN, infinities and rounding in the sizing
  panel are left out.
- The HTML and JSX output, CSS classes (except the colour decision), the gauge rotation and the
  confidence display are not modelled.
- Markdown.ColourClass only names the CSS class of a colour; HTML escaping of model text
  (`dangerouslySetInnerHTML`) is not modelled.
- JsString.ToUpperAscii: `toUpperCase` is modelled for ASCII letters only. Characters such as
  `ſ` or `ı`, which JavaScript upper-cases to ASCII letters, are not folded.
- GeminiService.Reanalysed: a truthy array is returned unchanged. The source attaches the four
  properties to the array object, and they stay on the array stored in the batch cache. A later
  price edit for the same code then matches that array by its `code` property (App.tsx:619)
  and replaces it again, whereas the model's array row has no code, so `AppFlow.ReplaceRows`
  leaves it in place.
- GeminiService.DiscoverCodes: `toString` of a number is the parameter `showNum`, since
  JavaScript's number formatting is not modelled. Objects and arrays are converted by
  `JsonValue.ToJsString`, and `JsonValue.ToStringThrows` says when that conversion throws.
- AppFlow.RowName: a truthy name that is not a string (a number, say) is treated as absent.
- Portfolio.ImportMerge and Portfolio.MergeScreenshot: imported and screenshot elements are
  assumed to be well-formed records. A malformed element, which makes the source read a
  missing property, is not modelled.
- Sanitiser.FencedBlockUnwrapped: this holds only when the text after the closing fence does
  not begin with `json`. Such text would be read as a tagged fence.
- The `fromBatchClick` flag, error messages shown in the UI, and the strategy-report query text
  of App.tsx are not modelled.
