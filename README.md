# AI Content-to-PDF Enhancer: the extraction core, in Dafny

This project models the part of the AI Content-to-PDF Enhancer browser
extension that does real work:

- the simplified Readability reader (`chrome-extension/readability.js`);
- the content script's extraction pipeline (`chrome-extension/content.js`):
  - three methods tried as a fallback chain: Readability on a copy of the page, then a selector heuristic, then the whole body text;
  - per-field metadata fallbacks;
  - text cleaning, word counts and reading time;
  - image and link lists;
  - the 50-entry extraction log;
- the log buffer (`chrome-extension/logger.js`):
  - a list capped at 1000 entries;
  - recursive redaction of sensitive keys;
  - level and message filters;
  - CSV and text export;
  - per-level statistics;
- two popup helpers (`chrome-extension/popup.js`): `sanitizeFilename` and `formatPreviewContent`.

The page is an immutable tree of element and text nodes (`Dom.Node`). An
element's `Info.key` stands for its identity in the live DOM, and the
invariant `Dom.KeysUnique` keeps keys distinct. `el.remove()` becomes
`Dom.FilterTree` with the removed keys, and an element changed in place
(the article `cleanContent` cleans) becomes `Dom.ReplaceKeyed`. Each loop that removes elements one
by one from a snapshot is proved to remove exactly the elements that a
structural filter drops.

`querySelector` returns the first match in document order. `textContent` is
the pre-order concatenation of the text leaves. `innerHTML` is kept as the
child forest, not as serialized text.

Strings are sequences of characters. Case mapping (`toLowerCase` and
`toUpperCase`) acts on ASCII letters only.

The code is imperative where the source is:

- `Readability` is a class with `doc` and `options` fields. Its
  `removeUnwantedElements`, `parse` and `cleanContent` run the source's
  loops.
- `extractWithHeuristics` and `extractTitle` are early-exit loops over
  their selector lists.
- `extractContent` reassigns `content` step by step, and `logExtraction`
  pushes and then trims.
- `Logger` is a class whose `logs` field `log` and `clearLogs` reassign.
  `sanitizeData`, `getLogs`, `getStats` and `exportToCSV` are methods with
  the source's loops and reassignments.

Each method is proved equal to a specification function, and the
properties are proved about those functions.

The model follows the code where it differs from the extension's
documented behaviour:

- Methods 2 and 3 read the live page as it is. Only Method 1 strips
  unwanted elements, and it strips them from its copy.
- Extraction never reports a separate "failed" result for empty text.
  A page with a body always yields a record, even one with no text.
- Readability's `findByMainTag` matches the `main` tag only, not
  `role="main"`.
- Readability's content-class list has no `#content` or `#main`.
- Readability blocks 14 words, by class membership or as a substring of
  the id.
  - For example, an id `header` contains `ad` and is rejected.
- The content script's own validity test differs from Readability's:
  - it checks 5 whole class names, one of them `nav`;
  - it does not look at the id.
- `byline` and `siteName` from Readability can be null, and they
  override the metadata through the object spread.
- `extractionMethod` in the extraction log is always `'heuristic'`.
- The second replace in `cleanText` (`\n\s*\n`) never fires, because the
  first replace has already turned every newline into a space.
- `sanitizeData` turns an array into a plain object keyed by its indices.

## Model

| member | source | states |
|---|---|---|
| Util.OrElse | chrome-extension/content.js:81-91 | `a \|\| 'default'` on a nullable string: the value when it is a non-empty string, otherwise the default |
| Util.KeepLast | chrome-extension/logger.js:29-32 | keeping the newest `n` elements: the result is a suffix of `s` of length min(length of `s`, `n`) |
| Util.SplitJoin | chrome-extension/logger.js:184 | splitting a newline-joined list of newline-free lines gives the list back |
| Strings.Trim | chrome-extension/content.js:256 | `trim()`: the result has no whitespace at either end, and it is empty iff the input is all whitespace |
| Strings.TrimOfTrimmed | chrome-extension/content.js:256 | a string with no whitespace at either end is its own trim |
| Strings.TrimIsSlice | chrome-extension/content.js:256 | the trimmed string is a slice of the input with only whitespace cut from both ends |
| Strings.CollapseWs | chrome-extension/content.js:254 | `replace(/\s+/g, ' ')`: the result has no newline and no run of whitespace other than single spaces |
| Strings.NormalizeSpace | chrome-extension/readability.js:212-214 | collapse-then-trim: no whitespace at the ends, single spaces only, no newline |
| Strings.NormalizeSpaceIdempotent | chrome-extension/readability.js:212-214 | normalizing a normalized text changes nothing |
| Strings.FirstSegment | chrome-extension/readability.js:184-185 | `split(/[.!?]+/)[0]`: the longest prefix without a terminator, stopped by a terminator or the end |
| Strings.Excerpt | chrome-extension/readability.js:183-187 | `extractExcerpt`: either a first sentence longer than 50 characters, or a result whose length is min(text length, 200) + 3 |
| Strings.ExcerptShape | chrome-extension/content.js:209-213 | the excerpt is the trimmed first sentence when that is longer than 50 characters, otherwise the first 200 characters followed by '...' |
| Strings.ExcerptOfLongSentence | chrome-extension/readability.js:184-186 | a first sentence longer than 50 characters, ended by a terminator, is the excerpt |
| Strings.ExcerptOfShortText | chrome-extension/readability.js:186 | a text of at most 200 characters whose first sentence is short gets '...' appended |
| Dom.QueryAll | chrome-extension/readability.js:129 | `querySelectorAll`: exactly the matching elements of the forest |
| Dom.QueryFirst | chrome-extension/readability.js:99 | `querySelector`: null iff nothing matches, otherwise a matching element of the page |
| Dom.QueryFirstAt | chrome-extension/readability.js:99 | `querySelector` returns the first match in document order: the element at pre-order position i when it matches and no earlier element does |
| Dom.FilterTreeKeysUnique | chrome-extension/readability.js:75 | removing elements keeps element identities distinct |
| Dom.FilterTreeInfos | chrome-extension/readability.js:75 | removing elements adds no element; every remaining element was in the tree and is not one the filter drops |
| Dom.RemoveQueried | chrome-extension/readability.js:72-76 | removing each element of a `querySelectorAll` snapshot is the structural removal of every matching subtree |
| Dom.RemoveMarked | chrome-extension/readability.js:192-196 | removing a snapshot of exactly the marked elements is the structural removal of the marked subtrees |
| Page.GetAttribute | chrome-extension/content.js:77 | `getAttribute`: null iff the attribute is absent, otherwise its value |
| Page.MetaContent | chrome-extension/content.js:75-78 | `getMetaContent`: null when no `meta[name=…]`/`meta[property=…]` exists; otherwise the `content` attribute (null when absent) of the first such element |
| Page.MetaMatch | chrome-extension/content.js:75-78 | `meta[name="x"], meta[property="x"]` matches exactly a `meta` element whose `name` or `property` is x |
| Page.MetaContentAt | chrome-extension/content.js:75-78 | the `<meta>` read is the first matching one in document order: its `content` is the result |
| Page.FirstTitleNone | chrome-extension/content.js:198-204 | no title is found iff every selector's first match is missing or has an empty trimmed text; a found title is never empty |
| Page.FirstTitleAt | chrome-extension/readability.js:173-180 | the title is the trimmed text of the first selector whose first match has a non-empty trimmed text; later selectors are not consulted |
| Page.Longest | chrome-extension/readability.js:130-133 | an element whose `textContent` is at least as long as every other candidate's, and null only when there are no candidates |
| Page.LongestAt | chrome-extension/readability.js:130-133 | the sort is stable: a candidate at least as long as all and strictly longer than every earlier one is the one chosen, so ties go to the earliest |
| SimpleReadability.MergeOptions | chrome-extension/readability.js:5-15 | the defaults (threshold 500, 5 candidates, 0 elements, debug off, three preserved classes), each overridden by a given option |
| SimpleReadability.StripAllClean | chrome-extension/readability.js:50-77 | after stripping, no element matches any of the listed selectors |
| SimpleReadability.StripAllKeeps | chrome-extension/readability.js:50-77 | stripping adds no element and keeps identities distinct |
| SimpleReadability.StripAllIdempotent | chrome-extension/readability.js:50-77 | stripping a second time removes nothing |
| SimpleReadability.StripAllNothing | chrome-extension/readability.js:50-77 | a tree with no unwanted element is left as it is |
| SimpleReadability.Readability.constructor | chrome-extension/readability.js:5-15 | the reader holds the given page and the merged options |
| SimpleReadability.Readability.Remove | chrome-extension/readability.js:74 | `el.remove()`: the page loses that element's subtree and nothing else |
| SimpleReadability.Readability.RemoveEach | chrome-extension/readability.js:73-75 | the `forEach` removal: the page loses every listed element's subtree |
| SimpleReadability.Readability.RemoveMatching | chrome-extension/readability.js:72-76 | the selector loop: the page becomes the stripped page, and identities stay distinct |
| SimpleReadability.Readability.RemoveUnwantedElements | chrome-extension/readability.js:50-77 | the page becomes the page stripped of the 19 unwanted selectors, and no unwanted element remains |
| SimpleReadability.HeaderIdIsUnwanted | chrome-extension/readability.js:151-154 | an element whose id is `header` is unwanted, because the id contains `ad` |
| SimpleReadability.ValidContentIff | chrome-extension/readability.js:136-155 | valid iff the trimmed text is longer than the threshold, no `script`/`style` is inside, no blocked word is a class, and no blocked word is a substring of the id |
| SimpleReadability.FirstMatch | chrome-extension/readability.js:117-124 | a found element is an element of the page |
| SimpleReadability.FirstMatchNone | chrome-extension/readability.js:106-125 | null iff no content-class selector matches anything |
| SimpleReadability.FirstMatchAt | chrome-extension/readability.js:117-124 | the first match of the first selector with any match, whether or not it is valid; later selectors are not consulted |
| SimpleReadability.ByContentClass | chrome-extension/readability.js:106-125 | `findByContentClass` returns an element of the page |
| SimpleReadability.HeuristicCandidates | chrome-extension/readability.js:129-131 | exactly the valid `div`/`section`/`article`/`main` elements |
| SimpleReadability.ByHeuristics | chrome-extension/readability.js:127-134 | null iff no block is valid; otherwise a valid block with the longest untrimmed text |
| SimpleReadability.ByHeuristicsEarliest | chrome-extension/readability.js:130-133 | among blocks of equal longest length, the earliest in document order wins (stable sort) |
| SimpleReadability.FirstValid | chrome-extension/readability.js:88-95 | the strategy loop returns an accepted candidate from the list |
| SimpleReadability.FirstValidIsFirst | chrome-extension/readability.js:88-95 | the strategy loop returns the first accepted candidate, and null iff none is accepted |
| SimpleReadability.FindMainContent | chrome-extension/readability.js:79-96 | a found element is in the page and passes `isValidContent` |
| SimpleReadability.FindMainContentOrder | chrome-extension/readability.js:79-96 | the strategies are tried strictly in order: article, main, content class, heuristics |
| SimpleReadability.FindMainContentNone | chrome-extension/readability.js:79-96 | nothing is found iff no block is valid and the content-class candidate is not valid |
| SimpleReadability.TitleFromContent | chrome-extension/readability.js:170-181 | '' iff no title selector's first match has a non-empty trimmed text |
| SimpleReadability.ExtractMetadata | chrome-extension/readability.js:157-168 | the title is `doc.title`, else exactly the title from the content (empty only when both are); the byline is `author`, else `article:author`; the site name is `og:site_name`, else `application-name` |
| SimpleReadability.NormalizeTextsNormalized | chrome-extension/readability.js:199-214 | after the text pass, every text node under the element is trimmed and single-spaced |
| SimpleReadability.NormalizeTextsInfos | chrome-extension/readability.js:212-214 | the text pass changes text only: the elements are the same |
| SimpleReadability.CleanedArticle | chrome-extension/readability.js:189-215 | cleaning keeps the article element itself |
| SimpleReadability.RemoveEmptyBlocks | chrome-extension/readability.js:191-196 | the removal loop removes exactly the `p`/`div`/`span` with empty trimmed text and no `img`/`br` inside |
| SimpleReadability.EmptyBlocksMarked | chrome-extension/readability.js:191-196 | the snapshot holds exactly the elements the structural rule drops |
| SimpleReadability.CleanSubtree | chrome-extension/readability.js:189-215 | the cleaned article is the specified one, and every text node in it is normalized |
| SimpleReadability.Readability.CleanContent | chrome-extension/readability.js:189-215 | the article, an element of the reader's page, is changed in place into its cleaned form; the rest of the page stays as it was |
| Dom.ReplaceKeyedPlaces | chrome-extension/readability.js:189-215 | an element of the page, once changed in place, is found in its new form in the page |
| Dom.ReplaceKeyedNothing | chrome-extension/readability.js:189-215 | changing an element the page does not hold leaves the page as it is |
| SimpleReadability.ParseNone | chrome-extension/readability.js:23-27 | `parse` returns null iff no strategy finds a valid element on the stripped page |
| SimpleReadability.ParseArticle | chrome-extension/readability.js:29-43 | `length` is the cleaned article's text length, `excerpt` comes from that text, and title, byline and site name come from the metadata |
| SimpleReadability.Readability.Parse | chrome-extension/readability.js:17-48 | the result is the specified article or null; the reader's page is left stripped and, when an article was found, with that article cleaned in place |
| SimpleReadability.ParsedPageHoldsArticle | chrome-extension/readability.js:29-35 | after `parse` the page keeps its title and URL, is only stripped when nothing was found, and otherwise holds the cleaned article whose inner content the record returns |
| TextMetrics.ReplaceBlankLinesNoNewline | chrome-extension/content.js:255 | the blank-line replace leaves a newline-free text unchanged |
| TextMetrics.CleanTextIsNormalizeSpace | chrome-extension/content.js:252-257 | the blank-line replace never fires after whitespace collapsing, so `cleanText` is collapse-then-trim |
| TextMetrics.CleanTextShape | chrome-extension/content.js:252-257 | the cleaned text has no whitespace at the ends, single spaces only, and no newline |
| TextMetrics.CleanTextIdempotent | chrome-extension/content.js:252-257 | cleaning twice is cleaning once |
| TextMetrics.SplitWsWords | chrome-extension/content.js:279-281 | `split(/\s+/)` with empty pieces filtered out gives exactly the whitespace-delimited words |
| TextMetrics.CountWordsIsWords | chrome-extension/content.js:279-281 | `countWords` is the number of non-empty whitespace-delimited words |
| TextMetrics.CleanTextKeepsWords | chrome-extension/content.js:252-257 | cleaning keeps the words, so the word count is the same before and after |
| TextMetrics.WordsTrim | chrome-extension/content.js:256 | trimming keeps the words |
| TextMetrics.WordsCollapse | chrome-extension/content.js:254 | collapsing whitespace keeps the words |
| TextMetrics.MinutesFor | chrome-extension/content.js:283-287 | `Math.ceil(words / 200)`: the least `r` with `words <= 200*r` |
| ContentScript.FirstNonEmptyDefault | chrome-extension/content.js:83-88 | an `a \|\| b \|\| 'd'` chain gives the default when every operand is null or empty |
| ContentScript.FirstNonEmptyAt | chrome-extension/content.js:83-88 | an `a \|\| b \|\| 'd'` chain gives the first operand that is neither null nor empty |
| ContentScript.OrChain | chrome-extension/content.js:83-87 | the source's `\|\|` expressions are that chain |
| ContentScript.CanonicalUrl | chrome-extension/content.js:94-97 | the page URL when there is no canonical link; otherwise the `href` of the first canonical link ('' when it has none) |
| ContentScript.CanonicalUrlAt | chrome-extension/content.js:94-97 | the link read is the first canonical link in document order |
| ContentScript.ExtractMetadata | chrome-extension/content.js:74-92 | fails iff there is no root element; otherwise each field is the first non-empty value of its meta chain, else '' (the language defaults to 'en') |
| ContentScript.ReadabilityContentNone | chrome-extension/content.js:99-128 | Method 1 yields nothing iff the stripped copy has no valid block over 500 characters and no valid content-class match |
| ContentScript.ReadabilityContentFields | chrome-extension/content.js:112-122 | Method 1's record carries its own length and an excerpt of its own text |
| ContentScript.ExtractWithReadability | chrome-extension/content.js:99-128 | running a new reader over a copy of the page yields the specified record, and the live page is a value the method cannot change |
| ContentScript.ValidContentElementIff | chrome-extension/content.js:177-187 | valid iff the trimmed text is longer than 100, no `script`/`style` is inside, and none of the 5 excluded classes is present; the id is not checked |
| ContentScript.NavClassExcluded | chrome-extension/content.js:179-185 | an element with class `nav` is never valid |
| ContentScript.FirstValidMatch | chrome-extension/content.js:145-153 | a result is a valid element of the page |
| ContentScript.FirstValidMatchNone | chrome-extension/content.js:145-153 | null iff no selector's first match is valid |
| ContentScript.FirstValidMatchIsFirst | chrome-extension/content.js:145-153 | a result is the first match of one of the selectors |
| ContentScript.ValidTextBlocks | chrome-extension/content.js:157-160 | exactly the valid `p`/`div`/`section`/`article` elements |
| ContentScript.HeuristicMain | chrome-extension/content.js:130-175 | a result is a valid element of the page |
| ContentScript.HeuristicMainCases | chrome-extension/content.js:130-175 | null iff no selector gives a valid match and no text block is valid; a valid selector match wins; otherwise it is `Longest` of the valid blocks, a longest one |
| ContentScript.HeuristicContent | chrome-extension/content.js:165-172 | Method 2's record has no byline, length or site name |
| ContentScript.TitleLoop | chrome-extension/content.js:189-207 | the loop returns the first non-empty trimmed title, else the fallback; a returned title is non-empty with no whitespace at either end |
| ContentScript.ExtractTitle | chrome-extension/content.js:189-207 | the title is the first non-empty trimmed selector text, else `document.title` |
| ContentScript.ExtractWithHeuristics | chrome-extension/content.js:130-175 | the selector loop with its early exit, then the longest block, yields the specified record |
| ContentScript.ExtractAllText | chrome-extension/content.js:215-224 | fails iff there is no body; otherwise the record holds the body text and an excerpt whose length is min(text length, 200) + 3 |
| ContentScript.ImagesOf | chrome-extension/content.js:261-267 | exactly the images with a non-empty `src` that does not start with `data:` |
| ContentScript.ExtractImages | chrome-extension/content.js:259-268 | the kept images of every `img` in the page; the `html` argument is ignored |
| ContentScript.ExtractImagesConcat | chrome-extension/content.js:259-268 | the images of two forests in a row are the images of each, in order |
| ContentScript.LinksOf | chrome-extension/content.js:272-276 | exactly the links with a non-empty `href` and non-empty trimmed text |
| ContentScript.ExtractLinks | chrome-extension/content.js:270-277 | the kept links of every `a[href]` in the page |
| ContentScript.ExtractLinksConcat | chrome-extension/content.js:270-277 | the links of two forests in a row are the links of each, in order |
| ContentScript.Processed | chrome-extension/content.js:232-249 | the text is cleaned and keeps its words; the word count is the number of words; the reading time is ceil(words/200) |
| ContentScript.ProcessedKeys | chrome-extension/content.js:240-249 | every content key overrides the same metadata key, and the metadata keys the content lacks are kept |
| ContentScript.ProcessContent | chrome-extension/content.js:226-230 | throws 'No content extracted' iff the content is null |
| ContentScript.ExtractionFails | chrome-extension/content.js:24-62 | fails iff there is no root element, or Methods 1 and 2 give nothing usable and there is no body; the message carries the prefix |
| ContentScript.ExtractionUsesReadability | chrome-extension/content.js:36-38 | when Readability is loaded and Method 1 yields text, the result is `processContent` of Method 1's object; it carries Method 1's title, content, length, byline and its site name, null or not |
| ContentScript.ExtractionUsesHeuristics | chrome-extension/content.js:41-43 | when Method 1 is absent or empty and Method 2 yields text, the result is `processContent` of Method 2's object: its title and content, no length, the metadata's site name |
| ContentScript.ExtractionUsesBody | chrome-extension/content.js:46-48 | when Methods 1 and 2 are both absent or empty, the result is `processContent` of Method 3's object: the document title, the body's content, no length, the metadata's site name |
| ContentScript.ExtractionText | chrome-extension/content.js:51 | the result's text is cleaned from the chosen content, and its counts are computed from that text |
| ContentScript.EmptyBodyIsNotAnError | chrome-extension/content.js:215-224 | an empty body gives a record with empty text and zero counts, not an error |
| ContentScript.LogEntry | chrome-extension/content.js:290-298 | `extractionMethod` is always 'heuristic'; `hasImages` and `hasLinks` tell whether the lists are non-empty |
| ContentScript.AppendExtractionLog | chrome-extension/content.js:301-308 | after the push and splice the log holds the newest min(n + 1, 50) entries, ending with the new one |
| ContentScript.ExtractContent | chrome-extension/content.js:24-62 | the step-by-step chain yields the specified result; a success appends its log entry, stamped with a second clock reading, and a failure leaves the log as it was |
| Logging.Sanitize | chrome-extension/logger.js:59-77 | a non-object comes back unchanged; an object or array becomes an object with one entry per entry |
| Logging.SanitizeData | chrome-extension/logger.js:59-77 | the loop, with its recursion into nested objects, computes the specified value |
| Logging.SanitizeKeys | chrome-extension/logger.js:64-74 | the sanitized object has exactly the input's keys, in order |
| Logging.SanitizeValues | chrome-extension/logger.js:66-73 | a sensitive key's value becomes '[REDACTED]'; any other value is sanitized recursively, and a value that is not an object stays as it is |
| Logging.SanitizeRedacts | chrome-extension/logger.js:59-77 | after sanitizing, no sensitive key at any depth holds anything but '[REDACTED]' |
| Logging.SanitizeIdempotent | chrome-extension/logger.js:59-77 | sanitizing twice is sanitizing once |
| Logging.ApiKeyNeverMatches | chrome-extension/logger.js:81-87 | the listed word 'apiKey' never matches a lower-cased key |
| Logging.KeyCoversApiKey | chrome-extension/logger.js:81-87 | any key containing 'apikey' in any case is still sensitive, through the word 'key' |
| Logging.CurrentUrl | chrome-extension/logger.js:90-96 | the page address, or 'unknown' when there is none |
| Logging.NewEntry | chrome-extension/logger.js:17-25 | the entry holds the upper-cased level, the message, the sanitized data and the current URL |
| Logging.BufferAfterPush | chrome-extension/logger.js:27-32 | after a push and trim, the buffer holds at most 1000 entries, ends with the new one, and keeps the newest old entries in order |
| Logging.Logger.constructor | chrome-extension/logger.js:3-7 | a new logger starts with an empty buffer |
| Logging.Logger.Log | chrome-extension/logger.js:16-41 | returns the new entry, which is last in a buffer of at most 1000, after the surviving older entries |
| Logging.Logger.Info | chrome-extension/logger.js:43-45 | logs with level 'INFO' |
| Logging.Logger.Warn | chrome-extension/logger.js:47-49 | logs with level 'WARN' |
| Logging.Logger.Error | chrome-extension/logger.js:51-53 | logs with level 'ERROR' |
| Logging.Logger.Debug | chrome-extension/logger.js:55-57 | logs with level 'DEBUG' |
| Logging.Logger.GetLogs | chrome-extension/logger.js:125-153 | the reassigned copy ends up as the specified filtered buffer |
| Logging.FilteredLogsMembers | chrome-extension/logger.js:128-150 | an entry is returned iff it is in the buffer, has the upper-cased filter level (when one is given) and contains the filter text, ignoring case (when one is given) |
| Logging.FilteredLogsIsFilter | chrome-extension/logger.js:125-153 | the two filters make one order-preserving filter of the buffer |
| Logging.NoFilterKeepsAll | chrome-extension/logger.js:125-153 | with neither filter set, the whole buffer is returned |
| Logging.Logger.ClearLogs | chrome-extension/logger.js:193-196 | the buffer is empty afterwards |
| Logging.Logger.GetStats | chrome-extension/logger.js:198-221 | `total` is the buffer length, `byLevel` is the per-level count, and `errors`/`warnings` count ERROR/WARN entries |
| Logging.LevelCountsCount | chrome-extension/logger.js:207-209 | a level is in `byLevel` iff some entry has it, with the number of such entries as its count |
| Logging.LevelCountsSum | chrome-extension/logger.js:198-221 | the `byLevel` counts add up to `total` |
| Logging.StatsAgree | chrome-extension/logger.js:209-213 | `errors` and `warnings` equal the ERROR and WARN counts of `byLevel` |
| Logging.ExportToCSV | chrome-extension/logger.js:168-185 | the row-pushing loop builds the specified CSV text |
| Logging.CsvEmpty | chrome-extension/logger.js:169 | no entries give '' |
| Logging.CsvLines | chrome-extension/logger.js:171-184 | when no field holds a newline, `n` entries give `n+1` lines: the header, then one row per entry, in order |
| Logging.UndoubleDouble | chrome-extension/logger.js:178 | doubling the quotes is undone by reading `""` as `"` |
| Logging.CsvMessageRoundTrip | chrome-extension/logger.js:178 | the quoted message field reads back as the message |
| Logging.TextExportLines | chrome-extension/logger.js:187-191 | when no field holds a newline, the text export has exactly one line per entry, in order |
| Popup.SanitizeFilename | chrome-extension/popup.js:283-285 | same length; every character is in `[a-z0-9_]`; ASCII letters and digits are kept at their place, lower-cased, and every other character becomes '_' |
| Popup.SanitizeFilenameIdempotent | chrome-extension/popup.js:283-285 | sanitizing a sanitized name changes nothing |
| Popup.SanitizeFilenameFixed | chrome-extension/popup.js:283-285 | a name is its own sanitized form iff it is made of `[a-z0-9_]` only |
| Popup.PreviewSource | chrome-extension/popup.js:162 | `textContent` if non-empty, else `content` if non-empty, else '' |
| Popup.PreviewText | chrome-extension/popup.js:161-166 | at most 500 characters are kept; a longer text becomes its first 500 characters followed by '...' |
| Popup.NewlinesToBreaks | chrome-extension/popup.js:180 | no newline remains, and a newline-free text is unchanged |
| Popup.NewlinesToBreaksIsSplitJoin | chrome-extension/popup.js:180 | replacing newlines by '<br>' is splitting on newlines and joining with '<br>' |
| Popup.ShownWordCount | chrome-extension/popup.js:176 | a missing word count shows as '0' |
| Popup.ShownDefaults | chrome-extension/popup.js:170-176 | a missing or empty title shows 'Untitled', a missing or empty URL shows 'Unknown', and a missing word count shows '0' |

## Left out

- `waitForPageLoad`: an event-based wait. The model starts from a loaded page and has no timeout, because the code has none.
- The message listener, `chrome.runtime`/`chrome.tabs` messaging and the rest of the popup: browser plumbing and user interface.
- All `chrome.storage` persistence: `setupStorage`, `saveToStorage` and the storage callback of `logExtraction`. The stored extraction log is a parameter, and the buffer a new `Logger` would load is not modelled.
- `outputToConsole` and every `console` call: console output.
- Clocks, randomness and the browser environment become parameters:
  - `generateId`;
  - the ISO timestamps;
  - `window.location`;
  - `navigator.userAgent`;
  - whether `window.Readability` is loaded.
- The date filters of `getLogs` and `byHour` in `getStats`: they need date parsing and the local clock.
- The JSON export of `exportLogs` and the `format` dispatch: the JSON export is `JSON.stringify`, a library call.
- URL resolution of `img.src`, `a.href` and the canonical link's `href`, and image width and height. These are taken as the attribute values; width and height are not kept.
- ContentScript.CanonicalUrl: returns the raw `href` attribute, not the URL the browser resolves against the page address (`href="/a"` on `https://h/x` gives `https://h/a` in the browser). It also matches `rel` exactly, where HTML compares `rel` ignoring ASCII case, so `rel="Canonical"` is not found here.
- Dom.Body: `document.body` is the first `body` or `frameset` child of an `html` root. The model takes the first `body` child of the first root element, whatever its tag, and does not consider `frameset`.
- `Document.title` is a field of its own. In the browser, `document.title` is read from the page's `<title>` element, so after `removeUnwantedElements` strips a `<title>` that matches an unwanted selector (say `<title class="ad">`), Readability's title becomes ''. The model keeps the title that was read before stripping.
- The Readability options `maxElemsToParse`, `nbTopCandidates`, `classesToPreserve` and `debug`: they are merged but never used.
- Serializing `innerHTML`: content is kept as the element's children.
- Comment and other non-element, non-text nodes: they are not part of the tree.
- The tree walker of `cleanContent`: the text pass is a structural rewrite of every text node under the element. It visits the same nodes.
- Unicode case mapping: `toLowerCase` and `toUpperCase` act on ASCII letters only. Whitespace is the full set JavaScript's `\s` matches.
- A character outside the Basic Multilingual Plane counts as two UTF-16 units in the source (and becomes two '_' in `sanitizeFilename`), but as one character here.
- JavaScript's ordering of integer-like object keys in `Object.entries`: entries keep their insertion order.
- Logged values of type `undefined`, function or symbol: the data model covers null, booleans, numbers, strings, arrays and plain objects.
- Numbers in logged data are integers, because they are never inspected.
- `Popup.FormatPreviewContent` has no contract of its own. It assembles the template around `ShownTitle`, `ShownUrl`, `ShownWordCount` and `NewlinesToBreaks(PreviewText(…))`, whose contracts carry the properties.
