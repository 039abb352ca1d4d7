# MathSciNet arXiv links — a verified model of the content script

The content script of the MathSciNet arXiv Links browser extension runs on
MathSciNet search-result lists and article pages. It looks for an arXiv
preprint of each record and puts a link to it next to the record. For each
record it:

- reads the record's title and MR number from the page;
- asks OpenAlex for works with that title and collects their arXiv URLs in a
  canonical form;
- fetches each candidate's arXiv abs page in order;
- links the first candidate whose title is similar to the record's title.

A small state machine makes sure only one pass runs at a time. A
MutationObserver callback and a one-second URL poll decide when a new pass
starts. On search pages they use a signature of the listed MR links, which
notices pagination.

The model is a Dafny project over `content.js`, one module per concern:

| module | file | models |
|---|---|---|
| `JsStrings` | `js_strings.dfy` | The JavaScript string operations the script uses: `includes`, first-occurrence `replace`, `trim`, `split`/`join`, truthiness of a possibly missing string. |
| `Titles` | `titles.dfy` | `areTitlesSimilar` and its `norm`; the trailing-dot strip; the abs page title. |
| `Authors` | `authors.dfy` | `cleanAuthorName`, the surnames and the author part of the mrlookup query, the `MR` strip. |
| `Metadata` | `metadata.dfy` | The string post-processing of `getSearchItemMetadata` and `getArticleMetadata`, the MR number patterns, and the bounded article-page poll (a `while` loop). |
| `OpenAlex` | `openalex.dfy` | `searchOpenAlex` on already parsed works: candidate extraction and URL canonical form (a `for` loop that pushes candidates). |
| `Verify` | `verify.dfy` | `verifyAndInject`, as a step-by-step method over a `LinkScope` object and as a decision function with a rejection reason. |
| `Passes` | `passes.dfy` | The body of `insertArXivLinks`: the page kind, the per-record candidate loop with `break`, the per-result tasks and the article branch. |
| `Scheduling` | `scheduling.dfy` | The `activeInjection`/`pendingInjection` flags, as a class and as a trace semantics. |
| `Observer` | `observer.dfy` | `getSearchPageSignature`, the MutationObserver callback and the URL poll. |

The world outside the script is passed in as values:

- what the OpenAlex, arXiv and mrlookup requests return (`Reply`, `Fetch`, `Remote`);
- what the element look-ups of the page find: the link texts of a result header (`Header`), the article page's elements after each one-second wait (`snap: nat -> ArticleSnapshot`), and the `.arxiv-link` elements in scope (`LinkScope`).

The metadata readers are applied to these look-ups inside the passes. A
candidate is accepted on the containment test of `areTitlesSimilar` alone.
Some behaviour of the code that the model keeps as it is:

- **The mrlookup answer is never used.** After the title test passes, the
  fallback at `content.js:238-240` sets `verified` whatever mrlookup
  returned. The mrlookup request still matters in one way: when its
  transport fails, `callBackground` rejects, the exception is caught, and
  the candidate is rejected (`Verify.LookupTextIrrelevant`,
  `Verify.AcceptedIff`).
- **An OpenAlex transport failure throws out of the record's task.** The
  `await callBackground(...)` in `searchOpenAlex` sits before its `try`
  (`Passes.OpenAlexFailureThrows`).
- **A search result can throw while its MR number is read.** When the MR
  link's text contains "MR" but no "MR" is followed by a digit, the
  `match(...)[0]` of `content.js:48` throws, and the task of that result is
  aborted (`Metadata.SearchItemMrThrowsIff`, `Passes.MrReadThrowAborts`).
- **A title made of punctuation matches every non-empty title.** Its normal form is
  empty, and every string includes "" (`Titles.PunctuationOnlyTitleMatchesAll`).
- **A navigation to a results page calls `main` twice.** The callback that
  notices the new URL clears the signature, so the next callback sees the
  same links as a change (`Observer.NavigationToResultsRunsTwice`).

`toLowerCase` is modelled exactly wherever the lower-case form of a
character holds a character of `[a-z0-9]`. That covers ASCII capitals, the
KELVIN SIGN and LATIN CAPITAL LETTER I WITH DOT ABOVE. Every other
character is kept as it is; its true lower-case form is deleted by the
`[^a-z0-9]` filter either way.

## Model

| member | source | states |
|---|---|---|
| `JsStrings.ContainsIff` | content.js:12 | `includes` holds exactly when the needle occurs at some index. |
| `JsStrings.ReplaceFirstAt` | content.js:141 | A string `replace` splices the replacement in at the leftmost occurrence and keeps the rest. |
| `JsStrings.ReplaceFirstAbsent` | content.js:141 | A string `replace` without an occurrence leaves the string unchanged. |
| `JsStrings.TrimStart` | content.js:52 | The leading half of `trim`: the result is a suffix of the input, every character removed is JS white space, and the result does not start with one. |
| `JsStrings.TrimEnd` | content.js:52 | The trailing half of `trim`: the result is a prefix of the input, every character removed is JS white space, and the result does not end with one. |
| `JsStrings.SplitJoin` | content.js:299 | Splitting a join on its one-character separator gives back the parts, when no part holds the separator. |
| `Titles.AreTitlesSimilar` | content.js:7-13 | `areTitlesSimilar`: both titles present and one normal form includes the other. Characterised by `SimilarNeedsBothTitles`, `SimilarSymmetric`, `SimilarReflexive`, `SimilarDependsOnNormOnly` and `PunctuationOnlyTitleMatchesAll`. |
| `Titles.Norm` | content.js:9 | `norm`. Characterised by `NormIsFilteredLowerCase`, `NormIsAlnum`, `NormIdempotent` and the `NormIgnores…` lemmas. |
| `Titles.AbsTitle` | content.js:221-222 | The abs page title: "NOT_FOUND" without a title element, else its text less a leading "Title:", trimmed. Characterised by `Verify.AbsTitleOfPlain` and `Verify.MissingTitleRejected`. |
| `Titles.CollapseDashesRedundant` | content.js:9 | The `--` rewrite never changes what the `[^a-z0-9]` deletion keeps. |
| `Titles.NormIsFilteredLowerCase` | content.js:9 | The normal form is the lower case with every character outside `[a-z0-9]` deleted; the `--` rewrite and the trim have no effect. |
| `Titles.NormIsAlnum` | content.js:9 | The normal form holds only lower-case ASCII letters and digits. |
| `Titles.NormIdempotent` | content.js:9 | Normalizing twice is normalizing once. |
| `Titles.LowerIdempotent` | content.js:9 | Lower-casing twice is lower-casing once. |
| `Titles.NormIgnoresCase` | content.js:9 | A title and its lower case have the same normal form. |
| `Titles.NormRespectsLowerChar` | content.js:9 | Two characters with the same lower case can be swapped anywhere without changing the normal form. |
| `Titles.NormIgnoresAsciiCase` | content.js:9 | Upper-casing an ASCII letter anywhere does not change the normal form. |
| `Titles.NormIgnoresPunctuation` | content.js:9 | Inserting a character whose lower case keeps nothing in `[a-z0-9]` does not change the normal form. |
| `Titles.SimilarNeedsBothTitles` | content.js:8 | An empty title is similar to nothing. |
| `Titles.SimilarSymmetric` | content.js:12 | Similarity is symmetric. |
| `Titles.SimilarReflexive` | content.js:7-13 | Every non-empty title is similar to itself. |
| `Titles.SimilarDependsOnNormOnly` | content.js:9-12 | Two present titles with the same normal form are similar to the same titles. |
| `Titles.PunctuationOnlyTitleMatchesAll` | content.js:9-12 | A non-empty title whose normal form is empty is similar to every non-empty title. |
| `Titles.StripTrailingDot` | content.js:69 | The result is the title or the title less one final `.`; a title ending in `.` is the result followed by `.`. |
| `Authors.CleanAuthorName` | content.js:32-40 | "" stays ""; the result never holds a comma. |
| `Authors.StripParenthesized` | content.js:34 | `replace(/\(.*\)/g, '')`. Characterised by `ParenSpanRemoved` and `StripWithoutOpen`. |
| `Authors.ParenSpanRemoved` | content.js:34 | On one line, everything from the first `(` to the last `)` is deleted, and nothing else. |
| `Authors.StripWithoutOpen` | content.js:34 | A name without `(` loses nothing to the deletion. |
| `Authors.CleanOfPlainName` | content.js:35-37 | A plain name with a comma has at least two parts, and becomes the trimmed second part, a space, and the trimmed first part. |
| `Authors.CleanLastFirst` | content.js:35-38 | "Last, First" becomes "First Last"; further comma-separated parts are dropped. |
| `Authors.Surname` | content.js:225 | `trim().split(' ').pop()`. Characterised by `SurnameShape`. |
| `Authors.SplitLastPreceded` | content.js:225 | When `split` gives two or more pieces, the last piece is a proper suffix preceded by the separator. |
| `Authors.SurnameShape` | content.js:225 | The surname holds no space and ends the trimmed name; it is all of the trimmed name or preceded by a space in it; a name without a space is its own surname. |
| `Authors.LookupAuthors` | content.js:233 | `lastNames.slice(0, 3).join(' and ')`. Characterised by `AndList`, `JoinWithAnd` and `LookupAuthorsTokens`. |
| `Authors.AndList` | content.js:233 | The tokens of a conjunction are "and" or one of the names, and there is one when there is a name. |
| `Authors.JoinWithAnd` | content.js:233 | Joining with " and " is joining the tokens `a and b and c` with spaces. |
| `Authors.LookupAuthorsTokens` | content.js:233 | Read back on spaces, the author query lists the first three surnames at most, in order, separated by "and". |
| `Authors.StripMrPrefix` | content.js:235 | `replace("MR", "")` on the local MR number. Characterised by `StripMrPrefixOfNumber`. |
| `Authors.StripMrPrefixOfNumber` | content.js:235 | "MR" followed by digits loses exactly its prefix. |
| `Metadata.MatchMr` | content.js:84 | A `/MR\d+/` match is "MR" followed by one or more digits. |
| `Metadata.MatchMrIsLeftmost` | content.js:84 | The match starts at the leftmost index where the pattern can start, and takes the whole digit run. |
| `Metadata.MatchMrNone` | content.js:84-86 | There is no match exactly when the pattern can start nowhere. |
| `Metadata.SearchItemMr` | content.js:48 | A search result's MR number, when one is computed, starts with "MR"; its value is given by `SearchItemMrIsLeftmostMatch` and `SearchItemMrWithoutMr`. |
| `Metadata.SearchItemMrIsLeftmostMatch` | content.js:48 | When the text holds "MR" followed by a digit, the MR number is the leftmost such match with its whole digit run. |
| `Metadata.SearchItemMrWithoutMr` | content.js:48 | A text without "MR" gives "MR" before the trimmed text. |
| `Metadata.SearchItemMrThrowsIff` | content.js:48 | Reading the MR number throws exactly when "MR" occurs in the link text but no "MR" is followed by a digit. |
| `Metadata.ArticleMr` | content.js:83-87 | An article page's MR number is "" or "MR" followed by digits; its value is given by `ArticleMrValue`. |
| `Metadata.ArticleMrValue` | content.js:83-87 | No MR element gives "". Otherwise the number is the `/MR\d+/` match when there is one, "MR" before a text of exactly seven digits, and "" for any other text. |
| `Metadata.SearchItemMetadata` | content.js:43-70 | There is no record exactly when the header has no MR link. The read throws exactly when the MR number of the first link's text throws. A record's MR number is that number, and starts with "MR". Its title is the second link's trimmed text ("" without one), less one final `.` whenever it ends in one. Author k is `CleanAuthorName` of author link k, and no author holds a comma. |
| `Metadata.ArticleMetadata` | content.js:73-114 | The MR number is "" or of the canonical shape. It is "" without an MR element, the `/MR\d+/` match of the element's text when there is one, and "MR" before a text of exactly seven digits. The injection point is the one found. The title is the title element's trimmed text ("" without one), less one final `.` whenever it ends in one. |
| `Metadata.MapStrings` | content.js:66 | `authorLinks.map(…)`: the result has one string per input, the function applied to it. |
| `Metadata.SettledRead` | content.js:187-192 | The read the poll settles on is the first ready one, or the last allowed one when none is ready. |
| `Metadata.PollArticleMetadata` | content.js:186-192 | The loop returns the read after `waits` waits. That read is ready, or the 15 retries are used up. Every earlier read was not ready, and `waits` is the read `SettledRead` names. |
| `Metadata.PollSettlesAtFirstReadyRead` | content.js:188 | A stop that is ready, or at the bound, after reads that were not ready, is the read `SettledRead` names. |
| `OpenAlex.TextOf` | content.js:136 | The text read from a possibly missing string is non-empty exactly when the string is truthy. |
| `OpenAlex.LocationUrl` | content.js:136 | The URL is the text of one of the two fields, the landing page when that is truthy. It is non-empty exactly when one of the two fields is truthy. |
| `OpenAlex.FindArxivLocation` | content.js:132-135 | `find` returns the first arXiv location, or none when no location is one. |
| `OpenAlex.ArxivUrlOf` | content.js:128-137 | A work's arXiv URL. Characterised by `IdsArxivWins` and `FirstArxivLocationWins`. |
| `OpenAlex.IdsArxivWins` | content.js:129-130 | A truthy `ids.arxiv` is the work's URL, whatever its locations say. |
| `OpenAlex.FirstArxivLocationWins` | content.js:131-136 | Without `ids.arxiv`, the URL comes from the first arXiv location, whatever follows it. |
| `OpenAlex.Candidates` | content.js:127-144 | There are never more candidates than works. |
| `OpenAlex.SearchOpenAlex` | content.js:116-150 | An empty title gives no candidates. A transport failure throws. An empty or unusable body gives no candidates. The parsed works give the candidate list, built by the loop that pushes one canonical URL per work with a URL. |
| `OpenAlex.KeptIndices` | content.js:139 | The works that give a candidate, as increasing indices of works with a URL. |
| `OpenAlex.KeptIndicesComplete` | content.js:139-142 | Every work with a URL gives a candidate. |
| `OpenAlex.CandidatesAreKeptWorks` | content.js:127-144 | Candidate k is the canonical URL of the k-th work that has a URL: order is kept and works without a URL are dropped. |
| `OpenAlex.CandidateIff` | content.js:127-144 | A URL is a candidate exactly when some work with a URL yields it. |
| `OpenAlex.NoUrlNoCandidates` | content.js:139 | Works without any arXiv URL give no candidate. |
| `OpenAlex.CandidatesAppend` | content.js:127-144 | The candidates of two lists of works in a row are the candidates of the first, then of the second. |
| `OpenAlex.CanonicalUrl` | content.js:140-141 | The canonical form of a candidate URL. Characterised by `PastHttps`, `CanonicalSchemes` and `ArxivFormsAgree`. |
| `OpenAlex.PastHttps` | content.js:140-141 | An https URL keeps its scheme, and both replacements act after it. |
| `OpenAlex.CanonicalSchemes` | content.js:140-141 | An http URL and the same https URL have the same canonical form. |
| `OpenAlex.ArxivFormsAgree` | content.js:140-141 | For an identifier without "p", the http and https abs URLs and the PDF URL all become the https abs page URL. |
| `Verify.LastNames` | content.js:225 | One surname per author link, in order. Each surname holds no space and is the whole trimmed name or ends it after a space. |
| `Verify.Decide` | content.js:213-241 | An accepted candidate has a URL and an injection point, nothing already linked, a non-empty abs page, and a title similar to the local one. |
| `Verify.VerifyAndInject` | content.js:213-275 | The step-by-step code, cross-check and fallback included, returns true exactly when `Decide` accepts. A link to the URL is added exactly then, and the scope is left alone otherwise. |
| `Verify.AcceptedIff` | content.js:214-240 | Acceptance happens exactly when: the guards pass, the abs page is non-empty, its title is not "NOT_FOUND" and is similar to the local one, and the mrlookup request does not fail. |
| `Verify.LookupTextIrrelevant` | content.js:234-240 | Worlds that differ only in what successful mrlookup requests return decide alike. |
| `Verify.MissingTitleRejected` | content.js:221-227 | An abs page without a title element, or whose title reads "NOT_FOUND", is rejected. |
| `Verify.AbsTitleOfPlain` | content.js:222 | A title text that does not start with "Title:" and has no white space at either end is taken as it is. |
| `Verify.SameTitleAccepted` | content.js:229-240 | A candidate is accepted when its non-empty abs title normalizes like the local title, the guards pass and both requests succeed. |
| `Passes.RunPass` | content.js:165-201 | A search URL runs every result's task as `TaskDone` says on its header's `SearchItemMetadata` and leaves the article-page scope alone. Any other URL holding "/article?mr=" runs the article branch as `ArticleOutcome` says and leaves the result scopes alone. Any other page changes nothing. |
| `Passes.FirstAccepted` | content.js:177-180 | The chosen index, if any, lies between the start and the end of the list. |
| `Passes.FirstAcceptedIsFirst` | content.js:177-180 | The chosen candidate is accepted and none before it is; when none is chosen, none is accepted. |
| `Passes.TryCandidates` | content.js:177-180 | The loop with `break` links the first accepted candidate and nothing else, or links nothing when none is accepted. |
| `Passes.ItemOutcome` | content.js:171-182 | The outcome of one result's task: `ReadOutcome` on the metadata `SearchItemMetadata` reads from its header. `LinkSearchItem` is proved against it, and `LinkedRecordSkipped` and `MrReadThrowAborts` characterise it. |
| `Passes.ReadOutcome` | content.js:172-181 | The outcome of one result's task once its metadata is read: skipped when linked, not eligible without a record, a title or an MR number, aborted when the read or the search throws, otherwise the first accepted candidate or no match. `LinkedIsFirstVerifiedCandidate` and `OpenAlexFailureThrows` characterise it. |
| `Passes.LinkSearchItem` | content.js:171-182 | A search result's task ends with the outcome `ItemOutcome` names, and its scope gains exactly the linked URL. The ghost `read` it returns is the header's `SearchItemMetadata`, and `TaskDone` holds on it. |
| `Passes.LinkSearchPage` | content.js:171-184 | Every result's task reads `SearchItemMetadata` from its own header, has its own outcome and ends with its own scope as `TaskDone` says on that read (the outcome is `ReadOutcome`, and the scope gains exactly a linked URL); no task disturbs another. |
| `Passes.ArticleOutcome` | content.js:186-200 | The outcome of the article branch, on what `ArticleMetadata` reads from each snapshot of the page. `LinkArticle` is proved against it, and `UnreadyArticleNotSearched` characterises it. |
| `Passes.LinkArticle` | content.js:186-200 | The article branch polls, skips an already linked page, searches and tries the candidates, ending as `ArticleOutcome` says. |
| `Passes.LinkedIsFirstVerifiedCandidate` | content.js:171-182 | Whatever metadata was read, a linked search result gets a candidate from its OpenAlex works that `Decide` accepts, and every candidate before it is rejected. |
| `Passes.LinkedRecordSkipped` | content.js:172 | A record that already carries a link is skipped. |
| `Passes.OpenAlexFailureThrows` | content.js:120 | A failing OpenAlex request aborts the task of a record with a title and an MR number. |
| `Passes.MrReadThrowAborts` | content.js:48 | A header whose first MR link text holds "MR" but no "MR" followed by a digit aborts its task. |
| `Passes.EarlierCandidateWins` | content.js:177-180 | When two candidates would both be accepted, the earlier one or one before it is linked. |
| `Passes.UnreadyArticleNotSearched` | content.js:186-194 | An article page whose title and MR number never both render within the poll is never searched. |
| `Scheduling.Enter` | content.js:155-160 | The guard of `insertArXivLinks`: a call while a pass runs records a request, one on idle flags starts a pass. Characterised by `CallsWhileActive` and `CallWhenIdleStarts`. |
| `Scheduling.Leave` | content.js:204-210 | The `finally` block: the flags are cleared, and a recorded request starts exactly one follow-up pass. Characterised by `ExactlyOneFollowUp` and `QuietPassEndsIdle`. |
| `Scheduling.Run` | content.js:152-210 | The flags and the number of started passes after a trace of calls and pass ends. Characterised by `RunAppend`, `RunConsistent` and `StartsAtMostCalls`. |
| `Scheduling.CallsWhileActive` | content.js:155-158 | Calls during a pass start nothing and leave one request recorded, however many there are. |
| `Scheduling.ExactlyOneFollowUp` | content.js:204-210 | Any positive number of calls during a pass gives exactly one follow-up pass, and it starts with no request recorded. |
| `Scheduling.QuietPassEndsIdle` | content.js:204-210 | A pass with no request recorded leaves both flags false. |
| `Scheduling.CallWhenIdleStarts` | content.js:159-160 | A call on a free guard starts exactly one pass. |
| `Scheduling.RunAppend` | content.js:152-210 | Running a trace in two parts gives the same flags and the same number of started passes. |
| `Scheduling.RunConsistent` | content.js:152-210 | A request is only ever pending while a pass runs. |
| `Scheduling.StartsAtMostCalls` | content.js:152-210 | No pass starts without a call: started passes, plus a pending request, never outnumber the calls. |
| `Scheduling.Scheduler.constructor` | content.js:152-153 | Both flags start false. |
| `Scheduling.Scheduler.Call` | content.js:155-160 | The guard at the top of `insertArXivLinks` moves the flags as `Enter` says, and starts a pass exactly when none is active. |
| `Scheduling.Scheduler.PassEnds` | content.js:204-210 | The `finally` block moves the flags as `Leave` says, and re-runs the pass exactly when a request was pending. |
| `Observer.NonAmpRun` | content.js:294 | `[^&]+` takes the longest prefix without `&`. |
| `Observer.MrParam` | content.js:294 | A captured `mr=` value is non-empty and holds no `&`. |
| `Observer.LooseMr` | content.js:297 | A `/MR?\d+/i` match opens with `M` or `m` and ends with a digit. |
| `Observer.LinkId` | content.js:293-298 | The id of one MR link: the `mr=` value of its href, else the MR number in its trimmed text, else that text. Characterised by `LinkIdOfArticleHref` and `LooseMrOfNumber`. |
| `Observer.Signature` | content.js:289-300 | `getSearchPageSignature`. Characterised by `SignatureEmptyIff`, `SignatureDeterminesIds` and `DistinctIdsDistinctSignatures`. |
| `Observer.SignatureEmptyIff` | content.js:289-300 | The signature is empty exactly when there is no MR link, or a single one whose id is empty. |
| `Observer.SignatureDeterminesIds` | content.js:292-299 | When no id holds `|`, the signature can be split back into the ids. |
| `Observer.DistinctIdsDistinctSignatures` | content.js:313-317 | Pages listing different ids have different signatures, even with the same number of results. |
| `Observer.NonAmpRunOf` | content.js:294 | The value before the end or before a `&` is what `[^&]+` takes. |
| `Observer.MrParamOfQuery` | content.js:294 | An href with no `=` before `mr=v` yields `v`. |
| `Observer.LinkIdOfArticleHref` | content.js:293-295 | A MathSciNet article href gives the MR number in its query as the link's id. |
| `Observer.LooseMrOfNumber` | content.js:296-298 | A text opening with "MR" and digits gives that MR number. |
| `Observer.DigitRunOf` | content.js:297 | `\d+` takes the whole run of digits. |
| `Observer.OnMutation` | content.js:308-323 | One MutationObserver callback. Characterised by `NavigationRuns`, `SearchPageRunsIff`, `StableSearchPageQuiet`, `NavigationToResultsRunsTwice`, `PaginationNoticed` and `OtherPageRunsIff`. |
| `Observer.OnTick` | content.js:330-336 | One tick of the URL poll. Characterised by `NavigationRuns` and `NavigationNoticedOnce`. |
| `Observer.NavigationRuns` | content.js:309-312 | A changed URL always calls `main` and forgets the signature, in the callback and in the poll alike. |
| `Observer.SearchPageRunsIff` | content.js:313-319 | On a known search page, a callback runs exactly when the signature is non-empty and new. The new signature is then recorded; otherwise the state is kept. |
| `Observer.StableSearchPageQuiet` | content.js:313-319 | The same links a second time do not run again. |
| `Observer.NavigationToResultsRunsTwice` | content.js:308-319 | Navigating to a results page runs on the first two callbacks, not on the third. |
| `Observer.PaginationNoticed` | content.js:313-319 | A page of other results with non-empty ids is noticed on the first callback. |
| `Observer.OtherPageRunsIff` | content.js:320-322 | Elsewhere, with the URL unchanged, a callback runs exactly when there is no arXiv link and no pass is running; the state is kept. |
| `Observer.NavigationNoticedOnce` | content.js:330-335 | Once a callback or the poll has noticed a navigation, the poll does not notice it again. |

## Left out

- `background.js` is not part of this model. It only relays requests to `fetch` and relays a toolbar click.
- `callBackground` (`content.js:16-30`) is Chrome messaging. What a request yields is an input: a body, "" for no body, or a failure that rejects the promise.
- DOM querying, `DOMParser`, and the creation, styling and insertion of the link element (`content.js:243-268`) are not modelled. Their results are inputs: texts, `Option`s, whether an injection point exists, and the `LinkScope` whose `links` stand for the `.arxiv-link` elements in scope.
- `JSON.parse` and `encodeURIComponent` (`content.js:118`, `124`, `233`) are library code. The parsed works are an input. The mrlookup query stays a pair (title, authors) instead of a URL.
- JSON values that are not strings or arrays where the code expects them are not modelled, and neither are `null` works or locations. The model's `Option` types cover missing fields only.
- `processReferences` (`content.js:277-284`) rewrites live `innerHTML` with a global regular expression whose `test`/`lastIndex` interplay is specific to the JavaScript engine.
- The header filter of `content.js:168` is not modelled: the list of result headers is an input to `Passes.LinkSearchPage`.
- The author list that `getArticleMetadata` builds (`content.js:95-106`) is never read by its caller, so `Metadata.ArticleMetadata` does not compute it.
- The timing of `MutationObserver`, `setInterval`, `popstate`, `setTimeout` and `Promise.all` (`content.js:184`, `189`, `308-336`) is not modelled. Only the decision of each callback and the flag machine are kept.
- Passes.LinkSearchPage: runs the per-result tasks one after another. This gives each task the outcome it has when the tasks interleave, because each touches only its own scope. It does not model that the first task to throw makes `Promise.all` reject. The pass then ends, and the flags are reset, while the other tasks are still running.
- Passes.LinkSearchItem: uses one `LinkScope` both for the header-level skip test (`content.js:172`) and for the guard on the MR link's parent inside `verifyAndInject` (`content.js:214`). The two elements are taken to hold the same `.arxiv-link` elements.
- Verify.VerifyAndInject: does not model the `TypeError` thrown when the injection point has no parent element (`content.js:214`). A present injection point is taken to have one.
- Scheduling.Run: treats the end of a pass on idle flags as a no-op. A pass can only end while one runs, so such a trace cannot occur.
- Passes.TryCandidates, Passes.LinkSearchItem, Passes.LinkSearchPage, Passes.LinkArticle: `remoteOf` gives the same answers for a URL on every try. The code fetches again for each candidate (`content.js:178`, `217`, `234`). So a duplicate candidate URL whose first fetch fails and whose second succeeds cannot be represented.
- OpenAlex.ArxivFormsAgree: is stated only for identifiers without a "p". That leaves out old-style identifiers from archives such as hep-th, astro-ph or quant-ph.
- Passes.RunPass: keeps the article-page scope `doc` apart from the result scopes. In the page, every badge of a search pass lands in the MR link's parent (`content.js:267`), inside `document`, so a later `document.querySelector('.arxiv-link')` (`content.js:194`, `320`) would find it. The model does not capture this containment; only the observer's `hasArxivLink` input stands for it.
- Titles.LowerChar: keeps as they are the characters outside ASCII whose lower case lies outside `[a-z0-9]`. Their exact lower case is not needed, since the filter deletes them either way.
