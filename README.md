# Newsletter-Summarizer, modelled in Dafny

Newsletter-Summarizer is a daily job with three stages:

1. It lists yesterday's messages under one Gmail label and reads each one.
2. It cleans each message body and summarises it. Cohere is asked first; three HuggingFace models follow in a fixed order.
3. It posts a digest to a Telegram chat: a header, one message per newsletter, and closing statistics.

This project models those three stages, all in `main.py`, and proves what they guarantee.

| file | module | what it models |
|---|---|---|
| `text.dfy` | `PyStr` | The Python `str` operations the program relies on: `strip`, `split`, `join`, slicing, `str(n)`. |
| `cleanup.dfy` | `Cleanup` | The eight cleaning steps of `summarize_text`. Each step is a function; the method `CleanText` runs them in the source's order. The regular expressions are written out as scanners: leftmost match, non-overlapping, as `re.sub` does it. |
| `fallback.dfy` | `Fallback` | The provider chain of `summarize_text`. A request `Plan` is run against a network function. `Plan` holds Cohere when its key is set, then DistilBART, t5-small and BART-large-CNN. The method `TryProviders` returns the first usable reply. |
| `fetch.dfy` | `Fetch` | `fetch_newsletters`, in three parts: header lookup, choice of a plain-text body (or a tag-stripped HTML one), and the paged listing. The method `FetchNewsletters` runs the listing against the sequence of list replies the server gives. |
| `digest.dfy` | `Digest` | `process_newsletters` and `send_to_telegram`. The chat is an `Outbox` object whose `sent` field records every delivered message. The method `ProcessNewsletters` is proved to send exactly `DigestMessages`. |

Every loop of the source is a method with loop invariants. Each method is proved equal to a specification function; the lemmas state properties of those functions:

- `CleanText` is `Cleaned`.
- `TryProviders` is `RunChain` of the `Plan`.
- `FetchNewsletters` is `FetchPages`.
- `SendRecords` produces `RecordMessages`.

Where the code does not do what its comments suggest ("Remove email headers", main.py:164), the model follows the code:

- **Header deletion is not anchored to the start of a line.** `From:.*?\n` deletes from any occurrence of `from:` (in any case) to the end of that line, for example in "Reply from: Bob". It needs a newline to end on (`DropHeaderFieldNeedsNewline`).
- **The cleanup is not idempotent.** After a cut, the result ends in a period (`TruncateFragments`). Cleaning it again splits off an empty last piece, and the fragment filter drops that piece, so the final period is lost. No idempotence is stated.
- **The URL character class is taken as written.** `[$-_@.&+]` is the range `$`..`_`, which holds `/`, `:`, `<`, `>`, `?`, `=`, the digits and the capitals. A URL therefore runs on through any of them.

## Model

| member | source | states |
|---|---|---|
| `PyStr.StripSlice` | main.py:183 | `strip()` yields a slice of its input with only whitespace (Python's `isspace` set) cut from either end |
| `PyStr.StripEnds` | main.py:189 | a stripped string neither starts nor ends with whitespace |
| `PyStr.SplitJoin` | main.py:192-198 | splitting a `.`-join of period-free pieces gives back exactly those pieces |
| `PyStr.Take` | main.py:257-258 | `text[:1000]` is a prefix of the text of length `min(len, 1000)` |
| `PyStr.NatToString` | main.py:322 | `str(n)` is a string of decimal digits, without leading zeros, denoting `n` |
| `Cleanup.DropHeaderField` | main.py:165-169 | definition: each occurrence of the header key, in any case, is deleted with the rest of its line and the newline; a key on a last line without a newline stays |
| `Cleanup.DropHeaderFieldNeedsNewline` | main.py:165-169 | a header pattern needs a newline to end on: text without one is left unchanged |
| `Cleanup.DropHeaderFieldKeepsLastLine` | main.py:165-169 | a header deletion never touches the text after the last newline |
| `Cleanup.DropHeaderFieldRemovesLine` | main.py:165-169 | a header line `key value\n` at the start of the text is deleted, newline included, and removal goes on after it |
| `Cleanup.DropToLineEnd` | main.py:176-178 | definition: each occurrence of the footer key, in any case, is deleted up to the end of its line; the newline stays |
| `Cleanup.DropToLineEndKeepsLines` | main.py:176-178 | a footer deletion stops before the newline, so the text keeps as many newlines as before |
| `Cleanup.DropToLineEndRemovesRest` | main.py:176-178 | a footer line `key value\n` at the start of the text loses `key value` and keeps its newline |
| `Cleanup.UrlAt` | main.py:172 | definition: the length of the URL at the start of the text: a run of URL characters longer than its `https://` or `http://` prefix, else 0 |
| `Cleanup.UrlAtMatchesPattern` | main.py:172 | a URL starts at a position exactly when `https://` or `http://` is followed by at least one URL character |
| `Cleanup.DropUrls` | main.py:172 | definition: one left-to-right pass that deletes each URL where it starts and keeps every other character |
| `Cleanup.DropUrlsLeavesNoUrl` | main.py:172 | after URL removal no URL starts anywhere in the text, including where a deletion joined two pieces |
| `Cleanup.LastTopLevelDot` | main.py:173 | the largest position up to the bound where a dot after a non-empty domain part is followed by two ASCII letters, or -1 exactly when there is none |
| `Cleanup.EmailAt` | main.py:173 | definition: the length of the address at the start of the text: local part, `@`, then a domain part ending in a dot and at least two letters, else 0 |
| `Cleanup.EmailAtMatchesPattern` | main.py:173 | an address starts the text exactly when a non-empty local part, an `@`, a non-empty domain part and a dot with two ASCII letters do; the match is at least as long as every such address (the domain part is greedy) and takes all the letters after its dot |
| `Cleanup.DropEmails` | main.py:173 | definition: one left-to-right pass that deletes each address where it starts and keeps every other character |
| `Cleanup.DropEmailsUnchanged` | main.py:173 | address removal leaves the text unchanged exactly when no address starts anywhere in it |
| `Cleanup.DropEmailsNeedsAt` | main.py:173 | every matched address holds an `@`, so text without one is left unchanged |
| `Cleanup.ReplaceDisallowed` | main.py:181 | same length; every character outside `[\w\s.,!?:;\-()'"]` becomes a space and every other character is kept |
| `Cleanup.CollapseWhitespace` | main.py:182 | the non-whitespace characters are unchanged and in order; the only whitespace left is the plain space; no two spaces are adjacent |
| `Cleanup.CollapseNoSpace` | main.py:182 | text without whitespace comes through unchanged |
| `Cleanup.CollapseRun` | main.py:182 | a non-empty whitespace run followed by a non-whitespace character (or the end) becomes exactly one space |
| `Cleanup.CollapseAppend` | main.py:182 | the collapse works piecewise across a cut made just after a non-whitespace character |
| `Cleanup.CollapseWhitespaceRuns` | main.py:182 | a whitespace run between two pieces becomes exactly one space and the pieces on either side are collapsed on their own |
| `Cleanup.ScrubbedIsTidy` | main.py:181-183 | after the character filter, the whitespace collapse and the strip the text holds only word characters, the listed punctuation and single spaces, and is stripped |
| `Cleanup.LongFragments` | main.py:186-191 | every kept fragment is longer than 10 characters, and there are no more fragments than pieces |
| `Cleanup.LongFragmentsSelect` | main.py:186-192 | the filter keeps exactly the pieces whose stripped length exceeds 10, stripped and in their original order |
| `Cleanup.Filtered` | main.py:186-192 | definition: the fragments between dots, stripped, that are longer than ten characters, joined with `. ` |
| `Cleanup.FilterShortFragments` | main.py:186-192 | the loop yields `'. '.join` of exactly those fragments |
| `Cleanup.FilteredTidy` | main.py:186-192 | the kept fragments are stripped, period-free and clean, and so is their join |
| `Cleanup.Truncate` | main.py:194-205 | definition: text of at most 4000 characters is kept; longer text becomes the fragments, each with a dot, added while the text so far plus the next fragment is under 4000, then stripped |
| `Cleanup.AccumulateBound` | main.py:199-204 | the accumulation loop never grows the text past 4000 characters |
| `Cleanup.TruncateAtSentence` | main.py:194-205 | the loop's result is `Truncate` of the text (the cut at a sentence boundary, for text over 4000 characters) and at most 4000 characters long |
| `Cleanup.SplitJoinedFragments` | main.py:192-198 | re-splitting the joined fragments at `.` gives the fragments back, each one after the first preceded by a space |
| `Cleanup.TruncateFragments` | main.py:194-205 | a cut of the filtered text is a prefix of it that ends in a period; it is empty exactly when the first fragment alone reaches 4000 characters |
| `Cleanup.TruncateTidy` | main.py:194-205 | truncating filtered text keeps it clean and stripped, and brings it within 4000 characters |
| `Cleanup.Cleaned` | main.py:161-205 | definition: the raw body put through the cleaning steps in source order, from normalisation to truncation |
| `Cleanup.CleanedStages` | main.py:161-205 | the pipeline is NFKD, headers, links, footers, character filter, whitespace, strip, the fragment filter, then truncation |
| `Cleanup.CleanedShape` | main.py:180-205 | for every input the cleaned text is at most 4000 characters, stripped, without double spaces, and holds only word characters and the listed punctuation |
| `Cleanup.CleanHasNoLinkChars` | main.py:181 | clean text holds no `/`, `@`, `<` or `>` when the alphanumeric table is right on ASCII |
| `Cleanup.CleanedHasNoLinks` | main.py:171-183 | the cleaned text holds no `/`, `@`, `<` or `>`, so no URL or address survives |
| `Cleanup.CleanText` | main.py:156-205 | the cleanup, statement by statement, equals `Cleaned` and is bounded and tidy |
| `Fallback.CoherePrompt` | main.py:220-224 | the prompt is the fixed instruction, then the whole text unchanged, then the `Summary:` cue |
| `Fallback.Accept` | main.py:239-244 | a reply yields a summary exactly when it has status 200 and a non-empty list; the summary is the first text, stripped for Cohere and as is for HuggingFace (lines 271-276) |
| `Fallback.RunChain` | main.py:236-288 | definition: the requests are posted in order until one reply is accepted; the result is that summary, or none, and the requests posted |
| `Fallback.RunChainSpec` | main.py:255-288 | the requests posted are a prefix of the plan; each one but the last failed; a summary comes from the last one; no summary means the whole plan was posted and failed |
| `Fallback.FirstSuccessWins` | main.py:261-276 | the first usable reply ends the chain: nothing after it is posted, and its summary is returned |
| `Fallback.AllFailed` | main.py:261-288 | when every request fails, all are posted in order and the result is `None` |
| `Fallback.NoneExactlyWhenAllFail` | main.py:286-288 | the result is `None` if and only if every planned request fails |
| `Fallback.TryHuggingFace` | main.py:255-288 | the `models_to_try` loop equals running the three-request HuggingFace plan |
| `Fallback.CohereFailed` | main.py:245-261 | after a failed Cohere request, the chain continues with the HuggingFace plan |
| `Fallback.TryProviders` | main.py:210-288 | Cohere (when configured), then the HuggingFace loop, equal to running the whole plan |
| `Fallback.SummarizeText` | main.py:156-288 | `summarize_text` is the cleanup followed by the provider chain |
| `Fallback.HuggingFacePlan` | main.py:255-259 | definition: DistilBART on the whole text, T5-small on `summarize: ` and the first 1000 characters, BART-large-CNN on the first 1000 characters |
| `Fallback.Plan` | main.py:211-259 | definition: a Cohere request with the prompt when the key is truthy, then the Hugging Face requests |
| `Fallback.Summarize` | main.py:156-288 | definition: `summarize_text`, the fallback chain run on the cleaned text |
| `Fallback.PlanOrder` | main.py:210-259 | the plan has 4 requests with a Cohere key and 3 without; Cohere can only come first; then DistilBART, t5-small and BART-large-CNN |
| `Fallback.HuggingFaceInputs` | main.py:255-259 | DistilBART gets the whole text; BART-large-CNN gets its first 1000 characters; t5-small gets `summarize: ` followed by those characters |
| `Fallback.CohereShortCircuits` | main.py:239-244 | with a key set, a usable Cohere reply ends the chain after one request, even when its text strips to nothing |
| `Fallback.NoKeyNoCohere` | main.py:211 | without a truthy Cohere key, Cohere is never asked |
| `Fallback.PlanInputsBounded` | main.py:220-259 | no request carries more than the text plus the fixed prompt |
| `Fallback.RequestsBounded` | main.py:194-259 | for any newsletter body, no request carries more than 4000 characters plus the fixed prompt |
| `Fetch.HeaderValue` | main.py:102-108 | definition: the value of the first header whose lower-cased name is the target, else the default |
| `Fetch.HeaderValueFirst` | main.py:101-108 | the value is that of the first header whose name matches, ignoring case |
| `Fetch.HeaderValueDefault` | main.py:101-108 | with no matching header, the default (`(No Subject)`, `Unknown Sender`, empty) is returned |
| `Fetch.NameIsAnyCase` | main.py:101-108 | a header name matches a lower-case target exactly when it has the target's length and each character is the target's letter in lower or upper case |
| `Fetch.SubjectAnyCase` | main.py:102 | examples: `Subject`, `SUBJECT` and `subject` match `subject`; `Subject:` and `X-Subject` do not |
| `Fetch.TagAt` | main.py:134 | definition: the length of the tag at the start of the text: `<`, a character other than `<`, then the first `>` with no `<` before it, else 0 |
| `Fetch.StripTags` | main.py:134 | definition: one left-to-right pass that deletes each tag where it starts and keeps every other character |
| `Fetch.CloseAtShortest` | main.py:134 | the lazy `+?` closes a tag at the first `>` |
| `Fetch.TagAtMatchesPattern` | main.py:134 | a tag match is `<`, then at least one character other than `<`, then the first `>` after those |
| `Fetch.CloseAtReaches` | main.py:134 | a `>` with no `<` before it closes the tag at or before it, and exactly there when no other `>` comes first |
| `Fetch.TagAtComplete` | main.py:134 | conversely, a `<`, a first character other than `<` and a later `>` with no `<` in between always make a match, which ends at the first `>` from the third character on |
| `Fetch.StripTagsNoTag` | main.py:134 | text without `<` passes through tag stripping unchanged |
| `Fetch.StripTagsSinglePass` | main.py:134 | example of the single pass: `<<a>b>` becomes `<b>` |
| `Fetch.PlainBody` | main.py:110-123 | definition: with parts, the decoded data of the first `text/plain` part that has data; without parts, the decoded body data; otherwise empty |
| `Fetch.Body` | main.py:110-135 | definition: the plain body, or when it is empty and there are parts, the tag-stripped decoded data of the first `text/html` part that has data |
| `Fetch.FirstWithData` | main.py:113-118 | picks the first part of the MIME type with non-empty data; no earlier part qualifies; `None` when no part does (also lines 127-135) |
| `Fetch.PlainBodyWins` | main.py:125-126 | a non-empty plain-text body is the body: HTML is only a fallback |
| `Fetch.SinglePartBody` | main.py:119-126 | a message without parts never falls back to HTML |
| `Fetch.ExtractBody` | main.py:110-135 | the two part loops compute `Body` |
| `Fetch.Records` | main.py:95-143 | definition: the messages of one page fetched in order, stopping at the first failed fetch, with whether every fetch succeeded |
| `Fetch.RecordsFollowIds` | main.py:95-143 | the record ids are a prefix of the listed ids, and all of them when the page is complete; an incomplete page stops just before an id whose fetch failed |
| `Fetch.RecordsUpToFailure` | main.py:95-143 | record `k` is the message built from the fetched payload of id `k`; the records stop at the first failed fetch, which is the only way a page ends incomplete |
| `Fetch.RecordsComplete` | main.py:95-97 | a page is complete if and only if every fetch on it succeeds; a failed one raises the error of lines 151-153 |
| `Fetch.FetchPage` | main.py:95-143 | the `for msg in messages` loop equals `Records` |
| `Fetch.FetchPages` | main.py:63-153 | definition: the page loop: it stops at a listing error, a page without messages, a failed fetch, or a page without a next token, keeping what it has |
| `Fetch.FetchedFollowsListing` | main.py:66-149 | the ids of the records returned are a prefix of the ids listed, page after page |
| `Fetch.TokensFollowPages` | main.py:63-80 | the first list request carries no token; every later one carries the truthy `nextPageToken` of the page before (lines 146-149); there is at most one request per reply, plus one |
| `Fetch.FetchesEveryListedId` | main.py:47-149 | when every listing reply is a page of messages whose fetches all succeed and every page but the last names a next page, the record ids are exactly the listed ids, page after page |
| `Fetch.FetchNewsletters` | main.py:44-153 | the page loop equals `FetchPages` from no token |
| `Digest.Outbox.constructor` | main.py:291-294 | the chat is reachable exactly when both the bot token and the chat id are truthy, and nothing has been sent yet |
| `Digest.Outbox.Send` | main.py:291-301 | a message is delivered and appended when credentials are set; otherwise it is dropped |
| `Digest.SenderName` | main.py:341-344 | definition: the stripped text before the first `<` when the sender holds both `<` and `>`, else the sender |
| `Digest.EmailLink` | main.py:350 | definition: the Gmail inbox address followed by the message id |
| `Digest.Text` | main.py:322-366 | definition: the texts of the header, the empty-day notice, one newsletter with or without its summary, and the statistics |
| `Digest.SenderNameRule` | main.py:341-344 | for `Name <address>` the name is the stripped text before the first `<` and holds no `<`; any other sender is kept whole |
| `Digest.EmailLinkInjective` | main.py:350 | the Gmail link determines the message id, so different messages get different links |
| `Digest.RecordText` | main.py:352-359 | a newsletter's message is its head, then the summary under a heading when there is a truthy summary, otherwise the unavailable notice |
| `Digest.RecordTextDeterminesSummary` | main.py:352-354 | two messages about the same newsletter with summaries are equal exactly when the summaries are |
| `Digest.CountSummarizedCounts` | main.py:352-359 | the success counter is the number of newsletters whose summary is truthy |
| `Digest.RecordMessages` | main.py:337-362 | definition: for each newsletter in order, its message numbered from 1 out of the total with its summary |
| `Digest.RecordMessagesAt` | main.py:337-361 | message `k` is about newsletter `k`, numbered `k + 1` out of the total |
| `Digest.DigestMessages` | main.py:316-368 | definition: the empty-day message when there are no newsletters, otherwise the header, the newsletter messages and the statistics |
| `Digest.DigestShape` | main.py:322-367 | no newsletters means one message; otherwise header, one message per newsletter in order, and statistics, with successful = truthy summaries and successful + failed = total |
| `Digest.SummariesOfAt` | main.py:347 | the summary of newsletter `k` is `summarize_text` of its body |
| `Digest.SendRecord` | main.py:337-361 | one pass of the loop summarises the next newsletter and sends its message |
| `Digest.SendRecords` | main.py:333-362 | the loop sends one message per newsletter in order; successful counts the truthy summaries; successful + failed = total |
| `Digest.ProcessNewsletters` | main.py:316-368 | the chat receives exactly `DigestMessages`, or nothing when unconfigured; every summary is that of `summarize_text` |

## Left out

- NFKD normalisation and Unicode's alphanumeric table are not modelled. Both are parameters (`UnicodeDb`), because their data is not part of this model. The no-link-characters lemmas require only that the table agrees with Python on ASCII.
- Base64url decoding and UTF-8 decoding with `errors='ignore'` are the `decode` parameter of the fetch functions.
- Gmail OAuth (`get_gmail_service`), the search query, and the clock behind "yesterday" are not modelled. The query and date strings are inputs: the digest takes the formatted date as `date`.
- HTTP is a function from a request to a `Reply`:
  - timeouts, connection errors, invalid JSON and a missing `text` or `summary_text` key are all `Raised`;
  - headers, `max_tokens` and the temperature are not modelled;
  - a `summary_text` that is not a string is not modelled.
- The network may answer differently for each newsletter, so `net` is indexed by the newsletter's position.
- The Gmail listing is a finite sequence of list replies. Running out of replies ends the listing.
- An `HttpError` from `list` or `get` is `ListFailed` or `GetFailed`; other exceptions are not modelled.
- A part without a `body` key, or a header without a `name` key, raises `KeyError` in the source. Such inputs are not modelled: every part has optional `data`, and every header has a name.
- `Fetch.NameIs` models `str.lower()` on header names as an ASCII fold. This is exact for the lower-case targets `subject`, `from` and `date`, since no other character lowers to their letters.
- Telegram is not modelled: no bot, no `asyncio`, no delivery errors. `send_to_telegram` swallows those errors, and a configured `Outbox` counts every message as delivered.
- Messages are kept as `Message` values, rendered by `Digest.Text`.
- Logging `print`s are not modelled.
- `test_summary.py` is not part of this model.
- `Digest.SendRecords` and `Digest.ProcessNewsletters` return the two counters; the source keeps them in local variables.
