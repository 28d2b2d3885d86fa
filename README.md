# YouTube re:Invent assistant — verified model of its text and control logic

`youtube_ai_assistant.py` collects AWS re:Invent 2024 videos from YouTube. It
renders their transcripts, stores them in the DynamoDB table
`youtube_video_data`, asks a Bedrock model for a JSON summary of each
transcript, and archives the results in S3. Most of the file is network and
AWS plumbing. This project models the deterministic logic inside it, with
every external call replaced by a parameter:

- **Transcript rendering** (`transcript.dfy`): the sentence-reflow generator
  and the `MM:SS - "text"` listing of `process_youtube_url`. Start offsets
  are natural numbers of hundredths of a second.
- **Archive naming** (`archive.dfy`): `sanitize_title`, the video-id split
  on `v=`, and the S3 keys and bodies of `upload_to_s3_with_summary` and
  `upload_to_s3`.
- **Detail extraction** (`details.dfy`): each regular expression of
  `get_video_details` and `extract_view_count`, written as a dedicated
  scanner ("marker, a greedy run of one character class, suffix"), together
  with the `"N/A"` and `0` defaults and the ISO-8601 duration reformatting.
- **Listing walkers** (`listing.dfy`):
  - the channel walk of `get_reinvent_2024_videos`, over a parsed page
    datatype and an abstract sequence of continuation pages;
  - the playlist walk of `get_youtube_playlist_urls`, with its
    consecutive-failure counter.
- **Model invocation** (`enrichment.dfy`):
  - the reply cleaning and JSON span extraction of `invoke_bedrock_model`;
  - its five-attempt retry loop, which records the backoffs as lower and
    upper bounds rather than sleeping;
  - the `set k = :k, ...` update-expression builder of `generate_summary`.
- **The table** (`ledger.dfy`, `values.dfy`): items keyed by `video_url` as
  maps from attribute names to values, the `SET` update, and the scan filters
  and gates. A `Table` class holds the items, and its methods update them in
  place.
- **The three scan loops** (`pipeline.dfy`): `generate_summary`,
  `process_dynamodb_and_upload_with_summary` and `get_video_urls`. Each is a
  step function folded over the concatenated scan pages, and each is
  implemented by nested loops over the pages and their items. An `S3` bucket
  is a `Bucket` class.

External calls become parameters:

- `oracle(prompt, attempt)` is Bedrock's reply;
- `parse(text)` is `json.loads`;
- `fetch(url)` is the page HTML;
- `show(value)` is Python's `str()` of a non-string attribute;
- the pages of a scan or a walk are input sequences.

## Model

| member | source | states |
|---|---|---|
| Text.IndexOf | youtube_ai_assistant.py:761 | the first occurrence of a marker at or after a position, or none when it does not occur there |
| Text.ReplaceCharAt | youtube_ai_assistant.py:230-235 | `.replace("\n", " ")`: same length; each position is replaced exactly when it held the old character |
| Text.Decimal | youtube_ai_assistant.py:255 | the decimal digits of `n`: non-empty, all digits, denoting `n`, no leading zero except for 0 |
| Text.Pad2 | youtube_ai_assistant.py:255 | `{n:02}`: at least two digits denoting `n`; zero-padded below 10, plain decimal from 10 on |
| Transcript.GroupsPartition | youtube_ai_assistant.py:222-235 | concatenating the groups in order gives back exactly the segment texts |
| Transcript.GroupsShape | youtube_ai_assistant.py:222-235 | every group is non-empty with no period-terminated text before its last; every group but the last ends in a text ending with `.` |
| Transcript.LastGroupClosed | youtube_ai_assistant.py:226-230 | when the last text ends with `.`, the last group is closed too |
| Transcript.ReflowIsGroups | youtube_ai_assistant.py:222-235 | the generator's fold (open sentence, emitted list) equals the emitted list followed by one sentence per group of the open sentence plus the remaining texts |
| Transcript.ReflowSentences | youtube_ai_assistant.py:222-235 | the generator loop yields exactly one sentence per group, in order |
| Transcript.NoNewlineInSentences | youtube_ai_assistant.py:229-234 | one sentence per group, and no sentence contains `\n` |
| Transcript.EmptyGivesNoSentences | youtube_ai_assistant.py:232-234 | an empty transcript yields no sentences |
| Transcript.StampMeaning | youtube_ai_assistant.py:252-255 | the stamp is `MM:SS` with at least two digits each; MM is whole minutes, SS is the whole seconds below 60, and MM·60 + SS is the start in whole seconds |
| Transcript.LineHasOneNewline | youtube_ai_assistant.py:258 | a line for a segment without newlines has exactly one newline |
| Transcript.OneLinePerSegment | youtube_ai_assistant.py:247-258 | the listing holds exactly one newline for the header plus one per segment |
| Transcript.RenderTimestamped | youtube_ai_assistant.py:247-258 | the loop's `+=` accumulation equals the header followed by one line per segment in order |
| Transcript.ProcessTranscript | youtube_ai_assistant.py:238-263 | an empty transcript returns nothing; otherwise the listing and the sentences joined by `\n` |
| Transcript.HelloWorldListing | youtube_ai_assistant.py:247-258 | the two-segment example renders to the header, `00:00 - "Hello"` and `00:02 - "world."` |
| Transcript.HelloLine | youtube_ai_assistant.py:252-258 | the line for a segment at 0 s |
| Transcript.WorldLine | youtube_ai_assistant.py:252-258 | the line for a segment at 2.5 s takes whole seconds |
| Transcript.StampExample | youtube_ai_assistant.py:252-255 | starts below 10 s render as `00:0d` |
| Transcript.HelloWorldSentences | youtube_ai_assistant.py:222-235 | two segments ending with `.` on the second give the single sentence `Hello world.` |
| Archive.DropNonAlnum | youtube_ai_assistant.py:744 | drops exactly the leading run of characters outside `[A-Za-z0-9]` |
| Archive.DropUnderscores | youtube_ai_assistant.py:747 | drops the leading run of underscores |
| Archive.ReplaceRunsShape | youtube_ai_assistant.py:744 | after replacing runs, only `[A-Za-z0-9_]` remains with no two adjacent `_`; the result starts with `_` exactly when the title starts with a non-alphanumeric |
| Archive.ReplaceRunsAlnums | youtube_ai_assistant.py:744 | replacing runs keeps the alphanumeric characters in order |
| Archive.ReplaceRunsOfClean | youtube_ai_assistant.py:744 | a title already clean is unchanged by the first substitution |
| Archive.CollapseOfClean | youtube_ai_assistant.py:747 | the `_{2,}` substitution leaves a text without double underscores unchanged, so it never changes the first substitution's output |
| Archive.StripTrailingShape | youtube_ai_assistant.py:750-751 | `rstrip('_')` keeps a prefix, ends in a non-underscore, keeps every non-underscore, and changes nothing without a trailing `_` |
| Archive.StripKeepsAlnums | youtube_ai_assistant.py:750-751 | stripping keeps the alphanumerics |
| Archive.SanitizeTitleShape | youtube_ai_assistant.py:742-753 | the result has only `[A-Za-z0-9_]`, no two consecutive `_`, no trailing `_`, and the title's alphanumerics in order |
| Archive.LeadingUnderscoreKept | youtube_ai_assistant.py:742-753 | a title that starts with a non-alphanumeric and has an alphanumeric later gives a result starting with `_` |
| Archive.SanitizeIdempotent | youtube_ai_assistant.py:742-753 | sanitizing twice equals sanitizing once |
| Archive.SanitizeFixpoint | youtube_ai_assistant.py:742-753 | every clean text without a trailing `_` is its own sanitized form |
| Archive.ReplaceRunsWord | youtube_ai_assistant.py:744 | a leading alphanumeric word passes through the first substitution unchanged |
| Archive.DropSeparators | youtube_ai_assistant.py:744 | a run of non-alphanumerics up to an alphanumeric or the end is dropped whole |
| Archive.ReplaceRunsSeparator | youtube_ai_assistant.py:744 | such a run becomes exactly one `_` |
| Archive.SanitizeExample | youtube_ai_assistant.py:742-753 | the title `AWS re:Invent 2024!!` becomes `AWS_re_Invent_2024` |
| Archive.AlnumsFind | youtube_ai_assistant.py:744 | a text with an alphanumeric character has a non-empty alphanumeric content |
| Archive.AlnumsFindInverse | youtube_ai_assistant.py:744 | non-empty alphanumeric content has an alphanumeric position |
| Archive.SplitBounds | youtube_ai_assistant.py:761 | `split("v=")[1]` exists exactly when `v=` occurs; it lies between the first occurrence and the next one or the end |
| Archive.SplitSecond | youtube_ai_assistant.py:761 | the piece exists exactly when the URL contains `v=` |
| Archive.SplitSecondNoMarker | youtube_ai_assistant.py:761 | the piece never contains `v=` |
| Archive.SummaryVideoId | youtube_ai_assistant.py:761-763 | an id exists iff the URL contains `v=`; it is the piece with one leading `_` removed |
| Archive.SummaryKeyParts | youtube_ai_assistant.py:756-775 | the key exists iff the URL contains `v=` and reads folder, sanitized title, `_`, id, `.txt` |
| Archive.SummaryBodyParts | youtube_ai_assistant.py:768 | the body is `Title: `, title, `\n\nTranscript: `, transcript, `\n\nSummary: `, summary |
| Archive.TranscriptKeyParts | youtube_ai_assistant.py:443-455 | the older key exists iff the URL contains `v=` and is `youtube_transcripts/video-` + piece + `.txt` |
| Archive.TranscriptBodyParts | youtube_ai_assistant.py:448 | the body of the older upload splits back into `Title: `, the title, the heading `\n\nTranscript:\n` and the transcript, in that order |
| Details.RunLen | youtube_ai_assistant.py:45 | the maximal run of a character class from a position |
| Details.RunBetweenIsMaximal | youtube_ai_assistant.py:364-376 | a run followed by a suffix outside the class is the maximal run |
| Details.GreedyIsPattern | youtube_ai_assistant.py:364-376 | the greedy scanner matches at a position exactly when the regular expression does, with the same capture |
| Details.Search | youtube_ai_assistant.py:364-376 | `re.search`: the first matching position, or none when no position matches |
| Details.Capture | youtube_ai_assistant.py:364-376 | a capture is a non-empty run of the class |
| Details.CaptureIsLeftmost | youtube_ai_assistant.py:364-376 | no capture iff nothing matches; otherwise the capture is the group of the leftmost match |
| Details.FieldOrDefault | youtube_ai_assistant.py:364-377 | `"N/A"` without a match; otherwise the non-empty capture, free of `"` |
| Details.ViewCount | youtube_ai_assistant.py:39-48 | 0 without a match; otherwise the value of the captured digits |
| Details.Fragment | youtube_ai_assistant.py:381-384 | an optional `(\d+U)` group is taken exactly when the maximal digit run at the position is non-empty and followed by the unit letter; it is the text at the position, digits then the letter, or empty |
| Details.FragmentTaken | youtube_ai_assistant.py:381-384 | the group is taken exactly when a non-empty digit run followed by the unit letter starts at the position |
| Details.GroupIsGreedy | youtube_ai_assistant.py:381-384 | wherever the group can match, the maximal digit run ends at the unit letter |
| Details.StripSpaces | youtube_ai_assistant.py:385 | `.strip()` never lengthens the text and leaves no space at either end |
| Details.LeadingSpaces | youtube_ai_assistant.py:385 | the length of the leading run of spaces |
| Details.StripSpacesInfix | youtube_ai_assistant.py:385 | the stripped text is the infix after the leading spaces, and only spaces follow it |
| Details.StripKeepsNonSpaces | youtube_ai_assistant.py:385 | stripping removes only spaces |
| Details.FragmentHasNoSpace | youtube_ai_assistant.py:381 | fragments contain no spaces |
| Details.FragmentsArePrefix | youtube_ai_assistant.py:381 | `PT` followed by the three fragments is a prefix of the duration |
| Details.JoinedFragments | youtube_ai_assistant.py:385 | joining space-free fragments with spaces adds only spaces |
| Details.FormatDurationKeepsFragments | youtube_ai_assistant.py:380-385 | the formatted duration is the fragments in order plus spaces, trimmed at both ends |
| Details.FormatDurationFull | youtube_ai_assistant.py:380-385 | with all three fragments the result is `H M S` |
| Details.FormatDurationGap | youtube_ai_assistant.py:380-385 | a missing minutes fragment leaves an inner double space |
| Details.FormatDurationEmpty | youtube_ai_assistant.py:380-385 | no fragments give the empty string |
| Details.FragmentsOfSpelled | youtube_ai_assistant.py:381-384 | a duration spelled `PT` + hours + minutes + seconds fragments reads back as those three fragments |
| Details.DurationFullExample | youtube_ai_assistant.py:380-385 | `PT1H2M30S` formats as `1H 2M 30S` |
| Details.DurationGapExample | youtube_ai_assistant.py:380-385 | `PT1H30S` formats as `1H  30S`, with two spaces |
| Details.DurationSecondsExample | youtube_ai_assistant.py:380-385 | `PT45S` formats as `45S`, both separators stripped |
| Details.DurationMinutesExample | youtube_ai_assistant.py:380-385 | `PT2M` formats as `2M`, one separator stripped from each end |
| Details.ScrapeDetails | youtube_ai_assistant.py:346-395 | fields default to `"N/A"`; a `"N/A"` duration stays `"N/A"`; any other duration is reformatted; a duration not starting with `PT` makes the call fail |
| Listing.WatchUrl | youtube_ai_assistant.py:147 | the URL is the watch prefix followed by the id |
| Listing.ScanSelects | youtube_ai_assistant.py:139-151 | scanning a page appends the selected entries in item order, and stops exactly when a malformed item raises |
| Listing.SelectedGood | youtube_ai_assistant.py:144-149 | every selected entry's title contains `AWS re:Invent 2024` and its URL is the watch URL of its id |
| Listing.ScanLastTokenWins | youtube_ai_assistant.py:150-151 | the token after a page is its last continuation item, or the previous token when there is none |
| Listing.ContinueShape | youtube_ai_assistant.py:154-198 | the page counter stays at most 35, earlier entries are kept as a prefix, and every entry is good |
| Listing.WalkShape | youtube_ai_assistant.py:114-205 | the channel walk fetches at most 35 continuation pages and returns only good entries |
| Listing.FirstPages | youtube_ai_assistant.py:155 | the pages the 35-page limit lets the loop reach: a prefix of at most 35, or every page when there are fewer |
| Listing.ContinueReadsFirstPages | youtube_ai_assistant.py:154-198 | the pagination loop's result is the same when only the first 35 continuation pages exist |
| Listing.WalkReadsFirstPages | youtube_ai_assistant.py:114-205 | no continuation page past the 35th affects the walk |
| Listing.ContinueStopsWithoutToken | youtube_ai_assistant.py:155-180 | the token is reset before each scan, so a page without a continuation item ends the walk after it |
| Listing.ScanPage | youtube_ai_assistant.py:182-195 | the item loop equals the scan of the page |
| Listing.NoMoreAfterBroken | youtube_ai_assistant.py:199-200 | once an item raises, the rest of the page is not scanned |
| Listing.ChannelWalk | youtube_ai_assistant.py:114-205 | the walk's loops equal the walk; at most 35 pages; only good entries |
| Listing.PlStepCounter | youtube_ai_assistant.py:330-341 | a failed request adds one to the counter; a page with a token resets it to 0; the walk goes on only below the budget |
| Listing.PlScanUrls | youtube_ai_assistant.py:316-318 | every playlist URL is a watch URL |
| Listing.PlWalkShape | youtube_ai_assistant.py:273-343 | URLs accumulate in order and are watch URLs; the walk stops for too many failures exactly when the counter reaches the budget; requests are bounded by the pages plus the budget |
| Listing.PlWalkExhausted | youtube_ai_assistant.py:335-341 | once the pages run out, every request fails until the budget ends the walk |
| Listing.PlaylistWalk | youtube_ai_assistant.py:273-343 | the walk's loop equals the playlist walk's state machine |
| Enrichment.RemoveEscapes | youtube_ai_assistant.py:487 | removing the `\n`, `\t`, `\r`, `\b`, `\f` escapes never lengthens the text, and leaves it unchanged exactly when no backslash is followed by one of those letters |
| Enrichment.NoEscapeTail | youtube_ai_assistant.py:487 | past a first character that starts no escape, the text holds an escape exactly when its tail does |
| Enrichment.RemoveEscapesLeading | youtube_ai_assistant.py:487 | a backslash and an escape letter at the front are deleted together |
| Enrichment.RemoveEscapesAppend | youtube_ai_assistant.py:487 | the removal splits over a concatenation whose first part does not end in a backslash |
| Enrichment.RemoveEscapesOnePass | youtube_ai_assistant.py:487 | one pass is not idempotent: `\\nn` becomes `\n`, which a second pass would empty |
| Enrichment.RemoveEscapesKeepsPlain | youtube_ai_assistant.py:487 | every character other than a backslash or one of the letters n, t, r, b, f survives, all of them and in order |
| Enrichment.RemoveEscapesNoBackslash | youtube_ai_assistant.py:487 | a text without a backslash is unchanged |
| Enrichment.RemoveControl | youtube_ai_assistant.py:488 | no character from 0x00 to 0x1f or 0x7f remains |
| Enrichment.RemoveControlFixed | youtube_ai_assistant.py:488 | the substitution changes nothing iff the text has no control character |
| Enrichment.ControlLength | youtube_ai_assistant.py:488 | removing control characters never lengthens the text |
| Enrichment.CleanReply | youtube_ai_assistant.py:487-488 | the cleaned reply has no control character |
| Enrichment.FirstIndex | youtube_ai_assistant.py:495 | the first occurrence of a character from a position, or none |
| Enrichment.LastIndex | youtube_ai_assistant.py:495 | the last occurrence of a character below a bound, or none |
| Enrichment.ExtractSpan | youtube_ai_assistant.py:491-499 | a span starts with `{` and ends with `}` |
| Enrichment.ExtractSpanMeaning | youtube_ai_assistant.py:491-499 | a span exists iff some `{` precedes some `}`; it runs from the first `{` to the last `}` |
| Enrichment.BackoffFor | youtube_ai_assistant.py:514-521 | the sleep after attempt `a` is at least 2^a·10 and below that plus 10 |
| Enrichment.RetryOutcome | youtube_ai_assistant.py:475-529 | from any attempt, the loop calls at most 5 times in all and returns the first success; every earlier attempt raised; None only after 5 failures; the sleeps are those of the failed attempts |
| Enrichment.SleepsSound | youtube_ai_assistant.py:509-523 | every recorded sleep follows a "too long" or "too many tokens" failure and has that attempt's bounds |
| Enrichment.SleepsComplete | youtube_ai_assistant.py:509-523 | every such failure records a sleep |
| Enrichment.SleepsOrdered | youtube_ai_assistant.py:509-523 | sleeps are in attempt order, each one's bound at least the previous one's upper bound |
| Enrichment.BackoffGrows | youtube_ai_assistant.py:514-521 | a later attempt's lower bound is at least an earlier attempt's upper bound |
| Enrichment.InvokeModel | youtube_ai_assistant.py:462-529 | the loop equals the retry state machine on the attempts' outcomes |
| Enrichment.InvokeModelOutcome | youtube_ai_assistant.py:462-529 | between 1 and 5 calls; the first success is returned; None iff all 5 raised; sleeps only after throttling and too-long errors |
| Enrichment.RStripCommaSpace | youtube_ai_assistant.py:717 | `rstrip(", ")` removes exactly the trailing run of commas and spaces |
| Enrichment.Assignments | youtube_ai_assistant.py:706-714 | one `k = :k` clause per reply field, in order |
| Enrichment.BuildUpdate | youtube_ai_assistant.py:703-717 | the loop builds `set ` plus the clauses, right-stripped, and binds `:k` to each field's value |
| Enrichment.UpdateOfNothing | youtube_ai_assistant.py:703-717 | an empty reply gives the expression `set` |
| Enrichment.ClausesAreJoined | youtube_ai_assistant.py:706-714 | the clauses are the assignments joined by `, ` plus a trailing `, ` |
| Enrichment.UpdateExpressionForm | youtube_ai_assistant.py:703-717 | when the last key does not end in `,` or space, the expression is `set ` + the assignments joined by `, ` |
| Enrichment.ValuesOfKeys | youtube_ai_assistant.py:708-714 | the placeholders bound are exactly `:k` for the fields' keys |
| Enrichment.PlaceholderInjective | youtube_ai_assistant.py:711 | distinct keys get distinct placeholders |
| Enrichment.ValuesOfLast | youtube_ai_assistant.py:708-714 | each placeholder holds the value of its key's last occurrence |
| Ledger.UpsertSets | youtube_ai_assistant.py:719-725 | after `update_item` the item exists and holds every assigned value |
| Ledger.UpsertFrame | youtube_ai_assistant.py:719-725 | no other item changes and no unassigned attribute changes; a new item holds its key and the assignments |
| Ledger.UpsertIdempotent | youtube_ai_assistant.py:719-725 | repeating an update changes nothing more |
| Ledger.SummaryGateAfterScan | youtube_ai_assistant.py:667-688 | after the scan filter, the gate reduces to a truthy transcript |
| Ledger.SummaryNotRepeated | youtube_ai_assistant.py:667-725 | once `customer_names` is stored, the item leaves the summary scan |
| Ledger.VideoExistsAfterUpsert | youtube_ai_assistant.py:531-553 | an update makes a video exist iff it did or the update assigns `transcript_sentences` |
| Ledger.Table.constructor | youtube_ai_assistant.py:33 | the table holds the initial items |
| Ledger.Table.CheckVideoExists | youtube_ai_assistant.py:531-553 | true iff the item is present and has `transcript_sentences` |
| Ledger.Table.UpdateItem | youtube_ai_assistant.py:719-725 | the table's items become the upserted items |
| Ledger.Table.SetViewCount | youtube_ai_assistant.py:50-65 | `SET view_count = :view_count` on the keyed item |
| Pipeline.AssignedMatchesValues | youtube_ai_assistant.py:703-725 | the attributes the update assigns are exactly the keys whose placeholders are bound, each with its bound value |
| Pipeline.SummaryPromptsChain | youtube_ai_assistant.py:694-696 | each prompt sent starts with the base prompt and a transcript section, and every later prompt extends every earlier one |
| Pipeline.SummaryRunFrame | youtube_ai_assistant.py:684-725 | the scan changes no item whose key no scanned record carries |
| Pipeline.StoreInsights | youtube_ai_assistant.py:703-727 | a string key upserts the reply's assignments; any other key leaves the table as it was |
| Pipeline.SummariseItem | youtube_ai_assistant.py:686-727 | one item of the loop equals the summary step |
| Pipeline.StoreReply | youtube_ai_assistant.py:700-727 | the reply handling equals `ApplyReply`: a missing or falsy reply changes nothing, a truthy reply that is not an object ends the flow, and an object reply is upserted under a string key |
| Pipeline.GenerateSummary | youtube_ai_assistant.py:556-740 | the nested loops equal the summary scan over the concatenated pages: the table, the prompts sent and whether the flow ended |
| Pipeline.Bucket.constructor | youtube_ai_assistant.py:31 | the bucket holds the initial objects |
| Pipeline.Bucket.PutObject | youtube_ai_assistant.py:771-776 | the key now holds the body and nothing else changes |
| Pipeline.UploadStepAborted | youtube_ai_assistant.py:756-808 | one step ends the flow iff the flow had ended or the gated item cannot be named |
| Pipeline.UploadRunAborted | youtube_ai_assistant.py:783-815 | the upload ends early iff some gated item has a non-string title or URL, or a URL without `v=` |
| Pipeline.UploadStepKeys | youtube_ai_assistant.py:771-776 | one step keeps every object and writes only summary-folder `.txt` keys |
| Pipeline.UploadRunKeys | youtube_ai_assistant.py:783-815 | the upload keeps every object and writes only summary-folder `.txt` keys |
| Pipeline.UploadToS3WithSummary | youtube_ai_assistant.py:756-780 | the key written is the summary key, with the summary body; none and nothing written when the URL has no `v=` |
| Pipeline.UploadItem | youtube_ai_assistant.py:797-808 | one item of the loop equals the upload step |
| Pipeline.UploadWithSummary | youtube_ai_assistant.py:783-815 | the nested loops equal the upload scan over the concatenated pages |
| Pipeline.ViewCountsOnlyStep | youtube_ai_assistant.py:88-95 | one step changes only `view_count` and writes the scraped count |
| Pipeline.ViewRunFrame | youtube_ai_assistant.py:67-103 | the scan keeps every item and attribute but `view_count`, and each new `view_count` is the count scraped from that URL's page |
| Pipeline.ViewItem | youtube_ai_assistant.py:88-95 | one item of the loop equals the view step |
| Pipeline.RefreshViewCounts | youtube_ai_assistant.py:67-103 | the nested loops equal the view-count scan over the concatenated pages |

## Left out

- I/O is not modelled: HTTP, the transcript API, and the DynamoDB, S3 and Bedrock clients. Their results are parameters, and replies and parsed pages are input datatypes.
- JSON parsing (`json.loads`) is the parameter `parse`. `extract_json_from_html` and the traversal of YouTube's JSON are replaced by the `Node`, `Page`, `PlItem` and `PlResponse` datatypes.
- The general regular-expression engine is not modelled; each pattern is its own scanner. `\d` is read as ASCII digits only, where Python also accepts other Unicode digits.
- Sleeps, the `random.uniform` jitter and the Eastern-time stamp are left out. Each backoff is recorded as its integer bounds `[2^a·10, 2^a·10 + 10)`.
- Floating-point start offsets are left out. Starts are whole hundredths of a second, so the rounding at `round(..., 2)` cannot carry to 60.
- The prompt's text is a parameter; only how it is concatenated is modelled.
- `store_video_data_in_dynamodb`, logging, `print` and the `input()`-driven dispatch are not part of this model.
- The first channel page is given as the contents of its selected tab; the search for the selected `tabRenderer` is part of parsing. A missing `videoId` or title is the empty string, as `.get(..., '')` gives.
- Pipeline.Ask: each attempt's reply is a function of the prompt and the attempt number. Any other variation of the service over time is not captured.
- Pipeline.StoreInsights: DynamoDB's validation of the update expression is not modelled. That covers reserved words, invalid attribute names and the empty `set`, which all make `update_item` fail inside its own `try`. The model applies every assignment.
- Failures of `update_item`, `put_object` and `get_item` that the code catches and prints are not modelled. The model treats those calls as succeeding. A DynamoDB lookup error, which `check_video_exists_in_dynamodb` reports as "absent", is not modelled either.
- Pipeline.UploadRunAborted: the handler at youtube_ai_assistant.py:779-780 is meant to log the error and go on. Its message uses `file_name`, which is not yet bound when the exception came from :759 or :761 (a non-string title, or a URL without `v=`). The resulting `UnboundLocalError` ends the whole scan in the outer `try` at :784, and the model follows that.
- Listing.PlWalkShape, Listing.PlWalkExhausted: `get_youtube_playlist_urls` loops with `while True` (youtube_ai_assistant.py:278) and has no page cap. It exits when a page has no items (:320-322), when a page has no next token (:326-328), or when the failure budget runs out (:337-340). The responses are a finite sequence, and every request past its end fails. The model therefore covers every walk in which the service eventually stops answering; a service that keeps returning pages with tokens forever is not modelled.
- Pipeline.RefreshViewCounts: a truthy non-string `video_url` makes `requests.get` raise, and nothing catches it, so the model ends the scan. A page whose HTML cannot be fetched is not modelled; `fetch` always returns text.
