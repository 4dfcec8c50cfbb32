# Bulk ACL upload: a Dafny model

This project models two parts of the Fastly bulk-IP tool:

- **The upload route.** `POST` on `/api/fastly/upload` takes a multipart form with `serviceId`, `aclId`, `file` and an optional `comment`. It checks that the required fields are there. It cuts the file's text into trimmed lines and drops blank lines and `#` comments. It refuses more than 1,000 lines, and it needs the `FASTLY_API_KEY` setting. It then classifies each line (`[!]address[/prefix]`) and sends the valid ones to the edge platform's ACL-entry API, in consecutive batches of 50 with a pause after each batch. Finally it replies with one result per line.
- **The `BulkIPUpload` panel.** This is the component in the services page. It covers:
  - the case-insensitive name filters behind the service and ACL pickers;
  - the effect that resets the ACL choice when the service changes;
  - the submit handler and its precondition;
  - the analysis of the route's report into the success and error banners.

Modules:

- `Wrappers`: the `Option` type.
- `Seqs`: the array `filter`, `map`, `flat` and `filter(Boolean)` operations.
- `Strings`: the JavaScript string operations used. These are `trim`, `startsWith`, `includes`, `toLowerCase` (ASCII only), one-character `split`, `join`, `parseInt` and number-to-text.
- `UploadRoute`: the route, as the function `Handle` and the method `Post`, whose batch loop is `SubmitBatches`.
- `ServicesPanel`: the panel. Its state is the class `BulkIPUpload`.

Some of what the route and the panel depend on is not code that can be seen here, so the model takes it as parameters:

- `isIP`: the address check of Node's `net` module (true for version 4 or 6).
- `submit(position, request)`: the reply to one ACL-entry write. This is `fetch` plus `response.json()`. The reply is either a status with a decoded body, or a thrown value. It is indexed by the line's position, so a duplicate entry or a transient failure can be expressed.
- `apiKey`: the `FASTLY_API_KEY` environment value.
- `upload(form)`: in `BulkIPUpload.HandleSubmit`, the panel's `fetch` of the route. `HandleSubmit` promises that the banners are `SubmitFeedback(upload(form))`. Substituting `form => Handle(form, apiKey, isIP, submit).0` for `upload` and applying `NoErrorIffAllAccepted` links the panel's banners to the lines of the file.

Behaviour of the code worth noting:

- The route pauses after every batch, including the last, so 120 lines give 3 pauses.
- The CIDR prefix is the second piece of `split('/')`, so `a/24/x` is sent with subnet `24`.
- The prefix is sent as written once its `parseInt` value is in range, so `024`, `+24` and `24abc` are sent unchanged.
- The 400 reply for too many lines carries `detail`, while the 500 reply carries `details`.
- A `file` field sent as text rather than as a file makes `file.text()` throw. That gives the 500 reply.

## Model

| member | source | states |
|---|---|---|
| UploadRoute.FirstMissing | src/app/api/fastly/upload/route.ts:12-20 | no field is reported missing exactly when `serviceId`, `aclId` and `file` are all present and non-empty |
| UploadRoute.CheckRequired | src/app/api/fastly/upload/route.ts:12-20 | the loop over the required fields returns the first one missing, in the order serviceId, aclId, file |
| UploadRoute.MissingFieldReported | src/app/api/fastly/upload/route.ts:12-20 | a missing field is answered with a 400 naming the first missing field, and no request is made |
| UploadRoute.CommentOf | src/app/api/fastly/upload/route.ts:26 | the comment is never empty: it is the form's comment when that is non-empty, otherwise "Bulk upload" |
| UploadRoute.ParseLines | src/app/api/fastly/upload/route.ts:29-32 | there are no more lines than raw lines, and every parsed line is trimmed, not blank and not a `#` comment |
| UploadRoute.ParsedLineOrigin | src/app/api/fastly/upload/route.ts:29-32 | every parsed line is some raw line of the file, trimmed, that the filter keeps |
| UploadRoute.RawLineParsed | src/app/api/fastly/upload/route.ts:29-32 | every raw line whose trimmed text is neither blank nor a comment appears among the parsed lines |
| UploadRoute.ParseOneLine | src/app/api/fastly/upload/route.ts:29-32 | a file without a newline parses to its trimmed text, or to nothing when that text is blank or a comment |
| UploadRoute.ParseLinesAppend | src/app/api/fastly/upload/route.ts:29-32 | parsing respects line order: two texts joined by a newline parse to the lines of the first, then the lines of the second |
| UploadRoute.ParseJoinedLines | src/app/api/fastly/upload/route.ts:29-32 | a file of newline-joined raw lines parses to exactly the kept trimmed lines, in order |
| UploadRoute.KeptLinesTrimmed | src/app/api/fastly/upload/route.ts:30-32 | after trim-then-filter every kept line is trimmed and passes the filter |
| UploadRoute.TooManyLinesRefused | src/app/api/fastly/upload/route.ts:35-43 | more than 1,000 parsed lines give the "Too many IPs" 400 reply whatever the key, with no request made |
| UploadRoute.WithinLimitProceeds | src/app/api/fastly/upload/route.ts:35-48 | up to 1,000 lines go on to the upload when the key is set; without a key the reply is the 500 key error and no request is made |
| UploadRoute.Classify | src/app/api/fastly/upload/route.ts:57-98 | a line is skipped exactly when it is empty, and a rejected line is reported as `invalid` under its own text |
| UploadRoute.SentRequestWellFormed | src/app/api/fastly/upload/route.ts:62-98 | every request sent has the line's negation flag and the upload's ids, key and comment; its address passes `isIP` and has no `/`; it has a subnet exactly when the line has a `/`, and that subnet's `parseInt` value lies between 0 and the family's maximum |
| UploadRoute.RejectedLineReported | src/app/api/fastly/upload/route.ts:66-96 | a line that is not sent is `invalid` with "Invalid IP format" exactly when its base address fails `isIP`; otherwise it has a `/`, its prefix is not a number from 0 to the family's maximum, and the message is the range message for its family |
| UploadRoute.BadAddressRefused | src/app/api/fastly/upload/route.ts:66-75 | a non-empty line whose base address fails `isIP` is rejected with "Invalid IP format" |
| UploadRoute.PlainAddressSent | src/app/api/fastly/upload/route.ts:77-81 | a valid address without `!` or `/` is sent unchanged, with negated "0" and no subnet |
| UploadRoute.NegationSetsFlag | src/app/api/fastly/upload/route.ts:62-63 | a leading `!` only sets negated to "1" (and the reported text): the rest of the line is classified as without it |
| UploadRoute.CidrLineClassified | src/app/api/fastly/upload/route.ts:84-98 | `address/n` is sent with the bare address and subnet "n" when n is at most 32 (128 for an address with `:`), and rejected with the range message otherwise |
| UploadRoute.CidrPrefixDecides | src/app/api/fastly/upload/route.ts:84-98 | for any CIDR line whose address passes `isIP`, whatever the prefix text: it is sent with the bare address and the prefix text as subnet exactly when the prefix's `parseInt` value is a number from 0 to the family's maximum, and it is rejected with the range message otherwise |
| UploadRoute.NegativePrefixRefused | src/app/api/fastly/upload/route.ts:86-96 | a negative prefix is always rejected with the range message |
| UploadRoute.CidrMessages | src/app/api/fastly/upload/route.ts:89-94 | for every address, the range message reads "must be 0-128" when the address contains `:` and "must be 0-32" otherwise |
| UploadRoute.Complete | src/app/api/fastly/upload/route.ts:113-125 | a reply becomes a completed result with its status and body and `ok` exactly for status 200 to 299; a throw becomes an `error` result; the result names the line |
| UploadRoute.NullOnlyForBlank | src/app/api/fastly/upload/route.ts:58-59 | the per-line callback resolves to `null` exactly for a blank line |
| UploadRoute.ResultNamesItsLine | src/app/api/fastly/upload/route.ts:58-125 | every result the callback produces names the trimmed line as its `ip` |
| UploadRoute.ThrowElsewhere | src/app/api/fastly/upload/route.ts:120-126 | a throw for one position leaves the result of a line at any other position unchanged |
| UploadRoute.ThrowHere | src/app/api/fastly/upload/route.ts:120-126 | a throw for a sent line's own position makes its result an `error` result with the `Error`'s message, or "Failed to process IP" for any other thrown value |
| UploadRoute.ThrowIsIsolated | src/app/api/fastly/upload/route.ts:120-126 | a request that throws turns only its own entry into an `error` result, and every other entry of the report is unchanged |
| UploadRoute.BatchesPartition | src/app/api/fastly/upload/route.ts:52-55 | the batches concatenate back to the lines, and each holds between 1 and 50 lines |
| UploadRoute.BatchCount | src/app/api/fastly/upload/route.ts:54 | the batches cover the lines with less than one batch of slack |
| UploadRoute.BatchCountCeiling | src/app/api/fastly/upload/route.ts:54 | there are exactly ceil(n / 50) batches |
| UploadRoute.BatchAt | src/app/api/fastly/upload/route.ts:54-55 | batch k is the slice from 50k up to min(50k + 50, n) |
| UploadRoute.NextBatch | src/app/api/fastly/upload/route.ts:54-55 | the slice the loop takes next is the next batch |
| UploadRoute.LoopExit | src/app/api/fastly/upload/route.ts:54 | when the loop stops, the slices taken are all the batches |
| UploadRoute.BatchStep | src/app/api/fastly/upload/route.ts:56-130 | one turn extends the results and the requests by those of the next slice, at the slice's positions |
| UploadRoute.BatchTurn | src/app/api/fastly/upload/route.ts:54-130 | one turn of the loop takes the next batch, and its results and requests follow those before it |
| UploadRoute.OutcomesAppend | src/app/api/fastly/upload/route.ts:130 | the collected results of two runs of lines are those of the first, then those of the second |
| UploadRoute.CallsAppend | src/app/api/fastly/upload/route.ts:56-128 | the requests of two runs of lines are those of the first, then those of the second |
| UploadRoute.OutcomesWhenAllPresent | src/app/api/fastly/upload/route.ts:130 | when no callback value is `null`, the results are the callback's values position by position |
| UploadRoute.OutcomesPerLine | src/app/api/fastly/upload/route.ts:56-130 | for parsed lines every line yields exactly one result, at its own position |
| UploadRoute.SubmitBatches | src/app/api/fastly/upload/route.ts:51-132 | the loop collects the per-line results in line order, records the batches as consecutive slices of 50 and the requests in line order, and pauses once per batch |
| UploadRoute.Upload | src/app/api/fastly/upload/route.ts:51-138 | the reply is a 200 whose `processed` counts its results; for parsed lines there is one result per line naming it, in order; there is one pause per batch and ceil(n / 50) batches |
| UploadRoute.ReportShape | src/app/api/fastly/upload/route.ts:56-137 | every parsed line yields one result naming it, in line order |
| UploadRoute.ReportEntry | src/app/api/fastly/upload/route.ts:57-137 | entry k of the 200 report is decided by line k: a sent line is reported with the reply to its own request at position k, and a refused line as classified |
| UploadRoute.UploadedUnfolds | src/app/api/fastly/upload/route.ts:7-138 | a 200 reply means every check passed, and the reply is the batch loop over the file's parsed lines |
| UploadRoute.UploadReport | src/app/api/fastly/upload/route.ts:29-138 | a 200 reply has `processed` equal to the number of parsed lines (at most 1,000), one result per line naming it, in order, the batches as slices of 50, and one pause per batch |
| UploadRoute.CallsByPosition | src/app/api/fastly/upload/route.ts:56-128 | when each line makes at most one request tagged with its position, the requests are exactly those of the lines, each at its line's position |
| UploadRoute.LineCallCount | src/app/api/fastly/upload/route.ts:101-111 | a line makes at most one request |
| UploadRoute.CallsAreSentLines | src/app/api/fastly/upload/route.ts:54-130 | the requests made are exactly one per line classified for sending, at that line's position, and no others |
| UploadRoute.RefusalMakesNoCalls | src/app/api/fastly/upload/route.ts:12-48 | an upload refused before the loop makes no request and takes no pause |
| UploadRoute.Post | src/app/api/fastly/upload/route.ts:7-149 | the handler's reply and effects are those of `Handle`, about which the lemmas above are stated |
| UploadRoute.MissingIsFirst | src/app/api/fastly/upload/route.ts:13-19 | a field the loop finds missing, after all earlier ones were present, is the first missing field |
| Strings.Trim | src/app/api/fastly/upload/route.ts:31 | the trimmed text is no longer than the text, has no white space at either end, and is empty exactly when the text was all white space |
| Strings.TrimSurrounds | src/app/api/fastly/upload/route.ts:31 | the trimmed text sits in the text after its leading white space, with only white space after it |
| Strings.TrimIdempotent | src/app/api/fastly/upload/route.ts:58 | trimming an already trimmed line changes nothing |
| Strings.JoinSplit | src/app/api/fastly/upload/route.ts:30 | joining the pieces of a split with the separator gives the text back |
| Strings.SplitJoin | src/app/api/fastly/upload/route.ts:30 | splitting a join of separator-free pieces gives the pieces back |
| Strings.SplitAppend | src/app/api/fastly/upload/route.ts:85 | splitting at a separator splits the two sides independently |
| Strings.ParseIntDecimal | src/app/api/fastly/upload/route.ts:86 | `parseInt` reads back the decimal text of any natural number |
| Strings.ParseIntNegative | src/app/api/fastly/upload/route.ts:86 | `parseInt` reads a minus sign before decimal digits as a negative number |
| Strings.Lower | src/components/services.tsx:77 | lower-casing keeps the length and leaves no ASCII capital |
| Strings.LowerLetters | src/components/services.tsx:77 | each ASCII capital becomes its small letter, 32 code points on, and every other character is kept |
| Strings.ContainsLower | src/components/services.tsx:77 | an exact occurrence is also a case-insensitive one |
| ServicesPanel.FilterByNameMembers | src/components/services.tsx:74-89 | the filter keeps exactly the items whose lower-cased name contains the lower-cased search |
| ServicesPanel.FilterByNameKeepsOrder | src/components/services.tsx:74-89 | the kept items stay in list order |
| ServicesPanel.EmptySearchKeepsAll | src/components/services.tsx:74-89 | an empty search keeps the whole list |
| ServicesPanel.NarrowerSearchRefines | src/components/services.tsx:74-89 | filtering by a search that contains the earlier one, case aside, filters the earlier result down to the same list as filtering the original |
| ServicesPanel.TypingNarrows | src/components/services.tsx:74-89 | typing more characters only removes items, and the list does not grow |
| ServicesPanel.SearchIgnoresCase | src/components/services.tsx:74-89 | searching for the lower-cased text finds the same items |
| ServicesPanel.Analyze | src/components/services.tsx:165-178 | a success banner is always shown, and there is no error banner exactly when no result failed |
| ServicesPanel.FailedEntriesExact | src/components/services.tsx:166 | the failed entries are exactly the results that are not `ok` or are `invalid`, in result order |
| ServicesPanel.FailureOfRouteResult | src/components/services.tsx:166 | a route result counts as a failure exactly when its request threw or its status was not 2xx, and an `invalid` result always fails |
| ServicesPanel.AllSucceeded | src/components/services.tsx:176-177 | with no failures the banner reads "Successfully processed all N IP addresses!" and there is no error |
| ServicesPanel.SomeFailed | src/components/services.tsx:168-175 | with failures the success banner counts them and the error banner reads "Failed entries: " followed by the list |
| ServicesPanel.FirstFailuresListed | src/components/services.tsx:170-175 | each of the first five failures appears, described, in the error text |
| ServicesPanel.FailureListTruncates | src/components/services.tsx:171-175 | with more than five failures the list is that of the first five followed by "..." |
| ServicesPanel.FailureListComplete | src/components/services.tsx:171-175 | with at most five failures the list is all of them, described and joined with ", ", and nothing follows |
| ServicesPanel.DescribedWithError | src/components/services.tsx:173 | a failure shows its error in parentheses exactly when it has a non-empty one, and a completed request shows only its ip |
| ServicesPanel.FailureMessage | src/components/services.tsx:158-163 | the message of a failed reply is never empty |
| ServicesPanel.SubmitFeedback | src/components/services.tsx:156-178 | whenever there is no error banner there is a success banner |
| ServicesPanel.RefusalShowsRouteError | src/components/services.tsx:158-163 | a refused upload shows the route's own non-empty `error` text as the error banner, never the status fallback, and no success banner |
| ServicesPanel.PanelFormAccepted | src/components/services.tsx:145-149 | the panel's form always passes the route's required-field check when the ids are non-empty, and an empty comment becomes "Bulk upload" |
| ServicesPanel.LineFailsUnlessAccepted | src/components/services.tsx:166 | a line's result counts as a failure exactly when the line was not sent and answered 2xx |
| ServicesPanel.FailuresPerLine | src/components/services.tsx:166 | when every line resolves and fails exactly when it is not accepted, so do the collected results, position by position |
| ServicesPanel.ResultsFailUnlessAccepted | src/components/services.tsx:166 | over parsed lines the result at each position fails exactly when that line was not accepted |
| ServicesPanel.NoErrorIffAll | src/components/services.tsx:166-178 | there is no error banner exactly when every line is accepted |
| ServicesPanel.UploadNoErrorIffAllAccepted | src/components/services.tsx:151-178 | for the trimmed lines of an upload, the banners after the 200 reply show no error exactly when every line was sent and answered 2xx |
| ServicesPanel.NoErrorIffAllAccepted | src/components/services.tsx:151-178 | after the route accepts an upload, the panel shows no error banner exactly when every parsed line of the file was sent and answered 2xx |
| ServicesPanel.BulkIPUpload.constructor | src/components/services.tsx:19-42 | every field starts empty or unset, and the filtered lists agree with the searches |
| ServicesPanel.BulkIPUpload.ServicesLoaded | src/components/services.tsx:61-62 | the list is stored and the filtered list is the list filtered by the current search; nothing else changes |
| ServicesPanel.BulkIPUpload.SelectedServiceChanged | src/components/services.tsx:92-109 | the ACL list is cleared unless a service with an active version is selected; the ACL choice and search are cleared; nothing else changes |
| ServicesPanel.BulkIPUpload.AclsLoaded | src/components/services.tsx:97-99 | the ACLs are stored and filtered by the current ACL search; nothing else changes |
| ServicesPanel.BulkIPUpload.ServiceSearchChanged | src/components/services.tsx:200-204 | the search is stored and the selection dropped; the list is refiltered; dropping a selection clears the ACL state |
| ServicesPanel.BulkIPUpload.HandleServiceSelect | src/components/services.tsx:111-115 | the service becomes the selection and its name the search; the ACL state is reset only when the selection changed |
| ServicesPanel.BulkIPUpload.AclSearchChanged | src/components/services.tsx:262-266 | the ACL search is stored, the ACL selection dropped and the ACL list refiltered; nothing else changes |
| ServicesPanel.BulkIPUpload.HandleAclSelect | src/components/services.tsx:117-121 | the ACL becomes the selection and its name the ACL search; nothing else changes |
| ServicesPanel.BulkIPUpload.HandleFileChange | src/components/services.tsx:123-126 | the first chosen file, or none, becomes the selected file; nothing else changes |
| ServicesPanel.BulkIPUpload.CommentChanged | src/components/services.tsx:349 | the comment is stored; nothing else changes |
| ServicesPanel.BulkIPUpload.ResetForm | src/components/services.tsx:128-132 | the file and the comment are cleared and the selections stay |
| ServicesPanel.BulkIPUpload.HandleSubmit | src/components/services.tsx:134-186 | without a service, an ACL and a file only the selection error is set. Otherwise the banners are those of the route's reply to the form built from the old selection and comment, the form is reset, submitting ends, and the selections, lists and searches stay |

## Left out

- The HTTP transport, `req.formData()`, `NextResponse.json` and the JSON encoding are not modelled: a request is a map of form values and a reply is a datatype.
- The upstream `fetch` and `response.json()` are the parameter `submit`. The exact headers (`Fastly-Key`, `Content-Type`) and the URL are not modelled; the request records the service id, ACL id and key they are built from.
- `net.isIP` is the parameter `isIP`; the IPv4 and IPv6 grammars are not modelled.
- The one-second pause is counted (`Trace.pauses`), not timed; `maxDuration` and `dynamic` are deployment settings.
- `Promise.all` runs the callbacks of a batch concurrently. The model runs them in line order. Since each callback's reply depends only on its own position and request, the order of completion does not change the results.
- `console.error` logging on the 500 path is not modelled.
- `parseInt` is exact for arbitrarily long digit runs; rounding of huge values to floating point is not modelled, and it does not change any comparison with 0 to 128.
- `toLowerCase` folds ASCII letters only; Unicode case mapping is not modelled.
- The services fetch (lines 45-71 of src/components/services.tsx) is left out, with its sort by `localeCompare` (line 59) and its error banner (line 64). `ServicesLoaded` takes the list as given.
- The ACL fetch is left out, with its "Failed to load ACLs" error (line 101). `AclsLoaded` takes the list as given.
- The loading flags, the dropdowns' open state and the clearing of the file input element (line 131) are not modelled.
- The clear buttons of the two pickers (lines 210-213 and 273-276) and the dismiss buttons of the banners (lines 378 and 392) are not modelled.
- ServicesPanel.BulkIPUpload.HandleSubmit: does not model a transport failure or a body that is not JSON (the "Upload failed" fallback at line 181), because the endpoint is a function from form to reply.
- ServicesPanel.BulkIPUpload.HandleSubmit: sends the route's `error` text for a refusal; the route's `detail`/`details` texts are not shown by the panel and are not modelled.
- The React effect on `selectedService` compares object identity; the model compares values. Selecting an equal service again therefore does not rerun the ACL effect.
- src/app/api/fastly/route.ts, the page layout and the presentation components are not part of this model.
