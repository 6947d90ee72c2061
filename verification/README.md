# SASCE election model

A Dafny model of the election logic of the SASCE nomination and voting web
application. It covers the whole path of a nomination:

- members fill in the multi-section nomination form (`script.js`);
- administrators can instead bulk-upload nominations from a JSON file (`upload-json.js`);
- administrators sign in through the login page, with its lockout after five failures (`login-script.js`);
- administrators review, filter and approve or reject nominations, and mint acceptance tokens (`admin-script.js`);
- voters open the ballot with a token derived from their roster entry, pick one candidate per open position and submit once (`ballot-script.js`);
- the public results page (`results-script.js`) and the administrators' summary page (`summary-script.js`) count the votes per position.

The model is functional. Firestore collections are sequences of immutable
records. JavaScript objects are ordered property lists (`Objects`), and
JavaScript values form one datatype (`JsValues`). Every page handler is a
function from the state before to the state after. The following are
parameters of the functions that need them:

- the clock (`now`);
- `Math.random` (`randomPart`);
- the result of `FileReader` (`dataUrl`);
- the `URL` constructor (`parses`);
- the store's answer to `addDoc` (`added`);
- the client IP address.

Modules, one per concern:

| module | file | models |
|---|---|---|
| `Text` | text.dfy | `trim`, ASCII `toLowerCase`, `includes`, `toString(36)`/`parseInt`, the e-mail regular expression, word splitting |
| `Objects`, `JsValues` | objects.dfy, jsvalues.dfy | ordered objects, JavaScript values and their truthiness |
| `Base64` | base64.dfy | `btoa` over Latin-1 and the forgiving `atob` |
| `VoterToken` | token.dfy | the seven tokens of a roster voter and the roster search |
| `BallotGate` | gate.dfy | the token check that opens the ballot, as written and corrected |
| `Election` | election.dfy | nominations, candidates, acceptance tokens, position names |
| `Ballot` | ballot.dfy | selection, vote review and submission |
| `Tally`, `Results`, `Summary` | tally.dfy, results.dfy, summary.dfy | per-position counts, percentages, leaders, statistics, voter list |
| `Admin` | admin.dfy | filtering, status decisions, acceptance tokens, statistics |
| `Login` | login.dfy | credentials, failed-attempt counting and lockout |
| `Records`, `Upload` | records.dfy, upload.dfy | the record handed to the store, JSON validation and saving |
| `FormData`, `Form` | formdata.dfy, form.dfy | collecting the form, section navigation, the list of nominations kept in the browser |

## Model

| member | source | states |
|---|---|---|
| Text.TrimStartFixed | script.js:130 | a value that does not start with white space loses nothing at its start |
| Text.TrimEndFixed | script.js:130 | a value that does not end with white space loses nothing at its end |
| Text.TrimIdempotent | script.js:130 | trimming a trimmed value changes nothing |
| Text.BlankIffAllSpace | script.js:130-133 | a field value is blank after `trim` exactly when every character of it is JavaScript white space |
| Text.EmailTestMatchesPattern | script.js:136-139 | the executable e-mail test accepts exactly the strings `^[^\s@]+@[^\s@]+\.[^\s@]+$` matches |
| Text.ParseToRadix | script.js:478 | the base-36 text of the time parses back to the same number |
| Text.CountWords | script.js:274-275 | the loop counts exactly the maximal runs of non-space characters (`split(/\s+/).filter(Boolean).length`) |
| Text.SkipWord | script.js:274-275 | skipping one word removes exactly one word from what remains |
| Objects.Put | script.js:336-355 | assigning a property sets that key and leaves every other key's value as it was |
| Objects.Remove | script.js:483-487 | `delete` removes the key and keeps every other property |
| Objects.KeepValues | upload-json.js:294-298 | the properties kept are exactly those whose value passes the test, in order |
| Objects.GetKeepValues | upload-json.js:294-298 | reading a key after filtering gives its value when that value passes, nothing otherwise |
| JsValues.OwnProps | upload-json.js:147-155 | `Object.entries` of an object, a string (one property per character) and an array (one per item), empty for the rest |
| Base64.Btoa | ballot-script.js:104 | `btoa` succeeds exactly on Latin-1 text and gives four characters per started group of three |
| Base64.Atob | ballot-script.js:41 | `atob` succeeds exactly when the text, without white space and padding, has a length not 1 modulo 4 and uses only the alphabet |
| Base64.AtobEncode | ballot-script.js:41 | decoding an encoding gives back the original octets |
| Base64.AlnumAtob | ballot-script.js:41 | a purely alphanumeric token decodes exactly when its length is not 1 modulo 4 |
| VoterToken.Token | ballot-script.js:104 | a token holds at most 32 alphanumeric characters and is a prefix of the alphanumeric part of the `btoa` encoding |
| VoterToken.KeepAlnumConcat | ballot-script.js:104 | removing the non-alphanumerics of two pieces laid end to end is done piece by piece |
| VoterToken.CandidateTokens | ballot-script.js:100-110 | a voter has the six per-position tokens plus the one without a position exactly when the text is Latin-1 |
| VoterToken.PositionTextLatin1 | ballot-script.js:104 | inserting a position name does not change whether the text can be encoded |
| VoterToken.ScanVotersComplete | ballot-script.js:99-135 | scanning a roster without aborting finds a voter exactly when one holds the token or one was already found |
| VoterToken.ScanDocsSound | ballot-script.js:92-136 | what the search fills in belongs to a voter of an approved roster who holds the token |
| VoterToken.ScanDocsComplete | ballot-script.js:92-136 | a search that passes over unencodable voters finds a voter exactly when some approved roster lists one holding the token |
| BallotGate.OpenBallotAsWritten | ballot-script.js:29-54 | no token is denied; otherwise the ballot opens exactly when `atob` accepts the token, filled in only with a real holder's details |
| BallotGate.OpenBallot | ballot-script.js:82-143 | the ballot opens exactly for a token a voter of an approved roster holds, filled in with that voter's details |
| BallotGate.OwnTokenOpensBallot | ballot-script.js:100-112 | every token derived from a voter's own roster entry opens the corrected ballot |
| BallotGate.AtobGateDenies | ballot-script.js:39-46 | the page as written denies every alphanumeric token whose length is 1 modulo 4 |
| BallotGate.ChloeIsTurnedAway | ballot-script.js:39-46 | the listed voter `chloé@ru.za` of `UJ` holds a 17-character token that the page as written denies and the corrected gate admits |
| BallotGate.UnknownTokenFailsOpen | ballot-script.js:135-137 | a token no voter holds still opens the page as written, with only an error notice; the corrected gate denies it |
| BallotGate.UnencodableVoterHidesLaterVoters | ballot-script.js:96-142 | one roster address outside Latin-1 stops the search, so a later listed voter is not recognised |
| Election.ToCandidate | ballot-script.js:196-212 | a candidate keeps the nomination's id, position and membership number (a single number or a list), is named `${firstName} ${surname}`, and has the stored vote count, zero when it is missing |
| Election.BallotCandidates | results-script.js:46 | the candidates are exactly the nominations approved by the administrators and accepted by the nominee |
| Election.ApprovedCandidates | summary-script.js:66 | the candidates are exactly the approved nominations |
| Election.BallotCandidatesAreApproved | ballot-script.js:195 | every candidate on the ballot also appears on the summary page |
| Election.MintToken | admin-script.js:20 | an acceptance token starts with the random part and is longer than it |
| Election.MintedTimeReadable | admin-script.js:20 | the part after the random one is base-36 digits that read back as the minting time |
| Election.PositionIndex | admin-script.js:476-486 | the index of a position among the six, or six for an unknown one |
| Election.FormatPositionName | admin-script.js:476-486 | each of the six positions gets the label at its own place in the list, unknown ones are shown unchanged |
| Election.FormatPositionNameLabels | admin-script.js:476-486 | the k-th position is shown with the k-th label |
| Election.FormatPositionNameInjective | admin-script.js:476-486 | two different positions never get the same label |
| Tally.ForPosition | results-script.js:67 | the candidates kept are exactly those standing for the position |
| Tally.Insert | results-script.js:80 | inserting into a list sorted by votes keeps it sorted and adds exactly that candidate |
| Tally.SortByVotes | results-script.js:80 | the sort gives a permutation ordered by descending votes |
| Tally.SortStable | results-script.js:80 | candidates with equal votes keep their query order, as `Array.prototype.sort` is stable |
| Tally.TotalSort | results-script.js:81 | sorting does not change the total |
| Tally.VotesWithinTotal | results-script.js:87 | no candidate has more votes than the total |
| Tally.Percent | results-script.js:87 | the share is `votes / total * 100` rounded half up, 0 when nobody voted and at most 100 |
| Tally.PercentBounds | results-script.js:87 | the rounding is within half a point of the exact share |
| Tally.TallyPosition | results-script.js:60-112 | one position's table: its candidates in the order of the stable most-votes-first sort, their total, each row's rounded share of that total (at most 100, zero when nobody voted) and the leader badge on the first row when it has votes |
| Tally.LeaderHasMostVotes | results-script.js:88 | the candidate marked as leading has at least as many votes as every other row |
| Tally.EmptyPosition | results-script.js:69-78 | a position nobody stands for shows no rows and a zero total |
| Results.ResultsFor | results-script.js:60-112 | the public count of a position holds exactly the approved and accepted nominations for it |
| Summary.SummaryFor | summary-script.js:113-164 | the summary count of a position holds exactly the approved nominations for it, whatever the nominee answered |
| Summary.Stats | summary-script.js:98-111 | the turnout shown is the number of voters, as the placeholder formula computes |
| Summary.SubmitUpdatesStatistics | summary-script.js:98-111 | an accepted ballot adds one voter and as many votes as it has choices; a refused one changes nothing |
| Summary.SubmitKeepsAgreement | ballot-script.js:467-473 | when every counter update succeeds, the summed counters stay equal to the number of choices in the vote records |
| Summary.FilterVoters | summary-script.js:194-222 | the voter list keeps the stored order and shows exactly the voters matching the search and the drop-down; `not-voted` shows nobody |
| Summary.FilterVotersNoCriteria | summary-script.js:194-222 | with no search and no drop-down choice every voter is listed |
| Ballot.OtherPositions | ballot-script.js:288-300 | the lookup throws exactly when the candidate or any candidate on the ballot holds a list of membership numbers; otherwise the other positions listed are exactly those the same person (same trimmed, lower-cased name and organisation) stands for, each once, never the current one |
| Ballot.ListOrganizationBreaksBallot | ballot-script.js:290 | a candidate whose membership number is the list `["A-5566"]` makes the lookup throw |
| Ballot.OtherPositionsFixed | ballot-script.js:288-300 | with a list compared as the text the card shows, the lookup never throws and lists exactly the same person's other positions, each once, never the current one |
| Ballot.OneNumberListSameOrganization | ballot-script.js:290-294 | in the corrected lookup a one-number list is the same organisation as that number |
| Ballot.OtherPositionsFixedAgrees | ballot-script.js:288-300 | where the page does not throw, the corrected lookup lists the same positions |
| Ballot.Select | ballot-script.js:302-320 | a click on an open position's card replaces that position's choice and leaves the others; closed positions ignore clicks |
| Ballot.SelectLastWins | ballot-script.js:317 | two clicks for one position leave the second choice |
| Ballot.Review | ballot-script.js:343-371 | a blank name, e-mail or membership is reported first, then an empty selection; otherwise the voter details are the three trimmed values |
| Ballot.ReviewStable | ballot-script.js:345-347 | reviewing the reviewed details again gives the same details |
| Ballot.ApplyIncrements | ballot-script.js:467-473 | the counter updates stop exactly when some chosen nomination does not exist |
| Ballot.ApplyIncrementsRaises | ballot-script.js:467-473 | when all chosen nominations exist, each counter rises by how often it was chosen and nothing else changes |
| Ballot.ApplyIncrementsStops | ballot-script.js:467-473 | a failed update stops at the first missing nomination after raising the counters of the choices before it |
| Ballot.Submit | ballot-script.js:439-487 | a second ballot from the same address is refused and changes nothing; otherwise the record is stored and the counters raised |
| Ballot.SecondSubmitRefused | ballot-script.js:448-454 | after a submission, the same voter's next submission is refused |
| Ballot.SubmitKeepsOneVotePerEmail | ballot-script.js:448-464 | the store never holds two vote records for one address |
| Admin.Find | admin-script.js:177-184 | the nomination found has the id, and none is found exactly when no nomination has it |
| Admin.EnsureAcceptanceToken | admin-script.js:11-28 | an existing token is returned unchanged; a missing one is minted and stored on that nomination only |
| Admin.EnsureAcceptanceTokenIdempotent | admin-script.js:19 | asking again for the token returns the same token and changes nothing |
| Admin.FilterNominations | admin-script.js:100-125 | the search throws exactly when some nomination reaches a list of membership numbers before a match; otherwise the table keeps the stored order and shows exactly the nominations meeting the search, position and status criteria |
| Admin.FilterNoCriteria | admin-script.js:105-122 | with no criteria every nomination is shown |
| Admin.ListMembershipBreaksSearch | admin-script.js:111 | a nomination whose membership number is the list `["A-5566"]` makes every search throw that its name and job title do not match |
| Admin.FilterNominationsFixed | admin-script.js:100-125 | the corrected filter never throws, keeps the stored order, and finds a nomination by any one of its membership numbers |
| Admin.FilterFixedAgrees | admin-script.js:100-125 | where the page does not throw, the corrected filter shows the same rows |
| Admin.UpdateNominationStatus | admin-script.js:349-382 | without a selection nothing happens; a missing document fails and keeps the detail view open; otherwise the stored copy and the first local copy of that nomination get the new status (the stored one also the time) and the rest is unchanged; then, exactly when refreshing the table throws, the failure is reported and the nomination stays open with its new status, and otherwise the detail view is closed |
| Admin.MarkLocal | admin-script.js:366-369 | the first local nomination with the id gets the new status, every other entry is unchanged, and a missing id changes nothing |
| Admin.RefreshIgnoresStatus | admin-script.js:105-122 | whether refreshing the table throws does not depend on the nominations' statuses |
| Admin.ViewNomination | admin-script.js:177-184 | opening a nomination selects the first local one with that id; an unknown id changes nothing |
| Admin.SecondDecisionIgnored | admin-script.js:499-503 | after a saved decision the detail view is closed, so a second decision at once does nothing |
| Admin.SecondDecisionAfterRefreshFailure | admin-script.js:371-380 | when the refresh threw, the detail view is still open, so a second decision at once is written over the first and its refresh throws again |
| Admin.ListMembershipKeepsDecisionOpen | admin-script.js:371 | a decision on a nomination holding the list `["A-5566"]`, taken while the search text matches neither its name nor its job title, is written to the store but reported as failed, and the nomination stays open |
| Admin.LastDecisionStands | admin-script.js:349-382 | deciding, reopening the nomination from the list and deciding again has the effect of the second decision alone |
| Admin.Statistics | admin-script.js:464-474 | pending, approved, rejected and unknown statuses together count every nomination |
| Admin.StatusPartition | admin-script.js:465-468 | every nomination falls into exactly one of the four status classes |
| Admin.KnownStatusesAddUp | admin-script.js:464-474 | when no status is unknown the three counters add up to the total |
| Admin.StatisticsAppend | admin-script.js:465-468 | one more nomination raises the total and exactly the counter of its status class: pending for a missing, empty or `pending` status, approved, rejected, or none of them for any other status |
| Admin.MissingStatusCountsPending | admin-script.js:466 | a nomination without a status is counted as pending and not as approved or rejected |
| Admin.AcceptanceLabel | admin-script.js:146-149 | the label is the nominee's answer, or `Pending` when there is none |
| Admin.AcceptanceBadge | admin-script.js:300-301 | the green badge is shown exactly for `Accepted`, the red one exactly for `Denied` |
| Admin.MissingAnswerOffersLink | admin-script.js:146-149 | a nominee who has not answered shows as pending and is offered the acceptance link |
| Login.FailedAttempts | login-script.js:83-98 | the count read back is the stored one while it is at most an hour old; an older record is deleted and reads as zero |
| Login.Increment | login-script.js:100-127 | a failure continues the count within the hour and starts again at 1 otherwise; the fifth locks the account for 15 minutes |
| Login.IncrementCountsOneMore | login-script.js:100-127 | apart from the exact one-hour instant, a failure stores one more than the count read back |
| Login.WindowEdge | login-script.js:90-93 | at exactly one hour the count is still read back but the next failure starts again at 1 |
| Login.LockAccount | login-script.js:133-140 | the lockout entry is set, ends exactly 15 minutes from now and is stamped now, so the account is locked now and unlocked after 15 minutes |
| Login.ClearLockout | login-script.js:153-156 | both the count and the lockout are removed; the session is kept |
| Login.CheckLockoutStatus | login-script.js:35-81 | a live lockout shows the remaining minutes and seconds; an expired one is cleared; without a lockout a warning appears exactly when failures are on record within the hour, showing that count and the attempts left out of five |
| Login.ExpiredLockoutClears | login-script.js:66-69 | a lockout that has run out is cleared and nothing is shown |
| Login.QuietAfterAnHour | login-script.js:90-93 | without a lockout, a count more than an hour old is deleted and nothing is shown |
| Login.WarningLeavesAttempts | login-script.js:71-79 | the warning always leaves between one and four attempts |
| Login.CheckKeepsConsistent | login-script.js:35-81 | five or more failures on record always come with a lockout |
| Login.ValidCredentialsIff | login-script.js:179-184 | credentials are valid exactly when the password matches and some allowed address, lower-cased, equals the typed one lower-cased and trimmed |
| Login.CaseDoesNotMatter | login-script.js:180 | the case of the typed address does not matter |
| Login.LeadingSpaceDoesNotMatter | login-script.js:180 | leading white space in the typed address does not matter |
| Login.Fail | login-script.js:224-235 | a failed attempt either leaves between one and four attempts or locks the account, after exactly the fifth failure |
| Login.HandleLogin | login-script.js:186-240 | a locked account refuses whatever is typed; valid credentials clear the counters and open a session; anything else counts a failure |
| Login.RefusedWhateverTyped | login-script.js:189-194 | while locked, the answer does not depend on what was typed |
| Login.LoginKeepsConsistent | login-script.js:186-240 | a login attempt keeps every count of five or more paired with a lockout |
| Login.FailuresCount | login-script.js:100-127 | k failures in a row within the hour leave a count of k and answer with 5 - k attempts left, or the lockout at five |
| Login.FifthFailureLocks | login-script.js:122-124 | the fifth failure in a row locks the account, and any attempt in the next 15 minutes is refused |
| Records.Stamp | upload-json.js:290-292 | the submission time, `pending` status and token are set and every other property is kept |
| Records.Finish | script.js:475-487 | the record handed to the store is a new pending record with the token and holds no file and no `undefined`; every other storable property survives |
| Upload.FilledStringHasVisibleChar | upload-json.js:164-170 | a string field counts as filled exactly when it has a character that is not white space |
| Upload.MissingFromMeans | upload-json.js:129-134 | the missing fields reported are exactly the required fields that are not filled |
| Upload.NothingMissingIff | upload-json.js:129-134 | nothing is reported missing exactly when every required field is filled |
| Upload.CheckEntry | upload-json.js:127-144 | an entry passes its checks exactly when every required field is filled and both addresses are valid |
| Upload.RowProblems | upload-json.js:129-144 | an entry yields problems exactly when it fails, all tagged with its row |
| Upload.NoProblemsIff | upload-json.js:158-161 | the report is empty exactly when every entry passes |
| Upload.ProblemRows | upload-json.js:129-144 | every problem names a row, counted from 1, whose entry fails |
| Upload.Clean | upload-json.js:147-155 | the cleaned entry keeps exactly the own properties that are not `undefined`, functions or files, in order |
| Upload.ValidateEntries | upload-json.js:124-162 | a `null` or `undefined` entry is an error; otherwise each entry is cleaned and the upload is valid exactly when every entry passes and no problem is reported |
| Upload.ValidateFile | upload-json.js:45-65 | unreadable JSON is an error; an array is validated entry by entry (an error exactly when an entry is null or undefined, otherwise one cleaned row per entry and valid exactly when every entry is) and a single object as a list of one |
| Upload.BuildClean | upload-json.js:281-300 | the stored record is a new pending record with the token |
| Upload.BuildCleanDropsFile | upload-json.js:282-283 | the stored record never has a `profilePictureFile` |
| Upload.BuildCleanPicture | upload-json.js:286-288 | a picture is stored exactly when the entry's picture is a `data:` URL, and then unchanged |
| Upload.BuildCleanKeeps | upload-json.js:282-298 | every other property of the entry survives exactly when it is storable |
| Upload.SaveAll | upload-json.js:259-279 | each entry is reported saved exactly when the store added it, with the id and the token of its stored record |
| Upload.SavedCountMatches | upload-json.js:259-279 | the number reported saved is the number the store added |
| FormData.NormalizedIff | script.js:340-341 | a checkbox group's name is the field name without `[]`, and only that name |
| FormData.NonBlankIsTrimmedNonEmpty | script.js:344 | a checkbox value is pushed exactly when it is not empty after `trim` |
| FormData.StepOther | script.js:336-355 | an entry for another name leaves a key's value unchanged |
| FormData.PlainNameCollected | script.js:347-354 | a plain field holds its single value, or the array of all its values in order |
| FormData.GroupCollected | script.js:339-346 | a checkbox group holds the array of its non-blank values in order, once it has any entry |
| FormData.CollectFormData | script.js:330-375 | collecting throws exactly when a checkbox group holds a file; otherwise every field other than the three extras is as the loop collected it |
| FormData.AddExtras | script.js:358-372 | the picture, CV text and CV link are set when given and kept otherwise; nothing else changes |
| FormData.AttachPicture | script.js:389-393 | a chosen file adds its data URL, name and type; no picture leaves the data as it is; nothing else changes |
| FormData.SavedRecord | script.js:464-490 | the saved record is a new pending record with a fresh token and without the file |
| FormData.PictureSaved | script.js:472-487 | a chosen picture reaches the store as its data URL, name and type, and no file does |
| Form.ValidateField | script.js:129-151 | a required blank field fails, an e-mail must match the pattern, a URL must parse, anything else passes |
| Form.ValidateCvBioInputs | script.js:262-287 | the CV/bio passes exactly when text or link is given and the text has at most 100 words |
| Form.ValidateCurrentSection | script.js:83-127 | sections 1 to 3 always pass; the others need every required field valid, section 6 the CV/bio and infrastructure answer, section 5 a nomination type |
| Form.AcceptanceStatus | script.js:309-328 | self-nomination is accepted, a third-party one pending, no choice clears the status, an unknown choice keeps it |
| Form.SelfNominationStands | script.js:309-328 | an approved nomination reaches the ballot exactly when it was a self-nomination, or kept an earlier acceptance |
| Form.ThirdPartyShowsPending | script.js:309-328 | a third-party nomination shows as pending to the administrators and is not on the ballot |
| Form.Next | script.js:67-74 | the form moves forward one section exactly when the current section passes and is not the last; nothing else changes |
| Form.Prev | script.js:76-81 | the form moves back one section exactly when it is not on the first; nothing else changes |
| Form.NextPrevRoundTrip | script.js:67-81 | moving forward then back, or back then forward, returns to the same section |
| Form.InformationSectionsPass | script.js:92-94 | the three information sections always let the form move on |
| Form.ClearForm | script.js:595-608 | clearing returns to section 1 and keeps the list of nominations |
| Form.ShowSummary | script.js:625-664 | the summary view opens with nothing selected |
| Form.StartNew | script.js:610-623 | a new nomination starts at section 1 of the form with nothing selected |
| Form.Collect | script.js:330-394 | collection fails exactly when a checkbox group holds a file or the picture value is truthy but not a file; otherwise the plain names hold what the entries gave, the CV text and link their trimmed values when non-empty, the picture value is the chosen file, and a file adds its data URL, name and type |
| Form.Save | script.js:396-404 | editing replaces exactly the edited nomination; otherwise the new one is appended |
| Form.AddNomination | script.js:377-420 | an invalid section or a failed collection changes nothing; otherwise the nomination is saved and the summary view opens |
| Form.Select | script.js:666-679 | selecting marks that nomination and changes nothing else |
| Form.EditSelected | script.js:681-701 | with a selection the form opens at section 6 editing that nomination; without one nothing happens |
| Form.RemoveSelected | script.js:703-723 | a confirmed removal deletes exactly the selected nomination, keeps the others in order, and returns to the form when the list becomes empty |
| Form.Restore | script.js:914-921 | a reloaded page shows the summary exactly when nominations were saved |
| Form.Apply | script.js:16-50 | every enabled click keeps the page state well formed |
| Form.RunKeepsWellFormed | script.js:16-50 | any sequence of clicks keeps the page state well formed |
| Form.AddThenRemoveRestores | script.js:377-420 | adding a nomination and then removing it gives back the original list |
| Form.EditThenSaveReplacesOnly | script.js:681-701 | editing a nomination and saving replaces that one only and returns to the summary |

## Left out

- `nav.js`, the HTML pages, DOM rendering, notifications, modals and the progress bar: these are presentation only.
- Firestore. Queries are sequences in query order, writes are functions on them, and the store's success or failure is a parameter. Network errors other than a missing document are not modelled.
- The clock, `Math.random`, `FileReader`, the `URL` constructor and `getClientIP` are parameters. `new Date()` is a number. Date formatting (`formatDate`, `toLocaleString`) is left out.
- The copied acceptance and forward links, `encodeURIComponent`, `showForwardOptions`/`showForwardPrompt`, `loadNominationIntoForm`, `populateMembershipTable`, `formatFileSize`, the lockout countdown timer, `togglePasswordVisibility` and the XLSX exports are left out. They render or export and change no election state.
- `submitAllNominations` (script.js:422-453) is left out. It does change the store: it saves the listed nominations one by one through `saveToFirestore` (script.js:435-436, whose single save `FormData.SavedRecord` models), and the first failed save ends the loop with the earlier nominations already stored, no links shown and the list kept. Only the single save is modelled; the loop over the list and its partial failure are not.
- Text: `toLowerCase` is modelled for ASCII letters only; other scripts keep their case.
- `localStorage`: corrupted content and JSON parse errors are left out. Numbers are integers. The insertion order of integer-like keys and prototype properties (`data["constructor"]`) are not modelled. Sparse arrays are not modelled.
- Tally.Percent: computes the exactly rounded share; a floating-point `Math.round` can differ at exact half points.
- Form.AddNomination: requires the edited index to lie within the list. The page keeps it there: `Form.RunKeepsWellFormed` proves the invariant holds after every enabled click.
- Form.EditSelected: requires the selection to be -1 or within the list. It is kept there by the same invariant.
- Form.RemoveSelected: requires the selection to be -1 or within the list. It is kept there by the same invariant.
- Form.Select: requires an index within the list. The summary list only offers such indices.
- Login.HandleLogin: the session stores the lower-cased address without trimming it, as the page does. When a stale lockout is cleared during a failure, the new count is not stored, as in the page.
- Login.Increment: at exactly one hour after the last failure the reader still counts the old failures but the incrementer starts again at 1 (`Login.WindowEdge`). This is stated as the code does it.
- Ballot.Submit: the counter updates are sequential and not transactional; a failure part way leaves the earlier updates in place, as `Ballot.ApplyIncrementsStops` states.
- Ballot.Submit: submissions are applied one after another. The race between the duplicate check and the insert (`getDocs`, then `addDoc`, ballot-script.js:447-464) is not modelled, so two concurrent submissions with one address can both be recorded; `Ballot.SubmitKeepsOneVotePerEmail` holds only for submissions in sequence.
- Election.Membership: a stored membership number is a single string or a list of strings, the two shapes the form and the upload write; other JSON values in that field are not modelled.
- VoterToken.ScanDocs: the search over all rosters runs to the end, and the last match wins, as in the `forEach` loops.

## Findings

| source | as written | input that shows it | evidently intended | confidence | as-written member | corrected member |
|---|---|---|---|---|---|---|
| ballot-script.js:39-46 | the token is checked with `atob` before the roster search, and a failure denies access | the voter `chloé@ru.za` of organisation `UJ` holds the 17-character token `Y2hsblAcnUuemFVSg`; 17 is 1 modulo 4, so `atob` throws | every token derived from a roster entry opens the ballot | not executed | BallotGate.ChloeIsTurnedAway | BallotGate.OpenBallot |
| ballot-script.js:135-137 | a token no voter holds only shows an error, and the ballot stays usable | the token `abcd` with no rosters opens the ballot without voter details | a token no voter holds is denied | not executed | BallotGate.UnknownTokenFailsOpen | BallotGate.OpenBallot |
| ballot-script.js:96-142 | `btoa` throws on a roster address outside Latin-1, and the exception ends the whole search | the roster of `UJ` lists `łukasz@x.pl` before `a@b.co`; Ann's own token is reported as a failed verification | an address that cannot be encoded has no tokens, and the search goes on | not executed | BallotGate.UnencodableVoterHidesLaterVoters | BallotGate.OpenBallot |
| admin-script.js:111 | the search calls `toLowerCase` on the membership number, but the form stores it as a list (`membershipNumber[]`, script.js:789, saved at script.js:488) and so does the upload sample (upload-json.js:230) | a nomination with membership numbers `["A-5566"]` whose name and job title do not contain the search text `x`: the search throws and the table keeps its old rows; a status decision taken meanwhile is written but reported as failed, and the detail view stays open (`Admin.ListMembershipKeepsDecisionOpen`) | a list is searched through its numbers, as the export reads it as a list (admin-script.js:416) | not executed | Admin.ListMembershipBreaksSearch | Admin.FilterNominationsFixed |
| ballot-script.js:290 | the organisation is trimmed, which throws on the list of membership numbers the form stores | an approved, accepted candidate with membership numbers `["A-5566"]`: every card's also-contesting lookup throws, so the candidate cards are not drawn | a list is compared as the text the card shows | not executed | Ballot.ListOrganizationBreaksBallot | Ballot.OtherPositionsFixed |
