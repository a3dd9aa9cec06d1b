# MailTail: a verified model of its mail handling

MailTail accepts test mail over SMTP, keeps it per mailbox, answers with configurable failures and greylisting,
and sends reports about accepted messages from a persistent queue. This project models the parts of it whose
correctness depends on state and on many steps, and proves what they keep over every run.

| area | files |
|---|---|
| outbound report queue and its worker | `OutboundModel`, `OutboundProofs`, `OutboundRuns`, `OutboundLaws`, `OutboundWorker`, `Reports` |
| reading an SMTP DATA block | `DataSpec`, `DataReader`, `DataProofs`, `DataLaws` |
| greylisting | `GreylistModel`, `GreylistProofs`, `GreylistMixed`, `GreylistEngine` |
| MailFail rules and the reports they cause | `MailFailRules`, `MailFailProofs`, `RuleLaws` |
| mailbox policies, recipient ownership, routing | `Policy`, `PolicyLaws`, `Mailboxes`, `MailboxLaws`, `Routing`, `MailStore` |
| the SMTP session | `SessionModel`, `SessionProofs`, `SessionHistory`, `SessionLaws`, `SmtpSession`, `Delivery` |
| retention deadlines | `Mailboxes`, `Retention`, `MailStore` |
| the paged message list and bulk deletion | `Paging`, `CursorCodec`, `MailStore` |
| settings and the lists inside them | `Settings`, `SettingsLists`, `SettingsLaws` |
| shared text, address, time, order and set facts | `Text`, `Address`, `Durations`, `KeyOrder`, `Sets` |

How to read it:

- What a component does is a function (`Handle`, `Respond`, `Scan`, `Step`, `OnCommand`, `ListPage`); the code that works
  by updating state is a class or a loop (`OutboundWorker`, `DataReader`, `GreylistEngine`, `SmtpSession`, `MailStore`)
  whose methods are proved to compute that function. The lemmas are about the function, over all inputs and all runs.
- The modules named `…Laws` say, in numbers and texts and without the functions of the model, what every operation
  accepts, what it changes then, and what it leaves alone.
- What the outside decides is a parameter: the sender's and the database's answers (`Answers`, `Faults`, `Success`), the
  sizes in which bytes arrive, the regular-expression, network and address libraries (`Library`), full-text search.
- Some results hold for any way of reading an address or compiling a rule. They take it as a parameter (`Conventions`,
  `TriggerTest`, `Builder`, `Library.domain`); `CONVENTIONS`, `TRIGGERS` and `BuilderOf` are the program's own, and
  `OwnConventions` and `BuilderIsSound` show that these meet the assumptions.
- Time is an integer number of nanoseconds; the retry times of a worker pass count from its start, and a send begins after the sends before it (`Answers.took`). Rows looked at "in any order" cover the database's order by user name.

Where the code does not do what its documentation or the mail standards suggest, the model follows the code and a lemma
gives the exact condition: `DeliveredOnceIff` (delivery is at most once exactly if the deletion after every delivered send
succeeds; `FailedDeletionDeliversTwice` is an instance), `SweepInvisibleIff` and `MixedClosedForm` (what the greylist sweep
changes), `StuffedDotCounts` and `DotRule` (against RFC 5321), `StepAgrees` (an update that stops half way leaves stale
deadlines), `IntervalExact` (retention of more than 106751 days overflows), `OwnerKept` (a store that changes during an
envelope), `ProbeMisses` and `AmbiguousIff` (mailboxes that share recipients unnoticed; `BobIsAmbiguous` is an
instance). The worker and the SQL throttle read domains differently; `DomainsAgree` and
`ThrottleReaches` say exactly when that matters to the store's own methods, which take any recipient, and
`ReportGoesToPlain` and `ReportsAreThrottled` show that it never matters for the reports the program enqueues.

## Model

| member | source | states |
|---|---|---|
| OutboundProofs.ListingIsSound | internal/storage/sqlite.go:203-233 | the due listing returns each due row at most once, as stored, in (next_attempt, id) order, no more than the limit |
| OutboundProofs.ListingIsFair | internal/storage/sqlite.go:203-233 | a due row left out comes after every row returned, and then the limit is used up |
| OutboundLaws.DefaultLimit | internal/storage/sqlite.go:203-206 | without a positive limit the listing has at most 25 rows |
| OutboundProofs.ThrottleHolds | internal/smtpserver/outbound.go:280-312 | whichever sends and writes fail, after a temporary failure the pass sends nothing more to that domain; exactly the domains that failed are deferred, to the failed message's retry time, which is after now |
| OutboundProofs.PassKeeps | internal/smtpserver/outbound.go:281-324 | whichever writes fail, a row keeps recipient, sender and raw bytes and disappears only if a send of it was delivered |
| OutboundProofs.PassRow | internal/smtpserver/outbound.go:281-324 | whichever sends and writes fail, a pass sends a row at most once, never moves its next attempt earlier, counts exactly a failed send that was saved, with its delay, defers it only for a failed domain of its recipient, and removes it exactly after a delivered send whose deletion succeeds |
| OutboundLaws.PassTimes | internal/smtpserver/outbound.go:281-324 | whatever fails, a pass leaves a row at its time, or moves it exactly to its own retry time after a counted failure, or exactly to the retry time of a message whose temporary failure concerned a domain of its recipient |
| OutboundLaws.WaitingTime | internal/storage/sqlite.go:249-264 | a stored temporary failure puts a waiting message to a plain address of the domain exactly at the failed message's retry time, or leaves it where it is if that is later, and changes nothing else of it |
| OutboundLaws.WithinAnHour | internal/smtpserver/outbound.go:281-355 | no step puts a queued message off by less than a minute or more than an hour from the start of the pass |
| OutboundLaws.ListedIsSent | internal/smtpserver/outbound.go:281-297 | whatever fails, every listed message is sent unless a send to its domain failed temporarily in this pass |
| OutboundLaws.SendsAreAnswered | internal/smtpserver/outbound.go:295-305 | the sends of a pass are of listed messages, to their recipients, with the results and the outcomes of the writes as they were |
| OutboundRuns.Conservation | internal/smtpserver/outbound.go:281-324 | over every run with any failures, a queued message keeps its mail until a delivered send of it, the only way out of the queue |
| OutboundRuns.EveryMessageLives | internal/smtpserver/outbound.go:295-324 | over every run from the empty queue, whatever fails, for every recipient: attempts equals the number of failed sends that were saved, throttle deferrals not counted; the pass of every send begins after the delays, counted from the start of their passes, of all those before it, and the send no earlier than its pass; a message is gone exactly if its last send was delivered and deleted, which no earlier send was |
| OutboundRuns.AttemptsAreFailures | internal/smtpserver/outbound.go:295-324 | if the table was updated after each send of a message: it is queued with attempts equal to the number of its sends, all failed, or gone with its last send, and no other, delivered |
| OutboundRuns.BackoffOverRuns | internal/smtpserver/outbound.go:307-355 | the k-th send of a message, k at least 7, comes at least 63 + 60 (k - 7) minutes after the start of the pass of its first, if the table was updated after the sends before it; nothing is assumed of other messages or writes |
| OutboundRuns.BackoffBetweenSends | internal/smtpserver/outbound.go:280-317 | from send to send, if none takes longer than a limit (30 seconds in the program): the same bound less the 24 sends that the first may have waited for in its batch |
| OutboundModel.RetryDelayBounds | internal/smtpserver/outbound.go:343-355 | every retry delay, also for attempts below one, is at least a minute and at most an hour |
| OutboundLaws.RetryDelays | internal/smtpserver/outbound.go:343-355 | a minute up to the first attempt, doubled for each further one, 32 minutes at the sixth, an hour from the seventh on |
| OutboundRuns.NeverEarlier | internal/storage/sqlite.go:240-264 | no step, whatever of it fails and whoever the recipient is, moves a queued message's next attempt earlier or changes its mail |
| OutboundRuns.NotSentBefore | internal/storage/sqlite.go:203-264 | whatever is enqueued and whatever fails, a message is never sent before its next attempt |
| OutboundRuns.ThrottleOverRuns | internal/smtpserver/outbound.go:303-322 | after a temporary failure whose own reschedule and deferral are stored, every message on whose domain both readings agree and that is still queued after the pass is stored with at least the retry time and is not sent before it, whatever else fails in the pass and whatever is enqueued or fails afterwards |
| OutboundRuns.NoStarvation | internal/smtpserver/outbound.go:272-325 | with successful updates of the handled rows, a due message to any recipient with r messages ahead is sent, or a domain of its recipient fails temporarily, within floor(r/25)+1 passes, however many reports are enqueued meanwhile |
| OutboundRuns.NoStarvationOwnDomain | internal/smtpserver/outbound.go:272-325 | with the program's readings, for every recipient with a domain, plain or not, only failures of that domain count |
| OutboundRuns.ThrottleReaches | internal/storage/sqlite.go:249-264 | for a waiting message that has a domain, whatever else fails: a stored throttle raises it to the retry time exactly when its address is plain or it already waited that long |
| OutboundRuns.DeliveredLeaves | internal/smtpserver/outbound.go:298-305 | in every run, whatever fails, an enqueued message is gone if and only if some send of it was delivered and deleted, and that was its last send |
| OutboundRuns.DeliveredOnceIff | internal/smtpserver/outbound.go:295-305 | after every run, whatever failed in it: every deletion after a delivered send of the message succeeded if and only if, however the run goes on with deletions that succeed, the message is delivered at most once |
| OutboundRuns.FailedDeletionDeliversTwice | internal/smtpserver/outbound.go:298-305 | for every report: enqueued alone and sent by two passes whose deletions fail, it is delivered twice |
| OutboundRuns.OwnConventions | internal/smtpserver/outbound.go:343-355 | the program's own delay and address readings meet the assumptions of the run results: both readings agree exactly on plain addresses and on those without a domain |
| Reports.ReportGoesToPlain | internal/smtpserver/reports.go:129-150 | every report that is built goes to a plain address, at the domain of the original sender, also when a rule gives the local part |
| Reports.ReportRecipientLaw | internal/smtpserver/reports.go:129-150 | the recipient is the original sender, or the rule's local part at the sender's domain, if and only if these are bare US-ASCII addresses and the local part is valid |
| Reports.ReportsAreThrottled | internal/smtpserver/server.go:230-251 | in every run whose reports were built by the program, whatever failed before and whatever else fails, a temporary failure whose own two updates are stored keeps every queued message to that domain unsent until the retry time, without any assumption on addresses |
| OutboundWorker.OutboundRetryDelay | internal/smtpserver/outbound.go:343-355 | the clamped shift computes min(60, 2^(attempts-1)) minutes for every attempt count |
| OutboundWorker.Store.Enqueue | internal/storage/sqlite.go:191-201 | appends one row under a new id, due at once without a time of its own; changes nothing when it fails |
| OutboundWorker.Store.ListDueMessages | internal/storage/sqlite.go:203-233 | the row loop returns exactly the specified listing |
| OutboundWorker.Store.RescheduleMessage | internal/storage/sqlite.go:240-247 | updates attempts and next attempt of that row only |
| OutboundWorker.Store.DeferMessagesForDomain | internal/storage/sqlite.go:249-264 | each other row of the domain that is due earlier gets exactly the retry time, and every other row stays as it is; fails without change on an empty domain |
| OutboundWorker.RecordFailedSend | internal/smtpserver/outbound.go:305-322 | the end of the loop body on the mutable table records a failed send as the functional pass does |
| OutboundWorker.HandleMessage | internal/smtpserver/outbound.go:281-324 | the loop body on the mutable table is one step of the functional pass |
| OutboundWorker.RunOutboundBatch | internal/smtpserver/outbound.go:272-325 | the worker loop on the mutable table ends in the table and the sends of the functional pass |
| Address.DomainsAgree | internal/smtpserver/policy.go:576-586 | for every text, the worker and the SQL throttle read the same if and only if it is plain (a single `@`, something before it, and behind it a text without white space around) or neither reads a domain from it (it has no `@`, or it starts with one and either has no other or only white space behind the last) |
| Address.DomainsDiffer | internal/storage/sqlite.go:249-264 | for `a@b.test@c.test`, and for `@b.test` with a blank in front, they differ |
| RuleLaws.AddressLaw | internal/smtpserver/policy.go:576-586 | for every local part and domain: both readings find the domain, and the rules the local part, in lower case |
| DataReader.ByteReader.ReadSlice | internal/smtpserver/server.go:414-430 | bytes arrive as a whole line, a non-empty fragment of any size, or the end; nothing is lost or invented |
| DataReader.ReadDataLine | internal/smtpserver/server.go:409-432 | for every fragmentation the line, its wire size and the overlong flag are those of the first LF-terminated line; the reader stops right behind it |
| DataReader.ReadDataBlockLimit | internal/smtpserver/server.go:363-407 | for every input, limit and fragmentation, result and unread rest equal the function `Read` of the bytes, of which the following laws hold |
| DataLaws.ReadsWhatIsSent | internal/smtpserver/server.go:363-407 | for all texts without CR and LF, each sent with CR LF or LF alone, then a dot with either line end, then anything: the texts come back, each with CR LF and less one dot if it starts with two, and the rest is left; with a line over 1000 bytes or a total over the limit the right error |
| DataLaws.LongestText | internal/smtpserver/server.go:417-419 | a text of 998 bytes sent with CR LF is accepted, unless it starts with two dots |
| DataLaws.BareReturnStops | internal/smtpserver/server.go:389-391 | a CR inside a line makes the reader give up right behind that line |
| DataLaws.UnendedFails | internal/smtpserver/server.go:368-372 | without a closing dot the read fails, with nothing left |
| DataProofs.ScanIsFramed | internal/smtpserver/server.go:368-399 | a block that ends consists of ordinary lines and the first terminator line, and the rest is untouched |
| DataProofs.FramedIsScanned | internal/smtpserver/server.go:368-399 | conversely every input of that shape is read as exactly that block |
| DataProofs.AcceptedBody | internal/smtpserver/server.go:384-406 | an accepted body is at most the limit and consists of texts without CR or LF, each ended by CRLF |
| DataProofs.RefusedIsDrained | internal/smtpserver/server.go:373-405 | after too-large or line-too-long the reader stands exactly behind the first terminator line |
| DataProofs.RoundTrip | internal/smtpserver/server.go:363-407 | reading a dot-stuffed message and any suffix leaves exactly the suffix, and returns the message if and only if its wire lines and size fit; otherwise the right error |
| DataProofs.StuffedDotCounts | internal/smtpserver/server.go:417-419 | a 998-byte text starting with a dot, legal in section 4.5.3.1.6 of RFC 5321, is refused as overlong |
| DataProofs.DotRule | internal/smtpserver/server.go:384-386 | the code and section 4.5.2 of RFC 5321 treat a line differently if and only if it starts with a single dot |
| GreylistProofs.ClosedForm | internal/smtpserver/mailfail.go:163-217 | in every interleaving of keys, with one shared reset time and any store failures: an attempt whose state was loaded and saved is accepted if and only if its window of such attempts on its own key has more than allowAfter of them and spans minRetryAfter; the others get a server error |
| GreylistMixed.MixedClosedForm | internal/smtpserver/mailfail.go:163-217 | for every mix of compiled rules, every interleaving of keys and any store failures: a stored attempt is accepted if and only if its window has more than allowAfter attempts and spans minRetryAfter, where a window also ends at an attempt on any key, with a successful sweep, that comes at least its own rule's resetAfter after the window's last attempt; the others get a server error |
| GreylistProofs.OnceAccepted | internal/smtpserver/mailfail.go:189-216 | with one shared reset time, whatever store calls fail, an accepted sender's stored retries under the same rule stay accepted until a gap of resetAfter |
| GreylistMixed.OnceAcceptedMixed | internal/smtpserver/mailfail.go:189-216 | for every mix of compiled rules, whatever store calls fail, they stay accepted until an attempt on any key ends the window |
| GreylistProofs.SweepUnobservable | internal/smtpserver/mailfail.go:168-170 | with one shared reset time the cross-key sweep changes no answer of any chronological trace, whichever sweeps, loads and saves fail |
| GreylistProofs.SweepInvisibleIff | internal/smtpserver/mailfail.go:168-200 | over all chronological traces with any store failures, the sweep is unobservable for a set of compiled rules if and only if they share one reset time |
| GreylistProofs.AcceptanceIsEarned | internal/smtpserver/mailfail.go:163-217 | with any mix of rules and any store failures, an acceptance follows at least allowAfter stored attempts on the key and one at least minRetryAfter earlier |
| GreylistEngine.Engine.GreylistResponse | internal/smtpserver/mailfail.go:163-217 | the engine on its mutable table gives the answer and the table of the functional step, for every failure of its store calls |
| GreylistEngine.Engine.DeleteExpired | internal/storage/sqlite.go:853-856 | removes exactly the states last seen at or before the given time |
| GreylistEngine.Engine.Save | internal/storage/sqlite.go:836-846 | inserts or replaces one state, or changes nothing when it fails |
| MailFailProofs.CompiledGreylist | internal/smtpserver/mailfail.go:298-321 | a compiled greylist rule has a positive allowance and reset time, a temporary code and a recipient stage, as the greylist results assume |
| RuleLaws.GreylistLaw | internal/smtpserver/mailfail.go:233-321 | when a greylist rule compiles, and that each of its limits comes from its own field, with a reset time of an hour by default |
| RuleLaws.RejectLaw | internal/smtpserver/mailfail.go:233-297 | when a reject rule compiles, and to what |
| RuleLaws.ReportLaw | internal/smtpserver/mailfail.go:233-297 | when a report rule compiles, and to what |
| RuleLaws.BounceLaw | internal/smtpserver/mailfail.go:322-339 | when a bounce rule compiles, with 550 and 5.0.0 by default |
| RuleLaws.TriggersLaw | internal/smtpserver/mailfail.go:402-438 | an address triggers a rule if and only if one of the parts of its local part between plus signs is the trigger, whatever the case and the blanks around |
| RuleLaws.EnhancedLaw | internal/smtpserver/mailfail.go:328-334 | a permanent enhanced code is a 5 and two numbers of one to three digits |
| RuleLaws.DiagnosticLaw | internal/smtpserver/reports.go:420-430 | a diagnostic of words is valid if and only if, with single blanks between them, it is printable US-ASCII of at most 700 characters |
| RuleLaws.DotAtomMore | internal/smtpserver/mailfail.go:380-385 | a local part is atoms with single dots between them |
| MailFailProofs.CompiledIsReportable | internal/smtpserver/mailfail.go:233-343 | a report request from a compiled rule passes the report builder's checks on feedback type, local part, code, enhanced code and diagnostic |
| MailFailProofs.MatchReports | internal/smtpserver/mailfail.go:98-129 | each recipient gives at most one request, in order, from the first report rule it triggers; the others trigger none |
| MailFailProofs.FindReport | internal/smtpserver/mailfail.go:110-126 | the scan stops at the first report rule of the recipient, or there is none |
| MailFailProofs.ReportsAreBuildable | internal/smtpserver/reports.go:129-185 | no request made from compiled rules is refused by the builder for its rule data |
| MailFailProofs.FirstVerdict | internal/smtpserver/mailfail.go:131-161 | the reply comes from the first triggered rule of the stage that is no report rule; a pass means there is none |
| Policy.ExactOverlap | internal/smtpserver/policy.go:626-651 | for two mailboxes without patterns the configuration probe reports an overlap if and only if they share a domain |
| PolicyLaws.OverlapLaw | internal/smtpserver/policy.go:626-651 | the probe finds an overlap if and only if the two share a domain or the text of a pattern, or a pattern of one matches a domain of the other or its probe address |
| PolicyLaws.MatchesLaw | internal/smtpserver/policy.go:533-556 | whatever its case and the blanks around it, an address is accepted if and only if its domain is listed or a pattern matches address or domain |
| PolicyLaws.MatcherLaw | internal/smtpserver/policy.go:501-531 | a list becomes exactly its plain domains and its patterns, and fails if and only if a pattern does not compile |
| PolicyLaws.BuildLaw | internal/smtpserver/policy.go:161-211 | a mailbox can be built if and only if networks, domains, sender and rules are valid; the policy holds what the settings mean |
| Policy.ExactMatch | internal/smtpserver/policy.go:533-556 | a mailbox without patterns accepts an address if and only if its domain is in its list |
| Policy.ProbeMisses | internal/smtpserver/policy.go:626-651 | a domain and a pattern both accept a recipient unnoticed if and only if it is in the domain and the pattern matches it, but neither the bare domain nor the probe address |
| Policy.ProbeSees | internal/smtpserver/policy.go:626-651 | between a domain and a pattern the probe finds an overlap if and only if the pattern matches the bare domain or the probe address |
| Policy.BobIsUnnoticed | internal/smtpserver/policy.go:626-651 | the domain b.test and the pattern ^bob@ both accept bob@b.test, unnoticed |
| SessionProofs.UnnoticedIsAmbiguous | internal/smtpserver/policy.go:323-353 | an administrator creates two users who restrict nothing but recipients, by any domains and patterns: a recipient is then answered as ambiguous if and only if both accept it and the ownership check did not notice |
| SessionProofs.BobIsAmbiguous | internal/smtpserver/policy.go:323-353 | the fields b.test and ^bob@ are such settings: both users are created, and mail to bob@b.test is refused as ambiguous |
| Policy.BuilderIsSound | internal/smtpserver/policy.go:161-211 | a built policy carries its mailbox's id, lists only plain domains exactly, and reads the same recipients for every id |
| Policy.CompileAll | internal/smtpserver/mailfail.go:50-65 | the engine's rules are the compiled ones in order, and compilation fails only on an invalid rule |
| MailStore.Store.ValidateRecipientOwnership | internal/smtpserver/policy.go:110-159 | succeeds if and only if the candidate builds and overlaps neither the admin mailbox nor any other user |
| MailStore.Store.CreateUser | internal/api/service.go:183-211 | checks and writes as the functional step: refused without change, or a new user with the validated, normalized settings |
| MailStore.Store.UpdateUser | internal/api/service.go:213-254 | checks, then saves, then changes the password, then recalculates; each failure stops there |
| MailStore.Store.UpdateSettings | internal/api/service.go:128-146 | saves a user's validated settings and recalculates the user's deadlines |
| MailStore.Store.UpdateAdminMailboxSettings | internal/api/service.go:159-177 | the same for the admin mailbox |
| MailStore.Store.DeleteUser | internal/storage/sqlite.go:561-592 | removes user, settings and messages together, or nothing |
| MailboxLaws.DeleteUserLaw | internal/storage/sqlite.go:561-592 | exactly the user, the settings and the messages of that owner go; every other one stays as it is |
| MailboxLaws.CreateUserLaw | internal/api/service.go:183-211 | a user is created if and only if name, password, settings and ownership pass and the writes succeed; nothing else changes |
| MailboxLaws.UpdateUserLaw | internal/api/service.go:213-254 | name and settings are saved if and only if the checks pass and the write succeeds; the owner's messages, and no others, are redated if the rest succeeds |
| MailboxLaws.UpdateSettingsLaw | internal/api/service.go:128-146 | the same for a user's own settings |
| MailboxLaws.UpdateAdminLaw | internal/api/service.go:159-177 | the same for the admin mailbox |
| MailboxLaws.DeliverLaw | internal/smtpserver/server.go:263-309 | a delivery adds one message with the deadline of its owner's stored settings, and changes nothing else |
| MailboxLaws.RemovalLaw | internal/storage/sqlite.go:672-682 | removing expired or chosen messages keeps every other message and everything else |
| MailboxLaws.RunsKeepNames | internal/api/service.go:183-254 | after every sequence of calls, user names differ by more than case |
| MailboxLaws.SavedAgain | internal/smtpserver/policy.go:110-159 | in every reached state, stored settings can be saved again: a mailbox does not clash with itself |
| Mailboxes.StepWellFormed | internal/storage/sqlite.go:469-592 | every call keeps ids in use below the next ones and message owners among ids handed out |
| Routing.StepStaysDisjoint | internal/api/service.go:113-254 | every service call, whatever of it fails, keeps the domains of mailboxes without patterns pairwise disjoint |
| Routing.RunsStayDisjoint | internal/api/service.go:113-254 | so does every sequence of calls |
| Routing.StepKeepsPairs | internal/api/service.go:113-254 | every service call, whatever of it fails, keeps every relation between mailboxes that holds wherever the ownership check finds no overlap |
| Routing.RunsStaySeparate | internal/api/service.go:113-254 | so after every sequence of calls the ownership check finds no overlap between any two mailboxes, patterns included |
| Routing.LookupSucceeds | internal/smtpserver/policy.go:376-407 | in every state reached from the empty store by service calls, whatever of them fails, all mailboxes can be built, so that the policy lookup succeeds |
| PolicyLaws.ConfigLaw | internal/smtpserver/policy.go:376-407 | the routable policies are those of users, and of the admin mailbox if something is configured for it, that have recipients; the instance policy applies only if there is neither |
| Routing.CandidatesAreUnnoticed | internal/smtpserver/policy.go:302-321 | in every state reached from the empty store, patterns or not, any two candidates of a recipient are a pair that the ownership check does not notice |
| Routing.OneExactCandidate | internal/smtpserver/policy.go:302-321 | in every state reached from the empty store, at most one mailbox without patterns is a candidate for a recipient |
| Routing.AtMostOneCandidate | internal/smtpserver/policy.go:311-321 | in every such state, if no routable mailbox uses patterns, every recipient has one candidate or none |
| SessionProofs.NeverAmbiguous | internal/smtpserver/policy.go:302-354 | in every such state, if no routable mailbox uses patterns, RCPT is never answered with the lookup failure or as ambiguous, unless a MailFail rule has that very text |
| SessionProofs.AmbiguousIff | internal/smtpserver/policy.go:302-354 | in every such state, patterns or not, RCPT is answered as ambiguous (but for a MailFail rule with that very text) if and only if there are two candidates, and each such pair is one that the ownership check does not notice |
| SessionProofs.AcceptedIsRouted | internal/smtpserver/policy.go:302-354 | a refused recipient changes nothing; an accepted one was routed to the new owner by the very policy that DATA consults |
| SessionLaws.AcceptedIff | internal/smtpserver/policy.go:302-354 | a recipient is accepted if and only if one mailbox alone takes it, which owns the envelope if that has an owner, or nothing is managed and the instance policy takes it, and that policy's first deciding RCPT rule does not answer |
| SessionLaws.ReplyLaw | internal/smtpserver/policy.go:323-353 | which reply a recipient gets: of another owner, of the deciding rule, not allowed, or ambiguous |
| SessionLaws.InstanceReplyLaw | internal/smtpserver/policy.go:302-338 | which reply it gets when nothing is managed, from connection, rules, sender and recipient in this order, and when the lookup fails |
| SessionLaws.RcptLaw | internal/smtpserver/server.go:143-159 | RCPT appends an accepted recipient and sets its owner, and changes nothing otherwise |
| SessionProofs.RoutedToOne | internal/smtpserver/policy.go:302-354 | a recipient is routed to at most one owner and policy |
| SessionProofs.SameOwner | internal/smtpserver/policy.go:339-350 | with the store fixed, a further accepted recipient keeps the envelope's owner |
| SessionProofs.CommandKeepsInv | internal/smtpserver/server.go:105-226 | every command keeps: recipients if and only if owned, all routed to the owner under the current sender, and every stored message with a sender, one owner and a canonical body |
| SessionProofs.EveryConversation | internal/smtpserver/server.go:91-228 | that holds after every sequence of commands, with the store changing only between envelopes |
| SessionProofs.EveryConnection | internal/smtpserver/server.go:75-228 | so it does over every connection from its start |
| SessionProofs.StoredEnvelope | internal/smtpserver/server.go:160-203 | a DATA command stores exactly the owner, sender and recipients collected and the body read, and starts a new envelope |
| SessionLaws.DataLaw | internal/smtpserver/server.go:160-209 | DATA stores the envelope and starts a new one if and only if there are a sender and recipients, no recipient's deciding DATA rule answers, the block is read and the store takes it; a broken block ends the connection, and in all other cases nothing changes |
| SessionLaws.CommandLaw | internal/smtpserver/server.go:105-226 | what MAIL, RSET, QUIT and the commands without effect do to the connection |
| SessionLaws.MailIsStored | internal/smtpserver/server.go:105-209 | after MAIL, any number of recipients that one mailbox alone takes, and DATA, with no rule answering, exactly one message with these recipients is stored for it |
| SessionProofs.OwnerExists | internal/smtpserver/policy.go:232-255 | the owner of a routed recipient is the admin mailbox or a stored user |
| Delivery.EnvelopeBecomesRow | internal/smtpserver/server.go:263-309 | what a DATA command hands over becomes one new row with the session's sender and recipients, each routed to the row's owner, and with the deadline of that owner's current settings; no other row changes |
| SessionProofs.OwnerKept | internal/smtpserver/policy.go:323-350 | an accepted recipient keeps the owner if and only if it does not fall back to the instance policy while a user owns the envelope |
| SessionProofs.OwnerLost | internal/smtpserver/policy.go:324-338 | if the last mailbox disappears during an envelope, the next recipient moves it to owner 0 |
| SessionHistory.AnyConnection | internal/smtpserver/server.go:75-228 | over every connection, with the store changing at any time: each recipient of the open envelope and of every stored message was routed, when it was offered, to the owner it has now, unless that is 0 and a later recipient of the envelope fell back to the instance policy; a message stored for a user had all its recipients routed to that user |
| SessionHistory.DeletionOverwrites | internal/smtpserver/policy.go:323-350 | a user is deleted between two RCPT commands: the second recipient turns the envelope over to owner 0 |
| SmtpSession.CollectCandidates | internal/smtpserver/policy.go:311-321 | the loop finds exactly the candidate mailboxes, in whatever order it looks |
| SmtpSession.Handler.OfferRecipient | internal/smtpserver/policy.go:302-354 | updates the owner fields and replies as the functional step |
| SmtpSession.Handler.ReceiveData | internal/smtpserver/server.go:160-203 | reads the message only when DATA is accepted and leaves the reader behind it |
| SmtpSession.Handler.Handle | internal/smtpserver/server.go:105-226 | one turn of the command loop on the session's fields is one functional step |
| Retention.StepAgrees | internal/api/service.go:113-254 | a call keeps every stored deadline equal to the owner's current setting if and only if it does not stop between saving a setting that matters and recalculating |
| Retention.RunsAgree | internal/smtpserver/server.go:283-303 | over every sequence of calls that finish, deadlines agree with settings |
| Retention.RetentionPass | internal/storage/sqlite.go:672-682 | a pass removes exactly the messages whose owner's current settings put the deadline at or before now |
| Retention.IntervalExact | internal/storage/sqlite.go:684-734 | the 64-bit interval is exact if and only if it is at most 106751 days |
| Retention.IntervalWraps | internal/storage/sqlite.go:684-734 | the interval is the signed 64-bit value of the days in nanoseconds |
| Retention.IntervalOverflows | internal/smtpserver/server.go:290-292 | from 106752 to 213503 days a message is past its deadline on arrival |
| MailStore.Store.RecalculateMessageExpirations | internal/storage/sqlite.go:684-733 | gives every message of the owner, and no other, its new deadline, or changes nothing |
| MailStore.Store.PersistMessage | internal/smtpserver/server.go:263-309 | stores the message with its owner, recipients and the deadline of the owner's settings |
| MailStore.Store.DeleteExpiredMessages | internal/storage/sqlite.go:672-682 | removes exactly the messages with a deadline at or before now |
| Paging.WalkSound | internal/storage/sqlite.go:895-942 | whatever changes between fetches, the pages together are strictly descending and list only messages that were there and wanted |
| Paging.WalkComplete | internal/storage/sqlite.go:895-942 | whatever is inserted or deleted between fetches, a message wanted throughout is listed once the end is reached |
| Paging.WalkEnds | internal/storage/sqlite.go:907-942 | on a fixed table the end is reached if and only if there is a fetch and the fetches have room for all keys |
| Paging.WalkIsSortedList | internal/storage/sqlite.go:858-948 | on a fixed table the concatenated pages are the sorted list of the wanted messages |
| Paging.DeletesWhatIsListed | internal/storage/sqlite.go:1090-1126 | bulk deletion removes exactly what paging to the end with the same query, tag and principal lists, and leaves the rest unchanged |
| MailStore.Store.ListMessages | internal/storage/sqlite.go:858-948 | the row loop with one row of look-ahead returns the specified page and cursor |
| MailStore.Store.DeleteAllMessages | internal/storage/sqlite.go:1090-1126 | removes exactly the principal's messages, or for an administrator all, that have the tag, trimmed and in lower case, unless it is blank, and that the query finds unless it is blank |
| MailStore.Store.ListFor | internal/api/service.go:36-52 | the principal's list: the filter comes from the request, and only messages that the principal wants are returned |
| Paging.PageLaw | internal/storage/sqlite.go:858-948 | a page lists, newest first, exactly messages of the principal (or any for an administrator) with the tag and the query, none left out before its cursor, and as many as the limit, 25 by default |
| Paging.NextPageLaw | internal/storage/sqlite.go:936-942 | there is a next page if and only if there are more wanted messages than the limit |
| CursorCodec.CursorRoundTrip | internal/storage/sqlite.go:1432-1458 | a cursor decodes to the key it was made from if and only if its time text is a time and holds no bar |
| CursorCodec.DecodeLaw | internal/storage/sqlite.go:1436-1458 | a text is split at its first bar into a time and a number, and refused if there is no bar, either is missing, or one does not parse |
| CursorCodec.ParseIntLaw | internal/storage/sqlite.go:1452-1456 | the number may have a sign; beyond 64 bits, or with another character behind it, it is refused |
| SettingsLists.SettingsRoundTrip | internal/runtimeconfig/runtimeconfig.go:65-105 | for every string, the policy's comma-only splitter reads from the normalized value exactly the items of the original |
| SettingsLists.NormalizeIdempotent | internal/runtimeconfig/runtimeconfig.go:103-105 | normalizing a list twice is normalizing it once |
| SettingsLists.LineEndMatters | internal/smtpserver/policy.go:653-668 | without normalization a line end would end up inside a policy item |
| SettingsLaws.CSVListLaw | internal/runtimeconfig/runtimeconfig.go:65-82 | for all texts between commas and line ends, the items are these texts, trimmed, in order, less the blank ones |
| SettingsLaws.PolicyListLaw | internal/smtpserver/policy.go:653-668 | the same for the policy's splitter and commas alone |
| SettingsLaws.NormalizeLaw | internal/runtimeconfig/runtimeconfig.go:90-118 | normalization keeps the items of every list and all other fields, and makes no retention time negative |
| SettingsLaws.NormalizeRuleKeeps | internal/runtimeconfig/runtimeconfig.go:120-160 | stage, message, feedback type and local part of a rule are kept exactly for the actions that have them |
| SettingsLists.CSVListLoop | internal/runtimeconfig/runtimeconfig.go:65-82 | the splitting loop returns the specified items |
| SettingsLists.PolicyListLoop | internal/smtpserver/policy.go:653-668 | so does the policy's |
| Settings.SettingsIdempotent | internal/runtimeconfig/runtimeconfig.go:90-160 | normalizing settings, rules included, is idempotent |
| KeyOrder.SortAscending | internal/storage/sqlite.go:211 | the database's ORDER BY next_attempt, id |
| KeyOrder.SortDescending | internal/storage/sqlite.go:907 | the database's ORDER BY received_at DESC, id DESC |

## Left out

- Sockets, TLS, MX lookup, the SMTP client dialogue, HTTP handlers, authentication, logging: a send is a result (delivered, temporary, permanent), a command arrives parsed.
- The concrete syntax of MAIL and RCPT arguments: commands carry the extracted address or a syntax error.
- Timestamp text: times are integers. RFC3339Nano text drops trailing zeros, so its order is not always chronological within a second; the queue, retention and greylist results assume that it is. Paging needs only some total order.
- The julianday comparison of the domain deferral is exact here; SQLite compares with about a millisecond's precision.
- Lower-casing is ASCII; Go's is Unicode. Addresses of reports are checked to be ASCII before they are queued.
- Regular expressions, IP networks, mail address parsing, duration parsing, full-text search and base64 are parameters or left out; the two fixed syntax patterns of the rules are written out.
- Last-error texts of queued reports, message tags beyond their use as a filter, attachments, MIME parsing and the rendering of reports: no state depends on them.
- The greylist key's text: keys are arbitrary strings.
- Concurrent overlap of a service call with another or with a delivery: each call and each SMTP command is atomic.
- A settings update by a user who does not exist is refused in the model; in the program the login session guarantees that the user exists.
- Completeness of the overlap probe for patterns: it is not complete (`ProbeMisses`), so disjointness is claimed for mailboxes without patterns.
- GreylistProofs.ClosedForm: in terms of the key's own attempts only for rules with one shared reset time, because otherwise the sweep is observable (`SweepInvisibleIff`); `MixedClosedForm` covers every mix.
- OutboundRuns.NoStarvation: assumes successful updates of the handled rows and a readable queue, since a row whose update fails keeps its place.
- Reports.ReportGoesToPlain: assumes of the address parser (`ParsesAddresses`) that a US-ASCII text that parses to itself is a bare address in the sense of section 3.4.1 of RFC 5322, with a single `@` and no white space.
- SessionProofs.EveryConversation: the store is fixed while an envelope is open, because otherwise the owner can be overwritten (`OwnerKept`, `DeletionOverwrites`); `SessionHistory.AnyConversation` is what holds when it is not.
- A connection that breaks or whose replies cannot be sent: it ends there, and what holds after every sequence of commands holds then.
