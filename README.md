# NetMailArchiver, modelled in Dafny

NetMailArchiver copies the mail of configured IMAP accounts into a PostgreSQL
database and shows it in a web page. This project models its core:

- **The archive runs of `ImapService`** (`imap_service.dfy`, with the
  value-level parts in `archive_spec.dfy`). `ArchiveNewMails` takes the
  account's lock, lists the mail delivered since the newest stored Email
  (everything when none is stored), maps each fetched message to an `Email`,
  queues those whose Message-ID is non-null and not yet stored, saves them in
  batches of 10 and reports a percentage after every uid and 100 at the end.
  `ArchiveAllMails` does the same over the whole inbox without the lock. The
  loop is one method, `ArchiveListed`, proved against the specification
  function `ListedRun`; the properties of a run are lemmas about `ListedRun`.
- **`ArchiveLockService`** (`archive_lock.dfy`): one single-permit semaphore
  per account, created on first use; the returned handle gives the permit back
  on its first `Dispose` only.
- **`ArchiveProgressService`** (`archive_progress.dfy`): the two dictionaries
  of per-account progress and active jobs.
- **The archive page's mail listing** (`archive_paging.dfy`): `OnGetMails`
  filters by account, orders newest first and cuts a page, with a
  `hasMorePages` flag. It is modelled twice: with the int products as written
  (they wrap) and without overflow.
- **Two checks of the site script** (`site_validation.dfy`): the e-mail field
  pattern and the 10 MiB upload limit.

The shared entities (`Email`, `Attachment`, `ImapInformation`) are in
`mail_model.dfy`. A .NET `Guid` is a natural number, a `DateTime` a tick count,
and `DateTime.MinValue` is 0.

The connection, the mailbox, the database and the progress sink become state
and parameters:
- the IMAP client is a pair of flags;
- the inbox is a listing of (uid, delivery date, fetch result) entries;
- the database context is an object holding the Emails table;
- the reports are returned as a sequence;
- the cancellation token is the first loop head at which it reads as
  requested, plus whether it was already cancelled at the lock wait.

Behaviour of the code that the model keeps:
- A message whose fetch fails ends the run. There is no per-message skip or
  retry. Batches already saved stay stored; the pending batch is lost and no
  final 100 is reported.
- The list of known Message-IDs is loaded once at run start and not extended
  during the run. A non-null Message-ID that is new at run start and appears
  twice in one listing is queued twice (`ArchiveSpec.SameNewIdQueuedTwice`);
  both copies are stored when the run gets past the second one.
- `ArchiveAllMails` takes no lock.
- An empty listing still reports 100.

## Model

| member | source | states |
|---|---|---|
| ArchiveSpec.ToAttachment | NetMailArchiver.Controllers/ImapService.cs:92-97 | the attachment keeps the part's file name, MIME type and decoded content; its size is the Content-Disposition size, or 0 when the part declares none |
| ArchiveSpec.ToAttachments | NetMailArchiver.Controllers/ImapService.cs:91-97 | one Attachment per leaf MIME part, in order: the part at index j is converted and stored at the position given by the number of leaf parts before it; attached messages are dropped and leave no gap |
| ArchiveSpec.ToEmail | NetMailArchiver.Controllers/ImapService.cs:81-99 | the Email keeps the message's Message-ID and date and belongs to the account; Cc and Bcc are always stored, as "" for a message without such a header; its attachments are the message's leaf MIME parts, in order |
| ArchiveSpec.Search | NetMailArchiver.Controllers/ImapService.cs:66 | a search lists no more uids than the mailbox holds |
| ArchiveSpec.SearchSelects | NetMailArchiver.Controllers/ImapService.cs:66 | a uid is listed exactly when it is in the mailbox and matches the query |
| ArchiveSpec.SearchAllListsEverything | NetMailArchiver.Controllers/ImapService.cs:143 | `SearchQuery.All` lists the whole mailbox in order |
| ArchiveSpec.DeliveredAfterIsComplete | NetMailArchiver.Controllers/ImapService.cs:66 | every message delivered at or after the watermark is listed again, so the incremental run misses nothing newer |
| ArchiveSpec.Watermark | NetMailArchiver.Controllers/ImapService.cs:57-61 | the newest-date value bounds every stored date of the account |
| ArchiveSpec.WatermarkIsNewest | NetMailArchiver.Controllers/ImapService.cs:57-61 | the watermark is at least every stored date of the account and, unless it is MinValue, is one of them |
| ArchiveSpec.NewMailQuery | NetMailArchiver.Controllers/ImapService.cs:66 | the query is `All` exactly when no stored Email of the account is dated after DateTime.MinValue; otherwise it is SINCE the watermark, which no stored Email of the account is newer than |
| ArchiveSpec.NewMailQueryCases | NetMailArchiver.Controllers/ImapService.cs:66 | an account with no stored mail gets `All`; an account with a stored Email dated after DateTime.MinValue gets a SINCE query at a date that a stored Email of the account carries and none exceeds: the newest stored date |
| ArchiveSpec.Known | NetMailArchiver.Controllers/ImapService.cs:52-55 | the loaded Message-ID list has at most one entry per stored Email |
| ArchiveSpec.IsNew | NetMailArchiver.Controllers/ImapService.cs:103 | a message is new exactly when its Message-ID is non-null and equals none of the loaded ids |
| ArchiveSpec.Enqueue | NetMailArchiver.Controllers/ImapService.cs:79-106 | one uid adds at most one Email to the queue, always a new Email of the account, and adds it whenever the fetched message is new |
| ArchiveSpec.Queued | NetMailArchiver.Controllers/ImapService.cs:101-106 | at most one Email is queued per listed uid |
| ArchiveSpec.QueuedAreNew | NetMailArchiver.Controllers/ImapService.cs:103-106 | every queued Email belongs to the account, has a non-null Message-ID and that ID was not stored |
| ArchiveSpec.QueuedStep | NetMailArchiver.Controllers/ImapService.cs:72-106 | processing one more uid appends exactly that uid's contribution to the queue |
| ArchiveSpec.QueuedContains | NetMailArchiver.Controllers/ImapService.cs:103-106 | every fetched message with a new Message-ID is queued |
| ArchiveSpec.KnownAppend | NetMailArchiver.Controllers/ImapService.cs:52-55 | the known-ID list of a grown store is the old list followed by the new IDs |
| ArchiveSpec.KnownIsStoredIds | NetMailArchiver.Controllers/ImapService.cs:52-55 | an id is in the loaded list exactly when a stored Email of the account carries it |
| ArchiveSpec.UnstoredMessageQueued | NetMailArchiver.Controllers/ImapService.cs:103-106 | a fetched message whose non-null Message-ID no stored Email of the account carries is queued |
| ArchiveSpec.QueuedIdsFromListing | NetMailArchiver.Controllers/ImapService.cs:79-106 | every queued Message-ID comes from a fetched message of the listing |
| ArchiveSpec.QueuedAsOftenAsListed | NetMailArchiver.Controllers/ImapService.cs:103-106 | the known list is not extended during a run: a Message-ID new at run start is queued exactly as many times as fetched messages of the listing carry it |
| ArchiveSpec.SameNewIdQueuedTwice | NetMailArchiver.Controllers/ImapService.cs:103-106 | two messages anywhere in a listing with the same new Message-ID are both queued: the queue holds that Message-ID at least twice |
| ArchiveSpec.RunKeepsIdsUnique | NetMailArchiver.Controllers/ImapService.cs:103-106 | when stored IDs are distinct and the listing repeats no Message-ID, the IDs stay distinct after the run |
| ArchiveSpec.QueuedEmptyWhenAllKnown | NetMailArchiver.Controllers/ImapService.cs:103-106 | when every fetched non-null Message-ID is known, nothing is queued |
| ArchiveSpec.RepeatedRunQueuesNothing | NetMailArchiver.Controllers/ImapService.cs:103-106 | after the queue of a listing is stored, the same listing queues nothing |
| ArchiveSpec.Batches | NetMailArchiver.Controllers/ImapService.cs:108-123 | the saved batches concatenate to the queue; each holds 1 to 10 Emails and all but the last hold exactly 10 |
| ArchiveSpec.BatchesAppend | NetMailArchiver.Controllers/ImapService.cs:108-113 | saving one more batch after whole batches adds exactly that batch |
| ArchiveSpec.RoundHalfEven | NetMailArchiver.Controllers/ImapService.cs:115 | `Math.Round`: the result times the divisor lies within half the divisor of the dividend, and an exact tie goes to the even result |
| ArchiveSpec.Percent | NetMailArchiver.Controllers/ImapService.cs:115 | the percentage after k of n uids is at most 100, 0 for none and 100 for all |
| ArchiveSpec.RoundMonotone | NetMailArchiver.Controllers/ImapService.cs:115 | rounding to nearest, ties to even, never decreases as the dividend grows |
| ArchiveSpec.PercentBoundsAndMonotone | NetMailArchiver.Controllers/ImapService.cs:115 | the percentage never decreases as more uids are processed, is at most 100 and is 100 after the last uid |
| ArchiveSpec.Progress | NetMailArchiver.Controllers/ImapService.cs:115-116 | one report per processed uid |
| ArchiveSpec.ProgressAt | NetMailArchiver.Controllers/ImapService.cs:115-116 | the report after the i-th uid is the rounded percentage of i + 1 out of the listing size |
| ArchiveSpec.ProgressMonotone | NetMailArchiver.Controllers/ImapService.cs:115-116 | the per-uid reports lie in 0..100 and never decrease |
| ArchiveSpec.ReportsMonotone | NetMailArchiver.Controllers/ImapService.cs:115-125 | with the final 100 the reports still lie in 0..100, never decrease and end at 100 |
| ArchiveLock.ArchiveLockService.constructor | NetMailArchiver.Controllers/ArchiveLockService.cs:7 | a new service holds no semaphores |
| ArchiveLock.ArchiveLockService.Permits | NetMailArchiver.Controllers/ArchiveLockService.cs:11 | an account's semaphore never has more than one permit; one not yet created would have one |
| ArchiveLock.ArchiveLockService.AcquireLock | NetMailArchiver.Controllers/ArchiveLockService.cs:9-15 | the semaphore is created with one permit on first use; a cancelled token takes nothing; a free permit is taken and a fresh handle for the account is returned; a held permit leaves the caller waiting |
| ArchiveLock.Release.constructor | NetMailArchiver.Controllers/ArchiveLockService.cs:17-19 | a new handle is undisposed and tied to its service and account |
| ArchiveLock.Release.Dispose | NetMailArchiver.Controllers/ArchiveLockService.cs:21-26 | the first Dispose gives the permit back; later calls change nothing; the permit count never exceeds one |
| ImapServiceModel.Stop | NetMailArchiver.Controllers/ImapService.cs:72-77 | the loop passes every loop head before the first one at which cancellation is seen |
| ImapServiceModel.FirstFetchError | NetMailArchiver.Controllers/ImapService.cs:79 | the index returned is a failing fetch, or the stop point |
| ImapServiceModel.FetchedBeforeFirstError | NetMailArchiver.Controllers/ImapService.cs:79 | every uid before the first failing one was fetched |
| ImapServiceModel.FirstFetchErrorStays | NetMailArchiver.Controllers/ImapService.cs:79 | a failure after only successful fetches stays the first failure however far the loop may go |
| ImapServiceModel.ListedRun | NetMailArchiver.Controllers/ImapService.cs:68-125 | a run either completes, with one report per uid it reached plus the final 100, or fails with a fetch error before the stop point, having made fewer reports than that |
| ImapServiceModel.FailedRunNamesFirstFailure | NetMailArchiver.Controllers/ImapService.cs:72-116 | a failed run names the first failing uid before the stop point; it made one report per uid before that one, and each of those was fetched |
| ImapServiceModel.ImapService.constructor | NetMailArchiver.Controllers/ImapService.cs:12-14 | the service keeps its lock service, account, context and client state |
| ImapServiceModel.ImapService.IsConnectedAndAuthenticated | NetMailArchiver.Controllers/ImapService.cs:37-40 | ready exactly when the client is both connected and authenticated; once the lock is held (`ArchiveNewMails`) or at once (`ArchiveAllMails`), both runs fail with NotConnectedOrAuthenticated otherwise |
| ImapServiceModel.ImapService.ArchiveNewMails | NetMailArchiver.Controllers/ImapService.cs:42-126 | a cancelled wait fails and a held lock waits, each with no effect; otherwise the connection and context checks fail with their errors; else the run has the effect `ListedRun` gives for the incremental listing and the known IDs at run start; on every exit the account's permit count is what it was before the call (one for a semaphore created by this call) |
| ImapServiceModel.ImapService.ArchiveAllMails | NetMailArchiver.Controllers/ImapService.cs:128-203 | the connection and context checks fail with no effect; otherwise the run has the effect `ListedRun` gives for the whole inbox |
| ImapServiceModel.ImapService.ArchiveFetched | NetMailArchiver.Controllers/ImapService.cs:79-116 | one fetched uid moves the loop state from i to i + 1, and the table stays the old rows plus the saved Emails |
| ImapServiceModel.ImapService.ArchiveListed | NetMailArchiver.Controllers/ImapService.cs:68-125 | the loop's outcome, appended rows, reports and saved batches are exactly those of `ListedRun` |
| ImapServiceModel.ImapService.FinishRun | NetMailArchiver.Controllers/ImapService.cs:118-125 | after a loop that reached the stop point without a failed fetch, the pending batch is saved as the last batch and 100 is reported: the outcome, rows, reports and batches are those of `ListedRun` |
| ImapServiceModel.ArchiveStep | NetMailArchiver.Controllers/ImapService.cs:101-116 | queueing, saving a full batch and reporting one uid keep the loop state |
| ImapServiceModel.RunFailsAt | NetMailArchiver.Controllers/ImapService.cs:79 | when the fetch at i fails first, the run fails with that uid, with the saved Emails and the reports so far |
| ImapServiceModel.RunCompletes | NetMailArchiver.Controllers/ImapService.cs:117-125 | when every reached fetch succeeds, the pending batch is saved last and 100 is reported |
| ImapServiceModel.QueuedPrefix | NetMailArchiver.Controllers/ImapService.cs:72-106 | the queue over a prefix of the listing is a prefix of the queue over all of it |
| ImapServiceModel.RunStoresQueuedPrefix | NetMailArchiver.Controllers/ImapService.cs:68-125 | a run stores, in listing order, a prefix of the Emails queued over the uids it reached; all of them when it completes; whole batches only when a fetch fails; each stored Email is new and of the account |
| ImapServiceModel.RunReportsMonotone | NetMailArchiver.Controllers/ImapService.cs:115-125 | a run's reports lie in 0..100 and never decrease; a completed run's last report is 100 |
| ImapServiceModel.CancelledBeforeFirstFetch | NetMailArchiver.Controllers/ImapService.cs:72-77 | cancellation at the first loop head stores nothing and reports only 100 |
| ImapServiceModel.RepeatedFullRunStoresNothing | NetMailArchiver.Controllers/ImapService.cs:128-203 | after a run that reached every uid and completed, a run over the same listing stores nothing |
| ImapServiceModel.BatchCount | NetMailArchiver.Controllers/ImapService.cs:108-123 | a queue of q Emails is saved in ceil(q / 10) batches |
| ArchiveProgress.ArchiveProgressService.constructor | NetMailArchiver.Controllers/ArchiveProgressService.cs:17-18 | both dictionaries start empty |
| ArchiveProgress.ArchiveProgressService.SetProgress | NetMailArchiver.Controllers/ArchiveProgressService.cs:20-23 | the account's value becomes the given one; other accounts and the active jobs are unchanged |
| ArchiveProgress.ArchiveProgressService.GetProgress | NetMailArchiver.Controllers/ArchiveProgressService.cs:25-28 | the stored value, or 0 for an account without one |
| ArchiveProgress.ArchiveProgressService.RemoveProgress | NetMailArchiver.Controllers/ArchiveProgressService.cs:30-34 | the account leaves both dictionaries, a missing entry being no error; its progress reads 0 and it leaves the active set |
| ArchiveProgress.ArchiveProgressService.IsJobRunning | NetMailArchiver.Controllers/ArchiveProgressService.cs:36-39 | a job runs only when it has an entry; since only true is stored, exactly when it has one |
| ArchiveProgress.ArchiveProgressService.SetJobRunning | NetMailArchiver.Controllers/ArchiveProgressService.cs:41-51 | true stores the entry and false removes it; the job then runs exactly when true was passed; progress is unchanged |
| ArchiveProgress.ArchiveProgressService.GetActiveJobs | NetMailArchiver.Controllers/ArchiveProgressService.cs:53-56 | an id is listed exactly when its job is running |
| ArchiveProgress.ArchiveProgressService.ActiveJobsAreKeys | NetMailArchiver.Controllers/ArchiveProgressService.cs:41-56 | since only true is ever stored, the active jobs are all keys of the dictionary |
| ArchivePaging.Wrap32 | NetMailArchiver.Web/Pages/Archive/Index.cshtml.cs:35 | an unchecked int product lands in int's range, differs from the true product by a multiple of 2^32, and equals it when that fits |
| ArchivePaging.OnGetMails | NetMailArchiver.Web/Pages/Archive/Index.cshtml.cs:28-50 | without overflow, only a negative page size is refused, and a page never holds more than pageSize Emails |
| ArchivePaging.OnGetMailsAsWritten | NetMailArchiver.Web/Pages/Archive/Index.cshtml.cs:28-50 | as written, a negative page size is refused and a page never holds more than pageSize Emails; a wrapped offset is refused too (see Findings) |
| ArchivePaging.OfAccount | NetMailArchiver.Web/Pages/Archive/Index.cshtml.cs:32 | the filter keeps no more Emails than the table holds |
| ArchivePaging.OfAccountSelects | NetMailArchiver.Web/Pages/Archive/Index.cshtml.cs:32 | an Email is kept exactly when it belongs to the requested account |
| ArchivePaging.SortByDateDesc | NetMailArchiver.Web/Pages/Archive/Index.cshtml.cs:34 | ordering keeps the number of Emails |
| ArchivePaging.SortByDateDescSorts | NetMailArchiver.Web/Pages/Archive/Index.cshtml.cs:34 | the result is newest first and a permutation of the input |
| ArchivePaging.OrderedMembers | NetMailArchiver.Web/Pages/Archive/Index.cshtml.cs:32-34 | every ordered Email is a table row of the account |
| ArchivePaging.SkipTakeIsSlice | NetMailArchiver.Web/Pages/Archive/Index.cshtml.cs:35-36 | Skip then Take is the slice from the offset, at most the page size long |
| ArchivePaging.ClampPage | NetMailArchiver.Web/Pages/Archive/Index.cshtml.cs:30 | the page is at least 1 and unchanged when already at least 1 |
| ArchivePaging.PageBelowOneIsFirst | NetMailArchiver.Web/Pages/Archive/Index.cshtml.cs:30 | a page below 1 answers exactly like page 1 |
| ArchivePaging.RejectedOnlyForNegativeSize | NetMailArchiver.Web/Pages/Archive/Index.cshtml.cs:35-36 | the query is refused exactly when the page size is negative |
| ArchivePaging.PageIsSliceOfOrdered | NetMailArchiver.Web/Pages/Archive/Index.cshtml.cs:32-36 | a page is the slice of the ordered account mail starting at (page - 1) * pageSize |
| ArchivePaging.PageNewestFirstOfAccount | NetMailArchiver.Web/Pages/Archive/Index.cshtml.cs:32-36 | a page holds at most pageSize Emails, all of the account, newest first |
| ArchivePaging.HasMorePagesIffNextPageNonEmpty | NetMailArchiver.Web/Pages/Archive/Index.cshtml.cs:46-47 | for a positive page size, hasMorePages is true exactly when the next page is not empty |
| ArchivePaging.OnGetMailsListsPageOf | NetMailArchiver.Web/Pages/Archive/Index.cshtml.cs:33-36 | for page k and a page size that is not negative, the Emails listed are page k of the account's ordered Emails |
| ArchivePaging.PagesEndIsProduct | NetMailArchiver.Web/Pages/Archive/Index.cshtml.cs:35 | the first k pages end at k * pageSize, or at the end of the list |
| ArchivePaging.PageBounds | NetMailArchiver.Web/Pages/Archive/Index.cshtml.cs:35-36 | page k is the slice between where pages 1..k-1 end and where pages 1..k end |
| ArchivePaging.PagesFormPrefix | NetMailArchiver.Web/Pages/Archive/Index.cshtml.cs:35-36 | pages 1..k, concatenated, are the first k * pageSize Emails of the list (all of it once that reaches its length), with no gap or overlap |
| ArchivePaging.AsWrittenAgreesWithoutOverflow | NetMailArchiver.Web/Pages/Archive/Index.cshtml.cs:35-47 | while both products fit in an int, the code as written answers like the overflow-free definition |
| ArchivePaging.HasMorePagesAfterOverflow | NetMailArchiver.Web/Pages/Archive/Index.cshtml.cs:47 | page 214748365 of size 10 is empty, yet as written hasMorePages is true |
| ArchivePaging.OffsetOverflowRejected | NetMailArchiver.Web/Pages/Archive/Index.cshtml.cs:35 | page 214748366 of size 10: as written the offset wraps negative and the query is refused |
| SiteValidation.IsValidEmail | NetMailArchiver.Web/wwwroot/js/site.js:194 | the executable decision accepts exactly the language of `/^[^\s@]+@[^\s@]+\.[^\s@]+$/` |
| SiteValidation.ValidateEmail | NetMailArchiver.Web/wwwroot/js/site.js:192-203 | the field is marked invalid, with its message, exactly when it is non-empty and fails the pattern |
| SiteValidation.WellFormedAddressesPass | NetMailArchiver.Web/wwwroot/js/site.js:194 | `a@b.c` and `a@b.c.d` pass |
| SiteValidation.MalformedAddressesFail | NetMailArchiver.Web/wwwroot/js/site.js:194 | no dot after '@', a dot right after '@', a space or a second '@' fail |
| SiteValidation.HandleFileUpload | NetMailArchiver.Web/wwwroot/js/site.js:213-227 | nothing happens without a file; the first file is refused, with its toast and a cleared input, exactly when it exceeds 10 MiB; otherwise the toast names it |
| SiteValidation.UploadLimitIsInclusive | NetMailArchiver.Web/wwwroot/js/site.js:217-219 | exactly 10485760 bytes is accepted and one byte more is refused |
| SiteValidation.OnlyFirstFileChecked | NetMailArchiver.Web/wwwroot/js/site.js:215-216 | files after the first have no effect |

## Left out

- Connecting and authenticating (`ConnectAndAuthenticate`, ImapService.cs:16-35): a network call; the model takes the connection flags as given.
- MIME parsing and attachment decoding (`GetAttachmentData`): a message arrives already decoded, with its address lists rendered as strings.
- A failing `SaveChangesAsync`: only a failing fetch is modelled. A save error would end the run like a fetch error, after the rows were added to the context.
- Cancellation observed inside the awaited calls (open, search, fetch, save, and the store queries `ToListAsync` at ImapService.cs:55 and :139 and `FirstOrDefaultAsync` at :61): only the lock wait and the loop heads read the token. So after a cancelled loop head the model still saves the pending batch (the `Completed` branch of `ListedRun`), while the source's final `SaveChangesAsync(cancellationToken)` (ImapService.cs:122, :199) receives an already cancelled token and may throw instead; and an `ArchiveAllMails` whose token is cancelled before it starts throws at the query at :139 in the source, while the model stops at its first loop head and reports 100.
- Concurrency: two runs interleaving, a blocked `WaitAsync` that later completes, and the thread safety of the concurrent dictionaries. A wait on a held permit is reported as `WaitingForLock` and has no effect.
- ArchiveSpec.PercentBoundsAndMonotone: `Math.Round` on a double is modelled as exact rounding half to even; double rounding of the quotient before `* 100` is not modelled.
- ArchiveSpec.Search: SINCE is modelled as a whole-day comparison of UTC tick counts; the server's time zone is not modelled.
- ArchiveSpec.ToEmail: the contract states the identity fields, that Cc and Bcc are always present, and the attachments; the subject, body and joined address strings are copied as the definition writes them. The `null` branches for Cc and Bcc (ImapService.cs:86-87) cannot be taken, because MimeKit's address lists are never null, so the model has no null list.
- ArchiveProgress.ArchiveProgressService.GetActiveJobs: returns a snapshot set; the source returns a lazy `Where`/`Select` view over the live dictionary, which later calls to `SetJobRunning` change while it is enumerated.
- ArchivePaging.SortByDateDesc: Emails with equal dates keep table order; the database leaves their order open, so two page queries may order tied rows differently, and `ArchivePaging.PagesFormPrefix` (pages with no gap and no overlap) holds only for one fixed order of the ties.
- ArchivePaging.OnGetMails: the JSON projection (date formatting, attachment ids) is left out; the page holds the Emails themselves.
- The Quartz scheduling, the CRUD pages for accounts, and the HTML and zip views of a mail are not part of this model.
- The rest of the site script (toasts, theme, table sorting, auto-resize) is not part of this model.
- Guid generation for new rows is left out: a `Guid` is an abstract value compared only for equality.
- Exceptions travelling up to the HTTP layer or the scheduler: a failure is a `Failed` outcome.

## Findings

| source | as written | input that shows it | evidently intended | confidence | as-written member | corrected member |
|---|---|---|---|---|---|---|
| NetMailArchiver.Web/Pages/Archive/Index.cshtml.cs:47 | `page * pageSize` is an unchecked int product | page 214748365, pageSize 10, one Email of the account: the product wraps to -2147483646, so hasMorePages is true on an empty page | hasMorePages true exactly when the next page has Emails | not executed | ArchivePaging.HasMorePagesAfterOverflow | ArchivePaging.HasMorePagesIffNextPageNonEmpty |
| NetMailArchiver.Web/Pages/Archive/Index.cshtml.cs:35 | `(page - 1) * pageSize` is an unchecked int product passed to Skip | page 214748366, pageSize 10: the offset wraps to -2147483646 and PostgreSQL refuses a negative OFFSET | an empty page past the end; a query refused only for a negative page size | not executed | ArchivePaging.OffsetOverflowRejected | ArchivePaging.RejectedOnlyForNegativeSize |
