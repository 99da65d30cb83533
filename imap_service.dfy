/** ImapService's two archive runs. The client connection is a pair of flags,
    the inbox a listing of (uid, delivery date, fetch result) entries, the
    database context an object holding the Emails table, the progress sink the
    sequence of reported values, and the cancellation token the points at
    which it reads as requested. */
module ImapServiceModel {
  import opened MailModel
  import opened ArchiveSpec
  import opened ArchiveLock

  /** When the cancellation token reads as requested: already at the lock wait,
      and at every loop head from index `fromHead` on. */
  datatype CancelToken = CancelToken(atWait: bool, fromHead: nat)

  datatype ArchiveError =
    | NotConnectedOrAuthenticated
    | NoContext
    | OperationCanceled      // the lock wait saw the token cancelled
    | FetchFailed(uid: nat)  // GetMessageAsync threw for this uid

  datatype RunOutcome = Completed | Failed(error: ArchiveError) | WaitingForLock

  /** What a run over a listing does: how it ends, the Emails it appends to the
      store, in order, and the values it reports. */
  datatype RunEffect = RunEffect(outcome: RunOutcome, stored: seq<Email>, reports: seq<int>)

  /** The number of loop heads a run passes without seeing cancellation. */
  function Stop(token: CancelToken, n: nat): (k: nat)
    ensures k <= n && (k < n ==> k == token.fromHead) && (k == n ==> token.fromHead >= n)
  {
    if token.fromHead < n then token.fromHead else n
  }

  /** The index of the first failing fetch before `stop`, or `stop`. */
  function FirstFetchError(listed: seq<MailboxEntry>, stop: nat): (f: nat)
    requires stop <= |listed|
    ensures f <= stop
    ensures f < stop ==> listed[f].fetch.FetchError?
    decreases stop
  {
    if stop == 0 then 0
    else
      var f := FirstFetchError(listed, stop - 1);
      if f < stop - 1 then f else if listed[stop - 1].fetch.FetchError? then stop - 1 else stop
  }

  /** Every uid before the first failing one was fetched. */
  lemma {:induction false} FetchedBeforeFirstError(listed: seq<MailboxEntry>, stop: nat)
    requires stop <= |listed|
    ensures forall j :: 0 <= j < FirstFetchError(listed, stop) ==> listed[j].fetch.Fetched?
  {
    if stop > 0 {
      FetchedBeforeFirstError(listed, stop - 1);
    }
  }

  /** Once the first `i` uids are fetched and uid `i` fails, it stays the
      first failure however far the loop was allowed to go. */
  lemma {:induction false} FirstFetchErrorStays(listed: seq<MailboxEntry>, i: nat, k: nat)
    requires i < k <= |listed| && FirstFetchError(listed, i) == i && listed[i].fetch.FetchError?
    ensures FirstFetchError(listed, k) == i
    decreases k
  {
    if k > i + 1 {
      FirstFetchErrorStays(listed, i, k - 1);
    }
  }

  /** The effect of the archive loop over `listed` with the Message-ID list
      `known` loaded at run start. A failed fetch ends the run: the full
      batches saved before it stay stored, the pending batch is lost and the
      final 100 is not reported. */
  function ListedRun(known: seq<Option<string>>, account: Guid, listed: seq<MailboxEntry>, token: CancelToken): (e: RunEffect)
    ensures e.outcome == Completed || (e.outcome.Failed? && e.outcome.error.FetchFailed?)
    ensures e.outcome == Completed ==> |e.reports| == Stop(token, |listed|) + 1
    ensures e.outcome.Failed? ==> |e.reports| < Stop(token, |listed|)
  {
    var n := |listed|;
    var stop := Stop(token, n);
    var f := FirstFetchError(listed, stop);
    var q := Queued(known, account, listed[..f]);
    if f < stop then RunEffect(Failed(FetchFailed(listed[f].uid)), q[..|q| - |q| % BatchSize], Progress(f, n))
    else RunEffect(Completed, q, Reports(f, n))
  }

  /** The Emails table of ApplicationDbContext. */
  class ArchiveDb {
    var emails: seq<Email>

    constructor (emails: seq<Email>)
      ensures this.emails == emails
    {
      this.emails := emails;
    }
  }

  class ImapService {
    const lockService: ArchiveLockService
    const imapInformation: ImapInformation
    const context: ArchiveDb?
    var isConnected: bool
    var isAuthenticated: bool

    constructor (lockService: ArchiveLockService, imapInformation: ImapInformation, context: ArchiveDb?,
                 isConnected: bool, isAuthenticated: bool)
      ensures this.lockService == lockService && this.imapInformation == imapInformation && this.context == context
      ensures this.isConnected == isConnected && this.isAuthenticated == isAuthenticated
    {
      this.lockService := lockService;
      this.imapInformation := imapInformation;
      this.context := context;
      this.isConnected := isConnected;
      this.isAuthenticated := isAuthenticated;
    }

    /** The client is both connected and authenticated. */
    predicate IsConnectedAndAuthenticated(): (ready: bool)
      reads this
      ensures ready <==> isConnected && isAuthenticated
    {
      isConnected && isAuthenticated
    }

    /** The incremental run: under the account's lock, list the mail delivered
        since the newest stored Email (everything when none is stored) and
        archive what is new. The lock is given back on every exit path. */
    method ArchiveNewMails(inbox: seq<MailboxEntry>, token: CancelToken)
      returns (outcome: RunOutcome, reports: seq<int>, saved: seq<seq<Email>>)
      requires lockService.Valid()
      modifies context, lockService
      ensures lockService.Valid()
      ensures var id := imapInformation.id;
        lockService.locks == if id in old(lockService.locks) then old(lockService.locks) else old(lockService.locks)[id := 1]
      ensures token.atWait ==> outcome == Failed(OperationCanceled)
      ensures !token.atWait && old(lockService.Permits(imapInformation.id)) == 0 ==> outcome == WaitingForLock
      ensures outcome.WaitingForLock? || outcome == Failed(OperationCanceled) || !IsConnectedAndAuthenticated() || context == null ==>
        reports == [] && saved == [] && (context != null ==> context.emails == old(context.emails))
      ensures !token.atWait && old(lockService.Permits(imapInformation.id)) == 1 ==>
        if !IsConnectedAndAuthenticated() then outcome == Failed(NotConnectedOrAuthenticated)
        else if context == null then outcome == Failed(NoContext)
        else
          var account := imapInformation.id;
          var listed := Search(inbox, NewMailQuery(old(context.emails), account));
          var e := ListedRun(Known(old(context.emails), account), account, listed, token);
          outcome == e.outcome && context.emails == old(context.emails) + e.stored
          && reports == e.reports && saved == Batches(e.stored)
    {
      var acquired := lockService.AcquireLock(imapInformation.id, token.atWait);
      if acquired.Cancelled? {
        return Failed(OperationCanceled), [], [];
      }
      if acquired.Waiting? {
        return WaitingForLock, [], [];
      }
      var handle := acquired.handle;
      if !IsConnectedAndAuthenticated() {
        outcome, reports, saved := Failed(NotConnectedOrAuthenticated), [], [];
      } else if context == null {
        outcome, reports, saved := Failed(NoContext), [], [];
      } else {
        var account := imapInformation.id;
        var known := Known(context.emails, account);
        var listed := Search(inbox, NewMailQuery(context.emails, account));
        outcome, reports, saved := ArchiveListed(listed, known, token);
      }
      handle.Dispose();
      MapUpdateTwice(old(lockService.locks), imapInformation.id, 0, 1);
      MapUpdateSame(old(lockService.locks), imapInformation.id);
    }

    /** The full run: no lock, list every message and archive what is new. */
    method ArchiveAllMails(inbox: seq<MailboxEntry>, token: CancelToken)
      returns (outcome: RunOutcome, reports: seq<int>, saved: seq<seq<Email>>)
      modifies context
      ensures !IsConnectedAndAuthenticated() ==> outcome == Failed(NotConnectedOrAuthenticated)
      ensures IsConnectedAndAuthenticated() && context == null ==> outcome == Failed(NoContext)
      ensures outcome.Failed? && !outcome.error.FetchFailed? ==>
        reports == [] && saved == [] && (context != null ==> context.emails == old(context.emails))
      ensures IsConnectedAndAuthenticated() && context != null ==>
        var account := imapInformation.id;
        var e := ListedRun(Known(old(context.emails), account), account, inbox, token);
        outcome == e.outcome && context.emails == old(context.emails) + e.stored
        && reports == e.reports && saved == Batches(e.stored)
    {
      if !IsConnectedAndAuthenticated() {
        return Failed(NotConnectedOrAuthenticated), [], [];
      }
      if context == null {
        return Failed(NoContext), [], [];
      }
      var account := imapInformation.id;
      var known := Known(context.emails, account);
      var listed := Search(inbox, All);
      SearchAllListsEverything(inbox);
      outcome, reports, saved := ArchiveListed(listed, known, token);
    }

    /** The body of the archive loop for a fetched message: map it to an
        Email, queue it if its Message-ID is new, save the batch once it holds
        BatchSize Emails, and report the percentage of uids processed. */
    method ArchiveFetched(listed: seq<MailboxEntry>, i: nat, message: MimeMessage, known: seq<Option<string>>,
                          batch: seq<Email>, ghost flushed: seq<Email>, ghost full: nat, saved: seq<seq<Email>>, reports: seq<int>, ghost stored0: seq<Email>)
      returns (batch': seq<Email>, ghost flushed': seq<Email>, ghost full': nat, saved': seq<seq<Email>>, reports': seq<int>)
      requires context != null
      requires i < |listed| && listed[i].fetch == Fetched(message)
      requires LoopState(known, imapInformation.id, listed, i, flushed, batch, full, saved, reports)
      requires context.emails == stored0 + flushed
      modifies context
      ensures LoopState(known, imapInformation.id, listed, i + 1, flushed', batch', full', saved', reports')
      ensures context.emails == stored0 + flushed'
    {
      var account := imapInformation.id;
      var email := ToEmail(message, account);
      batch', flushed', full', saved' := batch, flushed, full, saved;
      if IsNew(known, email) {
        batch' := batch' + [email];
      }
      ghost var queued := batch';
      if |batch'| >= BatchSize {
        assert (stored0 + flushed') + batch' == stored0 + (flushed' + batch');
        context.emails := context.emails + batch';
        saved' := saved' + [batch'];
        flushed' := flushed' + batch';
        full' := full' + 1;
        batch' := [];
      }
      reports' := reports + [Percent(i + 1, |listed|)];
      ArchiveStep(known, account, listed, i, message, flushed, batch, full, saved, reports,
                  queued, flushed', batch', full', saved', reports');
    }

    /** The loop both runs share: fetch each listed uid in order, queue the new
        Emails, save every full batch of BatchSize, then the leftover, and
        report the percentage after each uid and 100 at the end. */
    method ArchiveListed(listed: seq<MailboxEntry>, known: seq<Option<string>>, token: CancelToken)
      returns (outcome: RunOutcome, reports: seq<int>, saved: seq<seq<Email>>)
      requires context != null
      modifies context
      ensures var e := ListedRun(known, imapInformation.id, listed, token);
        outcome == e.outcome && context.emails == old(context.emails) + e.stored
        && reports == e.reports && saved == Batches(e.stored)
    {
      var account := imapInformation.id;
      var n := |listed|;
      ghost var stop := Stop(token, n);
      var batch: seq<Email> := [];
      ghost var flushed: seq<Email> := [];
      ghost var full: nat := 0;
      var totalProcessed := 0;
      reports, saved := [], [];
      var i := 0;
      while i < n
        invariant i <= stop
        invariant FirstFetchError(listed, i) == i
        invariant totalProcessed == i
        invariant LoopState(known, account, listed, i, flushed, batch, full, saved, reports)
        invariant context.emails == old(context.emails) + flushed
      {
        if i >= token.fromHead {
          break;
        }
        match listed[i].fetch
        case FetchError =>
          RunFailsAt(known, account, listed, token, i, flushed, batch, full, saved, reports);
          return Failed(FetchFailed(listed[i].uid)), reports, saved;
        case Fetched(message) =>
          totalProcessed := totalProcessed + 1;
          batch, flushed, full, saved, reports :=
            ArchiveFetched(listed, i, message, known, batch, flushed, full, saved, reports, old(context.emails));
          i := i + 1;
      }
      assert i == stop;
      outcome, reports, saved := FinishRun(listed, known, token, batch, flushed, full, saved, reports, old(context.emails));
    }

    /** After the loop: save the pending batch, if any, and report 100. */
    method FinishRun(listed: seq<MailboxEntry>, known: seq<Option<string>>, token: CancelToken,
                     batch: seq<Email>, ghost flushed: seq<Email>, ghost full: nat, saved: seq<seq<Email>>, reports: seq<int>,
                     ghost stored0: seq<Email>)
      returns (outcome: RunOutcome, reports': seq<int>, saved': seq<seq<Email>>)
      requires context != null
      requires FirstFetchError(listed, Stop(token, |listed|)) == Stop(token, |listed|)
      requires LoopState(known, imapInformation.id, listed, Stop(token, |listed|), flushed, batch, full, saved, reports)
      requires context.emails == stored0 + flushed
      modifies context
      ensures var e := ListedRun(known, imapInformation.id, listed, token);
        outcome == e.outcome && context.emails == stored0 + e.stored
        && reports' == e.reports && saved' == Batches(e.stored)
    {
      RunCompletes(known, imapInformation.id, listed, token, flushed, batch, full, saved, reports);
      saved' := saved;
      if |batch| > 0 {
        AppendAssoc(stored0, flushed, batch);
        context.emails := context.emails + batch;
        saved' := saved' + [batch];
      }
      reports' := reports + [100];
      outcome := Completed;
    }
  }

  /** What the archive loop knows after processing the first `i` listed uids:
      the queue so far is the saved Emails followed by the pending batch, the
      saved Emails are whole batches, and one report was made per uid. */
  ghost predicate LoopState(known: seq<Option<string>>, account: Guid, listed: seq<MailboxEntry>, i: nat,
                            flushed: seq<Email>, batch: seq<Email>, full: nat, saved: seq<seq<Email>>, reports: seq<int>)
  {
    && i <= |listed|
    && Queued(known, account, listed[..i]) == flushed + batch
    && |batch| < BatchSize && |flushed| == full * BatchSize
    && saved == Batches(flushed)
    && reports == Progress(i, |listed|)
  }

  /** One fetched uid: queue its Email if new, save the batch once it is full,
      report the percentage. */
  lemma ArchiveStep(known: seq<Option<string>>, account: Guid, listed: seq<MailboxEntry>, i: nat, m: MimeMessage,
                    flushed0: seq<Email>, batch0: seq<Email>, full0: nat, saved0: seq<seq<Email>>, reports0: seq<int>,
                    queued: seq<Email>,
                    flushed: seq<Email>, batch: seq<Email>, full: nat, saved: seq<seq<Email>>, reports: seq<int>)
    requires i < |listed| && listed[i].fetch == Fetched(m)
    requires LoopState(known, account, listed, i, flushed0, batch0, full0, saved0, reports0)
    requires queued == batch0 + (if IsNew(known, ToEmail(m, account)) then [ToEmail(m, account)] else [])
    requires |queued| >= BatchSize ==>
      flushed == flushed0 + queued && batch == [] && full == full0 + 1 && saved == saved0 + [queued]
    requires |queued| < BatchSize ==>
      flushed == flushed0 && batch == queued && full == full0 && saved == saved0
    requires reports == reports0 + [Percent(i + 1, |listed|)]
    ensures LoopState(known, account, listed, i + 1, flushed, batch, full, saved, reports)
  {
    QueuedStep(known, account, listed, i);
    assert (flushed0 + batch0) + Enqueue(known, account, listed[i]) == flushed0 + (batch0 + Enqueue(known, account, listed[i]));
    if |queued| >= BatchSize {
      DivUnique(|flushed0|, BatchSize, full0, 0);
      BatchesAppend(flushed0, queued);
      assert flushed + batch == flushed0 + queued;
    }
  }

  /** The run's effect when the fetch at `i` is the first to fail. */
  lemma RunFailsAt(known: seq<Option<string>>, account: Guid, listed: seq<MailboxEntry>, token: CancelToken,
                   i: nat, flushed: seq<Email>, batch: seq<Email>, full: nat, saved: seq<seq<Email>>, reports: seq<int>)
    requires i < Stop(token, |listed|) && listed[i].fetch.FetchError?
    requires FirstFetchError(listed, i) == i
    requires LoopState(known, account, listed, i, flushed, batch, full, saved, reports)
    ensures ListedRun(known, account, listed, token) == RunEffect(Failed(FetchFailed(listed[i].uid)), flushed, reports)
  {
    FirstFetchErrorStays(listed, i, Stop(token, |listed|));
    var q := flushed + batch;
    DivUnique(|q|, BatchSize, full, |batch|);
    assert q[..|q| - |q| % BatchSize] == flushed;
  }

  /** The run's effect when every uid before the stop point was fetched: the
      pending batch is saved as the last one and 100 is reported. */
  lemma RunCompletes(known: seq<Option<string>>, account: Guid, listed: seq<MailboxEntry>, token: CancelToken,
                     flushed: seq<Email>, batch: seq<Email>, full: nat, saved: seq<seq<Email>>, reports: seq<int>)
    requires FirstFetchError(listed, Stop(token, |listed|)) == Stop(token, |listed|)
    requires LoopState(known, account, listed, Stop(token, |listed|), flushed, batch, full, saved, reports)
    ensures ListedRun(known, account, listed, token) == RunEffect(Completed, flushed + batch, reports + [100])
    ensures Batches(flushed + batch) == saved + (if |batch| > 0 then [batch] else [])
  {
    if |batch| > 0 {
      DivUnique(|flushed|, BatchSize, full, 0);
      BatchesAppend(flushed, batch);
    } else {
      assert flushed + batch == flushed;
    }
  }

  // ---------------------------------------------------------------------------
  // What a run promises, stated on its specification
  // ---------------------------------------------------------------------------

  lemma {:induction false} QueuedPrefix(known: seq<Option<string>>, account: Guid, listed: seq<MailboxEntry>, k: nat)
    requires k <= |listed|
    ensures Queued(known, account, listed[..k]) <= Queued(known, account, listed)
    decreases |listed| - k
  {
    if k < |listed| {
      var last := |listed| - 1;
      assert listed[..last][..k] == listed[..k];
      QueuedPrefix(known, account, listed[..last], k);
    } else {
      assert listed[..k] == listed;
    }
  }

  /** Every run stores, exactly once and in listing order, a prefix of the
      Emails the loop queued over the uids it reached, all for the account and
      all new; a completed run stores all of them; a failed one stores whole
      batches only. */
  lemma RunStoresQueuedPrefix(known: seq<Option<string>>, account: Guid, listed: seq<MailboxEntry>, token: CancelToken)
    ensures var e := ListedRun(known, account, listed, token);
      var reached := Queued(known, account, listed[..Stop(token, |listed|)]);
      && e.stored <= reached
      && (e.outcome == Completed ==> e.stored == reached)
      && (e.outcome.Failed? ==> |e.stored| % BatchSize == 0)
      && (forall x :: x in e.stored ==> x.imapInformationId == account && IsNew(known, x))
  {
    var stop := Stop(token, |listed|);
    var f := FirstFetchError(listed, stop);
    ReachedQueuePrefix(known, account, listed, f, stop);
    if f < stop {
      WholeBatchesPrefix(Queued(known, account, listed[..f]));
    }
  }

  /** The queue up to the first failure is a prefix of the queue up to the
      stop point, and holds only new Emails of the account. */
  lemma ReachedQueuePrefix(known: seq<Option<string>>, account: Guid, listed: seq<MailboxEntry>, f: nat, stop: nat)
    requires f <= stop <= |listed|
    ensures Queued(known, account, listed[..f]) <= Queued(known, account, listed[..stop])
    ensures forall x :: x in Queued(known, account, listed[..f]) ==> x.imapInformationId == account && IsNew(known, x)
  {
    assert listed[..stop][..f] == listed[..f];
    QueuedPrefix(known, account, listed[..stop], f);
    QueuedAreNew(known, account, listed[..f]);
  }

  /** Dropping the pending batch leaves a prefix of whole batches. */
  lemma WholeBatchesPrefix(q: seq<Email>)
    ensures var kept := q[..|q| - |q| % BatchSize];
      kept <= q && |kept| % BatchSize == 0 && (forall x :: x in kept ==> x in q)
  {
    var kept := q[..|q| - |q| % BatchSize];
    assert forall x :: x in kept ==> x in q;
    DivUnique(|q|, BatchSize, |q| / BatchSize, |q| % BatchSize);
    assert |kept| == (|q| / BatchSize) * BatchSize;
    DivUnique(|kept|, BatchSize, |q| / BatchSize, 0);
  }

  /** A failed run names the first uid whose fetch failed before the stop
      point: one report was made per uid before it, each of which was fetched. */
  lemma FailedRunNamesFirstFailure(known: seq<Option<string>>, account: Guid, listed: seq<MailboxEntry>, token: CancelToken)
    ensures var e := ListedRun(known, account, listed, token);
      e.outcome.Failed? ==>
        var i := |e.reports|;
        && i < Stop(token, |listed|) && listed[i].fetch.FetchError? && e.outcome.error == FetchFailed(listed[i].uid)
        && forall j :: 0 <= j < i ==> listed[j].fetch.Fetched?
  {
    FetchedBeforeFirstError(listed, Stop(token, |listed|));
  }

  /** A run's reports lie in 0..100 and never decrease; a completed run's last
      report is 100. */
  lemma RunReportsMonotone(known: seq<Option<string>>, account: Guid, listed: seq<MailboxEntry>, token: CancelToken)
    ensures var e := ListedRun(known, account, listed, token);
      && (forall i :: 0 <= i < |e.reports| ==> 0 <= e.reports[i] <= 100)
      && (forall i, j :: 0 <= i <= j < |e.reports| ==> e.reports[i] <= e.reports[j])
      && (e.outcome == Completed ==> e.reports[|e.reports| - 1] == 100)
  {
    var f := FirstFetchError(listed, Stop(token, |listed|));
    ProgressMonotone(f, |listed|);
    ReportsMonotone(f, |listed|);
  }

  /** Cancellation before the first uid: nothing is fetched, nothing stored,
      and only the final 100 is reported. */
  lemma CancelledBeforeFirstFetch(known: seq<Option<string>>, account: Guid, listed: seq<MailboxEntry>, token: CancelToken)
    requires token.fromHead == 0
    ensures ListedRun(known, account, listed, token) == RunEffect(Completed, [], [100])
  {
    assert listed[..0] == [];
  }

  /** Idempotence of ArchiveAllMails: after a run that reached every uid of an
      unchanged listing without a fetch failure, a second run stores nothing,
      however far it gets. */
  lemma RepeatedFullRunStoresNothing(store: seq<Email>, account: Guid, inbox: seq<MailboxEntry>,
                                     first: CancelToken, second: CancelToken)
    requires first.fromHead >= |inbox|
    requires ListedRun(Known(store, account), account, inbox, first).outcome == Completed
    ensures var after := store + ListedRun(Known(store, account), account, inbox, first).stored;
      ListedRun(Known(after, account), account, inbox, second).stored == []
  {
    var known := Known(store, account);
    assert FirstFetchError(inbox, |inbox|) == |inbox|;
    assert inbox[..|inbox|] == inbox;
    var q := Queued(known, account, inbox);
    var after := store + q;
    RepeatedRunQueuesNothing(store, account, inbox);
    var f := FirstFetchError(inbox, Stop(second, |inbox|));
    QueuedPrefix(Known(after, account), account, inbox, f);
  }

  /** A queue of q Emails reaches the store in ceil(q / BatchSize) batches
      (23 new messages, for instance, in batches of 10, 10 and 3). */
  lemma {:induction false} BatchCount(q: seq<Email>)
    ensures |Batches(q)| == (|q| + BatchSize - 1) / BatchSize
    decreases |q|
  {
    if |q| > BatchSize {
      BatchCount(q[BatchSize..]);
      DivUnique(|q| + BatchSize - 1, BatchSize, (|q| - 1) / BatchSize + 1, (|q| - 1) % BatchSize);
      DivUnique(|q| - 1, BatchSize, (|q| - 1) / BatchSize, (|q| - 1) % BatchSize);
    } else if q != [] {
      DivUnique(|q| + BatchSize - 1, BatchSize, 1, |q| - 1);
    }
  }
}
