/** The value-level part of an archive run in ImapService: what a fetched
    message becomes, which listing a run asks for, which messages it queues,
    how the queue is cut into saved batches and which percentages it reports.
    The run itself (imap_service.dfy) is proved against these functions. */
module ArchiveSpec {
  import opened MailModel

  // ---------------------------------------------------------------------------
  // Fetched messages and the Email they are mapped to
  // ---------------------------------------------------------------------------

  /** One entry of a message's attachment list: a leaf MIME part (its decoded
      content already extracted) or an attached message, which is not a MimePart. */
  datatype MimeEntity =
    | MimePart(fileName: Option<string>, mimeType: string, dispositionSize: Option<int>, content: seq<Byte>)
    | MessagePart

  /** A fetched message, reduced to the accessors the mapping reads. Address
      lists hold the already rendered addresses. MimeKit's Cc and Bcc lists are
      never null: a message without such a header has an empty list. */
  datatype MimeMessage = MimeMessage(
    subject: Option<string>,
    from: seq<string>,
    to: seq<string>,
    cc: seq<string>,
    bcc: seq<string>,
    htmlBody: Option<string>,
    date: Date,
    messageId: Option<string>,
    attachments: seq<MimeEntity>)

  /** string.Join(", ", addresses) */
  function JoinAddresses(addresses: seq<string>): string
  {
    if |addresses| == 0 then ""
    else if |addresses| == 1 then addresses[0]
    else addresses[0] + ", " + JoinAddresses(addresses[1..])
  }

  /** Number of leaf MIME parts among a message's attachments. */
  function PartCount(entities: seq<MimeEntity>): nat
  {
    if entities == [] then 0
    else (if entities[0].MimePart? then 1 else 0) + PartCount(entities[1..])
  }

  /** The Attachment stored for a leaf MIME part: its file name, MIME type and
      decoded content, and the size its Content-Disposition declares, or 0
      when it declares none. */
  function ToAttachment(part: MimeEntity): (a: Attachment)
    requires part.MimePart?
    ensures a.fileName == part.fileName && a.contentType == part.mimeType && a.fileData == part.content
    ensures part.dispositionSize.None? ==> a.fileSize == 0
    ensures part.dispositionSize.Some? ==> a.fileSize == part.dispositionSize.value
  {
    Attachment(
      part.fileName,
      part.mimeType,
      match part.dispositionSize case Some(size) => size case None => 0,
      part.content)
  }

  /** The attachments of the mapped Email: one per leaf MIME part, in order.
      The part at index j lands at the position given by the number of leaf
      parts before it, so attached messages leave no gap. */
  function ToAttachments(entities: seq<MimeEntity>): (r: seq<Attachment>)
    ensures |r| == PartCount(entities)
    ensures forall j :: 0 <= j < |entities| && entities[j].MimePart? ==>
      PartCount(entities[..j]) < |r| && r[PartCount(entities[..j])] == ToAttachment(entities[j])
  {
    if entities == [] then []
    else
      var rest := ToAttachments(entities[1..]);
      AttachmentsCons(entities, rest);
      if entities[0].MimePart? then [ToAttachment(entities[0])] + rest else rest
  }

  /** Counting leaf parts over a prefix of `entities` is the first entity's
      share plus the count over the matching prefix of the tail. */
  lemma PartCountShift(entities: seq<MimeEntity>, j: nat)
    requires 1 <= j <= |entities|
    ensures PartCount(entities[..j]) == (if entities[0].MimePart? then 1 else 0) + PartCount(entities[1..][..j - 1])
  {
    assert entities[..j][1..] == entities[1..][..j - 1];
  }

  /** The attachment list of a non-empty entity list, built from that of its tail. */
  lemma AttachmentsCons(entities: seq<MimeEntity>, rest: seq<Attachment>)
    requires entities != []
    requires |rest| == PartCount(entities[1..])
    requires forall j :: 0 <= j < |entities| - 1 && entities[1..][j].MimePart? ==>
      PartCount(entities[1..][..j]) < |rest| && rest[PartCount(entities[1..][..j])] == ToAttachment(entities[1..][j])
    ensures var r := if entities[0].MimePart? then [ToAttachment(entities[0])] + rest else rest;
      && |r| == PartCount(entities)
      && forall j :: 0 <= j < |entities| && entities[j].MimePart? ==>
        PartCount(entities[..j]) < |r| && r[PartCount(entities[..j])] == ToAttachment(entities[j])
  {
    var r := if entities[0].MimePart? then [ToAttachment(entities[0])] + rest else rest;
    forall j | 0 <= j < |entities| && entities[j].MimePart?
      ensures PartCount(entities[..j]) < |r| && r[PartCount(entities[..j])] == ToAttachment(entities[j])
    {
      if j == 0 {
        assert entities[..0] == [];
      } else {
        PartCountShift(entities, j);
        assert entities[1..][j - 1] == entities[j];
      }
    }
  }

  /** The Email an archive run builds from a fetched message for `account`. */
  function ToEmail(m: MimeMessage, account: Guid): (e: Email)
    ensures e.messageId == m.messageId && e.date == m.date
    ensures e.imapInformationId == account
    ensures e.cc.Some? && e.bcc.Some?
    ensures m.cc == [] ==> e.cc == Some("")
    ensures m.bcc == [] ==> e.bcc == Some("")
    ensures |e.attachments| == PartCount(m.attachments)
    ensures forall j :: 0 <= j < |m.attachments| && m.attachments[j].MimePart? ==>
      PartCount(m.attachments[..j]) < |e.attachments| &&
      e.attachments[PartCount(m.attachments[..j])] == ToAttachment(m.attachments[j])
  {
    Email(
      m.subject,
      JoinAddresses(m.from),
      JoinAddresses(m.to),
      Some(JoinAddresses(m.cc)),
      Some(JoinAddresses(m.bcc)),
      m.htmlBody,
      m.date,
      m.messageId,
      ToAttachments(m.attachments),
      account)
  }

  // ---------------------------------------------------------------------------
  // The mailbox and its listing
  // ---------------------------------------------------------------------------

  /** What GetMessageAsync yields for a listed uid. */
  datatype Fetch = Fetched(message: MimeMessage) | FetchError

  /** One message of the inbox: its uid, its internal (delivery) date and what
      fetching it yields. */
  datatype MailboxEntry = MailboxEntry(uid: nat, delivered: Date, fetch: Fetch)

  datatype SearchQuery = All | DeliveredAfter(date: Date)

  const TicksPerDay: nat := 864_000_000_000

  /** IMAP SEARCH SINCE compares internal dates by day, inclusively. */
  predicate MatchesQuery(q: SearchQuery, entry: MailboxEntry)
  {
    match q
    case All => true
    case DeliveredAfter(d) => entry.delivered / TicksPerDay >= d / TicksPerDay
  }

  /** The uid listing a query returns, in mailbox order. */
  function Search(mailbox: seq<MailboxEntry>, q: SearchQuery): (r: seq<MailboxEntry>)
    ensures |r| <= |mailbox|
  {
    if mailbox == [] then []
    else (if MatchesQuery(q, mailbox[0]) then [mailbox[0]] else []) + Search(mailbox[1..], q)
  }

  /** The listing holds exactly the mailbox entries the query matches. */
  lemma {:induction false} SearchSelects(mailbox: seq<MailboxEntry>, q: SearchQuery)
    ensures forall e :: e in Search(mailbox, q) <==> e in mailbox && MatchesQuery(q, e)
  {
    if mailbox != [] {
      SearchSelects(mailbox[1..], q);
      assert forall e :: e in mailbox <==> e == mailbox[0] || e in mailbox[1..];
    }
  }

  lemma {:induction false} SearchAllListsEverything(mailbox: seq<MailboxEntry>)
    ensures Search(mailbox, All) == mailbox
  {
    if mailbox != [] {
      SearchAllListsEverything(mailbox[1..]);
      assert [mailbox[0]] + mailbox[1..] == mailbox;
    }
  }

  /** An incremental listing never misses a message delivered at or after the
      watermark. */
  lemma DeliveredAfterIsComplete(mailbox: seq<MailboxEntry>, d: Date, entry: MailboxEntry)
    requires entry in mailbox && entry.delivered >= d
    ensures entry in Search(mailbox, DeliveredAfter(d))
  {
    SearchSelects(mailbox, DeliveredAfter(d));
    DivMonotone(d, entry.delivered, TicksPerDay);
  }

  lemma {:induction false} DivMonotone(a: nat, b: nat, n: nat)
    requires a <= b && n > 0
    ensures a / n <= b / n
  {
    if a / n > b / n {
      DivUnique(b, n, b / n, b % n);
      assert (a / n) * n >= (b / n + 1) * n by { MulMonotone(b / n + 1, a / n, n); }
    }
  }

  lemma MulMonotone(x: nat, y: nat, n: nat)
    requires x <= y
    ensures x * n <= y * n
  {
  }

  // ---------------------------------------------------------------------------
  // Watermark and the query of the incremental run
  // ---------------------------------------------------------------------------

  /** The Date of the newest stored Email of `account`, or DateTime.MinValue. */
  function Watermark(store: seq<Email>, account: Guid): (d: Date)
    ensures forall e :: e in store && e.imapInformationId == account ==> e.date <= d
  {
    if store == [] then DateMinValue
    else
      var rest := Watermark(store[1..], account);
      if store[0].imapInformationId == account && store[0].date > rest then store[0].date else rest
  }

  /** The watermark bounds every stored Date of the account and, unless it is
      DateTime.MinValue, is one of them. */
  lemma {:induction false} WatermarkIsNewest(store: seq<Email>, account: Guid)
    ensures forall e :: e in store && e.imapInformationId == account ==> e.date <= Watermark(store, account)
    ensures Watermark(store, account) != DateMinValue ==>
      exists e :: e in store && e.imapInformationId == account && e.date == Watermark(store, account)
  {
    if store != [] {
      WatermarkIsNewest(store[1..], account);
      assert forall e :: e in store ==> e == store[0] || e in store[1..];
    }
  }

  /** The query ArchiveNewMails passes to the search: everything exactly when
      no stored Email of the account is dated after DateTime.MinValue,
      otherwise SINCE the watermark, which no stored Email of the account is
      newer than. */
  function NewMailQuery(store: seq<Email>, account: Guid): (q: SearchQuery)
    ensures q.All? <==> forall e :: e in store && e.imapInformationId == account ==> e.date == DateMinValue
    ensures q.DeliveredAfter? ==> q.date == Watermark(store, account)
    ensures q.DeliveredAfter? ==> forall e :: e in store && e.imapInformationId == account ==> e.date <= q.date
  {
    WatermarkIsNewest(store, account);
    var d := Watermark(store, account);
    if d == DateMinValue then All else DeliveredAfter(d)
  }

  /** Without a stored Email of the account the search lists everything;
      with one dated after DateTime.MinValue it lists SINCE the Date of the
      newest one: a stored Email carries that Date and none is newer. */
  lemma NewMailQueryCases(store: seq<Email>, account: Guid)
    ensures (forall e :: e in store ==> e.imapInformationId != account) ==> NewMailQuery(store, account) == All
    ensures (exists e :: e in store && e.imapInformationId == account && e.date != DateMinValue) ==>
      NewMailQuery(store, account).DeliveredAfter? &&
      (exists e :: e in store && e.imapInformationId == account && e.date == NewMailQuery(store, account).date) &&
      (forall e :: e in store && e.imapInformationId == account ==> e.date <= NewMailQuery(store, account).date)
  {
    WatermarkIsNewest(store, account);
  }

  /** Sequence concatenation regrouped; stated once so that the run's proof
      does not re-derive it by extensionality. */
  lemma AppendAssoc<T>(a: seq<T>, b: seq<T>, c: seq<T>)
    ensures (a + b) + c == a + (b + c)
  {
  }

  // ---------------------------------------------------------------------------
  // Dedup and the queue
  // ---------------------------------------------------------------------------

  /** The Message-IDs of `account`'s stored Emails, in store order. */
  function Known(store: seq<Email>, account: Guid): (ids: seq<Option<string>>)
    ensures |ids| <= |store|
  {
    if store == [] then []
    else
      var last := store[|store| - 1];
      Known(store[..|store| - 1], account) + (if last.imapInformationId == account then [last.messageId] else [])
  }

  /** The queueing test of the loop: a non-null MessageId that none of the
      loaded ids equals. A null MessageId is never new, even when no stored
      Email has a null MessageId. */
  predicate IsNew(known: seq<Option<string>>, e: Email): (b: bool)
    ensures b <==> e.messageId.Some? && forall i :: 0 <= i < |known| ==> known[i] != e.messageId
  {
    e.messageId !in known && e.messageId.Some?
  }

  /** What one processed listing entry adds to the queue: nothing for a failed
      fetch or a message that is not new, otherwise its Email. */
  function Enqueue(known: seq<Option<string>>, account: Guid, entry: MailboxEntry): (r: seq<Email>)
    ensures |r| <= 1
    ensures forall x :: x in r ==> x.imapInformationId == account && IsNew(known, x)
    ensures entry.fetch.Fetched? && IsNew(known, ToEmail(entry.fetch.message, account)) ==>
      r == [ToEmail(entry.fetch.message, account)]
  {
    match entry.fetch
    case FetchError => []
    case Fetched(m) => var e := ToEmail(m, account); if IsNew(known, e) then [e] else []
  }

  /** Every Email the loop queues while it processes `listed`, in listing order. */
  function Queued(known: seq<Option<string>>, account: Guid, listed: seq<MailboxEntry>): (q: seq<Email>)
    ensures |q| <= |listed|
  {
    if listed == [] then []
    else Queued(known, account, listed[..|listed| - 1]) + Enqueue(known, account, listed[|listed| - 1])
  }

  /** Everything queued belongs to the account and passed the dedup test. */
  lemma {:induction false} QueuedAreNew(known: seq<Option<string>>, account: Guid, listed: seq<MailboxEntry>)
    ensures forall e :: e in Queued(known, account, listed) ==> e.imapInformationId == account && IsNew(known, e)
  {
    if listed != [] {
      QueuedAreNew(known, account, listed[..|listed| - 1]);
    }
  }

  lemma QueuedStep(known: seq<Option<string>>, account: Guid, listed: seq<MailboxEntry>, k: nat)
    requires k < |listed|
    ensures Queued(known, account, listed[..k + 1]) == Queued(known, account, listed[..k]) + Enqueue(known, account, listed[k])
  {
    assert listed[..k + 1][..k] == listed[..k];
  }

  /** A fetched, new message is queued. */
  lemma {:induction false} QueuedContains(known: seq<Option<string>>, account: Guid, listed: seq<MailboxEntry>, i: nat)
    requires i < |listed| && listed[i].fetch.Fetched?
    requires IsNew(known, ToEmail(listed[i].fetch.message, account))
    ensures ToEmail(listed[i].fetch.message, account) in Queued(known, account, listed)
  {
    var last := |listed| - 1;
    if i < last {
      QueuedContains(known, account, listed[..last], i);
    }
  }

  lemma {:induction false} KnownAppend(a: seq<Email>, b: seq<Email>, account: Guid)
    ensures Known(a + b, account) == Known(a, account) + Known(b, account)
  {
    if b != [] {
      var last := |b| - 1;
      assert (a + b)[..|a + b| - 1] == a + b[..last];
      KnownAppend(a, b[..last], account);
    } else {
      assert a + b == a;
    }
  }

  /** The loaded list holds exactly the Message-IDs of the account's stored
      Emails. */
  lemma {:induction false} KnownIsStoredIds(store: seq<Email>, account: Guid, id: Option<string>)
    ensures id in Known(store, account) <==>
      exists e :: e in store && e.imapInformationId == account && e.messageId == id
  {
    if store != [] {
      var last := |store| - 1;
      KnownIsStoredIds(store[..last], account, id);
      assert store == store[..last] + [store[last]];
      if id in Known(store, account) && id !in Known(store[..last], account) {
        assert store[last].messageId == id;
      }
    }
  }

  /** A fetched message whose non-null Message-ID no stored Email of the
      account carries is queued by a run that loaded the account's ids. */
  lemma UnstoredMessageQueued(store: seq<Email>, account: Guid, listed: seq<MailboxEntry>, i: nat)
    requires i < |listed| && listed[i].fetch.Fetched?
    requires listed[i].fetch.message.messageId.Some?
    requires forall e :: e in store && e.imapInformationId == account ==> e.messageId != listed[i].fetch.message.messageId
    ensures ToEmail(listed[i].fetch.message, account) in Queued(Known(store, account), account, listed)
  {
    var e := ToEmail(listed[i].fetch.message, account);
    KnownIsStoredIds(store, account, e.messageId);
    QueuedContains(Known(store, account), account, listed, i);
  }

  /** Every Message-ID among the Known list of a queue comes from a listed message. */
  lemma {:induction false} QueuedIdsFromListing(known: seq<Option<string>>, account: Guid, listed: seq<MailboxEntry>, id: Option<string>)
    requires id in Known(Queued(known, account, listed), account)
    ensures exists i :: 0 <= i < |listed| && listed[i].fetch.Fetched? && listed[i].fetch.message.messageId == id
  {
    var last := |listed| - 1;
    var init := listed[..last];
    KnownAppend(Queued(known, account, init), Enqueue(known, account, listed[last]), account);
    if id in Known(Queued(known, account, init), account) {
      QueuedIdsFromListing(known, account, init, id);
      var i :| 0 <= i < |init| && init[i].fetch.Fetched? && init[i].fetch.message.messageId == id;
      assert listed[i] == init[i];
    } else {
      assert listed[last].fetch.Fetched?;
    }
  }

  /** The number of Emails in `q` with Message-ID `id`. */
  function Occurrences(q: seq<Email>, id: Option<string>): nat
  {
    if q == [] then 0
    else Occurrences(q[..|q| - 1], id) + (if q[|q| - 1].messageId == id then 1 else 0)
  }

  /** The number of listing entries whose fetched message carries Message-ID `id`. */
  function ListedWithId(listed: seq<MailboxEntry>, id: Option<string>): nat
  {
    if listed == [] then 0
    else
      var last := listed[|listed| - 1];
      ListedWithId(listed[..|listed| - 1], id) + (if last.fetch.Fetched? && last.fetch.message.messageId == id then 1 else 0)
  }

  lemma {:induction false} OccurrencesAppend(a: seq<Email>, b: seq<Email>, id: Option<string>)
    ensures Occurrences(a + b, id) == Occurrences(a, id) + Occurrences(b, id)
    decreases |b|
  {
    if b != [] {
      assert (a + b)[..|a + b| - 1] == a + b[..|b| - 1];
      OccurrencesAppend(a, b[..|b| - 1], id);
    } else {
      assert a + b == a;
    }
  }

  /** The known list never grows during a run: a Message-ID that is new at
      run start is queued exactly as often as fetched messages of the listing
      carry it. */
  lemma {:induction false} QueuedAsOftenAsListed(known: seq<Option<string>>, account: Guid, listed: seq<MailboxEntry>, id: Option<string>)
    requires id.Some? && id !in known
    ensures Occurrences(Queued(known, account, listed), id) == ListedWithId(listed, id)
  {
    if listed != [] {
      var init := listed[..|listed| - 1];
      var step := Enqueue(known, account, listed[|listed| - 1]);
      QueuedAsOftenAsListed(known, account, init, id);
      OccurrencesAppend(Queued(known, account, init), step, id);
      if step != [] {
        assert step[..0] == [];
      }
    }
  }

  lemma {:induction false} ListedWithIdPositive(listed: seq<MailboxEntry>, id: Option<string>, i: nat)
    requires i < |listed| && listed[i].fetch.Fetched? && listed[i].fetch.message.messageId == id
    ensures ListedWithId(listed, id) >= 1
  {
    if i < |listed| - 1 {
      ListedWithIdPositive(listed[..|listed| - 1], id, i);
    }
  }

  /** Two listed messages with the same new Message-ID, anywhere in the
      listing, are both queued: the loop stores that Message-ID at least twice. */
  lemma {:induction false} SameNewIdQueuedTwice(known: seq<Option<string>>, account: Guid, listed: seq<MailboxEntry>, i: nat, j: nat)
    requires i < j < |listed| && listed[i].fetch.Fetched? && listed[j].fetch.Fetched?
    requires listed[i].fetch.message.messageId == listed[j].fetch.message.messageId
    requires IsNew(known, ToEmail(listed[i].fetch.message, account))
    ensures Occurrences(Queued(known, account, listed), listed[i].fetch.message.messageId) >= 2
  {
    var id := listed[i].fetch.message.messageId;
    QueuedAsOftenAsListed(known, account, listed, id);
    var k := j;
    var prefix := listed[..k + 1];
    assert prefix[i] == listed[i] && prefix[..k][i] == listed[i] && prefix[k] == listed[j];
    ListedWithIdPositive(prefix[..k], id, i);
    ListedWithIdPrefix(listed, id, k + 1);
  }

  lemma {:induction false} ListedWithIdPrefix(listed: seq<MailboxEntry>, id: Option<string>, k: nat)
    requires k <= |listed|
    ensures ListedWithId(listed[..k], id) <= ListedWithId(listed, id)
    decreases |listed| - k
  {
    if k < |listed| {
      assert listed[..|listed| - 1][..k] == listed[..k];
      ListedWithIdPrefix(listed[..|listed| - 1], id, k);
    } else {
      assert listed[..k] == listed;
    }
  }

  /** No Message-ID of `account` occurs twice in a list of ids. */
  ghost predicate NoDuplicateIds(ids: seq<Option<string>>)
  {
    forall i, j :: 0 <= i < j < |ids| && ids[i].Some? ==> ids[i] != ids[j]
  }

  /** No two fetched messages of a listing carry the same non-null Message-ID. */
  ghost predicate DistinctListing(listed: seq<MailboxEntry>)
  {
    forall i, j ::
      (0 <= i < j < |listed| && listed[i].fetch.Fetched? && listed[j].fetch.Fetched? &&
       listed[i].fetch.message.messageId.Some?) ==>
        listed[i].fetch.message.messageId != listed[j].fetch.message.messageId
  }

  /** A run keeps an account free of duplicate Message-IDs when the listing has none. */
  lemma {:induction false} RunKeepsIdsUnique(store: seq<Email>, account: Guid, listed: seq<MailboxEntry>)
    requires NoDuplicateIds(Known(store, account))
    requires DistinctListing(listed)
    ensures NoDuplicateIds(Known(store + Queued(Known(store, account), account, listed), account))
  {
    if listed != [] {
      var init := listed[..|listed| - 1];
      assert DistinctListing(init) by {
        forall i, j | 0 <= i < j < |init| ensures init[i] == listed[i] && init[j] == listed[j] { }
      }
      RunKeepsIdsUnique(store, account, init);
      StepKeepsIdsUnique(store, account, init, listed[|listed| - 1]);
    } else {
      assert store + Queued(Known(store, account), account, listed) == store;
    }
  }

  /** One more uid whose Message-ID no earlier fetched message carries adds
      no Message-ID already present. */
  lemma StepKeepsIdsUnique(store: seq<Email>, account: Guid, init: seq<MailboxEntry>, entry: MailboxEntry)
    requires forall i :: 0 <= i < |init| && init[i].fetch.Fetched? && init[i].fetch.message.messageId.Some? && entry.fetch.Fetched? ==>
      init[i].fetch.message.messageId != entry.fetch.message.messageId
    requires NoDuplicateIds(Known(store + Queued(Known(store, account), account, init), account))
    ensures var known := Known(store, account);
      NoDuplicateIds(Known(store + (Queued(known, account, init) + Enqueue(known, account, entry)), account))
  {
    var known := Known(store, account);
    var q := Queued(known, account, init);
    var step := Enqueue(known, account, entry);
    AppendAssoc(store, q, step);
    KnownAppend(store + q, step, account);
    if step != [] {
      var id := step[0].messageId;
      assert Known(step, account) == [id] by {
        assert step[..0] == [];
      }
      assert id !in Known(store + q, account) by {
        KnownAppend(store, q, account);
        if id in Known(q, account) {
          QueuedIdsFromListing(known, account, init, id);
        }
      }
      NoDuplicateAppend(Known(store + q, account), id);
    } else {
      assert (store + q) + step == store + q;
    }
  }

  lemma NoDuplicateAppend(ids: seq<Option<string>>, id: Option<string>)
    requires NoDuplicateIds(ids) && id !in ids
    ensures NoDuplicateIds(ids + [id])
  {
    var all := ids + [id];
    forall i, j | 0 <= i < j < |all| && all[i].Some? ensures all[i] != all[j] {
      if j == |ids| {
        assert all[i] in ids;
      }
    }
  }

  /** Once every non-null listed Message-ID is known, nothing is queued. */
  lemma {:induction false} QueuedEmptyWhenAllKnown(known: seq<Option<string>>, account: Guid, listed: seq<MailboxEntry>)
    requires forall i :: 0 <= i < |listed| && listed[i].fetch.Fetched? && listed[i].fetch.message.messageId.Some? ==>
      listed[i].fetch.message.messageId in known
    ensures Queued(known, account, listed) == []
  {
    if listed != [] {
      var last := |listed| - 1;
      QueuedEmptyWhenAllKnown(known, account, listed[..last]);
    }
  }

  /** Idempotence of the full run: after a run that processed the whole
      listing, a second run over the same listing queues nothing. */
  lemma RepeatedRunQueuesNothing(store: seq<Email>, account: Guid, listed: seq<MailboxEntry>)
    ensures var after := store + Queued(Known(store, account), account, listed);
      Queued(Known(after, account), account, listed) == []
  {
    var known := Known(store, account);
    var q := Queued(known, account, listed);
    var after := store + q;
    KnownAppend(store, q, account);
    forall i | 0 <= i < |listed| && listed[i].fetch.Fetched? && listed[i].fetch.message.messageId.Some?
      ensures listed[i].fetch.message.messageId in Known(after, account)
    {
      var e := ToEmail(listed[i].fetch.message, account);
      if e.messageId !in known {
        QueuedContains(known, account, listed, i);
        KnownIsStoredIds(q, account, e.messageId);
      }
    }
    QueuedEmptyWhenAllKnown(Known(after, account), account, listed);
  }

  // ---------------------------------------------------------------------------
  // Batches
  // ---------------------------------------------------------------------------

  const BatchSize: nat := 10

  function Flatten(batches: seq<seq<Email>>): seq<Email>
  {
    if batches == [] then [] else batches[0] + Flatten(batches[1..])
  }

  /** The batches in which a queue reaches the store: full batches of
      BatchSize while the loop runs, then the non-empty leftover. */
  function Batches(q: seq<Email>): (r: seq<seq<Email>>)
    ensures Flatten(r) == q
    ensures forall i :: 0 <= i < |r| ==> 1 <= |r[i]| <= BatchSize
    ensures forall i :: 0 <= i < |r| - 1 ==> |r[i]| == BatchSize
    decreases |q|
  {
    if q == [] then []
    else if |q| <= BatchSize then [q]
    else
      var r := [q[..BatchSize]] + Batches(q[BatchSize..]);
      assert r[1..] == Batches(q[BatchSize..]);
      assert q[..BatchSize] + q[BatchSize..] == q;
      r
  }

  lemma {:induction false} BatchesAppend(done: seq<Email>, batch: seq<Email>)
    requires |done| % BatchSize == 0
    requires 1 <= |batch| <= BatchSize
    ensures Batches(done + batch) == Batches(done) + [batch]
    decreases |done|
  {
    if done != [] {
      assert (done + batch)[..BatchSize] == done[..BatchSize];
      assert (done + batch)[BatchSize..] == done[BatchSize..] + batch;
      BatchesAppend(done[BatchSize..], batch);
      if |done| == BatchSize {
        assert done[BatchSize..] == [];
        assert done[BatchSize..] + batch == batch;
      }
    } else {
      assert done + batch == batch;
    }
  }

  // ---------------------------------------------------------------------------
  // Progress percentages
  // ---------------------------------------------------------------------------

  /** Quotient and remainder of a / n, by repeated subtraction. */
  function QuotRem(a: nat, n: nat): (qr: (nat, nat))
    requires n > 0
    ensures qr.0 * n + qr.1 == a && qr.1 < n
    decreases a
  {
    if a < n then (0, a)
    else
      var (q, r) := QuotRem(a - n, n);
      assert (q + 1) * n == q * n + n;
      (q + 1, r)
  }

  /** a / n rounded to the nearest integer, ties to even (Math.Round's default),
      on the exact quotient: r * n lies within n / 2 of a, and at exactly
      n / 2 away r is even. */
  function RoundHalfEven(a: nat, n: nat): (r: nat)
    requires n > 0
    ensures 2 * a <= 2 * (r * n) + n && 2 * (r * n) <= 2 * a + n
    ensures (2 * a == 2 * (r * n) + n || 2 * (r * n) == 2 * a + n) ==> r % 2 == 0
  {
    var (q, rem) := QuotRem(a, n);
    assert (q + 1) * n == q * n + n;
    if 2 * rem < n then q else if 2 * rem > n then q + 1 else if q % 2 == 0 then q else q + 1
  }

  /** The percentage reported after `k` of `n` listed uids were processed:
      none before the first, 100 after the last, never above 100. */
  function Percent(k: nat, n: nat): (p: nat)
    requires 0 < n && k <= n
    ensures p <= 100
    ensures k == 0 ==> p == 0
    ensures k == n ==> p == 100
  {
    MulMonotone(k, n, 100);
    RoundMonotone(100 * k, 100 * n, n);
    QuotRemMultiple(100, n);
    assert 100 * n == 100 * n;
    RoundHalfEven(100 * k, n)
  }

  lemma DivUnique(a: int, n: int, q: int, r: int)
    requires n > 0 && 0 <= r < n && a == q * n + r
    ensures a / n == q && a % n == r
  {
    var q0, r0 := a / n, a % n;
    assert (q - q0) * n == r0 - r;
    if q > q0 {
      MulMonotone(1, q - q0, n);
    } else if q < q0 {
      MulMonotone(1, q0 - q, n);
    }
  }

  /** Adding one to the dividend either bumps the remainder or carries into
      the quotient. */
  lemma {:induction false} QuotRemStep(a: nat, n: nat)
    requires n > 0
    ensures QuotRem(a, n).1 < n
    ensures QuotRem(a, n).1 + 1 < n ==> QuotRem(a + 1, n) == (QuotRem(a, n).0, QuotRem(a, n).1 + 1)
    ensures QuotRem(a, n).1 + 1 == n ==> QuotRem(a + 1, n) == (QuotRem(a, n).0 + 1, 0)
    decreases a
  {
    if a >= n {
      QuotRemStep(a - n, n);
    } else if a + 1 == n {
      assert QuotRem(0, n) == (0, 0);
    }
  }

  lemma {:induction false} QuotRemMultiple(k: nat, n: nat)
    requires n > 0
    ensures QuotRem(k * n, n) == (k, 0)
  {
    if k > 0 {
      QuotRemMultiple(k - 1, n);
      assert k * n - n == (k - 1) * n;
    }
  }

  lemma RoundStep(a: nat, n: nat)
    requires n > 0
    ensures RoundHalfEven(a, n) <= RoundHalfEven(a + 1, n)
  {
    QuotRemStep(a, n);
  }

  lemma {:induction false} RoundMonotone(a: nat, b: nat, n: nat)
    requires n > 0 && a <= b
    ensures RoundHalfEven(a, n) <= RoundHalfEven(b, n)
    decreases b - a
  {
    if a < b {
      RoundStep(a, n);
      RoundMonotone(a + 1, b, n);
    }
  }

  /** Reported percentages lie in 0..100, grow with `k` and end at 100. */
  lemma PercentBoundsAndMonotone(j: nat, k: nat, n: nat)
    requires 0 < n && j <= k <= n
    ensures Percent(j, n) <= Percent(k, n) <= 100
    ensures Percent(n, n) == 100
  {
    MulMonotone(j, k, 100);
    MulMonotone(k, n, 100);
    RoundMonotone(100 * j, 100 * k, n);
    RoundMonotone(100 * k, 100 * n, n);
    QuotRemMultiple(100, n);
    assert 100 * n == 100 * n;
  }

  /** The percentages reported after each of the first `k` of `n` uids. */
  function Progress(k: nat, n: nat): (r: seq<int>)
    requires k <= n
    ensures |r| == k
  {
    if k == 0 then [] else Progress(k - 1, n) + [Percent(k, n)]
  }

  lemma {:induction false} ProgressAt(k: nat, n: nat, i: nat)
    requires k <= n && i < k
    ensures Progress(k, n)[i] == Percent(i + 1, n)
  {
    if i < k - 1 {
      ProgressAt(k - 1, n, i);
    }
  }

  /** The reports of a run that processed `k` of `n` uids: one per processed
      uid, then the final 100. */
  function Reports(k: nat, n: nat): seq<int>
    requires k <= n
  {
    Progress(k, n) + [100]
  }

  /** The per-uid reports lie in 0..100 and never decrease. */
  lemma ProgressMonotone(k: nat, n: nat)
    requires k <= n
    ensures forall i :: 0 <= i < k ==> 0 <= Progress(k, n)[i] <= 100
    ensures forall i, j :: 0 <= i <= j < k ==> Progress(k, n)[i] <= Progress(k, n)[j]
  {
    var ps := Progress(k, n);
    forall i, j | 0 <= i <= j < k ensures 0 <= ps[i] <= 100 && ps[i] <= ps[j] {
      ProgressAt(k, n, i);
      ProgressAt(k, n, j);
      PercentBoundsAndMonotone(i + 1, j + 1, n);
    }
  }

  /** With the final 100 appended the reports still lie in 0..100, never
      decrease, and end at 100. */
  lemma ReportsMonotone(k: nat, n: nat)
    requires k <= n
    ensures forall i :: 0 <= i < |Reports(k, n)| ==> 0 <= Reports(k, n)[i] <= 100
    ensures forall i, j :: 0 <= i <= j < |Reports(k, n)| ==> Reports(k, n)[i] <= Reports(k, n)[j]
    ensures Reports(k, n)[|Reports(k, n)| - 1] == 100
  {
    var ps, rs := Progress(k, n), Reports(k, n);
    ProgressMonotone(k, n);
    assert forall i :: 0 <= i < k ==> rs[i] == ps[i];
  }
}
