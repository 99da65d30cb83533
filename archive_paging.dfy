/** The archive page's mail listing (Archive/Index OnGetMails): one account's
    Emails, newest first, cut into pages of `pageSize`, with a flag telling the
    browser whether to ask for the next page. The query runs on PostgreSQL,
    which refuses a negative LIMIT or OFFSET. */
module ArchivePaging {
  import opened MailModel

  // ---------------------------------------------------------------------------
  // C# int
  // ---------------------------------------------------------------------------

  const Int32Min: int := -0x8000_0000
  const Int32Max: int := 0x7FFF_FFFF

  predicate IsInt32(x: int)
  {
    Int32Min <= x <= Int32Max
  }

  /** Unchecked 32-bit arithmetic: the mathematical result reduced to int's range. */
  function Wrap32(x: int): (r: int)
    ensures IsInt32(r)
    ensures (r - x) % 0x1_0000_0000 == 0
    ensures IsInt32(x) ==> r == x
  {
    (x - Int32Min) % 0x1_0000_0000 + Int32Min
  }

  // ---------------------------------------------------------------------------
  // The query
  // ---------------------------------------------------------------------------

  /** Where(x => x.ImapInformationId == ImapId), in table order. */
  function OfAccount(emails: seq<Email>, imapId: Guid): (r: seq<Email>)
    ensures |r| <= |emails|
  {
    if emails == [] then []
    else (if emails[0].imapInformationId == imapId then [emails[0]] else []) + OfAccount(emails[1..], imapId)
  }

  ghost predicate NewestFirst(s: seq<Email>)
  {
    forall i, j :: 0 <= i < j < |s| ==> s[i].date >= s[j].date
  }

  /** Puts `e` in front of the first Email that is not newer than it. */
  function InsertByDate(e: Email, s: seq<Email>): (r: seq<Email>)
    ensures |r| == |s| + 1
  {
    if s == [] then [e]
    else if s[0].date <= e.date then [e] + s
    else [s[0]] + InsertByDate(e, s[1..])
  }

  /** OrderByDescending(x => x.Date). Emails with equal dates keep table order;
      the database leaves their order open. */
  function SortByDateDesc(s: seq<Email>): (r: seq<Email>)
    ensures |r| == |s|
  {
    if s == [] then [] else InsertByDate(s[0], SortByDateDesc(s[1..]))
  }

  /** Skip(n): a count of zero or less skips nothing. */
  function Skip(s: seq<Email>, n: int): seq<Email>
  {
    if n <= 0 then s else if n >= |s| then [] else s[n..]
  }

  /** Take(n): a count of zero or less takes nothing. */
  function Take(s: seq<Email>, n: int): seq<Email>
  {
    if n <= 0 then [] else if n >= |s| then s else s[..n]
  }

  /** The account's Emails in the order the page lists them. */
  function Ordered(emails: seq<Email>, imapId: Guid): seq<Email>
  {
    SortByDateDesc(OfAccount(emails, imapId))
  }

  /** A requested page below 1 is page 1. */
  function ClampPage(page: int): (p: int)
    ensures p >= 1 && (page >= 1 ==> p == page)
  {
    if page < 1 then 1 else page
  }

  datatype MailsPage = MailsPage(emails: seq<Email>, hasMorePages: bool)

  /** The JSON result, or the database error a negative LIMIT or OFFSET raises. */
  datatype MailsResult = Page(page: MailsPage) | QueryRejected

  /** OnGetMails with the page arithmetic done without overflow: only a
      negative page size is refused, and a page never holds more than
      pageSize Emails. */
  function OnGetMails(emails: seq<Email>, imapId: Guid, page: int, pageSize: int): (r: MailsResult)
    requires IsInt32(page) && IsInt32(pageSize)
    ensures r.QueryRejected? <==> pageSize < 0
    ensures r.Page? ==> |r.page.emails| <= pageSize
  {
    var p := ClampPage(page);
    if pageSize < 0 then QueryRejected
    else
      var listed := Ordered(emails, imapId);
      Page(MailsPage(Take(Skip(listed, (p - 1) * pageSize), pageSize), p * pageSize < |OfAccount(emails, imapId)|))
  }

  /** OnGetMails as written: both products are C# int products, which wrap.
      A negative page size is refused; so is a wrapped negative offset. */
  function OnGetMailsAsWritten(emails: seq<Email>, imapId: Guid, page: int, pageSize: int): (r: MailsResult)
    requires IsInt32(page) && IsInt32(pageSize)
    ensures pageSize < 0 ==> r == QueryRejected
    ensures r.Page? ==> |r.page.emails| <= pageSize
  {
    var p := ClampPage(page);
    var offset := Wrap32((p - 1) * pageSize);
    if pageSize < 0 || offset < 0 then QueryRejected
    else
      var listed := Ordered(emails, imapId);
      Page(MailsPage(Take(Skip(listed, offset), pageSize), Wrap32(p * pageSize) < |OfAccount(emails, imapId)|))
  }

  // ---------------------------------------------------------------------------
  // The listing
  // ---------------------------------------------------------------------------

  lemma {:induction false} OfAccountSelects(emails: seq<Email>, imapId: Guid)
    ensures forall e :: e in OfAccount(emails, imapId) <==> e in emails && e.imapInformationId == imapId
  {
    if emails != [] {
      OfAccountSelects(emails[1..], imapId);
      assert forall e :: e in emails <==> e == emails[0] || e in emails[1..];
    }
  }

  lemma NewestFirstCons(x: Email, t: seq<Email>)
    requires NewestFirst(t)
    requires forall y :: y in t ==> y.date <= x.date
    ensures NewestFirst([x] + t)
  {
    var r := [x] + t;
    forall i, j | 0 <= i < j < |r|
      ensures r[i].date >= r[j].date
    {
      assert r[j] == t[j - 1];
      if i > 0 {
        assert r[i] == t[i - 1];
      } else {
        assert t[j - 1] in t;
      }
    }
  }

  lemma {:induction false} InsertByDateElements(e: Email, s: seq<Email>)
    ensures multiset(InsertByDate(e, s)) == multiset(s) + multiset{e}
  {
    if s != [] {
      assert s == [s[0]] + s[1..];
      if s[0].date > e.date {
        InsertByDateElements(e, s[1..]);
      }
    }
  }

  lemma {:induction false} InsertByDateSorted(e: Email, s: seq<Email>)
    requires NewestFirst(s)
    ensures NewestFirst(InsertByDate(e, s))
  {
    if s == [] {
    } else if s[0].date <= e.date {
      forall y | y in s
        ensures y.date <= e.date
      {
        var k :| 0 <= k < |s| && s[k] == y;
        assert k == 0 || s[0].date >= s[k].date;
      }
      NewestFirstCons(e, s);
    } else {
      var rest := InsertByDate(e, s[1..]);
      assert NewestFirst(s[1..]) by {
        forall i, j | 0 <= i < j < |s[1..]|
          ensures s[1..][i].date >= s[1..][j].date
        {
          assert s[1..][i] == s[i + 1] && s[1..][j] == s[j + 1];
        }
      }
      InsertByDateSorted(e, s[1..]);
      InsertByDateElements(e, s[1..]);
      forall y | y in rest
        ensures y.date <= s[0].date
      {
        assert y in multiset(rest);
        if y != e {
          assert y in multiset(s[1..]);
          var k :| 0 <= k < |s[1..]| && s[1..][k] == y;
          assert s[k + 1] == y;
        }
      }
      NewestFirstCons(s[0], rest);
    }
  }

  /** OrderByDescending yields the same Emails, newest first. */
  lemma {:induction false} SortByDateDescSorts(s: seq<Email>)
    ensures NewestFirst(SortByDateDesc(s))
    ensures multiset(SortByDateDesc(s)) == multiset(s)
  {
    if s != [] {
      SortByDateDescSorts(s[1..]);
      InsertByDateSorted(s[0], SortByDateDesc(s[1..]));
      InsertByDateElements(s[0], SortByDateDesc(s[1..]));
      assert s == [s[0]] + s[1..];
    }
  }

  /** Skip then Take is the slice between two clamped bounds. */
  lemma SkipTakeIsSlice(s: seq<Email>, lo: int, size: int)
    requires lo >= 0 && size >= 0
    ensures var a := if lo < |s| then lo else |s|;
      var b := if lo + size < |s| then lo + size else |s|;
      Take(Skip(s, lo), size) == s[a..b]
  {
  }

  // ---------------------------------------------------------------------------
  // What OnGetMails promises
  // ---------------------------------------------------------------------------

  /** A page below 1 is answered as page 1. */
  lemma PageBelowOneIsFirst(emails: seq<Email>, imapId: Guid, page: int, pageSize: int)
    requires IsInt32(page) && IsInt32(pageSize) && page < 1
    ensures OnGetMails(emails, imapId, page, pageSize) == OnGetMails(emails, imapId, 1, pageSize)
  {
  }

  /** Only a negative page size is refused. */
  lemma RejectedOnlyForNegativeSize(emails: seq<Email>, imapId: Guid, page: int, pageSize: int)
    requires IsInt32(page) && IsInt32(pageSize)
    ensures OnGetMails(emails, imapId, page, pageSize).QueryRejected? <==> pageSize < 0
  {
  }

  /** Kept as a lemma so that the page proofs see the product's sign without
      reasoning about the product itself. */
  lemma MulNonNegative(x: int, y: int)
    requires x >= 0 && y >= 0
    ensures x * y >= 0
  {
  }

  lemma SliceNewestFirst(s: seq<Email>, a: int, b: int)
    requires 0 <= a <= b <= |s| && NewestFirst(s)
    ensures NewestFirst(s[a..b])
  {
    forall i, j | 0 <= i < j < b - a
      ensures s[a..b][i].date >= s[a..b][j].date
    {
      assert s[a..b][i] == s[a + i] && s[a..b][j] == s[a + j];
    }
  }

  /** The listing holds only the account's Emails. */
  lemma OrderedMembers(emails: seq<Email>, imapId: Guid)
    ensures forall e :: e in Ordered(emails, imapId) ==> e in emails && e.imapInformationId == imapId
  {
    SortByDateDescSorts(OfAccount(emails, imapId));
    OfAccountSelects(emails, imapId);
    forall e | e in Ordered(emails, imapId)
      ensures e in OfAccount(emails, imapId)
    {
      assert e in multiset(Ordered(emails, imapId));
    }
  }

  /** A page is the slice of the account's Emails, newest first, that starts
      at (page - 1) * pageSize and holds at most pageSize of them. */
  lemma PageIsSliceOfOrdered(emails: seq<Email>, imapId: Guid, page: int, pageSize: int)
    requires IsInt32(page) && IsInt32(pageSize) && pageSize >= 0
    ensures var listed := Ordered(emails, imapId);
      var lo := (ClampPage(page) - 1) * pageSize;
      var a := if lo < |listed| then lo else |listed|;
      var b := if lo + pageSize < |listed| then lo + pageSize else |listed|;
      var r := OnGetMails(emails, imapId, page, pageSize);
      r.Page? && 0 <= a <= b <= |listed| && r.page.emails == listed[a..b]
  {
    var listed := Ordered(emails, imapId);
    var lo := (ClampPage(page) - 1) * pageSize;
    MulNonNegative(ClampPage(page) - 1, pageSize);
    SkipTakeIsSlice(listed, lo, pageSize);
  }

  /** A page holds at most pageSize Emails, all of the account, newest first. */
  lemma PageNewestFirstOfAccount(emails: seq<Email>, imapId: Guid, page: int, pageSize: int)
    requires IsInt32(page) && IsInt32(pageSize) && pageSize >= 0
    ensures var r := OnGetMails(emails, imapId, page, pageSize);
      && r.Page?
      && |r.page.emails| <= pageSize
      && NewestFirst(r.page.emails)
      && (forall e :: e in r.page.emails ==> e in emails && e.imapInformationId == imapId)
  {
    var listed := Ordered(emails, imapId);
    var lo := (ClampPage(page) - 1) * pageSize;
    var a := if lo < |listed| then lo else |listed|;
    var b := if lo + pageSize < |listed| then lo + pageSize else |listed|;
    PageIsSliceOfOrdered(emails, imapId, page, pageSize);
    SortByDateDescSorts(OfAccount(emails, imapId));
    SliceNewestFirst(listed, a, b);
    OrderedMembers(emails, imapId);
    assert forall e :: e in listed[a..b] ==> e in listed;
  }

  /** For a positive page size, hasMorePages is true exactly when the next page
      is not empty. */
  lemma HasMorePagesIffNextPageNonEmpty(emails: seq<Email>, imapId: Guid, page: int, pageSize: int)
    requires 1 <= page < Int32Max && 0 < pageSize <= Int32Max
    ensures var r := OnGetMails(emails, imapId, page, pageSize);
      var next := OnGetMails(emails, imapId, page + 1, pageSize);
      r.Page? && next.Page? && (r.page.hasMorePages <==> next.page.emails != [])
  {
    var listed := Ordered(emails, imapId);
    assert page * pageSize >= 0 by {
      assert page >= 0 && pageSize >= 0;
    }
    assert ((page + 1) - 1) * pageSize == page * pageSize;
    SkipTakeIsSlice(listed, page * pageSize, pageSize);
  }

  /** Page k (counting from 1) of `listed` cut into pages of pageSize. */
  function PageOf(listed: seq<Email>, k: nat, pageSize: nat): seq<Email>
    requires k >= 1
  {
    Take(Skip(listed, (k - 1) * pageSize), pageSize)
  }

  /** Pages 1..k of `listed`, concatenated in page order. */
  function PagesOf(listed: seq<Email>, k: nat, pageSize: nat): seq<Email>
  {
    if k == 0 then [] else PagesOf(listed, k - 1, pageSize) + PageOf(listed, k, pageSize)
  }

  /** The Emails of page k, for a page size that is not negative, are page k
      of the account's ordered Emails. */
  lemma OnGetMailsListsPageOf(emails: seq<Email>, imapId: Guid, page: int, pageSize: int)
    requires 1 <= page <= Int32Max && 0 <= pageSize <= Int32Max
    ensures var r := OnGetMails(emails, imapId, page, pageSize);
      r.Page? && r.page.emails == PageOf(Ordered(emails, imapId), page, pageSize)
  {
  }

  /** Where the first k pages end in a list of `len` Emails: each page
      moves the end on by pageSize, up to len. */
  function PagesEnd(k: nat, pageSize: nat, len: nat): (end: nat)
    ensures end <= len
  {
    if k == 0 then 0
    else
      var prev := PagesEnd(k - 1, pageSize, len);
      if prev + pageSize < len then prev + pageSize else len
  }

  /** The first k pages end at k * pageSize, or at the end of the list. */
  lemma {:induction false} PagesEndIsProduct(k: nat, pageSize: nat, len: nat)
    ensures PagesEnd(k, pageSize, len) == if k * pageSize < len then k * pageSize else len
  {
    if k > 0 {
      PagesEndIsProduct(k - 1, pageSize, len);
      assert (k - 1) * pageSize + pageSize == k * pageSize;
    }
  }

  /** Consecutive pages do not overlap and leave no gap: the first k of them,
      in order, are the first k * pageSize Emails of the list (all of it once
      k * pageSize reaches its length). */
  lemma {:induction false} PagesFormPrefix(listed: seq<Email>, k: nat, pageSize: nat)
    ensures PagesOf(listed, k, pageSize) == listed[..PagesEnd(k, pageSize, |listed|)]
  {
    var j := 0;
    while j < k
      invariant j <= k
      invariant PagesOf(listed, j, pageSize) == listed[..PagesEnd(j, pageSize, |listed|)]
    {
      j := j + 1;
      var a, b := PageBounds(listed, j, pageSize);
      PrefixConcat(listed, a, b, PagesOf(listed, j - 1, pageSize), PageOf(listed, j, pageSize));
    }
  }

  /** Page k lies between where pages 1..k-1 end and where pages 1..k end. */
  lemma PageBounds(listed: seq<Email>, k: nat, pageSize: nat) returns (a: nat, b: nat)
    requires k >= 1
    ensures a == PagesEnd(k - 1, pageSize, |listed|) && b == PagesEnd(k, pageSize, |listed|)
    ensures a <= b <= |listed| && PageOf(listed, k, pageSize) == listed[a..b]
  {
    assert (k - 1) * pageSize + pageSize == k * pageSize && (k - 1) * pageSize >= 0;
    SkipTakeIsSlice(listed, (k - 1) * pageSize, pageSize);
    PageEndsAt(k, pageSize, |listed|);
    a, b := PagesEnd(k - 1, pageSize, |listed|), PagesEnd(k, pageSize, |listed|);
  }

  /** Page k starts at (k - 1) * pageSize and is pageSize long, both capped at len. */
  lemma PageEndsAt(k: nat, pageSize: nat, len: nat)
    requires k >= 1
    ensures var lo := (k - 1) * pageSize;
      && PagesEnd(k - 1, pageSize, len) == (if lo < len then lo else len)
      && PagesEnd(k, pageSize, len) == (if lo + pageSize < len then lo + pageSize else len)
  {
    PagesEndIsProduct(k - 1, pageSize, len);
  }

  /** A prefix followed by the next slice is the longer prefix; kept as a
      lemma so that the tiling loop does not re-derive it from the page terms. */
  lemma PrefixConcat(s: seq<Email>, a: nat, b: nat, prefix: seq<Email>, slice: seq<Email>)
    requires a <= b <= |s| && prefix == s[..a] && slice == s[a..b]
    ensures prefix + slice == s[..b]
  {
  }

  // ---------------------------------------------------------------------------
  // Overflow in the page arithmetic
  // ---------------------------------------------------------------------------

  /** While both products fit in an int, the code as written and the
      overflow-free definition agree. */
  lemma AsWrittenAgreesWithoutOverflow(emails: seq<Email>, imapId: Guid, page: int, pageSize: int)
    requires IsInt32(page) && IsInt32(pageSize)
    requires IsInt32(ClampPage(page) * pageSize) && IsInt32((ClampPage(page) - 1) * pageSize)
    ensures OnGetMailsAsWritten(emails, imapId, page, pageSize) == OnGetMails(emails, imapId, page, pageSize)
  {
    var p := ClampPage(page);
    if pageSize >= 0 {
      assert (p - 1) * pageSize >= 0;
    }
  }

  /** Page 214748365 of size 10: the offset 2147483640 still fits, so the page
      is empty, but page * pageSize wraps to a negative number and the flag
      claims more pages for an account with one Email. */
  lemma HasMorePagesAfterOverflow(e: Email)
    ensures var r := OnGetMailsAsWritten([e], e.imapInformationId, 214748365, 10);
      r == Page(MailsPage([], true))
    ensures OnGetMails([e], e.imapInformationId, 214748365, 10) == Page(MailsPage([], false))
  {
    assert OfAccount([e], e.imapInformationId) == [e];
  }

  /** Page 214748366 of size 10: the offset wraps to a negative number, which
      the database refuses, where an empty last page was due. */
  lemma OffsetOverflowRejected(e: Email)
    ensures OnGetMailsAsWritten([e], e.imapInformationId, 214748366, 10) == QueryRejected
    ensures OnGetMails([e], e.imapInformationId, 214748366, 10) == Page(MailsPage([], false))
  {
    assert OfAccount([e], e.imapInformationId) == [e];
  }
}
