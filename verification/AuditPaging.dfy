/** Cursor paging through the audit log: newest first, each page starting strictly before the last
    timestamp of the page before it. */
module AuditPaging {
  import opened Domain
  import opened Sequences

  /** A row of the audit table; it is never changed once written. */
  datatype AuditEvent = AuditEvent(
    id: string, projectId: string, actorId: string, action: string,
    entityType: string, entityId: string, entityKey: string, environmentSlug: string,
    source: string, beforeState: string, afterState: string, occurredAt: int)

  /** A row of the listing: the event with the email its actor has at that moment. */
  datatype Row = Row(event: AuditEvent, actorEmail: string)

  /** One entry of the response. */
  datatype Entry = Entry(
    id: string, occurredAt: int, actorId: string, actorEmail: string, action: string,
    entityType: string, entityId: string, flagKey: string, environmentSlug: string,
    source: string, beforeState: string, afterState: string, projectSlug: string)

  function ToEntry(row: Row, projectSlug: string): Entry {
    var e := row.event;
    Entry(e.id, e.occurredAt, e.actorId, row.actorEmail, e.action, e.entityType, e.entityId,
          e.entityKey, e.environmentSlug, e.source, e.beforeState, e.afterState, projectSlug)
  }

  function EventsOf(rows: seq<Row>): seq<AuditEvent> {
    seq(|rows|, i requires 0 <= i < |rows| => rows[i].event)
  }

  const DEFAULT_LIMIT := 50
  const MAX_LIMIT := 200

  /** `NormalizeAuditFilter`. */
  function EffectiveLimit(limit: int): (l: int)
    ensures 1 <= l <= MAX_LIMIT
    ensures 1 <= limit <= MAX_LIMIT ==> l == limit
    ensures limit <= 0 ==> l == 50
    ensures limit > MAX_LIMIT ==> l == 200
  {
    if limit <= 0 then DEFAULT_LIMIT else if limit > MAX_LIMIT then MAX_LIMIT else limit
  }

  /** What a listing is asked for: a project, and one flag key unless it is empty. */
  datatype Selection = Selection(projectId: string, flagKey: string)

  predicate Selects(sel: Selection, e: AuditEvent) {
    e.projectId == sel.projectId && (sel.flagKey == "" || e.entityKey == sel.flagKey)
  }

  predicate Older(e: AuditEvent, before: Option<int>) { before.None? || e.occurredAt < before.value }

  predicate Candidate(table: set<AuditEvent>, sel: Selection, before: Option<int>, e: AuditEvent) {
    e in table && Selects(sel, e) && Older(e, before)
  }

  /** Everything the query promises: distinct candidates, newest first, at most `limit`, and a candidate
      is left out only behind a full page of events not older than it. Equal timestamps may come in
      any order. */
  ghost predicate IsPage(table: set<AuditEvent>, sel: Selection, before: Option<int>, limit: int,
                         page: seq<AuditEvent>)
  {
    && |page| <= limit
    && (forall i :: 0 <= i < |page| ==> Candidate(table, sel, before, page[i]))
    && (forall i, j :: 0 <= i < j < |page| ==> page[i] != page[j] && page[i].occurredAt >= page[j].occurredAt)
    && (forall e :: Candidate(table, sel, before, e) && e !in page ==>
          |page| == limit && forall i :: 0 <= i < |page| ==> page[i].occurredAt >= e.occurredAt)
  }

  function Last(page: seq<AuditEvent>): int
    requires page != []
  {
    page[|page| - 1].occurredAt
  }

  /** The cursor offered behind a page: none unless it is full. */
  function NextCursor(limit: int, page: seq<AuditEvent>): Option<int>
    requires limit >= 1
  {
    if |page| == limit then Some(Last(page)) else None
  }

  /** The entry shows the row: every field of the event under its own name, the stored key as the flag key. */
  predicate Shows(entry: Entry, row: Row, projectSlug: string) {
    && entry.id == row.event.id && entry.occurredAt == row.event.occurredAt && entry.actorId == row.event.actorId
    && entry.actorEmail == row.actorEmail && entry.action == row.event.action
    && entry.entityType == row.event.entityType && entry.entityId == row.event.entityId
    && entry.flagKey == row.event.entityKey && entry.environmentSlug == row.event.environmentSlug
    && entry.source == row.event.source && entry.beforeState == row.event.beforeState
    && entry.afterState == row.event.afterState && entry.projectSlug == projectSlug
  }

  /** The handler's tail: turn the rows into entries and offer the cursor. */
  method ListPage(limit: int, rows: seq<Row>, projectSlug: string) returns (entries: seq<Entry>, next: Option<int>)
    ensures |entries| == |rows| && forall i :: 0 <= i < |rows| ==> Shows(entries[i], rows[i], projectSlug)
    ensures next.Some? <==> |rows| == EffectiveLimit(limit)
    ensures next.Some? ==> rows != [] && next.value == rows[|rows| - 1].event.occurredAt
    ensures next == NextCursor(EffectiveLimit(limit), EventsOf(rows))
  {
    entries := [];
    for i := 0 to |rows|
      invariant |entries| == i && forall k :: 0 <= k < i ==> Shows(entries[k], rows[k], projectSlug)
    {
      entries := entries + [ToEntry(rows[i], projectSlug)];
    }
    next := None;
    if |rows| == EffectiveLimit(limit) { next := Some(rows[|rows| - 1].event.occurredAt); }
  }

  // ---------- following the cursors ----------

  /** A client following the cursors: the log, the cursor sent and the page received at each request. */
  datatype Walk = Walk(
    sel: Selection, limit: int, tables: seq<set<AuditEvent>>, cursors: seq<Option<int>>, pages: seq<seq<AuditEvent>>)

  /** Answer `i` offers a cursor to go on with. */
  ghost predicate Offers(w: Walk, i: int)
    requires w.limit >= 1 && 0 <= i < |w.pages|
  {
    NextCursor(w.limit, w.pages[i]).Some?
  }

  /** Request `i` is answered from the log of that moment, which has lost nothing since the first request, and the
      next request carries the cursor offered. */
  ghost predicate Answered(w: Walk, i: int)
    requires w.limit >= 1 && 0 <= i < |w.pages| == |w.tables| == |w.cursors|
  {
    && IsPage(w.tables[i], w.sel, w.cursors[i], w.limit, w.pages[i])
    && w.tables[0] <= w.tables[i]
    && (i + 1 < |w.pages| ==> Offers(w, i) && w.cursors[i + 1] == NextCursor(w.limit, w.pages[i]))
  }

  /** The requests made so far, from the one without a cursor on. */
  ghost predicate IsWalk(w: Walk) {
    && w.limit >= 1 && 0 < |w.pages| == |w.tables| == |w.cursors| && w.cursors[0] == None
    && forall i :: 0 <= i < |w.pages| ==> Answered(w, i)
  }

  /** The last answer offers no cursor. */
  ghost predicate Ended(w: Walk)
    requires IsWalk(w)
  {
    !Offers(w, |w.pages| - 1)
  }

  /** What was appended since the first request is newer than everything the log held then; an event that is
      committed late may break this. */
  ghost predicate Newer(first: set<AuditEvent>, now: set<AuditEvent>) {
    forall e, x :: e in now && e !in first && x in first ==> x.occurredAt < e.occurredAt
  }

  ghost predicate AppendsNewer(w: Walk)
    requires IsWalk(w)
  {
    forall i :: 0 <= i < |w.tables| ==> Newer(w.tables[0], w.tables[i])
  }

  /** Then every returned event was there at the first request. */
  lemma {:induction false} FromFirstTable(w: Walk, i: int, e: AuditEvent)
    requires IsWalk(w) && AppendsNewer(w) && 0 <= i < |w.pages| && e in w.pages[i]
    ensures e in w.tables[0] && Selects(w.sel, e)
    decreases i
  {
    assert Answered(w, i);
    if i > 0 {
      assert Answered(w, i - 1);
      var x := w.pages[i - 1][|w.pages[i - 1]| - 1];
      FromFirstTable(w, i - 1, x);
    }
  }

  /** Pages follow each other in time: everything on a later page is older than all of an earlier one. */
  lemma {:induction false} LaterIsOlder(w: Walk, i: int, j: int, x: AuditEvent, y: AuditEvent)
    requires IsWalk(w) && 0 <= i < j < |w.pages| && x in w.pages[i] && y in w.pages[j]
    ensures x.occurredAt > y.occurredAt
    decreases j - i
  {
    assert Answered(w, j);
    assert Answered(w, j - 1);
    var last := w.pages[j - 1][|w.pages[j - 1]| - 1];
    assert last.occurredAt > y.occurredAt;
    if i < j - 1 {
      LaterIsOlder(w, i, j - 1, x, last);
    } else {
      var k :| 0 <= k < |w.pages[i]| && w.pages[i][k] == x;
    }
  }

  ghost predicate Returned(w: Walk, e: AuditEvent) { exists i :: 0 <= i < |w.pages| && e in w.pages[i] }

  /** The event belongs to the project asked for, and to the flag if one is named. */
  predicate Asked(w: Walk, e: AuditEvent) {
    e.projectId == w.sel.projectId && (w.sel.flagKey != "" ==> e.entityKey == w.sel.flagKey)
  }

  /** Everything asked for that was there at the first request has been returned. */
  ghost predicate Complete(w: Walk)
    requires w.tables != []
  {
    forall e :: e in w.tables[0] && Asked(w, e) ==> Returned(w, e)
  }

  /** The page does not end between events of the same timestamp. */
  ghost predicate CleanCut(w: Walk, i: int)
    requires 0 <= i < |w.pages| && w.tables != []
  {
    w.pages[i] != [] ==>
      forall e :: e in w.tables[0] && Selects(w.sel, e) && e.occurredAt == Last(w.pages[i]) ==> e in w.pages[i]
  }

  ghost predicate NoTieCut(w: Walk)
    requires w.tables != []
  {
    forall i :: 0 <= i < |w.pages| - 1 ==> CleanCut(w, i)
  }

  lemma {:induction false} FoundFrom(w: Walk, i: int, e: AuditEvent)
    requires IsWalk(w) && Ended(w) && NoTieCut(w) && 0 <= i < |w.pages|
    requires Candidate(w.tables[0], w.sel, w.cursors[i], e)
    ensures Returned(w, e)
    decreases |w.pages| - i
  {
    assert Answered(w, i);
    if e !in w.pages[i] {
      assert Candidate(w.tables[i], w.sel, w.cursors[i], e);
      assert CleanCut(w, i);
      FoundFrom(w, i + 1, e);
    }
  }

  lemma TiedIsOnPage(w: Walk, i: int, e: AuditEvent)
    requires IsWalk(w) && 0 <= i < |w.pages| && w.pages[i] != [] && Returned(w, e) && e.occurredAt == Last(w.pages[i])
    ensures e in w.pages[i]
  {
    var j :| 0 <= j < |w.pages| && e in w.pages[j];
    var last := w.pages[i][|w.pages[i]| - 1];
    if j < i { LaterIsOlder(w, j, i, e, last); }
    if i < j { LaterIsOlder(w, i, j, last, e); }
  }

  /** Following the cursors returns each event at most once and newest first, and all events that were there at the
      first request, once the walk has ended, exactly if no page ended between events with the same timestamp; and
      only those, if what is appended meanwhile is newer. */
  lemma WalkExact(w: Walk)
    requires IsWalk(w)
    ensures AppendsNewer(w) ==> forall e :: Returned(w, e) ==> e in w.tables[0] && Asked(w, e)
    ensures forall i, j, x, y :: 0 <= i < j < |w.pages| && x in w.pages[i] && y in w.pages[j] ==>
              x.occurredAt > y.occurredAt
    ensures forall i, j, k :: 0 <= i < |w.pages| && 0 <= j < k < |w.pages[i]| ==>
              w.pages[i][j] != w.pages[i][k] && w.pages[i][j].occurredAt >= w.pages[i][k].occurredAt
    ensures Ended(w) ==> (Complete(w) <==> NoTieCut(w))
  {
    if AppendsNewer(w) {
      forall e | Returned(w, e) ensures e in w.tables[0] && Asked(w, e) {
        var i :| 0 <= i < |w.pages| && e in w.pages[i];
        FromFirstTable(w, i, e);
      }
    }
    forall i, j, x, y | 0 <= i < j < |w.pages| && x in w.pages[i] && y in w.pages[j]
      ensures x.occurredAt > y.occurredAt
    {
      LaterIsOlder(w, i, j, x, y);
    }
    forall i, j, k | 0 <= i < |w.pages| && 0 <= j < k < |w.pages[i]|
      ensures w.pages[i][j] != w.pages[i][k] && w.pages[i][j].occurredAt >= w.pages[i][k].occurredAt
    {
      assert Answered(w, i);
    }
    if Ended(w) && NoTieCut(w) {
      forall e | e in w.tables[0] && Selects(w.sel, e) ensures Returned(w, e) { FoundFrom(w, 0, e); }
    }
    if Complete(w) {
      forall i | 0 <= i < |w.pages| - 1 ensures CleanCut(w, i) {
        if w.pages[i] != [] {
          forall e | e in w.tables[0] && Selects(w.sel, e) && e.occurredAt == Last(w.pages[i]) ensures e in w.pages[i] {
            TiedIsOnPage(w, i, e);
          }
        }
      }
    }
  }

  // ---------- the walk ends ----------

  function PageSet(page: seq<AuditEvent>): set<AuditEvent> { set e | e in page }

  function EventsOn(pages: seq<seq<AuditEvent>>, n: int): set<AuditEvent>
    requires 0 <= n <= |pages|
  {
    if n == 0 then {} else EventsOn(pages, n - 1) + PageSet(pages[n - 1])
  }

  lemma {:induction false} DistinctSize(s: seq<AuditEvent>)
    requires forall i, j :: 0 <= i < j < |s| ==> s[i] != s[j]
    ensures |PageSet(s)| == |s|
  {
    if s != [] {
      var init := s[..|s| - 1];
      DistinctSize(init);
      assert PageSet(s) == PageSet(init) + {s[|s| - 1]};
    }
  }

  lemma {:induction false} EventsOnMembers(pages: seq<seq<AuditEvent>>, n: int, e: AuditEvent)
    requires 0 <= n <= |pages|
    ensures e in EventsOn(pages, n) <==> exists i :: 0 <= i < n && e in pages[i]
    decreases n
  {
    if n > 0 { EventsOnMembers(pages, n - 1, e); }
  }

  lemma NotTwice(w: Walk, n: int, e: AuditEvent)
    requires IsWalk(w) && 0 < n <= |w.pages| && e in w.pages[n - 1]
    ensures e !in EventsOn(w.pages, n - 1)
  {
    if e in EventsOn(w.pages, n - 1) {
      EventsOnMembers(w.pages, n - 1, e);
      var i :| 0 <= i < n - 1 && e in w.pages[i];
      LaterIsOlder(w, i, n - 1, e, e);
    }
  }

  lemma PagesDisjoint(w: Walk, n: int)
    requires IsWalk(w) && 0 < n <= |w.pages|
    ensures EventsOn(w.pages, n - 1) !! PageSet(w.pages[n - 1])
  {
    var page := w.pages[n - 1];
    forall e | e in page ensures e !in EventsOn(w.pages, n - 1) {
      NotTwice(w, n, e);
    }
  }

  lemma PageSize(w: Walk, i: int)
    requires IsWalk(w) && 0 <= i < |w.pages|
    ensures |PageSet(w.pages[i])| == |w.pages[i]| <= w.limit && (Offers(w, i) <==> |w.pages[i]| == w.limit)
  {
    assert Answered(w, i);
    DistinctSize(w.pages[i]);
  }

  lemma DisjointUnion(a: set<AuditEvent>, b: set<AuditEvent>)
    requires a !! b
    ensures |a + b| == |a| + |b|
  {
  }

  /** The size of `n` full pages. */
  function FullSize(n: nat, limit: nat): nat { if n == 0 then 0 else FullSize(n - 1, limit) + limit }

  lemma {:induction false} FullSizeIs(n: nat, limit: nat)
    ensures FullSize(n, limit) == n * limit
  {
    if n > 0 { FullSizeIs(n - 1, limit); }
  }

  lemma {:induction false} FullPages(w: Walk, n: nat)
    requires IsWalk(w) && n <= |w.pages| && forall i :: 0 <= i < n ==> Offers(w, i)
    ensures |EventsOn(w.pages, n)| == FullSize(n, w.limit)
  {
    if n > 0 {
      FullPages(w, n - 1);
      PageSize(w, n - 1);
      PagesDisjoint(w, n);
      DisjointUnion(EventsOn(w.pages, n - 1), PageSet(w.pages[n - 1]));
    }
  }

  /** Following the cursors comes to an end: as long as the last answer offers a cursor, all pages so far are full
      of different events of the first table, so that their number is bounded before the first request. */
  lemma WalkEnds(w: Walk)
    requires IsWalk(w) && AppendsNewer(w)
    ensures var selected := set e | e in w.tables[0] && Selects(w.sel, e);
            (if Ended(w) then |w.pages| - 1 else |w.pages|) * w.limit <= |selected|
  {
    var n := if Ended(w) then |w.pages| - 1 else |w.pages|;
    var all := set e | e in w.tables[0] && Selects(w.sel, e);
    forall i | 0 <= i < n ensures Offers(w, i) { assert Answered(w, i); }
    FullPages(w, n);
    FullSizeIs(n, w.limit);
    forall e | e in EventsOn(w.pages, n) ensures e in all {
      EventsOnMembers(w.pages, n, e);
      var i :| 0 <= i < n && e in w.pages[i];
      FromFirstTable(w, i, e);
    }
    SubsetSize(EventsOn(w.pages, n), all);
  }

  // ---------- when nothing is missed, told from the table alone ----------

  function Candidates(table: set<AuditEvent>, sel: Selection, before: Option<int>): set<AuditEvent> {
    set e | e in table && Candidate(table, sel, before, e)
  }

  /** The candidates not older than `t`. */
  function NotOlder(table: set<AuditEvent>, sel: Selection, before: Option<int>, t: int): set<AuditEvent> {
    set e | e in Candidates(table, sel, before) && e.occurredAt >= t
  }

  /** Pages can be cut without separating equal timestamps: fewer events are left than a page holds, or some event's
      timestamp cuts off exactly one page of events not older than it, and the rest can be cut as well. */
  predicate Cuttable(table: set<AuditEvent>, sel: Selection, limit: int, before: Option<int>)
    decreases Candidates(table, sel, before)
  {
    || |Candidates(table, sel, before)| < limit
    || exists e :: && e in Candidates(table, sel, before)
                   && |NotOlder(table, sel, before, e.occurredAt)| == limit
                   && Cuttable(table, sel, limit, Some(e.occurredAt))
  }

  /** What is appended is not older than any cursor, so each page is one of the first table. */
  lemma PageOfFirst(w: Walk, i: int)
    requires IsWalk(w) && AppendsNewer(w) && 0 <= i < |w.pages|
    ensures IsPage(w.tables[0], w.sel, w.cursors[i], w.limit, w.pages[i])
  {
    assert Answered(w, i);
    forall k | 0 <= k < |w.pages[i]| ensures Candidate(w.tables[0], w.sel, w.cursors[i], w.pages[i][k]) {
      assert Candidate(w.tables[i], w.sel, w.cursors[i], w.pages[i][k]);
      FromFirstTable(w, i, w.pages[i][k]);
    }
    forall e | Candidate(w.tables[0], w.sel, w.cursors[i], e) && e !in w.pages[i]
      ensures |w.pages[i]| == w.limit && forall k :: 0 <= k < |w.pages[i]| ==> w.pages[i][k].occurredAt >= e.occurredAt
    {
      assert Candidate(w.tables[i], w.sel, w.cursors[i], e);
    }
  }

  /** A page that is not full holds all candidates. */
  lemma ShortPage(table: set<AuditEvent>, sel: Selection, before: Option<int>, limit: int, page: seq<AuditEvent>)
    requires IsPage(table, sel, before, limit, page) && |page| < limit
    ensures |Candidates(table, sel, before)| < limit
  {
    DistinctSize(page);
    assert Candidates(table, sel, before) == PageSet(page);
  }

  /** A full page: there are enough candidates, and a cut that takes exactly one page takes this one. */
  lemma ForcedCut(table: set<AuditEvent>, sel: Selection, before: Option<int>, limit: int, page: seq<AuditEvent>,
                  e: AuditEvent)
    requires limit >= 1 && IsPage(table, sel, before, limit, page) && |page| == limit
    requires e in Candidates(table, sel, before) && |NotOlder(table, sel, before, e.occurredAt)| == limit
    ensures e.occurredAt == Last(page)
  {
    var last, cut := page[limit - 1], NotOlder(table, sel, before, e.occurredAt);
    DistinctSize(page);
    assert last in PageSet(page);
    if e.occurredAt > Last(page) {
      assert cut <= PageSet(page) - {last};
      SubsetSize(cut, PageSet(page) - {last});
    } else if e.occurredAt < Last(page) {
      assert e !in page;
      assert PageSet(page) + {e} <= cut;
      SubsetSize(PageSet(page) + {e}, cut);
    }
  }

  lemma SameSize(a: set<AuditEvent>, b: set<AuditEvent>)
    requires a <= b && |a| == |b|
    ensures a == b
  {
    forall x | x in b ensures x in a {
      if x !in a { SubsetSize(a, b - {x}); }
    }
  }

  /** A page is cut off by its last timestamp exactly if no candidate with that timestamp is left out. */
  lemma CleanIsExact(table: set<AuditEvent>, sel: Selection, before: Option<int>, limit: int, page: seq<AuditEvent>)
    requires limit >= 1 && IsPage(table, sel, before, limit, page) && |page| == limit
    ensures |Candidates(table, sel, before)| >= limit
    ensures |NotOlder(table, sel, before, Last(page))| == limit <==>
            forall e :: e in table && Selects(sel, e) && e.occurredAt == Last(page) ==> e in page
  {
    var all, cut, mine := Candidates(table, sel, before), NotOlder(table, sel, before, Last(page)), PageSet(page);
    DistinctSize(page);
    assert mine <= cut <= all;
    SubsetSize(mine, all);
    assert forall e :: e in table && Selects(sel, e) && e.occurredAt == Last(page) ==> e in cut by {
      assert Candidate(table, sel, before, page[limit - 1]);
    }
    if |cut| == limit {
      SameSize(mine, cut);
    } else if forall e :: e in table && Selects(sel, e) && e.occurredAt == Last(page) ==> e in page {
      assert cut <= mine;
      SubsetSize(cut, mine);
      SubsetSize(mine, cut);
    }
  }

  lemma CuttableStep(w: Walk, i: int)
    requires IsWalk(w) && AppendsNewer(w) && 0 <= i < |w.pages| - 1
    ensures Cuttable(w.tables[0], w.sel, w.limit, w.cursors[i]) <==>
            CleanCut(w, i) && Cuttable(w.tables[0], w.sel, w.limit, w.cursors[i + 1])
  {
    var table, before, page := w.tables[0], w.cursors[i], w.pages[i];
    assert Answered(w, i);
    PageOfFirst(w, i);
    CleanIsExact(table, w.sel, before, w.limit, page);
    if Cuttable(table, w.sel, w.limit, before) {
      var e :| && e in Candidates(table, w.sel, before) && |NotOlder(table, w.sel, before, e.occurredAt)| == w.limit
               && Cuttable(table, w.sel, w.limit, Some(e.occurredAt));
      ForcedCut(table, w.sel, before, w.limit, page, e);
    } else {
      assert page[|page| - 1] in Candidates(table, w.sel, before);
    }
  }

  /** No page from `i` on, but the last, ends between equal timestamps. */
  ghost predicate CleanFrom(w: Walk, i: int)
    requires w.tables != [] && 0 <= i
  {
    forall k :: i <= k < |w.pages| - 1 ==> CleanCut(w, k)
  }

  lemma LastCuttable(w: Walk)
    requires IsWalk(w) && Ended(w) && AppendsNewer(w)
    ensures Cuttable(w.tables[0], w.sel, w.limit, w.cursors[|w.pages| - 1])
  {
    var i := |w.pages| - 1;
    assert Answered(w, i);
    PageOfFirst(w, i);
    ShortPage(w.tables[0], w.sel, w.cursors[i], w.limit, w.pages[i]);
  }

  lemma {:induction false} CuttableFrom(w: Walk, i: int)
    requires IsWalk(w) && Ended(w) && AppendsNewer(w) && 0 <= i < |w.pages|
    ensures Cuttable(w.tables[0], w.sel, w.limit, w.cursors[i]) <==> CleanFrom(w, i)
    decreases |w.pages| - i
  {
    if i < |w.pages| - 1 {
      CuttableStep(w, i);
      CuttableFrom(w, i + 1);
      assert CleanFrom(w, i) <==> CleanCut(w, i) && CleanFrom(w, i + 1);
    } else {
      LastCuttable(w);
    }
  }

  /** Whether a walk will miss anything is decided by the first table and the limit alone, whatever order the database
      gives to equal timestamps: it returns everything exactly if the table can be cut. */
  lemma CompleteExactly(w: Walk)
    requires IsWalk(w) && Ended(w) && AppendsNewer(w)
    ensures Complete(w) <==> Cuttable(w.tables[0], w.sel, w.limit, None)
  {
    WalkExact(w);
    CuttableFrom(w, 0);
    assert NoTieCut(w) <==> CleanFrom(w, 0);
  }

  /** With distinct timestamps nothing is missed. */
  lemma DistinctTimesComplete(w: Walk, e: AuditEvent)
    requires IsWalk(w) && Ended(w)
    requires forall i, x, y :: 0 <= i < |w.tables| && x in w.tables[i] && y in w.tables[i] && x != y ==>
               x.occurredAt != y.occurredAt
    requires e in w.tables[0] && Selects(w.sel, e)
    ensures Returned(w, e)
  {
    forall i | 0 <= i < |w.pages| - 1 ensures CleanCut(w, i) {
      assert Answered(w, i);
      if w.pages[i] != [] { assert w.pages[i][|w.pages[i]| - 1] in w.tables[i]; }
    }
    WalkExact(w);
  }

  /** Two events with one timestamp and pages of one: the walk ends without the second. */
  lemma TieIsMissed() returns (w: Walk, missed: AuditEvent)
    ensures IsWalk(w) && Ended(w) && missed in w.tables[0] && Selects(w.sel, missed) && !Returned(w, missed)
  {
    var a := AuditEvent("a", "p", "", "", "", "", "k", "", "", "", "", 7);
    missed := a.(id := "b");
    w := Walk(Selection("p", ""), 1, [{a, missed}, {a, missed}], [None, Some(7)], [[a], []]);
    assert Answered(w, 0);
    assert Answered(w, 1);
  }

  // ---------- every request has an answer ----------

  lemma {:induction false} Newest(events: set<AuditEvent>) returns (e: AuditEvent)
    requires events != {}
    ensures e in events && forall x :: x in events ==> x.occurredAt <= e.occurredAt
    decreases |events|
  {
    e :| e in events;
    if events - {e} != {} {
      var other := Newest(events - {e});
      if other.occurredAt > e.occurredAt { e := other; }
    }
  }

  ghost predicate NewestFirst(list: seq<AuditEvent>) {
    forall i, j :: 0 <= i < j < |list| ==> list[i] != list[j] && list[i].occurredAt >= list[j].occurredAt
  }

  lemma ListingCons(e: AuditEvent, rest: seq<AuditEvent>)
    requires NewestFirst(rest) && forall x :: x in PageSet(rest) ==> x != e && x.occurredAt <= e.occurredAt
    ensures NewestFirst([e] + rest) && PageSet([e] + rest) == {e} + PageSet(rest)
  {
    var list := [e] + rest;
    forall i, j | 0 <= i < j < |list| ensures list[i] != list[j] && list[i].occurredAt >= list[j].occurredAt {
      assert list[j] == rest[j - 1] && rest[j - 1] in PageSet(rest);
    }
  }

  lemma {:induction false} Listing(events: set<AuditEvent>) returns (list: seq<AuditEvent>)
    ensures PageSet(list) == events && NewestFirst(list)
    decreases |events|
  {
    if events == {} {
      list := [];
    } else {
      var e := Newest(events);
      var rest := Listing(events - {e});
      ListingCons(e, rest);
      list := [e] + rest;
    }
  }

  /** For every table, selection, cursor and limit there is a page. */
  lemma PageExists(table: set<AuditEvent>, sel: Selection, before: Option<int>, limit: nat)
    returns (page: seq<AuditEvent>)
    ensures IsPage(table, sel, before, limit, page)
  {
    var list := Listing(Candidates(table, sel, before));
    page := if |list| <= limit then list else list[..limit];
    forall i | 0 <= i < |page| ensures Candidate(table, sel, before, page[i]) { assert list[i] in PageSet(list); }
    forall e | Candidate(table, sel, before, e) && e !in page
      ensures |page| == limit && forall i :: 0 <= i < |page| ==> page[i].occurredAt >= e.occurredAt
    {
      assert e in PageSet(list);
      var k :| 0 <= k < |list| && list[k] == e;
    }
  }

  /** One more request over the same table. */
  function Extended(w: Walk, page: seq<AuditEvent>): Walk
    requires w.limit >= 1 && w.pages != [] && w.tables != []
  {
    w.(tables := w.tables + [w.tables[0]], cursors := w.cursors + [NextCursor(w.limit, w.pages[|w.pages| - 1])],
       pages := w.pages + [page])
  }

  lemma ExtendedIsWalk(w: Walk, page: seq<AuditEvent>)
    requires IsWalk(w) && !Ended(w)
    requires IsPage(w.tables[0], w.sel, NextCursor(w.limit, w.pages[|w.pages| - 1]), w.limit, page)
    ensures IsWalk(Extended(w, page))
  {
    var t, n := Extended(w, page), |w.pages|;
    assert t.cursors[0] == w.cursors[0];
    forall i | 0 <= i <= n ensures Answered(t, i) {
      if i < n {
        assert Answered(w, i);
        assert t.pages[i] == w.pages[i] && t.tables[i] == w.tables[i] && t.cursors[i] == w.cursors[i];
        assert i + 1 < n ==> t.cursors[i + 1] == w.cursors[i + 1];
      }
    }
  }

  lemma AtMostProduct(n: nat, limit: nat, size: nat)
    requires limit >= 1 && n * limit <= size
    ensures n <= size
  {
    assert n * limit >= n * 1;
  }

  /** Over a table nobody writes to, following the cursors makes a walk that has ended after boundedly many requests. */
  lemma FollowCursors(table: set<AuditEvent>, sel: Selection, limit: nat) returns (w: Walk)
    requires limit >= 1
    ensures IsWalk(w) && Ended(w) && w.sel == sel && w.limit == limit
    ensures forall i :: 0 <= i < |w.tables| ==> w.tables[i] == table
  {
    var selected := set e | e in table && Selects(sel, e);
    var page := PageExists(table, sel, None, limit);
    w := Walk(sel, limit, [table], [None], [page]);
    assert Answered(w, 0);
    while !Ended(w)
      invariant IsWalk(w) && w.sel == sel && w.limit == limit
      invariant forall i :: 0 <= i < |w.tables| ==> w.tables[i] == table
      invariant |w.pages| <= |selected| + 1
      decreases |selected| + 1 - |w.pages|
    {
      WalkEnds(w);
      AtMostProduct(|w.pages|, limit, |selected|);
      page := PageExists(table, sel, NextCursor(limit, w.pages[|w.pages| - 1]), limit);
      ExtendedIsWalk(w, page);
      w := Extended(w, page);
    }
  }
}
