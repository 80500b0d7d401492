/**
  Keyset pagination: pages of the newest matching rows below the last id seen, over a
  table to which rows with larger ids are appended while it is being walked.
*/
module KeysetPagination {
  import opened Common

  datatype Rec<T> = Rec(id: int, body: T)

  /** Rows in the order of insertion; ids are handed out in increasing order. */
  predicate Ascending<T>(t: seq<Rec<T>>) {
    forall i, j :: 0 <= i < j < |t| ==> t[i].id < t[j].id
  }

  /** The simple list: all matching rows, newest first. */
  function Matching<T>(t: seq<Rec<T>>, pass: T -> bool): seq<Rec<T>> {
    if |t| == 0 then []
    else (if pass(t[|t| - 1].body) then [t[|t| - 1]] else []) + Matching(t[..|t| - 1], pass)
  }

  /** One page: matching rows with an id below `before`, newest first, at most `limit` of them. */
  function Page<T>(t: seq<Rec<T>>, pass: T -> bool, before: Option<int>, limit: nat): seq<Rec<T>> {
    if |t| == 0 || limit == 0 then []
    else
      var last := t[|t| - 1];
      if pass(last.body) && (before.None? || last.id < before.value)
      then [last] + Page(t[..|t| - 1], pass, before, limit - 1)
      else Page(t[..|t| - 1], pass, before, limit)
  }

  predicate Descending<T>(t: seq<Rec<T>>) {
    forall i, j :: 0 <= i < j < |t| ==> t[i].id > t[j].id
  }

  // ----- Pages are slices of the simple list -----

  lemma {:induction false} MatchingDescends<T>(t: seq<Rec<T>>, pass: T -> bool)
    requires Ascending(t)
    ensures Descending(Matching(t, pass))
    ensures forall r :: r in Matching(t, pass) ==> r in t
  {
    if |t| > 0 {
      var rest, last := t[..|t| - 1], t[|t| - 1];
      MatchingDescends(rest, pass);
      var m := Matching(rest, pass);
      forall r | r in m ensures r in t && r.id < last.id {
        var k :| 0 <= k < |rest| && rest[k] == r;
        assert t[k] == r;
      }
      assert Matching(t, pass) == if pass(last.body) then [last] + m else m;
    }
  }

  lemma {:induction false} BoundAboveAllIsNoBound<T>(t: seq<Rec<T>>, pass: T -> bool, bound: int, limit: nat)
    requires forall i :: 0 <= i < |t| ==> t[i].id < bound
    ensures Page(t, pass, Some(bound), limit) == Page(t, pass, None, limit)
  {
    if |t| > 0 && limit > 0 {
      BoundAboveAllIsNoBound(t[..|t| - 1], pass, bound, limit);
      BoundAboveAllIsNoBound(t[..|t| - 1], pass, bound, limit - 1);
    }
  }

  function Slice<T>(m: seq<T>, k: nat, limit: nat): seq<T>
    requires k <= |m|
  {
    if k + limit <= |m| then m[k..k + limit] else m[k..]
  }

  /** The bound that resumes a walk after k rows of a simple list. */
  function BoundAfter<T>(m: seq<Rec<T>>, k: nat): Option<int>
    requires k <= |m|
  {
    if k == 0 then None else Some(m[k - 1].id)
  }

  /** Resuming behind the newest row, where it matches, passes over it. */
  lemma BoundPassesNewest<T>(t: seq<Rec<T>>, pass: T -> bool, k: nat, limit: nat)
    requires |t| > 0 && Ascending(t) && pass(t[|t| - 1].body)
    requires 0 < k <= |Matching(t, pass)|
    ensures Page(t, pass, BoundAfter(Matching(t, pass), k), limit)
            == Page(t[..|t| - 1], pass, BoundAfter(Matching(t[..|t| - 1], pass), k - 1), limit)
  {
    var rest, last := t[..|t| - 1], t[|t| - 1];
    forall i | 0 <= i < |rest| ensures rest[i].id < last.id {
      assert rest[i] == t[i];
    }
    if k == 1 {
      BoundAboveAllIsNoBound(rest, pass, last.id, limit);
    } else {
      MatchingDescends(rest, pass);
      assert Matching(rest, pass)[k - 2] in rest;
    }
  }

  /** The page below the k-th matching row holds the next `limit` of the simple list. */
  lemma {:induction false} PageIsSlice<T>(t: seq<Rec<T>>, pass: T -> bool, k: nat, limit: nat)
    requires Ascending(t) && k <= |Matching(t, pass)|
    ensures Page(t, pass, BoundAfter(Matching(t, pass), k), limit) == Slice(Matching(t, pass), k, limit)
  {
    if |t| > 0 && limit > 0 {
      var rest, last := t[..|t| - 1], t[|t| - 1];
      var tail := Matching(rest, pass);
      if !pass(last.body) {
        assert Matching(t, pass) == tail;
        PageIsSlice(rest, pass, k, limit);
      } else if k == 0 {
        PageIsSlice(rest, pass, 0, limit - 1);
      } else {
        BoundPassesNewest(t, pass, k, limit);
        PageIsSlice(rest, pass, k - 1, limit);
      }
    }
  }

  /** The rows that pass, and no others. */
  lemma {:induction false} MatchingIsFilter<T>(t: seq<Rec<T>>, pass: T -> bool)
    ensures forall r :: r in Matching(t, pass) <==> r in t && pass(r.body)
  {
    if |t| > 0 {
      var rest, last := t[..|t| - 1], t[|t| - 1];
      MatchingIsFilter(rest, pass);
      assert t == rest + [last];
      assert forall r :: r in t <==> r in rest || r == last;
    }
  }

  /** A page holds passing rows of the table below the bound, at most `limit` of them. */
  lemma {:induction false} PageIsSound<T>(t: seq<Rec<T>>, pass: T -> bool, before: Option<int>, limit: nat)
    ensures var page := Page(t, pass, before, limit);
            && |page| <= limit
            && (forall r :: r in page ==> r in t && pass(r.body) && (before.Some? ==> r.id < before.value))
  {
    if |t| > 0 && limit > 0 {
      PageIsSound(t[..|t| - 1], pass, before, limit - 1);
      PageIsSound(t[..|t| - 1], pass, before, limit);
    }
  }

  /** It is in the order of descending ids. */
  lemma {:induction false} PageDescends<T>(t: seq<Rec<T>>, pass: T -> bool, before: Option<int>, limit: nat)
    requires Ascending(t)
    ensures Descending(Page(t, pass, before, limit))
  {
    if |t| > 0 && limit > 0 {
      hide Ascending;
      PageDescends(t[..|t| - 1], pass, before, limit - 1);
      PageDescends(t[..|t| - 1], pass, before, limit);
      PageIsSound(t[..|t| - 1], pass, before, limit - 1);
    }
  }

  /** A passing row below the bound that is missing lies below a full page. */
  lemma {:induction false} PageIsComplete<T>(
    t: seq<Rec<T>>, pass: T -> bool, before: Option<int>, limit: nat, r: Rec<T>)
    requires Ascending(t) && r in t && pass(r.body) && (before.Some? ==> r.id < before.value)
    ensures var page := Page(t, pass, before, limit);
            r in page || (|page| == limit && forall x :: x in page ==> r.id < x.id)
  {
    if |t| > 0 && limit > 0 {
      hide Ascending;
      if r != t[|t| - 1] {
        PageIsComplete(t[..|t| - 1], pass, before, limit - 1, r);
        PageIsComplete(t[..|t| - 1], pass, before, limit, r);
      }
    }
  }

  // ----- A table that changes while it is walked -----

  /** Later on, the old rows keep their ids and still match or still do not; new rows come after them. */
  ghost predicate Extends<T>(was: seq<Rec<T>>, is_: seq<Rec<T>>, pass: T -> bool) {
    && |was| <= |is_|
    && forall i :: 0 <= i < |was| ==> is_[i].id == was[i].id && pass(is_[i].body) == pass(was[i].body)
  }

  function Ids<T>(rows: seq<Rec<T>>): (ids: seq<int>)
    ensures |ids| == |rows| && forall i :: 0 <= i < |rows| ==> ids[i] == rows[i].id
  {
    seq(|rows|, i requires 0 <= i < |rows| => rows[i].id)
  }

  /** The simple list of a later table ends with the rows of the earlier one. */
  lemma {:induction false} MatchingExtends<T>(was: seq<Rec<T>>, later: seq<Rec<T>>, pass: T -> bool)
    requires Extends(was, later, pass)
    ensures var m, n := Matching(was, pass), Matching(later, pass);
            && |m| <= |n|
            && (|was| == |later| ==> |m| == |n|)
            && forall i :: 0 <= i < |m| ==> n[|n| - |m| + i].id == m[i].id
    decreases |later|
  {
    if |later| > |was| {
      MatchingExtends(was, later[..|later| - 1], pass);
    } else if |was| > 0 {
      MatchingExtends(was[..|was| - 1], later[..|later| - 1], pass);
      var m, n := Matching(was, pass), Matching(later, pass);
      assert later[|was| - 1].id == was[|was| - 1].id;
      var m', n' := Matching(was[..|was| - 1], pass), Matching(later[..|later| - 1], pass);
      assert m == if pass(was[|was| - 1].body) then [was[|was| - 1]] + m' else m';
      assert n == if pass(later[|later| - 1].body) then [later[|later| - 1]] + n' else n';
    }
  }

  /** The states of a table over time. */
  ghost predicate Grows<T>(tables: nat -> seq<Rec<T>>, pass: T -> bool) {
    forall i :: Ascending(tables(i)) && Extends(tables(0), tables(i), pass)
  }

  /** Below the k-th row of the first simple list, a later page holds the next rows of that list. */
  lemma LaterPage<T>(was: seq<Rec<T>>, later: seq<Rec<T>>, pass: T -> bool, k: nat, limit: nat)
    requires Ascending(later) && Extends(was, later, pass)
    requires 0 < k <= |Matching(was, pass)|
    ensures var m := Matching(was, pass);
            Ids(Page(later, pass, Some(m[k - 1].id), limit)) == Slice(Ids(m), k, limit)
  {
    hide Page, Matching;
    var m, n := Matching(was, pass), Matching(later, pass);
    MatchingExtends(was, later, pass);
    PageIsSlice(later, pass, |n| - |m| + k, limit);
  }

  ghost predicate SeenRow<T>(tables: nat -> seq<Rec<T>>, r: Rec<T>) {
    exists i: nat :: r in tables(i)
  }

  /** Each row was in the table at some time. */
  ghost predicate Seen<T>(tables: nat -> seq<Rec<T>>, rows: seq<Rec<T>>) {
    forall r :: r in rows ==> SeenRow(tables, r)
  }

  lemma BothSeen<T>(tables: nat -> seq<Rec<T>>, a: seq<Rec<T>>, b: seq<Rec<T>>)
    requires Seen(tables, a) && Seen(tables, b)
    ensures Seen(tables, a + b) && Seen(tables, [])
  {
  }

  lemma PageIsSeen<T>(tables: nat -> seq<Rec<T>>, i: nat, pass: T -> bool, before: Option<int>, limit: nat)
    ensures Seen(tables, Page(tables(i), pass, before, limit))
  {
    PageIsSound(tables(i), pass, before, limit);
  }

  /** What was returned so far is a beginning of the first simple list, and `page` continues it. */
  ghost predicate Underway<T>(first: seq<Rec<T>>, pass: T -> bool, limit: nat, out: seq<Rec<T>>, page: seq<Rec<T>>) {
    var ids := Ids(Matching(first, pass));
    |out| <= |ids| && Ids(out) == ids[..|out|] && Ids(page) == Slice(ids, |out|, limit)
  }

  lemma WalkStarts<T>(first: seq<Rec<T>>, pass: T -> bool, limit: nat)
    requires Ascending(first)
    ensures Underway(first, pass, limit, [], Page(first, pass, None, limit))
  {
  }

  lemma WalkGoesOn<T>(first: seq<Rec<T>>, later: seq<Rec<T>>, pass: T -> bool, limit: nat,
                      out: seq<Rec<T>>, page: seq<Rec<T>>)
    requires Ascending(later) && Extends(first, later, pass)
    requires Underway(first, pass, limit, out, page) && page != []
    ensures var out' := out + page;
            Underway(first, pass, limit, out', Page(later, pass, Some(out'[|out'| - 1].id), limit))
  {
    LaterPage(first, later, pass, |out + page|, limit);
  }

  lemma WalkGetsCloser<T>(first: seq<Rec<T>>, pass: T -> bool, limit: nat, out: seq<Rec<T>>, page: seq<Rec<T>>)
    requires Underway(first, pass, limit, out, page)
    ensures |out| <= |Matching(first, pass)|
  {
  }

  lemma WalkEnds<T>(first: seq<Rec<T>>, pass: T -> bool, limit: nat, out: seq<Rec<T>>)
    requires limit > 0 && Underway(first, pass, limit, out, [])
    ensures Ids(out) == Ids(Matching(first, pass))
  {
  }

  /**
    Fetches pages, each below the last id of the one before, until a page is empty.  It
    ends, and has then seen exactly the rows that matched at the first fetch, each once,
    newest first.
  */
  method Walk<T>(tables: nat -> seq<Rec<T>>, pass: T -> bool, limit: nat) returns (out: seq<Rec<T>>)
    requires limit > 0 && Grows(tables, pass)
    ensures Ids(out) == Ids(Matching(tables(0), pass))
    ensures Seen(tables, out)
  {
    hide Page, Matching, Underway, Seen;
    WalkStarts(tables(0), pass, limit);
    PageIsSeen(tables, 0, pass, None, limit);
    var page := Page(tables(0), pass, None, limit);
    BothSeen(tables, page, page);
    out := [];
    var fetches := 1;
    while page != []
      invariant Underway(tables(0), pass, limit, out, page)
      invariant Seen(tables, out) && Seen(tables, page)
      decreases |Matching(tables(0), pass)| - |out|
    {
      WalkGetsCloser(tables(0), pass, limit, out, page);
      WalkGoesOn(tables(0), tables(fetches), pass, limit, out, page);
      BothSeen(tables, out, page);
      out := out + page;
      PageIsSeen(tables, fetches, pass, Some(out[|out| - 1].id), limit);
      page := Page(tables(fetches), pass, Some(out[|out| - 1].id), limit);
      fetches := fetches + 1;
    }
    WalkEnds(tables(0), pass, limit, out);
  }

  // ----- The economy ledger -----

  datatype LedgerEvent = LedgerEvent(createdAt: int, user: int, eventType: string, amount: int, currency: string)

  datatype LedgerQuery = LedgerQuery(
    limit: int, beforeId: Option<int>, user: Option<int>, eventType: string, from: Option<int>, to: Option<int>)
  {
    predicate Passes(e: LedgerEvent) {
      && (user.Some? ==> e.user == user.value)
      && (eventType != "" ==> e.eventType == eventType)
      && (from.Some? ==> from.value <= e.createdAt)
      && (to.Some? ==> e.createdAt <= to.value)
    }

    function EffectiveLimit(): (n: nat)
      ensures 1 <= n <= 100
    {
      if limit <= 0 then 50 else if limit > 100 then 100 else limit
    }
  }

  /** One row of the query's scan: it joins the page or is passed over. */
  lemma ScanRow<T>(t: seq<Rec<T>>, k: nat, pass: T -> bool, before: Option<int>, limit: nat)
    requires 0 < k <= |t| && limit > 0
    ensures Page(t[..k], pass, before, limit) ==
            if pass(t[k - 1].body) && (before.None? || t[k - 1].id < before.value)
            then [t[k - 1]] + Page(t[..k - 1], pass, before, limit - 1)
            else Page(t[..k - 1], pass, before, limit)
  {
    assert t[..k][..k - 1] == t[..k - 1];
  }

  lemma NothingLeft<T>(t: seq<Rec<T>>, pass: T -> bool, before: Option<int>, limit: nat)
    requires t == [] || limit == 0
    ensures Page(t, pass, before, limit) == []
  {
  }

  /** The page of a query in terms of its fields and those of the rows. */
  lemma LedgerPage(rows: seq<Rec<LedgerEvent>>, q: LedgerQuery)
    ensures var out := Page(rows, q.Passes, q.beforeId, q.EffectiveLimit());
            var limit := if q.limit <= 0 then 50 else if q.limit > 100 then 100 else q.limit;
            && |out| <= limit
            && (forall r :: r in out ==>
                  && r in rows && (q.beforeId.Some? ==> r.id < q.beforeId.value)
                  && (q.user.Some? ==> r.body.user == q.user.value)
                  && (q.eventType != "" ==> r.body.eventType == q.eventType)
                  && (q.from.Some? ==> q.from.value <= r.body.createdAt)
                  && (q.to.Some? ==> r.body.createdAt <= q.to.value))
            && (Ascending(rows) ==>
                  && Descending(out)
                  && forall r ::
                       && r in rows && r !in out && (q.beforeId.Some? ==> r.id < q.beforeId.value)
                       && (q.user.Some? ==> r.body.user == q.user.value)
                       && (q.eventType != "" ==> r.body.eventType == q.eventType)
                       && (q.from.Some? ==> q.from.value <= r.body.createdAt)
                       && (q.to.Some? ==> r.body.createdAt <= q.to.value) ==>
                       |out| == limit && forall x :: x in out ==> r.id < x.id)
  {
    PageIsSound(rows, q.Passes, q.beforeId, q.EffectiveLimit());
    hide Page;
    if Ascending(rows) {
      PageDescends(rows, q.Passes, q.beforeId, q.EffectiveLimit());
      hide Ascending, Descending;
      forall r | r in rows && q.Passes(r.body) && (q.beforeId.Some? ==> r.id < q.beforeId.value)
        ensures var out := Page(rows, q.Passes, q.beforeId, q.EffectiveLimit());
                r in out || (|out| == q.EffectiveLimit() && forall x :: x in out ==> r.id < x.id)
      {
        PageIsComplete(rows, q.Passes, q.beforeId, q.EffectiveLimit(), r);
      }
    }
  }

  class EconomyLedger {
    var rows: seq<Rec<LedgerEvent>>

    constructor ()
      ensures rows == []
    {
      rows := [];
    }

    method ListEvents(q: LedgerQuery) returns (out: seq<Rec<LedgerEvent>>)
      ensures out == Page(rows, q.Passes, q.beforeId, q.EffectiveLimit())
      ensures |out| <= if q.limit <= 0 then 50 else if q.limit > 100 then 100 else q.limit
      ensures forall r :: r in out ==>
                && r in rows && (q.beforeId.Some? ==> r.id < q.beforeId.value)
                && (q.user.Some? ==> r.body.user == q.user.value)
                && (q.eventType != "" ==> r.body.eventType == q.eventType)
                && (q.from.Some? ==> q.from.value <= r.body.createdAt)
                && (q.to.Some? ==> r.body.createdAt <= q.to.value)
      ensures (forall i, j :: 0 <= i < j < |rows| ==> rows[i].id < rows[j].id) ==>
                && (forall i, j :: 0 <= i < j < |out| ==> out[i].id > out[j].id)
                && forall r ::
                     && r in rows && r !in out && (q.beforeId.Some? ==> r.id < q.beforeId.value)
                     && (q.user.Some? ==> r.body.user == q.user.value)
                     && (q.eventType != "" ==> r.body.eventType == q.eventType)
                     && (q.from.Some? ==> q.from.value <= r.body.createdAt)
                     && (q.to.Some? ==> r.body.createdAt <= q.to.value) ==>
                     && |out| == (if q.limit <= 0 then 50 else if q.limit > 100 then 100 else q.limit)
                     && forall x :: x in out ==> r.id < x.id
    {
      hide Page;
      var limit := q.limit;
      if limit <= 0 {
        limit := 50;
      }
      if limit > 100 {
        limit := 100;
      }
      out := ScanEvents(q, limit);
      LedgerPage(rows, q);
    }

    /** The database's scan: from the newest row on, until the page is full. */
    method ScanEvents(q: LedgerQuery, limit: nat) returns (out: seq<Rec<LedgerEvent>>)
      ensures out == Page(rows, q.Passes, q.beforeId, limit)
    {
      hide Page;
      out := [];
      var k := |rows|;
      assert rows[..k] == rows;
      while k > 0 && |out| < limit
        invariant 0 <= k <= |rows| && |out| <= limit
        invariant out + Page(rows[..k], q.Passes, q.beforeId, limit - |out|)
                  == Page(rows, q.Passes, q.beforeId, limit)
      {
        var r := rows[k - 1];
        ScanRow(rows, k, q.Passes, q.beforeId, limit - |out|);
        if && (q.user.None? || r.body.user == q.user.value)
           && (q.eventType == "" || r.body.eventType == q.eventType)
           && (q.from.None? || r.body.createdAt >= q.from.value)
           && (q.to.None? || r.body.createdAt <= q.to.value)
           && (q.beforeId.None? || r.id < q.beforeId.value) {
          out := out + [r];
        }
        k := k - 1;
      }
      NothingLeft(rows[..k], q.Passes, q.beforeId, limit - |out|);
    }
  }

  /** Rows of later tables with the ids of old ones are the old ones. */
  lemma SameIdSameRow<T>(was: seq<Rec<T>>, later: seq<Rec<T>>, a: Rec<T>, b: Rec<T>)
    requires Ascending(later) && was <= later && a in was && b in later && a.id == b.id
    ensures a == b
  {
  }

  /** Ledger rows never change, so the walk returns exactly the rows of the simple list. */
  method WalkLedger(tables: nat -> seq<Rec<LedgerEvent>>, q: LedgerQuery) returns (out: seq<Rec<LedgerEvent>>)
    requires forall i :: Ascending(tables(i)) && tables(0) <= tables(i)
    ensures out == Matching(tables(0), q.Passes)
    ensures forall i, j :: 0 <= i < j < |out| ==> out[i].id > out[j].id
    ensures forall r :: r in out <==>
              && r in tables(0)
              && (q.user.Some? ==> r.body.user == q.user.value)
              && (q.eventType != "" ==> r.body.eventType == q.eventType)
              && (q.from.Some? ==> q.from.value <= r.body.createdAt)
              && (q.to.Some? ==> r.body.createdAt <= q.to.value)
  {
    MatchingIsFilter(tables(0), q.Passes);
    out := Walk(tables, q.Passes, q.EffectiveLimit());
    ghost var m := Matching(tables(0), q.Passes);
    assert |Ids(out)| == |Ids(m)|;
    MatchingDescends(tables(0), q.Passes);
    forall k | 0 <= k < |m| ensures out[k] == m[k] {
      assert out[k] in out;
      assert SeenRow(tables, out[k]);
      var i: nat :| out[k] in tables(i);
      assert Ids(out)[k] == Ids(m)[k];
      SameIdSameRow(tables(0), tables(i), m[k], out[k]);
    }
  }

  // ----- Operator cases -----

  datatype CaseRow = CaseRow(status: string, priority: string, subject: Option<int>, assignee: Option<int>)

  datatype CaseQuery = CaseQuery(limit: int, beforeId: Option<int>, status: string, subject: Option<int>) {
    predicate Passes(c: CaseRow) {
      && (status != "" ==> c.status == status)
      && (subject.Some? ==> c.subject == subject)
    }

    function EffectiveLimit(): (n: nat)
      ensures 1 <= n <= 200
    {
      if limit < 1 then 50 else if limit > 200 then 200 else limit
    }
  }

  /** Cases are updated in place, but id and subject never are; newer cases come after them. */
  ghost predicate CasesMoveOn(first: seq<Rec<CaseRow>>, later: seq<Rec<CaseRow>>) {
    && Ascending(first) && Ascending(later) && |first| <= |later|
    && forall i :: 0 <= i < |first| ==>
         later[i].id == first[i].id && later[i].body.subject == first[i].body.subject
  }

  /** No case enters or leaves the status that the query asks for. */
  ghost predicate StatusStays(q: CaseQuery, first: seq<Rec<CaseRow>>, later: seq<Rec<CaseRow>>)
    requires CasesMoveOn(first, later)
  {
    q.status == "" ||
    forall i :: 0 <= i < |first| ==> (later[i].body.status == q.status <==> first[i].body.status == q.status)
  }

  /** Without a status filter, or where no case enters or leaves its status, a walk over cases misses nothing. */
  method WalkCases(tables: nat -> seq<Rec<CaseRow>>, q: CaseQuery) returns (out: seq<Rec<CaseRow>>)
    requires forall i :: CasesMoveOn(tables(0), tables(i)) && StatusStays(q, tables(0), tables(i))
    ensures Ids(out) == Ids(Matching(tables(0), q.Passes))
    ensures forall i, j :: 0 <= i < j < |out| ==> out[i].id > out[j].id
    ensures forall id :: id in Ids(out) <==> exists r ::
              && r in tables(0) && r.id == id && (q.status != "" ==> r.body.status == q.status)
              && (q.subject.Some? ==> r.body.subject == q.subject)
  {
    forall i ensures Ascending(tables(i)) && Extends(tables(0), tables(i), q.Passes) {
      assert CasesMoveOn(tables(0), tables(i)) && StatusStays(q, tables(0), tables(i));
    }
    out := Walk(tables, q.Passes, q.EffectiveLimit());
    ghost var m := Matching(tables(0), q.Passes);
    MatchingIsFilter(tables(0), q.Passes);
    MatchingDescends(tables(0), q.Passes);
    assert |Ids(out)| == |Ids(m)| && forall i :: 0 <= i < |m| ==> Ids(out)[i] == m[i].id;
    forall id ensures id in Ids(m) <==> exists r :: r in m && r.id == id {
      if r :| r in m && r.id == id {
        var k :| 0 <= k < |m| && m[k] == r;
        assert Ids(m)[k] == id;
      }
      if id in Ids(m) {
        var k :| 0 <= k < |m| && Ids(m)[k] == id;
        assert m[k] in m;
      }
    }
  }

  /** The page of a query in terms of its fields and those of the cases. */
  lemma CasePage(rows: seq<Rec<CaseRow>>, q: CaseQuery)
    ensures var out := Page(rows, q.Passes, q.beforeId, q.EffectiveLimit());
            var limit := if q.limit < 1 then 50 else if q.limit > 200 then 200 else q.limit;
            && |out| <= limit
            && (forall r :: r in out ==>
                  && r in rows && (q.beforeId.Some? ==> r.id < q.beforeId.value)
                  && (q.status != "" ==> r.body.status == q.status)
                  && (q.subject.Some? ==> r.body.subject == q.subject))
            && (Ascending(rows) ==>
                  && Descending(out)
                  && forall r ::
                       && r in rows && r !in out && (q.beforeId.Some? ==> r.id < q.beforeId.value)
                       && (q.status != "" ==> r.body.status == q.status)
                       && (q.subject.Some? ==> r.body.subject == q.subject) ==>
                       |out| == limit && forall x :: x in out ==> r.id < x.id)
  {
    PageIsSound(rows, q.Passes, q.beforeId, q.EffectiveLimit());
    hide Page;
    if Ascending(rows) {
      PageDescends(rows, q.Passes, q.beforeId, q.EffectiveLimit());
      hide Ascending, Descending;
      forall r | r in rows && q.Passes(r.body) && (q.beforeId.Some? ==> r.id < q.beforeId.value)
        ensures var out := Page(rows, q.Passes, q.beforeId, q.EffectiveLimit());
                r in out || (|out| == q.EffectiveLimit() && forall x :: x in out ==> r.id < x.id)
      {
        PageIsComplete(rows, q.Passes, q.beforeId, q.EffectiveLimit(), r);
      }
    }
  }

  class OperatorCases {
    var rows: seq<Rec<CaseRow>>

    constructor ()
      ensures rows == []
    {
      rows := [];
    }

    method ListCases(q: CaseQuery) returns (out: seq<Rec<CaseRow>>)
      ensures out == Page(rows, q.Passes, q.beforeId, q.EffectiveLimit())
      ensures |out| <= if q.limit < 1 then 50 else if q.limit > 200 then 200 else q.limit
      ensures forall r :: r in out ==>
                && r in rows && (q.beforeId.Some? ==> r.id < q.beforeId.value)
                && (q.status != "" ==> r.body.status == q.status) && (q.subject.Some? ==> r.body.subject == q.subject)
      ensures (forall i, j :: 0 <= i < j < |rows| ==> rows[i].id < rows[j].id) ==>
                && (forall i, j :: 0 <= i < j < |out| ==> out[i].id > out[j].id)
                && forall r ::
                     && r in rows && r !in out && (q.beforeId.Some? ==> r.id < q.beforeId.value)
                     && (q.status != "" ==> r.body.status == q.status)
                     && (q.subject.Some? ==> r.body.subject == q.subject) ==>
                     && |out| == (if q.limit < 1 then 50 else if q.limit > 200 then 200 else q.limit)
                     && forall x :: x in out ==> r.id < x.id
    {
      hide Page;
      var limit := q.limit;
      if limit < 1 {
        limit := 50;
      }
      if limit > 200 {
        limit := 200;
      }
      out := ScanCases(q, limit);
      CasePage(rows, q);
    }

    /** The database's scan: from the newest row on, until the page is full. */
    method ScanCases(q: CaseQuery, limit: nat) returns (out: seq<Rec<CaseRow>>)
      ensures out == Page(rows, q.Passes, q.beforeId, limit)
    {
      hide Page;
      out := [];
      var k := |rows|;
      assert rows[..k] == rows;
      while k > 0 && |out| < limit
        invariant 0 <= k <= |rows| && |out| <= limit
        invariant out + Page(rows[..k], q.Passes, q.beforeId, limit - |out|)
                  == Page(rows, q.Passes, q.beforeId, limit)
      {
        var r := rows[k - 1];
        ScanRow(rows, k, q.Passes, q.beforeId, limit - |out|);
        if && (q.status == "" || r.body.status == q.status)
           && (q.subject.None? || r.body.subject == q.subject)
           && (q.beforeId.None? || r.id < q.beforeId.value) {
          out := out + [r];
        }
        k := k - 1;
      }
      NothingLeft(rows[..k], q.Passes, q.beforeId, limit - |out|);
    }
  }

  /** Below the k-th case of the first simple list, the later page holds the next cases of that list. */
  ghost predicate PageContinues(q: CaseQuery, first: seq<Rec<CaseRow>>, later: seq<Rec<CaseRow>>, k: nat)
    requires 0 < k <= |Matching(first, q.Passes)|
  {
    var m := Matching(first, q.Passes);
    Ids(Page(later, q.Passes, Some(m[k - 1].id), q.EffectiveLimit())) == Slice(Ids(m), k, q.EffectiveLimit())
  }

  /** Two cases that pass the filter. */
  function TwoCases(q: CaseQuery): seq<Rec<CaseRow>> {
    var c := CaseRow(q.status, "normal", q.subject, None);
    [Rec(1, c), Rec(2, c)]
  }

  /** The older of them leaves the status asked for. */
  function OlderLeaves(q: CaseQuery): seq<Rec<CaseRow>> {
    TwoCases(q)[0 := Rec(1, CaseRow(if q.status == "open" then "closed" else "open", "normal", q.subject, None))]
  }

  /** Under a status filter a walk can lose a case that matched at the first fetch: the next page is empty. */
  lemma StatusFilterCanLoseRows(q: CaseQuery)
    requires q.status != ""
    ensures CasesMoveOn(TwoCases(q), OlderLeaves(q))
    ensures Ids(Matching(TwoCases(q), q.Passes)) == [2, 1]
    ensures Page(OlderLeaves(q), q.Passes, Some(2), q.EffectiveLimit()) == []
    ensures !PageContinues(q, TwoCases(q), OlderLeaves(q), 1)
  {
    var first, later := TwoCases(q), OlderLeaves(q);
    assert first[..1] == [first[0]] && later[..1] == [later[0]];
    assert first[..1][..0] == [] && later[..1][..0] == [];
    assert Matching(first[..1], q.Passes) == [first[0]];
    assert Matching(first, q.Passes) == [first[1], first[0]];
    assert Page(later[..1], q.Passes, Some(2), q.EffectiveLimit()) == [];
    assert |Slice([2, 1], 1, q.EffectiveLimit())| == 1;
  }

  /**
    Whatever happens to the cases between two fetches, every later page continues the
    first simple list if and only if the query has no status filter.
  */
  lemma PagesContinueExactlyWithoutStatusFilter(q: CaseQuery)
    ensures (forall first, later, k: nat :: CasesMoveOn(first, later) && 0 < k <= |Matching(first, q.Passes)| ==>
               PageContinues(q, first, later, k))
            <==> q.status == ""
  {
    if q.status == "" {
      forall first, later, k: nat | CasesMoveOn(first, later) && 0 < k <= |Matching(first, q.Passes)|
        ensures PageContinues(q, first, later, k)
      {
        LaterPage(first, later, q.Passes, k, q.EffectiveLimit());
      }
    } else {
      StatusFilterCanLoseRows(q);
      assert |Ids(Matching(TwoCases(q), q.Passes))| == 2;
    }
  }
}
