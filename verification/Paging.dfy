/** Filtered keyset paging, and what a client that follows the cursors sees. */
module Paging {
  import opened ByteStrings
  import opened Store
  import opened Encoding
  import opened Tables

  // ---------------------------------------------------------------- one page

  /** The seven conditions of a filter; `to` is exclusive and zero values are ignored. */
  predicate Matches(f: Filter, c: Core) {
    && (f.from == ZERO_TIME || f.from <= c.ts)
    && (f.to == ZERO_TIME || c.ts < f.to)
    && (f.service == [] || c.sourceService == f.service)
    && (f.actor == [] || c.actorId == f.actor)
    && (f.action == [] || c.action == f.action)
    && (f.targetType == [] || c.targetType == f.targetType)
    && (f.targetId == [] || c.targetId == f.targetId)
  }

  predicate Selected(f: Filter, c: Core) {
    Matches(f, c) && (f.cursor == NO_CURSOR || KeyLt(f.cursor, KeyOf(c)))
  }

  /** The rows among the first `n` that the filter lets through, in order. */
  function SelectTo(t: Table, f: Filter, n: nat): Table
    requires n <= |t|
  {
    if n == 0 then []
    else SelectTo(t, f, n - 1) + if Selected(f, t[n - 1].core) then [t[n - 1]] else []
  }

  function Select(t: Table, f: Filter): Table {
    SelectTo(t, f, |t|)
  }

  function Clamp(limit: int): (r: nat)
    ensures 1 <= r <= 1000
  {
    if limit <= 0 || limit > 1000 then 1000 else limit
  }

  function Take(t: Table, n: nat): Table {
    if |t| <= n then t else t[..n]
  }

  /** The two stores tell the client differently that there may be more. */
  datatype Rule = FullPage | LimitPlusOne

  function Page(rule: Rule, t: Table, f: Filter): ListResult {
    var limit := Clamp(f.limit);
    match rule
    case FullPage =>
      var out := Take(Select(t, f), limit);
      ListResult(out, if |out| >= limit then KeyOf(out[|out| - 1].core) else NO_CURSOR)
    case LimitPlusOne =>
      var rows := Take(Select(t, f), limit + 1);
      if |rows| > limit then ListResult(rows[..limit], KeyOf(rows[limit - 1].core))
      else ListResult(rows, NO_CURSOR)
  }

  /** Page sizes, and when each store announces a further page. */
  lemma PageMeaning(t: Table, f: Filter)
    ensures var n := if 1 <= f.limit <= 1000 then f.limit else 1000;
            var all, full, plus := Select(t, f), Page(FullPage, t, f), Page(LimitPlusOne, t, f);
            && full.events == plus.events == (if |all| <= n then all else all[..n])
            && full.nextCursor == (if |all| < n then NO_CURSOR else KeyOf(all[n - 1].core))
            && plus.nextCursor == (if |all| <= n then NO_CURSOR else KeyOf(all[n - 1].core))
  {
  }

  // ---------------------------------------------------------------- facts about selection

  lemma {:induction false} SelectFacts(t: Table, f: Filter, n: nat)
    requires n <= |t| && Sorted(t)
    ensures var r := SelectTo(t, f, n);
            && Sorted(r)
            && (forall k :: 0 <= k < |r| ==> Selected(f, r[k].core))
            && (forall k :: 0 <= k < |r| ==> exists i :: 0 <= i < n && t[i] == r[k])
  {
    if n == 0 {
    } else {
      SelectFacts(t, f, n - 1);
    }
  }

  lemma {:induction false} SelectComplete(t: Table, f: Filter, n: nat, i: nat)
    requires i < n <= |t| && Selected(f, t[i].core)
    ensures t[i] in SelectTo(t, f, n)
  {
    if i == n - 1 {
    } else {
      SelectComplete(t, f, n - 1, i);
    }
  }

  /** A row is listed exactly when it is stored, meets every condition that is set, and comes after the cursor. */
  lemma ListedIff(t: Table, f: Filter, e: Event)
    requires Sorted(t)
    ensures e in Select(t, f) <==>
            && e in t
            && (f.from == ZERO_TIME || f.from <= e.core.ts)
            && (f.to == ZERO_TIME || e.core.ts < f.to)
            && (f.service == [] || f.service == e.core.sourceService)
            && (f.actor == [] || f.actor == e.core.actorId)
            && (f.action == [] || f.action == e.core.action)
            && (f.targetType == [] || f.targetType == e.core.targetType)
            && (f.targetId == [] || f.targetId == e.core.targetId)
            && (f.cursor == NO_CURSOR || f.cursor.ts < e.core.ts
                || (f.cursor.ts == e.core.ts && exists k: nat :: FirstDifference(f.cursor.id, e.core.id, k)))
  {
    SelectFacts(t, f, |t|);
    KeyLtIff(f.cursor, KeyOf(e.core));
    if e in Select(t, f) {
      var k :| 0 <= k < |Select(t, f)| && Select(t, f)[k] == e;
      assert Selected(f, Select(t, f)[k].core);
    }
    if e in t && Selected(f, e.core) {
      var i :| 0 <= i < |t| && t[i] == e;
      SelectComplete(t, f, |t|, i);
    }
  }

  function SelectedPositions(t: Table, f: Filter, n: nat): set<nat>
    requires n <= |t|
  {
    set i: nat | i < n && Selected(f, t[i].core)
  }

  lemma PositionsStep(t: Table, f: Filter, n: nat)
    requires 0 < n <= |t|
    ensures SelectedPositions(t, f, n)
         == SelectedPositions(t, f, n - 1) + if Selected(f, t[n - 1].core) then {n - 1} else {}
  {
  }

  /** Nothing selected is lost or repeated: the result has one row per selected position. */
  lemma {:induction false} SelectCounts(t: Table, f: Filter, n: nat)
    requires n <= |t|
    ensures |SelectTo(t, f, n)| == |SelectedPositions(t, f, n)|
  {
    if n == 0 {
    } else {
      SelectCounts(t, f, n - 1);
      PositionsStep(t, f, n);
    }
  }

  lemma {:induction false} SelectGrows(t: Table, f: Filter, m: nat, n: nat)
    requires m <= n <= |t|
    ensures |SelectTo(t, f, m)| <= |SelectTo(t, f, n)|
    ensures SelectTo(t, f, n)[..|SelectTo(t, f, m)|] == SelectTo(t, f, m)
  {
    if m == n {
    } else {
      SelectGrows(t, f, m, n - 1);
    }
  }

  /** What the listing loop has when it stops, at the end or at a full page, is the page. */
  lemma PageFromLoop(t: Table, f: Filter, i: nat, out: Table)
    requires i <= |t| && out == SelectTo(t, f, i)
    requires |out| <= Clamp(f.limit) && (i == |t| || |out| == Clamp(f.limit))
    ensures Page(FullPage, t, f)
         == ListResult(out, if |out| == Clamp(f.limit) then KeyOf(out[|out| - 1].core) else NO_CURSOR)
  {
    SelectGrows(t, f, i, |t|);
  }

  /** No stored row has the zero time; event validation sees to that. */
  ghost predicate NonZeroTimes(t: Table) {
    forall i :: 0 <= i < |t| ==> t[i].core.ts != ZERO_TIME
  }

  /** Moving the cursor to the k-th selected row, unless its time is zero, drops exactly the first k rows. */
  lemma CursorDrops(t: Table, f: Filter, k: nat)
    requires Sorted(t)
    requires 0 < k <= |Select(t, f)| && Select(t, f)[k - 1].core.ts != ZERO_TIME
    ensures Select(t, f.(cursor := KeyOf(Select(t, f)[k - 1].core))) == Select(t, f)[k..]
  {
    SelectFacts(t, f, |t|);
    CursorDropsTo(t, f, k, |t|);
  }

  lemma {:induction false} CursorDropsTo(t: Table, f: Filter, k: nat, n: nat)
    requires Sorted(t) && n <= |t|
    requires 0 < k <= |Select(t, f)| && Select(t, f)[k - 1].core.ts != ZERO_TIME
    ensures var s := SelectTo(t, f, n);
            SelectTo(t, f.(cursor := KeyOf(Select(t, f)[k - 1].core)), n) == if |s| <= k then [] else s[k..]
  {
    if n == 0 {
    } else {
      CursorDropsTo(t, f, k, n - 1);
      SelectedPast(t, f, k, n);
    }
  }

  lemma SelectedPast(t: Table, f: Filter, k: nat, n: nat)
    requires Sorted(t) && 0 < n <= |t|
    requires 0 < k <= |Select(t, f)| && Select(t, f)[k - 1].core.ts != ZERO_TIME
    ensures var c := KeyOf(Select(t, f)[k - 1].core);
            Selected(f.(cursor := c), t[n - 1].core)
            <==> Selected(f, t[n - 1].core) && |SelectTo(t, f, n - 1)| >= k
  {
    var all, p, row := Select(t, f), |SelectTo(t, f, n - 1)|, t[n - 1].core;
    var c := KeyOf(all[k - 1].core);
    SelectFacts(t, f, |t|);
    SelectGrows(t, f, n - 1, |t|);
    if Selected(f, row) {
      SelectGrows(t, f, n, |t|);
      assert SelectTo(t, f, n)[p].core == row;
      assert all[p].core == row;
      KeyLtTotal(c, KeyOf(row));
      assert p < k - 1 ==> KeyLt(KeyOf(row), c);
    } else if Selected(f.(cursor := c), row) {
      KeyLtTransitive(f.cursor, c, KeyOf(row));
    }
  }

  // ---------------------------------------------------------------- following cursors in a quiet store

  /** Whatever the times are: a full prefix, with the key of its last row if more rows follow. */
  lemma PageShape(rule: Rule, t: Table, f: Filter)
    ensures var p, all, n := Page(rule, t, f), Select(t, f), Clamp(f.limit);
            && p.events == (if |all| <= n then all else all[..n])
            && (|all| > n ==> p.nextCursor == KeyOf(all[n - 1].core))
            && (|all| <= n ==> p.nextCursor == NO_CURSOR || (|all| == n && p.nextCursor == KeyOf(all[n - 1].core)))
  {
  }

  lemma PageIsPrefix(rule: Rule, t: Table, f: Filter)
    requires Sorted(t) && NonZeroTimes(t)
    ensures var p := Page(rule, t, f);
            && |p.events| <= |Select(t, f)| && p.events == Select(t, f)[..|p.events|]
            && (p.nextCursor.ts == ZERO_TIME || p.events == [] ==> p.events == Select(t, f))
            && (p.nextCursor.ts != ZERO_TIME ==>
                  p.events != [] && p.nextCursor == KeyOf(p.events[|p.events| - 1].core))
  {
    SelectFacts(t, f, |t|);
    assert forall k :: 0 <= k < |Select(t, f)| ==> Select(t, f)[k].core.ts != ZERO_TIME;
  }

  lemma NextPage(rule: Rule, t: Table, f: Filter)
    requires Sorted(t)
    requires Page(rule, t, f).nextCursor.ts != ZERO_TIME
    ensures var p := Page(rule, t, f);
            var g := f.(cursor := p.nextCursor);
            p.events + Select(t, g) == Select(t, f) && |Select(t, g)| < |Select(t, f)|
  {
    PageShape(rule, t, f);
    CursorDrops(t, f, |Page(rule, t, f).events|);
  }

  /** What a caller's loop needs of the page it has just read, `all` being what it has gathered before. */
  lemma PageRead(rule: Rule, t: Table, f: Filter, res: ListResult, all: Table, wanted: Table)
    requires Sorted(t) && NonZeroTimes(t) && res == Page(rule, t, f)
    requires all + Select(t, f) == wanted
    ensures res.events == [] ==> all == wanted
    ensures res.nextCursor.ts == ZERO_TIME ==> all + res.events == wanted
    ensures res.nextCursor.ts != ZERO_TIME ==>
              var rest := Select(t, f.(cursor := res.nextCursor));
              all + res.events + rest == wanted && |rest| < |Select(t, f)|
  {
    PageIsPrefix(rule, t, f);
    if res.nextCursor.ts != ZERO_TIME {
      NextPage(rule, t, f);
      assert all + res.events + Select(t, f.(cursor := res.nextCursor)) == all + Select(t, f);
    }
  }

  /** The loop of every caller: stop at an empty page or a zero cursor. */
  function Follow(rule: Rule, t: Table, f: Filter): Table
    requires Sorted(t)
    decreases |Select(t, f)|
  {
    var p := Page(rule, t, f);
    if p.events == [] || p.nextCursor.ts == ZERO_TIME then p.events
    else
      NextPage(rule, t, f);
      p.events + Follow(rule, t, f.(cursor := p.nextCursor))
  }

  /** The number of rows on `k` full pages. */
  function RowsOn(k: nat, n: nat): (r: nat)
    ensures k > 0 ==> r >= n
  {
    if k == 0 then 0 else n + RowsOn(k - 1, n)
  }

  /** No row that closes a full page, with further rows behind it, has the zero time. */
  ghost predicate BoundariesTimed(rows: Table, n: nat)
    requires n > 0
  {
    forall k: nat :: 0 < RowsOn(k, n) < |rows| ==> rows[RowsOn(k, n) - 1].core.ts != ZERO_TIME
  }

  lemma ShiftedBoundaries(rows: Table, n: nat)
    requires 0 < n < |rows|
    ensures BoundariesTimed(rows, n) <==> rows[n - 1].core.ts != ZERO_TIME && BoundariesTimed(rows[n..], n)
  {
    assert RowsOn(1, n) == n;
    if BoundariesTimed(rows, n) {
      forall k: nat | 0 < RowsOn(k, n) < |rows[n..]| ensures rows[n..][RowsOn(k, n) - 1].core.ts != ZERO_TIME {
        assert RowsOn(k + 1, n) == n + RowsOn(k, n);
      }
    } else if rows[n - 1].core.ts != ZERO_TIME {
      var k: nat :| 0 < RowsOn(k, n) < |rows| && rows[RowsOn(k, n) - 1].core.ts == ZERO_TIME;
      assert RowsOn(k, n) == n + RowsOn(k - 1, n);
    }
  }

  /** For every limit and either rule, the pages make up the filtered table exactly when no boundary is at time zero. */
  lemma {:induction false} FollowSelectsAllIff(rule: Rule, t: Table, f: Filter)
    requires Sorted(t)
    ensures Follow(rule, t, f) == Select(t, f) <==> BoundariesTimed(Select(t, f), Clamp(f.limit))
    decreases |Select(t, f)|
  {
    PageShape(rule, t, f);
    var p, all, n := Page(rule, t, f), Select(t, f), Clamp(f.limit);
    if p.events != [] && p.nextCursor.ts != ZERO_TIME {
      NextPage(rule, t, f);
      FollowSelectsAllIff(rule, t, f.(cursor := p.nextCursor));
    }
    if |all| > n {
      ShiftedBoundaries(all, n);
    }
  }

  /** In a store without zero times, as validation leaves it, the pages always make up the filtered table. */
  lemma FollowSelectsAll(rule: Rule, t: Table, f: Filter)
    requires Sorted(t) && NonZeroTimes(t)
    ensures Follow(rule, t, f) == Select(t, f)
  {
    FollowSelectsAllIff(rule, t, f);
    SelectFacts(t, f, |t|);
  }

  /** The stores' two ways of announcing a further page lead every client to the same rows. */
  lemma {:induction false} RulesAgree(t: Table, f: Filter)
    requires Sorted(t)
    ensures Follow(FullPage, t, f) == Follow(LimitPlusOne, t, f)
    decreases |Select(t, f)|
  {
    PageShape(FullPage, t, f);
    PageShape(LimitPlusOne, t, f);
    var p, all, n := Page(FullPage, t, f), Select(t, f), Clamp(f.limit);
    if p.events == [] || p.nextCursor.ts == ZERO_TIME {
    } else if |all| > n {
      NextPage(FullPage, t, f);
      RulesAgree(t, f.(cursor := p.nextCursor));
    } else {
      NextPage(FullPage, t, f);
      NothingFollows(t, f.(cursor := p.nextCursor));
    }
  }

  lemma NothingFollows(t: Table, f: Filter)
    requires Sorted(t) && Select(t, f) == []
    ensures Follow(FullPage, t, f) == []
  {
  }

  /** A stored zero time would end the loop early: its row, last on a full page, yields a zero cursor. */
  lemma ZeroTimeEndsPagingEarly(a: Event, b: Event)
    requires a.core.ts == ZERO_TIME && b.core.ts > ZERO_TIME
    ensures var f := Filter(ZERO_TIME, ZERO_TIME, [], [], [], [], [], 1, NO_CURSOR);
            var p := Page(FullPage, [a, b], f);
            Select([a, b], f) == [a, b] && p.events == [a] && p.nextCursor.ts == ZERO_TIME
  {
    var f := Filter(ZERO_TIME, ZERO_TIME, [], [], [], [], [], 1, NO_CURSOR);
    var t := [a, b];
    assert SelectTo(t, f, 1) == [a];
    assert SelectTo(t, f, 2) == [a, b];
  }

  // ---------------------------------------------------------------- following cursors while rows arrive

  datatype Scan = Scan(rows: Table, finished: bool)

  /** `tables[i]` is the store as the i-th page read finds it. */
  function ScanOver(rule: Rule, tables: seq<Table>, f: Filter): Scan
    decreases |tables|
  {
    if tables == [] then Scan([], false)
    else
      var p := Page(rule, tables[0], f);
      if p.events == [] || p.nextCursor.ts == ZERO_TIME then Scan(p.events, true)
      else
        var rest := ScanOver(rule, tables[1..], f.(cursor := p.nextCursor));
        Scan(p.events + rest.rows, rest.finished)
  }

  /** The store only grows from one page read to the next. */
  ghost predicate Growing(tables: seq<Table>) {
    && (forall i :: 0 <= i < |tables| ==> WellFormed(tables[i]))
    && (forall i, j :: 0 <= i < j < |tables| ==> Cores(tables[i]) <= Cores(tables[j]))
  }

  ghost predicate AllNonZero(tables: seq<Table>) {
    forall i :: 0 <= i < |tables| ==> NonZeroTimes(tables[i])
  }

  /** The call stores no zero time. */
  predicate Timed(c: Call) {
    match c
    case Chained(s) => s.Insert? ==> s.e.core.ts != ZERO_TIME
    case Plain(e) => e.core.ts != ZERO_TIME
  }

  predicate AllTimed(calls: seq<Call>) {
    forall i :: 0 <= i < |calls| ==> Timed(calls[i])
  }

  lemma {:induction false} TimesStayNonZero(rowHash: RowHash, t: Table, calls: seq<Call>)
    requires NonZeroTimes(t) && AllTimed(calls)
    ensures NonZeroTimes(RunCalls(rowHash, t, calls))
    decreases |calls|
  {
    if calls == [] {
    } else {
      assert Timed(calls[0]);
      TimesStayNonZero(rowHash, ApplyCall(rowHash, t, calls[0]), calls[1..]);
    }
  }

  ghost predicate LeadsTo(rowHash: RowHash, t: Table, calls: seq<Call>, u: Table) {
    u == RunCalls(rowHash, t, calls)
  }

  /** Each table is what some calls have made of the one before it. */
  ghost predicate ReadsOfARun(rowHash: RowHash, tables: seq<Table>, calls: seq<seq<Call>>) {
    && |calls| == |tables|
    && (forall k :: 0 < k < |tables| ==> LeadsTo(rowHash, tables[k - 1], calls[k], tables[k]))
  }

  /** The first table's rows carry over to the second. */
  ghost predicate CarriesOver(t: Table, u: Table) {
    WellFormed(t) ==> WellFormed(u) && Cores(t) <= Cores(u)
  }

  lemma OneReadCarries(rowHash: RowHash, t: Table, calls: seq<Call>, u: Table)
    requires LeadsTo(rowHash, t, calls, u)
    ensures CarriesOver(t, u)
  {
    if WellFormed(t) {
      CallsAreAppendOnly(rowHash, t, calls);
    }
  }

  lemma CarriesOverTwice(t: Table, u: Table, v: Table)
    requires CarriesOver(t, u) && CarriesOver(u, v)
    ensures CarriesOver(t, v)
  {
  }

  lemma {:induction false} ReadsKeep(rowHash: RowHash, tables: seq<Table>, calls: seq<seq<Call>>, i: nat, j: nat)
    requires ReadsOfARun(rowHash, tables, calls) && i <= j < |tables|
    ensures CarriesOver(tables[i], tables[j])
    decreases j
  {
    if i == j {
    } else {
      ReadsKeep(rowHash, tables, calls, i, j - 1);
      OneReadCarries(rowHash, tables[j - 1], calls[j], tables[j]);
      CarriesOverTwice(tables[i], tables[j - 1], tables[j]);
    }
  }

  lemma {:induction false} ReadsStayTimed(rowHash: RowHash, tables: seq<Table>, calls: seq<seq<Call>>, j: nat)
    requires ReadsOfARun(rowHash, tables, calls) && j < |tables| && NonZeroTimes(tables[0])
    requires forall k :: 0 < k < |calls| ==> AllTimed(calls[k])
    ensures NonZeroTimes(tables[j])
  {
    if j == 0 {
    } else {
      ReadsStayTimed(rowHash, tables, calls, j - 1);
      assert LeadsTo(rowHash, tables[j - 1], calls[j], tables[j]);
      TimesStayNonZero(rowHash, tables[j - 1], calls[j]);
    }
  }

  /** The states of one store at successive page reads, with any calls in between, do grow. */
  lemma ReadsOfARunGrow(rowHash: RowHash, tables: seq<Table>, calls: seq<seq<Call>>)
    requires ReadsOfARun(rowHash, tables, calls)
    requires tables != [] ==> WellFormed(tables[0])
    ensures Growing(tables)
    ensures tables != [] && NonZeroTimes(tables[0]) && (forall k :: 0 < k < |calls| ==> AllTimed(calls[k])) ==>
              AllNonZero(tables)
  {
    forall j | 0 <= j < |tables| ensures WellFormed(tables[j]) {
      ReadsKeep(rowHash, tables, calls, 0, j);
    }
    forall i, j | 0 <= i < j < |tables| ensures Cores(tables[i]) <= Cores(tables[j]) {
      ReadsKeep(rowHash, tables, calls, i, j);
    }
    if tables != [] && NonZeroTimes(tables[0]) && forall k :: 0 < k < |calls| ==> AllTimed(calls[k]) {
      forall j | 0 <= j < |tables| ensures NonZeroTimes(tables[j]) {
        ReadsStayTimed(rowHash, tables, calls, j);
      }
    }
  }

  ghost predicate Sees(rows: Table, c: Core) {
    exists i :: 0 <= i < |rows| && rows[i].core == c
  }

  /** Strictly increasing keys, only selected rows, and only rows of the given store. */
  ghost predicate SoundRows(f: Filter, rows: Table, stored: set<Core>) {
    && Sorted(rows)
    && (forall i :: 0 <= i < |rows| ==> Selected(f, rows[i].core))
    && (forall i :: 0 <= i < |rows| ==> rows[i].core in stored)
  }

  lemma PageIsSound(rule: Rule, t: Table, f: Filter)
    requires Sorted(t)
    ensures SoundRows(f, Page(rule, t, f).events, Cores(t))
  {
    PageShape(rule, t, f);
    SelectFacts(t, f, |t|);
    forall i | 0 <= i < |Page(rule, t, f).events| ensures Page(rule, t, f).events[i].core in Cores(t) {
      assert Page(rule, t, f).events[i] == Select(t, f)[i];
      var j :| 0 <= j < |t| && t[j] == Select(t, f)[i];
    }
  }

  lemma JoinIsSound(f: Filter, page: Table, rest: Table, stored: set<Core>)
    requires page != [] && page[|page| - 1].core.ts != ZERO_TIME
    requires SoundRows(f, page, stored)
    requires SoundRows(f.(cursor := KeyOf(page[|page| - 1].core)), rest, stored)
    ensures SoundRows(f, page + rest, stored)
  {
    var all, m := page + rest, |page|;
    var last := KeyOf(page[m - 1].core);
    forall i, j | 0 <= i < j < |all| ensures KeyLt(KeyOf(all[i].core), KeyOf(all[j].core)) {
      if i < m - 1 && m <= j {
        KeyLtTransitive(KeyOf(page[i].core), last, KeyOf(rest[j - m].core));
      }
    }
    forall i | 0 <= i < |all| ensures Selected(f, all[i].core) {
      if m <= i && f.cursor != NO_CURSOR {
        assert Selected(f, page[m - 1].core);
        KeyLtTransitive(f.cursor, last, KeyOf(rest[i - m].core));
      }
    }
  }

  lemma GrowingTail(tables: seq<Table>)
    requires Growing(tables) && |tables| > 1
    ensures Growing(tables[1..]) && tables[1..][|tables| - 2] == tables[|tables| - 1]
  {
  }

  lemma SoundRowsGrow(f: Filter, rows: Table, cs: set<Core>, ds: set<Core>)
    requires SoundRows(f, rows, cs) && cs <= ds
    ensures SoundRows(f, rows, ds)
  {
  }

  lemma PageCursor(rule: Rule, t: Table, f: Filter)
    ensures var p := Page(rule, t, f);
            p.nextCursor.ts != ZERO_TIME ==> p.events != [] && p.nextCursor == KeyOf(p.events[|p.events| - 1].core)
  {
  }

  lemma PageIsSoundLater(rule: Rule, tables: seq<Table>, f: Filter)
    requires Growing(tables) && tables != []
    ensures var p := Page(rule, tables[0], f);
            && SoundRows(f, p.events, Cores(tables[|tables| - 1]))
            && (p.nextCursor.ts != ZERO_TIME ==>
                  p.events != [] && p.nextCursor == KeyOf(p.events[|p.events| - 1].core))
  {
    PageCursor(rule, tables[0], f);
    PageIsSound(rule, tables[0], f);
    SoundRowsGrow(f, Page(rule, tables[0], f).events, Cores(tables[0]), Cores(tables[|tables| - 1]));
  }

  lemma NothingIsSound(f: Filter, stored: set<Core>)
    ensures SoundRows(f, [], stored)
  {
  }

  /** The first page, sound already, and the rest of the scan. */
  lemma ScanStepIsSound(rule: Rule, tables: seq<Table>, f: Filter, stored: set<Core>)
    requires tables != []
    requires var p := Page(rule, tables[0], f);
             && SoundRows(f, p.events, stored)
             && (p.nextCursor.ts != ZERO_TIME ==>
                   p.events != [] && p.nextCursor == KeyOf(p.events[|p.events| - 1].core)
                   && SoundRows(f.(cursor := p.nextCursor),
                                ScanOver(rule, tables[1..], f.(cursor := p.nextCursor)).rows, stored))
    ensures SoundRows(f, ScanOver(rule, tables, f).rows, stored)
  {
    var p := Page(rule, tables[0], f);
    if p.nextCursor.ts != ZERO_TIME {
      JoinIsSound(f, p.events, ScanOver(rule, tables[1..], f.(cursor := p.nextCursor)).rows, stored);
    }
  }

  /** Whatever arrives between pages, a scan never repeats a row, goes back, or invents one. */
  lemma {:induction false} ScanIsSound(rule: Rule, tables: seq<Table>, f: Filter)
    requires Growing(tables) && tables != []
    ensures SoundRows(f, ScanOver(rule, tables, f).rows, Cores(tables[|tables| - 1]))
    decreases |tables|
  {
    var stored, g := Cores(tables[|tables| - 1]), f.(cursor := Page(rule, tables[0], f).nextCursor);
    PageIsSoundLater(rule, tables, f);
    if |tables| == 1 {
      NothingIsSound(g, stored);
    } else {
      GrowingTail(tables);
      ScanIsSound(rule, tables[1..], g);
    }
    ScanStepIsSound(rule, tables, f, stored);
  }

  lemma SeesJoin(page: Table, rest: Table, c: Core)
    requires Sees(page, c) || Sees(rest, c)
    ensures Sees(page + rest, c)
  {
    if Sees(page, c) {
      var i :| 0 <= i < |page| && page[i].core == c;
      assert (page + rest)[i].core == c;
    } else {
      var i :| 0 <= i < |rest| && rest[i].core == c;
      assert (page + rest)[|page| + i].core == c;
    }
  }

  /** A scan that ends has seen every selected row that was there when it began. */
  lemma {:induction false} ScanIsComplete(rule: Rule, tables: seq<Table>, f: Filter, c: Core)
    requires Growing(tables) && AllNonZero(tables) && tables != []
    requires ScanOver(rule, tables, f).finished
    requires c in Cores(tables[0]) && Selected(f, c)
    ensures Sees(ScanOver(rule, tables, f).rows, c)
    decreases |tables|
  {
    OnPageOrAfter(rule, tables[0], f, c);
    PageIsSoundLater(rule, tables, f);
    var p := Page(rule, tables[0], f);
    if p.nextCursor.ts != ZERO_TIME {
      var g := f.(cursor := p.nextCursor);
      if !Sees(p.events, c) {
        GrowingTail(tables);
        ScanIsComplete(rule, tables[1..], g, c);
      }
      SeesJoin(p.events, ScanOver(rule, tables[1..], g).rows, c);
    }
  }

  lemma OnPageOrAfter(rule: Rule, t: Table, f: Filter, c: Core)
    requires Sorted(t) && NonZeroTimes(t) && c in Cores(t) && Selected(f, c)
    ensures var p := Page(rule, t, f);
            Sees(p.events, c) || (p.nextCursor.ts != ZERO_TIME && Selected(f.(cursor := p.nextCursor), c))
  {
    var i :| 0 <= i < |t| && t[i].core == c;
    SelectComplete(t, f, |t|, i);
    SelectFacts(t, f, |t|);
    PageIsPrefix(rule, t, f);
    var all, p := Select(t, f), Page(rule, t, f);
    var k :| 0 <= k < |all| && all[k] == t[i];
    if k < |p.events| {
      assert p.events[k].core == c;
    } else {
      assert p.nextCursor == KeyOf(all[|p.events| - 1].core);
    }
  }

  // ---------------------------------------------------------------- rows arriving at the end only

  /** The rows of `u` begin with those of `t`, flags aside. */
  ghost predicate BeginsWith(u: Table, t: Table) {
    |t| <= |u| && forall i :: 0 <= i < |t| ==> t[i].core == u[i].core
  }

  lemma {:induction false} SelectBeginsWith(u: Table, t: Table, f: Filter, n: nat)
    requires BeginsWith(u, t) && n <= |t|
    ensures SameCores(SelectTo(t, f, n), SelectTo(u, f, n))
  {
    if n == 0 {
    } else {
      SelectBeginsWith(u, t, f, n - 1);
    }
  }

  lemma PageBeginsWith(rule: Rule, u: Table, t: Table, f: Filter)
    requires BeginsWith(u, t)
    ensures BeginsWith(Select(u, f), Page(rule, t, f).events)
  {
    SelectBeginsWith(u, t, f, |t|);
    SelectGrows(u, f, |t|, |u|);
    PageShape(rule, t, f);
    var all, page, before := Select(u, f), Page(rule, t, f).events, SelectTo(u, f, |t|);
    forall i | 0 <= i < |page| ensures page[i].core == all[i].core {
      assert before[i] == all[i];
    }
  }

  lemma JoinBeginsWith(all: Table, page: Table, rest: Table)
    requires BeginsWith(all, page) && BeginsWith(all[|page|..], rest)
    ensures BeginsWith(all, page + rest)
  {
  }

  /** If rows only arrive at the end while a scan reads, it reads a first part of what is there in the end. */
  lemma {:induction false} ScanIsPrefix(rule: Rule, tables: seq<Table>, f: Filter, last: Table)
    requires Sorted(last) && forall i :: 0 <= i < |tables| ==> BeginsWith(last, tables[i])
    ensures BeginsWith(Select(last, f), ScanOver(rule, tables, f).rows)
    decreases |tables|
  {
    if tables == [] {
    } else {
      var p, all := Page(rule, tables[0], f), Select(last, f);
      PageBeginsWith(rule, last, tables[0], f);
      PageShape(rule, tables[0], f);
      if p.events != [] && p.nextCursor.ts != ZERO_TIME {
        var g := f.(cursor := p.nextCursor);
        assert KeyOf(all[|p.events| - 1].core) == p.nextCursor;
        CursorDrops(last, f, |p.events|);
        ScanIsPrefix(rule, tables[1..], g, last);
        JoinBeginsWith(all, p.events, ScanOver(rule, tables[1..], g).rows);
      }
    }
  }

  lemma {:induction false} BehindCursorTo(t: Table, e: Event, f: Filter, n: nat)
    requires n <= |t| + 1 && !Selected(f, e.core)
    ensures var s := Slot(t, KeyOf(e.core));
            SelectTo(InsertSorted(t, e), f, n) == SelectTo(t, f, if n <= s then n else n - 1)
  {
    if n == 0 {
    } else {
      BehindCursorTo(t, e, f, n - 1);
    }
  }

  /** A row that arrives at or below the cursor is never read by the scan that has passed it. */
  lemma ArrivalBehindCursorUnseen(t: Table, e: Event, f: Filter)
    requires f.cursor != NO_CURSOR && KeyLe(KeyOf(e.core), f.cursor)
    ensures Select(InsertSorted(t, e), f) == Select(t, f)
  {
    KeyLtTotal(KeyOf(e.core), f.cursor);
    KeyLtIrreflexive(f.cursor);
    BehindCursorTo(t, e, f, |t| + 1);
  }

  /** Exactly once: strictly increasing keys leave no room for a second occurrence. */
  lemma SeenOnce(rows: Table, i: nat, j: nat)
    requires Sorted(rows) && i < |rows| && j < |rows|
    requires rows[i].core == rows[j].core
    ensures i == j
  {
    if i < j {
      KeyLtIrreflexive(KeyOf(rows[i].core));
    } else if j < i {
      KeyLtIrreflexive(KeyOf(rows[j].core));
    }
  }
}
