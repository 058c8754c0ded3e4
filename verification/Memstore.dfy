/** The in-memory event store: an id map and an ordered list that share the same row objects. */
module Memstore {
  import opened ByteStrings
  import opened Store
  import opened Tables
  import Paging
  import Sorting

  /** The columns written once are constants of the object; only the two flags can be assigned. */
  class Row {
    const core: Core
    var anchored: bool
    var legalHold: bool

    constructor (e: Event)
      ensures core == e.core && anchored == e.anchored && legalHold == e.legalHold
    {
      core, anchored, legalHold := e.core, e.anchored, e.legalHold;
    }

    function Value(): Event
      reads this
    {
      Event(core, anchored, legalHold)
    }
  }

  method MarkRow(e: Row, toTS: Time, toID: Bytes) returns (changed: bool)
    modifies e`anchored
    ensures e.Value() == MarkOne(old(e.Value()), Key(toTS, toID))
    ensures changed <==> NewlyCovered(old(e.Value()), Key(toTS, toID))
  {
    changed := false;
    if e.core.ts < toTS || (e.core.ts == toTS && (Less(e.core.id, toID) || e.core.id == toID)) {
      if !e.anchored {
        e.anchored := true;
        changed := true;
      }
    }
  }

  function RowLess(): (Row, Row) -> bool {
    (a: Row, b: Row) => KeyLt(KeyOf(a.core), KeyOf(b.core))
  }

  ghost predicate RowsSorted(rows: seq<Row>) {
    forall i, j :: 0 <= i < j < |rows| ==> KeyLt(KeyOf(rows[i].core), KeyOf(rows[j].core))
  }

  lemma SlotSeparates(rows: seq<Row>, c: Row, t: Table)
    requires |t| == |rows| && forall i :: 0 <= i < |t| ==> t[i].core == rows[i].core
    requires Sorted(t) && !HasId(t, c.core.id)
    ensures var s := Slot(t, KeyOf(c.core));
            && (s > 0 ==> !RowLess()(c, rows[s - 1]))
            && forall i :: s <= i < |rows| ==> RowLess()(c, rows[i])
  {
    var k := KeyOf(c.core);
    var s := Slot(t, k);
    forall i | s <= i < |rows| ensures RowLess()(c, rows[i]) {
      assert t[s].core.id != c.core.id;
      AfterSlot(t, k, i);
    }
    if s > 0 {
      KeyLtTotal(KeyOf(t[s - 1].core), k);
    }
  }

  lemma AdjacentRows(rows: seq<Row>)
    requires RowsSorted(rows)
    ensures forall i :: 0 < i < |rows| ==> !RowLess()(rows[i], rows[i - 1])
  {
    forall i | 0 < i < |rows| ensures !RowLess()(rows[i], rows[i - 1]) {
      KeyLtTotal(KeyOf(rows[i - 1].core), KeyOf(rows[i].core));
    }
  }

  /** Sorting again after the append moves the new row to its slot and nothing else. */
  lemma AppendedRowMoves(rows: seq<Row>, c: Row, t: Table)
    requires |t| == |rows| && forall i :: 0 <= i < |t| ==> t[i].core == rows[i].core
    requires RowsSorted(rows) && Sorted(t) && !HasId(t, c.core.id)
    ensures var s := Slot(t, KeyOf(c.core));
            Sorting.StableSort(rows + [c], RowLess()) == rows[..s] + [c] + rows[s..]
  {
    SlotSeparates(rows, c, t);
    AdjacentRows(rows);
    Sorting.AppendAndSort(rows, c, RowLess(), Slot(t, KeyOf(c.core)));
  }

  ghost function Values(rows: seq<Row>): (t: Table)
    reads rows
    ensures |t| == |rows|
    ensures forall i :: 0 <= i < |t| ==> t[i] == rows[i].Value()
  {
    seq(|rows|, i requires 0 <= i < |rows| reads rows => rows[i].Value())
  }

  /** The map and the list hold the same objects, and the list is strictly sorted by (ts, id). */
  ghost predicate Represent(events: map<Bytes, Row>, rows: seq<Row>) {
    && (forall i :: 0 <= i < |rows| ==> rows[i].core.id in events && events[rows[i].core.id] == rows[i])
    && (forall id :: id in events ==> events[id] in rows && events[id].core.id == id)
    && RowsSorted(rows)
  }

  lemma RepresentIds(events: map<Bytes, Row>, rows: seq<Row>, id: Bytes)
    requires Represent(events, rows)
    ensures HasId(Values(rows), id) <==> id in events
  {
  }

  lemma RepresentUnique(events: map<Bytes, Row>, rows: seq<Row>, i: nat, j: nat)
    requires Represent(events, rows) && i < j < |rows|
    ensures rows[i].core.id != rows[j].core.id
  {
    KeyLtIrreflexive(KeyOf(rows[i].core));
  }

  lemma RowsDistinct(events: map<Bytes, Row>, rows: seq<Row>)
    requires Represent(events, rows)
    ensures forall i, j :: 0 <= i < j < |rows| ==> rows[i] != rows[j]
  {
    forall i, j | 0 <= i < j < |rows| ensures rows[i] != rows[j] {
      RepresentUnique(events, rows, i, j);
    }
  }

  lemma ValuesWellFormed(events: map<Bytes, Row>, rows: seq<Row>)
    requires Represent(events, rows)
    ensures WellFormed(Values(rows))
  {
    forall i, j | 0 <= i < j < |rows| ensures rows[i].core.id != rows[j].core.id {
      RepresentUnique(events, rows, i, j);
    }
  }

  lemma RepresentSpliced(events: map<Bytes, Row>, rows: seq<Row>, c: Row, s: nat)
    requires Represent(events, rows) && c.core.id !in events && s <= |rows|
    requires RowsSorted(rows[..s] + [c] + rows[s..])
    ensures Represent(events[c.core.id := c], rows[..s] + [c] + rows[s..])
  {
  }

  lemma SortedValues(rows: seq<Row>)
    requires Sorted(Values(rows))
    ensures RowsSorted(rows)
  {
  }

  lemma SortedSplice(rows: seq<Row>, c: Row, e: Event)
    requires e == c.Value()
    requires WellFormed(Values(rows)) && !HasId(Values(rows), c.core.id)
    ensures var s := Slot(Values(rows), KeyOf(c.core));
            && RowsSorted(rows[..s] + [c] + rows[s..])
            && Values(rows[..s] + [c] + rows[s..]) == InsertSorted(Values(rows), e)
  {
    var s := Slot(Values(rows), KeyOf(c.core));
    var spliced, r := rows[..s] + [c] + rows[s..], InsertSorted(Values(rows), e);
    InsertSortedWellFormed(Values(rows), e);
    assert Values(spliced) == r;
    SortedValues(spliced);
  }

  lemma RowPlaced(events: map<Bytes, Row>, rows: seq<Row>, c: Row, e: Event, t: Table, rows': seq<Row>)
    requires Represent(events, rows) && t == Values(rows)
    requires e == c.Value() && !HasId(t, e.core.id)
    requires rows' == Sorting.StableSort(rows + [c], RowLess())
    ensures Represent(events[e.core.id := c], rows')
    ensures Values(rows') == InsertSorted(t, e)
    ensures forall r :: r in rows' ==> r in rows || r == c
  {
    RepresentIds(events, rows, e.core.id);
    ValuesWellFormed(events, rows);
    SortedSplice(rows, c, e);
    RepresentSpliced(events, rows, c, Slot(t, KeyOf(e.core)));
    AppendedRowMoves(rows, c, t);
  }

  method MarkRows(rows: seq<Row>, toTS: Time, toID: Bytes) returns (n: nat)
    requires forall i, j :: 0 <= i < j < |rows| ==> rows[i] != rows[j]
    modifies rows
    ensures Values(rows) == Mark(old(Values(rows)), Key(toTS, toID))
    ensures n == NewlyAnchored(old(Values(rows)), Key(toTS, toID))
  {
    ghost var before, k := Values(rows), Key(toTS, toID);
    n := 0;
    var i := 0;
    while i < |rows|
      invariant 0 <= i <= |rows|
      invariant forall j :: 0 <= j < i ==> rows[j].Value() == MarkOne(before[j], k)
      invariant forall j :: i <= j < |rows| ==> rows[j].Value() == before[j]
      invariant n == NewlyTo(before, k, i)
    {
      var changed := MarkRow(rows[i], toTS, toID);
      if changed {
        n := n + 1;
      }
      i := i + 1;
    }
    assert Values(rows) == Mark(before, k);
  }

  lemma NobodyHeld(t: Table, id: Bytes, hold: bool)
    requires !HasId(t, id)
    ensures SetHold(t, id, hold) == t
  {
  }

  lemma OneRowHeld(events: map<Bytes, Row>, rows: seq<Row>, e: Row)
    requires Represent(events, rows) && e.core.id in events && events[e.core.id] == e
    ensures forall i :: 0 <= i < |rows| ==> (rows[i] == e <==> rows[i].core.id == e.core.id)
  {
  }

  /** The listing loop's tests, one after the other. */
  method Skips(f: Filter, c: Core) returns (skip: bool)
    ensures skip <==> !Paging.Selected(f, c)
  {
    if f.from != ZERO_TIME && c.ts < f.from { return true; }
    if f.to != ZERO_TIME && !(c.ts < f.to) { return true; }
    if f.service != [] && c.sourceService != f.service { return true; }
    if f.actor != [] && c.actorId != f.actor { return true; }
    if f.action != [] && c.action != f.action { return true; }
    if f.targetType != [] && c.targetType != f.targetType { return true; }
    if f.targetId != [] && c.targetId != f.targetId { return true; }
    if f.cursor.ts != ZERO_TIME || f.cursor.id != [] {
      if !(f.cursor.ts < c.ts) && !(c.ts == f.cursor.ts && Less(f.cursor.id, c.id)) { return true; }
    }
    return false;
  }

  class EventStore {
    var events: map<Bytes, Row>
    var ordered: seq<Row>

    ghost predicate Valid()
      reads this
    {
      Represent(events, ordered)
    }

    ghost function Contents(): Table
      reads this, ordered
    {
      Values(ordered)
    }

    lemma ValidContents()
      requires Valid()
      ensures WellFormed(Contents())
      ensures forall id :: HasId(Contents(), id) <==> id in events
    {
      ValuesWellFormed(events, ordered);
      forall id ensures HasId(Contents(), id) <==> id in events {
        RepresentIds(events, ordered, id);
      }
    }

    constructor ()
      ensures Valid() && Contents() == []
    {
      events, ordered := map[], [];
    }

    /** Map the id, append the row, sort the list again. */
    method Place(e: Event)
      requires Valid() && !HasId(Contents(), e.core.id)
      modifies this
      ensures Valid()
      ensures Contents() == InsertSorted(old(Contents()), e)
      ensures forall r :: r in ordered ==> r in old(ordered) || fresh(r)
    {
      var c := new Row(e);
      PlaceRow(c, e);
    }

    method PlaceRow(c: Row, ghost e: Event)
      requires Valid() && e == c.Value() && !HasId(Contents(), e.core.id)
      modifies this
      ensures Valid()
      ensures Contents() == InsertSorted(old(Contents()), e)
      ensures forall r :: r in ordered ==> r in old(ordered) || r == c
    {
      ghost var t, rows, m := Contents(), ordered, events;
      var sorted := Sorting.SliceStable(ordered + [c], RowLess());
      events := events[c.core.id := c];
      ordered := sorted;
      assert Values(rows) == t;
      RowPlaced(m, rows, c, e, t, sorted);
    }

    method Insert(e: Event) returns (inserted: bool)
      requires Valid()
      modifies this
      ensures Valid()
      ensures inserted <==> !HasId(old(Contents()), e.core.id)
      ensures Contents() == if inserted then InsertSorted(old(Contents()), e) else old(Contents())
      ensures forall r :: r in ordered ==> r in old(ordered) || fresh(r)
    {
      ValidContents();
      if e.core.id in events {
        return false;
      }
      Place(e);
      return true;
    }

    /** `row` is what the caller's record becomes: linked on a fresh insert, untouched on a re-delivery. */
    method InsertChained(e: Event, hashFn: Bytes -> Bytes) returns (inserted: bool, row: Event)
      requires Valid()
      modifies this
      ensures Valid()
      ensures inserted <==> !HasId(old(Contents()), e.core.id)
      ensures row == if inserted then Link(old(Contents()), e, hashFn) else e
      ensures Contents() == InsertLinked(old(Contents()), e, hashFn)
      ensures forall r :: r in ordered ==> r in old(ordered) || fresh(r)
    {
      ValidContents();
      if e.core.id in events {
        return false, e;
      }
      var prevHash: Bytes := HeadHash([]);
      if |ordered| > 0 {
        prevHash := ordered[|ordered| - 1].core.thisHash;
      }
      row := e.(core := e.core.(prevHash := prevHash, thisHash := hashFn(prevHash)));
      Place(row);
      inserted := true;
    }

    method Get(id: Bytes) returns (found: Option<Event>)
      requires Valid()
      ensures found == Find(Contents(), id)
    {
      ValidContents();
      if id !in events {
        FindNone(Contents(), id, 0);
        return None;
      }
      ghost var i :| 0 <= i < |ordered| && ordered[i] == events[id];
      FindAt(Contents(), i, 0);
      return Some(events[id].Value());
    }

    method List(f: Filter) returns (res: ListResult)
      requires Valid()
      ensures res == Paging.Page(Paging.FullPage, Contents(), f)
    {
      var limit := f.limit;
      if limit <= 0 || limit > 1000 {
        limit := 1000;
      }
      var out: seq<Event> := [];
      ghost var t := Contents();
      var i := 0;
      while i < |ordered|
        invariant 0 <= i <= |ordered|
        invariant out == Paging.SelectTo(t, f, i) && |out| < limit
      {
        var e := ordered[i].Value();
        assert e == t[i];
        i := i + 1;
        var skip := Skips(f, e.core);
        assert Paging.SelectTo(t, f, i) == out + if skip then [] else [e];
        if skip {
          continue;
        }
        out := out + [e];
        if |out| >= limit {
          break;
        }
      }
      Paging.PageFromLoop(t, f, i, out);
      var next := NO_CURSOR;
      if |out| >= limit && |out| > 0 {
        next := KeyOf(out[|out| - 1].core);
      }
      return ListResult(out, next);
    }

    method ChainHead() returns (head: Option<Event>)
      requires Valid()
      ensures head == if Contents() == [] then None else Some(Contents()[|Contents()| - 1])
    {
      if |ordered| == 0 {
        return None;
      }
      return Some(ordered[|ordered| - 1].Value());
    }

    method SetLegalHold(id: Bytes, hold: bool) returns (found: bool)
      requires Valid()
      modifies ordered
      ensures Valid() && ordered == old(ordered) && events == old(events)
      ensures found <==> HasId(old(Contents()), id)
      ensures Contents() == SetHold(old(Contents()), id, hold)
    {
      ValidContents();
      if id !in events {
        NobodyHeld(Contents(), id, hold);
        return false;
      }
      var e := events[id];
      RowsDistinct(events, ordered);
      OneRowHeld(events, ordered, e);
      e.legalHold := hold;
      assert Values(ordered) == SetHold(old(Values(ordered)), id, hold);
      return true;
    }

    method MarkAnchored(toTS: Time, toID: Bytes) returns (n: nat)
      requires Valid()
      modifies ordered
      ensures Valid() && ordered == old(ordered) && events == old(events)
      ensures Contents() == Mark(old(Contents()), Key(toTS, toID))
      ensures n == NewlyAnchored(old(Contents()), Key(toTS, toID))
    {
      RowsDistinct(events, ordered);
      n := MarkRows(ordered, toTS, toID);
    }
  }
}
