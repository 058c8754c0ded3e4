/** What the event store holds, as a value: the rows in (ts, id) order, and the effect of each operation. */
module Tables {
  import opened ByteStrings
  import opened Store
  import opened Encoding

  type Table = seq<Event>

  ghost predicate Sorted(t: Table) {
    forall i, j :: 0 <= i < j < |t| ==> KeyLt(KeyOf(t[i].core), KeyOf(t[j].core))
  }

  ghost predicate UniqueIds(t: Table) {
    forall i, j :: 0 <= i < j < |t| ==> t[i].core.id != t[j].core.id
  }

  /** What every operation keeps. */
  ghost predicate WellFormed(t: Table) {
    Sorted(t) && UniqueIds(t)
  }

  predicate HasId(t: Table, id: Bytes) {
    exists i :: 0 <= i < |t| && t[i].core.id == id
  }

  function FindFrom(t: Table, id: Bytes, from: nat): (r: Option<Event>)
    requires from <= |t|
    decreases |t| - from
  {
    if from == |t| then None
    else if t[from].core.id == id then Some(t[from])
    else FindFrom(t, id, from + 1)
  }

  function Find(t: Table, id: Bytes): Option<Event> {
    FindFrom(t, id, 0)
  }

  /** Ids being unique, a row is found at whatever position it has. */
  lemma {:induction false} FindAt(t: Table, i: nat, from: nat)
    requires UniqueIds(t) && from <= i < |t|
    ensures FindFrom(t, t[i].core.id, from) == Some(t[i])
    decreases i - from
  {
    if from == i {
    } else {
      FindAt(t, i, from + 1);
    }
  }

  lemma {:induction false} FindNone(t: Table, id: Bytes, from: nat)
    requires from <= |t| && !HasId(t, id)
    ensures FindFrom(t, id, from).None?
    decreases |t| - from
  {
    if from == |t| {
    } else {
      FindNone(t, id, from + 1);
    }
  }

  ghost function Cores(t: Table): set<Core> {
    set i | 0 <= i < |t| :: t[i].core
  }

  // ---------------------------------------------------------------- insertion

  /** How many rows stand before a key. */
  function Slot(t: Table, k: Key): (i: nat)
    ensures i <= |t|
    ensures forall j :: 0 <= j < i ==> KeyLt(KeyOf(t[j].core), k)
    ensures i < |t| ==> !KeyLt(KeyOf(t[i].core), k)
  {
    SlotFrom(t, k, 0)
  }

  function SlotFrom(t: Table, k: Key, from: nat): (i: nat)
    requires from <= |t|
    ensures from <= i <= |t|
    ensures forall j :: from <= j < i ==> KeyLt(KeyOf(t[j].core), k)
    ensures i < |t| ==> !KeyLt(KeyOf(t[i].core), k)
    decreases |t| - from
  {
    if from == |t| || !KeyLt(KeyOf(t[from].core), k) then from else SlotFrom(t, k, from + 1)
  }

  function InsertSorted(t: Table, e: Event): (r: Table)
    ensures |r| == |t| + 1
    ensures var s := Slot(t, KeyOf(e.core));
            && r[s] == e
            && (forall i :: 0 <= i < s ==> r[i] == t[i])
            && (forall i :: s < i < |r| ==> r[i] == t[i - 1])
  {
    var s := Slot(t, KeyOf(e.core));
    t[..s] + [e] + t[s..]
  }

  /** prev_hash of the next row: this_hash of the row with the largest key, or the genesis hash. */
  function HeadHash(t: Table): Bytes {
    if t == [] then ZERO_HASH else t[|t| - 1].core.thisHash
  }

  function Link(t: Table, e: Event, hashFn: Bytes -> Bytes): Event {
    e.(core := e.core.(prevHash := HeadHash(t), thisHash := hashFn(HeadHash(t))))
  }

  /** InsertChained: nothing happens when the id is already there. */
  function InsertLinked(t: Table, e: Event, hashFn: Bytes -> Bytes): Table {
    if HasId(t, e.core.id) then t else InsertSorted(t, Link(t, e, hashFn))
  }

  /** The hash function ingest hands to InsertChained: this_hash as a function of prev_hash alone. */
  function BoundHash(rowHash: RowHash, c: Core): Bytes -> Bytes {
    prev => rowHash(HashedOf(c.(prevHash := prev)))
  }

  lemma AfterSlot(t: Table, k: Key, j: nat)
    requires Sorted(t) && Slot(t, k) <= j < |t|
    requires KeyOf(t[Slot(t, k)].core) != k
    ensures KeyLt(k, KeyOf(t[j].core))
  {
    var s := Slot(t, k);
    var ks, kj := KeyOf(t[s].core), KeyOf(t[j].core);
    KeyLtTotal(ks, k);
    if s < j {
      assert KeyLt(ks, kj);
      KeyLtTransitive(k, ks, kj);
    }
  }

  lemma InsertSortedWellFormed(t: Table, e: Event)
    requires WellFormed(t) && !HasId(t, e.core.id)
    ensures WellFormed(InsertSorted(t, e))
    ensures Cores(InsertSorted(t, e)) == Cores(t) + {e.core}
  {
    var r, s := InsertSorted(t, e), Slot(t, KeyOf(e.core));
    forall i, j | 0 <= i < j < |r|
      ensures KeyLt(KeyOf(r[i].core), KeyOf(r[j].core)) && r[i].core.id != r[j].core.id
    {
      if i == s {
        AfterSlot(t, KeyOf(e.core), j - 1);
      }
    }
    InsertSortedCores(t, e);
  }

  lemma InsertSortedCores(t: Table, e: Event)
    ensures Cores(InsertSorted(t, e)) == Cores(t) + {e.core}
  {
    var r, s := InsertSorted(t, e), Slot(t, KeyOf(e.core));
    forall c | c in Cores(t) + {e.core} ensures c in Cores(r) {
      if c in Cores(t) {
        var i :| 0 <= i < |t| && t[i].core == c;
        assert r[if i < s then i else i + 1].core == c;
      } else {
        assert r[s].core == c;
      }
    }
    forall c | c in Cores(r) ensures c in Cores(t) + {e.core} {
      var i :| 0 <= i < |r| && r[i].core == c;
      assert i != s ==> t[if i < s then i else i - 1].core == c;
    }
  }

  /** A fresh event is stored with every column and flag as given, but for the links: those follow the last row. */
  lemma FreshRowStored(t: Table, e: Event, hashFn: Bytes -> Bytes)
    requires WellFormed(t) && !HasId(t, e.core.id)
    ensures var prev := if t == [] then Zeros(32) else t[|t| - 1].core.thisHash;
            var row := Event(e.core.(prevHash := prev, thisHash := hashFn(prev)), e.anchored, e.legalHold);
            && multiset(InsertLinked(t, e, hashFn)) == multiset(t) + multiset{row}
            && WellFormed(InsertLinked(t, e, hashFn))
  {
    var row := Link(t, e, hashFn);
    var s := Slot(t, KeyOf(row.core));
    InsertSortedWellFormed(t, row);
    assert t == t[..s] + t[s..];
  }

  /** Rows stand in the order of time; at one instant, in that of the first difference between their ids. */
  lemma RowsInTimeOrder(t: Table, i: nat, j: nat)
    requires Sorted(t) && i < j < |t|
    ensures var c, d := t[i].core, t[j].core;
            c.ts < d.ts || (c.ts == d.ts && exists k: nat :: FirstDifference(c.id, d.id, k))
  {
    KeyLtIff(KeyOf(t[i].core), KeyOf(t[j].core));
  }

  // ---------------------------------------------------------------- flags

  /** Same rows, flags aside. */
  ghost predicate SameCores(t: Table, u: Table) {
    |t| == |u| && forall i :: 0 <= i < |t| ==> t[i].core == u[i].core
  }

  function SetHold(t: Table, id: Bytes, hold: bool): (r: Table)
    ensures SameCores(t, r)
    ensures forall i :: 0 <= i < |t| ==> r[i].anchored == t[i].anchored
    ensures forall i :: 0 <= i < |t| ==> r[i].legalHold == if t[i].core.id == id then hold else t[i].legalHold
  {
    seq(|t|, i requires 0 <= i < |t| => if t[i].core.id == id then t[i].(legalHold := hold) else t[i])
  }

  predicate NewlyCovered(e: Event, upTo: Key) {
    !e.anchored && KeyLe(KeyOf(e.core), upTo)
  }

  function MarkOne(e: Event, upTo: Key): Event {
    if NewlyCovered(e, upTo) then e.(anchored := true) else e
  }

  function Mark(t: Table, upTo: Key): (r: Table)
    ensures SameCores(t, r)
    ensures forall i :: 0 <= i < |t| ==> r[i] == MarkOne(t[i], upTo)
    ensures forall i :: 0 <= i < |t| ==> r[i].legalHold == t[i].legalHold
    ensures forall i :: 0 <= i < |t| ==> (r[i].anchored <==> t[i].anchored || KeyLe(KeyOf(t[i].core), upTo))
  {
    seq(|t|, i requires 0 <= i < |t| => MarkOne(t[i], upTo))
  }

  function CountTo(t: Table, n: nat): nat
    requires n <= |t|
  {
    if n == 0 then 0 else CountTo(t, n - 1) + if t[n - 1].anchored then 1 else 0
  }

  function CountAnchored(t: Table): nat {
    CountTo(t, |t|)
  }

  function NewlyTo(t: Table, upTo: Key, n: nat): nat
    requires n <= |t|
  {
    if n == 0 then 0 else NewlyTo(t, upTo, n - 1) + if NewlyCovered(t[n - 1], upTo) then 1 else 0
  }

  /** How many rows MarkAnchored changes. */
  function NewlyAnchored(t: Table, upTo: Key): nat {
    NewlyTo(t, upTo, |t|)
  }

  lemma {:induction false} MarkCounts(t: Table, upTo: Key, n: nat)
    requires n <= |t|
    ensures CountTo(Mark(t, upTo), n) == CountTo(t, n) + NewlyTo(t, upTo, n)
  {
    if n == 0 {
    } else {
      MarkCounts(t, upTo, n - 1);
    }
  }

  function NewlyPositions(t: Table, upTo: Key, n: nat): set<nat>
    requires n <= |t|
  {
    set i: nat | i < n && !t[i].anchored && KeyLe(KeyOf(t[i].core), upTo)
  }

  /** The number returned is that of the unanchored rows at or below the key. */
  lemma {:induction false} NewlyCounts(t: Table, upTo: Key, n: nat)
    requires n <= |t|
    ensures NewlyTo(t, upTo, n) == |NewlyPositions(t, upTo, n)|
  {
    if n == 0 {
    } else {
      NewlyCounts(t, upTo, n - 1);
      var before := NewlyPositions(t, upTo, n - 1);
      if !t[n - 1].anchored && KeyLe(KeyOf(t[n - 1].core), upTo) {
        assert NewlyPositions(t, upTo, n) == before + {n - 1};
      } else {
        assert NewlyPositions(t, upTo, n) == before;
      }
    }
  }

  lemma {:induction false} HoldCounts(t: Table, id: Bytes, hold: bool, n: nat)
    requires n <= |t|
    ensures CountTo(SetHold(t, id, hold), n) == CountTo(t, n)
  {
    if n == 0 {
    } else {
      HoldCounts(t, id, hold, n - 1);
    }
  }

  lemma {:induction false} InsertCounts(t: Table, e: Event, n: nat)
    requires n <= |t| + 1 && !e.anchored
    ensures var s := Slot(t, KeyOf(e.core));
            CountTo(InsertSorted(t, e), n) == CountTo(t, if n <= s then n else n - 1)
  {
    if n == 0 {
    } else {
      InsertCounts(t, e, n - 1);
    }
  }

  lemma SameCoresKeep(t: Table, u: Table)
    requires SameCores(t, u)
    ensures Cores(t) == Cores(u)
    ensures WellFormed(t) ==> WellFormed(u)
    ensures HeadHash(t) == HeadHash(u)
    ensures forall id :: HasId(t, id) <==> HasId(u, id)
  {
  }

  // ---------------------------------------------------------------- runs

  datatype Step =
    | Insert(e: Event)
    | Hold(id: Bytes, hold: bool)
    | MarkUpTo(k: Key)

  function Apply(rowHash: RowHash, t: Table, s: Step): Table {
    match s
    case Insert(e) => InsertLinked(t, e, BoundHash(rowHash, e.core))
    case Hold(id, hold) => SetHold(t, id, hold)
    case MarkUpTo(k) => Mark(t, k)
  }

  function Run(rowHash: RowHash, t: Table, steps: seq<Step>): Table
    decreases |steps|
  {
    if steps == [] then t else Run(rowHash, Apply(rowHash, t, steps[0]), steps[1..])
  }

  lemma ApplyKeeps(rowHash: RowHash, t: Table, s: Step)
    requires WellFormed(t)
    ensures WellFormed(Apply(rowHash, t, s))
    ensures Cores(t) <= Cores(Apply(rowHash, t, s))
  {
    match s
    case Insert(e) =>
      if !HasId(t, e.core.id) {
        InsertSortedWellFormed(t, Link(t, e, BoundHash(rowHash, e.core)));
      }
    case Hold(id, hold) => SameCoresKeep(t, SetHold(t, id, hold));
    case MarkUpTo(k) => SameCoresKeep(t, Mark(t, k));
  }

  /** Append-only over every run: sorted, ids unique, and no column of an earlier row ever changes. */
  lemma {:induction false} RunIsAppendOnly(rowHash: RowHash, t: Table, steps: seq<Step>)
    requires WellFormed(t)
    ensures WellFormed(Run(rowHash, t, steps))
    ensures Cores(t) <= Cores(Run(rowHash, t, steps))
    decreases |steps|
  {
    if steps == [] {
    } else {
      ApplyKeeps(rowHash, t, steps[0]);
      RunIsAppendOnly(rowHash, Apply(rowHash, t, steps[0]), steps[1..]);
    }
  }

  lemma {:induction false} RunAppend(rowHash: RowHash, t: Table, steps: seq<Step>, s: Step)
    ensures Run(rowHash, t, steps + [s]) == Apply(rowHash, Run(rowHash, t, steps), s)
    decreases |steps|
  {
    if steps == [] {
      assert [s][1..] == [];
    } else {
      assert (steps + [s])[1..] == steps[1..] + [s];
      RunAppend(rowHash, Apply(rowHash, t, steps[0]), steps[1..], s);
    }
  }

  // ---------------------------------------------------------------- every call of the store

  /** The unchained Insert stores the row as it is given. */
  datatype Call = Chained(s: Step) | Plain(e: Event)

  function InsertPlain(t: Table, e: Event): Table {
    if HasId(t, e.core.id) then t else InsertSorted(t, e)
  }

  function ApplyCall(rowHash: RowHash, t: Table, c: Call): Table {
    match c
    case Chained(s) => Apply(rowHash, t, s)
    case Plain(e) => InsertPlain(t, e)
  }

  function RunCalls(rowHash: RowHash, t: Table, calls: seq<Call>): Table
    decreases |calls|
  {
    if calls == [] then t else RunCalls(rowHash, ApplyCall(rowHash, t, calls[0]), calls[1..])
  }

  lemma CallKeeps(rowHash: RowHash, t: Table, c: Call)
    requires WellFormed(t)
    ensures WellFormed(ApplyCall(rowHash, t, c))
    ensures Cores(t) <= Cores(ApplyCall(rowHash, t, c))
  {
    if c.Chained? {
      ApplyKeeps(rowHash, t, c.s);
    } else if !HasId(t, c.e.core.id) {
      InsertSortedWellFormed(t, c.e);
    }
  }

  /** Append-only over every run of every call. */
  lemma {:induction false} CallsAreAppendOnly(rowHash: RowHash, t: Table, calls: seq<Call>)
    requires WellFormed(t)
    ensures WellFormed(RunCalls(rowHash, t, calls))
    ensures Cores(t) <= Cores(RunCalls(rowHash, t, calls))
    decreases |calls|
  {
    if calls == [] {
    } else {
      CallKeeps(rowHash, t, calls[0]);
      CallsAreAppendOnly(rowHash, ApplyCall(rowHash, t, calls[0]), calls[1..]);
    }
  }
}
