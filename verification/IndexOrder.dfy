/** The order archives are kept in, and where newcomers go in it
    (crates/backtrack-core/src/index/writer.rs). */
module IndexOrder {
  import opened Text
  import opened Index
  import opened IndexRemove
  import opened IndexSync
  import opened Sorting

  /** One archive in the catalogue. */
  datatype Row = Row(name: string, ts: int, repo: string, pending: bool, expirable: Option<int>)

  /** An archive as its repository lists it. */
  datatype Meta = Meta(name: string, ts: int)

  datatype Slot = Existing(index: nat, row: Row) | Newcomer(meta: Meta)
  {
    function Ts(): int {
      if Existing? then row.ts else meta.ts
    }

    function Name(): string {
      if Existing? then row.name else meta.name
    }
  }

  /** By time, then by name. */
  predicate Precedes(a: Slot, b: Slot) {
    a.Ts() < b.Ts() || (a.Ts() == b.Ts() && Less(a.Name(), b.Name()))
  }

  /** A catalogue's archives, or an order of them, by time and name. */
  ghost predicate Chronological(slots: seq<Slot>) {
    Sorted(Precedes, slots)
  }

  lemma PrecedesOrders()
    ensures Orders(Precedes)
  {
    forall a: Slot, b: Slot
      ensures !(Precedes(a, b) && Precedes(b, a))
    {
      LessOrders(a.Name(), b.Name(), a.Name());
    }
    forall a: Slot, b: Slot, c: Slot | !Precedes(b, a) && !Precedes(c, b)
      ensures !Precedes(c, a)
    {
      LessOrders(a.Name(), b.Name(), c.Name());
      LessOrders(c.Name(), a.Name(), b.Name());
      LessOrders(b.Name(), c.Name(), a.Name());
    }
  }

  // ---- The existing archives keep their order ----

  function OnlyExisting(slots: seq<Slot>): seq<Slot> {
    if slots == [] then []
    else if slots[0].Existing? then [slots[0]] + OnlyExisting(slots[1..])
    else OnlyExisting(slots[1..])
  }

  lemma {:induction false} InsertAmong(a: Slot, slots: seq<Slot>)
    requires Chronological(slots)
    ensures OnlyExisting(Insert(Precedes, a, slots)) ==
            if a.Existing? then Insert(Precedes, a, OnlyExisting(slots)) else OnlyExisting(slots)
  {
    if slots == [] || !Precedes(slots[0], a) {
      assert ([a] + slots)[1..] == slots;
      forall i | 0 <= i < |slots|
        ensures !Precedes(slots[i], a)
      {
        PrecedesOrders();
        assert i > 0 ==> !Precedes(slots[i], slots[0]);
      }
      FirstStays(a, slots);
    } else {
      InsertAmong(a, slots[1..]);
      assert Insert(Precedes, a, slots)[1..] == Insert(Precedes, a, slots[1..]);
      if slots[0].Existing? {
        assert OnlyExisting(slots)[1..] == OnlyExisting(slots[1..]);
      }
    }
  }

  lemma {:induction false} FirstStays(a: Slot, slots: seq<Slot>)
    requires forall i :: 0 <= i < |slots| ==> !Precedes(slots[i], a)
    ensures Insert(Precedes, a, OnlyExisting(slots)) == [a] + OnlyExisting(slots)
  {
    if slots != [] && slots[0].Newcomer? {
      FirstStays(a, slots[1..]);
    }
  }

  lemma {:induction false} SortAmong(slots: seq<Slot>)
    ensures OnlyExisting(Sort(Precedes, slots)) == Sort(Precedes, OnlyExisting(slots))
  {
    if slots != [] {
      SortAmong(slots[1..]);
      PrecedesOrders();
      SortSorts(Precedes, slots[1..]);
      InsertAmong(slots[0], Sort(Precedes, slots[1..]));
      if slots[0].Existing? {
        assert OnlyExisting(slots)[1..] == OnlyExisting(slots[1..]);
      }
    }
  }

  function Slots(rows: seq<Row>): (slots: seq<Slot>)
    ensures |slots| == |rows| && forall i :: 0 <= i < |rows| ==> slots[i] == Existing(i, rows[i])
  {
    seq(|rows|, i requires 0 <= i < |rows| => Existing(i, rows[i]))
  }

  function Newcomers(metas: seq<Meta>): (slots: seq<Slot>)
    ensures |slots| == |metas| && forall i :: 0 <= i < |metas| ==> slots[i] == Newcomer(metas[i])
  {
    seq(|metas|, i requires 0 <= i < |metas| => Newcomer(metas[i]))
  }

  /** The catalogue's rows as they are, with the newcomers slotted in. */
  function Order(rows: seq<Row>, missing: seq<Meta>): seq<Slot> {
    Sort(Precedes, Slots(rows) + Newcomers(missing))
  }

  function Known(order: seq<Slot>): (known: seq<bool>)
    ensures |known| == |order| && forall i :: 0 <= i < |order| ==> known[i] == order[i].Existing?
  {
    seq(|order|, i requires 0 <= i < |order| => order[i].Existing?)
  }

  lemma {:induction false} OnlyExistingJoins(a: seq<Slot>, b: seq<Slot>)
    ensures OnlyExisting(a + b) == OnlyExisting(a) + OnlyExisting(b)
  {
    if a == [] {
      assert a + b == b;
    } else {
      OnlyExistingJoins(a[1..], b);
      assert (a + b)[1..] == a[1..] + b;
    }
  }

  lemma {:induction false} AllExisting(slots: seq<Slot>)
    requires forall i :: 0 <= i < |slots| ==> slots[i].Existing?
    ensures OnlyExisting(slots) == slots
  {
    if slots != [] {
      AllExisting(slots[1..]);
    }
  }

  lemma {:induction false} NoneExisting(slots: seq<Slot>)
    requires forall i :: 0 <= i < |slots| ==> slots[i].Newcomer?
    ensures OnlyExisting(slots) == []
  {
    if slots != [] {
      NoneExisting(slots[1..]);
    }
  }

  /** In a catalogue in order, the existing archives come in the order they were. */
  lemma ExistingInOrder(rows: seq<Row>, missing: seq<Meta>)
    requires Chronological(Slots(rows))
    ensures OnlyExisting(Order(rows, missing)) == Slots(rows)
  {
    SortAmong(Slots(rows) + Newcomers(missing));
    OnlyExistingJoins(Slots(rows), Newcomers(missing));
    AllExisting(Slots(rows));
    NoneExisting(Newcomers(missing));
    assert Slots(rows) + [] == Slots(rows);
    SortedStays(Precedes, Slots(rows));
  }

  /** Where in the order an existing archive is. */
  function Position(order: seq<Slot>, index: nat): nat
  {
    if order == [] then 0
    else if order[0].Existing? && order[0].index == index then 0
    else Position(order[1..], index) + 1
  }

  lemma {:induction false} RankCountsExisting(order: seq<Slot>, s: nat)
    requires s <= |order|
    ensures Rank(Known(order), s) == |OnlyExisting(order[..s])|
  {
    if s > 0 {
      RankCountsExisting(order, s - 1);
      assert order[..s] == order[..s - 1] + [order[s - 1]];
      OnlyExistingJoins(order[..s - 1], [order[s - 1]]);
      assert OnlyExisting([order[s - 1]]) == if order[s - 1].Existing? then [order[s - 1]] else [];
    }
  }

  lemma {:induction false} PositionFinds(order: seq<Slot>, i: nat)
    requires i < |order| && order[i].Existing?
    requires forall j :: 0 <= j < i && order[j].Existing? ==> order[j].index != order[i].index
    ensures Position(order, order[i].index) == i
    decreases i
  {
    if i > 0 {
      PositionFinds(order[1..], i - 1);
    }
  }

  /** The `k`th of the existing archives, in order, has the number its rank says. */
  lemma PositionIsNewNumber(rows: seq<Row>, order: seq<Slot>, k: int)
    requires OnlyExisting(order) == Slots(rows) && 1 <= k <= |rows|
    ensures Rank(Known(order), |order|) == |rows|
    ensures Position(order, k - 1) + 1 == NewNumber(Known(order), k)
    ensures order[Position(order, k - 1)] == Existing(k - 1, rows[k - 1])
  {
    assert order[..|order|] == order;
    RankCountsExisting(order, |order|);
    var s := NewNumber(Known(order), k);
    SlotAt(rows, order, s);
    forall j | 0 <= j < s - 1 && order[j].Existing?
      ensures order[j].index != order[s - 1].index
    {
      SlotAt(rows, order, j + 1);
      RankGrows(Known(order), j + 1, s - 1);
    }
    PositionFinds(order, s - 1);
  }

  lemma SlotAt(rows: seq<Row>, order: seq<Slot>, s: int)
    requires OnlyExisting(order) == Slots(rows) && 1 <= s <= |order| && order[s - 1].Existing?
    ensures 1 <= Rank(Known(order), s) <= |rows|
    ensures order[s - 1] == Slots(rows)[Rank(Known(order), s) - 1]
  {
    var a, b := order[..s], order[s..];
    assert order == a + b && a == order[..s - 1] + [order[s - 1]];
    OnlyExistingJoins(a, b);
    OnlyExistingJoins(order[..s - 1], [order[s - 1]]);
    assert OnlyExisting([order[s - 1]]) == [order[s - 1]];
    RankCountsExisting(order, s);
  }

  // ---- Rows stay whole only in a catalogue in order ----

  /** The rows with their ends renumbered as the archives were. */
  function MovedBy(order: seq<Slot>, versions: set<Version>): set<Version>
    requires forall v :: v in versions ==> 1 <= v.first <= v.last
  {
    set v | v in versions ::
      Version(v.path, Position(order, v.first - 1) + 1, Position(order, v.last - 1) + 1, v.content)
  }

  /** An archive is where it is said to be in the order. */
  lemma {:induction false} PositionHolds(order: seq<Slot>, slot: Slot)
    requires slot.Existing? && slot in order
    requires forall other :: other in order && other.Existing? && other.index == slot.index ==> other == slot
    ensures Position(order, slot.index) < |order| && order[Position(order, slot.index)] == slot
  {
    if order[0] != slot {
      PositionHolds(order[1..], slot);
    }
  }

  lemma OrderHolds(rows: seq<Row>, missing: seq<Meta>, k: nat)
    requires k < |rows|
    ensures var order := Order(rows, missing);
            var p := Position(order, k);
            p < |order| && order[p] == Existing(k, rows[k])
  {
    var all := Slots(rows) + Newcomers(missing);
    PrecedesOrders();
    SortSorts(Precedes, all);
    var order := Order(rows, missing);
    forall slot
      ensures slot in order <==> slot in all
    {
      assert slot in multiset(order) <==> slot in multiset(all);
    }
    assert all[k] == Existing(k, rows[k]);
    PositionHolds(order, Existing(k, rows[k]));
  }

  lemma {:induction false} NeighboursInOrder(slots: seq<Slot>, i: int, j: int)
    requires 0 <= i < j < |slots|
    requires forall k :: 0 <= k < |slots| - 1 ==> !Precedes(slots[k + 1], slots[k])
    ensures !Precedes(slots[j], slots[i])
    decreases j
  {
    assert !Precedes(slots[j - 1 + 1], slots[j - 1]);
    if i < j - 1 {
      NeighboursInOrder(slots, i, j - 1);
      PrecedesOrders();
    }
  }

  /** Rows kept whole: none starts after it ends once the newcomers are slotted in. */
  ghost predicate KeepsWhole(rows: seq<Row>, missing: seq<Meta>, versions: set<Version>)
    requires InRange(versions, |rows|)
  {
    forall v :: v in MovedBy(Order(rows, missing), versions) ==> v.first <= v.last
  }

  /** Slotting archives in keeps every row whole, whatever the archives held, if
      and only if the catalogue was in order of time and name to begin with. */
  lemma RowsStayWholeIff(rows: seq<Row>, missing: seq<Meta>)
    requires missing != []
    ensures (forall versions, history ::
               |history| == |rows| && Encodes(versions, history) && InRange(versions, |rows|) ==>
                 KeepsWhole(rows, missing, versions)) <==>
            Chronological(Slots(rows))
  {
    if Chronological(Slots(rows)) {
      forall versions, history | |history| == |rows| && Encodes(versions, history) && InRange(versions, |rows|)
        ensures KeepsWhole(rows, missing, versions)
      {
        SortedKeepsWhole(rows, missing, versions);
      }
    } else if forall k :: 0 <= k < |rows| - 1 ==> !Precedes(Slots(rows)[k + 1], Slots(rows)[k]) {
      forall i, j | 0 <= i < j < |rows|
        ensures !Precedes(Slots(rows)[j], Slots(rows)[i])
      {
        NeighboursInOrder(Slots(rows), i, j);
      }
      assert false;
    } else {
      var k :| 0 <= k < |rows| - 1 && Precedes(Slots(rows)[k + 1], Slots(rows)[k]);
      OutOfOrderBreaks(rows, missing, k);
    }
  }

  lemma PositionsGrow(rows: seq<Row>, order: seq<Slot>, a: int, b: int)
    requires OnlyExisting(order) == Slots(rows) && 1 <= a <= b <= |rows|
    ensures Position(order, a - 1) <= Position(order, b - 1)
  {
    hide *;
    PositionIsNewNumber(rows, order, a);
    PositionIsNewNumber(rows, order, b);
    if a < b {
      NewNumbersGrow(Known(order), a, b);
    }
  }

  lemma SortedKeepsWhole(rows: seq<Row>, missing: seq<Meta>, versions: set<Version>)
    requires Chronological(Slots(rows)) && InRange(versions, |rows|)
    ensures KeepsWhole(rows, missing, versions)
  {
    ExistingInOrder(rows, missing);
    hide Order, Chronological, OnlyExisting, Position, Slots;
    var order := Order(rows, missing);
    forall v | v in versions
      ensures Position(order, v.first - 1) <= Position(order, v.last - 1)
    {
      PositionsGrow(rows, order, v.first, v.last);
    }
  }

  lemma ComesFirst(order: seq<Slot>, p: nat, q: nat)
    requires Chronological(order) && p < |order| && q < |order| && Precedes(order[q], order[p])
    ensures q < p
  {
    PrecedesOrders();
  }

  /** A file only two archives out of order held is left a row that starts
      after it ends. */
  lemma OutOfOrderBreaks(rows: seq<Row>, missing: seq<Meta>, k: nat)
    requires k + 1 < |rows| && Precedes(Slots(rows)[k + 1], Slots(rows)[k])
    ensures exists versions, history ::
              && |history| == |rows| && Encodes(versions, history)
              && InRange(versions, |rows|) && !KeepsWhole(rows, missing, versions)
  {
    hide Encodes, Chronological, Precedes, Position;
    var content := Content("f", 0, 0, None);
    var row := Version(0, k + 1, k + 2, content);
    var order := Order(rows, missing);
    AloneEncodes(row, |rows|);
    OrderHolds(rows, missing, k);
    OrderHolds(rows, missing, k + 1);
    OrderIsSorted(rows, missing);
    var p, q := Position(order, k), Position(order, k + 1);
    ComesFirst(order, p, q);
    var moved := Version(0, p + 1, q + 1, content);
    assert moved in MovedBy(order, {row});
    assert !KeepsWhole(rows, missing, {row});
  }

  lemma OrderIsSorted(rows: seq<Row>, missing: seq<Meta>)
    ensures Chronological(Order(rows, missing))
  {
    PrecedesOrders();
    SortSorts(Precedes, Slots(rows) + Newcomers(missing));
  }
}
