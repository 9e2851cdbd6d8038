/** How a listing crosses from the engine into the catalogue
    (crates/backtrackd/src/pipeline.rs): forwarded in batches over a channel,
    turned back into items on the other side, and committed only if nothing on
    the way said that it was cut short. */
module Channel {
  import opened Text
  import opened Index
  import opened IndexWriter

  const INGEST_BATCH: nat := 4096

  /** How many items are in so many full batches. */
  function Batches(n: nat): nat {
    n * 4096
  }

  /** How many full batches there are in so many items. */
  function FullBatches(items: nat): (n: nat)
    ensures Batches(n) <= items < Batches(n + 1)
  {
    items / 4096
  }

  datatype Item = Item(path: int, content: Content)

  /** What the engine's listing gives, one at a time. */
  datatype Event = Arrived(item: Item) | Failed

  /** One message on the channel. */
  datatype Batch = Items(items: seq<Item>) | Incomplete

  // ---- What a listing holds ----

  predicate Breaks(events: seq<Event>) {
    exists i :: 0 <= i < |events| && events[i].Failed?
  }

  /** The items that arrive before the listing breaks off, if it does. */
  function Good(events: seq<Event>): (items: seq<Item>)
    ensures |items| <= |events|
    ensures forall i :: 0 <= i < |items| ==> events[i] == Arrived(items[i])
    ensures |items| < |events| ==> events[|items|].Failed?
  {
    if events == [] || events[0].Failed? then [] else [events[0].item] + Good(events[1..])
  }

  lemma BreaksShort(events: seq<Event>)
    ensures Breaks(events) <==> |Good(events)| < |events|
  {
  }

  function Gots(items: seq<Item>): (got: seq<Read>)
    ensures |got| == |items| && forall i :: 0 <= i < |items| ==> got[i] == Got(items[i].path, items[i].content)
  {
    seq(|items|, i requires 0 <= i < |items| => Got(items[i].path, items[i].content))
  }

  // ---- Sending ----

  function Chunks(items: seq<Item>, n: nat): (batches: seq<Batch>)
    requires Batches(n) <= |items|
    ensures |batches| == n
    ensures forall i :: 0 <= i < n ==> batches[i] == Items(items[Batches(i)..Batches(i + 1)])
  {
    seq(n, i requires 0 <= i < n => Items(items[Batches(i)..Batches(i + 1)]))
  }

  /** Whether the job is seen to be cancelled at its `check`th look, when it is
      cancelled just before look `cancel`. */
  predicate SeenCancelled(cancel: Option<nat>, check: nat) {
    cancel.Some? && cancel.value <= check
  }

  /** How many full batches go out. */
  function Forwarded(events: seq<Event>, cancel: Option<nat>): (n: nat)
    ensures Batches(n) <= |Good(events)|
  {
    var full := FullBatches(|Good(events)|);
    if cancel.Some? && cancel.value < full then cancel.value + 1 else full
  }

  /** Whether the last message says that the listing is cut short. */
  predicate CutShort(events: seq<Event>, cancel: Option<nat>) {
    Breaks(events) || SeenCancelled(cancel, FullBatches(|Good(events)|))
  }

  function Sent(events: seq<Event>, cancel: Option<nat>): (messages: seq<Batch>)
    ensures |messages| == Forwarded(events, cancel) + 1
  {
    var items, n := Good(events), Forwarded(events, cancel);
    Chunks(items, n) + [if CutShort(events, cancel) then Incomplete else Items(items[Batches(n)..])]
  }

  /** The batches sent so far are the first of those sent in all; and they are
      all of them once the job was last seen to be cancelled, or is not and no
      full batch is left. */
  lemma AllForwarded(events: seq<Event>, cancel: Option<nat>, looks: nat, n: nat)
    requires n <= looks && Batches(looks) <= |Good(events)|
    requires looks > 1 ==> !SeenCancelled(cancel, looks - 2)
    ensures n < |Sent(events, cancel)| && Chunks(Good(events), n) == Sent(events, cancel)[..n]
    ensures (looks > 0 && SeenCancelled(cancel, looks - 1)) || |Good(events)| < Batches(looks + 1) ==>
              Sent(events, cancel) == Chunks(Good(events), looks) +
                [if CutShort(events, cancel) then Incomplete else Items(Good(events)[Batches(looks)..])]
  {
    assert looks <= Forwarded(events, cancel);
  }

  lemma NextChunk(items: seq<Item>, n: nat)
    requires Batches(n + 1) <= |items|
    ensures Chunks(items, n + 1) == Chunks(items, n) + [Items(items[Batches(n)..Batches(n + 1)])]
  {
  }

  lemma LastWord(events: seq<Event>, cancel: Option<nat>, looks: nat, failure: bool, stopped: bool)
    requires Batches(looks) <= |Good(events)|
    requires failure ==> Breaks(events)
    requires !stopped ==> |Good(events)| < Batches(looks + 1) && failure == Breaks(events)
    requires stopped ==> looks > 0 && SeenCancelled(cancel, looks - 1)
    ensures CutShort(events, cancel) <==> failure || SeenCancelled(cancel, looks)
  {
  }

  /** How forwarding stands: `i` items have arrived, the last of them in `batch`,
      and `looks` batches have filled up. */
  ghost predicate Sending(events: seq<Event>, cancel: Option<nat>, takes: Option<nat>, i: nat, looks: nat,
                          batch: seq<Item>, sent: seq<Batch>, failure: bool, gone: bool, stopped: bool)
  {
    var items := Good(events);
    && Batches(looks) <= i <= |items| && batch == items[Batches(looks)..i] && |batch| < INGEST_BATCH
    && (failure ==> i == |items| && Breaks(events) && !stopped && !gone)
    && (stopped ==> looks > 0 && batch == [] && SeenCancelled(cancel, looks - 1) && !gone)
    && (looks > 0 && !stopped && !gone ==> !SeenCancelled(cancel, looks - 1))
    && (looks > 1 ==> !SeenCancelled(cancel, looks - 2))
    && if gone then takes.Some? && looks == takes.value + 1 && sent == Chunks(items, takes.value)
       else sent == Chunks(items, looks) && (takes.Some? ==> looks <= takes.value)
  }

  lemma NothingSent(events: seq<Event>, cancel: Option<nat>, takes: Option<nat>)
    ensures Sending(events, cancel, takes, 0, 0, [], [], false, false, false)
  {
  }

  lemma BreaksOff(events: seq<Event>, cancel: Option<nat>, takes: Option<nat>, i: nat, looks: nat, batch: seq<Item>,
                  sent: seq<Batch>)
    requires Sending(events, cancel, takes, i, looks, batch, sent, false, false, false)
    requires i < |events| && events[i].Failed?
    ensures Sending(events, cancel, takes, i, looks, batch, sent, true, false, false)
  {
  }

  lemma ItemArrives(events: seq<Event>, cancel: Option<nat>, takes: Option<nat>, i: nat, looks: nat, batch: seq<Item>,
                    sent: seq<Batch>)
    requires Sending(events, cancel, takes, i, looks, batch, sent, false, false, false)
    requires i < |events| && events[i].Arrived?
    ensures var more := batch + [events[i].item];
            if |more| < INGEST_BATCH then Sending(events, cancel, takes, i + 1, looks, more, sent, false, false, false)
            else if takes.Some? && looks >= takes.value then
              Sending(events, cancel, takes, i + 1, looks + 1, [], sent, false, true, false)
            else Sending(events, cancel, takes, i + 1, looks + 1, [], sent + [Items(more)], false, false,
                         SeenCancelled(cancel, looks))
  {
    var items, more := Good(events), batch + [events[i].item];
    assert i < |items| && more == items[Batches(looks)..i + 1];
    hide Good;
    if |more| >= INGEST_BATCH {
      assert i + 1 == Batches(looks + 1);
      NextChunk(items, looks);
    }
  }

  /** What has been sent once the last message has, or the writer has gone. */
  lemma AllSent(events: seq<Event>, cancel: Option<nat>, takes: Option<nat>, i: nat, looks: nat, batch: seq<Item>,
                sent: seq<Batch>, failure: bool, gone: bool, stopped: bool)
    requires Sending(events, cancel, takes, i, looks, batch, sent, failure, gone, stopped)
    requires i == |events| || failure || gone || stopped
    ensures var all := Sent(events, cancel);
            var last := if failure || SeenCancelled(cancel, looks) then Incomplete else Items(batch);
            if gone || (takes.Some? && looks >= takes.value)
            then takes.Some? && takes.value < |all| && sent == all[..takes.value]
            else sent + [last] == all && !(takes.Some? && takes.value < |all|)
  {
    BreaksShort(events);
    AllForwarded(events, cancel, looks, if gone then looks - 1 else looks);
    if !gone {
      LastWord(events, cancel, looks, failure, stopped);
    }
    hide Sent, Chunks, Good, Forwarded, Breaks;
    assert !gone && !failure && !stopped ==> batch == Good(events)[Batches(looks)..];
  }

  /** Forward a listing. `cancel` is when the job is cancelled, as a number of
      looks, and `takes` how many messages the writer takes before it goes away,
      if it does: it is sent nothing more. */
  method Forward(events: seq<Event>, cancel: Option<nat>, takes: Option<nat>) returns (sent: seq<Batch>)
    ensures var all := Sent(events, cancel);
            sent == if takes.Some? && takes.value < |all| then all[..takes.value] else all
  {
    hide Sending, Sent;
    sent := [];
    var batch: seq<Item> := [];
    var failure, gone, stopped := false, false, false;
    var looks, i := 0, 0;
    NothingSent(events, cancel, takes);
    while i < |events| && !failure && !gone && !stopped
      invariant 0 <= i <= |events|
      invariant Sending(events, cancel, takes, i, looks, batch, sent, failure, gone, stopped)
      decreases |events| - i, !failure
    {
      match events[i] {
        case Failed =>
          BreaksOff(events, cancel, takes, i, looks, batch, sent);
          BatchShort(events, cancel, takes, i, looks, batch, sent);
          failure := true;
        case Arrived(item) =>
          ItemArrives(events, cancel, takes, i, looks, batch, sent);
          batch := batch + [item];
          i := i + 1;
      }
      if |batch| >= INGEST_BATCH {
        if takes.Some? && looks >= takes.value {
          gone := true;
        } else {
          sent := sent + [Items(batch)];
          stopped := SeenCancelled(cancel, looks);
        }
        batch := [];
        looks := looks + 1;
      }
    }
    AllSent(events, cancel, takes, i, looks, batch, sent, failure, gone, stopped);
    if !gone && !(takes.Some? && looks >= takes.value) {
      sent := sent + [if failure || SeenCancelled(cancel, looks) then Incomplete else Items(batch)];
    }
  }

  lemma BatchShort(events: seq<Event>, cancel: Option<nat>, takes: Option<nat>, i: nat, looks: nat, batch: seq<Item>,
                   sent: seq<Batch>)
    requires Sending(events, cancel, takes, i, looks, batch, sent, false, false, false)
    ensures |batch| < INGEST_BATCH
  {
  }

  // ---- Receiving ----

  /** What the messages on the channel give the writer, in order. */
  function Flatten(messages: seq<Batch>): seq<Read> {
    if messages == [] then [] else Gives(messages[0]) + Flatten(messages[1..])
  }

  function Gives(message: Batch): seq<Read> {
    match message
    case Items(items) => Gots(items)
    case Incomplete => [Cut]
  }

  /** The batches turned back into items, on the writer's side. */
  class BatchedItems {
    var rx: seq<Batch>
    var current: seq<Item>

    /** Everything still to come. */
    ghost function Left(): seq<Read>
      reads this
    {
      Gots(current) + Flatten(rx)
    }

    constructor (messages: seq<Batch>)
      ensures rx == messages && Left() == Flatten(messages)
    {
      rx, current := messages, [];
    }

    method Next() returns (item: Option<Read>)
      modifies this
      ensures item.None? <==> old(Left()) == []
      ensures item.None? ==> Left() == []
      ensures item.Some? ==> old(Left()) == [item.value] + Left()
      ensures |rx| <= old(|rx|)
    {
      while current == [] && rx != []
        invariant Left() == old(Left()) && |rx| <= old(|rx|)
        decreases |rx|
      {
        var message := rx[0];
        rx := rx[1..];
        match message {
          case Items(items) =>
            current := items;
          case Incomplete =>
            return Some(Cut);
        }
      }
      if current == [] {
        return None;
      }
      var first := current[0];
      assert Gots(current) == [Got(first.path, first.content)] + Gots(current[1..]);
      current := current[1..];
      return Some(Got(first.path, first.content));
    }
  }

  // ---- Whole, or said not to be ----

  lemma {:induction false} FlattenJoins(a: seq<Batch>, b: seq<Batch>)
    ensures Flatten(a + b) == Flatten(a) + Flatten(b)
  {
    if a == [] {
      assert a + b == b;
    } else {
      hide *;
      var first, rest := a[0], a[1..];
      FlattenJoins(rest, b);
      assert a + b == [first] + (rest + b) && a == [first] + rest;
      FlattenFirst(first, rest + b);
      FlattenFirst(first, rest);
      Regrouped(Gives(first), Flatten(rest), Flatten(b));
    }
  }

  lemma Regrouped<T>(a: seq<T>, b: seq<T>, c: seq<T>)
    ensures a + (b + c) == a + b + c
  {
  }

  lemma FlattenFirst(message: Batch, rest: seq<Batch>)
    ensures Flatten([message] + rest) == Gives(message) + Flatten(rest)
  {
    assert ([message] + rest)[1..] == rest;
  }

  lemma FlattenOne(message: Batch)
    ensures Flatten([message]) == Gives(message)
  {
    FlattenFirst(message, []);
    assert [message] + [] == [message] && Flatten([]) == [];
  }

  lemma {:induction false} ChunksFlatten(items: seq<Item>, n: nat)
    requires Batches(n) <= |items|
    ensures Flatten(Chunks(items, n)) == Gots(items[..Batches(n)])
  {
    if n == 0 {
      assert Chunks(items, 0) == [];
    } else {
      ChunksFlatten(items, n - 1);
      var start, end := Batches(n - 1), Batches(n);
      var batch := items[start..end];
      NextChunk(items, n - 1);
      hide Chunks, Flatten;
      FlattenJoins(Chunks(items, n - 1), [Items(batch)]);
      FlattenOne(Items(batch));
      GotsJoin(items[..end], start);
      assert items[..end][..start] == items[..start] && items[..end][start..] == batch;
    }
  }

  /** What the writer is given once the forwarding has run to its end: the whole
      listing in order if it never broke off and the job was not cancelled, and
      otherwise whole batches of it and word that it was cut short. */
  lemma ArrivesWholeOrCut(events: seq<Event>, cancel: Option<nat>)
    ensures Flatten(Sent(events, cancel)) ==
            if CutShort(events, cancel)
            then Gots(Good(events)[..Batches(Forwarded(events, cancel))]) + [Cut]
            else Gots(Good(events))
  {
    var items, n := Good(events), Forwarded(events, cancel);
    var last := if CutShort(events, cancel) then Incomplete else Items(items[Batches(n)..]);
    assert Sent(events, cancel) == Chunks(items, n) + [last];
    hide Sent, Good, Forwarded, CutShort, Chunks, Flatten;
    FlattenJoins(Chunks(items, n), [last]);
    ChunksFlatten(items, n);
    FlattenOne(last);
    GotsJoin(items, Batches(n));
  }

  lemma GotsJoin(items: seq<Item>, at: nat)
    requires at <= |items|
    ensures Gots(items[..at]) + Gots(items[at..]) == Gots(items)
  {
  }

  /** How far forwarding goes, and what it ends on: batches of 4096 items until
      the job is seen to be cancelled or fewer are left, and then what is left,
      or word that it is not the whole. */
  lemma SentIs(events: seq<Event>, cancel: Option<nat>)
    ensures var (sent, n) := (Sent(events, cancel), |Sent(events, cancel)| - 1);
            && (forall i :: 0 <= i < n ==> sent[i].Items? && |sent[i].items| == 4096)
            && (n > 1 ==> !(cancel.Some? && cancel.value <= n - 2))
            && (|Good(events)| - 4096 * n < 4096 || (n > 0 && cancel.Some? && cancel.value <= n - 1))
            && match sent[n]
               case Incomplete => (exists e :: e in events && e.Failed?) || (cancel.Some? && cancel.value <= n)
               case Items(rest) =>
                 && |rest| < 4096 && !(cancel.Some? && cancel.value <= n)
                 && !exists e :: e in events && e.Failed?
  {
    assert Breaks(events) <==> exists e :: e in events && e.Failed? by {
      if e :| e in events && e.Failed? {
        var i :| 0 <= i < |events| && events[i] == e;
      }
      if i :| 0 <= i < |events| && events[i].Failed? {
        assert events[i] in events;
      }
    }
    hide Breaks, Good;
  }

  /** If the forwarding goes away before its last message, the writer is given
      whole batches and no word that there was more. */
  lemma ClosedEarly(events: seq<Event>, cancel: Option<nat>, n: nat)
    requires n < |Sent(events, cancel)|
    ensures Batches(n) <= |Good(events)|
    ensures Flatten(Sent(events, cancel)[..n]) == Gots(Good(events)[..Batches(n)])
  {
    assert Sent(events, cancel)[..n] == Chunks(Good(events), n);
    ChunksFlatten(Good(events), n);
  }

  /** What the writer commits, if it commits, is the archive's whole listing. */
  ghost predicate Truthful(events: seq<Event>, messages: seq<Batch>) {
    Whole(Flatten(messages)) ==> !Breaks(events) && Flatten(messages) == Gots(Good(events))
  }

  /** Of the listing's messages the writer is given the first `n` and then finds
      the channel closed. It commits the whole listing or nothing if and only if
      the last message got through, or there was nothing in it. */
  lemma TruthfulIff(events: seq<Event>, cancel: Option<nat>, n: nat)
    requires n <= |Sent(events, cancel)|
    ensures Truthful(events, Sent(events, cancel)[..n]) <==>
            n == |Sent(events, cancel)| || (!Breaks(events) && Batches(n) == |Good(events)|)
  {
    var sent := Sent(events, cancel);
    if n == |sent| {
      assert sent[..n] == sent;
      ArrivesWholeOrCut(events, cancel);
      if CutShort(events, cancel) {
        var got := Gots(Good(events)[..Batches(Forwarded(events, cancel))]);
        assert (got + [Cut])[|got|] == Cut;
        assert !Whole(Flatten(sent));
      }
      BreaksShort(events);
    } else {
      ClosedEarly(events, cancel, n);
    }
  }
}
