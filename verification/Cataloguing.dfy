/** One archive read into the catalogue, from the engine's listing to the rows
    (crates/backtrackd/src/pipeline.rs). */
module Cataloguing {
  import opened Text
  import opened Index
  import opened IndexOrder
  import opened IndexWriter
  import opened Channel

  datatype Verdict = Catalogued(count: nat) | EngineFailed | IndexFailed | WasCancelled

  /** The writer's side: everything that arrives, or nothing, goes in. */
  method ReadIn(w: Writer, s: int, messages: seq<Batch>, kind: Kind) returns (ok: bool)
    requires 1 <= s <= |w.rows|
    modifies w
    ensures old(w.Valid()) ==> w.Valid()
    ensures ok <==> Whole(Flatten(messages))
    ensures !ok ==> w.rows == old(w.rows) && w.versions == old(w.versions)
    ensures ok ==> w.rows == old(w.rows)[s - 1 := old(w.rows)[s - 1].(pending := false)]
    ensures ok && old(w.Valid()) ==> ReadTo(old(w.versions), |w.rows|, s, Flatten(messages), kind, w.versions)
  {
    hide ReadTo, Flatten, InRange;
    var from := new BatchedItems(messages);
    var items: seq<Read> := [];
    var cut := false;
    var done := false;
    while !done && !cut
      invariant fresh(from) && w.rows == old(w.rows) && w.versions == old(w.versions)
      invariant items + from.Left() == Flatten(messages)
      invariant if cut then !Whole(items) else Whole(items)
      invariant done ==> from.Left() == []
      decreases |from.Left()|, !done
    {
      var next := from.Next();
      match next {
        case None =>
          done := true;
        case Some(item) =>
          items := items + [item];
          cut := item.Cut?;
          assert cut ==> items[|items| - 1].Cut?;
      }
    }
    CutIsCut(items, from.Left());
    assert !cut ==> items == Flatten(messages);
    ok := w.Ingest(s, items, kind);
  }

  lemma CutIsCut(items: seq<Read>, rest: seq<Read>)
    ensures !Whole(items) ==> !Whole(items + rest)
  {
    if i :| 0 <= i < |items| && items[i].Cut? {
      assert (items + rest)[i].Cut?;
    }
  }

  /** An archive the catalogue holds, read in while catching up. `listing` is
      what the engine gives, if the listing opens at all. */
  method IngestOne(w: Writer, s: int, listing: Option<seq<Event>>) returns (verdict: Verdict)
    requires 1 <= s <= |w.rows|
    modifies w
    ensures old(w.Valid()) ==> w.Valid()
    ensures verdict.Catalogued? <==> listing.Some? && !Breaks(listing.value)
    ensures verdict.Catalogued? ==>
              && verdict.count == |listing.value|
              && w.rows == old(w.rows)[s - 1 := old(w.rows)[s - 1].(pending := false)]
              && (old(w.Valid()) ==>
                    ReadTo(old(w.versions), |w.rows|, s, Gots(Good(listing.value)), Full, w.versions))
    ensures !verdict.Catalogued? ==> verdict.EngineFailed? && w.rows == old(w.rows) && w.versions == old(w.versions)
  {
    hide ReadTo;
    if listing.None? {
      return EngineFailed;
    }
    var events := listing.value;
    var messages := Forward(events, None, None);
    Arriving(events, None);
    var ok := ReadIn(w, s, messages, Full);
    BreaksShort(events);
    hide Flatten, Sent, Good, Gots;
    verdict := if ok then Catalogued(|Good(events)|) else EngineFailed;
  }

  lemma Arriving(events: seq<Event>, cancel: Option<nat>)
    ensures Whole(Flatten(Sent(events, cancel))) <==> !CutShort(events, cancel)
    ensures !CutShort(events, cancel) ==> Flatten(Sent(events, cancel)) == Gots(Good(events))
  {
    ArrivesWholeOrCut(events, cancel);
    if CutShort(events, cancel) {
      var got := Gots(Good(events)[..Batches(Forwarded(events, cancel))]);
      assert (got + [Cut])[|got|] == Cut;
    }
  }

  /** What the writer is given of an archive a backup has just written, if it
      commits: nothing at all, if the listing did not open. */
  function Given(listing: Option<seq<Event>>): (items: seq<Read>)
    ensures Whole(items)
  {
    if listing.Some? then Gots(Good(listing.value)) else []
  }

  /** The job is cancelled by one of its first `looks` looks. It looks after every
      full batch, once the listing is at its end, and once more after the commit. */
  predicate CancelledBefore(cancel: Option<nat>, looks: nat) {
    cancel.Some? && cancel.value < looks
  }

  /** The archive a backup has just written, recorded and read in. The writer is
      listening before the listing is opened: if it does not open, the writer is
      told nothing, and commits an archive that held nothing. The engine's failure
      is what is reported, unless the job was seen to be cancelled first. */
  method CatalogueArchive(w: Writer, meta: Meta, repo: string, kind: Kind, listing: Option<seq<Event>>,
                          cancel: Option<nat>)
    returns (verdict: Verdict)
    modifies w
    ensures old(w.Valid()) ==> w.Valid()
    ensures var s := |old(w.rows)| + 1;
            var read := listing.None? || !CutShort(listing.value, cancel);
            && w.rows == old(w.rows) + [Row(meta.name, meta.ts, repo, !read, None)]
            && (!read ==> w.versions == old(w.versions))
            && (read && old(w.Valid()) ==> ReadTo(old(w.versions), s, s, Given(listing), kind, w.versions))
    ensures verdict.EngineFailed? <==>
            listing.None? || (Breaks(listing.value) && !CancelledBefore(cancel, FullBatches(|Good(listing.value)|)))
    ensures verdict.IndexFailed? <==>
            listing.Some? &&
            CancelledBefore(cancel, FullBatches(|Good(listing.value)|) + if Breaks(listing.value) then 0 else 1)
    ensures verdict.WasCancelled? <==>
            listing.Some? && !Breaks(listing.value) && cancel == Some(FullBatches(|Good(listing.value)|) + 1)
    ensures verdict.Catalogued? <==>
            listing.Some? && !Breaks(listing.value) &&
            !CancelledBefore(cancel, FullBatches(|Good(listing.value)|) + 2)
    ensures verdict.Catalogued? ==> verdict.count == |listing.value|
  {
    hide ReadTo, InRange, Flatten, Sent, Good, Gots, FullBatches, Breaks, CutShort, StoppedFirst, SeenCancelled;
    var s := w.AppendArchive(meta, repo);
    if listing.None? {
      NothingGiven();
      var committed := ReadIn(w, s, [], kind);
      return EngineFailed;
    }
    var events := listing.value;
    var messages := Forward(events, cancel, None);
    Arriving(events, cancel);
    var ok := ReadIn(w, s, messages, kind);
    BreaksShort(events);
    Looks(events, cancel);
    if Breaks(events) && !StoppedFirst(events, cancel) {
      verdict := EngineFailed;
    } else if !ok {
      verdict := IndexFailed;
    } else if SeenCancelled(cancel, FullBatches(|Good(events)|) + 1) {
      verdict := WasCancelled;
    } else {
      verdict := Catalogued(|Good(events)|);
    }
  }

  lemma NothingGiven()
    ensures Flatten([]) == []
  {
  }

  lemma Looks(events: seq<Event>, cancel: Option<nat>)
    ensures var full := FullBatches(|Good(events)|);
            && (StoppedFirst(events, cancel) <==> CancelledBefore(cancel, full))
            && (CutShort(events, cancel) <==> Breaks(events) || CancelledBefore(cancel, full + 1))
            && (SeenCancelled(cancel, full + 1) <==> CancelledBefore(cancel, full + 2))
  {
    hide FullBatches, Breaks, Good;
  }

  /** The job was seen to be cancelled before the listing broke off. */
  predicate StoppedFirst(events: seq<Event>, cancel: Option<nat>) {
    Forwarded(events, cancel) > 0 && SeenCancelled(cancel, Forwarded(events, cancel) - 1)
  }
}
