/** What the window is looking at, and how each change of it settles
    (crates/backtrack-gtk/src/state.rs). */
module Window {
  import opened Text
  import opened Timeline

  /** Which backups the catalogue said to list for a folder, and which load of
      the catalogue it said so of. */
  datatype Listing = Listing(folder: string, generation: nat, numbers: set<int>)

  datatype View = View(
    archives: seq<Archive>,
    listed: seq<Archive>,
    listing: Option<Listing>,
    generation: nat,
    showAll: bool,
    trash: seq<Trashed>,
    entries: seq<Archive>,
    viewed: Option<int>,
    folder: string)
  {
    predicate ListingIsCurrent() {
      listing.Some? && listing.value.folder == folder && listing.value.generation == generation
    }

    ghost predicate Numbered() {
      forall i :: 0 <= i < |archives| ==> archives[i].number > 0
    }

    predicate HasEntry(number: int) {
      exists i :: 0 <= i < |entries| && entries[i].number == number
    }

    predicate HasArchive(number: int) {
      exists i :: 0 <= i < |archives| && archives[i].number == number
    }
  }

  datatype Place = Place(ts: int, number: int)

  /** The catalogued backups listed and newer than `number`, as times. */
  function NewerListed(archives: seq<Archive>, numbers: set<int>, number: int): seq<Place> {
    if archives == [] then []
    else
      var a := archives[0];
      (if a.catalogued && a.number > number && a.number in numbers then [Place(a.ts, a.number)] else []) +
      NewerListed(archives[1..], numbers, number)
  }

  /** The entries for a gap after a backup from `number` on. */
  function EntriesAfter(entries: seq<Archive>, number: int): seq<Place> {
    if entries == [] then []
    else
      var e := entries[0];
      (if IsEntry(e.number) && BaseOf(e.number).Some? && BaseOf(e.number).value >= number
       then [Place(e.ts, e.number)] else []) +
      EntriesAfter(entries[1..], number)
  }

  predicate Sooner(a: Place, b: Place) {
    a.ts < b.ts || (a.ts == b.ts && a.number < b.number)
  }

  function Soonest(places: seq<Place>): Option<Place> {
    if places == [] then None
    else match Soonest(places[1..])
      case None => Some(places[0])
      case Some(rest) => Some(if Sooner(rest, places[0]) then rest else places[0])
  }

  /** The newest catalogued backup, of those in `numbers`. */
  function NewestListed(archives: seq<Archive>, numbers: set<int>): Option<int> {
    if archives == [] then None
    else if archives[0].catalogued && archives[0].number in numbers then Some(archives[0].number)
    else NewestListed(archives[1..], numbers)
  }

  function NewestCatalogued(archives: seq<Archive>): Option<int> {
    if archives == [] then None
    else if archives[0].catalogued then Some(archives[0].number)
    else NewestCatalogued(archives[1..])
  }

  function OldestCatalogued(archives: seq<Archive>): Option<int> {
    if archives == [] then None
    else match OldestCatalogued(archives[1..])
      case Some(number) => Some(number)
      case None => if archives[0].catalogued then Some(archives[0].number) else None
  }

  /** Where a request to view a backup lands. */
  function LandBackup(v: View, number: int): int {
    if v.showAll || !v.ListingIsCurrent() then number
    else
      var numbers := v.listing.value.numbers;
      if number in numbers then number
      else match Soonest(NewerListed(v.archives, numbers, number) + EntriesAfter(v.entries, number))
        case Some(place) => place.number
        case None =>
          match NewestListed(v.archives, numbers)
          case Some(newest) => newest
          case None => number
  }

  /** Where a request to view a backup or an entry lands. An entry that is gone
      lands as the backup before its gap would, or as the first backup, if its
      gap was before that. */
  function Land(v: View, number: int): int {
    if !IsEntry(number) then LandBackup(v, number)
    else if v.HasEntry(number) then number
    else
      var base := if BaseOf(number).Some? then BaseOf(number) else OldestCatalogued(v.archives);
      match base
      case None => number
      case Some(backup) => LandBackup(v, backup)
  }

  /** The backups the folder lists: those its listing names, those not read
      yet, and the one viewed. */
  function Kept(archives: seq<Archive>, v: View): seq<Archive> {
    if archives == [] then []
    else
      var a := archives[0];
      (if v.showAll || v.listing.None? || !a.catalogued || a.number in v.listing.value.numbers ||
       Some(a.number) == v.viewed
       then [a] else []) + Kept(archives[1..], v)
  }

  function Relist(v: View): View {
    v.(listed := SortNewest(Kept(v.archives, v) + v.entries))
  }

  function Settle(v: View): View {
    var v1 := v.(entries := EntriesFor(v.folder, v.archives, v.trash));
    Relist(v1.(viewed := if v1.viewed.Some? then Some(Land(v1, v1.viewed.value)) else None))
  }

  function Adopt(v: View, numbers: set<int>): View {
    Settle(v.(listing := Some(Listing(v.folder, v.generation, numbers))))
  }

  // ---- Changes ----

  datatype Change = Archives | Listed | Seq | Folder | Selection | Trash

  /** What is listed and when. */
  function ListedMarks(v: View): seq<Place> {
    Marks(v.listed)
  }

  function Marks(places: seq<Archive>): seq<Place> {
    if places == [] then [] else [Place(places[0].ts, places[0].number)] + Marks(places[1..])
  }

  function Moves(before: View, after: View): seq<Change> {
    (if ListedMarks(after) != ListedMarks(before) then [Listed] else []) +
    (if after.viewed != before.viewed then [Seq] else [])
  }

  datatype Op =
    | Load(archives: seq<Archive>, listed: Option<(string, set<int>)>)
    | SetListing(folder: string, generation: nat, numbers: set<int>)
    | SetShowAll(on: bool)
    | SetTrash(items: seq<Trashed>)
    | SetSeq(number: int)
    | SetFolder(folder: string)

  /** The view, and every folder's listing known for the current load. */
  datatype State = State(view: View, listings: map<string, set<int>>)

  function Apply(s: State, op: Op): State {
    var v := s.view;
    match op
    case Load(archives, listed) =>
      var generation := v.generation + 1;
      var stillThere := v.viewed.Some? && exists i :: 0 <= i < |archives| && archives[i].number == v.viewed.value;
      var v1 := v.(generation := generation, archives := archives,
        viewed := if stillThere then v.viewed else NewestCatalogued(archives),
        listing := match listed
          case None => None
          case Some((folder, numbers)) => Some(Listing(folder, generation, numbers)));
      State(Settle(v1), if listed.Some? then map[listed.value.0 := listed.value.1] else map[])
    case SetListing(folder, generation, numbers) =>
      if v.folder != folder || v.generation != generation then s
      else State(Adopt(v, numbers), s.listings[folder := numbers])
    case SetShowAll(on) =>
      if v.showAll == on then s else s.(view := Settle(v.(showAll := on)))
    case SetTrash(items) =>
      if v.trash == items then s else s.(view := Settle(v.(trash := items)))
    case SetSeq(number) =>
      var landing := Land(v, number);
      if v.viewed == Some(landing) then s else s.(view := Relist(v.(viewed := Some(landing))))
    case SetFolder(folder) =>
      if v.folder == folder then s
      else
        var v1 := v.(folder := folder);
        s.(view := if folder in s.listings then Adopt(v1, s.listings[folder]) else Settle(v1))
  }

  function Opened(folder: string): State {
    State(View([], [], None, 0, false, [], [], None, folder), map[])
  }

  /** The shared state, each operation with what it announces. */
  class AppState {
    var view: View
    var listings: map<string, set<int>>

    ghost function Now(): State
      reads this
    {
      State(view, listings)
    }

    constructor (folder: string)
      ensures Now() == Opened(folder)
    {
      view := View([], [], None, 0, false, [], [], None, folder);
      listings := map[];
    }

    method SetCatalogue(archives: seq<Archive>, listed: Option<(string, set<int>)>) returns (said: seq<Change>)
      modifies this
      ensures Now() == Apply(old(Now()), Load(archives, listed))
      ensures said == [Archives] + (if view.viewed != old(view).viewed then [Seq] else [])
    {
      hide Settle, NewestCatalogued;
      var before := view.viewed;
      listings := map[];
      view := view.(generation := view.generation + 1);
      var stillThere := view.viewed.Some? && exists i :: 0 <= i < |archives| && archives[i].number == view.viewed.value;
      if !stillThere {
        view := view.(viewed := NewestCatalogued(archives));
      }
      view := view.(archives := archives, listing := None);
      if listed.Some? {
        var (folder, numbers) := listed.value;
        listings := listings[folder := numbers];
        view := view.(listing := Some(Listing(folder, view.generation, numbers)));
      }
      view := Settle(view);
      said := [Archives];
      if view.viewed != before {
        said := said + [Seq];
      }
    }

    method SetListing(folder: string, generation: nat, numbers: set<int>) returns (said: seq<Change>)
      modifies this
      ensures Now() == Apply(old(Now()), Op.SetListing(folder, generation, numbers))
      ensures said == Moves(old(view), view)
    {
      if view.folder != folder || view.generation != generation {
        return [];
      }
      listings := listings[folder := numbers];
      var before := view;
      view := Adopt(view, numbers);
      said := Moves(before, view);
    }

    method SetShowAll(on: bool) returns (said: seq<Change>)
      modifies this
      ensures Now() == Apply(old(Now()), Op.SetShowAll(on))
      ensures said == Moves(old(view), view)
    {
      if view.showAll == on {
        return [];
      }
      var before := view;
      view := view.(showAll := on);
      view := Settle(view);
      said := Moves(before, view);
    }

    method SetTrash(items: seq<Trashed>) returns (said: seq<Change>)
      modifies this
      ensures Now() == Apply(old(Now()), Op.SetTrash(items))
      ensures said == if old(view).trash == items then [] else [Trash] + Moves(old(view), view)
    {
      if view.trash == items {
        return [];
      }
      var before := view;
      view := view.(trash := items);
      view := Settle(view);
      said := [Trash] + Moves(before, view);
    }

    method SetSeq(number: int) returns (said: seq<Change>)
      modifies this
      ensures Now() == Apply(old(Now()), Op.SetSeq(number))
      ensures said == Moves(old(view), view)
    {
      var before := view;
      var landing := Land(view, number);
      if view.viewed == Some(landing) {
        return [];
      }
      view := view.(viewed := Some(landing));
      view := Relist(view);
      said := if ListedMarks(view) != ListedMarks(before) then [Listed, Seq] else [Seq];
    }

    method SetFolder(folder: string) returns (said: seq<Change>)
      modifies this
      ensures Now() == Apply(old(Now()), Op.SetFolder(folder))
      ensures said == if old(view).folder == folder then [] else [Folder, Selection] + Moves(old(view), view)
    {
      if view.folder == folder {
        return [];
      }
      var before := view;
      view := view.(folder := folder);
      if folder in listings {
        view := Adopt(view, listings[folder]);
      } else {
        view := Settle(view);
      }
      said := [Folder, Selection] + Moves(before, view);
    }
  }

  // ---- Landing is where it lands ----

  lemma {:induction false} SoonestIsOne(places: seq<Place>)
    ensures Soonest(places).None? <==> places == []
    ensures Soonest(places).Some? ==> Soonest(places).value in places
    ensures Soonest(places).Some? ==> forall p :: p in places ==> !Sooner(p, Soonest(places).value)
  {
    if places != [] {
      SoonestIsOne(places[1..]);
      assert places == [places[0]] + places[1..];
    }
  }

  lemma {:induction false} NewerListedHolds(archives: seq<Archive>, numbers: set<int>, number: int, p: Place)
    ensures p in NewerListed(archives, numbers, number) <==>
            p.number > number && p.number in numbers && Archive(p.number, p.ts, true) in archives
  {
    if archives != [] {
      NewerListedHolds(archives[1..], numbers, number, p);
      assert archives == [archives[0]] + archives[1..];
    }
  }

  lemma {:induction false} EntriesAfterHolds(entries: seq<Archive>, number: int, p: Place)
    ensures p in EntriesAfter(entries, number) <==>
            && IsEntry(p.number) && BaseOf(p.number).Some? && BaseOf(p.number).value >= number
            && exists e :: e in entries && e.number == p.number && e.ts == p.ts
  {
    if entries != [] {
      EntriesAfterHolds(entries[1..], number, p);
      assert entries == [entries[0]] + entries[1..];
    }
  }

  lemma {:induction false} NewestListedHolds(archives: seq<Archive>, numbers: set<int>)
    ensures match NewestListed(archives, numbers)
            case None => forall a :: a in archives && a.catalogued ==> a.number !in numbers
            case Some(number) => number in numbers && exists i :: 0 <= i < |archives| && archives[i].number == number
  {
    if archives != [] && !(archives[0].catalogued && archives[0].number in numbers) {
      NewestListedHolds(archives[1..], numbers);
      if NewestListed(archives[1..], numbers).Some? {
        var i :| 0 <= i < |archives[1..]| && archives[1..][i].number == NewestListed(archives, numbers).value;
        assert archives[i + 1].number == NewestListed(archives, numbers).value;
      }
    }
  }

  /** A backup lands on itself, on a listed backup or on an entry. */
  lemma LandBackupKinds(v: View, number: int)
    requires v.Numbered() && number > 0
    ensures var l := LandBackup(v, number);
            || l == number
            || (v.ListingIsCurrent() && !v.showAll && l in v.listing.value.numbers && v.HasArchive(l) && l > 0)
            || (IsEntry(l) && v.HasEntry(l))
    ensures LandBackup(v, number) == number || (v.ListingIsCurrent() && !v.showAll)
  {
    if !v.showAll && v.ListingIsCurrent() && number !in v.listing.value.numbers {
      var numbers := v.listing.value.numbers;
      var backups, entries := NewerListed(v.archives, numbers, number), EntriesAfter(v.entries, number);
      SoonestIsOne(backups + entries);
      NewestListedHolds(v.archives, numbers);
      if Soonest(backups + entries).Some? {
        var p := Soonest(backups + entries).value;
        if p in backups {
          NewerListedHolds(v.archives, numbers, number, p);
          var i :| 0 <= i < |v.archives| && v.archives[i] == Archive(p.number, p.ts, true);
        } else {
          EntriesAfterHolds(v.entries, number, p);
          var e :| e in v.entries && e.number == p.number;
          var i :| 0 <= i < |v.entries| && v.entries[i] == e;
        }
      }
    }
  }

  lemma {:induction false} OldestHolds(archives: seq<Archive>)
    ensures match OldestCatalogued(archives)
            case None => forall i :: 0 <= i < |archives| ==> !archives[i].catalogued
            case Some(number) =>
              exists i :: 0 <= i < |archives| && archives[i].catalogued && archives[i].number == number
  {
    if archives != [] {
      OldestHolds(archives[1..]);
      if OldestCatalogued(archives[1..]).Some? {
        var i :| 0 <= i < |archives[1..]| && archives[1..][i].catalogued &&
                 archives[1..][i].number == OldestCatalogued(archives[1..]).value;
        assert archives[i + 1].catalogued;
      }
    }
  }

  /** What a request lands on stays where it is. */
  lemma LandingIsSettled(v: View, number: int)
    requires v.Numbered() && number != 0
    ensures Land(v, Land(v, number)) == Land(v, number)
  {
    if !IsEntry(number) {
      LandBackupKinds(v, number);
    } else if !v.HasEntry(number) {
      OldestHolds(v.archives);
      var base := if BaseOf(number).Some? then BaseOf(number) else OldestCatalogued(v.archives);
      if base.Some? {
        LandBackupKinds(v, base.value);
      }
    }
  }

  // ---- Landing loses nothing ----

  /** What a backup, or an entry's backup, holds in the folder viewed. */
  ghost function HeldAt<V>(holds: int -> set<V>, place: int): set<V> {
    if !IsEntry(place) then holds(place)
    else if BaseOf(place).Some? then holds(BaseOf(place).value)
    else {}
  }

  /** Why a backup is left out: the next newer catalogued one holds all it does. */
  ghost predicate LeftOutForNothing<V>(v: View, holds: int -> set<V>)
    requires v.listing.Some?
  {
    forall i :: 0 <= i < |v.archives| && LeftOut(v, i) ==>
      exists j ::
        0 <= j < i && NextNewer(v.archives, j, i) && holds(v.archives[i].number) <= holds(v.archives[j].number)
  }

  ghost predicate LeftOut(v: View, i: nat)
    requires i < |v.archives| && v.listing.Some?
  {
    v.archives[i].catalogued && v.archives[i].number !in v.listing.value.numbers
  }

  ghost predicate NextNewer(archives: seq<Archive>, j: nat, i: nat)
    requires j < i < |archives|
  {
    archives[j].catalogued && forall k :: j < k < i ==> !archives[k].catalogued
  }

  /** From a left-out backup, a run of left-out ones leads up to a listed one,
      and each of them holds all that it holds. */
  lemma {:induction false} RunUp<V>(v: View, holds: int -> set<V>, i: nat) returns (top: nat)
    requires i < |v.archives| && v.listing.Some? && v.archives[i].catalogued && LeftOutForNothing(v, holds)
    ensures top <= i && v.archives[top].catalogued && v.archives[top].number in v.listing.value.numbers
    ensures forall k :: top <= k <= i && v.archives[k].catalogued ==>
              holds(v.archives[i].number) <= holds(v.archives[k].number)
    ensures forall k :: top < k <= i && v.archives[k].catalogued ==> v.archives[k].number !in v.listing.value.numbers
    decreases i
  {
    if v.archives[i].number in v.listing.value.numbers {
      top := i;
    } else {
      assert LeftOut(v, i);
      var j :| 0 <= j < i && NextNewer(v.archives, j, i) && holds(v.archives[i].number) <= holds(v.archives[j].number);
      hide LeftOutForNothing, LeftOut;
      top := RunUp(v, holds, j);
    }
  }

  /** If each left-out backup holds no more in the folder than the next newer
      catalogued one, then where any catalogued backup lands holds everything
      it held. */
  lemma LandingLosesNothing<V>(v: View, holds: int -> set<V>, i: nat)
    requires Ordered(v.archives) && v.entries == EntriesFor(v.folder, v.archives, v.trash)
    requires v.ListingIsCurrent() ==> LeftOutForNothing(v, holds)
    requires i < |v.archives| && v.archives[i].catalogued
    ensures holds(v.archives[i].number) <= HeldAt(holds, Land(v, v.archives[i].number))
  {
    var number := v.archives[i].number;
    if !v.showAll && v.ListingIsCurrent() && number !in v.listing.value.numbers {
      var numbers := v.listing.value.numbers;
      var top := RunUp(v, holds, i);
      var backups, entries := NewerListed(v.archives, numbers, number), EntriesAfter(v.entries, number);
      var goal := Place(v.archives[top].ts, v.archives[top].number);
      assert v.archives[top] == Archive(goal.number, goal.ts, true);
      NewerListedHolds(v.archives, numbers, number, goal);
      SoonestIsOne(backups + entries);
      assert goal in backups + entries;
      var p := Soonest(backups + entries).value;
      assert p.ts <= goal.ts && Land(v, number) == p.number;
      hide Land, Soonest;
      if p in backups {
        NewerListedHolds(v.archives, numbers, number, p);
        hide NewerListed, LeftOutForNothing;
        var k :| 0 <= k < |v.archives| && v.archives[k] == Archive(p.number, p.ts, true);
        assert k == top;
      } else {
        EntryHoldsAll(v, holds, i, top, p);
      }
    }
  }

  lemma EntryHoldsAll<V>(v: View, holds: int -> set<V>, i: nat, top: nat, p: Place)
    requires Ordered(v.archives) && v.entries == EntriesFor(v.folder, v.archives, v.trash)
    requires top <= i < |v.archives| && p in EntriesAfter(v.entries, v.archives[i].number) && p.ts <= v.archives[top].ts
    requires forall k :: top <= k <= i && v.archives[k].catalogued ==>
               holds(v.archives[i].number) <= holds(v.archives[k].number)
    ensures holds(v.archives[i].number) <= HeldAt(holds, p.number)
  {
    EntriesAfterHolds(v.entries, v.archives[i].number, p);
    var e :| e in v.entries && e.number == p.number && e.ts == p.ts;
    EntryHasBase(v.folder, v.archives, v.trash, e);
    hide EntriesFor, EntriesAfter;
    var a :| a in v.archives && a.catalogued && a.number == BaseOf(e.number).value && a.ts <= e.ts;
    var k :| 0 <= k < |v.archives| && v.archives[k] == a;
    assert top <= k <= i;
  }

  // ---- What each operation takes ----

  /** What a view is a view of. */
  predicate Of(w: View, archives: seq<Archive>, trash: seq<Trashed>, folder: string, generation: nat, showAll: bool,
               listing: Option<Listing>) {
    && w.archives == archives && w.trash == trash && w.folder == folder && w.generation == generation
    && w.showAll == showAll && w.listing == listing
  }

  /** A place asked for is viewed where it lands. */
  ghost predicate Views(w: View, asked: Option<int>) {
    w.viewed == if asked.Some? then Some(Land(w, asked.value)) else None
  }

  lemma SettleTakes(v: View)
    ensures Of(Settle(v), v.archives, v.trash, v.folder, v.generation, v.showAll, v.listing)
    ensures Settle(v).entries == EntriesFor(v.folder, v.archives, v.trash) && Views(Settle(v), v.viewed)
  {
    var v1 := v.(entries := EntriesFor(v.folder, v.archives, v.trash));
    if v1.viewed.Some? {
      LandAlike(v1, Settle(v), v1.viewed.value);
    }
  }

  /** Where a request lands does not depend on what is viewed or listed. */
  lemma LandAlike(v: View, w: View, number: int)
    requires Of(w, v.archives, v.trash, v.folder, v.generation, v.showAll, v.listing) && w.entries == v.entries
    ensures Land(w, number) == Land(v, number)
  {
  }

  lemma {:induction false} NewestIs(archives: seq<Archive>)
    ensures match NewestCatalogued(archives)
            case None => forall i :: 0 <= i < |archives| ==> !archives[i].catalogued
            case Some(number) =>
              exists i :: 0 <= i < |archives| && archives[i].catalogued && archives[i].number == number &&
                          forall j :: 0 <= j < i ==> !archives[j].catalogued
  {
    if archives != [] && !archives[0].catalogued {
      NewestIs(archives[1..]);
      if NewestCatalogued(archives[1..]).Some? {
        var rest := archives[1..];
        var i :| 0 <= i < |rest| && rest[i].catalogued && rest[i].number == NewestCatalogued(rest).value &&
                 forall j :: 0 <= j < i ==> !rest[j].catalogued;
        assert archives[i + 1] == rest[i] && forall j :: 1 <= j <= i ==> archives[j] == rest[j - 1];
      }
    }
  }

  /** A load takes the archives it is given and the listing of them, and goes on
      viewing what it did while that is among them; and otherwise the first
      catalogued one, if there is any. */
  lemma LoadTakes(s: State, archives: seq<Archive>, listed: Option<(string, set<int>)>)
    ensures var v, after := s.view, Apply(s, Load(archives, listed));
            var there := v.viewed.Some? && exists i :: 0 <= i < |archives| && archives[i].number == v.viewed.value;
            && Of(after.view, archives, v.trash, v.folder, v.generation + 1, v.showAll,
                  if listed.None? then None else Some(Listing(listed.value.0, v.generation + 1, listed.value.1)))
            && after.listings == (if listed.None? then map[] else map[listed.value.0 := listed.value.1])
            && (there ==> Views(after.view, v.viewed))
            && (!there && (forall i :: 0 <= i < |archives| ==> !archives[i].catalogued) ==> Views(after.view, None))
            && (forall i :: !there && 0 <= i < |archives| && archives[i].catalogued &&
                            (forall j :: 0 <= j < i ==> !archives[j].catalogued) ==>
                  Views(after.view, Some(archives[i].number)))
  {
    var v := s.view;
    var there := v.viewed.Some? && exists i :: 0 <= i < |archives| && archives[i].number == v.viewed.value;
    var v1 := v.(generation := v.generation + 1, archives := archives,
      viewed := if there then v.viewed else NewestCatalogued(archives),
      listing := if listed.None? then None else Some(Listing(listed.value.0, v.generation + 1, listed.value.1)));
    SettleTakes(v1);
    NewestIs(archives);
    hide Land, NewestCatalogued;
    assert Apply(s, Load(archives, listed)).view == Settle(v1);
    hide Settle;
    forall i | !there && 0 <= i < |archives| && archives[i].catalogued &&
               forall j :: 0 <= j < i ==> !archives[j].catalogued
      ensures Views(Settle(v1), Some(archives[i].number))
    {
      OnlyNewest(archives, i);
    }
  }

  lemma {:induction false} OnlyNewest(archives: seq<Archive>, i: nat)
    requires i < |archives| && archives[i].catalogued && forall j :: 0 <= j < i ==> !archives[j].catalogued
    ensures NewestCatalogued(archives) == Some(archives[i].number)
  {
    if i > 0 {
      OnlyNewest(archives[1..], i - 1);
    }
  }

  /** Every other operation takes what it is given and leaves the rest; an answer
      only if it is of the folder viewed and the load it was asked of. */
  lemma OtherTakes(s: State, op: Op, truth: Truth)
    requires !op.Load? && Inv(s, truth)
    ensures var v, w := s.view, Apply(s, op).view;
            match op
            case Load(_, _) => true
            case SetListing(folder, generation, numbers) =>
              var current := folder == v.folder && generation == v.generation;
              && Of(w, v.archives, v.trash, v.folder, v.generation, v.showAll,
                    if current then Some(Listing(folder, generation, numbers)) else v.listing)
              && Views(w, v.viewed)
            case SetShowAll(on) =>
              Of(w, v.archives, v.trash, v.folder, v.generation, on, v.listing) && Views(w, v.viewed)
            case SetTrash(items) =>
              Of(w, v.archives, items, v.folder, v.generation, v.showAll, v.listing) && Views(w, v.viewed)
            case SetSeq(number) =>
              Of(w, v.archives, v.trash, v.folder, v.generation, v.showAll, v.listing) && Views(w, Some(number))
            case SetFolder(folder) =>
              && Of(w, v.archives, v.trash, folder, v.generation, v.showAll,
                    if folder != v.folder && folder in s.listings
                    then Some(Listing(folder, v.generation, s.listings[folder])) else v.listing)
              && Views(w, v.viewed)
  {
    hide Settle, EntriesFor, Land;
    var v := s.view;
    InvSettled(s, truth);
    SettleTakes(v);
    match op {
      case Load(_, _) =>
      case SetListing(folder, generation, numbers) =>
        SettleTakes(v.(listing := Some(Listing(v.folder, v.generation, numbers))));
      case SetShowAll(on) =>
        SettleTakes(v.(showAll := on));
      case SetTrash(items) =>
        SettleTakes(v.(trash := items));
      case SetSeq(number) =>
        LandAlike(v, Apply(s, op).view, number);
      case SetFolder(folder) =>
        var v1 := v.(folder := folder);
        SettleTakes(v1);
        if folder in s.listings {
          SettleTakes(v1.(listing := Some(Listing(folder, v.generation, s.listings[folder]))));
        }
    }
  }

  lemma InvSettled(s: State, truth: Truth)
    requires Inv(s, truth)
    ensures Settle(s.view) == s.view
  {
  }

  // ---- Over every run ----

  function Run(s: State, ops: seq<Op>): State {
    if ops == [] then s else Apply(Run(s, ops[..|ops| - 1]), ops[|ops| - 1])
  }

  /** What the catalogue answers, of each load of it and each folder. */
  type Truth = (nat, string) -> set<int>

  /** An operation as the window makes it: archives are newest first, answers
      are the catalogue's own of whichever load they were asked of, and a
      number asked for is a backup's or an entry's. */
  ghost predicate Honest(s: State, op: Op, truth: Truth) {
    match op
    case Load(archives, listed) =>
      Ordered(archives) && (listed.Some? ==> listed.value.1 == truth(s.view.generation + 1, listed.value.0))
    case SetListing(folder, generation, numbers) => numbers == truth(generation, folder)
    case SetSeq(number) => number != 0
    case _ => true
  }

  ghost predicate HonestRun(s: State, ops: seq<Op>, truth: Truth) {
    ops == [] || (HonestRun(s, ops[..|ops| - 1], truth) && Honest(Run(s, ops[..|ops| - 1]), ops[|ops| - 1], truth))
  }

  /** What every operation keeps. */
  ghost predicate Inv(s: State, truth: Truth) {
    var v := s.view;
    && Ordered(v.archives)
    && v.entries == EntriesFor(v.folder, v.archives, v.trash)
    && v.listed == Relist(v).listed
    && (v.viewed.Some? ==> v.viewed.value != 0 && Land(v, v.viewed.value) == v.viewed.value)
    && (v.listing.Some? ==> v.listing.value.numbers == truth(v.listing.value.generation, v.listing.value.folder))
    && (forall folder :: folder in s.listings ==> s.listings[folder] == truth(v.generation, folder))
  }

  lemma NewestIsNumbered(archives: seq<Archive>)
    requires Ordered(archives)
    ensures NewestCatalogued(archives).Some? ==> NewestCatalogued(archives).value > 0
  {
    if archives != [] {
      assert archives[0].number > 0;
      if !archives[0].catalogued {
        NewestIsNumbered(archives[1..]);
      }
    }
  }

  lemma LandIsNumber(v: View, number: int)
    requires v.Numbered() && number != 0
    ensures Land(v, number) != 0
  {
    if !IsEntry(number) {
      LandBackupKinds(v, number);
    } else if !v.HasEntry(number) {
      OldestHolds(v.archives);
      var base := if BaseOf(number).Some? then BaseOf(number) else OldestCatalogued(v.archives);
      if base.Some? {
        LandBackupKinds(v, base.value);
      }
    }
  }

  /** The list does not bear on where anything lands. */
  lemma RelistLands(v: View, number: int)
    ensures Land(Relist(v), number) == Land(v, number)
    ensures Relist(Relist(v)) == Relist(v)
  {
    KeptAlike(v.archives, v, Relist(v));
  }

  lemma {:induction false} KeptAlike(archives: seq<Archive>, v: View, w: View)
    requires v.showAll == w.showAll && v.listing == w.listing && v.viewed == w.viewed
    ensures Kept(archives, v) == Kept(archives, w)
  {
    if archives != [] {
      KeptAlike(archives[1..], v, w);
    }
  }

  lemma ViewedLands(v: View, number: int)
    requires v.Numbered() && number != 0
    ensures var w := v.(viewed := Some(Land(v, number)));
            w.viewed.value != 0 && Land(w, w.viewed.value) == w.viewed.value
  {
    LandingIsSettled(v, number);
    LandIsNumber(v, number);
  }

  lemma SettleSettles(s: State, v: View, truth: Truth)
    requires Ordered(v.archives) && (v.viewed.Some? ==> v.viewed.value != 0)
    requires v.listing.Some? ==> v.listing.value.numbers == truth(v.listing.value.generation, v.listing.value.folder)
    requires forall folder :: folder in s.listings ==> s.listings[folder] == truth(v.generation, folder)
    requires s.view == Settle(v)
    ensures Inv(s, truth)
  {
    var v1 := v.(entries := EntriesFor(v.folder, v.archives, v.trash));
    if v1.viewed.Some? {
      ViewedLands(v1, v1.viewed.value);
      var v2 := v1.(viewed := Some(Land(v1, v1.viewed.value)));
      RelistLands(v2, v2.viewed.value);
    } else {
      RelistLands(v1, 0);
    }
  }

  lemma ApplyKeeps(s: State, op: Op, truth: Truth)
    requires Inv(s, truth) && Honest(s, op, truth)
    ensures Inv(Apply(s, op), truth)
  {
    hide Settle, EntriesFor;
    var v, after := s.view, Apply(s, op);
    match op {
      case Load(archives, listed) =>
        NewestIsNumbered(archives);
        var v1 := v.(generation := v.generation + 1, archives := archives,
          viewed := if v.viewed.Some? && exists i :: 0 <= i < |archives| && archives[i].number == v.viewed.value
                    then v.viewed else NewestCatalogued(archives),
          listing := match listed
            case None => None
            case Some((folder, numbers)) => Some(Listing(folder, v.generation + 1, numbers)));
        SettleSettles(after, v1, truth);
      case SetListing(folder, generation, numbers) =>
        if v.folder == folder && v.generation == generation {
          SettleSettles(after, v.(listing := Some(Listing(v.folder, v.generation, numbers))), truth);
        }
      case SetShowAll(on) =>
        if v.showAll != on {
          SettleSettles(after, v.(showAll := on), truth);
        }
      case SetTrash(items) =>
        if v.trash != items {
          SettleSettles(after, v.(trash := items), truth);
        }
      case SetSeq(number) =>
        ViewedLands(v, number);
        RelistLands(v.(viewed := Some(Land(v, number))), Land(v, number));
      case SetFolder(folder) =>
        if v.folder != folder {
          var v1 := v.(folder := folder);
          if folder in s.listings {
            SettleSettles(after, v1.(listing := Some(Listing(folder, v.generation, s.listings[folder]))), truth);
          } else {
            SettleSettles(after, v1, truth);
          }
        }
    }
  }

  lemma {:induction false} RunKeeps(folder: string, ops: seq<Op>, truth: Truth)
    requires HonestRun(Opened(folder), ops, truth)
    ensures Inv(Run(Opened(folder), ops), truth)
  {
    if ops != [] {
      RunKeeps(folder, ops[..|ops| - 1], truth);
      ApplyKeeps(Run(Opened(folder), ops[..|ops| - 1]), ops[|ops| - 1], truth);
    }
  }

  /** Over every run, however late its answers: the viewed number is where it
      would land, the list is newest first, and a listing taken for current is
      the catalogue's answer for this folder at this load, as is every listing
      kept for another folder. */
  lemma EveryRunIsSettled(folder: string, ops: seq<Op>, truth: Truth)
    requires HonestRun(Opened(folder), ops, truth)
    ensures var s := Run(Opened(folder), ops);
            && (s.view.viewed.Some? ==> Land(s.view, s.view.viewed.value) == s.view.viewed.value)
            && NewestFirst(s.view.listed)
            && (s.view.ListingIsCurrent() ==> s.view.listing.value.numbers == truth(s.view.generation, s.view.folder))
            && (forall other :: other in s.listings ==> s.listings[other] == truth(s.view.generation, other))
  {
    RunKeeps(folder, ops, truth);
    var v := Run(Opened(folder), ops).view;
    SortsNewest(Kept(v.archives, v) + v.entries);
  }

  lemma {:induction false} KeptHolds(archives: seq<Archive>, v: View, a: Archive)
    ensures a in Kept(archives, v) <==>
            a in archives && (v.showAll || v.listing.None? || !a.catalogued || a.number in v.listing.value.numbers ||
                              Some(a.number) == v.viewed)
  {
    if archives != [] {
      KeptHolds(archives[1..], v, a);
      assert archives == [archives[0]] + archives[1..];
    }
  }

  /** Exactly what is listed, after every run. */
  lemma ListedExactly(folder: string, ops: seq<Op>, truth: Truth, a: Archive)
    requires HonestRun(Opened(folder), ops, truth)
    ensures var v := Run(Opened(folder), ops).view;
            a in v.listed <==>
            || a in v.entries
            || (a in v.archives &&
                (v.showAll || v.listing.None? || !a.catalogued || a.number in v.listing.value.numbers ||
                 Some(a.number) == v.viewed))
  {
    RunKeeps(folder, ops, truth);
    var v := Run(Opened(folder), ops).view;
    SortsNewest(Kept(v.archives, v) + v.entries);
    KeptHolds(v.archives, v, a);
  }

  // ---- What is viewed is known, and listed ----

  /** A number the window can be asked to view: a backup's, or an entry's. */
  ghost predicate Known(v: View, number: int) {
    v.HasArchive(number) || v.HasEntry(number)
  }

  ghost predicate AsksKnown(s: State, op: Op) {
    op.SetSeq? ==> Known(s.view, op.number)
  }

  ghost predicate KnownRun(s: State, ops: seq<Op>) {
    ops == [] || (KnownRun(s, ops[..|ops| - 1]) && AsksKnown(Run(s, ops[..|ops| - 1]), ops[|ops| - 1]))
  }

  /** The number viewed is known or, with nothing catalogued, one that stood
      before the first backup. */
  ghost predicate Placed(v: View) {
    v.viewed.Some? ==> Known(v, v.viewed.value) || (v.viewed.value == -1 && OldestCatalogued(v.archives).None?)
  }

  ghost predicate Holds(archives: seq<Archive>, number: int) {
    exists i :: 0 <= i < |archives| && archives[i].number == number
  }

  /** A backup's number, or that of an entry with no backup before its gap, or
      one that is there. */
  ghost predicate Grounded(archives: seq<Archive>, number: int) {
    || Holds(archives, number)
    || (IsEntry(number) && (BaseOf(number).Some? ==> Holds(archives, BaseOf(number).value)))
  }

  lemma LandsKnown(v: View, number: int)
    requires v.Numbered() && Grounded(v.archives, number)
    ensures Known(v, Land(v, number)) || (Land(v, number) == -1 && OldestCatalogued(v.archives).None?)
  {
    if !IsEntry(number) {
      LandBackupKinds(v, number);
    } else if !v.HasEntry(number) {
      OldestHolds(v.archives);
      var base := if BaseOf(number).Some? then BaseOf(number) else OldestCatalogued(v.archives);
      if base.Some? {
        LandBackupKinds(v, base.value);
      }
    }
  }

  lemma KnownIsGrounded(v: View, number: int)
    requires Ordered(v.archives) && v.entries == EntriesFor(v.folder, v.archives, v.trash) && Known(v, number)
    ensures Grounded(v.archives, number)
  {
    if !v.HasArchive(number) {
      var i :| 0 <= i < |v.entries| && v.entries[i].number == number;
      EntryHasBase(v.folder, v.archives, v.trash, v.entries[i]);
      if BaseOf(number).Some? {
        var a :| a in v.archives && a.number == BaseOf(number).value;
        var k :| 0 <= k < |v.archives| && v.archives[k] == a;
      }
    }
  }

  lemma SettlePlaces(v: View)
    requires Ordered(v.archives) && (v.viewed.Some? ==> Grounded(v.archives, v.viewed.value))
    ensures Placed(Settle(v))
  {
    var v1 := v.(entries := EntriesFor(v.folder, v.archives, v.trash));
    if v1.viewed.Some? {
      LandsKnown(v1, v1.viewed.value);
    }
  }

  lemma {:induction false} NewestIsThere(archives: seq<Archive>)
    ensures NewestCatalogued(archives).Some? ==>
              exists i :: 0 <= i < |archives| && archives[i].number == NewestCatalogued(archives).value
  {
    if archives != [] && !archives[0].catalogued {
      NewestIsThere(archives[1..]);
      if NewestCatalogued(archives[1..]).Some? {
        var i :| 0 <= i < |archives[1..]| && archives[1..][i].number == NewestCatalogued(archives[1..]).value;
        assert archives[i + 1].number == NewestCatalogued(archives).value;
      }
    }
  }

  lemma LoadPlaces(s: State, archives: seq<Archive>, listed: Option<(string, set<int>)>)
    requires Ordered(archives)
    ensures Placed(Apply(s, Load(archives, listed)).view)
  {
    hide Settle, Placed, EntriesFor, NewestCatalogued;
    var v := s.view;
    NewestIsThere(archives);
    var there := v.viewed.Some? && exists i :: 0 <= i < |archives| && archives[i].number == v.viewed.value;
    var v1 := v.(generation := v.generation + 1, archives := archives,
      viewed := if there then v.viewed else NewestCatalogued(archives),
      listing := match listed
        case None => None
        case Some((folder, numbers)) => Some(Listing(folder, v.generation + 1, numbers)));
    SettlePlaces(v1);
  }

  lemma ApplyPlaces(s: State, op: Op, truth: Truth)
    requires Inv(s, truth) && Placed(s.view) && Honest(s, op, truth) && AsksKnown(s, op)
    ensures Placed(Apply(s, op).view)
  {
    hide Settle, Land, Relist, EntriesFor;
    var v := s.view;
    if v.viewed.Some? && Known(v, v.viewed.value) {
      KnownIsGrounded(v, v.viewed.value);
    }
    match op {
      case Load(archives, listed) => LoadPlaces(s, archives, listed);
      case SetListing(folder, generation, numbers) =>
        SettlePlaces(v.(listing := Some(Listing(v.folder, v.generation, numbers))));
      case SetShowAll(on) => SettlePlaces(v.(showAll := on));
      case SetTrash(items) => SettlePlaces(v.(trash := items));
      case SetSeq(number) => SeqPlaces(v, number);
      case SetFolder(folder) =>
        var v1 := v.(folder := folder);
        SettlePlaces(v1);
        if folder in s.listings {
          SettlePlaces(v1.(listing := Some(Listing(folder, v.generation, s.listings[folder]))));
        }
    }
  }

  lemma SeqPlaces(v: View, number: int)
    requires Ordered(v.archives) && v.entries == EntriesFor(v.folder, v.archives, v.trash) && Known(v, number)
    ensures Placed(Relist(v.(viewed := Some(Land(v, number)))))
  {
    KnownIsGrounded(v, number);
    LandsKnown(v, number);
  }

  lemma {:induction false} RunPlaces(folder: string, ops: seq<Op>, truth: Truth)
    requires HonestRun(Opened(folder), ops, truth) && KnownRun(Opened(folder), ops)
    ensures Placed(Run(Opened(folder), ops).view)
  {
    if ops != [] {
      RunPlaces(folder, ops[..|ops| - 1], truth);
      RunKeeps(folder, ops[..|ops| - 1], truth);
      ApplyPlaces(Run(Opened(folder), ops[..|ops| - 1]), ops[|ops| - 1], truth);
    }
  }

  /** Over every run that asks only for what is there, once there is a
      catalogued backup, whatever is viewed is a backup or an entry, and it is
      among those listed. */
  lemma ViewedIsListed(folder: string, ops: seq<Op>, truth: Truth)
    requires HonestRun(Opened(folder), ops, truth) && KnownRun(Opened(folder), ops)
    ensures var v := Run(Opened(folder), ops).view;
            v.viewed.Some? && OldestCatalogued(v.archives).Some? ==>
            exists a :: a in v.listed && a.number == v.viewed.value
  {
    RunPlaces(folder, ops, truth);
    var v := Run(Opened(folder), ops).view;
    if v.viewed.Some? && OldestCatalogued(v.archives).Some? {
      if v.HasArchive(v.viewed.value) {
        var i :| 0 <= i < |v.archives| && v.archives[i].number == v.viewed.value;
        ListedExactly(folder, ops, truth, v.archives[i]);
      } else {
        var i :| 0 <= i < |v.entries| && v.entries[i].number == v.viewed.value;
        ListedExactly(folder, ops, truth, v.entries[i]);
      }
    }
  }

  // ---- Stepping ----

  function Position(listed: seq<Archive>, number: int): Option<nat> {
    if listed == [] then None
    else if listed[0].number == number then Some(0)
    else match Position(listed[1..], number)
      case None => None
      case Some(i) => Some(i + 1)
  }

  /** The place `places` steps older among those listed. */
  function Step(v: View, places: int): Option<int> {
    if v.viewed.None? then None
    else match Position(v.listed, v.viewed.value)
      case None => None
      case Some(i) => if 0 <= i + places < |v.listed| then Some(v.listed[i + places].number) else None
  }

  lemma {:induction false} PositionHolds(listed: seq<Archive>, number: int)
    ensures Position(listed, number).None? <==> forall i :: 0 <= i < |listed| ==> listed[i].number != number
    ensures Position(listed, number).Some? ==> Position(listed, number).value < |listed|
    ensures Position(listed, number).Some? ==> listed[Position(listed, number).value].number == number
    ensures Position(listed, number).Some? ==>
              forall i :: 0 <= i < Position(listed, number).value ==> listed[i].number != number
  {
    if listed != [] && listed[0].number != number {
      PositionHolds(listed[1..], number);
      forall i | 0 <= i < |listed| && Position(listed[1..], number).None?
        ensures listed[i].number != number
      {
        assert i > 0 ==> listed[i] == listed[1..][i - 1];
      }
    }
  }

  /** A step is to the place so many further on in the list, the newest included;
      past either end there is none. */
  lemma StepIs(v: View, places: int, target: int)
    ensures Step(v, places) == Some(target) <==>
            exists i, j :: 0 <= i < |v.listed| && 0 <= j < |v.listed| && j - i == places &&
                           v.viewed == Some(v.listed[i].number) && v.listed[j].number == target &&
                           forall k :: 0 <= k < i ==> v.listed[k].number != v.listed[i].number
  {
    if v.viewed.Some? {
      PositionHolds(v.listed, v.viewed.value);
      hide Position;
      var at := Position(v.listed, v.viewed.value);
      if Step(v, places) == Some(target) {
        assert v.viewed == Some(v.listed[at.value].number) && v.listed[at.value + places].number == target;
      }
    }
  }

  /** Asking for the place one step older, or newer, moves there if and only if
      that place is not a backup the folder's own list lacks: one still being
      catalogued is listed, but stepping to it lands elsewhere, unless nothing
      at all is catalogued and listed. */
  lemma StepMovesIff(s: State, truth: Truth, places: int, target: int)
    requires Inv(s, truth) && Step(s.view, places) == Some(target)
    requires target != s.view.viewed.value
    ensures var v := s.view;
            Apply(s, SetSeq(target)).view.viewed == Some(target) <==>
            || v.showAll || !v.ListingIsCurrent() || target in v.listing.value.numbers || v.HasEntry(target)
            || (EntriesAfter(v.entries, target) == [] && NewestListed(v.archives, v.listing.value.numbers) == None)
  {
    var v := s.view;
    PositionHolds(v.listed, v.viewed.value);
    var a := v.listed[Position(v.listed, v.viewed.value).value + places];
    assert a in v.listed;
    hide LandBackup, Kept, NewestListed, EntriesAfter, EntriesFor, SortNewest, NewestFirst;
    ListedFrom(v, a);
    if a in v.entries {
      EntryStays(v, a);
    } else {
      BackupStaysIff(v, a);
    }
  }

  /** What is listed is an entry, or a backup the folder keeps. */
  lemma ListedFrom(v: View, a: Archive)
    requires v.listed == SortNewest(Kept(v.archives, v) + v.entries) && a in v.listed
    ensures a in v.entries || a in v.archives
  {
    SortsNewest(Kept(v.archives, v) + v.entries);
    KeptHolds(v.archives, v, a);
  }

  lemma EntryStays(v: View, a: Archive)
    requires Ordered(v.archives) && v.entries == EntriesFor(v.folder, v.archives, v.trash) && a in v.entries
    ensures v.HasEntry(a.number) && Land(v, a.number) == a.number
  {
    EntryHasBase(v.folder, v.archives, v.trash, a);
    var i :| 0 <= i < |v.entries| && v.entries[i] == a;
  }

  lemma BackupStaysIff(v: View, a: Archive)
    requires Ordered(v.archives) && v.entries == EntriesFor(v.folder, v.archives, v.trash) && a in v.archives
    ensures Land(v, a.number) == a.number <==>
            || v.showAll || !v.ListingIsCurrent() || a.number in v.listing.value.numbers || v.HasEntry(a.number)
            || (EntriesAfter(v.entries, a.number) == [] && NewestListed(v.archives, v.listing.value.numbers) == None)
  {
    var i :| 0 <= i < |v.archives| && v.archives[i] == a;
    NoEntryNumber(v, a.number);
    if !v.showAll && v.ListingIsCurrent() && a.number !in v.listing.value.numbers {
      LeftOutLands(v, i);
    } else {
      hide NewestListed, EntriesAfter;
    }
  }

  /** A left-out backup lands on itself only if there is nowhere to go. */
  lemma LeftOutLands(v: View, i: nat)
    requires Ordered(v.archives) && v.entries == EntriesFor(v.folder, v.archives, v.trash) && i < |v.archives|
    requires !v.showAll && v.ListingIsCurrent() && v.archives[i].number !in v.listing.value.numbers
    ensures var number := v.archives[i].number;
            Land(v, number) == number <==>
            EntriesAfter(v.entries, number) == [] && NewestListed(v.archives, v.listing.value.numbers) == None
  {
    var number, numbers := v.archives[i].number, v.listing.value.numbers;
    NoEntryNumber(v, number);
    var backups, entries := NewerListed(v.archives, numbers, number), EntriesAfter(v.entries, number);
    SoonestIsOne(backups + entries);
    NewestListedHolds(v.archives, numbers);
    if Soonest(backups + entries).Some? {
      var p := Soonest(backups + entries).value;
      NewerListedHolds(v.archives, numbers, number, p);
      EntriesAfterHolds(v.entries, number, p);
      EntriesNegative(v, p);
    }
  }

  lemma EntriesNegative(v: View, p: Place)
    requires Ordered(v.archives) && v.entries == EntriesFor(v.folder, v.archives, v.trash)
    ensures (exists e :: e in v.entries && e.number == p.number) ==> IsEntry(p.number)
  {
    if e :| e in v.entries && e.number == p.number {
      EntryHasBase(v.folder, v.archives, v.trash, e);
    }
  }

  lemma NoEntryNumber(v: View, number: int)
    requires Ordered(v.archives) && v.entries == EntriesFor(v.folder, v.archives, v.trash) && number > 0
    ensures !v.HasEntry(number)
  {
    if i :| 0 <= i < |v.entries| && v.entries[i].number == number {
      EntryHasBase(v.folder, v.archives, v.trash, v.entries[i]);
    }
  }

  const THREE: seq<Archive> := [Archive(3, 30, true), Archive(2, 20, false), Archive(1, 10, true)]

  function ThreeListed(listed: seq<Archive>): View {
    View(THREE, listed, Some(Listing("f", 1, {3, 1})), 1, false, [], [], Some(3), "f")
  }

  lemma ThreeKept()
    ensures Relist(ThreeListed([])) == ThreeListed(THREE)
  {
    var v := ThreeListed([]);
    var a3, a2, a1 := THREE[0], THREE[1], THREE[2];
    assert THREE == [a3, a2, a1] && THREE[1..] == [a2, a1] && [a2, a1][1..] == [a1] && [a1][1..] == [];
    assert Kept([a1], v) == [a1];
    assert Kept([a2, a1], v) == [a2, a1];
    assert Kept(THREE, v) == THREE;
    assert THREE + [] == THREE;
    assert SortNewest([a1]) == [a1];
    assert SortNewest([a2, a1]) == [a2, a1];
    assert SortNewest(THREE) == THREE;
  }

  lemma ThreeLand()
    ensures Land(ThreeListed(THREE), 2) == 3 && Land(ThreeListed([]), 3) == 3
    ensures Step(ThreeListed(THREE), 1) == Some(2)
  {
    var a3, a2, a1 := THREE[0], THREE[1], THREE[2];
    assert THREE == [a3, a2, a1] && THREE[1..] == [a2, a1] && [a2, a1][1..] == [a1] && [a1][1..] == [];
    assert NewerListed([a1], {3, 1}, 2) == [];
    assert NewerListed([a2, a1], {3, 1}, 2) == [];
    assert NewerListed(THREE, {3, 1}, 2) == [Place(30, 3)];
    assert [Place(30, 3)] + EntriesAfter([], 2) == [Place(30, 3)];
    assert Soonest([Place(30, 3)]) == Some(Place(30, 3));
    assert Position(THREE, 3) == Some(0);
  }

  /** Three backups, the middle one not read yet, all in the list: a step back
      from the newest asks for the middle one and goes nowhere. */
  lemma StepCanStick()
    ensures var s := Apply(Opened("f"), Load(THREE, Some(("f", {3, 1}))));
            s.view.viewed == Some(3) && Step(s.view, 1) == Some(2) && Apply(s, SetSeq(2)) == s
  {
    ThreeKept();
    ThreeLand();
    assert EntriesFor("f", THREE, []) == [];
    hide Relist;
    hide Land;
    hide Step;
    hide EntriesFor;
    assert NewestCatalogued(THREE) == Some(3);
    assert Settle(ThreeListed([])) == ThreeListed(THREE);
  }
}
