/** Keeping the local spool inside its size limit
    (crates/backtrackd/src/offline.rs and pipeline.rs). */
module Cap {
  import opened Text

  datatype LocalArchive = LocalArchive(place: int, name: string)

  datatype CapPlan = CapPlan(evict: seq<LocalArchive>, proceed: bool, degraded: bool)

  function SaturatingAdd(a: nat, b: nat): nat {
    if a + b <= U64_MAX then a + b else U64_MAX
  }

  function SaturatingSub(a: nat, b: nat): nat {
    if b <= a then a - b else 0
  }

  /** An even share of what is held. */
  function Share(held: nat, count: nat): nat {
    if count == 0 then 0 else held / count
  }

  /** What is taken to be held once `k` of the archives have gone. */
  function Remaining(held: nat, count: nat, k: nat): nat {
    SaturatingSub(held, k * Share(held, count))
  }

  predicate Fits(cap: nat, held: nat, count: nat, incoming: nat, k: nat) {
    SaturatingAdd(Remaining(held, count, k), incoming) <= cap
  }

  /** Room is made once what is held, less an even share for each evicted, and
      what is coming are no more than the limit; the largest limit is never
      passed. */
  lemma FitsExactly(cap: nat, held: nat, count: nat, incoming: nat, k: nat)
    requires cap <= U64_MAX && held <= U64_MAX && k <= count
    ensures count == 0 ==> (Fits(cap, held, count, incoming, k) <==> cap == U64_MAX || held + incoming <= cap)
    ensures count > 0 ==> (Fits(cap, held, count, incoming, k) <==>
                             cap == U64_MAX || held - k * (held / count) + incoming <= cap)
  {
    SharesWithin(held, count, k);
  }

  /** The fewest of `count` archives to evict for what is coming to fit. */
  ghost predicate Fewest(cap: nat, held: nat, count: nat, incoming: nat, k: nat) {
    k <= count && Fits(cap, held, count, incoming, k) && forall j: nat :: j < k ==> !Fits(cap, held, count, incoming, j)
  }

  /** What the limit allows: evict the shortest run of the oldest that makes
      room; or, if evicting all of them would not, evict none, and take the new
      archive only if there is nothing to keep. */
  ghost predicate Planned(cap: nat, held: nat, incoming: nat, existing: seq<LocalArchive>, plan: CapPlan) {
    if cap == 0 then plan == CapPlan([], true, false)
    else if Fits(cap, held, |existing|, incoming, |existing|) then
      plan.proceed && !plan.degraded && plan.evict <= existing && Fewest(cap, held, |existing|, incoming, |plan.evict|)
    else plan == CapPlan([], existing == [], true)
  }

  lemma RemainingShrinks(held: nat, count: nat, j: nat, k: nat)
    requires j <= k
    ensures Remaining(held, count, k) <= Remaining(held, count, j)
  {
    assert (k - j) * Share(held, count) >= 0;
    assert k * Share(held, count) == j * Share(held, count) + (k - j) * Share(held, count);
  }

  lemma NextRemaining(held: nat, count: nat, k: nat)
    ensures Remaining(held, count, k + 1) == SaturatingSub(Remaining(held, count, k), Share(held, count))
  {
    assert (k + 1) * Share(held, count) == k * Share(held, count) + Share(held, count);
  }

  method PlanCap(cap: nat, held: nat, incoming: nat, existing: seq<LocalArchive>) returns (plan: CapPlan)
    requires cap <= U64_MAX && held <= U64_MAX && incoming <= U64_MAX
    ensures Planned(cap, held, incoming, existing, plan)
  {
    if cap == 0 {
      return CapPlan([], true, false);
    }
    var share := if |existing| == 0 then 0 else held / |existing|;
    var evict: seq<LocalArchive> := [];
    var remaining, i := held, 0;
    while i < |existing| && SaturatingAdd(remaining, incoming) > cap
      invariant 0 <= i <= |existing| && evict == existing[..i]
      invariant remaining == Remaining(held, |existing|, i)
      invariant forall j: nat :: j < i ==> !Fits(cap, held, |existing|, incoming, j)
    {
      NextRemaining(held, |existing|, i);
      evict := evict + [existing[i]];
      remaining := SaturatingSub(remaining, share);
      i := i + 1;
    }
    if SaturatingAdd(remaining, incoming) <= cap {
      RemainingShrinks(held, |existing|, i, |existing|);
      return CapPlan(evict, true, false);
    }
    return CapPlan([], existing == [], true);
  }

  /** A bigger archive never needs fewer to go, and what makes room for it makes
      room for a smaller one. */
  lemma MoreIncomingEvictsMore(cap: nat, held: nat, small: nat, big: nat, existing: seq<LocalArchive>, a: CapPlan,
                               b: CapPlan)
    requires small <= big && Planned(cap, held, small, existing, a) && Planned(cap, held, big, existing, b)
    ensures b.degraded || (!a.degraded && a.evict <= b.evict)
  {
    if cap != 0 && Fits(cap, held, |existing|, big, |existing|) {
      assert Fits(cap, held, |existing|, small, |b.evict|);
      assert |a.evict| <= |b.evict|;
      assert a.evict == existing[..|a.evict|] && b.evict == existing[..|b.evict|];
    }
  }

  // ---- Over whole runs ----

  datatype Spool = Spool(held: nat, archives: seq<LocalArchive>)

  /** One offline run: what was projected, what the plan's evictions freed, what
      the archive cost, and the archive. */
  datatype Tick = Tick(incoming: nat, plan: CapPlan, freed: nat, cost: nat, archive: LocalArchive)

  /** The plan is the planner's, each eviction freed at least its share, and the
      archive cost no more than was projected. */
  ghost predicate Fair(cap: nat, s: Spool, t: Tick) {
    && Planned(cap, s.held, t.incoming, s.archives, t.plan)
    && t.freed <= s.held
    && (t.plan.evict == [] ==> t.freed == 0)
    && s.held - t.freed <= Remaining(s.held, |s.archives|, |t.plan.evict|)
    && t.cost <= t.incoming
  }

  function Next(s: Spool, t: Tick): Spool
    requires t.freed <= s.held && t.plan.evict <= s.archives
  {
    if t.plan.proceed then Spool(s.held - t.freed + t.cost, s.archives[|t.plan.evict|..] + [t.archive])
    else Spool(s.held - t.freed, s.archives[|t.plan.evict|..])
  }

  ghost predicate Runs(cap: nat, s: Spool, ticks: seq<Tick>)
    decreases |ticks|
  {
    ticks != [] ==> Fair(cap, s, ticks[0]) && Runs(cap, Next(s, ticks[0]), ticks[1..])
  }

  ghost function After(cap: nat, s: Spool, ticks: seq<Tick>): Spool
    requires Runs(cap, s, ticks)
    decreases |ticks|
  {
    if ticks == [] then s else After(cap, Next(s, ticks[0]), ticks[1..])
  }

  function Max(a: nat, b: nat): nat {
    if a < b then b else a
  }

  /** The most an archive taken into an empty spool has brought it to. */
  ghost function Lone(cap: nat, s: Spool, ticks: seq<Tick>): nat
    requires Runs(cap, s, ticks)
    decreases |ticks|
  {
    if ticks == [] then 0
    else Max(if s.archives == [] then s.held + ticks[0].incoming else 0, Lone(cap, Next(s, ticks[0]), ticks[1..]))
  }

  lemma TickStaysUnder(cap: nat, s: Spool, t: Tick)
    requires 0 < cap < U64_MAX && Fair(cap, s, t)
    ensures Next(s, t).held <= Max(s.held, Max(cap, if s.archives == [] then s.held + t.incoming else 0))
  {
    if Fits(cap, s.held, |s.archives|, t.incoming, |s.archives|) {
      assert Fits(cap, s.held, |s.archives|, t.incoming, |t.plan.evict|);
    }
  }

  /** The spool never holds more than the limit, an archive taken into an empty
      spool, or what it held to begin with. */
  lemma {:induction false} RunsStayUnder(cap: nat, s: Spool, ticks: seq<Tick>)
    requires 0 < cap < U64_MAX && Runs(cap, s, ticks)
    ensures After(cap, s, ticks).held <= Max(s.held, Max(cap, Lone(cap, s, ticks)))
    decreases |ticks|
  {
    if ticks != [] {
      TickStaysUnder(cap, s, ticks[0]);
      RunsStayUnder(cap, Next(s, ticks[0]), ticks[1..]);
    }
  }

  /** Whether the limit is respected does depend on the even share being a fair
      one: here the eviction frees less than half of what two archives hold. */
  lemma UnfairShareBreaksTheCap(old0: LocalArchive, old1: LocalArchive, made: LocalArchive)
    ensures var s := Spool(100, [old0, old1]);
            var t := Tick(50, CapPlan([old0], true, false), 10, 50, made);
            Planned(100, s.held, t.incoming, s.archives, t.plan) && t.cost <= t.incoming && Next(s, t).held == 140
  {
    assert !Fits(100, 100, 2, 50, 0);
    assert Fits(100, 100, 2, 50, 1) && Fits(100, 100, 2, 50, 2);
    assert [old0] <= [old0, old1];
  }

  // ---- When an even share is a fair one ----

  /** What evicting archives frees, one after another. */
  function Total(sizes: seq<nat>): nat {
    if sizes == [] then 0 else Total(sizes[..|sizes| - 1]) + sizes[|sizes| - 1]
  }

  /** Any run of the oldest frees as much as its even shares. */
  ghost predicate FairShares(held: nat, sizes: seq<nat>) {
    forall k :: 0 <= k <= |sizes| ==> Total(sizes[..k]) >= k * Share(held, |sizes|)
  }

  function HeldAfter(held: nat, freed: nat, cost: nat): nat {
    SaturatingSub(held, freed) + cost
  }

  /** Once the plan's evictions have freed what they free, the limit is kept
      whatever the archive costs, up to what was projected. */
  ghost predicate KeepsLimit(cap: nat, held: nat, incoming: nat, existing: seq<LocalArchive>, sizes: seq<nat>,
                             plan: CapPlan)
    requires |sizes| == |existing| && |plan.evict| <= |sizes|
  {
    forall cost: nat :: cost <= incoming ==> HeldAfter(held, Total(sizes[..|plan.evict|]), cost) <= cap
  }

  /** Every plan that makes room keeps the limit, whatever the limit and whatever
      is coming, if and only if the oldest archives really free their shares. */
  lemma RespectsTheCapIff(held: nat, existing: seq<LocalArchive>, sizes: seq<nat>)
    requires |sizes| == |existing| && held < U64_MAX
    ensures (forall cap: nat, incoming: nat, plan ::
               0 < cap < U64_MAX && Planned(cap, held, incoming, existing, plan) && !plan.degraded ==>
                 |plan.evict| <= |sizes| && KeepsLimit(cap, held, incoming, existing, sizes, plan)) <==>
            FairShares(held, sizes)
  {
    if FairShares(held, sizes) {
      forall cap: nat, incoming: nat, plan | 0 < cap < U64_MAX && Planned(cap, held, incoming, existing, plan) &&
                                             !plan.degraded
        ensures |plan.evict| <= |sizes| && KeepsLimit(cap, held, incoming, existing, sizes, plan)
      {
        FairKeepsLimit(cap, held, incoming, existing, sizes, plan);
      }
    } else {
      var k :| 0 <= k <= |sizes| && Total(sizes[..k]) < k * Share(held, |sizes|);
      UnfairPlan(held, existing, sizes, k);
    }
  }

  lemma FairKeepsLimit(cap: nat, held: nat, incoming: nat, existing: seq<LocalArchive>, sizes: seq<nat>, plan: CapPlan)
    requires |sizes| == |existing| && FairShares(held, sizes)
    requires 0 < cap < U64_MAX && Planned(cap, held, incoming, existing, plan) && !plan.degraded
    ensures |plan.evict| <= |sizes| && KeepsLimit(cap, held, incoming, existing, sizes, plan)
  {
    var k := |plan.evict|;
    assert Fits(cap, held, |existing|, incoming, k) && k <= |sizes|;
    assert Total(sizes[..k]) >= k * Share(held, |sizes|);
    FreedLeaves(held, |existing|, k, Total(sizes[..k]));
    hide Share, Total, Planned, Remaining;
  }

  lemma FreedLeaves(held: nat, count: nat, k: nat, freed: nat)
    requires freed >= k * Share(held, count)
    ensures SaturatingSub(held, freed) <= Remaining(held, count, k)
  {
    hide Share;
  }

  /** Where they do not, some limit is broken by some plan. */
  lemma UnfairPlan(held: nat, existing: seq<LocalArchive>, sizes: seq<nat>, k: nat)
    requires |sizes| == |existing| && held < U64_MAX && k <= |sizes|
    requires Total(sizes[..k]) < k * Share(held, |sizes|)
    ensures var cap := Remaining(held, |existing|, k) + 1;
            var plan := CapPlan(existing[..k], true, false);
            && 0 < cap < U64_MAX && Planned(cap, held, 1, existing, plan)
            && !KeepsLimit(cap, held, 1, existing, sizes, plan)
  {
    var count := |existing|;
    var share := Share(held, count);
    var cap, freed := Remaining(held, count, k) + 1, Total(sizes[..k]);
    SharesWithin(held, count, k);
    RemainingShrinks(held, count, k, count);
    forall j: nat | j < k
      ensures Remaining(held, count, k) < Remaining(held, count, j)
    {
      FewerShares(share, j, k);
      SharesWithin(held, count, j);
    }
    assert Remaining(held, count, k) == held - k * share && k * share > freed;
    hide Share, Total, Remaining;
    assert Fits(cap, held, count, 1, k) && Fits(cap, held, count, 1, count);
    assert forall j: nat :: j < k ==> !Fits(cap, held, count, 1, j);
    assert existing[..k] <= existing;
    assert |existing[..k]| == k && HeldAfter(held, freed, 1) > cap;
  }

  lemma SharesWithin(held: nat, count: nat, k: nat)
    requires k <= count
    ensures k * Share(held, count) <= held
  {
    if count > 0 {
      Times(count - k, k, Share(held, count));
    }
  }

  lemma Times(a: nat, b: nat, share: nat)
    ensures (a + b) * share == a * share + b * share && a * share >= 0
  {
  }

  lemma FewerShares(share: nat, j: nat, k: nat)
    requires j < k && k * share > 0
    ensures j * share < k * share
  {
    Times(k - j, j, share);
    Times(1, k - j - 1, share);
    assert share > 0;
  }
}
