/** Group assignment for a round (`seed_round1`, `pair_next_round`): a list
    of players is dealt round-robin over the event's groups (sorted by
    name), replacing that round's memberships, and every group gets a heat
    for the round if it has none. Round 1 deals the active enrollments in a
    shuffled order; a later round deals the standings in ascending
    (total, rank) order. */
module Grouping {
  import opened Collections
  import opened Ordering
  import opened Models
  import opened Text

  /** Why a grouping operation refused to run. */
  datatype GroupingError = NoGroups | NoStandings

  function EnrollmentActive(e: EventId): Enrollment -> bool {
    (x: Enrollment) => x.event == e && x.status == ActiveStatus
  }

  /** The players of the active enrollments of `e`, in table order. */
  function ActivePlayers(enrollments: seq<Enrollment>, e: EventId): seq<PlayerId> {
    var act := Filter(enrollments, EnrollmentActive(e));
    seq(|act|, i requires 0 <= i < |act| => act[i].player)
  }

  function GroupNameOf(g: Group): string { g.name }

  /** The ids of the groups of `e`, ordered by name. */
  function EventGroups(groups: seq<Group>, e: EventId): seq<GroupId> {
    var gs := SortBy(Filter(groups, (g: Group) => g.event == e), GroupNameOf, StrLe);
    seq(|gs|, i requires 0 <= i < |gs| => gs[i].id)
  }

  /** The i-th player goes to group i mod G. */
  function Deal(ps: seq<PlayerId>, gs: seq<GroupId>, e: EventId, roundNo: int): (d: seq<Membership>)
    requires gs != []
    ensures |d| == |ps|
  {
    seq(|ps|, i requires 0 <= i < |ps| => Membership(e, roundNo, gs[i % |gs|], ps[i]))
  }

  /** The memberships a reassignment of (e, roundNo) keeps. */
  function OtherRounds(ms: seq<Membership>, e: EventId, roundNo: int): seq<Membership> {
    Filter(ms, (m: Membership) => !(m.event == e && m.roundNo == roundNo))
  }

  /** How many memberships name group `g`. */
  function CountIn(ms: seq<Membership>, g: GroupId): nat {
    if ms == [] then 0
    else CountIn(ms[..|ms| - 1], g) + (if ms[|ms| - 1].group == g then 1 else 0)
  }

  /** `new` keeps every heat of `old`, adds only heats of (e, roundNo) for
      groups in `gs` with an empty room code, and has one for every group in
      `gs` (get_or_create per group). */
  ghost predicate HeatsExtended(old_: map<HeatId, Heat>, new_: map<HeatId, Heat>, e: EventId, roundNo: int,
                                gs: seq<GroupId>) {
    && (forall id :: id in old_ ==> id in new_ && new_[id] == old_[id])
    && (forall id :: id in new_ && id !in old_ ==>
          new_[id].event == e && new_[id].roundNo == roundNo && new_[id].group in gs && new_[id].roomCode == "")
    && (forall g :: g in gs ==> HasHeat(new_, e, roundNo, g))
  }

  // ---- Distinctness ----

  /** Enrollment is unique per (event, player), so no player is active twice. */
  lemma ActivePlayersDistinct(enrollments: seq<Enrollment>, e: EventId)
    requires UniqueBy(enrollments, EnrollmentKey)
    ensures Distinct(ActivePlayers(enrollments, e))
  {
    var act := Filter(enrollments, EnrollmentActive(e));
    UniqueByFilter(enrollments, EnrollmentActive(e), EnrollmentKey);
    forall i, j | 0 <= i < j < |act| ensures act[i].player != act[j].player {
      assert EnrollmentKey(act[i]) != EnrollmentKey(act[j]);
    }
  }

  /** The groups of `e` in name order: each one of e's groups, each once. */
  lemma EventGroupsExactly(groups: seq<Group>, e: EventId)
    requires UniqueBy(groups, GroupIdOf)
    ensures var gs := EventGroups(groups, e);
      && Distinct(gs)
      && (forall g :: g in gs <==> exists k :: 0 <= k < |groups| && groups[k].event == e && groups[k].id == g)
  {
    EventGroupsDistinct(groups, e);
    forall g ensures g in EventGroups(groups, e) <==> exists k :: 0 <= k < |groups| && groups[k].event == e && groups[k].id == g {
      if g in EventGroups(groups, e) {
        EventGroupsSound(groups, e, g);
      }
      if exists k :: 0 <= k < |groups| && groups[k].event == e && groups[k].id == g {
        var k :| 0 <= k < |groups| && groups[k].event == e && groups[k].id == g;
        EventGroupsComplete(groups, e, k);
      }
    }
  }

  lemma EventGroupsDistinct(groups: seq<Group>, e: EventId)
    requires UniqueBy(groups, GroupIdOf)
    ensures Distinct(EventGroups(groups, e))
  {
    var keep := (g: Group) => g.event == e;
    var mine := Filter(groups, keep);
    var sorted := SortBy(mine, GroupNameOf, StrLe);
    var gs := EventGroups(groups, e);
    UniqueByFilter(groups, keep, GroupIdOf);
    SortByUnique(mine, GroupNameOf, StrLe, GroupIdOf);
    forall i, j | 0 <= i < j < |gs| ensures gs[i] != gs[j] {
      assert GroupIdOf(sorted[i]) != GroupIdOf(sorted[j]);
    }
  }

  lemma EventGroupsSound(groups: seq<Group>, e: EventId, g: GroupId)
    requires g in EventGroups(groups, e)
    ensures exists k :: 0 <= k < |groups| && groups[k].event == e && groups[k].id == g
  {
    var mine := Filter(groups, (x: Group) => x.event == e);
    var sorted := SortBy(mine, GroupNameOf, StrLe);
    var gs := EventGroups(groups, e);
    var i :| 0 <= i < |gs| && gs[i] == g;
    var x := sorted[i];
    assert x.id == g;
    assert x in multiset(mine);
    var j :| 0 <= j < |mine| && mine[j] == x;
    assert x in groups && x.event == e;
    var k :| 0 <= k < |groups| && groups[k] == x;
  }

  lemma EventGroupsComplete(groups: seq<Group>, e: EventId, k: int)
    requires 0 <= k < |groups| && groups[k].event == e
    ensures groups[k].id in EventGroups(groups, e)
  {
    var mine := Filter(groups, (x: Group) => x.event == e);
    var sorted := SortBy(mine, GroupNameOf, StrLe);
    var gs := EventGroups(groups, e);
    assert groups[k] in mine;
    assert groups[k] in multiset(sorted);
    var i :| 0 <= i < |sorted| && sorted[i] == groups[k];
    assert gs[i] == groups[k].id;
  }

  // ---- The deal ----

  /** Dealing distinct players gives one membership per player, all in the
      round and in the given groups. */
  lemma DealMemberships(ps: seq<PlayerId>, gs: seq<GroupId>, e: EventId, roundNo: int)
    requires gs != [] && Distinct(ps)
    ensures var d := Deal(ps, gs, e, roundNo);
      && UniqueBy(d, MembershipKey)
      && (forall i :: 0 <= i < |d| ==> d[i].event == e && d[i].roundNo == roundNo && d[i].group in gs)
      && (forall p :: p in ps <==> exists i :: 0 <= i < |d| && d[i].player == p)
  {
    var d := Deal(ps, gs, e, roundNo);
    forall p | exists i :: 0 <= i < |d| && d[i].player == p ensures p in ps {
      var i :| 0 <= i < |d| && d[i].player == p;
      assert ps[i] == p;
    }
    forall p | p in ps ensures exists i :: 0 <= i < |d| && d[i].player == p {
      var i :| 0 <= i < |ps| && ps[i] == p;
      assert d[i].player == p;
    }
  }

  lemma DivModUnique(n: int, m: int, q: int, r: int)
    requires m > 0 && n == m * q + r && 0 <= r < m
    ensures n / m == q && n % m == r
  {
    var q', r' := n / m, n % m;
    assert n == m * q' + r';
    if q' > q {
      MulAtLeast(m, q' - q);
      assert false;
    } else if q' < q {
      MulAtLeast(m, q - q');
      assert false;
    }
  }

  lemma MulAtLeast(m: int, d: int)
    requires m > 0 && d >= 1
    ensures m * d >= m
  {
  }

  lemma DivModStep(n: nat, m: nat)
    requires m > 0
    ensures n % m < m - 1 ==> (n + 1) / m == n / m && (n + 1) % m == n % m + 1
    ensures n % m == m - 1 ==> (n + 1) / m == n / m + 1 && (n + 1) % m == 0
  {
    var q, r := n / m, n % m;
    assert n == m * q + r;
    if r < m - 1 {
      DivModUnique(n + 1, m, q, r + 1);
    } else {
      DivModUnique(n + 1, m, q + 1, 0);
    }
  }

  lemma {:induction false} DealPrefixCount(ps: seq<PlayerId>, gs: seq<GroupId>, e: EventId, roundNo: int, k: int, n: nat)
    requires gs != [] && Distinct(gs) && 0 <= k < |gs| && n <= |ps|
    ensures CountIn(Deal(ps, gs, e, roundNo)[..n], gs[k]) == n / |gs| + (if k < n % |gs| then 1 else 0)
  {
    var d := Deal(ps, gs, e, roundNo);
    if n > 0 {
      var G := |gs|;
      DealPrefixCount(ps, gs, e, roundNo, k, n - 1);
      var before := CountIn(d[..n - 1], gs[k]);
      var hit := if d[n - 1].group == gs[k] then 1 else 0;
      assert CountIn(d[..n], gs[k]) == before + hit by {
        assert d[..n][..n - 1] == d[..n - 1];
      }
      assert hit == (if (n - 1) % G == k then 1 else 0) by {
        assert d[n - 1].group == gs[(n - 1) % G];
      }
      CountStep(n - 1, G, k, before, hit);
    }
  }

  lemma CountStep(n: nat, G: nat, k: int, before: int, hit: int)
    requires G > 0 && 0 <= k < G
    requires before == n / G + (if k < n % G then 1 else 0)
    requires hit == (if n % G == k then 1 else 0)
    ensures before + hit == (n + 1) / G + (if k < (n + 1) % G then 1 else 0)
  {
    DivModStep(n, G);
  }

  /** The deal is balanced: with n players and G groups, the k-th group
      (in name order) gets n / G players, plus one when k < n mod G. */
  lemma DealBalanced(ps: seq<PlayerId>, gs: seq<GroupId>, e: EventId, roundNo: int, k: int)
    requires gs != [] && Distinct(gs) && 0 <= k < |gs|
    ensures CountIn(Deal(ps, gs, e, roundNo), gs[k]) == |ps| / |gs| + (if k < |ps| % |gs| then 1 else 0)
  {
    var d := Deal(ps, gs, e, roundNo);
    DealPrefixCount(ps, gs, e, roundNo, k, |ps|);
    assert d[..|ps|] == d;
  }

  // ---- The database steps ----

  /** Replaces the memberships of (e, roundNo) by the deal of `ps` over `gs`. */
  method AssignRound(db: Db, e: EventId, roundNo: int, ps: seq<PlayerId>, gs: seq<GroupId>)
    requires db.Valid() && gs != [] && Distinct(ps)
    modifies db`memberships
    ensures db.Valid()
    ensures db.memberships == OtherRounds(old(db.memberships), e, roundNo) + Deal(ps, gs, e, roundNo)
  {
    var created: seq<Membership> := [];
    for i := 0 to |ps|
      invariant created == Deal(ps, gs, e, roundNo)[..i]
    {
      created := created + [Membership(e, roundNo, gs[i % |gs|], ps[i])];
    }
    assert created == Deal(ps, gs, e, roundNo);
    DealMemberships(ps, gs, e, roundNo);
    UniqueByReplace(db.memberships, (m: Membership) => !(m.event == e && m.roundNo == roundNo), created, MembershipKey);
    db.memberships := OtherRounds(db.memberships, e, roundNo) + created;
  }

  /** `Heat.objects.get_or_create(event, round_no, group)` for each group. */
  method EnsureHeats(db: Db, e: EventId, roundNo: int, gs: seq<GroupId>)
    requires db.Valid()
    modifies db`heats, db`nextHeat
    ensures db.Valid()
    ensures HeatsExtended(old(db.heats), db.heats, e, roundNo, gs)
  {
    for k := 0 to |gs|
      invariant db.Valid()
      invariant HeatsExtended(old(db.heats), db.heats, e, roundNo, gs[..k])
    {
      var g := gs[k];
      ghost var mid := db.heats;
      if !HasHeat(db.heats, e, roundNo, g) {
        AddHeat(db.heats, db.nextHeat, e, roundNo, g);
        db.heats := db.heats[db.nextHeat := Heat(e, roundNo, g, "")];
        db.nextHeat := db.nextHeat + 1;
      }
      ExtendedStep(old(db.heats), mid, db.heats, e, roundNo, gs, k);
    }
    assert gs[..|gs|] == gs;
  }

  /** Creating the heat (e, roundNo, g) under a fresh id keeps the keys
      unique and the ids below the next one. */
  lemma AddHeat(heats: map<HeatId, Heat>, next: HeatId, e: EventId, roundNo: int, g: GroupId)
    requires HeatsUnique(heats) && (forall id :: id in heats ==> id < next)
    requires !HasHeat(heats, e, roundNo, g)
    ensures var heats' := heats[next := Heat(e, roundNo, g, "")];
      && HeatsUnique(heats')
      && (forall id :: id in heats' ==> id < next + 1)
      && (forall id :: id in heats ==> id in heats' && heats'[id] == heats[id])
      && HasHeat(heats', e, roundNo, g)
  {
    var heats' := heats[next := Heat(e, roundNo, g, "")];
    assert HeatKey(heats'[next]) == (e, roundNo, g);
  }

  /** One get_or_create step grows the set of groups covered by one. */
  lemma ExtendedStep(old_: map<HeatId, Heat>, mid: map<HeatId, Heat>, new_: map<HeatId, Heat>,
                     e: EventId, roundNo: int, gs: seq<GroupId>, k: int)
    requires 0 <= k < |gs|
    requires HeatsExtended(old_, mid, e, roundNo, gs[..k])
    requires forall id :: id in mid ==> id in new_ && new_[id] == mid[id]
    requires forall id :: id in new_ && id !in mid ==> new_[id] == Heat(e, roundNo, gs[k], "")
    requires HasHeat(new_, e, roundNo, gs[k])
    ensures HeatsExtended(old_, new_, e, roundNo, gs[..k + 1])
  {
    assert forall h :: h in gs[..k + 1] <==> h in gs[..k] || h == gs[k];
    forall g | g in gs[..k] ensures HasHeat(new_, e, roundNo, g) {
      var id :| id in mid && HeatKey(mid[id]) == (e, roundNo, g);
      assert new_[id] == mid[id];
    }
  }

  /** The rounds the event has heats for. */
  ghost function RoundsWithHeats(heats: map<HeatId, Heat>, e: EventId): set<int> {
    set id | id in heats && heats[id].event == e :: heats[id].roundNo
  }

  ghost predicate IsGreatest(s: set<int>, m: int) {
    m in s && forall y :: y in s ==> y <= m
  }

  /** A non-empty finite set of rounds has a greatest element. */
  lemma {:induction false} GreatestExists(s: set<int>)
    requires s != {}
    ensures exists m :: IsGreatest(s, m)
    decreases |s|
  {
    if forall x :: x !in s {
      assert false;
    }
    var x :| x in s;
    if s - {x} == {} {
      assert s == {x};
      assert IsGreatest(s, x);
    } else {
      GreatestExists(s - {x});
      var r :| IsGreatest(s - {x}, r);
      var m := if x > r then x else r;
      forall y | y in s ensures y <= m {
        if y != x { assert y in s - {x}; }
      }
      assert IsGreatest(s, m);
    }
  }

  /** The greatest element of a non-empty finite set of rounds. */
  ghost function Greatest(s: set<int>): (m: int)
    requires s != {}
    ensures IsGreatest(s, m)
  {
    GreatestExists(s);
    var m :| IsGreatest(s, m);
    m
  }

  /** `aggregate(Max('round_no'))['round_no__max']`: None without heats. */
  ghost function MaxRound(heats: map<HeatId, Heat>, e: EventId): Option<int> {
    var rs := RoundsWithHeats(heats, e);
    if rs == {} then None else Some(Greatest(rs))
  }

  /** The greatest round of a heat of `e`, or None without heats
      (`aggregate(Max('round_no'))`). */
  method MaxRoundOf(heats: map<HeatId, Heat>, e: EventId) returns (m: Option<int>)
    ensures m == None <==> forall id :: id in heats ==> heats[id].event != e
    ensures m.Some? ==> (exists id :: id in heats && heats[id].event == e && heats[id].roundNo == m.value)
    ensures m.Some? ==> forall id :: id in heats && heats[id].event == e ==> heats[id].roundNo <= m.value
    ensures m == MaxRound(heats, e)
  {
    m := None;
    var todo := heats.Keys;
    var seen: set<HeatId> := {};
    while todo != {}
      invariant todo + seen == heats.Keys && todo !! seen
      invariant m == None <==> forall id :: id in seen ==> heats[id].event != e
      invariant m.Some? ==> (exists id :: id in seen && heats[id].event == e && heats[id].roundNo == m.value)
      invariant m.Some? ==> forall id :: id in seen && heats[id].event == e ==> heats[id].roundNo <= m.value
      decreases |todo|
    {
      var id :| id in todo;
      var h := heats[id];
      if h.event == e && (m == None || h.roundNo > m.value) {
        m := Some(h.roundNo);
      }
      todo := todo - {id};
      seen := seen + {id};
    }
    MaxRoundIs(heats, e, m);
  }

  /** A value that is a round of the event's heats and bounds them all is `MaxRound`. */
  lemma MaxRoundIs(heats: map<HeatId, Heat>, e: EventId, m: Option<int>)
    requires m == None <==> forall id :: id in heats ==> heats[id].event != e
    requires m.Some? ==> (exists id :: id in heats && heats[id].event == e && heats[id].roundNo == m.value)
    requires m.Some? ==> forall id :: id in heats && heats[id].event == e ==> heats[id].roundNo <= m.value
    ensures m == MaxRound(heats, e)
  {
    var rs := RoundsWithHeats(heats, e);
    if m == None {
      assert rs == {};
    } else {
      var id :| id in heats && heats[id].event == e && heats[id].roundNo == m.value;
      assert m.value in rs;
      var g := Greatest(rs);
      var k :| k in heats && heats[k].event == e && heats[k].roundNo == g;
    }
  }

  /** `(max_round or 1) + 1`: a missing maximum and a maximum of 0 both count as 1. */
  function NextRound(m: Option<int>): (next: int)
    ensures m.Some? ==> next > m.value
    ensures (m == None || m.value >= 0) ==> next >= 2
  {
    (if m == None || m == Some(0) then 1 else m.value) + 1
  }

  /** The next round lies above every round the event has a heat for, and
      is at least 2 unless the event has only negative rounds. */
  lemma NextRoundIsNew(heats: map<HeatId, Heat>, e: EventId, m: Option<int>)
    requires m == None <==> forall id :: id in heats ==> heats[id].event != e
    requires m.Some? ==> forall id :: id in heats && heats[id].event == e ==> heats[id].roundNo <= m.value
    ensures forall id :: id in heats && heats[id].event == e ==> heats[id].roundNo < NextRound(m)
    ensures (m == None || m.value >= 0) ==> NextRound(m) >= 2
  {
  }

  function PairKey(s: Standing): (int, int) { (s.totalScore, s.rank) }

  /** The event's standings ordered by (total_score, rank). */
  function PairingOrder(standings: seq<Standing>, e: EventId): (st: seq<Standing>)
    ensures forall i :: 0 <= i < |st| ==> st[i] in standings && st[i].event == e
  {
    var rows := Filter(standings, (s: Standing) => s.event == e);
    FilterMembers(standings, (s: Standing) => s.event == e);
    SortByMembers(rows, PairKey, PairLe);
    SortBy(rows, PairKey, PairLe)
  }

  function PlayersOf(st: seq<Standing>): seq<PlayerId> {
    seq(|st|, i requires 0 <= i < |st| => st[i].player)
  }

  /** The pairing order lists each standing of `e` once, by ascending
      (total, rank), with no player twice. */
  lemma PairingOrderSorted(standings: seq<Standing>, e: EventId)
    requires UniqueBy(standings, StandingKey)
    ensures var st := PairingOrder(standings, e);
      && multiset(st) == multiset(Filter(standings, (s: Standing) => s.event == e))
      && (forall i, j :: 0 <= i < j < |st| ==> PairLe(PairKey(st[i]), PairKey(st[j])))
      && Distinct(PlayersOf(st))
  {
    var keep := (s: Standing) => s.event == e;
    var rows := Filter(standings, keep);
    var st := PairingOrder(standings, e);
    PairLeTotal();
    SortBySorted(rows, PairKey, PairLe);
    UniqueByFilter(standings, keep, StandingKey);
    assert UniqueBy(rows, (s: Standing) => s.player) by {
      forall a, b | 0 <= a < b < |rows| ensures rows[a].player != rows[b].player {
        assert StandingKey(rows[a]) != StandingKey(rows[b]);
      }
    }
    SortByUnique(rows, PairKey, PairLe, (s: Standing) => s.player);
  }

  /** `seed_round1`. `shuffled` is the order `random.shuffle` put the active
      players in. No active player: 0 and nothing written. No group: an
      error and nothing written. Otherwise round 1 is dealt and its heats
      exist; the result is the number of players. */
  method SeedRound1(db: Db, e: EventId, shuffled: seq<PlayerId>) returns (r: Outcome<int, GroupingError>)
    requires db.Valid()
    requires multiset(shuffled) == multiset(ActivePlayers(db.enrollments, e))
    modifies db`memberships, db`heats, db`nextHeat
    ensures db.Valid()
    ensures var ps, gs := ActivePlayers(db.enrollments, e), EventGroups(db.groups, e);
      if ps == [] then r == Ok(0) && unchanged(db)
      else if gs == [] then r == Err(NoGroups) && unchanged(db)
      else
        && r == Ok(|ps|)
        && db.memberships == OtherRounds(old(db.memberships), e, 1) + Deal(shuffled, gs, e, 1)
        && HeatsExtended(old(db.heats), db.heats, e, 1, gs)
  {
    var ps := ActivePlayers(db.enrollments, e);
    if ps == [] {
      return Ok(0);
    }
    var gs := EventGroups(db.groups, e);
    if gs == [] {
      return Err(NoGroups);
    }
    ActivePlayersDistinct(db.enrollments, e);
    DistinctPermutation(shuffled, ps);
    AssignRound(db, e, 1, shuffled, gs);
    EnsureHeats(db, e, 1, gs);
    assert |shuffled| == |ps| by {
      assert |multiset(shuffled)| == |multiset(ps)|;
    }
    r := Ok(|shuffled|);
  }

  /** `pair_next_round`: the next round is one past the highest round of
      the event's heats (`or 1`); the standings in (total, rank) order are
      dealt over the groups for that round. No standing or no group: an
      error and nothing written. */
  method PairNextRound(db: Db, e: EventId) returns (r: Outcome<int, GroupingError>, next: int)
    requires db.Valid()
    modifies db`memberships, db`heats, db`nextHeat
    ensures db.Valid()
    ensures next == NextRound(MaxRound(old(db.heats), e))
    ensures forall id :: id in old(db.heats) && old(db.heats)[id].event == e ==> old(db.heats)[id].roundNo < next
    ensures var m := MaxRound(old(db.heats), e); (m == None || m.value >= 0) ==> next >= 2
    ensures var st, gs := PairingOrder(db.standings, e), EventGroups(db.groups, e);
      if st == [] then r == Err(NoStandings) && unchanged(db)
      else if gs == [] then r == Err(NoGroups) && unchanged(db)
      else
        && r == Ok(|st|)
        && db.memberships == OtherRounds(old(db.memberships), e, next) + Deal(PlayersOf(st), gs, e, next)
        && HeatsExtended(old(db.heats), db.heats, e, next, gs)
  {
    var m := MaxRoundOf(db.heats, e);
    next := NextRound(m);
    NextRoundIsNew(db.heats, e, m);
    var st := PairingOrder(db.standings, e);
    if st == [] {
      return Err(NoStandings), next;
    }
    var gs := EventGroups(db.groups, e);
    if gs == [] {
      return Err(NoGroups), next;
    }
    PairingOrderSorted(db.standings, e);
    AssignRound(db, e, next, PlayersOf(st), gs);
    EnsureHeats(db, e, next, gs);
    r := Ok(|st|);
  }
}
