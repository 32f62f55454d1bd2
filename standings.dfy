/** Standings aggregation (`recompute_standings`): the places of every
    non-NPC result in the event's heats are summed per player, the totals are
    sorted ascending by a stable sort, and the event's Standing rows are
    replaced by ranks 1..N in that order. */
module Standings {
  import opened Collections
  import opened Ordering
  import opened Models

  /** A result counts for event `e`: not an NPC row, and in one of e's heats. */
  predicate Scored(heats: map<HeatId, Heat>, e: EventId, r: Result) {
    !r.isNpc && r.heat in heats && heats[r.heat].event == e
  }

  /** Player `p` has at least one result that counts for `e`. */
  ghost predicate HasScore(heats: map<HeatId, Heat>, e: EventId, results: seq<Result>, p: PlayerId) {
    exists i :: 0 <= i < |results| && Scored(heats, e, results[i]) && results[i].player == p
  }

  /** The sum of `place` over the results of `p` that count for `e`. */
  function PlaceSum(heats: map<HeatId, Heat>, e: EventId, results: seq<Result>, p: PlayerId): (total: int)
    ensures !HasScore(heats, e, results, p) ==> total == 0
  {
    if results == [] then 0
    else
      var last := results[|results| - 1];
      PlaceSum(heats, e, results[..|results| - 1], p)
        + (if Scored(heats, e, last) && last.player == p then last.place else 0)
  }

  /** The players with a counting result, in the order their first one appears. */
  function Scorers(heats: map<HeatId, Heat>, e: EventId, results: seq<Result>): seq<PlayerId> {
    if results == [] then []
    else
      var last := results[|results| - 1];
      var before := Scorers(heats, e, results[..|results| - 1]);
      if Scored(heats, e, last) && last.player !in before then before + [last.player] else before
  }

  /** (player, total) per scorer, in first-seen order: the list before sorting. */
  function Tally(heats: map<HeatId, Heat>, e: EventId, results: seq<Result>): seq<(PlayerId, int)> {
    var ps := Scorers(heats, e, results);
    seq(|ps|, i requires 0 <= i < |ps| => (ps[i], PlaceSum(heats, e, results, ps[i])))
  }

  function TotalOf(t: (PlayerId, int)): int { t.1 }
  function PlayerOf(t: (PlayerId, int)): PlayerId { t.0 }

  /** The Standing rows created for sorted totals: rank i + 1 for the i-th. */
  function Ranked(e: EventId, sorted: seq<(PlayerId, int)>): seq<Standing> {
    seq(|sorted|, i requires 0 <= i < |sorted| => Standing(e, sorted[i].0, sorted[i].1, i + 1, false, ""))
  }

  /** The Standing rows of other events, which a recomputation keeps. */
  function OtherEvents(standings: seq<Standing>, e: EventId): seq<Standing> {
    Filter(standings, (s: Standing) => s.event != e)
  }

  /** Scorers lists exactly the players with a counting result, each once. */
  lemma {:induction false} ScorersExactly(heats: map<HeatId, Heat>, e: EventId, results: seq<Result>)
    ensures UniqueBy(Scorers(heats, e, results), (p: PlayerId) => p)
    ensures forall p :: p in Scorers(heats, e, results) <==> HasScore(heats, e, results, p)
  {
    var ps := Scorers(heats, e, results);
    if results != [] {
      var init := results[..|results| - 1];
      var last := results[|results| - 1];
      ScorersExactly(heats, e, init);
      forall p ensures p in ps <==> HasScore(heats, e, results, p) {
        if HasScore(heats, e, init, p) {
          var i :| 0 <= i < |init| && Scored(heats, e, init[i]) && init[i].player == p;
          assert results[i] == init[i];
        }
        if HasScore(heats, e, results, p) && !HasScore(heats, e, init, p) {
          var i :| 0 <= i < |results| && Scored(heats, e, results[i]) && results[i].player == p;
        }
        if p == last.player && Scored(heats, e, last) {
          assert results[|results| - 1] == last;
        }
      }
      var before := Scorers(heats, e, init);
      if Scored(heats, e, last) && last.player !in before {
        forall i, j | 0 <= i < j < |ps| ensures ps[i] != ps[j] {
          if j == |ps| - 1 { assert ps[i] == before[i]; }
          else { assert ps[i] == before[i] && ps[j] == before[j]; }
        }
      }
    }
  }

  /** Rows that do not count (NPC rows, other events' rows) never change the totals. */
  lemma OnlyScoredRowsCount(heats: map<HeatId, Heat>, e: EventId, results: seq<Result>, p: PlayerId)
    ensures PlaceSum(heats, e, results, p)
         == PlaceSum(heats, e, Filter(results, (r: Result) => Scored(heats, e, r)), p)
    ensures Scorers(heats, e, results) == Scorers(heats, e, Filter(results, (r: Result) => Scored(heats, e, r)))
  {
    OnlyScoredRowsSum(heats, e, results, p);
    OnlyScoredRowsScorers(heats, e, results);
  }

  lemma {:induction false} OnlyScoredRowsSum(heats: map<HeatId, Heat>, e: EventId, results: seq<Result>, p: PlayerId)
    ensures PlaceSum(heats, e, results, p)
         == PlaceSum(heats, e, Filter(results, (r: Result) => Scored(heats, e, r)), p)
  {
    var keep := (r: Result) => Scored(heats, e, r);
    if results != [] {
      var init := results[..|results| - 1];
      var last := results[|results| - 1];
      OnlyScoredRowsSum(heats, e, init, p);
      FilterSnoc(results, keep);
      var f, fi := Filter(results, keep), Filter(init, keep);
      if keep(last) {
        assert f == fi + [last];
        assert f[..|f| - 1] == fi && f[|f| - 1] == last;
      } else {
        assert f == fi + [];
        assert f == fi;
      }
    }
  }

  lemma {:induction false} OnlyScoredRowsScorers(heats: map<HeatId, Heat>, e: EventId, results: seq<Result>)
    ensures Scorers(heats, e, results) == Scorers(heats, e, Filter(results, (r: Result) => Scored(heats, e, r)))
  {
    var keep := (r: Result) => Scored(heats, e, r);
    if results != [] {
      var init := results[..|results| - 1];
      var last := results[|results| - 1];
      OnlyScoredRowsScorers(heats, e, init);
      FilterSnoc(results, keep);
      var f, fi := Filter(results, keep), Filter(init, keep);
      if keep(last) {
        assert f == fi + [last];
        assert f[..|f| - 1] == fi && f[|f| - 1] == last;
      } else {
        assert f == fi + [];
        assert f == fi;
      }
    }
  }

  /** Aggregates the event's counting results into (player, total) pairs in
      first-seen order, as the nested dictionary loop does. */
  method Aggregate(heats: map<HeatId, Heat>, e: EventId, results: seq<Result>)
    returns (totals: seq<(PlayerId, int)>)
    ensures totals == Tally(heats, e, results)
  {
    var order: seq<PlayerId> := [];
    var acc: map<PlayerId, int> := map[];
    var i := 0;
    while i < |results|
      invariant 0 <= i <= |results|
      invariant order == Scorers(heats, e, results[..i])
      invariant forall p :: p in acc <==> p in order
      invariant forall p :: PlaceSum(heats, e, results[..i], p) == (if p in acc then acc[p] else 0)
    {
      var r := results[i];
      AggregateStep(heats, e, results, i);
      if Scored(heats, e, r) {
        if r.player in acc {
          acc := acc[r.player := acc[r.player] + r.place];
        } else {
          order := order + [r.player];
          acc := acc[r.player := r.place];
        }
      }
      i := i + 1;
    }
    assert results[..i] == results;
    totals := [];
    var k := 0;
    while k < |order|
      invariant 0 <= k <= |order|
      invariant totals == Tally(heats, e, results)[..k]
    {
      totals := totals + [(order[k], acc[order[k]])];
      k := k + 1;
    }
  }

  /** Taking one more result into account. */
  lemma AggregateStep(heats: map<HeatId, Heat>, e: EventId, results: seq<Result>, i: int)
    requires 0 <= i < |results|
    ensures var r, before := results[i], Scorers(heats, e, results[..i]);
      && Scorers(heats, e, results[..i + 1])
           == (if Scored(heats, e, r) && r.player !in before then before + [r.player] else before)
      && forall p :: PlaceSum(heats, e, results[..i + 1], p)
           == PlaceSum(heats, e, results[..i], p) + (if Scored(heats, e, r) && r.player == p then r.place else 0)
  {
    assert results[..i + 1][..i] == results[..i];
  }

  /** The Standing rows a recomputation writes for `e`. */
  function NewStandings(heats: map<HeatId, Heat>, e: EventId, results: seq<Result>): seq<Standing> {
    Ranked(e, SortBy(Tally(heats, e, results), TotalOf, IntLe))
  }

  /** What the new standings of `e` are: one row per player with a counting
      result and no other, holding that player's place sum, ordered by
      ascending total and ranked 1..N. */
  lemma StandingsTable(heats: map<HeatId, Heat>, e: EventId, results: seq<Result>)
    ensures var rows := NewStandings(heats, e, results);
      && UniqueBy(rows, StandingKey)
      && (forall i :: 0 <= i < |rows| ==> rows[i].event == e && rows[i].rank == i + 1)
      && (forall i, j :: 0 <= i < j < |rows| ==> rows[i].totalScore <= rows[j].totalScore)
      && (forall i :: 0 <= i < |rows| ==> rows[i].totalScore == PlaceSum(heats, e, results, rows[i].player))
      && (forall p :: HasScore(heats, e, results, p) <==> exists i :: 0 <= i < |rows| && rows[i].player == p)
  {
    var rows := NewStandings(heats, e, results);
    assert forall i, j :: 0 <= i < j < |rows| ==> rows[i].totalScore <= rows[j].totalScore by {
      IntLeTotal();
      SortBySorted(Tally(heats, e, results), TotalOf, IntLe);
    }
    StandingsUnique(heats, e, results);
    StandingsSums(heats, e, results);
    StandingsCover(heats, e, results);
  }

  /** Scorers are distinct, so the tally names each player once. */
  lemma TallyUnique(heats: map<HeatId, Heat>, e: EventId, results: seq<Result>)
    ensures UniqueBy(Tally(heats, e, results), PlayerOf)
  {
    var ps := Scorers(heats, e, results);
    var tally := Tally(heats, e, results);
    ScorersExactly(heats, e, results);
    forall i, j | 0 <= i < j < |tally| ensures PlayerOf(tally[i]) != PlayerOf(tally[j]) {
      assert tally[i].0 == ps[i] && tally[j].0 == ps[j];
    }
  }

  lemma StandingsUnique(heats: map<HeatId, Heat>, e: EventId, results: seq<Result>)
    ensures UniqueBy(NewStandings(heats, e, results), StandingKey)
  {
    var tally := Tally(heats, e, results);
    var sorted := SortBy(tally, TotalOf, IntLe);
    var rows := NewStandings(heats, e, results);
    TallyUnique(heats, e, results);
    SortByUnique(tally, TotalOf, IntLe, PlayerOf);
    forall i, j | 0 <= i < j < |rows| ensures StandingKey(rows[i]) != StandingKey(rows[j]) {
      assert PlayerOf(sorted[i]) != PlayerOf(sorted[j]);
    }
  }

  lemma StandingsSums(heats: map<HeatId, Heat>, e: EventId, results: seq<Result>)
    ensures var rows := NewStandings(heats, e, results);
      forall i :: 0 <= i < |rows| ==> rows[i].totalScore == PlaceSum(heats, e, results, rows[i].player)
  {
    var tally := Tally(heats, e, results);
    var sorted := SortBy(tally, TotalOf, IntLe);
    var rows := NewStandings(heats, e, results);
    forall i | 0 <= i < |rows|
      ensures rows[i].totalScore == PlaceSum(heats, e, results, rows[i].player)
    {
      assert sorted[i] in multiset(tally);
      var k :| 0 <= k < |tally| && tally[k] == sorted[i];
    }
  }

  lemma StandingsCover(heats: map<HeatId, Heat>, e: EventId, results: seq<Result>)
    ensures var rows := NewStandings(heats, e, results);
      forall p :: HasScore(heats, e, results, p) <==> exists i :: 0 <= i < |rows| && rows[i].player == p
  {
    var ps := Scorers(heats, e, results);
    var tally := Tally(heats, e, results);
    var sorted := SortBy(tally, TotalOf, IntLe);
    var rows := NewStandings(heats, e, results);
    ScorersExactly(heats, e, results);
    forall p ensures HasScore(heats, e, results, p) <==> exists i :: 0 <= i < |rows| && rows[i].player == p {
      if HasScore(heats, e, results, p) {
        var k :| 0 <= k < |ps| && ps[k] == p;
        assert tally[k] in multiset(sorted);
        var i :| 0 <= i < |sorted| && sorted[i] == tally[k];
        assert rows[i].player == p;
      }
      if exists i :: 0 <= i < |rows| && rows[i].player == p {
        var i :| 0 <= i < |rows| && rows[i].player == p;
        assert sorted[i] in multiset(tally);
        var k :| 0 <= k < |tally| && tally[k] == sorted[i];
        assert ps[k] == p;
      }
    }
  }

  /** Players with equal totals keep the order in which their first counting
      result appeared (the sort is stable). */
  lemma StandingsTieOrder(heats: map<HeatId, Heat>, e: EventId, results: seq<Result>, v: int)
    ensures KeyClass(SortBy(Tally(heats, e, results), TotalOf, IntLe), TotalOf, v)
         == KeyClass(Tally(heats, e, results), TotalOf, v)
  {
    IntLeTotal();
    SortByStable(Tally(heats, e, results), TotalOf, IntLe, v);
  }

  /** `recompute_standings`: replaces the Standing rows of `e` by the ranked
      totals and returns those totals; other events' rows are kept. */
  method RecomputeStandings(db: Db, e: EventId) returns (totals: seq<(PlayerId, int)>)
    requires db.Valid()
    modifies db`standings
    ensures db.Valid()
    ensures totals == SortBy(Tally(db.heats, e, db.results), TotalOf, IntLe)
    ensures db.standings == OtherEvents(old(db.standings), e) + Ranked(e, totals)
  {
    var tally := Aggregate(db.heats, e, db.results);
    totals := SortBy(tally, TotalOf, IntLe);
    var created: seq<Standing> := [];
    var n := 0;
    while n < |totals|
      invariant 0 <= n <= |totals|
      invariant created == Ranked(e, totals)[..n]
    {
      created := created + [Standing(e, totals[n].0, totals[n].1, n + 1, false, "")];
      n := n + 1;
    }
    assert created == Ranked(e, totals);
    StandingsTable(db.heats, e, db.results);
    UniqueByReplace(db.standings, (s: Standing) => s.event != e, created, StandingKey);
    db.standings := OtherEvents(db.standings, e) + created;
  }
}
