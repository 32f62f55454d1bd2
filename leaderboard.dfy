/** The player leaderboard (`players`): one row per player holding the sum
    of their payouts' total amounts over all events and the number of events
    they have a standing in, built in name order and then sorted by total
    descending, name ascending. */
module Leaderboard {
  import opened Collections
  import opened Ordering
  import opened Models
  import opened Text

  datatype Row = Row(id: PlayerId, name: string, total: real, events: nat)

  /** The sum of `total_amount` over the player's payouts (0 without any). */
  function PayoutTotal(payouts: seq<Payout>, p: PlayerId): real {
    if payouts == [] then 0.0
    else
      var last := payouts[|payouts| - 1];
      PayoutTotal(payouts[..|payouts| - 1], p) + (if last.player == p then last.totalAmount else 0.0)
  }

  /** The events the player has a standing in (`Count('event', distinct=True)`). */
  function EventsOf(standings: seq<Standing>, p: PlayerId): set<EventId> {
    set i | 0 <= i < |standings| && standings[i].player == p :: standings[i].event
  }

  function RowOf(payouts: seq<Payout>, standings: seq<Standing>, pl: Player): Row {
    Row(pl.id, pl.name, PayoutTotal(payouts, pl.id), |EventsOf(standings, pl.id)|)
  }

  /** Rows in the order the player loop appends them (players by name). */
  function Unsorted(players: seq<Player>, payouts: seq<Payout>, standings: seq<Standing>): seq<Row> {
    var ps := SortBy(players, PlayerNameOf, StrLe);
    seq(|ps|, i requires 0 <= i < |ps| => RowOf(payouts, standings, ps[i]))
  }

  /** The sort key `(-total, name)`. */
  function RowKey(r: Row): (real, string) { (-r.total, r.name) }

  /** Python's tuple order on `(-total, name)`. */
  function RowLe(a: (real, string), b: (real, string)): bool {
    a.0 < b.0 || (a.0 == b.0 && StrLe(a.1, b.1))
  }

  lemma RowLeTotal()
    ensures TotalOrder(RowLe)
  {
    forall a: (real, string) ensures RowLe(a, a) { StrLeRefl(a.1); }
    forall a: (real, string), b: (real, string) ensures RowLe(a, b) || RowLe(b, a) { StrLeConnected(a.1, b.1); }
    forall a: (real, string), b: (real, string), c: (real, string) | RowLe(a, b) && RowLe(b, c) ensures RowLe(a, c) {
      if a.0 == b.0 == c.0 { StrLeTrans(a.1, b.1, c.1); }
    }
  }

  /** The rows the page shows. */
  function Board(players: seq<Player>, payouts: seq<Payout>, standings: seq<Standing>): (rows: seq<Row>)
    ensures |rows| == |players|
  {
    SortBy(Unsorted(players, payouts, standings), RowKey, RowLe)
  }

  /** A player without payouts has total 0. */
  lemma {:induction false} NoPayoutsZero(payouts: seq<Payout>, p: PlayerId)
    requires forall i :: 0 <= i < |payouts| ==> payouts[i].player != p
    ensures PayoutTotal(payouts, p) == 0.0
  {
    if payouts != [] {
      NoPayoutsZero(payouts[..|payouts| - 1], p);
    }
  }

  lemma EventsSnoc(standings: seq<Standing>, p: PlayerId)
    requires standings != []
    ensures var last := standings[|standings| - 1];
      EventsOf(standings, p)
        == EventsOf(standings[..|standings| - 1], p) + (if last.player == p then {last.event} else {})
  {
    var init, last := standings[..|standings| - 1], standings[|standings| - 1];
    forall ev ensures ev in EventsOf(standings, p) ==> ev in EventsOf(init, p) || (last.player == p && ev == last.event) {
      if ev in EventsOf(standings, p) {
        var i :| 0 <= i < |standings| && standings[i].player == p && standings[i].event == ev;
        if i < |init| { assert init[i] == standings[i]; }
      }
    }
    forall ev | ev in EventsOf(init, p) ensures ev in EventsOf(standings, p) {
      var i :| 0 <= i < |init| && init[i].player == p && init[i].event == ev;
      assert standings[i] == init[i];
    }
  }

  /** The player's standing rows. */
  function RowsOf(standings: seq<Standing>, p: PlayerId): seq<Standing> {
    Filter(standings, (s: Standing) => s.player == p)
  }

  /** With one standing per (event, player), the distinct-event count is
      the number of the player's standing rows. */
  lemma {:induction false} EventsCountRows(standings: seq<Standing>, p: PlayerId)
    requires UniqueBy(standings, StandingKey)
    ensures |EventsOf(standings, p)| == |RowsOf(standings, p)|
  {
    if standings != [] {
      var init, last := standings[..|standings| - 1], standings[|standings| - 1];
      assert standings == init + [last];
      assert UniqueBy(init, StandingKey);
      EventsCountRows(init, p);
      EventsSnoc(standings, p);
      FilterConcat(init, [last], (s: Standing) => s.player == p);
      if last.player == p {
        assert last.event !in EventsOf(init, p) by {
          forall i | 0 <= i < |init| && init[i].player == p ensures init[i].event != last.event {
            assert StandingKey(standings[i]) != StandingKey(standings[|standings| - 1]);
          }
        }
      }
    }
  }

  /** Every leaderboard row is the row of some player. */
  lemma BoardRowsArePlayers(players: seq<Player>, payouts: seq<Payout>, standings: seq<Standing>)
    ensures var rows := Board(players, payouts, standings);
      && |rows| == |players|
      && forall i :: 0 <= i < |rows| ==> exists k :: 0 <= k < |players| && rows[i] == RowOf(payouts, standings, players[k])
  {
    var ps := SortBy(players, PlayerNameOf, StrLe);
    var u := Unsorted(players, payouts, standings);
    var rows := Board(players, payouts, standings);
    forall i | 0 <= i < |rows| ensures exists k :: 0 <= k < |players| && rows[i] == RowOf(payouts, standings, players[k]) {
      assert rows[i] in multiset(u);
      var a :| 0 <= a < |u| && u[a] == rows[i];
      assert u[a] == RowOf(payouts, standings, ps[a]);
      assert ps[a] in multiset(players);
      var k :| 0 <= k < |players| && players[k] == ps[a];
    }
  }

  /** Every player has a row on the leaderboard. */
  lemma BoardHasEveryPlayer(players: seq<Player>, payouts: seq<Payout>, standings: seq<Standing>)
    ensures var rows := Board(players, payouts, standings);
      forall k :: 0 <= k < |players| ==> exists i :: 0 <= i < |rows| && rows[i] == RowOf(payouts, standings, players[k])
  {
    var ps := SortBy(players, PlayerNameOf, StrLe);
    var u := Unsorted(players, payouts, standings);
    var rows := Board(players, payouts, standings);
    forall k | 0 <= k < |players| ensures exists i :: 0 <= i < |rows| && rows[i] == RowOf(payouts, standings, players[k]) {
      assert players[k] in multiset(ps);
      var a :| 0 <= a < |ps| && ps[a] == players[k];
      assert u[a] == RowOf(payouts, standings, ps[a]);
      assert u[a] in multiset(rows);
      var i :| 0 <= i < |rows| && rows[i] == u[a];
    }
  }

  /** The rows are sorted by total descending and then by name ascending;
      player names are unique, so the order is strict. */
  lemma BoardOrder(players: seq<Player>, payouts: seq<Payout>, standings: seq<Standing>)
    requires UniqueBy(players, PlayerNameOf)
    ensures var rows := Board(players, payouts, standings);
      forall i, j :: 0 <= i < j < |rows| ==>
        rows[i].total > rows[j].total
        || (rows[i].total == rows[j].total && StrLe(rows[i].name, rows[j].name) && rows[i].name != rows[j].name)
  {
    var ps := SortBy(players, PlayerNameOf, StrLe);
    var u := Unsorted(players, payouts, standings);
    var rows := Board(players, payouts, standings);
    RowLeTotal();
    SortBySorted(u, RowKey, RowLe);
    SortByUnique(players, PlayerNameOf, StrLe, PlayerNameOf);
    assert UniqueBy(u, RowName) by {
      forall a, b | 0 <= a < b < |u| ensures RowName(u[a]) != RowName(u[b]) {
        assert PlayerNameOf(ps[a]) != PlayerNameOf(ps[b]);
      }
    }
    SortByUnique(u, RowKey, RowLe, RowName);
    forall i, j | 0 <= i < j < |rows|
      ensures rows[i].total > rows[j].total
           || (rows[i].total == rows[j].total && StrLe(rows[i].name, rows[j].name) && rows[i].name != rows[j].name)
    {
      assert RowLe(RowKey(rows[i]), RowKey(rows[j]));
      assert RowName(rows[i]) != RowName(rows[j]);
    }
  }

  function RowName(r: Row): string { r.name }

  /** The `players` view: the row loop over players in name order, then the
      in-place sort by `(-total, name)`. */
  method Leaderboard(db: Db) returns (rows: seq<Row>)
    ensures rows == Board(db.players, db.payouts, db.standings)
  {
    var ps := SortBy(db.players, PlayerNameOf, StrLe);
    rows := [];
    for i := 0 to |ps|
      invariant rows == Unsorted(db.players, db.payouts, db.standings)[..i]
    {
      var p := ps[i];
      rows := rows + [Row(p.id, p.name, PayoutTotal(db.payouts, p.id), |EventsOf(db.standings, p.id)|)];
    }
    assert rows == Unsorted(db.players, db.payouts, db.standings);
    rows := SortBy(rows, RowKey, RowLe);
  }
}
