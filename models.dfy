/** The league's records (the Django models) and the database that holds
    them. Each table is a sequence of rows in insertion order, except the
    heats, which other rows point to by id and so form a map from id to row;
    `nextHeat` is the next id the database hands out. `Db.Valid` is the set of
    `unique_together` keys the schema declares. */
module Models {
  import opened Collections

  type PlayerId = nat
  type EventId = nat
  type GroupId = nat
  type HeatId = nat

  /** The outcome of an operation that can fail: a value, or the reason. */
  datatype Outcome<T, E> = Ok(value: T) | Err(error: E)

  /** Event.format's five choices. */
  datatype Format = Prelim | Settlement | Final | Qualifier | FinalPre

  // Field defaults of the schema.
  const DefaultBasePool: int := 600
  const ActiveStatus: string := "active"
  /** Heat.room_code's max_length. */
  const RoomCodeMax: int := 50

  datatype Player = Player(id: PlayerId, name: string)
  datatype Event = Event(id: EventId, format: Format, rounds: int, groupCount: int)
  datatype Group = Group(id: GroupId, event: EventId, name: string)
  datatype Enrollment = Enrollment(event: EventId, player: PlayerId, status: string)
  datatype Heat = Heat(event: EventId, roundNo: int, group: GroupId, roomCode: string)
  datatype Result = Result(heat: HeatId, player: PlayerId, horseNo: int, place: int, isNpc: bool)
  datatype Membership = Membership(event: EventId, roundNo: int, group: GroupId, player: PlayerId)
  datatype Standing = Standing(event: EventId, player: PlayerId, totalScore: int, rank: int,
                               qualified: bool, notes: string)
  datatype Payout = Payout(event: EventId, player: PlayerId, basePool: int, baseAmount: real,
                           extraBonus: real, totalAmount: real)
  datatype SelfReport = SelfReport(event: EventId, player: PlayerId, roundNo: int, horseIndex: int,
                                   place: int, verified: bool)

  function PlayerIdOf(p: Player): PlayerId { p.id }
  function PlayerNameOf(p: Player): string { p.name }
  function GroupIdOf(g: Group): GroupId { g.id }
  function StandingPlayer(s: Standing): PlayerId { s.player }

  // The unique_together keys.
  function EnrollmentKey(x: Enrollment): (EventId, PlayerId) { (x.event, x.player) }
  function HeatKey(h: Heat): (EventId, int, GroupId) { (h.event, h.roundNo, h.group) }
  function ResultKey(r: Result): (HeatId, PlayerId, int) { (r.heat, r.player, r.horseNo) }
  function MembershipKey(m: Membership): (EventId, int, PlayerId) { (m.event, m.roundNo, m.player) }
  function StandingKey(s: Standing): (EventId, PlayerId) { (s.event, s.player) }
  function PayoutKey(p: Payout): (EventId, PlayerId) { (p.event, p.player) }
  function SelfReportKey(r: SelfReport): (EventId, PlayerId, int, int) {
    (r.event, r.player, r.roundNo, r.horseIndex)
  }

  /** No two heats share (event, round_no, group). */
  ghost predicate HeatsUnique(heats: map<HeatId, Heat>) {
    forall a, b :: a in heats && b in heats && a != b ==> HeatKey(heats[a]) != HeatKey(heats[b])
  }

  /** Whether some heat has the key (e, roundNo, g). */
  predicate HasHeat(heats: map<HeatId, Heat>, e: EventId, roundNo: int, g: GroupId) {
    exists id :: id in heats && HeatKey(heats[id]) == (e, roundNo, g)
  }

  class Db {
    var players: seq<Player>
    var groups: seq<Group>
    var enrollments: seq<Enrollment>
    var heats: map<HeatId, Heat>
    var nextHeat: HeatId
    var results: seq<Result>
    var memberships: seq<Membership>
    var standings: seq<Standing>
    var payouts: seq<Payout>
    var selfReports: seq<SelfReport>

    /** The keys the schema declares unique, and fresh heat ids above every used one. */
    ghost predicate Valid()
      reads this
    {
      && UniqueBy(players, PlayerIdOf)
      && UniqueBy(players, PlayerNameOf)
      && UniqueBy(groups, GroupIdOf)
      && UniqueBy(enrollments, EnrollmentKey)
      && HeatsUnique(heats)
      && (forall id :: id in heats ==> id < nextHeat)
      && UniqueBy(results, ResultKey)
      && UniqueBy(memberships, MembershipKey)
      && UniqueBy(standings, StandingKey)
      && UniqueBy(payouts, PayoutKey)
      && UniqueBy(selfReports, SelfReportKey)
    }

    /** An empty database. */
    constructor ()
      ensures Valid()
      ensures players == [] && groups == [] && enrollments == [] && heats == map[]
      ensures results == [] && memberships == [] && standings == [] && payouts == []
      ensures selfReports == []
    {
      players, groups, enrollments := [], [], [];
      heats, nextHeat := map[], 0;
      results, memberships, standings, payouts, selfReports := [], [], [], [], [];
    }
  }
}
