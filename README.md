# Uma league: a verified model of standings, payouts, grouping, self-reports, room codes and the leaderboard

This project models the core of a small racing league site in Dafny. A league
**event** has several **rounds**. In each round the enrolled players are dealt
into **groups**, and every group races one **heat** per round. The model covers
these parts:

- **Standings.** `recompute_standings` sums each player's places over the
  event's non-NPC results. It ranks the players by ascending total (a lower
  total is better) and replaces the event's standing rows.
- **Payouts.** `compute_payouts_for_event` splits a base pool among the six
  best-ranked standings.
  - Each total is divided by the number of rounds.
  - The scores are normalised to `[0, 1]`.
  - A near-tie is split evenly. Otherwise the pool is split in proportion to
    the weights `exp(-k * z)`.
  - The sixth share is raised to the floor `min6`, taken from the other five
    in proportion to their shares.
  - A final adds a fixed bonus per rank.
- **Grouping.**
  - `seed_round1` deals the shuffled active players round-robin into the
    event's groups, in name order, for round 1.
  - `pair_next_round` deals the players into the round after the last heat's
    round, ordered by (total score, rank).
  - Both replace that round's memberships and create the missing heats.
- **Self-reports.** `report_results` lets a grouped player submit a place
  (1..12) per round and per horse. A settlement or a final has two horses per
  round, every other format one. Each accepted field is upserted into the
  pending self-reports. The first non-blank invalid field stops the scan. The
  form is pre-filled from the player's unverified reports. A place is read as
  Python's `int()` reads it. An optional sign comes first. Then come decimal
  digits of any script (Unicode 15.0, category Nd, such as `３` or `١`), with
  single underscores allowed between digits.
- **Room codes.** `set_room_code` finds the group by name and its heat for the
  round. The host is the member whose lower-cased name sorts first, and only
  the host may store a stripped code of 1..50 characters.
- **Leaderboard.** The `players` page shows, per player, the sum of their
  payouts and the number of events they stand in. It is sorted by total
  descending, then by name.

The database is a class `Models.Db`:
- each table is a `seq` field;
- the heats form a map from id to row, with a counter for fresh ids;
- `Db.Valid` holds the schema's `unique_together` keys.

Operations that write are methods with `modifies` frames naming exactly the
tables they change. Each such method is specified against a pure function of
the old state, and the league's promises are proved as lemmas about those
functions. The source's loops (the aggregation, the dealing, the heat creation,
the field scan, the prefill map, the leaderboard rows) are `while`/`for` loops
with invariants. Sorting is a stable insertion sort `Ordering.SortBy`. It is
proved sorted, a permutation, stable and uniqueness-preserving, and it stands
for Python's stable `sort` and for the database's `order_by`.

## Model

| member | source | states |
|---|---|---|
| Models.Db.constructor | turf/models.py:55-145 | an empty database satisfies every `unique_together` key of the schema |
| Standings.RecomputeStandings | turf/utils.py:7-21 | the returned totals are the per-player place sums sorted ascending; the event's standings are replaced by rows ranked 1..n in that order, other events' rows kept, keys stay unique |
| Standings.Aggregate | turf/utils.py:8-16 | the aggregation loop over results yields exactly the tally of scored (non-NPC, this event's heat) results per player, in first-seen order |
| Standings.PlaceSum | turf/utils.py:11-16 | a player without a scored result has total 0 |
| Standings.ScorersExactly | turf/utils.py:10-16 | each player appears in the tally once, and exactly when they have a scored result |
| Standings.OnlyScoredRowsCount | turf/utils.py:9-12 | NPC rows and other events' results contribute nothing: filtering them out first changes neither sums nor players |
| Standings.StandingsTable | turf/utils.py:17-20 | the new standings have unique keys, rank i+1 at position i, non-decreasing totals, each total is the player's place sum, and a row exists for a player iff they scored |
| Standings.StandingsTieOrder | turf/utils.py:17 | players with equal totals keep their aggregation order (the sort is stable) |
| Payouts.ComputePayouts | turf/utils.py:23-52 | fewer than six standings: no payouts and nothing changes; otherwise the event's payouts are replaced by the six rows built from the base amounts and the extras, other events' payouts kept |
| Payouts.BuildRows | turf/utils.py:47-51 | the row loop builds one payout per top-six standing, in rank order |
| Payouts.PayoutsTable | turf/utils.py:23-52 | the six rows have unique (event, player), belong to the top six in order, carry the base pool, total = base + extra, extra is the final's bonus or 0, and the base amounts sum to the pool |
| Payouts.TopSix | turf/utils.py:24 | at most six rows, each one of the event's standings |
| Payouts.TopSixRows | turf/utils.py:24-26 | the selection holds min(6, n) of the event's standing rows |
| Payouts.TopSixOrdered | turf/utils.py:24 | the selection is in rank order and names each player once |
| Payouts.TopSixBestRanked | turf/utils.py:24 | no standing left out ranks better than one selected |
| Payouts.RoundsDivisor | turf/utils.py:27 | the divisor R = max(1, rounds) is at least 1 |
| Payouts.NormalisedRange | turf/utils.py:29-31 | the normalised scores have minimum 0 and maximum (max-min)/max(max-min, eps) |
| Payouts.NormalisedBounds | turf/utils.py:29-31 | every normalised score lies between 0 and that maximum, both attained |
| Payouts.TieMeansSpreadBelow | turf/utils.py:29-32 | the tie test holds iff the spread of S' is below tie_eps·eps (when tie_eps ≤ 1) |
| Payouts.TieSplitsEvenly | turf/utils.py:32-33 | six equal totals give each player base/6 |
| Payouts.Weights | turf/utils.py:35 | one positive weight per selected standing |
| Payouts.WeightsMono | turf/utils.py:35 | a larger normalised score never gets a larger weight (k ≥ 0, exp monotone) |
| Payouts.SharesSumToPool | turf/utils.py:36-37 | the proportional shares sum to the pool |
| Payouts.SharesFollowTotals | turf/utils.py:28-37 | a lower total never gets a smaller proportional share |
| Payouts.FiveSharesNonzero | turf/utils.py:36-40 | with positive weights and a non-zero pool the first five shares do not sum to 0, so the `or 1.0` fallback is never taken |
| Payouts.Floor | turf/utils.py:38-41 | the sixth share ends at least at `min6` and at least at its old value; a sixth share already at `min6` leaves the shares unchanged |
| Payouts.FloorKeepsSum | turf/utils.py:38-41 | raising the sixth share to min6 keeps the sum, and the sixth share becomes max(its share, min6) |
| Payouts.FloorTakesFromEach | turf/utils.py:38-41 | when the floor applies, each of the first five positive shares strictly shrinks |
| Payouts.FloorKeepsProportions | turf/utils.py:38-41 | when the floor applies, the first five keep their mutual proportions |
| Payouts.BaseAmounts | turf/utils.py:32-41 | one base amount per selected standing |
| Payouts.BaseAmountsSumToPool | turf/utils.py:32-41 | the base amounts (tie or not, floor or not) sum to the pool |
| Payouts.DefaultsAdmissible | turf/utils.py:23 | the default parameters (`eps`, `tie_eps`, `k`, the pool, six final extras) meet every requirement of the payout computation |
| Payouts.Extras | turf/utils.py:43-45 | the bonus list has a value for each of the six ranks |
| Payouts.ExtrasByFormat | turf/utils.py:43-45 | a final's bonus is `final_extras[i]`, every other format's is 0 |
| Payouts.PayoutRowsShape | turf/utils.py:48-51 | each row carries its standing's player, the pool, the base amount, the bonus and total = base + bonus, with unique keys |
| Grouping.SeedRound1 | turf/utils.py:54-68 | no active player: 0 and nothing changes; no group: an error and nothing changes; otherwise round 1's memberships become the round-robin deal of the shuffled players, every group gets a round-1 heat, and the count is returned |
| Grouping.PairNextRound | turf/utils.py:70-86 | the new round number is `NextRound(MaxRound(heats))`, so it exceeds every heat round of the event, and it is at least 2 when the event has no heat or its largest round is not negative; no standings or no groups: an error and nothing changes; otherwise that round's memberships become the deal of the standings' players in (total, rank) order and every group gets a heat |
| Grouping.AssignRound | turf/utils.py:62-65 | the round's old memberships are deleted and the deal appended, other rounds kept, keys unique |
| Grouping.EnsureHeats | turf/utils.py:66-67 | `get_or_create`: existing heats are untouched, each group gets exactly one heat for the round, new heats have an empty room code |
| Grouping.MaxRoundOf | turf/utils.py:71 | None iff the event has no heat; otherwise the largest round of the event's heats; the result equals the specification `MaxRound` |
| Grouping.MaxRoundIs | turf/utils.py:71 | an optional round that is None iff the event has no heat, and otherwise a round of the event that no heat of the event exceeds, is `MaxRound` |
| Grouping.NextRound | turf/utils.py:71-72 | `(max or 1) + 1` exceeds the largest round, and is at least 2 when there is no heat or the largest round is not negative |
| Grouping.NextRoundIsNew | turf/utils.py:71-72 | `(max or 1) + 1` is above every existing round of the event; it is at least 2 when the event has no heat or its largest round is not negative (a largest round below 0 gives a smaller number) |
| Grouping.ActivePlayersDistinct | turf/utils.py:55 | the active enrollments name each player once |
| Grouping.EventGroupsExactly | turf/utils.py:59 | the event's groups in name order are exactly its groups, each once |
| Grouping.Deal | turf/utils.py:81-83 | the deal makes one membership per player (the same deal as round 1, turf/utils.py:63-65) |
| Grouping.PairingOrder | turf/utils.py:73 | every row of the pairing order is one of the event's standings |
| Grouping.DealMemberships | turf/utils.py:63-65 | the deal puts every player into one of the groups for that event and round, once each |
| Grouping.DealBalanced | turf/utils.py:63-65 | group k receives n / G players, plus one when k < n mod G |
| Grouping.PairingOrderSorted | turf/utils.py:73 | the pairing order is a permutation of the event's standings sorted by (total, rank), each player once |
| Reporting.PerRoundHorses | turf/views.py:149-150 | two horses for a settlement or a final, one otherwise |
| Reporting.FieldKeyInjective | turf/views.py:165 | distinct (round, horse) pairs have distinct form field names `r{round}_h{horse}` |
| Reporting.RoundsOfAscending | turf/views.py:158 | the player's membership rounds come in strictly ascending order |
| Reporting.RoundsOfMembers | turf/views.py:158 | a round is listed iff the player has a membership in it |
| Reporting.SlotsShape | turf/views.py:168-169 | the scanned slots are exactly the (round, horse) pairs of the player's rounds with 1 ≤ horse ≤ horses |
| Reporting.SlotsDistinct | turf/views.py:168-169 | each slot is scanned once |
| Reporting.Visit | turf/views.py:170-185 | a blank field changes nothing; a bad field adds no entry; an accepted field appends exactly one entry for that slot, whose place is in 1..12 and is what `int()` reads from the field |
| Reporting.ScanSlots | turf/views.py:167-186 | the scan accepts at most one entry per slot |
| Reporting.ScanAccepts | turf/views.py:168-186 | every accepted entry is a scanned slot whose field parses to an integer in 1..12, and no slot is accepted twice |
| Reporting.ScanRejects | turf/views.py:172-181 | a rejection names a scanned, non-blank field that is not an integer or is out of 1..12 |
| Reporting.ScanComplete | turf/views.py:168-186 | without a rejection, every non-blank scanned field is accepted |
| Reporting.UpsertMeaning | turf/views.py:182-185 | `update_or_create` leaves the new report and every report with another key, nothing else, keys unique |
| Reporting.UpsertAllMeaning | turf/views.py:182-186 | the upserts of a submission keep keys unique, store every entry, keep untouched reports and add nothing else |
| Reporting.SubmissionWrites | turf/views.py:166-188 | a submission stores only places in 1..12 for the player's own rounds and horses, and keeps every other report |
| Reporting.ReportResults | turf/views.py:152-192 | no player or no membership: nothing changes; a GET renders rounds, horses and the prefill; a POST upserts the accepted fields in scan order and reports the rejected field or the update count |
| Reporting.Submit | turf/views.py:166-188 | the POST loop's reports are the upserts of the accepted entries, and it answers the first rejection or the count |
| Reporting.ProgressAccept | turf/views.py:174-186 | the loop invariant survives an accepted field: one more upsert and one more update |
| Reporting.ProgressReject | turf/views.py:174-181 | at a bad field the scan stops with that field's error and the writes made so far |
| Reporting.BuildPrefill | turf/views.py:163-165 | the prefill loop builds the prefill map of the player's unverified reports |
| Reporting.PrefillKeys | turf/views.py:163-165 | the prefill has a key iff an unverified report of this player and event has that field name |
| Reporting.PrefillValues | turf/views.py:163-165 | each such report's field holds its place |
| Rooms.SetRoomCode | turf/views.py:198-233 | answers no group, an ambiguous name, no heat, no player, not a member, the page with the host, not host, empty or too long in that order; only a save changes the database, and it changes exactly the found heat's room code to the stripped code |
| Rooms.SaveRoomCode | turf/views.py:226-227 | only that heat's room code changes, the heat keys stay unique |
| Rooms.SetCodeKeepsKeys | turf/views.py:226-227 | storing a room code keeps every heat's (event, round, group) key |
| Rooms.Members | turf/views.py:206-210 | every listed membership belongs to that event, round and group |
| Rooms.Host | turf/views.py:213 | the host is one of the members |
| Rooms.HostSortsFirst | turf/views.py:206-213 | the host is a member of the group in that round, and no member's lower-cased name sorts before the host's |
| Rooms.MembersExactly | turf/views.py:206-210 | a player is in the ordered member list iff they have a membership for that group and round |
| Rooms.SavedByHostOnly | turf/views.py:213-227 | the player who stores a code is a member whose name sorts first, and the code has 1..50 characters with no surrounding whitespace |
| Leaderboard.Leaderboard | turf/views.py:69-85 | the rows are built over players in name order and then sorted, giving `Board` |
| Leaderboard.Board | turf/views.py:78-84 | one row per player |
| Leaderboard.BoardOrder | turf/views.py:84 | the rows are sorted by total descending, then by name ascending, strictly |
| Leaderboard.BoardRowsArePlayers | turf/views.py:79-83 | one row per player, each the row of some player |
| Leaderboard.BoardHasEveryPlayer | turf/views.py:79-83 | every player has their row |
| Leaderboard.NoPayoutsZero | turf/views.py:70-73 | a player without payouts has total 0 |
| Leaderboard.EventsCountRows | turf/views.py:74-77 | the distinct-event count equals the number of the player's standing rows |
| Text.StripIsTrimmedSlice | turf/views.py:171 | `strip()` returns a slice with only whitespace cut off either end, and no whitespace at its ends |
| Text.Strip | turf/views.py:171 | `strip()` (also of the room code, turf/views.py:219) never lengthens, and its result is empty or starts and ends with non-whitespace |
| Text.Lower | turf/views.py:209 | `Lower` keeps the length, maps A..Z to a..z and leaves every other character alone |
| Text.ParseInt | turf/views.py:174-175 | a parse that succeeds read a text ending in a digit, and a negative value came from a leading `-` |
| Text.ParseOtherScripts | turf/views.py:174-175 | `int()` reads full-width and Arabic-Indic digits, such as `３` as 3 and `-١٢` as -12 |
| Text.ParseDecimal | turf/views.py:174-175 | `int()` reads back every integer's decimal form |
| Text.DecimalInjective | turf/views.py:165 | different round or horse numbers give different decimal texts |
| Ordering.SortBySorted | turf/utils.py:17 | the sort's result is sorted by the key |
| Ordering.SortByStable | turf/utils.py:17 | the sort keeps the input order among equal keys |

## Left out

- The HTTP layer is not modelled. That covers login, redirects, messages, templates, the 404 for a missing event (events are parameters) and the account's player lookup (a parameter `Option<PlayerId>`).
- `random.shuffle` is not modelled. `seed_round1` takes the shuffled list as a parameter, and the parameter must be a permutation of the active players.
- `math.exp` is a parameter assumed positive. Where it matters it is also assumed monotone.
- Payouts.BaseAmounts: floats are exact reals, and `round(x, 2)` to cents (both for base amounts and totals) is not modelled. So the pool sums hold exactly before rounding, not after.
- Payouts.TieSplitsEvenly: only the direction "equal totals give an even split" is proved. Near-ties are characterised by Payouts.TieMeansSpreadBelow instead.
- Payouts.ComputePayouts: the final's `final_extras` must hold at least six values, as the default does. A shorter tuple would make the source raise.
- Standings.RecomputeStandings: the source sums per round and then over rounds. The model sums directly per player, which gives the same totals.
- Leaderboard.Leaderboard: `honors_dict` is not part of this model, and `Player.user` is not modelled.
- The database's order for ties, and for queries without `order_by`, is taken to be table (insertion) order. This applies to:
  - `order_by('rank')`, `order_by('total_score', 'rank')`, `order_by('round_no')` and `order_by(Lower('player__name'))`;
  - the unordered Result query of `recompute_standings` (turf/utils.py:10). Its first-seen order decides the order among equal totals (Standings.StandingsTieOrder) and so which of several tied players make the top six;
  - `order_by('name')` on groups (turf/utils.py:59, 76). Group names are not unique, so equal names keep table order;
  - `order_by('name')` on players (turf/views.py:79). Equal names keep table order before the leaderboard's own sort.
- Text.Lower: it folds only A..Z, and Text.StrLe compares code points. This is SQLite's `LOWER` and binary collation. On other backends that `DATABASE_URL` may select (uma_league/settings.py:36-38), such as PostgreSQL, `Lower` also folds non-ASCII letters and the collation may differ, so the host there can differ from the one the model picks.
- Rooms.NameOf: a membership whose player row is missing gets the name "". The database's foreign key rules this out.
- `Heat.group` is nullable in the schema. The model's heats always have a group, since every heat the core creates has one.
- A group-name lookup that matches several groups raises in the source. The model answers `AmbiguousGroup`.
- Season, Stage, PublishedRank, Announcement and the other views are not part of this model.
