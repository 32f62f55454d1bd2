/** Self-reported placings (`report_results`): a grouped player submits one
    form field `r{round}_h{horse}` per round they are in and per horse the
    format allows. The fields are read in order; blank ones are skipped, the
    first one that is not an integer in 1..12 stops the submission, and each
    accepted one upserts the player's SelfReport for that round and horse as
    unverified. Reports written before a rejected field stay written. */
module Reporting {
  import opened Collections
  import opened Ordering
  import opened Models
  import opened Text

  /** Horses each player runs per round (`_per_round_horses`). */
  function PerRoundHorses(f: Format): (n: int)
    ensures n == 1 || n == 2
    ensures n == 2 <==> f == Settlement || f == Final
  {
    if f in {Settlement, Final} then 2 else 1
  }

  /** The form field name for a round and a horse. */
  function FieldKey(roundNo: int, horse: int): string {
    "r" + Decimal(roundNo) + "_h" + Decimal(horse)
  }

  /** The position of the first '_' in `s`, or |s|. */
  function UnderscoreAt(s: string): (n: nat)
    ensures n <= |s|
  {
    if s == [] || s[0] == '_' then 0 else 1 + UnderscoreAt(s[1..])
  }

  lemma {:induction false} UnderscoreAfter(x: string, u: string)
    requires forall i :: 0 <= i < |x| ==> x[i] != '_'
    ensures UnderscoreAt(x + "_" + u) == |x|
  {
    if x != [] {
      assert (x + "_" + u)[1..] == x[1..] + "_" + u;
      UnderscoreAfter(x[1..], u);
    }
  }

  /** A field name splits back into its round and horse texts at the first
      '_', since a round's text has none. */
  lemma KeyParts(a: string, b: string, c: string, d: string)
    requires forall i :: 0 <= i < |a| ==> a[i] != '_'
    requires forall i :: 0 <= i < |c| ==> c[i] != '_'
    requires "r" + a + "_h" + b == "r" + c + "_h" + d
    ensures a == c && b == d
  {
    var w := "r" + a + "_h" + b;
    assert w[1..] == a + "_" + ("h" + b);
    assert w[1..] == c + "_" + ("h" + d);
    UnderscoreAfter(a, "h" + b);
    UnderscoreAfter(c, "h" + d);
    assert a == w[1..][..|a|] == c;
    assert "h" + b == w[1..][|a| + 1..] == "h" + d;
    assert b == ("h" + b)[1..] == d;
  }

  /** Different (round, horse) pairs name different fields, so neither the
      form nor the prefill map ever conflates two slots. */
  lemma FieldKeyInjective(r1: int, h1: int, r2: int, h2: int)
    requires FieldKey(r1, h1) == FieldKey(r2, h2)
    ensures r1 == r2 && h1 == h2
  {
    KeyParts(Decimal(r1), Decimal(h1), Decimal(r2), Decimal(h2));
    DecimalInjective(r1, r2);
    DecimalInjective(h1, h2);
  }

  function MembershipRound(m: Membership): int { m.roundNo }

  function MineIn(e: EventId, p: PlayerId): Membership -> bool {
    (m: Membership) => m.event == e && m.player == p
  }

  /** The rounds `p` has a group in for event `e`, ascending (`order_by("round_no")`). */
  function RoundsOf(ms: seq<Membership>, e: EventId, p: PlayerId): seq<int> {
    var mine := SortBy(Filter(ms, MineIn(e, p)), MembershipRound, IntLe);
    seq(|mine|, i requires 0 <= i < |mine| => mine[i].roundNo)
  }

  lemma SortedMine(ms: seq<Membership>, e: EventId, p: PlayerId, mine: seq<Membership>)
    requires mine == SortBy(Filter(ms, MineIn(e, p)), MembershipRound, IntLe)
    ensures forall i :: 0 <= i < |mine| ==> mine[i].event == e && mine[i].player == p
  {
    var f := Filter(ms, MineIn(e, p));
    forall i | 0 <= i < |mine| ensures mine[i].event == e && mine[i].player == p {
      assert mine[i] in multiset(f);
      var k :| 0 <= k < |f| && f[k] == mine[i];
      assert MineIn(e, p)(f[k]);
    }
  }

  /** One membership per (event, round, player): the player's rounds are
      strictly ascending, hence distinct. */
  lemma RoundsOfAscending(ms: seq<Membership>, e: EventId, p: PlayerId)
    requires UniqueBy(ms, MembershipKey)
    ensures var rs := RoundsOf(ms, e, p);
      && (forall i, j :: 0 <= i < j < |rs| ==> rs[i] < rs[j])
      && Distinct(rs)
  {
    var f := Filter(ms, MineIn(e, p));
    var mine := SortBy(f, MembershipRound, IntLe);
    var rs := RoundsOf(ms, e, p);
    IntLeTotal();
    SortBySorted(f, MembershipRound, IntLe);
    UniqueByFilter(ms, MineIn(e, p), MembershipKey);
    SortByUnique(f, MembershipRound, IntLe, MembershipKey);
    SortedMine(ms, e, p, mine);
    forall i, j | 0 <= i < j < |rs| ensures rs[i] < rs[j] {
      assert MembershipKey(mine[i]) != MembershipKey(mine[j]);
      assert mine[i].event == mine[j].event && mine[i].player == mine[j].player;
      assert mine[i].roundNo != mine[j].roundNo;
      assert IntLe(MembershipRound(mine[i]), MembershipRound(mine[j]));
      assert rs[i] == mine[i].roundNo && rs[j] == mine[j].roundNo;
    }
  }

  /** The player's rounds are exactly the rounds of their memberships in the event. */
  lemma RoundsOfMembers(ms: seq<Membership>, e: EventId, p: PlayerId, r: int)
    ensures r in RoundsOf(ms, e, p) <==>
      exists k :: 0 <= k < |ms| && ms[k].event == e && ms[k].player == p && ms[k].roundNo == r
  {
    var f := Filter(ms, MineIn(e, p));
    var mine := SortBy(f, MembershipRound, IntLe);
    var rs := RoundsOf(ms, e, p);
    if r in rs {
      var i :| 0 <= i < |rs| && rs[i] == r;
      assert mine[i] in multiset(f);
      assert mine[i] in ms;
      var k :| 0 <= k < |ms| && ms[k] == mine[i];
    }
    if exists k :: 0 <= k < |ms| && ms[k].event == e && ms[k].player == p && ms[k].roundNo == r {
      var k :| 0 <= k < |ms| && ms[k].event == e && ms[k].player == p && ms[k].roundNo == r;
      assert ms[k] in f;
      assert ms[k] in multiset(mine);
      var i :| 0 <= i < |mine| && mine[i] == ms[k];
      assert rs[i] == r;
    }
  }

  // ---- The submission scan ----

  /** A (round, horse) slot of the form. */
  type Slot = (int, int)

  /** Horses 1..n of one round. */
  function RoundSlots(r: int, n: int): (s: seq<Slot>)
    ensures |s| == if n < 0 then 0 else n
  {
    seq(if n < 0 then 0 else n, h requires 0 <= h => (r, h + 1))
  }

  lemma RoundSlotsSnoc(r: int, h: int)
    requires h >= 1
    ensures RoundSlots(r, h) == RoundSlots(r, h - 1) + [(r, h)]
  {
  }

  /** The slots in the order the nested loops visit them. */
  function Slots(rounds: seq<int>, horses: int): seq<Slot> {
    if rounds == [] then []
    else Slots(rounds[..|rounds| - 1], horses) + RoundSlots(rounds[|rounds| - 1], horses)
  }

  lemma {:induction false} SlotsShape(rounds: seq<int>, horses: int)
    ensures forall x: Slot :: x in Slots(rounds, horses) <==> x.0 in rounds && 1 <= x.1 <= horses
  {
    if rounds != [] {
      var init := rounds[..|rounds| - 1];
      SlotsShape(init, horses);
      assert rounds == init + [rounds[|rounds| - 1]];
      forall x: Slot | x.0 in rounds && 1 <= x.1 <= horses ensures x in Slots(rounds, horses) {
        if x.0 !in init {
          assert RoundSlots(rounds[|rounds| - 1], horses)[x.1 - 1] == x;
        }
      }
    }
  }

  /** Distinct rounds give distinct slots. */
  lemma {:induction false} SlotsDistinct(rounds: seq<int>, horses: int)
    requires Distinct(rounds)
    ensures Distinct(Slots(rounds, horses))
  {
    if rounds != [] {
      var init, last := rounds[..|rounds| - 1], rounds[|rounds| - 1];
      SlotsDistinct(init, horses);
      SlotsShape(init, horses);
      var a, b := Slots(init, horses), RoundSlots(last, horses);
      assert last !in init by {
        forall k | 0 <= k < |init| ensures init[k] != last {
          assert rounds[k] == init[k];
        }
      }
      var s := a + b;
      forall i, j | 0 <= i < j < |s| ensures s[i] != s[j] {
        if j >= |a| && i < |a| {
          assert s[i] in a;
        }
      }
    }
  }

  lemma SlotsSnoc(rounds: seq<int>, horses: int, k: int)
    requires 0 <= k < |rounds|
    ensures Slots(rounds[..k + 1], horses) == Slots(rounds[..k], horses) + RoundSlots(rounds[k], horses)
  {
    assert rounds[..k + 1][..k] == rounds[..k];
  }

  /** The slots read up to horse h of the k-th round are a prefix of all slots. */
  lemma SlotsPrefix(rounds: seq<int>, horses: int, k: int, h: int)
    requires 0 <= k < |rounds| && 1 <= h <= horses
    ensures Slots(rounds[..k], horses) + RoundSlots(rounds[k], h - 1) + [(rounds[k], h)] <= Slots(rounds, horses)
  {
    SlotsPrefixRounds(rounds, horses, k + 1);
    SlotsSnoc(rounds, horses, k);
    RoundSlotsSnoc(rounds[k], h);
    var a, b := Slots(rounds[..k], horses), RoundSlots(rounds[k], horses);
    assert RoundSlots(rounds[k], h) <= b;
    assert a + RoundSlots(rounds[k], h) <= a + b;
  }

  lemma {:induction false} SlotsPrefixRounds(rounds: seq<int>, horses: int, k: int)
    requires 0 <= k <= |rounds|
    ensures Slots(rounds[..k], horses) <= Slots(rounds, horses)
  {
    if k < |rounds| {
      SlotsPrefixRounds(rounds[..|rounds| - 1], horses, k);
      assert rounds[..|rounds| - 1][..k] == rounds[..k];
    } else {
      assert rounds[..k] == rounds;
    }
  }

  /** Why a submission was stopped, and at which slot. */
  datatype Rejection = NotAnInteger(roundNo: int, horse: int) | OutOfRange(roundNo: int, horse: int)

  /** A placing the submission accepts. */
  datatype Entry = Entry(roundNo: int, horse: int, place: int)

  /** The entries accepted so far, and the rejection if one stopped the scan. */
  datatype Scan = Scan(accepted: seq<Entry>, rejected: Option<Rejection>)

  /** `request.POST.get(key, "").strip()` for a slot. */
  function FieldText(post: map<string, string>): Slot -> string {
    (x: Slot) => Strip(Get(post, FieldKey(x.0, x.1)))
  }

  predicate ValidPlace(n: int) { 1 <= n <= 12 }

  /** What reading one more slot, whose field holds `text`, does to a scan
      that has not stopped. */
  function Visit(sc: Scan, text: string, x: Slot): (r: Scan)
    ensures text == [] ==> r == sc
    ensures text != [] && r.rejected.Some? ==> r.accepted == sc.accepted
    ensures text != [] && r.rejected == None ==>
      var n := |sc.accepted|;
      && |r.accepted| == n + 1 && r.accepted[..n] == sc.accepted
      && r.accepted[n].roundNo == x.0 && r.accepted[n].horse == x.1
      && ValidPlace(r.accepted[n].place) && ParseInt(text) == Some(r.accepted[n].place)
  {
    if text == [] then sc
    else match ParseInt(text)
      case None => Scan(sc.accepted, Some(NotAnInteger(x.0, x.1)))
      case Some(place) =>
        if ValidPlace(place) then Scan(sc.accepted + [Entry(x.0, x.1, place)], None)
        else Scan(sc.accepted, Some(OutOfRange(x.0, x.1)))
  }

  /** The scan of the slots in order, `read` giving each slot's stripped
      field; it stops at the first rejection. */
  function ScanSlots(slots: seq<Slot>, read: Slot -> string): (sc: Scan)
    ensures |sc.accepted| <= |slots|
  {
    if slots == [] then Scan([], None)
    else
      var prev := ScanSlots(slots[..|slots| - 1], read);
      var x := slots[|slots| - 1];
      if prev.rejected.Some? then prev else Visit(prev, read(x), x)
  }

  lemma ScanSnoc(slots: seq<Slot>, x: Slot, read: Slot -> string)
    ensures ScanSlots(slots + [x], read)
         == (var prev := ScanSlots(slots, read); if prev.rejected.Some? then prev else Visit(prev, read(x), x))
  {
    assert (slots + [x])[..|slots|] == slots;
  }

  /** Once a field is rejected, later fields are never read. */
  lemma {:induction false} ScanStops(slots: seq<Slot>, pre: seq<Slot>, read: Slot -> string)
    requires pre <= slots && ScanSlots(pre, read).rejected.Some?
    ensures ScanSlots(slots, read) == ScanSlots(pre, read)
  {
    if |slots| > |pre| {
      var init := slots[..|slots| - 1];
      assert pre <= init;
      ScanStops(init, pre, read);
    } else {
      assert slots == pre;
    }
  }

  function EntrySlot(x: Entry): Slot { (x.roundNo, x.horse) }

  /** Each accepted entry is a non-blank field of one of the slots that
      holds an integer in 1..12, and no slot is accepted twice. */
  lemma {:induction false} ScanAccepts(slots: seq<Slot>, read: Slot -> string)
    requires Distinct(slots)
    ensures var acc := ScanSlots(slots, read).accepted;
      && UniqueBy(acc, EntrySlot)
      && (forall i :: 0 <= i < |acc| ==>
            EntrySlot(acc[i]) in slots && ValidPlace(acc[i].place)
            && ParseInt(read(EntrySlot(acc[i]))) == Some(acc[i].place))
  {
    if slots != [] {
      var init, x := slots[..|slots| - 1], slots[|slots| - 1];
      assert slots == init + [x];
      assert Distinct(init);
      ScanAccepts(init, read);
      var prev := ScanSlots(init, read).accepted;
      var acc := ScanSlots(slots, read).accepted;
      if acc != prev {
        assert acc == prev + [Entry(x.0, x.1, acc[|acc| - 1].place)];
        forall i, j | 0 <= i < j < |acc| ensures EntrySlot(acc[i]) != EntrySlot(acc[j]) {
          if j == |acc| - 1 {
            var k :| 0 <= k < |init| && init[k] == EntrySlot(prev[i]);
            assert slots[k] == init[k];
          } else {
            assert acc[i] == prev[i] && acc[j] == prev[j];
          }
        }
        forall i | 0 <= i < |acc| ensures EntrySlot(acc[i]) in slots {
          if i < |prev| { assert acc[i] == prev[i]; }
        }
      }
    }
  }

  /** A rejection names a non-blank field of one of the slots that is not
      an integer, or is an integer outside 1..12. */
  lemma {:induction false} ScanRejects(slots: seq<Slot>, read: Slot -> string)
    ensures var sc := ScanSlots(slots, read);
      sc.rejected.Some? ==>
        var f := sc.rejected.value;
        var text := read((f.roundNo, f.horse));
        && (f.roundNo, f.horse) in slots
        && text != []
        && (f.NotAnInteger? ==> ParseInt(text) == None)
        && (f.OutOfRange? ==> ParseInt(text).Some? && !ValidPlace(ParseInt(text).value))
  {
    if slots != [] {
      var init := slots[..|slots| - 1];
      ScanRejects(init, read);
      assert slots == init + [slots[|slots| - 1]];
    }
  }

  /** A scan that no field stopped accepted every non-blank field. */
  lemma {:induction false} ScanComplete(slots: seq<Slot>, read: Slot -> string, s: Slot)
    requires ScanSlots(slots, read).rejected == None
    requires s in slots && read(s) != []
    ensures exists i :: 0 <= i < |ScanSlots(slots, read).accepted| && EntrySlot(ScanSlots(slots, read).accepted[i]) == s
  {
    var init, x := slots[..|slots| - 1], slots[|slots| - 1];
    assert slots == init + [x];
    var prev := ScanSlots(init, read);
    var acc := ScanSlots(slots, read).accepted;
    if s == x {
      assert EntrySlot(acc[|acc| - 1]) == s;
    } else {
      assert s in init;
      ScanComplete(init, read, s);
      var i :| 0 <= i < |prev.accepted| && EntrySlot(prev.accepted[i]) == s;
      assert acc[i] == prev.accepted[i];
    }
  }

  // ---- The SelfReport upsert ----

  /** `SelfReport.objects.update_or_create`: the row with `sr`'s key is
      replaced in place, or `sr` is added at the end when there is none. */
  function Upsert(reports: seq<SelfReport>, sr: SelfReport): seq<SelfReport> {
    if exists i :: 0 <= i < |reports| && SelfReportKey(reports[i]) == SelfReportKey(sr) then
      seq(|reports|, i requires 0 <= i < |reports| =>
        if SelfReportKey(reports[i]) == SelfReportKey(sr) then sr else reports[i])
    else reports + [sr]
  }

  /** After an upsert the key stays unique, `sr` is the one row with its
      key, every row with another key is kept, and nothing else is added. */
  lemma UpsertMeaning(reports: seq<SelfReport>, sr: SelfReport)
    requires UniqueBy(reports, SelfReportKey)
    ensures var t := Upsert(reports, sr);
      && UniqueBy(t, SelfReportKey)
      && sr in t
      && (forall x :: x in reports && SelfReportKey(x) != SelfReportKey(sr) ==> x in t)
      && (forall y :: y in t ==> y == sr || (y in reports && SelfReportKey(y) != SelfReportKey(sr)))
  {
    var t := Upsert(reports, sr);
    if exists i :: 0 <= i < |reports| && SelfReportKey(reports[i]) == SelfReportKey(sr) {
      var i :| 0 <= i < |reports| && SelfReportKey(reports[i]) == SelfReportKey(sr);
      assert t[i] == sr;
      forall x | x in reports && SelfReportKey(x) != SelfReportKey(sr) ensures x in t {
        var k :| 0 <= k < |reports| && reports[k] == x;
        assert t[k] == x;
      }
      forall a, b | 0 <= a < b < |t| ensures SelfReportKey(t[a]) != SelfReportKey(t[b]) {
        assert SelfReportKey(reports[a]) != SelfReportKey(reports[b]);
      }
    } else {
      forall a, b | 0 <= a < b < |t| ensures SelfReportKey(t[a]) != SelfReportKey(t[b]) {
        if b == |reports| {
          assert t[a] == reports[a];
        }
      }
    }
  }

  function EntryReport(e: EventId, p: PlayerId, x: Entry): SelfReport {
    SelfReport(e, p, x.roundNo, x.horse, x.place, false)
  }

  /** The upserts of the accepted entries, in order. */
  function UpsertAll(reports: seq<SelfReport>, e: EventId, p: PlayerId, entries: seq<Entry>): seq<SelfReport> {
    if entries == [] then reports
    else Upsert(UpsertAll(reports, e, p, entries[..|entries| - 1]), EntryReport(e, p, entries[|entries| - 1]))
  }

  /** After the upserts of entries for distinct slots, the key is still
      unique, each entry is stored as an unverified report of that player,
      the rows of untouched keys are kept, and no other row appears. */
  lemma {:induction false} UpsertAllMeaning(reports: seq<SelfReport>, e: EventId, p: PlayerId, entries: seq<Entry>)
    requires UniqueBy(reports, SelfReportKey) && UniqueBy(entries, EntrySlot)
    ensures var t := UpsertAll(reports, e, p, entries);
      && UniqueBy(t, SelfReportKey)
      && (forall i :: 0 <= i < |entries| ==> EntryReport(e, p, entries[i]) in t)
      && (forall x :: x in reports && (forall i :: 0 <= i < |entries| ==> SelfReportKey(x) != SelfReportKey(EntryReport(e, p, entries[i]))) ==> x in t)
      && (forall y :: y in t ==> y in reports || exists i :: 0 <= i < |entries| && y == EntryReport(e, p, entries[i]))
  {
    if entries != [] {
      var init, last := entries[..|entries| - 1], entries[|entries| - 1];
      assert UniqueBy(init, EntrySlot);
      UpsertAllMeaning(reports, e, p, init);
      var mid := UpsertAll(reports, e, p, init);
      var sr := EntryReport(e, p, last);
      UpsertMeaning(mid, sr);
      forall i | 0 <= i < |entries| ensures EntryReport(e, p, entries[i]) in Upsert(mid, sr) {
        if i < |init| {
          assert entries[i] == init[i];
          assert EntrySlot(init[i]) != EntrySlot(last);
        }
      }
      forall y | y in Upsert(mid, sr) ensures y in reports || exists i :: 0 <= i < |entries| && y == EntryReport(e, p, entries[i]) {
        if y != sr && y !in reports {
          var i :| 0 <= i < |init| && y == EntryReport(e, p, init[i]);
          assert entries[i] == init[i];
        }
      }
    }
  }

  /** A submission for a grouped player: every accepted entry is for a
      round the player is grouped in and a horse the format allows, holds a
      place in 1..12, and is stored as an unverified report of that player;
      the key stays unique and rows for other keys are kept. */
  lemma SubmissionWrites(ms: seq<Membership>, reports: seq<SelfReport>, e: EventId, p: PlayerId,
                         horses: int, read: Slot -> string)
    requires UniqueBy(ms, MembershipKey) && UniqueBy(reports, SelfReportKey)
    ensures var acc := ScanSlots(Slots(RoundsOf(ms, e, p), horses), read).accepted;
      var t := UpsertAll(reports, e, p, acc);
      && UniqueBy(t, SelfReportKey)
      && (forall i :: 0 <= i < |acc| ==>
            && acc[i].roundNo in RoundsOf(ms, e, p) && 1 <= acc[i].horse <= horses
            && ValidPlace(acc[i].place)
            && EntryReport(e, p, acc[i]) in t)
      && (forall x :: x in reports && (forall i :: 0 <= i < |acc| ==> SelfReportKey(x) != SelfReportKey(EntryReport(e, p, acc[i]))) ==> x in t)
  {
    var rounds := RoundsOf(ms, e, p);
    var slots := Slots(rounds, horses);
    RoundsOfAscending(ms, e, p);
    SlotsDistinct(rounds, horses);
    SlotsShape(rounds, horses);
    ScanAccepts(slots, read);
    UpsertAllMeaning(reports, e, p, ScanSlots(slots, read).accepted);
  }

  // ---- The prefill map ----

  predicate PrefillRow(sr: SelfReport, e: EventId, p: PlayerId) {
    sr.event == e && sr.player == p && !sr.verified
  }

  /** The prefill map, later rows overwriting earlier ones. */
  function Prefill(reports: seq<SelfReport>, e: EventId, p: PlayerId): map<string, int> {
    if reports == [] then map[]
    else
      var before := Prefill(reports[..|reports| - 1], e, p);
      var sr := reports[|reports| - 1];
      if PrefillRow(sr, e, p) then before[FieldKey(sr.roundNo, sr.horseIndex) := sr.place] else before
  }

  /** Some unverified report of `p` in `e` has the field name `k`. */
  ghost predicate PrefillHas(reports: seq<SelfReport>, e: EventId, p: PlayerId, k: string) {
    exists i :: 0 <= i < |reports| && NamesField(reports[i], e, p, k)
  }

  /** `sr` is an unverified report of `p` in `e` whose field name is `k`. */
  predicate NamesField(sr: SelfReport, e: EventId, p: PlayerId, k: string) {
    PrefillRow(sr, e, p) && k == FieldKey(sr.roundNo, sr.horseIndex)
  }

  /** The prefill map has a key for exactly the player's unverified reports
      in this event. */
  lemma {:induction false} PrefillKeys(reports: seq<SelfReport>, e: EventId, p: PlayerId)
    ensures forall k :: k in Prefill(reports, e, p) <==> PrefillHas(reports, e, p, k)
  {
    if reports != [] {
      var init := reports[..|reports| - 1];
      PrefillKeys(init, e, p);
      PrefillHasSnoc(reports, e, p);
    }
  }

  lemma PrefillHasSnoc(reports: seq<SelfReport>, e: EventId, p: PlayerId)
    requires reports != []
    ensures var init, sr := reports[..|reports| - 1], reports[|reports| - 1];
      forall k :: PrefillHas(reports, e, p, k) <==>
        PrefillHas(init, e, p, k) || (PrefillRow(sr, e, p) && k == FieldKey(sr.roundNo, sr.horseIndex))
  {
    forall k ensures PrefillHas(reports, e, p, k) ==> PrefillHasInitOrLast(reports, e, p, k) {
      if PrefillHas(reports, e, p, k) {
        PrefillHasSplit(reports, e, p, k);
      }
    }
    forall k | PrefillHasInitOrLast(reports, e, p, k) ensures PrefillHas(reports, e, p, k) {
      PrefillHasGrow(reports, e, p, k);
    }
  }

  /** `k` names an unverified report of `p` among all but the last report, or the last one. */
  ghost predicate PrefillHasInitOrLast(reports: seq<SelfReport>, e: EventId, p: PlayerId, k: string)
    requires reports != []
  {
    PrefillHas(reports[..|reports| - 1], e, p, k) || NamesField(reports[|reports| - 1], e, p, k)
  }

  lemma PrefillHasSplit(reports: seq<SelfReport>, e: EventId, p: PlayerId, k: string)
    requires reports != [] && PrefillHas(reports, e, p, k)
    ensures PrefillHasInitOrLast(reports, e, p, k)
  {
    var init := reports[..|reports| - 1];
    var i :| 0 <= i < |reports| && NamesField(reports[i], e, p, k);
    if i < |init| {
      assert reports[i] == init[i];
      assert PrefillHas(init, e, p, k);
    } else {
      assert i == |reports| - 1;
    }
  }

  lemma PrefillHasGrow(reports: seq<SelfReport>, e: EventId, p: PlayerId, k: string)
    requires reports != [] && PrefillHasInitOrLast(reports, e, p, k)
    ensures PrefillHas(reports, e, p, k)
  {
    var init := reports[..|reports| - 1];
    if PrefillHas(init, e, p, k) {
      var i :| 0 <= i < |init| && NamesField(init[i], e, p, k);
      assert reports[i] == init[i];
    } else {
      assert reports[|reports| - 1] == reports[|reports| - 1];
    }
  }

  /** With one report per (event, player, round, horse), each unverified
      report of the player maps its field name to its own place. */
  lemma {:induction false} PrefillValues(reports: seq<SelfReport>, e: EventId, p: PlayerId)
    requires UniqueBy(reports, SelfReportKey)
    ensures forall i :: 0 <= i < |reports| && PrefillRow(reports[i], e, p) ==>
      var k := FieldKey(reports[i].roundNo, reports[i].horseIndex);
      k in Prefill(reports, e, p) && Prefill(reports, e, p)[k] == reports[i].place
  {
    if reports != [] {
      var init, sr := reports[..|reports| - 1], reports[|reports| - 1];
      assert UniqueBy(init, SelfReportKey);
      PrefillValues(init, e, p);
      var m := Prefill(reports, e, p);
      forall i | 0 <= i < |reports| - 1 && PrefillRow(reports[i], e, p)
        ensures var k := FieldKey(reports[i].roundNo, reports[i].horseIndex); k in m && m[k] == reports[i].place
      {
        assert reports[i] == init[i];
        if PrefillRow(sr, e, p) && FieldKey(sr.roundNo, sr.horseIndex) == FieldKey(init[i].roundNo, init[i].horseIndex) {
          FieldKeyInjective(sr.roundNo, sr.horseIndex, init[i].roundNo, init[i].horseIndex);
          assert false;
        }
      }
    }
  }

  /** The prefill loop over the player's unverified reports. */
  method BuildPrefill(reports: seq<SelfReport>, e: EventId, p: PlayerId) returns (prefill: map<string, int>)
    ensures prefill == Prefill(reports, e, p)
  {
    prefill := map[];
    for i := 0 to |reports|
      invariant prefill == Prefill(reports[..i], e, p)
    {
      assert reports[..i + 1][..i] == reports[..i];
      var sr := reports[i];
      if PrefillRow(sr, e, p) {
        prefill := prefill[FieldKey(sr.roundNo, sr.horseIndex) := sr.place];
      }
    }
    assert reports[..|reports|] == reports;
  }

  // ---- The view ----

  /** What `report_results` answers. */
  datatype ReportOutcome =
    | NoPlayer                                               // the account has no player
    | NotGrouped                                             // no membership in the event
    | Form(rounds: seq<int>, horses: int, prefill: map<string, int>)
    | Rejected(why: Rejection)
    | Submitted(updates: nat)

  /** `report_results` for the account's player (None when it has none);
      `post` is the submitted form, None for a GET. */
  method ReportResults(db: Db, ev: Event, player: Option<PlayerId>, post: Option<map<string, string>>)
    returns (out: ReportOutcome)
    requires db.Valid()
    modifies db`selfReports
    ensures db.Valid()
    ensures player == None ==> out == NoPlayer && db.selfReports == old(db.selfReports)
    ensures player.Some? ==>
      var rounds, horses := RoundsOf(db.memberships, ev.id, player.value), PerRoundHorses(ev.format);
      if rounds == [] then out == NotGrouped && db.selfReports == old(db.selfReports)
      else if post == None then
        out == Form(rounds, horses, Prefill(old(db.selfReports), ev.id, player.value))
        && db.selfReports == old(db.selfReports)
      else
        var sc := ScanSlots(Slots(rounds, horses), FieldText(post.value));
        && db.selfReports == UpsertAll(old(db.selfReports), ev.id, player.value, sc.accepted)
        && out == (if sc.rejected.Some? then Rejected(sc.rejected.value) else Submitted(|sc.accepted|))
  {
    if player == None {
      return NoPlayer;
    }
    var p := player.value;
    var rounds := RoundsOf(db.memberships, ev.id, p);
    if rounds == [] {
      return NotGrouped;
    }
    var horses := PerRoundHorses(ev.format);
    var prefill := BuildPrefill(db.selfReports, ev.id, p);
    if post == None {
      return Form(rounds, horses, prefill);
    }
    out := Submit(db, ev.id, p, rounds, horses, FieldText(post.value));
  }

  /** The POST branch: the nested loops over the player's rounds and the
      horses, upserting each accepted field until one is rejected. */
  method Submit(db: Db, e: EventId, p: PlayerId, rounds: seq<int>, horses: int, read: Slot -> string)
    returns (out: ReportOutcome)
    requires db.Valid() && 0 <= horses
    modifies db`selfReports
    ensures db.Valid()
    ensures var sc := ScanSlots(Slots(rounds, horses), read);
      && db.selfReports == UpsertAll(old(db.selfReports), e, p, sc.accepted)
      && out == (if sc.rejected.Some? then Rejected(sc.rejected.value) else Submitted(|sc.accepted|))
  {
    var updates := 0;
    ghost var done: seq<Slot> := [];
    for k := 0 to |rounds|
      invariant done == Slots(rounds[..k], horses)
      invariant Progress(db.selfReports, old(db.selfReports), e, p, done, read, updates)
      invariant db.Valid()
    {
      for h := 1 to horses + 1
        invariant done == Slots(rounds[..k], horses) + RoundSlots(rounds[k], h - 1)
        invariant Progress(db.selfReports, old(db.selfReports), e, p, done, read, updates)
        invariant db.Valid()
      {
        var x := (rounds[k], h);
        RoundSlotsSnoc(rounds[k], h);
        SlotsPrefix(rounds, horses, k, h);
        var text := read(x);
        if text == [] {
          ProgressBlank(db.selfReports, old(db.selfReports), e, p, done, read, updates, x);
        } else {
          var parsed := ParseInt(text);
          if parsed == None || !ValidPlace(parsed.value) {
            var why := if parsed == None then NotAnInteger(x.0, x.1) else OutOfRange(x.0, x.1);
            ProgressReject(db.selfReports, old(db.selfReports), e, p, done, read, updates, x);
            ScanStops(Slots(rounds, horses), done + [x], read);
            return Rejected(why);
          }
          var sr := SelfReport(e, p, x.0, x.1, parsed.value, false);
          UpsertMeaning(db.selfReports, sr);
          ProgressAccept(db.selfReports, old(db.selfReports), e, p, done, read, updates, x);
          db.selfReports := Upsert(db.selfReports, sr);
          updates := updates + 1;
        }
        done := done + [x];
      }
      SlotsSnoc(rounds, horses, k);
    }
    assert rounds[..|rounds|] == rounds;
    return Submitted(updates);
  }

  /** The loop state after reading the slots `done` without a rejection:
      `updates` upserts, one per accepted entry, applied to `base`. */
  ghost predicate Progress(reports: seq<SelfReport>, base: seq<SelfReport>, e: EventId, p: PlayerId,
                           done: seq<Slot>, read: Slot -> string, updates: int) {
    var sc := ScanSlots(done, read);
    && sc.rejected == None
    && updates == |sc.accepted|
    && reports == UpsertAll(base, e, p, sc.accepted)
  }

  lemma ProgressBlank(reports: seq<SelfReport>, base: seq<SelfReport>, e: EventId, p: PlayerId,
                      done: seq<Slot>, read: Slot -> string, updates: int, x: Slot)
    requires Progress(reports, base, e, p, done, read, updates) && read(x) == []
    ensures Progress(reports, base, e, p, done + [x], read, updates)
  {
    ScanSnoc(done, x, read);
  }

  lemma ProgressAccept(reports: seq<SelfReport>, base: seq<SelfReport>, e: EventId, p: PlayerId,
                       done: seq<Slot>, read: Slot -> string, updates: int, x: Slot)
    requires Progress(reports, base, e, p, done, read, updates) && read(x) != []
    requires ParseInt(read(x)).Some? && ValidPlace(ParseInt(read(x)).value)
    ensures Progress(Upsert(reports, SelfReport(e, p, x.0, x.1, ParseInt(read(x)).value, false)),
                     base, e, p, done + [x], read, updates + 1)
  {
    ScanSnoc(done, x, read);
    var acc := ScanSlots(done, read).accepted;
    var entry := Entry(x.0, x.1, ParseInt(read(x)).value);
    assert (acc + [entry])[..|acc|] == acc;
  }

  lemma ProgressReject(reports: seq<SelfReport>, base: seq<SelfReport>, e: EventId, p: PlayerId,
                       done: seq<Slot>, read: Slot -> string, updates: int, x: Slot)
    requires Progress(reports, base, e, p, done, read, updates) && read(x) != []
    requires ParseInt(read(x)) == None || !ValidPlace(ParseInt(read(x)).value)
    ensures var sc := ScanSlots(done + [x], read);
      && sc.rejected == Some(if ParseInt(read(x)) == None then NotAnInteger(x.0, x.1) else OutOfRange(x.0, x.1))
      && reports == UpsertAll(base, e, p, sc.accepted)
  {
    ScanSnoc(done, x, read);
  }

  /** `request.POST.get(key, "")`. */
  function Get(post: map<string, string>, key: string): string {
    if key in post then post[key] else ""
  }
}
