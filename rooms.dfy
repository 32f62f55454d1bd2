/** Room codes (`set_room_code`): the group of an event's round has a host,
    the member whose lower-cased name sorts first; only the host may set the
    heat's room code, which is stripped and must be 1..50 characters long.
    Nothing but that heat's `room_code` ever changes. */
module Rooms {
  import opened Collections
  import opened Ordering
  import opened Models
  import opened Text

  /** What `set_room_code` answers. */
  datatype RoomOutcome =
    | NoGroup                              // no group of that name in the event (404)
    | AmbiguousGroup                       // several groups share the name (the lookup raises)
    | NoHeat                               // the group has no heat for the round (404)
    | NoPlayer                             // the account has no player
    | NotMember                            // the player is not in the group this round
    | Page(host: PlayerId, isHost: bool)   // the form, for a GET
    | NotHost(host: PlayerId)
    | EmptyCode
    | CodeTooLong
    | Saved(code: string)

  /** The groups of `e` with that name. */
  function GroupsNamed(groups: seq<Group>, e: EventId, name: string): seq<Group> {
    Filter(groups, (g: Group) => g.event == e && g.name == name)
  }

  /** The name of player `id` in the Player table ("" if it has none). */
  function NameOf(players: seq<Player>, id: PlayerId): string {
    if players == [] then ""
    else if players[0].id == id then players[0].name
    else NameOf(players[1..], id)
  }

  /** The sort key of a membership: its player's name in lower case. */
  function LowerName(players: seq<Player>): Membership -> string {
    (m: Membership) => Lower(NameOf(players, m.player))
  }

  /** The group's members for the round, ordered by `Lower(player__name)`. */
  function Members(ms: seq<Membership>, players: seq<Player>, e: EventId, roundNo: int, g: GroupId): (r: seq<Membership>)
    ensures forall i :: 0 <= i < |r| ==> r[i] in ms && r[i].event == e && r[i].roundNo == roundNo && r[i].group == g
  {
    var rows := Filter(ms, (m: Membership) => m.event == e && m.roundNo == roundNo && m.group == g);
    FilterMembers(ms, (m: Membership) => m.event == e && m.roundNo == roundNo && m.group == g);
    SortByMembers(rows, LowerName(players), StrLe);
    SortBy(rows, LowerName(players), StrLe)
  }

  predicate IsMember(members: seq<Membership>, p: PlayerId) {
    exists i :: 0 <= i < |members| && members[i].player == p
  }

  /** The room host: the first member in that order. */
  function Host(members: seq<Membership>): (p: PlayerId)
    requires members != []
    ensures IsMember(members, p)
  {
    members[0].player
  }

  /** The host is a member of the group for the round, and no member's
      lower-cased name sorts before the host's. */
  lemma HostSortsFirst(ms: seq<Membership>, players: seq<Player>, e: EventId, roundNo: int, g: GroupId)
    requires Members(ms, players, e, roundNo, g) != []
    ensures var members := Members(ms, players, e, roundNo, g);
      var host := Host(members);
      && (exists k :: 0 <= k < |ms| && ms[k] == Membership(e, roundNo, g, host))
      && (forall k :: 0 <= k < |ms| && ms[k].event == e && ms[k].roundNo == roundNo && ms[k].group == g ==>
            StrLe(Lower(NameOf(players, host)), Lower(NameOf(players, ms[k].player))))
  {
    var keep := (m: Membership) => m.event == e && m.roundNo == roundNo && m.group == g;
    var f := Filter(ms, keep);
    var members := Members(ms, players, e, roundNo, g);
    StrLeTotal();
    SortBySorted(f, LowerName(players), StrLe);
    assert members[0] in multiset(f);
    var j :| 0 <= j < |f| && f[j] == members[0];
    assert keep(f[j]);
    var k0 :| 0 <= k0 < |ms| && ms[k0] == f[j];
    assert ms[k0] == Membership(e, roundNo, g, Host(members));
    forall k | 0 <= k < |ms| && keep(ms[k])
      ensures StrLe(Lower(NameOf(players, Host(members))), Lower(NameOf(players, ms[k].player)))
    {
      assert ms[k] in f;
      assert ms[k] in multiset(members);
      var i :| 0 <= i < |members| && members[i] == ms[k];
      if i > 0 {
        assert StrLe(LowerName(players)(members[0]), LowerName(players)(members[i]));
      } else {
        StrLeRefl(LowerName(players)(members[0]));
      }
    }
  }

  /** A member of the round's group, looked up in the ordered list, is a
      membership row of that group and round, and conversely. */
  lemma MembersExactly(ms: seq<Membership>, players: seq<Player>, e: EventId, roundNo: int, g: GroupId, p: PlayerId)
    ensures IsMember(Members(ms, players, e, roundNo, g), p) <==>
      exists k :: 0 <= k < |ms| && ms[k] == Membership(e, roundNo, g, p)
  {
    if IsMember(Members(ms, players, e, roundNo, g), p) {
      MembersSound(ms, players, e, roundNo, g, p);
    }
    if exists k :: 0 <= k < |ms| && ms[k] == Membership(e, roundNo, g, p) {
      var k :| 0 <= k < |ms| && ms[k] == Membership(e, roundNo, g, p);
      MembersComplete(ms, players, e, roundNo, g, k);
    }
  }

  lemma MembersSound(ms: seq<Membership>, players: seq<Player>, e: EventId, roundNo: int, g: GroupId, p: PlayerId)
    requires IsMember(Members(ms, players, e, roundNo, g), p)
    ensures exists k :: 0 <= k < |ms| && ms[k] == Membership(e, roundNo, g, p)
  {
    var keep := (m: Membership) => m.event == e && m.roundNo == roundNo && m.group == g;
    var f := Filter(ms, keep);
    var members := Members(ms, players, e, roundNo, g);
    var i :| 0 <= i < |members| && members[i].player == p;
    assert members[i] in multiset(f);
    var j :| 0 <= j < |f| && f[j] == members[i];
    assert keep(f[j]) && f[j] in ms;
    var k :| 0 <= k < |ms| && ms[k] == f[j];
    assert ms[k] == Membership(e, roundNo, g, p);
  }

  lemma MembersComplete(ms: seq<Membership>, players: seq<Player>, e: EventId, roundNo: int, g: GroupId, k: int)
    requires 0 <= k < |ms| && ms[k].event == e && ms[k].roundNo == roundNo && ms[k].group == g
    ensures IsMember(Members(ms, players, e, roundNo, g), ms[k].player)
  {
    var keep := (m: Membership) => m.event == e && m.roundNo == roundNo && m.group == g;
    var f := Filter(ms, keep);
    var members := Members(ms, players, e, roundNo, g);
    assert ms[k] in f;
    assert ms[k] in multiset(members);
    var i :| 0 <= i < |members| && members[i] == ms[k];
  }

  /** The code the host may store: `code` is non-empty and at most 50 long. */
  predicate AcceptableCode(code: string) {
    code != [] && |code| <= RoomCodeMax
  }

  /** Storing a room code keeps every heat's key, so the heat keys stay unique. */
  lemma SetCodeKeepsKeys(heats: map<HeatId, Heat>, hid: HeatId, code: string)
    requires hid in heats && HeatsUnique(heats)
    ensures var heats' := heats[hid := heats[hid].(roomCode := code)];
      && heats'.Keys == heats.Keys
      && (forall id :: id in heats' ==> HeatKey(heats'[id]) == HeatKey(heats[id]))
      && HeatsUnique(heats')
  {
  }

  /** `set_room_code` for event `e`, round `roundNo` and the group named
      `name`, by the account's player (None when it has none). `post` is
      None for a GET and otherwise the submitted room_code field ("" when
      it is missing). */
  method SetRoomCode(db: Db, e: EventId, roundNo: int, name: string, player: Option<PlayerId>, post: Option<string>)
    returns (out: RoomOutcome)
    requires db.Valid()
    modifies db`heats
    ensures db.Valid()
    ensures !out.Saved? ==> db.heats == old(db.heats)
    ensures var gs := GroupsNamed(db.groups, e, name);
      if |gs| == 0 then out == NoGroup
      else if |gs| > 1 then out == AmbiguousGroup
      else if !HasHeat(old(db.heats), e, roundNo, gs[0].id) then out == NoHeat
      else if player == None then out == NoPlayer
      else
        var members := Members(db.memberships, db.players, e, roundNo, gs[0].id);
        if !IsMember(members, player.value) then out == NotMember
        else
          var host := Host(members);
          if post == None then out == Page(host, host == player.value)
          else if host != player.value then out == NotHost(host)
          else
            var code := Strip(post.value);
            if code == [] then out == EmptyCode
            else if |code| > RoomCodeMax then out == CodeTooLong
            else
              && out == Saved(code)
              && exists hid :: hid in old(db.heats) && HeatKey(old(db.heats)[hid]) == (e, roundNo, gs[0].id)
                   && db.heats == old(db.heats)[hid := old(db.heats)[hid].(roomCode := code)]
  {
    var gs := GroupsNamed(db.groups, e, name);
    if |gs| == 0 {
      return NoGroup;
    } else if |gs| > 1 {
      return AmbiguousGroup;
    }
    var g := gs[0].id;
    if !HasHeat(db.heats, e, roundNo, g) {
      return NoHeat;
    }
    var hid :| hid in db.heats && HeatKey(db.heats[hid]) == (e, roundNo, g);
    if player == None {
      return NoPlayer;
    }
    var p := player.value;
    var members := Members(db.memberships, db.players, e, roundNo, g);
    if !IsMember(members, p) {
      return NotMember;
    }
    var host := Host(members);
    if post == None {
      return Page(host, host == p);
    }
    if host != p {
      return NotHost(host);
    }
    var code := Strip(post.value);
    if code == [] {
      return EmptyCode;
    }
    if |code| > RoomCodeMax {
      return CodeTooLong;
    }
    SaveRoomCode(db, hid, code);
    out := Saved(code);
  }

  /** `heat.save(update_fields=["room_code"])`: only that heat's room code changes. */
  method SaveRoomCode(db: Db, hid: HeatId, code: string)
    requires db.Valid() && hid in db.heats
    modifies db`heats
    ensures db.Valid()
    ensures db.heats == old(db.heats)[hid := old(db.heats)[hid].(roomCode := code)]
  {
    SetCodeKeepsKeys(db.heats, hid, code);
    db.heats := db.heats[hid := db.heats[hid].(roomCode := code)];
  }

  /** Only the host stores a code, and the stored code is the stripped
      submission, non-empty and at most 50 characters long. */
  lemma SavedByHostOnly(ms: seq<Membership>, players: seq<Player>, e: EventId, roundNo: int, g: GroupId,
                        p: PlayerId, raw: string)
    requires IsMember(Members(ms, players, e, roundNo, g), p)
    requires Host(Members(ms, players, e, roundNo, g)) == p
    requires AcceptableCode(Strip(raw))
    ensures exists k :: 0 <= k < |ms| && ms[k] == Membership(e, roundNo, g, p)
    ensures forall k :: 0 <= k < |ms| && ms[k].event == e && ms[k].roundNo == roundNo && ms[k].group == g ==>
      StrLe(Lower(NameOf(players, p)), Lower(NameOf(players, ms[k].player)))
    ensures var code := Strip(raw);
      && 1 <= |code| <= RoomCodeMax
      && !IsSpace(code[0]) && !IsSpace(code[|code| - 1])
  {
    MembersExactly(ms, players, e, roundNo, g, p);
    HostSortsFirst(ms, players, e, roundNo, g);
    StripIsTrimmedSlice(raw);
  }
}
