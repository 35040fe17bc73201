/** Team rosters as a request supplies them (TeamDTO), the duplicate-player test that createMatch
    and updateMatch run on them, and what createTeam / updateTeams make of a roster. */
module Roster {
  import opened Common

  /** One roster slot: a registered player's id, or a guest (no id, or a falsy one). */
  datatype RosterEntry = RosterEntry(id: Option<int>)

  /** The optional rosters of team 1 and team 2 that a match request carries. */
  datatype TeamsDto = TeamsDto(team1: Option<seq<RosterEntry>>, team2: Option<seq<RosterEntry>>)

  predicate IsGuest(e: RosterEntry) {
    !Truthy(e.id)
  }

  /** A roster that is absent counts as empty (match.service.ts:22). */
  function Entries(roster: Option<seq<RosterEntry>>): seq<RosterEntry> {
    if roster.Some? then roster.value else []
  }

  /** The entries of team 1 followed by those of team 2, as match.service.ts:22 joins them. */
  function AllEntries(teams: TeamsDto): seq<RosterEntry> {
    Entries(teams.team1) + Entries(teams.team2)
  }

  /** The truthy ids of the entries, in order: the ids the duplicate test compares (match.service.ts:23). */
  function TruthyIds(entries: seq<RosterEntry>): (ids: seq<PlayerId>)
    ensures |ids| <= |entries|
    ensures forall x :: x in ids <==> x != 0 && RosterEntry(Some(x)) in entries
  {
    if entries == [] then []
    else
      var rest := TruthyIds(entries[1..]);
      assert entries == [entries[0]] + entries[1..];
      if IsGuest(entries[0]) then rest else [entries[0].id.value] + rest
  }

  lemma {:induction false} TruthyIdsAppend(a: seq<RosterEntry>, b: seq<RosterEntry>)
    ensures TruthyIds(a + b) == TruthyIds(a) + TruthyIds(b)
  {
    if a != [] {
      var ab := a + b;
      assert ab[0] == a[0] && ab[1..] == a[1..] + b;
      TruthyIdsAppend(a[1..], b);
      if IsGuest(a[0]) {
        assert TruthyIds(ab) == TruthyIds(a[1..] + b);
      } else {
        assert TruthyIds(ab) == [a[0].id.value] + TruthyIds(a[1..] + b);
      }
    } else {
      assert a + b == b;
    }
  }

  function GuestCount(entries: seq<RosterEntry>): (n: nat)
    ensures n + |TruthyIds(entries)| == |entries|
  {
    if entries == [] then 0
    else (if IsGuest(entries[0]) then 1 else 0) + GuestCount(entries[1..])
  }

  function Elements(ids: seq<PlayerId>): set<PlayerId> {
    set x | x in ids
  }

  predicate Distinct(ids: seq<PlayerId>) {
    forall i, j :: 0 <= i < j < |ids| ==> ids[i] != ids[j]
  }

  /** The test of createMatch and updateMatch: `playerIds.length !== uniquePlayerIds.length`. */
  predicate HasRepeatedId(ids: seq<PlayerId>) {
    |ids| != |Elements(ids)|
  }

  /** Whether a request's rosters name some registered player twice (guests are not compared). */
  predicate RepeatsPlayer(teams: Option<TeamsDto>) {
    teams.Some? && HasRepeatedId(TruthyIds(AllEntries(teams.value)))
  }

  lemma {:induction false} ElementsSize(ids: seq<PlayerId>)
    ensures |Elements(ids)| <= |ids|
    ensures |Elements(ids)| == |ids| <==> Distinct(ids)
  {
    if ids != [] {
      var tail := ids[1..];
      ElementsSize(tail);
      assert Elements(ids) == {ids[0]} + Elements(tail);
      if ids[0] in tail {
        var k :| 0 <= k < |tail| && tail[k] == ids[0];
        assert ids[0] == ids[k + 1];
        assert Elements(ids) == Elements(tail);
      } else {
        assert ids[0] !in Elements(tail);
        assert |Elements(ids)| == |Elements(tail)| + 1;
        if Distinct(tail) {
          forall i, j | 0 <= i < j < |ids| ensures ids[i] != ids[j] {
            if i > 0 { assert ids[i] == tail[i - 1] && ids[j] == tail[j - 1]; }
            else { assert ids[j] == tail[j - 1]; }
          }
        } else {
          var i, j :| 0 <= i < j < |tail| && tail[i] == tail[j];
          assert ids[i + 1] == ids[j + 1];
        }
      }
    }
  }

  /** The Set-size test detects exactly the rosters in which some id occurs at two positions. */
  lemma RepeatedIdIff(ids: seq<PlayerId>)
    ensures HasRepeatedId(ids) <==> exists i, j :: 0 <= i < j < |ids| && ids[i] == ids[j]
  {
    ElementsSize(ids);
  }

  /** Two roster entries, the first of them registered, carry the same id (the second is then
      registered too). */
  predicate RepeatedEntries(es: seq<RosterEntry>) {
    exists i, j :: 0 <= i < j < |es| && !IsGuest(es[i]) && es[i].id == es[j].id
  }

  /** The duplicate test of createMatch and updateMatch on a request's rosters fails exactly when
      two entries of team1 ++ team2 name the same registered player; guests are never compared. */
  lemma RepeatsPlayerIff(t: TeamsDto)
    ensures RepeatsPlayer(Some(t)) <==> RepeatedEntries(AllEntries(t))
  {
    ElementsSize(TruthyIds(AllEntries(t)));
    RepeatedEntriesIff(AllEntries(t));
  }

  lemma {:induction false} RepeatedEntriesIff(es: seq<RosterEntry>)
    ensures Distinct(TruthyIds(es)) <==> !RepeatedEntries(es)
  {
    if es != [] {
      var e, rest := es[0], es[1..];
      assert es == [e] + rest;
      RepeatedEntriesIff(rest);
      RepeatedEntriesCons(e, rest);
      if IsGuest(e) {
        assert TruthyIds(es) == TruthyIds(rest);
      } else {
        var x := e.id.value;
        assert e == RosterEntry(Some(x)) && x != 0;
        assert TruthyIds(es) == [x] + TruthyIds(rest);
        DistinctCons(x, TruthyIds(rest));
      }
    }
  }

  lemma RepeatedEntriesCons(e: RosterEntry, rest: seq<RosterEntry>)
    ensures RepeatedEntries([e] + rest) <==> (!IsGuest(e) && e in rest) || RepeatedEntries(rest)
  {
    var es := [e] + rest;
    if RepeatedEntries(es) {
      var i, j :| 0 <= i < j < |es| && !IsGuest(es[i]) && es[i].id == es[j].id;
      if i == 0 {
        assert es[j] == rest[j - 1] && es[j] == e;
      } else {
        assert es[i] == rest[i - 1] && es[j] == rest[j - 1];
      }
    }
    if !IsGuest(e) && e in rest {
      var j :| 0 <= j < |rest| && rest[j] == e;
      assert es[0] == e && es[j + 1] == e;
    }
    if RepeatedEntries(rest) {
      var i, j :| 0 <= i < j < |rest| && !IsGuest(rest[i]) && rest[i].id == rest[j].id;
      assert es[i + 1] == rest[i] && es[j + 1] == rest[j];
    }
  }

  lemma DistinctCons(x: PlayerId, ids: seq<PlayerId>)
    ensures Distinct([x] + ids) <==> x !in ids && Distinct(ids)
  {
    var all := [x] + ids;
    if Distinct(all) {
      DistinctSplit(x, ids);
    }
    if x !in ids && Distinct(ids) {
      forall i, j | 0 <= i < j < |all| ensures all[i] != all[j] {
        assert all[j] == ids[j - 1];
        if i > 0 { assert all[i] == ids[i - 1]; }
      }
    }
  }

  /** What createTeam (and updateTeams) builds from one roster: the players the team gets, and the
      next free player id once a guest player has been created for every guest entry. */
  datatype Composition = Composition(members: set<PlayerId>, next: PlayerId)

  /** Each non-guest entry connects that player; each guest entry creates a new player whose id is
      the next one the store hands out, in roster order. */
  function ComposeTeam(entries: seq<RosterEntry>, next: PlayerId): (c: Composition)
    ensures c.next == next + GuestCount(entries)
    ensures forall x :: x in c.members <==> x in TruthyIds(entries) || next <= x < c.next
    decreases |entries|
  {
    if entries == [] then Composition({}, next)
    else if IsGuest(entries[0]) then
      var rest := ComposeTeam(entries[1..], next + 1);
      Composition({next} + rest.members, rest.next)
    else
      var rest := ComposeTeam(entries[1..], next);
      Composition({entries[0].id.value} + rest.members, rest.next)
  }

  lemma DistinctSplit(x: PlayerId, ids: seq<PlayerId>)
    requires Distinct([x] + ids)
    ensures x !in ids && Distinct(ids)
  {
    var all := [x] + ids;
    forall k | 0 <= k < |ids| ensures ids[k] != x {
      assert all[0] == x && all[k + 1] == ids[k];
    }
    forall i, j | 0 <= i < j < |ids| ensures ids[i] != ids[j] {
      assert all[i + 1] == ids[i] && all[j + 1] == ids[j];
    }
  }

  /** Every id of the list is below `bound`, i.e. older than a player created from `bound` on. */
  predicate Below(ids: seq<PlayerId>, bound: PlayerId) {
    forall x :: x in ids ==> x < bound
  }

  /** No id of `a` occurs in `b`. */
  predicate Apart(a: seq<PlayerId>, b: seq<PlayerId>) {
    forall x :: x in a ==> x !in b
  }

  /** When the registered players of a roster are distinct and older than every new guest, the team
      holds exactly one player per roster entry. */
  lemma {:induction false} ComposedSize(entries: seq<RosterEntry>, next: PlayerId)
    requires Distinct(TruthyIds(entries))
    requires Below(TruthyIds(entries), next)
    ensures |ComposeTeam(entries, next).members| == |entries|
  {
    if entries != [] {
      var tail := entries[1..];
      var ids := TruthyIds(tail);
      if IsGuest(entries[0]) {
        assert TruthyIds(entries) == ids;
        ComposedSize(tail, next + 1);
        var rest := ComposeTeam(tail, next + 1);
        assert next !in rest.members;
        assert ComposeTeam(entries, next).members == {next} + rest.members;
      } else {
        var x := entries[0].id.value;
        assert TruthyIds(entries) == [x] + ids;
        DistinctSplit(x, ids);
        ComposedSize(tail, next);
        var rest := ComposeTeam(tail, next);
        assert x !in rest.members;
        assert ComposeTeam(entries, next).members == {x} + rest.members;
      }
    }
  }

  lemma DistinctAppend(a: seq<PlayerId>, b: seq<PlayerId>)
    requires Distinct(a + b)
    ensures Distinct(a) && Distinct(b)
    ensures forall x :: x in a ==> x !in b
  {
    var ab := a + b;
    forall i, j | 0 <= i < j < |a| ensures a[i] != a[j] {
      assert ab[i] == a[i] && ab[j] == a[j];
    }
    forall i, j | 0 <= i < j < |b| ensures b[i] != b[j] {
      assert ab[|a| + i] == b[i] && ab[|a| + j] == b[j];
    }
    forall x | x in a ensures x !in b {
      var i :| 0 <= i < |a| && a[i] == x;
      forall j | 0 <= j < |b| ensures b[j] != x {
        assert ab[i] == x && ab[|a| + j] == b[j];
      }
    }
  }

  /** Both rosters of a request composed one after the other, team 1 first, as createMatch does: when
      the duplicate test passes and every registered player is older than the new guests, the two
      teams share no player and each holds one player per roster entry. */
  lemma ComposedTeamsDisjoint(e1: seq<RosterEntry>, e2: seq<RosterEntry>, next: PlayerId)
    requires !HasRepeatedId(TruthyIds(e1 + e2))
    requires forall x :: x in TruthyIds(e1 + e2) ==> x < next
    ensures var c1 := ComposeTeam(e1, next); var c2 := ComposeTeam(e2, c1.next);
      c1.members !! c2.members && |c1.members| == |e1| && |c2.members| == |e2|
  {
    SplitRosterIds(e1, e2, next);
    ComposedTeamsSeparate(e1, e2, next);
  }

  lemma ComposedTeamsSeparate(e1: seq<RosterEntry>, e2: seq<RosterEntry>, next: PlayerId)
    requires Distinct(TruthyIds(e1)) && Distinct(TruthyIds(e2))
    requires Apart(TruthyIds(e1), TruthyIds(e2))
    requires Below(TruthyIds(e1), next) && Below(TruthyIds(e2), next)
    ensures var c1 := ComposeTeam(e1, next); var c2 := ComposeTeam(e2, c1.next);
      c1.members !! c2.members && |c1.members| == |e1| && |c2.members| == |e2|
  {
    var c1 := ComposeTeam(e1, next);
    ComposedSize(e1, next);
    BelowRaised(TruthyIds(e2), next, c1.next);
    ComposedSize(e2, c1.next);
    SeparateTeams(e1, e2, next);
  }

  lemma SplitRosterIds(e1: seq<RosterEntry>, e2: seq<RosterEntry>, next: PlayerId)
    requires !HasRepeatedId(TruthyIds(e1 + e2))
    requires forall x :: x in TruthyIds(e1 + e2) ==> x < next
    ensures Distinct(TruthyIds(e1)) && Distinct(TruthyIds(e2))
    ensures Apart(TruthyIds(e1), TruthyIds(e2))
    ensures Below(TruthyIds(e1), next) && Below(TruthyIds(e2), next)
  {
    var t1, t2 := TruthyIds(e1), TruthyIds(e2);
    ElementsSize(TruthyIds(e1 + e2));
    TruthyIdsAppend(e1, e2);
    DistinctAppend(t1, t2);
    forall x | x in t1 || x in t2 ensures x < next {
      assert x in t1 + t2;
    }
  }

  lemma BelowRaised(ids: seq<PlayerId>, lo: PlayerId, hi: PlayerId)
    requires Below(ids, lo) && lo <= hi
    ensures Below(ids, hi)
  {
  }

  /** Team 2's guests are numbered after team 1's, and registered ids lie below both. */
  lemma SeparateTeams(e1: seq<RosterEntry>, e2: seq<RosterEntry>, next: PlayerId)
    requires Apart(TruthyIds(e1), TruthyIds(e2))
    requires Below(TruthyIds(e1), next) && Below(TruthyIds(e2), next)
    ensures var c1 := ComposeTeam(e1, next); ComposeTeam(e2, c1.next).members !! c1.members
  {
    var t1, t2 := TruthyIds(e1), TruthyIds(e2);
    var c1 := ComposeTeam(e1, next);
    var c2 := ComposeTeam(e2, c1.next);
    forall x | x in c1.members ensures x !in c2.members {
      if x in t1 {
        assert x !in t2 && x < next;
      } else {
        assert c1.next <= next + GuestCount(e1) && x < c1.next;
      }
    }
  }
}
