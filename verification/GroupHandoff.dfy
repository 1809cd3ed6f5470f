/** What happens to a user's groups when the user leaves all of them at once. */
module GroupHandoff {
  type User = string
  type Group = string

  datatype Seat = Seat(group: Group, user: User)
  datatype Role = Admin | Plain

  /** The group_member table. */
  type Seats = map<Seat, Role>

  function InGroup(seats: Seats, g: Group): Seats {
    map s | s in seats && s.group == g :: seats[s]
  }

  function MembersOf(seats: Seats, g: Group): set<User> {
    set s | s in seats && s.group == g :: s.user
  }

  predicate SoleMember(seats: Seats, g: Group, u: User) {
    Seat(g, u) in seats && forall s :: s in seats && s.group == g ==> s.user == u
  }

  predicate SoleAdmin(seats: Seats, g: Group, u: User) {
    && Seat(g, u) in seats && seats[Seat(g, u)] == Admin
    && forall s :: s in seats && s.group == g && seats[s] == Admin ==> s.user == u
  }

  predicate HasAdmin(seats: Seats, g: Group) {
    exists s :: s in seats && s.group == g && seats[s] == Admin
  }

  function SoleGroups(seats: Seats, u: User): set<Group> {
    set s | s in seats && s.user == u && SoleMember(seats, s.group, u) :: s.group
  }

  predicate Promotes(before: Seats, after: Seats, g: Group, u: User, v: User) {
    v != u && Seat(g, v) in before && InGroup(after, g) == InGroup(before, g)[Seat(g, v) := Admin]
  }

  /**
   * What the handoff may do to one group: nothing if the user is not in it; empty it if the user
   * is alone and deletes cascade; promote one other member if the user is the only admin.
   */
  ghost predicate HandedOff(before: Seats, after: Seats, g: Group, u: User, cascade: bool) {
    if Seat(g, u) in before && SoleMember(before, g, u) then
      InGroup(after, g) == if cascade then map[] else InGroup(before, g)
    else if SoleAdmin(before, g, u) then
      exists v :: Promotes(before, after, g, u, v)
    else
      InGroup(after, g) == InGroup(before, g)
  }

  datatype Membership = Membership(group: Group, role: Role)

  /** The user's memberships, in whatever order the table yields them. */
  method Memberships(seats: Seats, u: User) returns (out: seq<Membership>)
    ensures forall i :: 0 <= i < |out| ==> Seat(out[i].group, u) in seats && out[i].role == seats[Seat(out[i].group, u)]
    ensures forall g :: Seat(g, u) in seats ==> Membership(g, seats[Seat(g, u)]) in out
    ensures forall i, j :: 0 <= i < j < |out| ==> out[i].group != out[j].group
  {
    out := [];
    var left := set s | s in seats && s.user == u;
    while left != {}
      invariant left <= set s | s in seats && s.user == u
      invariant forall i :: 0 <= i < |out| ==>
                  && Seat(out[i].group, u) in seats && out[i].role == seats[Seat(out[i].group, u)]
                  && Seat(out[i].group, u) !in left
      invariant forall g :: Seat(g, u) in seats && Seat(g, u) !in left ==> Membership(g, seats[Seat(g, u)]) in out
      invariant forall i, j :: 0 <= i < j < |out| ==> out[i].group != out[j].group
      decreases |left|
    {
      var s :| s in left;
      left := left - {s};
      out := out + [Membership(s.group, seats[s])];
    }
  }

  lemma CountIsSole(seats: Seats, g: Group, u: User)
    requires Seat(g, u) in seats
    ensures |set s | s in seats && s.group == g| <= 1 <==> SoleMember(seats, g, u)
  {
    var all := set s | s in seats && s.group == g;
    assert Seat(g, u) in all;
    if SoleMember(seats, g, u) {
      assert all == {Seat(g, u)};
    } else {
      var s :| s in seats && s.group == g && s.user != u;
      assert {s, Seat(g, u)} <= all;
      Larger({s, Seat(g, u)}, all);
    }
  }

  lemma {:induction false} Larger(a: set<Seat>, b: set<Seat>)
    requires a <= b
    ensures |a| <= |b|
  {
    if a != {} {
      var x :| x in a;
      Larger(a - {x}, b - {x});
    }
  }

  /** One turn of the loop: the group `g` of which the user is a member. */
  method HandoffOne(groups: set<Group>, seats: Seats, g: Group, role: Role, u: User, cascade: bool)
    returns (groups': set<Group>, seats': Seats)
    requires Seat(g, u) in seats && role == seats[Seat(g, u)]
    ensures groups' == if SoleMember(seats, g, u) then groups - {g} else groups
    ensures HandedOff(seats, seats', g, u, cascade)
    ensures forall h :: h != g ==> InGroup(seats', h) == InGroup(seats, h)
  {
    groups', seats' := groups, seats;
    var memberCount := |set s | s in seats && s.group == g|;
    CountIsSole(seats, g, u);
    if memberCount <= 1 {
      groups' := groups - {g};
      if cascade {
        seats' := map s | s in seats && s.group != g :: seats[s];
      }
    } else if role == Admin {
      var otherAdmins := set s | s in seats && s.group == g && seats[s] == Admin && s.user != u;
      if otherAdmins == {} {
        assert SoleAdmin(seats, g, u) by {
          forall s | s in seats && s.group == g && seats[s] == Admin
            ensures s.user == u
          {
            assert s !in otherAdmins;
          }
        }
        var successor :| successor in seats && successor.group == g && successor.user != u;
        seats' := seats[successor := Admin];
        assert Promotes(seats, seats', g, u, successor.user);
      } else {
        var s :| s in otherAdmins;
      }
    }
  }

  /**
   * Every group of the user is handed off as if it were the only one: the loop changes the
   * table it was driven from, but each turn touches one group only.
   */
  method HandoffGroupOwnership(groups: set<Group>, seats: Seats, u: User, cascade: bool)
    returns (groups': set<Group>, seats': Seats)
    ensures groups' == groups - SoleGroups(seats, u)
    ensures forall g :: HandedOff(seats, seats', g, u, cascade)
  {
    var memberships := Memberships(seats, u);
    groups', seats' := groups, seats;
    for i := 0 to |memberships|
      invariant groups' == groups - (set k | 0 <= k < i && SoleMember(seats, memberships[k].group, u) ::
                memberships[k].group)
      invariant forall k :: 0 <= k < i ==> HandedOff(seats, seats', memberships[k].group, u, cascade)
      invariant forall g :: (forall k :: 0 <= k < i ==> memberships[k].group != g) ==>
                InGroup(seats', g) == InGroup(seats, g)
    {
      var m := memberships[i];
      SameGroupSameAnswer(seats, seats', m.group, u);
      var turn := seats';
      groups', seats' := HandoffOne(groups', turn, m.group, m.role, u, cascade);
      HandedOffAgain(seats, turn, seats', m.group, u, cascade);
      forall k | 0 <= k < i
        ensures HandedOff(seats, seats', memberships[k].group, u, cascade)
      {
        HandedOffOnly(seats, turn, seats', memberships[k].group, u, cascade);
      }
    }
    forall g
      ensures HandedOff(seats, seats', g, u, cascade)
    {
      if Seat(g, u) in seats {
        var k :| 0 <= k < |memberships| && memberships[k] == Membership(g, seats[Seat(g, u)]);
      }
    }
    assert SoleGroups(seats, u) == set k | 0 <= k < |memberships| && SoleMember(seats, memberships[k].group, u) ::
           memberships[k].group by {
      forall g | g in SoleGroups(seats, u)
        ensures exists k :: 0 <= k < |memberships| && memberships[k].group == g
      {
        var k :| 0 <= k < |memberships| && memberships[k] == Membership(g, seats[Seat(g, u)]);
      }
    }
  }

  lemma SameRows(a: Seats, b: Seats, g: Group, s: Seat)
    requires InGroup(a, g) == InGroup(b, g) && s.group == g
    ensures s in a <==> s in b
    ensures s in a ==> a[s] == b[s]
  {
    assert s in a <==> s in InGroup(a, g);
    assert s in b <==> s in InGroup(b, g);
  }

  lemma SameGroupSameAnswer(a: Seats, b: Seats, g: Group, u: User)
    requires InGroup(a, g) == InGroup(b, g)
    ensures Seat(g, u) in a <==> Seat(g, u) in b
    ensures Seat(g, u) in a ==> a[Seat(g, u)] == b[Seat(g, u)]
    ensures SoleMember(a, g, u) <==> SoleMember(b, g, u)
    ensures SoleAdmin(a, g, u) <==> SoleAdmin(b, g, u)
  {
    forall s: Seat | s.group == g
      ensures s in a <==> s in b
      ensures s in a ==> a[s] == b[s]
    {
      SameRows(a, b, g, s);
    }
  }

  lemma HandedOffAgain(a: Seats, b: Seats, after: Seats, g: Group, u: User, cascade: bool)
    requires InGroup(a, g) == InGroup(b, g) && HandedOff(b, after, g, u, cascade)
    ensures HandedOff(a, after, g, u, cascade)
  {
    SameGroupSameAnswer(a, b, g, u);
    if !SoleMember(b, g, u) && SoleAdmin(b, g, u) {
      var v :| Promotes(b, after, g, u, v);
      SameRows(a, b, g, Seat(g, v));
      assert Promotes(a, after, g, u, v);
    }
  }

  lemma HandedOffOnly(before: Seats, a: Seats, b: Seats, g: Group, u: User, cascade: bool)
    requires HandedOff(before, a, g, u, cascade) && InGroup(a, g) == InGroup(b, g)
    ensures HandedOff(before, b, g, u, cascade)
  {
    if !SoleMember(before, g, u) && SoleAdmin(before, g, u) {
      var v :| Promotes(before, a, g, u, v);
      assert Promotes(before, b, g, u, v);
    }
  }

  // ---------------------------------------------------------------- what it guarantees

  /** The table once the user's own seats are gone too. */
  function WithoutUser(seats: Seats, u: User): Seats {
    map s | s in seats && s.user != u :: seats[s]
  }

  /** How a handoff shows in one seat of another user: kept, never demoted, promoted only if needed. */
  lemma SeatAfterHandoff(before: Seats, after: Seats, u: User, cascade: bool, s: Seat)
    requires forall g :: HandedOff(before, after, g, u, cascade)
    requires s.user != u
    ensures s in after <==> s in before
    ensures s in before && before[s] == Admin ==> after[s] == Admin
    ensures s in before && after[s] != before[s] ==> SoleAdmin(before, s.group, u) && after[s] == Admin
  {
    var g := s.group;
    assert HandedOff(before, after, g, u, cascade);
    if SoleMember(before, g, u) {
      assert s !in before;
      assert s !in InGroup(after, g);
    } else if SoleAdmin(before, g, u) {
      var v :| Promotes(before, after, g, u, v);
      assert s in after <==> s in InGroup(after, g);
      assert s in before <==> s in InGroup(before, g);
      assert s in after ==> after[s] == InGroup(after, g)[s];
    } else {
      SameRows(before, after, g, s);
    }
  }

  /** The user's own seats stay as they are, except in a group of one when deleting the group takes its seats along. */
  lemma OwnSeatAfterHandoff(before: Seats, after: Seats, u: User, cascade: bool, g: Group)
    requires forall h :: HandedOff(before, after, h, u, cascade)
    ensures Seat(g, u) in after <==>
            Seat(g, u) in before && !(cascade && forall s :: s in before && s.group == g ==> s.user == u)
    ensures Seat(g, u) in after && Seat(g, u) in before ==> after[Seat(g, u)] == before[Seat(g, u)]
  {
    var s := Seat(g, u);
    assert HandedOff(before, after, g, u, cascade);
    assert s in after <==> s in InGroup(after, g);
    assert s in before <==> s in InGroup(before, g);
    assert s in after ==> after[s] == InGroup(after, g)[s];
    if !SoleMember(before, g, u) && SoleAdmin(before, g, u) {
      var v :| Promotes(before, after, g, u, v);
    }
  }

  /** Leaving is safe: no group the user was in is left empty, and none loses its last admin. */
  lemma LeavingIsSafe(groups: set<Group>, before: Seats, after: Seats, u: User, cascade: bool, g: Group)
    requires forall h :: HandedOff(before, after, h, u, cascade)
    requires g in groups - SoleGroups(before, u)
    ensures Seat(g, u) in before ==> MembersOf(WithoutUser(after, u), g) != {}
    ensures HasAdmin(before, g) ==> HasAdmin(WithoutUser(after, u), g)
    ensures Seat(g, u) !in before ==> InGroup(WithoutUser(after, u), g) == InGroup(before, g)
  {
    var final := WithoutUser(after, u);
    assert HandedOff(before, after, g, u, cascade);
    if Seat(g, u) in before {
      assert Seat(g, u).group == g;
      assert !SoleMember(before, g, u);
      var s :| s in before && s.group == g && s.user != u;
      SeatAfterHandoff(before, after, u, cascade, s);
      assert s in final;
      assert s.user in MembersOf(final, g);
      if SoleAdmin(before, g, u) {
        var v :| Promotes(before, after, g, u, v);
        assert Seat(g, v) in InGroup(after, g);
        assert Seat(g, v) in final && final[Seat(g, v)] == Admin;
      } else if HasAdmin(before, g) {
        AdminOtherThan(before, g, u);
        var a :| a in before && a.group == g && before[a] == Admin && a.user != u;
        SeatAfterHandoff(before, after, u, cascade, a);
        assert a in final && final[a] == Admin;
      }
    } else {
      forall s | s in after && s.group == g
        ensures s.user != u
      {
        SameRows(before, after, g, s);
      }
      assert InGroup(final, g) == InGroup(after, g);
      if HasAdmin(before, g) {
        var a :| a in before && a.group == g && before[a] == Admin;
        SameRows(before, final, g, a);
      }
    }
  }

  lemma AdminOtherThan(seats: Seats, g: Group, u: User)
    requires HasAdmin(seats, g) && !SoleAdmin(seats, g, u)
    ensures exists a :: a in seats && a.group == g && seats[a] == Admin && a.user != u
  {
    var a :| a in seats && a.group == g && seats[a] == Admin;
    if a.user == u {
      assert a == Seat(g, u);
    }
  }

  /** At most one member of a group is promoted. */
  lemma AtMostOnePromotion(before: Seats, after: Seats, u: User, cascade: bool, s: Seat, t: Seat)
    requires forall g :: HandedOff(before, after, g, u, cascade)
    requires s.group == t.group && s.user != u && t.user != u && s in before && t in before
    requires s in after && t in after && after[s] != before[s] && after[t] != before[t]
    ensures s == t
  {
    var g := s.group;
    assert HandedOff(before, after, g, u, cascade);
    SeatAfterHandoff(before, after, u, cascade, s);
    var v :| Promotes(before, after, g, u, v);
    assert after[s] == InGroup(after, g)[s] && after[t] == InGroup(after, g)[t];
  }
}
