/**
 * The memberships service: listing members, resolving a user to a member
 * id, removing a member, changing a role, and transferring ownership.
 *
 * The membership table is owned by the identity library; here it is a map
 * from member id to (user, organization, role) plus the order in which the
 * library lists member ids. Each library write may be refused (a network
 * error, a permission check inside the library); whether it is, is a
 * parameter of the operation.
 */
module Memberships {
  import opened Wrappers
  import opened Exceptions
  import opened Directory

  const MemberNotFound := "Member not found"
  const TransferDone := "Ownership transferred successfully"
  const WriteRefused := "The identity library refused the write"

  /** One membership row. */
  datatype Membership = Membership(userId: string, organizationId: string, role: Role)

  // ---------------------------------------------------------------------
  // Queries over a directory answer

  /** `findAllByOrganization`: `result?.members || []`; an error propagates. */
  function FindAllByOrganization(l: Lookup): (r: Outcome<seq<MemberRow>>)
    ensures l.Found? ==> r == Ok(l.members)
    ensures l.NoOrg? ==> r == Ok([])
    ensures l.Failed? ==> r == Err(l.error)
  {
    match l
    case Found(members) => Ok(members)
    case NoOrg => Ok([])
    case Failed(e) => Err(e)
  }

  /** `getMemberId`: the id of the first listed member of `userId`. */
  function MemberId(l: Lookup, userId: string): (r: Outcome<string>)
    ensures l.Failed? ==> r == Err(l.error)
    ensures !l.Failed? ==> (r.Ok? <==> l.Found? && exists i :: 0 <= i < |l.members| && l.members[i].userId == userId)
    ensures !l.Failed? && r.Err? ==> r.error == NotFound(MemberNotFound)
    ensures r.Ok? ==> l.Found? && exists i :: IsFirstMatch(l.members, userId, i) && l.members[i].id == r.value
  {
    if l.Failed? then Err(l.error)
    else
      var member := FindIn(l, userId);
      if member.None? then Err(NotFound(MemberNotFound)) else Ok(member.value.id)
  }

  /** Two member lists that agree on ids and user ids resolve every user alike. */
  lemma MemberIdDependsOnIdentities(a: seq<MemberRow>, b: seq<MemberRow>, userId: string)
    requires |a| == |b|
    requires forall i :: 0 <= i < |a| ==> a[i].id == b[i].id && a[i].userId == b[i].userId
    ensures MemberId(Found(a), userId) == MemberId(Found(b), userId)
  {
    var ra, rb := MemberId(Found(a), userId), MemberId(Found(b), userId);
    if ra.Ok? {
      var i :| IsFirstMatch(a, userId, i) && a[i].id == ra.value;
      assert IsFirstMatch(b, userId, i);
      var j :| IsFirstMatch(b, userId, j) && b[j].id == rb.value;
      FirstMatchUnique(b, userId, i, j);
    }
  }

  // ---------------------------------------------------------------------
  // The table

  /** Every listed id has a row, every row is listed once. */
  predicate WellListed(rows: map<string, Membership>, listing: seq<string>)
  {
    && (forall id :: id in listing ==> id in rows)
    && (forall id :: id in rows ==> id in listing)
    && Distinct(listing)
  }

  /** The organization's `members` list, in listing order. */
  function MembersOf(rows: map<string, Membership>, listing: seq<string>, organizationId: string): (r: seq<MemberRow>)
    requires forall id :: id in listing ==> id in rows
    ensures |r| <= |listing|
  {
    if listing == [] then []
    else
      var id := listing[0];
      var m := rows[id];
      (if m.organizationId == organizationId then [MemberRow(id, m.userId, m.role)] else [])
      + MembersOf(rows, listing[1..], organizationId)
  }

  /** Every listed member is a row of the organization, with its own user and role. */
  lemma {:induction false} MembersOfRows(rows: map<string, Membership>, listing: seq<string>, organizationId: string)
    requires forall id :: id in listing ==> id in rows
    ensures forall k :: 0 <= k < |MembersOf(rows, listing, organizationId)| ==>
      var row := MembersOf(rows, listing, organizationId)[k];
      row.id in listing && rows[row.id] == Membership(row.userId, organizationId, row.role)
  {
    if listing != [] {
      MembersOfRows(rows, listing[1..], organizationId);
    }
  }

  /** The row belongs to `userId` in the organization. */
  predicate RowOf(m: Membership, organizationId: string, userId: string)
  {
    m.userId == userId && m.organizationId == organizationId
  }

  /** Every listed row of the organization appears in its members list. */
  lemma {:induction false} MembersOfComplete(rows: map<string, Membership>, listing: seq<string>, organizationId: string)
    requires forall id :: id in listing ==> id in rows
    ensures forall id :: id in listing && rows[id].organizationId == organizationId ==>
      MemberRow(id, rows[id].userId, rows[id].role) in MembersOf(rows, listing, organizationId)
  {
    if listing != [] {
      MembersOfComplete(rows, listing[1..], organizationId);
      assert forall id :: id in listing ==> id == listing[0] || id in listing[1..];
    }
  }

  /** `i` is the position of the first listed row of `userId` in the organization. */
  predicate IsFirstListed(rows: map<string, Membership>, listing: seq<string>, organizationId: string, userId: string, i: int)
    requires forall id :: id in listing ==> id in rows
  {
    0 <= i < |listing| && RowOf(rows[listing[i]], organizationId, userId) &&
    forall j :: 0 <= j < i ==> !RowOf(rows[listing[j]], organizationId, userId)
  }

  /** The first id in listing order whose row belongs to `userId` in the organization. */
  function FirstListed(rows: map<string, Membership>, listing: seq<string>, organizationId: string, userId: string): (r: Option<string>)
    requires forall id :: id in listing ==> id in rows
    ensures r.Some? ==> exists i :: IsFirstListed(rows, listing, organizationId, userId, i) && listing[i] == r.value
    ensures r.None? <==> forall id :: id in listing ==> !RowOf(rows[id], organizationId, userId)
  {
    if listing == [] then None
    else if RowOf(rows[listing[0]], organizationId, userId) then
      assert IsFirstListed(rows, listing, organizationId, userId, 0);
      Some(listing[0])
    else
      var r := FirstListed(rows, listing[1..], organizationId, userId);
      if r.Some? then
        var i :| IsFirstListed(rows, listing[1..], organizationId, userId, i) && listing[1..][i] == r.value;
        assert forall j :: 0 < j < i + 1 ==> listing[j] == listing[1..][j - 1];
        assert IsFirstListed(rows, listing, organizationId, userId, i + 1);
        r
      else
        assert forall id :: id in listing ==> id == listing[0] || id in listing[1..];
        r
  }

  /** `find` over the organization's members list finds the first listed row of the user. */
  lemma {:induction false} FindFirstListed(rows: map<string, Membership>, listing: seq<string>, organizationId: string, userId: string)
    requires forall id :: id in listing ==> id in rows
    ensures var f := FirstListed(rows, listing, organizationId, userId);
      FindMember(MembersOf(rows, listing, organizationId), userId) ==
        if f.None? then None else Some(MemberRow(f.value, userId, rows[f.value].role))
  {
    if listing != [] {
      var id := listing[0];
      var m := rows[id];
      FindFirstListed(rows, listing[1..], organizationId, userId);
      var head := if m.organizationId == organizationId then [MemberRow(id, m.userId, m.role)] else [];
      var tail := MembersOf(rows, listing[1..], organizationId);
      assert MembersOf(rows, listing, organizationId) == head + tail;
      if head == [] {
        assert head + tail == tail;
      } else {
        assert (head + tail)[0] == head[0] && (head + tail)[1..] == tail;
      }
    }
  }

  /** `getMemberId` against the table: the member id of the user's first listed row in
      the organization; NotFound "Member not found" exactly when the user has no row there. */
  function Resolve(rows: map<string, Membership>, listing: seq<string>, organizationId: string, userId: string): (r: Outcome<string>)
    requires forall id :: id in listing ==> id in rows
    ensures r.Ok? ==> r.value in rows && rows[r.value].userId == userId && rows[r.value].organizationId == organizationId
    ensures r.Err? ==> r.error == NotFound(MemberNotFound)
    ensures var first := FirstListed(rows, listing, organizationId, userId);
      r == if first.Some? then Ok(first.value) else Err(NotFound(MemberNotFound))
  {
    MembersOfRows(rows, listing, organizationId);
    FindFirstListed(rows, listing, organizationId, userId);
    MemberId(Found(MembersOf(rows, listing, organizationId)), userId)
  }

  /** The row `id` with its role replaced. */
  function SetRole(rows: map<string, Membership>, id: string, role: Role): (r: map<string, Membership>)
    requires id in rows
    ensures r.Keys == rows.Keys
    ensures r[id] == rows[id].(role := role)
    ensures forall other :: other in rows && other != id ==> r[other] == rows[other]
  {
    rows[id := rows[id].(role := role)]
  }

  /** The owners of an organization. */
  function OwnersOf(rows: map<string, Membership>, organizationId: string): set<string>
  {
    set id | id in rows && rows[id].organizationId == organizationId && rows[id].role == Owner
  }

  /** The listing without `id`. */
  function Without(listing: seq<string>, id: string): (r: seq<string>)
    ensures forall x :: x in r <==> x in listing && x != id
  {
    if listing == [] then []
    else (if listing[0] == id then [] else [listing[0]]) + Without(listing[1..], id)
  }

  /** No id is listed twice. */
  predicate Distinct(listing: seq<string>)
  {
    forall i, j :: 0 <= i < j < |listing| ==> listing[i] != listing[j]
  }

  lemma {:induction false} WithoutDistinct(listing: seq<string>, id: string)
    requires Distinct(listing)
    ensures Distinct(Without(listing, id))
  {
    if listing != [] {
      assert Distinct(listing[1..]) by {
        forall i, j | 0 <= i < j < |listing[1..]|
          ensures listing[1..][i] != listing[1..][j]
        {
          assert listing[1..][i] == listing[i + 1] && listing[1..][j] == listing[j + 1];
        }
      }
      WithoutDistinct(listing[1..], id);
      if listing[0] != id {
        assert listing[0] !in listing[1..];
        ConsDistinct(listing[0], Without(listing[1..], id));
      }
    }
  }

  lemma ConsDistinct(x: string, tail: seq<string>)
    requires Distinct(tail) && x !in tail
    ensures Distinct([x] + tail)
  {
    var r := [x] + tail;
    forall i, j | 0 <= i < j < |r|
      ensures r[i] != r[j]
    {
      assert r[j] == tail[j - 1];
      if i > 0 {
        assert r[i] == tail[i - 1];
      }
    }
  }

  /** A role change keeps every member's id and user id in place. */
  lemma {:induction false} MembersOfSetRole(rows: map<string, Membership>, listing: seq<string>, organizationId: string, id: string, role: Role)
    requires forall x :: x in listing ==> x in rows
    requires id in rows
    ensures var before := MembersOf(rows, listing, organizationId);
      var after := MembersOf(SetRole(rows, id, role), listing, organizationId);
      |after| == |before| &&
      forall k :: 0 <= k < |before| ==> after[k].id == before[k].id && after[k].userId == before[k].userId
  {
    if listing != [] {
      var changed := SetRole(rows, id, role);
      var x := listing[0];
      assert changed[x].organizationId == rows[x].organizationId && changed[x].userId == rows[x].userId;
      MembersOfSetRole(rows, listing[1..], organizationId, id, role);
      var before, after := MembersOf(rows, listing, organizationId), MembersOf(changed, listing, organizationId);
      var restBefore, restAfter := MembersOf(rows, listing[1..], organizationId), MembersOf(changed, listing[1..], organizationId);
      var n := if rows[x].organizationId == organizationId then 1 else 0;
      assert before[n..] == restBefore && after[n..] == restAfter;
      forall k | n <= k < |before|
        ensures after[k].id == before[k].id && after[k].userId == before[k].userId
      {
        assert before[k] == restBefore[k - n] && after[k] == restAfter[k - n];
      }
    }
  }

  /** Changing a role does not change whom any user resolves to. */
  lemma ResolveStableUnderRoleChange(rows: map<string, Membership>, listing: seq<string>, organizationId: string, userId: string, id: string, role: Role)
    requires forall x :: x in listing ==> x in rows
    requires id in rows
    ensures Resolve(SetRole(rows, id, role), listing, organizationId, userId) == Resolve(rows, listing, organizationId, userId)
  {
    MembersOfSetRole(rows, listing, organizationId, id, role);
    MemberIdDependsOnIdentities(MembersOf(rows, listing, organizationId),
                                MembersOf(SetRole(rows, id, role), listing, organizationId), userId);
  }

  /** `updateRole` applied twice with the same role: the second call resolves the same
      member and leaves the table as the first call left it. */
  lemma UpdateRoleIdempotent(rows: map<string, Membership>, listing: seq<string>, organizationId: string, userId: string, role: Role)
    requires forall x :: x in listing ==> x in rows
    requires Resolve(rows, listing, organizationId, userId).Ok?
    ensures var id := Resolve(rows, listing, organizationId, userId).value;
      var once := SetRole(rows, id, role);
      Resolve(once, listing, organizationId, userId) == Ok(id) && SetRole(once, id, role) == once
  {
    var id := Resolve(rows, listing, organizationId, userId).value;
    ResolveStableUnderRoleChange(rows, listing, organizationId, userId, id, role);
  }

  /** Removing the member of one user does not change whom another user resolves to. */
  lemma {:induction false} RemoveKeepsOthers(rows: map<string, Membership>, listing: seq<string>, organizationId: string, userId: string, other: string)
    requires forall x :: x in listing ==> x in rows
    requires Resolve(rows, listing, organizationId, userId).Ok?
    requires other != userId
    ensures var id := Resolve(rows, listing, organizationId, userId).value;
      Resolve(rows - {id}, Without(listing, id), organizationId, other) == Resolve(rows, listing, organizationId, other)
  {
    var id := Resolve(rows, listing, organizationId, userId).value;
    MembersOfRemove(rows, listing, organizationId, id);
    MembersOfRows(rows, listing, organizationId);
    DropIdFind(MembersOf(rows, listing, organizationId), id, other);
  }

  /** Removing row `id` from the table removes it, and only it, from the members list. */
  lemma {:induction false} MembersOfRemove(rows: map<string, Membership>, listing: seq<string>, organizationId: string, id: string)
    requires forall x :: x in listing ==> x in rows
    requires id in rows
    ensures MembersOf(rows - {id}, Without(listing, id), organizationId) ==
      DropId(MembersOf(rows, listing, organizationId), id)
  {
    if listing != [] {
      var x := listing[0];
      MembersOfRemove(rows, listing[1..], organizationId, id);
      var m := rows[x];
      var head := if m.organizationId == organizationId then [MemberRow(x, m.userId, m.role)] else [];
      var tail := MembersOf(rows, listing[1..], organizationId);
      assert MembersOf(rows, listing, organizationId) == head + tail;
      if head == [] {
        assert head + tail == tail;
      } else {
        assert (head + tail)[0] == head[0] && (head + tail)[1..] == tail;
      }
      if x == id {
        assert Without(listing, id) == Without(listing[1..], id);
      } else {
        var rest := Without(listing[1..], id);
        assert Without(listing, id) == [x] + rest;
        assert ([x] + rest)[0] == x && ([x] + rest)[1..] == rest;
        assert (rows - {id})[x] == m;
      }
    }
  }

  /** The member list without the row `id`. */
  function DropId(members: seq<MemberRow>, id: string): seq<MemberRow>
  {
    if members == [] then []
    else if members[0].id == id then DropId(members[1..], id)
    else [members[0]] + DropId(members[1..], id)
  }

  /** `find` for `other` is unaffected by dropping the rows of id `id`, when none of
      them belongs to `other`. */
  lemma {:induction false} DropIdFind(members: seq<MemberRow>, id: string, other: string)
    requires forall k :: 0 <= k < |members| && members[k].id == id ==> members[k].userId != other
    ensures FindMember(DropId(members, id), other) == FindMember(members, other)
  {
    if members != [] {
      DropIdFind(members[1..], id, other);
      if members[0].id == id {
        assert DropId(members, id) == DropId(members[1..], id);
      } else {
        var rest := DropId(members[1..], id);
        assert DropId(members, id) == [members[0]] + rest;
        assert ([members[0]] + rest)[1..] == rest;
      }
    }
  }

  /** If the table lists each user at most once per organization, a resolved user
      no longer resolves after the removal. */
  lemma RemovedUserGone(rows: map<string, Membership>, listing: seq<string>, organizationId: string, userId: string)
    requires forall x :: x in listing ==> x in rows
    requires Resolve(rows, listing, organizationId, userId).Ok?
    requires forall a, b :: a in rows && b in rows && a != b ==>
      !(rows[a].userId == rows[b].userId && rows[a].organizationId == rows[b].organizationId)
    ensures var id := Resolve(rows, listing, organizationId, userId).value;
      Resolve(rows - {id}, Without(listing, id), organizationId, userId).Err?
  {
    var id := Resolve(rows, listing, organizationId, userId).value;
  }

  /**
   * Ownership transfer from the sole owner to another user: the promotion
   * makes two owners, the demotion brings it back to exactly one, the new
   * owner, and no other row changes.
   */
  lemma TransferFromSoleOwner(rows: map<string, Membership>, listing: seq<string>, organizationId: string, newOwnerId: string, currentOwnerId: string)
    requires forall x :: x in listing ==> x in rows
    requires Resolve(rows, listing, organizationId, newOwnerId).Ok?
    requires Resolve(rows, listing, organizationId, currentOwnerId).Ok?
    requires newOwnerId != currentOwnerId
    requires OwnersOf(rows, organizationId) == {Resolve(rows, listing, organizationId, currentOwnerId).value}
    ensures var n := Resolve(rows, listing, organizationId, newOwnerId).value;
      var c := Resolve(rows, listing, organizationId, currentOwnerId).value;
      var mid := SetRole(rows, n, Owner);
      var final := SetRole(mid, c, Member);
      && OwnersOf(mid, organizationId) == {n, c} && n != c
      && OwnersOf(final, organizationId) == {n}
      && final[n].role == Owner && final[c].role == Member
      && forall id :: id in rows && id != n && id != c ==> final[id] == rows[id]
  {
    var n := Resolve(rows, listing, organizationId, newOwnerId).value;
    var c := Resolve(rows, listing, organizationId, currentOwnerId).value;
    assert n != c by {
      assert rows[n].userId == newOwnerId && rows[c].userId == currentOwnerId;
    }
    HandOver(rows, organizationId, n, c);
  }

  /** Promoting row `n` and then demoting the sole owner row `c` of the same organization. */
  lemma HandOver(rows: map<string, Membership>, organizationId: string, n: string, c: string)
    requires n in rows && c in rows && n != c
    requires rows[n].organizationId == organizationId
    requires OwnersOf(rows, organizationId) == {c}
    ensures var mid := SetRole(rows, n, Owner);
      var final := SetRole(mid, c, Member);
      && OwnersOf(mid, organizationId) == {n, c}
      && OwnersOf(final, organizationId) == {n}
      && final[n].role == Owner && final[c].role == Member
      && forall id :: id in rows && id != n && id != c ==> final[id] == rows[id]
  {
    var mid := SetRole(rows, n, Owner);
    var final := SetRole(mid, c, Member);
    assert c in OwnersOf(rows, organizationId);
    assert OwnersOf(mid, organizationId) == OwnersOf(rows, organizationId) + {n};
    assert OwnersOf(final, organizationId) == OwnersOf(mid, organizationId) - {c};
  }

  /** Transfer to oneself demotes the caller: the second write wins. */
  lemma SelfTransferDemotes(rows: map<string, Membership>, listing: seq<string>, organizationId: string, ownerId: string)
    requires forall x :: x in listing ==> x in rows
    requires Resolve(rows, listing, organizationId, ownerId).Ok?
    ensures var c := Resolve(rows, listing, organizationId, ownerId).value;
      var final := SetRole(SetRole(rows, c, Owner), c, Member);
      final == SetRole(rows, c, Member) &&
      (OwnersOf(rows, organizationId) == {c} ==> OwnersOf(final, organizationId) == {})
  {
    var c := Resolve(rows, listing, organizationId, ownerId).value;
    var final := SetRole(SetRole(rows, c, Owner), c, Member);
    assert final == SetRole(rows, c, Member);
    if OwnersOf(rows, organizationId) == {c} {
      forall x: string
        ensures x !in OwnersOf(final, organizationId)
      {
        if x == c {
          assert final[c].role == Member;
        } else if x in rows {
          assert final[x] == rows[x];
          assert x !in OwnersOf(rows, organizationId);
        }
      }
    }
  }

  // ---------------------------------------------------------------------
  // The service over the table

  class MembershipTable {
    var rows: map<string, Membership>
    var listing: seq<string>
    /** The table after each library write, oldest first. */
    ghost var history: seq<map<string, Membership>>

    ghost predicate Valid()
      reads this
    {
      WellListed(rows, listing)
    }

    constructor (rows: map<string, Membership>, listing: seq<string>)
      requires WellListed(rows, listing)
      ensures Valid() && this.rows == rows && this.listing == listing && history == []
    {
      this.rows := rows;
      this.listing := listing;
      history := [];
    }

    /** What `getFullOrganization` returns for an organization of this table. */
    function Members(organizationId: string): seq<MemberRow>
      reads this
      requires Valid()
    {
      MembersOf(rows, listing, organizationId)
    }

    /** `getMemberId(organizationId, userId)` */
    method GetMemberId(organizationId: string, userId: string) returns (r: Outcome<string>)
      requires Valid()
      ensures r == Resolve(rows, listing, organizationId, userId)
    {
      var org := Found(Members(organizationId));
      r := MemberId(org, userId);
    }

    /** `auth.api.updateMemberRole({ memberId, role })`: one write. */
    method WriteRole(memberId: string, role: Role, accepted: bool) returns (r: Outcome<Membership>)
      requires Valid() && memberId in rows
      modifies this`rows, this`history
      ensures Valid()
      ensures accepted ==> rows == SetRole(old(rows), memberId, role) && history == old(history) + [rows] && r == Ok(rows[memberId])
      ensures !accepted ==> rows == old(rows) && history == old(history) && r == Err(Upstream(WriteRefused))
    {
      if !accepted {
        return Err(Upstream(WriteRefused));
      }
      rows := SetRole(rows, memberId, role);
      history := history + [rows];
      r := Ok(rows[memberId]);
    }

    /** `removeMember(organizationId, userId)` */
    method RemoveMember(organizationId: string, userId: string, accepted: bool) returns (r: Outcome<Membership>)
      requires Valid()
      modifies this`rows, this`listing, this`history
      ensures Valid()
      ensures var id := Resolve(old(rows), old(listing), organizationId, userId);
        && (id.Err? ==> r == Err(id.error) && rows == old(rows) && listing == old(listing) && history == old(history))
        && (id.Ok? && !accepted ==> r.Err? && rows == old(rows) && listing == old(listing) && history == old(history))
        && (id.Ok? && accepted ==>
            && r == Ok(old(rows)[id.value])
            && rows == old(rows) - {id.value}
            && listing == Without(old(listing), id.value)
            && history == old(history) + [rows])
    {
      var memberId := GetMemberId(organizationId, userId);
      if memberId.Err? {
        return Err(memberId.error);
      }
      if !accepted {
        return Err(Upstream(WriteRefused));
      }
      var id := memberId.value;
      r := Ok(rows[id]);
      WithoutDistinct(listing, id);
      rows := rows - {id};
      listing := Without(listing, id);
      history := history + [rows];
    }

    /** `updateRole(organizationId, userId, role)`; `owner` is not refused. */
    method UpdateRole(organizationId: string, userId: string, role: Role, accepted: bool) returns (r: Outcome<Membership>)
      requires Valid()
      modifies this`rows, this`history
      ensures Valid() && listing == old(listing)
      ensures var id := Resolve(old(rows), listing, organizationId, userId);
        && (id.Err? ==> r == Err(id.error) && rows == old(rows) && history == old(history))
        && (id.Ok? && !accepted ==> r.Err? && rows == old(rows) && history == old(history))
        && (id.Ok? && accepted ==>
            && rows == SetRole(old(rows), id.value, role)
            && r == Ok(rows[id.value])
            && history == old(history) + [rows])
    {
      var memberId := GetMemberId(organizationId, userId);
      if memberId.Err? {
        return Err(memberId.error);
      }
      r := WriteRole(memberId.value, role, accepted);
    }

    /**
     * `transferOwnership(organizationId, newOwnerId, currentOwnerId)`: both
     * members are resolved first; then two separate writes, promotion before
     * demotion, with nothing undone if the demotion is refused.
     */
    method TransferOwnership(organizationId: string, newOwnerId: string, currentOwnerId: string,
                             promoteAccepted: bool, demoteAccepted: bool) returns (r: Outcome<string>)
      requires Valid()
      modifies this`rows, this`history
      ensures Valid() && listing == old(listing)
      ensures var n := Resolve(old(rows), listing, organizationId, newOwnerId);
        var c := Resolve(old(rows), listing, organizationId, currentOwnerId);
        && (n.Err? ==> r == Err(n.error) && rows == old(rows) && history == old(history))
        && (n.Ok? && c.Err? ==> r == Err(c.error) && rows == old(rows) && history == old(history))
        && (n.Ok? && c.Ok? && !promoteAccepted ==> r.Err? && rows == old(rows) && history == old(history))
        && (n.Ok? && c.Ok? && promoteAccepted && !demoteAccepted ==>
            // the promotion stays: no rollback
            r.Err? && rows == SetRole(old(rows), n.value, Owner) && history == old(history) + [rows])
        && (n.Ok? && c.Ok? && promoteAccepted && demoteAccepted ==>
            && r == Ok(TransferDone)
            && history == old(history) + [SetRole(old(rows), n.value, Owner), rows]
            && c.value in SetRole(old(rows), n.value, Owner)
            && rows == SetRole(SetRole(old(rows), n.value, Owner), c.value, Member))
    {
      var newOwnerMemberId := GetMemberId(organizationId, newOwnerId);
      if newOwnerMemberId.Err? {
        return Err(newOwnerMemberId.error);
      }
      var currentOwnerMemberId := GetMemberId(organizationId, currentOwnerId);
      if currentOwnerMemberId.Err? {
        return Err(currentOwnerMemberId.error);
      }
      r := PromoteThenDemote(newOwnerMemberId.value, currentOwnerMemberId.value, promoteAccepted, demoteAccepted);
    }

    /** The two writes of `transferOwnership` on resolved member ids. */
    method PromoteThenDemote(n: string, c: string, promoteAccepted: bool, demoteAccepted: bool) returns (r: Outcome<string>)
      requires Valid() && n in rows && c in rows
      modifies this`rows, this`history
      ensures Valid() && listing == old(listing)
      ensures !promoteAccepted ==> r.Err? && rows == old(rows) && history == old(history)
      ensures promoteAccepted && !demoteAccepted ==>
        r.Err? && rows == SetRole(old(rows), n, Owner) && history == old(history) + [rows]
      ensures promoteAccepted && demoteAccepted ==>
        && r == Ok(TransferDone)
        && history == old(history) + [SetRole(old(rows), n, Owner), rows]
        && rows == SetRole(SetRole(old(rows), n, Owner), c, Member)
    {
      // 1. promote the new owner
      var promoted := WriteRole(n, Owner, promoteAccepted);
      if promoted.Err? {
        return Err(promoted.error);
      }

      // 2. demote the current owner
      var demoted := WriteRole(c, Member, demoteAccepted);
      if demoted.Err? {
        return Err(demoted.error);
      }
      return Ok(TransferDone);
    }
  }
}
