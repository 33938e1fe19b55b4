/**
 * The outlines service: a table of outline rows scoped by organization,
 * with the reviewer of each outline required to be an owner or admin of
 * that organization.
 *
 * Row ids are issued from a counter and the creation time is supplied by
 * the caller; the database generates both in the running system.
 */
module Outlines {
  import opened Wrappers
  import opened Exceptions
  import opened Directory

  const ReviewerNotMember := "Reviewer must be a member of this organization"
  const ReviewerNotPrivileged := "Reviewer must be an owner or admin"
  const OutlineNotFound := "Outline not found"
  /** The column default of `status`. */
  const Pending := "PENDING"

  /** One outline row. */
  datatype Outline = Outline(
    id: nat,
    organizationId: string,
    header: string,
    sectionType: string,
    status: string,
    target: int,
    limit: int,
    reviewerId: string,
    createdAt: int)

  /** The create body after whitelisting: only the declared fields. */
  datatype CreateOutlineDto = CreateOutlineDto(
    header: string,
    sectionType: string,
    status: Option<string>,
    target: int,
    limit: int,
    reviewerId: string)

  /** The update body: every field of the create body, each optional. */
  datatype UpdateOutlineDto = UpdateOutlineDto(
    header: Option<string>,
    sectionType: Option<string>,
    status: Option<string>,
    target: Option<int>,
    limit: Option<int>,
    reviewerId: Option<string>)

  /** The membership rows keyed by the compound unique key (userId, organizationId). */
  type MemberKeys = map<(string, string), Role>

  /** The reviewer validation shared by `create` and `update`. */
  function ReviewerCheck(members: MemberKeys, organizationId: string, reviewerId: string): (r: Outcome<()>)
    ensures r.Ok? <==> (reviewerId, organizationId) in members && members[(reviewerId, organizationId)] != Member
    ensures (reviewerId, organizationId) !in members ==> r == Err(BadRequest(ReviewerNotMember))
    ensures (reviewerId, organizationId) in members && members[(reviewerId, organizationId)] == Member ==>
      r == Err(BadRequest(ReviewerNotPrivileged))
  {
    var key := (reviewerId, organizationId);
    if key !in members then Err(BadRequest(ReviewerNotMember))
    else if RoleName(members[key]) != "owner" && RoleName(members[key]) != "admin" then
      Err(BadRequest(ReviewerNotPrivileged))
    else Ok(())
  }

  /** The row `create` writes: the body spread, then the path organization. */
  function NewOutline(id: nat, organizationId: string, dto: CreateOutlineDto, now: int): (o: Outline)
    ensures o.id == id && o.organizationId == organizationId && o.createdAt == now
    ensures o.header == dto.header && o.sectionType == dto.sectionType
    ensures o.target == dto.target && o.limit == dto.limit && o.reviewerId == dto.reviewerId
    ensures o.status == (if dto.status.Some? then dto.status.value else Pending)
  {
    Outline(id, organizationId, dto.header, dto.sectionType,
            if dto.status.None? then Pending else dto.status.value,
            dto.target, dto.limit, dto.reviewerId, now)
  }

  function Pick<T>(given: Option<T>, current: T): T
  {
    if given.Some? then given.value else current
  }

  /** `update({ where: { id }, data })`: the given fields replace the row's;
      id, organization and creation time never change. */
  function Patch(o: Outline, dto: UpdateOutlineDto): (p: Outline)
    ensures p.id == o.id && p.organizationId == o.organizationId && p.createdAt == o.createdAt
    ensures dto.header.Some? ==> p.header == dto.header.value
    ensures dto.header.None? ==> p.header == o.header
    ensures dto.sectionType.Some? ==> p.sectionType == dto.sectionType.value
    ensures dto.sectionType.None? ==> p.sectionType == o.sectionType
    ensures dto.status.Some? ==> p.status == dto.status.value
    ensures dto.status.None? ==> p.status == o.status
    ensures dto.target.Some? ==> p.target == dto.target.value
    ensures dto.target.None? ==> p.target == o.target
    ensures dto.limit.Some? ==> p.limit == dto.limit.value
    ensures dto.limit.None? ==> p.limit == o.limit
    ensures dto.reviewerId.Some? ==> p.reviewerId == dto.reviewerId.value
    ensures dto.reviewerId.None? ==> p.reviewerId == o.reviewerId
  {
    o.(header := Pick(dto.header, o.header),
       sectionType := Pick(dto.sectionType, o.sectionType),
       status := Pick(dto.status, o.status),
       target := Pick(dto.target, o.target),
       limit := Pick(dto.limit, o.limit),
       reviewerId := Pick(dto.reviewerId, o.reviewerId))
  }

  /** An empty update leaves the row as it was. */
  lemma EmptyPatch(o: Outline)
    ensures Patch(o, UpdateOutlineDto(None, None, None, None, None, None)) == o
  {
  }

  // ---------------------------------------------------------------------
  // Ordering

  /** Ordered by `createdAt`, newest first. */
  predicate NewestFirst(s: seq<Outline>)
  {
    forall i, j :: 0 <= i < j < |s| ==> s[i].createdAt >= s[j].createdAt
  }

  /** No row appears twice. */
  predicate DistinctIds(s: seq<Outline>)
  {
    forall i, j :: 0 <= i < j < |s| ==> s[i].id != s[j].id
  }

  /** `o` inserted into a newest-first list before the first older row. */
  function Insert(s: seq<Outline>, o: Outline): (r: seq<Outline>)
    ensures |r| == |s| + 1
    ensures forall x :: x in r <==> x in s || x == o
  {
    if s == [] then [o]
    else if o.createdAt >= s[0].createdAt then [o] + s
    else
      var rest := Insert(s[1..], o);
      assert forall x :: x in s[1..] ==> x in s;
      [s[0]] + rest
  }

  lemma {:induction false} InsertNewestFirst(s: seq<Outline>, o: Outline)
    requires NewestFirst(s)
    ensures NewestFirst(Insert(s, o))
  {
    if s != [] && o.createdAt < s[0].createdAt {
      InsertNewestFirst(s[1..], o);
      var rest := Insert(s[1..], o);
      var r := [s[0]] + rest;
      assert Insert(s, o) == r;
      forall i, j | 0 <= i < j < |r|
        ensures r[i].createdAt >= r[j].createdAt
      {
        assert r[j] == rest[j - 1] && r[j] in rest;
        if i > 0 {
          assert r[i] == rest[i - 1];
        } else if r[j] != o {
          var k :| 0 <= k < |s[1..]| && s[1..][k] == r[j];
          assert s[k + 1] == r[j];
        }
      }
    } else if s != [] {
      var r := [o] + s;
      assert Insert(s, o) == r;
      forall i, j | 0 <= i < j < |r|
        ensures r[i].createdAt >= r[j].createdAt
      {
        assert r[j] == s[j - 1];
        if i > 0 {
          assert r[i] == s[i - 1];
        }
      }
    }
  }

  lemma {:induction false} InsertDistinct(s: seq<Outline>, o: Outline)
    requires DistinctIds(s)
    requires forall x :: x in s ==> x.id != o.id
    ensures DistinctIds(Insert(s, o))
  {
    if s != [] && o.createdAt < s[0].createdAt {
      assert forall x :: x in s[1..] ==> x in s;
      InsertDistinct(s[1..], o);
      var rest := Insert(s[1..], o);
      var r := [s[0]] + rest;
      assert Insert(s, o) == r;
      forall i, j | 0 <= i < j < |r|
        ensures r[i].id != r[j].id
      {
        assert r[j] == rest[j - 1] && r[j] in rest;
        if i > 0 {
          assert r[i] == rest[i - 1];
        } else {
          assert r[j].id != s[0].id;
        }
      }
    } else if s != [] {
      var r := [o] + s;
      assert Insert(s, o) == r;
      forall i, j | 0 <= i < j < |r|
        ensures r[i].id != r[j].id
      {
        assert r[j] == s[j - 1] && r[j] in s;
        if i > 0 {
          assert r[i] == s[i - 1];
        }
      }
    }
  }

  /** Every row stores its own key. */
  predicate KeyedById(outlines: map<nat, Outline>)
  {
    forall k :: k in outlines ==> outlines[k].id == k
  }

  /** The organization's rows among ids below `n`, newest first. */
  function Collect(outlines: map<nat, Outline>, organizationId: string, n: nat): (r: seq<Outline>)
    requires KeyedById(outlines)
    ensures forall x :: x in r <==> x.id < n && x.id in outlines && outlines[x.id] == x && x.organizationId == organizationId
    ensures NewestFirst(r) && DistinctIds(r)
  {
    if n == 0 then []
    else
      var before := Collect(outlines, organizationId, n - 1);
      var k := n - 1;
      if k in outlines && outlines[k].organizationId == organizationId then
        InsertDistinct(before, outlines[k]);
        InsertNewestFirst(before, outlines[k]);
        Insert(before, outlines[k])
      else before
  }

  // ---------------------------------------------------------------------
  // The service

  class OutlineStore {
    var outlines: map<nat, Outline>
    var nextId: nat
    /** The membership rows the reviewer checks read. */
    const members: MemberKeys

    ghost predicate Valid()
      reads this
    {
      KeyedById(outlines) && forall k :: k in outlines ==> k < nextId
    }

    constructor (members: MemberKeys)
      ensures Valid() && outlines == map[] && nextId == 0 && this.members == members
    {
      outlines := map[];
      nextId := 0;
      this.members := members;
    }

    /** `findOne(organizationId, id)`: `findFirst({ id, organizationId })`. */
    function FindOne(organizationId: string, id: nat): (r: Outcome<Outline>)
      reads this
      ensures r.Ok? <==> id in outlines && outlines[id].organizationId == organizationId
      ensures r.Ok? ==> r.value == outlines[id]
      ensures r.Err? ==> r.error == NotFound(OutlineNotFound)
    {
      if id in outlines && outlines[id].organizationId == organizationId then Ok(outlines[id])
      else Err(NotFound(OutlineNotFound))
    }

    /** `findAll(organizationId)`: the organization's rows, newest first. */
    function FindAll(organizationId: string): (r: seq<Outline>)
      reads this
      requires Valid()
      ensures forall x :: x in r <==> x.id in outlines && outlines[x.id] == x && x.organizationId == organizationId
      ensures NewestFirst(r) && DistinctIds(r)
    {
      Collect(outlines, organizationId, nextId)
    }

    /** `create(organizationId, dto)` */
    method Create(organizationId: string, dto: CreateOutlineDto, now: int) returns (r: Outcome<Outline>)
      requires Valid()
      modifies this`outlines, this`nextId
      ensures Valid()
      ensures var check := ReviewerCheck(members, organizationId, dto.reviewerId);
        && (check.Err? ==> r == Err(check.error) && outlines == old(outlines) && nextId == old(nextId))
        && (check.Ok? ==>
            && r == Ok(NewOutline(old(nextId), organizationId, dto, now))
            && old(nextId) !in old(outlines)
            && outlines == old(outlines)[old(nextId) := r.value]
            && nextId == old(nextId) + 1)
    {
      var check := ReviewerCheck(members, organizationId, dto.reviewerId);
      if check.Err? {
        return Err(check.error);
      }
      var o := NewOutline(nextId, organizationId, dto, now);
      outlines := outlines[nextId := o];
      nextId := nextId + 1;
      r := Ok(o);
    }

    /** `update(organizationId, id, dto)`: existence first, then the reviewer
        when one is given (a non-empty string), then the write. */
    method Update(organizationId: string, id: nat, dto: UpdateOutlineDto) returns (r: Outcome<Outline>)
      requires Valid()
      modifies this`outlines
      ensures Valid() && nextId == old(nextId)
      ensures var found := old(FindOne(organizationId, id));
        var checked := dto.reviewerId.Some? && dto.reviewerId.value != "";
        var check := ReviewerCheck(members, organizationId, if checked then dto.reviewerId.value else "");
        && (found.Err? ==> r == Err(found.error) && outlines == old(outlines))
        && (found.Ok? && checked && check.Err? ==> r == Err(check.error) && outlines == old(outlines))
        && (found.Ok? && (!checked || check.Ok?) ==>
            && r == Ok(Patch(found.value, dto))
            && outlines == old(outlines)[id := r.value])
    {
      var found := FindOne(organizationId, id);
      if found.Err? {
        return Err(found.error);
      }
      if dto.reviewerId.Some? && dto.reviewerId.value != "" {
        var check := ReviewerCheck(members, organizationId, dto.reviewerId.value);
        if check.Err? {
          return Err(check.error);
        }
      }
      var updated := Patch(outlines[id], dto);
      outlines := outlines[id := updated];
      r := Ok(updated);
    }

    /** `remove(organizationId, id)` */
    method Remove(organizationId: string, id: nat) returns (r: Outcome<Outline>)
      requires Valid()
      modifies this`outlines
      ensures Valid() && nextId == old(nextId)
      ensures var found := old(FindOne(organizationId, id));
        && (found.Err? ==> r == found && outlines == old(outlines))
        && (found.Ok? ==> r == found && outlines == old(outlines) - {id})
    {
      var found := FindOne(organizationId, id);
      if found.Err? {
        return found;
      }
      outlines := outlines - {id};
      r := found;
    }
  }

  /** The listing and the single lookup agree: a row is listed for an
      organization exactly when `findOne` finds it there. */
  lemma FindAllAgreesWithFindOne(store: OutlineStore, organizationId: string, x: Outline)
    requires store.Valid()
    ensures x in store.FindAll(organizationId) <==> store.FindOne(organizationId, x.id) == Ok(x)
  {
  }

  /** Removal within one organization never changes a row visible to another. */
  lemma RemoveIsScoped(outlines: map<nat, Outline>, organizationId: string, id: nat, other: string, k: nat)
    requires id in outlines && outlines[id].organizationId == organizationId
    requires other != organizationId
    requires k in outlines && outlines[k].organizationId == other
    ensures k in outlines - {id} && (outlines - {id})[k] == outlines[k]
  {
  }
}
