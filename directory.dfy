/**
 * The organization directory as the core sees it through the identity
 * library's `getFullOrganization`: a list of member rows, `null`, or a
 * thrown error.
 */
module Directory {
  import opened Wrappers
  import opened Exceptions

  /** The three membership roles. */
  datatype Role = Member | Admin | Owner

  /** The role as the string the code compares against. */
  function RoleName(r: Role): (s: string)
    ensures s != ""
    ensures s == "owner" <==> r == Owner
    ensures s == "admin" <==> r == Admin
    ensures s == "member" <==> r == Member
  {
    match r
    case Member => "member"
    case Admin => "admin"
    case Owner => "owner"
  }

  /** One entry of an organization's `members` list. */
  datatype MemberRow = MemberRow(id: string, userId: string, role: Role)

  /** What one call of `getFullOrganization` produced. */
  datatype Lookup =
    | Found(members: seq<MemberRow>)
    | NoOrg                      // the call returned null
    | Failed(error: Exception)   // the call threw

  /** `i` is the position of the first row of `members` belonging to `userId`. */
  predicate IsFirstMatch(members: seq<MemberRow>, userId: string, i: int)
  {
    0 <= i < |members| && members[i].userId == userId &&
    forall j :: 0 <= j < i ==> members[j].userId != userId
  }

  /** `members.find(m => m.userId === userId)` */
  function FindMember(members: seq<MemberRow>, userId: string): (m: Option<MemberRow>)
    ensures m.Some? <==> exists i :: 0 <= i < |members| && members[i].userId == userId
    ensures m.Some? ==> exists i :: IsFirstMatch(members, userId, i) && members[i] == m.value
  {
    if members == [] then None
    else if members[0].userId == userId then
      assert IsFirstMatch(members, userId, 0);
      Some(members[0])
    else
      var m := FindMember(members[1..], userId);
      if m.Some? then
        var i :| IsFirstMatch(members[1..], userId, i) && members[1..][i] == m.value;
        assert IsFirstMatch(members, userId, i + 1);
        m
      else
        m
  }

  /** The first match is unique. */
  lemma FirstMatchUnique(members: seq<MemberRow>, userId: string, i: int, j: int)
    requires IsFirstMatch(members, userId, i) && IsFirstMatch(members, userId, j)
    ensures i == j
  {
  }

  /** `org?.members.find(m => m.userId === userId)`: the row found in a
      directory answer, if any; `null` and a failure both find nothing. */
  function FindIn(l: Lookup, userId: string): (m: Option<MemberRow>)
    ensures m.Some? ==> l.Found? && m == FindMember(l.members, userId) && m.value.userId == userId
    ensures l.Found? ==> m == FindMember(l.members, userId)
    ensures !l.Found? ==> m.None?
  {
    if l.Found? then FindMember(l.members, userId) else None
  }

  /**
   * The directory the guards consult. `answers` fixes what the library
   * returns for each organization; `queried` records every call, so that a
   * guard's contract can say whether it looked at all.
   */
  class OrgDirectory {
    const answers: map<string, Lookup>
    var queried: seq<string>

    constructor (answers: map<string, Lookup>)
      ensures this.answers == answers && queried == []
    {
      this.answers := answers;
      queried := [];
    }

    /** The answer for an organization; one the library does not know is `null`. */
    function AnswerFor(organizationId: string): Lookup
    {
      if organizationId in answers then answers[organizationId] else NoOrg
    }

    method GetFullOrganization(organizationId: string) returns (l: Lookup)
      modifies this`queried
      ensures l == AnswerFor(organizationId)
      ensures queried == old(queried) + [organizationId]
    {
      l := AnswerFor(organizationId);
      queried := queried + [organizationId];
    }
  }
}
