/**
 * The passport configuration of the application: the local-strategy verify
 * callback, which looks a member up by email and checks the password, and
 * the session (de)serialisers, which store a member's email in the session
 * and look the member up again from it.
 *
 * The password comparison (bcrypt in the Member model) is a parameter.
 */
module Authentication {
  import opened Wrappers

  /** The fields of a Member row that the callbacks read. */
  datatype Member = Member(email: string, passwordHash: string)

  /** What the verify callback passes to `done`: the member, or `false` with a message. */
  datatype VerifyResult = Authenticated(member: Member) | Rejected(message: string)

  const MemberNotFound := "Member not found."
  const IncorrectPassword := "Incorrect password."

  /** No two members share an email (the email is the Member table's key). */
  predicate UniqueEmails(members: seq<Member>)
  {
    forall i, j :: 0 <= i < j < |members| ==> members[i].email != members[j].email
  }

  /** `Member.findOne({ where: { email } })`: the first member with that email, if any. */
  function FindOne(members: seq<Member>, email: string): (r: Option<Member>)
    ensures r.Some? ==> r.value in members && r.value.email == email
    ensures r.None? <==> forall m :: m in members ==> m.email != email
  {
    if members == [] then None
    else if members[0].email == email then Some(members[0])
    else FindOne(members[1..], email)
  }

  /**
   * The local-strategy verify callback: no member with the email is a
   * failure "Member not found.", a failed password check is a failure
   * "Incorrect password.", and otherwise the member is authenticated.
   */
  function Verify(members: seq<Member>, username: string, password: string,
                  comparePassword: (string, Member) -> bool): (r: VerifyResult)
    ensures r == Rejected(MemberNotFound) <==> forall m :: m in members ==> m.email != username
    ensures r.Authenticated? ==> r.member in members && r.member.email == username && comparePassword(password, r.member)
    ensures r == Rejected(IncorrectPassword) ==>
      exists m :: m in members && m.email == username && !comparePassword(password, m)
    ensures r.Authenticated? || r == Rejected(MemberNotFound) || r == Rejected(IncorrectPassword)
  {
    match FindOne(members, username)
    case None => Rejected(MemberNotFound)
    case Some(member) =>
      if !comparePassword(password, member) then Rejected(IncorrectPassword)
      else Authenticated(member)
  }

  /** `serializeUser`: the session keeps the member's email. */
  function SerializeUser(member: Member): (id: string)
  {
    member.email
  }

  /** `deserializeUser`: the member with the session's email, or none (`null`). */
  function DeserializeUser(members: seq<Member>, id: string): (r: Option<Member>)
    ensures r.Some? ==> r.value in members && r.value.email == id
    ensures r.None? <==> forall m :: m in members ==> m.email != id
  {
    FindOne(members, id)
  }

  /** With unique emails, the member with the given email is the one the lookup returns. */
  lemma FindOneUnique(members: seq<Member>, m: Member)
    requires UniqueEmails(members) && m in members
    ensures FindOne(members, m.email) == Some(m)
  {
    var r := FindOne(members, m.email);
    var i :| 0 <= i < |members| && members[i] == r.value;
    var j :| 0 <= j < |members| && members[j] == m;
    assert i == j;
  }

  /** With unique emails, verification decides on exactly the member who owns the email. */
  lemma VerifyOwnMember(members: seq<Member>, m: Member, password: string, comparePassword: (string, Member) -> bool)
    requires UniqueEmails(members) && m in members
    ensures Verify(members, m.email, password, comparePassword) ==
      if comparePassword(password, m) then Authenticated(m) else Rejected(IncorrectPassword)
  {
    FindOneUnique(members, m);
  }

  /** With unique emails, deserialising a serialised member gives back that member. */
  lemma SessionRoundTrip(members: seq<Member>, m: Member)
    requires UniqueEmails(members) && m in members
    ensures DeserializeUser(members, SerializeUser(m)) == Some(m)
  {
    FindOneUnique(members, m);
  }

  /** A member who logs in is found again from their session on every later request. */
  lemma LoginSessionRestoresMember(members: seq<Member>, username: string, password: string,
                                   comparePassword: (string, Member) -> bool)
    requires UniqueEmails(members)
    requires Verify(members, username, password, comparePassword).Authenticated?
    ensures var m := Verify(members, username, password, comparePassword).member;
      DeserializeUser(members, SerializeUser(m)) == Some(m)
  {
    SessionRoundTrip(members, Verify(members, username, password, comparePassword).member);
  }
}
