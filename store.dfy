/**
 * The mock backend's datastore (src/app/api/_store/db.ts): one record of flat
 * collections that every route handler reads, mutates in memory and writes
 * back. Timestamps, stored by the source as ISO strings or milliseconds, are
 * integers (milliseconds) here.
 */
module Store {
  import opened Wrappers

  datatype User = User(
    id: string,
    phone: string,
    email: Option<string>,
    firstName: Option<string>,
    lastName: Option<string>,
    nickname: Option<string>,
    language: string,
    dateOfBirth: Option<string>,
    gender: Option<string>,
    referrer: Option<string>,
    createdAt: int)

  /** A user record as the API returns it: everything but `createdAt`. */
  datatype Profile = Profile(
    id: string,
    phone: string,
    email: Option<string>,
    firstName: Option<string>,
    lastName: Option<string>,
    nickname: Option<string>,
    language: string,
    dateOfBirth: Option<string>,
    gender: Option<string>,
    referrer: Option<string>)

  function ProfileOf(u: User): Profile
  {
    Profile(u.id, u.phone, u.email, u.firstName, u.lastName, u.nickname, u.language,
            u.dateOfBirth, u.gender, u.referrer)
  }

  /** `location` is a JSON object in the source; it is kept opaque here. */
  datatype Club = Club(
    id: string,
    name: string,
    description: Option<string>,
    clubType: Option<string>,
    levelsAccepted: Option<seq<string>>,
    location: Option<string>,
    badge: Option<string>,
    rules: Option<string>,
    joinMode: Option<string>,
    isAcceptingNewMembers: Option<bool>,
    activeMemberLimit: Option<int>,
    createdAt: int,
    updatedAt: int)

  datatype Role = Admin | Member
  datatype MemberStatus = Active | Inactive | Removed

  datatype Membership = Membership(
    id: string,
    userId: string,
    clubId: string,
    role: Role,
    status: MemberStatus,
    showPhoneToMembers: bool,
    showEmailToMembers: bool,
    adminNotes: Option<string>,
    createdAt: int)

  datatype Invite = Invite(
    id: string,
    clubId: string,
    token: string,
    targetPhone: Option<string>,
    targetEmail: Option<string>,
    status: string,
    createdAt: int)

  datatype ApplicationStatus = Pending | Approved | Rejected | Cancelled

  datatype Application = Application(
    id: string,
    clubId: string,
    userId: string,
    status: ApplicationStatus,
    denialReason: Option<string>,
    denialNotes: Option<string>,
    createdAt: int)

  datatype Otp = Otp(phone: string, code: string, createdAt: int, used: bool)

  datatype TokenType = Access | Refresh

  datatype TokenRow = TokenRow(
    token: string,
    userId: string,
    tokenType: TokenType,
    createdAt: int,
    expiresAt: int,
    revoked: bool)

  datatype AuditLog = AuditLog(
    id: string,
    clubId: string,
    action: string,
    eventCategory: string,
    targetType: Option<string>,
    targetId: Option<string>,
    actorUserId: Option<string>,
    result: string,
    statusCode: int,
    createdAt: int)

  /** What a caller of addAuditLog supplies: an audit entry without id and time. */
  datatype AuditEntry = AuditEntry(
    clubId: string,
    action: string,
    eventCategory: string,
    targetType: Option<string>,
    targetId: Option<string>,
    actorUserId: Option<string>,
    result: string,
    statusCode: int)

  function Stamp(e: AuditEntry, id: string, now: int): AuditLog
  {
    AuditLog(id, e.clubId, e.action, e.eventCategory, e.targetType, e.targetId,
             e.actorUserId, e.result, e.statusCode, now)
  }

  datatype Notification = Notification(
    id: string,
    userId: string,
    kind: string,
    title: string,
    body: string,
    clubId: Option<string>,
    linkUrl: Option<string>,
    read: bool,
    createdAt: int)

  /** A JavaScript-truthy string field of a request body: present and not
      empty. */
  predicate Truthy(o: Option<string>)
  {
    o.Some? && o.value != ""
  }

  /** `x || undefined` on a string field: absent unless truthy */
  function OrUndefined(o: Option<string>): (r: Option<string>)
    ensures r.Some? <==> Truthy(o)
    ensures r.Some? ==> r == o
  {
    if Truthy(o) then o else None
  }

  /** The whole datastore as a value. `notifications` is absent until some
      handler first creates it. */
  datatype Db = Db(
    users: seq<User>,
    clubs: seq<Club>,
    memberships: seq<Membership>,
    invites: seq<Invite>,
    applications: seq<Application>,
    otps: seq<Otp>,
    tokens: seq<TokenRow>,
    auditLogs: seq<AuditLog>,
    notifications: Option<seq<Notification>>)

  const EmptyDb := Db([], [], [], [], [], [], [], [], None)

  /** The summary of the caller that the OTP login returns. */
  datatype Me = Me(
    id: string,
    phone: string,
    email: Option<string>,
    firstName: Option<string>,
    lastName: Option<string>)

  datatype Body =
    | OkFlag
    | Login(accessToken: string, refreshToken: string, me: Me)
    | TokenPair(accessToken: string, refreshToken: string)
    | ProfileBody(profile: Profile)
    | ClubBody(club: Club)
    | ClubList(clubs: seq<Club>)
    | NotificationList(notifications: seq<Notification>)
    | ApplicationList(applications: seq<Application>)
    | UploadedUrl(url: string)

  /**
   * `jsonResponse(data, status)` or `errorResponse(status, message)`. An error
   * body `{statusCode, message}` carries the HTTP status as its one status
   * field, so the two cannot disagree.
   */
  datatype Response = Ok(status: int, body: Body) | Err(status: int, message: string)

  /** A handler's response together with the datastore it leaves behind. */
  datatype Step = Step(resp: Response, after: Db)

  /** No two users share a phone number. */
  predicate PhonesUnique(users: seq<User>)
  {
    forall i, j | 0 <= i < j < |users| :: users[i].phone != users[j].phone
  }

  /** No two users share an id. */
  predicate IdsUnique(users: seq<User>)
  {
    forall i, j | 0 <= i < j < |users| :: users[i].id != users[j].id
  }

  /** No two users share a non-empty email address. */
  predicate EmailsUnique(users: seq<User>)
  {
    forall i, j | 0 <= i < j < |users| ::
      users[i].email.Some? && users[i].email.value != "" ==> users[i].email != users[j].email
  }

  /** Token rows only ever go from unrevoked to revoked: every row of `before`
      is still in place in `after`, changed at most by becoming revoked. */
  predicate RevocationKept(before: seq<TokenRow>, after: seq<TokenRow>)
  {
    |before| <= |after| &&
    forall i | 0 <= i < |before| ::
      after[i] == before[i] || after[i] == before[i].(revoked := true)
  }

  /** The datastore object that a handler mutates in place. */
  class Database {
    var users: seq<User>
    var clubs: seq<Club>
    var memberships: seq<Membership>
    var invites: seq<Invite>
    var applications: seq<Application>
    var otps: seq<Otp>
    var tokens: seq<TokenRow>
    var auditLogs: seq<AuditLog>
    var notifications: Option<seq<Notification>>

    function Snapshot(): Db
      reads this
    {
      Db(users, clubs, memberships, invites, applications, otps, tokens, auditLogs, notifications)
    }

    /** The store a missing or unreadable data file yields (`EMPTY_DB`). */
    constructor ()
      ensures Snapshot() == EmptyDb
    {
      users, clubs, memberships, invites, applications := [], [], [], [], [];
      otps, tokens, auditLogs, notifications := [], [], [], None;
    }

    /** `addAuditLog`: appends one entry, stamped with a fresh id and the time,
        after all earlier entries; nothing else changes. */
    method AddAuditLog(entry: AuditEntry, id: string, now: int)
      modifies this
      ensures auditLogs == old(auditLogs) + [Stamp(entry, id, now)]
      ensures Snapshot() == old(Snapshot()).(auditLogs := auditLogs)
    {
      auditLogs := auditLogs + [Stamp(entry, id, now)];
    }
  }
}
