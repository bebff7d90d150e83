/** The participant registry of apps/web/src/apis/admin/participants.ts: `listParticipants` with
    its filters and paging, `createUser`, `importParticipants`, `updateUser` and `deleteUser`.
    Every call is gated by `requireAdmin`; the validators run before the handler. zod's `.email()`
    check is the parameter `isEmail`, the database collation the parameter `collation`, the clock
    the parameter `now`, and `generateQRCodeValue` (the server's secret applied to an id) the
    parameter `qrValue`; `QrValuesVerify` ties it to the token of the QR module. */
module Participants {
  import opened Wrappers
  import opened Constant
  import opened Schema
  import opened Db
  import opened Auth
  import opened Ordering
  import opened Lookup
  import opened Dedup
  import opened Api
  import Qr
  import Text
  import Credits

  const UserNotFound: string := "User not found"
  const EmailTaken: string := "Email already registered"
  const InvalidEmailFormat: string := "Invalid email format"
  const UserIdRequired: string := "User ID is required"
  const AtMostHundred: string := "Number must be less than or equal to 100"

  /** `email.toLowerCase().trim()`: no longer than the input, and neither starting nor ending
      with white space. */
  function NormalizeEmail(email: string): (r: string)
    ensures |r| <= |email|
    ensures r == [] || (!Text.IsWhitespace(r[0]) && !Text.IsWhitespace(r[|r| - 1]))
  {
    Text.Trim(Text.ToLower(email))
  }

  /** A normalised email is already normal: lower case, without surrounding spaces, and normalising
      it again changes nothing. */
  lemma NormalizeEmailNormal(email: string)
    ensures var r := NormalizeEmail(email);
      Text.Trim(r) == r && Text.ToLower(r) == r && NormalizeEmail(r) == r
  {
    var lower := Text.ToLower(email);
    Text.TrimIdempotent(lower);
    Text.ToLowerIdempotent(email);
    Text.TrimKeepsLower(lower);
  }

  /** The role and participant type a user type stands for (`createUser`, `importParticipants`). */
  function RoleAndType(userType: UserType): (r: (UserRole, ParticipantType))
    ensures r.1 == Vip <==> userType == VipUser
    ensures r.0 == Participant <==> userType == VipUser || userType == RegularUser
    ensures r.0 == Ops <==> userType == OpsUser
    ensures r.0 == Admin <==> userType == AdminUser
  {
    match userType
    case VipUser => (Participant, Vip)
    case OpsUser => (Ops, Regular)
    case AdminUser => (Admin, Regular)
    case RegularUser => (Participant, Regular)
  }

  // ---------------------------------------------------------------- listParticipants

  datatype SortField = ByName | ByEmail | ByCreatedAt
  datatype SortOrder = Ascending | Descending

  /** The input of `listParticipants`; `None` marks an omitted field (the defaults are page 1, 20
      rows, newest first). */
  datatype ListParticipantsInput = ListParticipantsInput(
    page: Option<int>,
    pageSize: Option<int>,
    search: Option<string>,
    status: Option<ParticipantStatus>,
    participantType: Option<ParticipantType>,
    role: Option<UserRole>,
    sortBy: Option<SortField>,
    sortOrder: Option<SortOrder>)

  function Page(input: ListParticipantsInput): int { input.page.GetOr(1) }
  function PageSize(input: ListParticipantsInput): int { input.pageSize.GetOr(20) }

  function ListIssues(input: ListParticipantsInput): (issues: seq<string>)
    ensures issues == [] <==> Page(input) >= 1 && 1 <= PageSize(input) <= 100
  {
    Check(Page(input) >= 1, Credits.AtLeastOne) +
    Check(PageSize(input) >= 1, Credits.AtLeastOne) +
    Check(PageSize(input) <= 100, AtMostHundred)
  }

  /** One `WHERE` condition of the listing. */
  datatype Condition =
    | SearchCondition(pattern: string)
    | StatusCondition(status: ParticipantStatus)
    | TypeCondition(participantType: ParticipantType)
    | RoleCondition(role: UserRole)

  /** The `conditions` array: one condition per provided filter, in this order; an empty search
      adds none. */
  function Conditions(input: ListParticipantsInput): (conds: seq<Condition>)
    ensures |conds| <= 4
  {
    (if input.search.Some? && input.search.value != [] then [SearchCondition(input.search.value)] else []) +
    (if input.status.Some? then [StatusCondition(input.status.value)] else []) +
    (if input.participantType.Some? then [TypeCondition(input.participantType.value)] else []) +
    (if input.role.Some? then [RoleCondition(input.role.value)] else [])
  }

  predicate Holds(c: Condition, u: User) {
    match c
    case SearchCondition(p) => Text.ContainsIgnoreCase(u.name, p) || Text.ContainsIgnoreCase(u.email, p)
    case StatusCondition(s) => u.status == s
    case TypeCondition(pt) => u.participantType == pt
    case RoleCondition(r) => u.role == r
  }

  /** `and(...conditions)`, or no `WHERE` clause at all when there is no condition. */
  predicate AllHold(conds: seq<Condition>, u: User) {
    forall k :: 0 <= k < |conds| ==> Holds(conds[k], u)
  }

  function Selected(conds: seq<Condition>): User -> bool {
    (u: User) => AllHold(conds, u)
  }

  /** The sort key: the chosen column's position in the collation (or the creation time), negated
      for descending order. */
  function SortKey(sortBy: Option<SortField>, sortOrder: Option<SortOrder>, collation: string -> int): User -> int {
    var descending := sortOrder.GetOr(Descending) == Descending;
    match sortBy.GetOr(ByCreatedAt)
    case ByName => (u: User) => if descending then -collation(u.name) else collation(u.name)
    case ByEmail => (u: User) => if descending then -collation(u.email) else collation(u.email)
    case ByCreatedAt => (u: User) => if descending then -(u.createdAt as int) else u.createdAt as int
  }

  /** The selected columns of one listed user. */
  datatype ParticipantRow = ParticipantRow(id: Id, name: string, email: string, role: UserRole,
                                           participantType: ParticipantType, status: ParticipantStatus,
                                           createdAt: Time, checkedInAt: Option<Time>)

  function RowOf(u: User): ParticipantRow {
    ParticipantRow(u.id, u.name, u.email, u.role, u.participantType, u.status, u.createdAt, u.checkedInAt)
  }

  function RowsOf(users: seq<User>): (r: seq<ParticipantRow>)
    ensures |r| == |users| && forall k :: 0 <= k < |users| ==> r[k] == RowOf(users[k])
  {
    seq(|users|, k requires 0 <= k < |users| => RowOf(users[k]))
  }

  datatype Pagination = Pagination(page: int, pageSize: int, total: nat, totalPages: nat)

  datatype ParticipantList = ParticipantList(users: seq<ParticipantRow>, pagination: Pagination)

  /** `Math.ceil(total / pageSize)`. */
  function CeilDiv(total: nat, pageSize: nat): (r: nat)
    requires pageSize >= 1
    ensures r * pageSize >= total
    ensures r == 0 || (r - 1) * pageSize < total
  {
    (total + pageSize - 1) / pageSize
  }

  /** `LIMIT pageSize OFFSET offset` of an ordered result. */
  function Window<T>(s: seq<T>, offset: nat, limit: nat): (r: seq<T>)
    ensures |r| <= limit
    ensures offset >= |s| ==> r == []
    ensures offset + limit <= |s| ==> |r| == limit
    ensures forall j :: 0 <= j < |r| ==> offset + j < |s| && r[j] == s[offset + j]
  {
    if offset >= |s| then [] else s[offset..if offset + limit <= |s| then offset + limit else |s|]
  }

  /** The matching users in listing order. */
  function Ordered(t: Tables, input: ListParticipantsInput, collation: string -> int): seq<User> {
    SortBy(Filter(t.users, Selected(Conditions(input))), SortKey(input.sortBy, input.sortOrder, collation))
  }

  /** `listParticipants`. */
  function ListParticipants(t: Tables, ctx: RequestContext, input: ListParticipantsInput,
                            collation: string -> int): (r: Response<ParticipantList>)
    ensures r.Answered? <==> ListIssues(input) == [] && RequireAdmin(ctx).Ok?
  {
    var issues := ListIssues(input);
    if issues != [] then InvalidInput(issues)
    else if RequireAdmin(ctx).Err? then Thrown(RequireAdmin(ctx).error)
    else Answered(PageOf(Ordered(t, input, collation), Page(input), PageSize(input)))
  }

  /** The `page`-th page of `pageSize` rows of the ordered matches, with the counts. */
  function PageOf(ordered: seq<User>, page: int, pageSize: int): ParticipantList
    requires page >= 1 && pageSize >= 1
  {
    var offset := (page - 1) * pageSize;
    ParticipantList(RowsOf(Window(ordered, offset, pageSize)),
                    Pagination(page, pageSize, |ordered|, CeilDiv(|ordered|, pageSize)))
  }

  lemma AllHoldAppend(a: seq<Condition>, b: seq<Condition>, u: User)
    ensures AllHold(a + b, u) <==> AllHold(a, u) && AllHold(b, u)
  {
    if AllHold(a, u) && AllHold(b, u) {
      forall k | 0 <= k < |a + b| ensures Holds((a + b)[k], u) {
        if k >= |a| {
          assert (a + b)[k] == b[k - |a|];
        }
      }
    }
    if AllHold(a + b, u) {
      forall k | 0 <= k < |a| ensures Holds(a[k], u) {
        assert (a + b)[k] == a[k];
      }
      forall k | 0 <= k < |b| ensures Holds(b[k], u) {
        assert (a + b)[|a| + k] == b[k];
      }
    }
  }

  /** A user is listed exactly when it matches every filter provided: the search text in its name
      or email ignoring case (an empty search matches everyone), and the status, type and role. */
  lemma SelectedIff(input: ListParticipantsInput, u: User)
    ensures Selected(Conditions(input))(u) <==>
      (input.search.None? || input.search.value == [] ||
       Text.ContainsIgnoreCase(u.name, input.search.value) || Text.ContainsIgnoreCase(u.email, input.search.value)) &&
      (input.status.None? || u.status == input.status.value) &&
      (input.participantType.None? || u.participantType == input.participantType.value) &&
      (input.role.None? || u.role == input.role.value)
  {
    var a := if input.search.Some? && input.search.value != [] then [SearchCondition(input.search.value)] else [];
    var b := if input.status.Some? then [StatusCondition(input.status.value)] else [];
    var c := if input.participantType.Some? then [TypeCondition(input.participantType.value)] else [];
    var d := if input.role.Some? then [RoleCondition(input.role.value)] else [];
    assert Conditions(input) == a + b + c + d;
    AllHoldAppend(a + b + c, d, u);
    AllHoldAppend(a + b, c, u);
    AllHoldAppend(a, b, u);
    assert |a| == 1 ==> a[0] == SearchCondition(input.search.value);
    assert |b| == 1 ==> b[0] == StatusCondition(input.status.value);
    assert |c| == 1 ==> c[0] == TypeCondition(input.participantType.value);
    assert |d| == 1 ==> d[0] == RoleCondition(input.role.value);
  }

  /** The ordered result is a sorted permutation of exactly the matching users. */
  lemma OrderedShape(t: Tables, input: ListParticipantsInput, collation: string -> int, u: User)
    ensures var ordered := Ordered(t, input, collation);
      SortedBy(ordered, SortKey(input.sortBy, input.sortOrder, collation)) &&
      multiset(ordered) == multiset(Filter(t.users, Selected(Conditions(input)))) &&
      (u in ordered <==> u in t.users && Selected(Conditions(input))(u))
  {
    var matching := Filter(t.users, Selected(Conditions(input)));
    SortByMembers(matching, SortKey(input.sortBy, input.sortOrder, collation), u);
    if u in t.users && Selected(Conditions(input))(u) {
      var k :| 0 <= k < |t.users| && t.users[k] == u;
    }
  }

  /** Without filters every user is counted. */
  lemma NoFiltersCountsEveryone(t: Tables, ctx: RequestContext, input: ListParticipantsInput, collation: string -> int)
    requires ListParticipants(t, ctx, input, collation).Answered?
    requires (input.search.None? || input.search.value == []) && input.status.None? && input.participantType.None? && input.role.None?
    ensures ListParticipants(t, ctx, input, collation).value.pagination.total == |t.users|
  {
    assert Conditions(input) == [];
    FilterAll(t.users, Selected(Conditions(input)));
  }

  /** `rows` is page `page` of `pageSize` rows of `ordered`: at most `pageSize` rows, the ones
      from offset `(page - 1) * pageSize` on, and a full page while enough remain. */
  predicate IsPage(rows: seq<ParticipantRow>, ordered: seq<User>, page: int, size: int) {
    var offset := (page - 1) * size;
    |rows| <= size &&
    (forall j :: 0 <= j < |rows| ==> 0 <= offset + j < |ordered| && rows[j] == RowOf(ordered[offset + j])) &&
    (0 <= offset && offset + size <= |ordered| ==> |rows| == size)
  }

  /** `PageOf` takes such a page. */
  lemma PageOfShape(ordered: seq<User>, page: int, size: int)
    requires page >= 1 && size >= 1
    ensures IsPage(PageOf(ordered, page, size).users, ordered, page, size)
  {
    var offset := (page - 1) * size;
    assert offset >= 0 by {
      assert page - 1 >= 0 && size >= 1;
    }
    WindowRows(ordered, offset, size);
    var rows := PageOf(ordered, page, size).users;
    assert rows == RowsOf(Window(ordered, offset, size));
  }

  /** A page past the last one is empty. */
  lemma PagePastLast(ordered: seq<User>, page: int, size: int)
    requires page >= 1 && size >= 1
    ensures var v := PageOf(ordered, page, size);
      page > v.pagination.totalPages ==> v.users == []
  {
    if page > CeilDiv(|ordered|, size) {
      PastLastPage(|ordered|, page, size);
      WindowRows(ordered, (page - 1) * size, size);
    }
  }

  lemma WindowRows(ordered: seq<User>, offset: nat, size: nat)
    ensures var r := RowsOf(Window(ordered, offset, size));
      |r| <= size &&
      (forall j :: 0 <= j < |r| ==> offset + j < |ordered| && r[j] == RowOf(ordered[offset + j])) &&
      (offset + size <= |ordered| ==> |r| == size) &&
      (offset >= |ordered| ==> r == [])
  {
    var w := Window(ordered, offset, size);
    forall j | 0 <= j < |w| ensures RowsOf(w)[j] == RowOf(ordered[offset + j]) {
      assert w[j] == ordered[offset + j];
    }
  }

  /** The page metadata echoes the page and its size, counts all matches, and `totalPages` is the
      least page count that holds them. */
  lemma PageOfCounts(ordered: seq<User>, page: int, size: int)
    requires page >= 1 && size >= 1
    ensures var p := PageOf(ordered, page, size).pagination;
      p.page == page && p.pageSize == size && p.total == |ordered| &&
      p.totalPages * size >= |ordered| && (p.totalPages == 0 || (p.totalPages - 1) * size < |ordered|)
  {
    var pages := CeilDiv(|ordered|, size);
    assert PageOf(ordered, page, size).pagination.totalPages == pages;
  }

  /** The listing answers with one page of the listing order, the matching users sorted by the
      chosen key (`OrderedShape`). */
  lemma ListPage(t: Tables, ctx: RequestContext, input: ListParticipantsInput, collation: string -> int)
    requires ListParticipants(t, ctx, input, collation).Answered?
    ensures IsPage(ListParticipants(t, ctx, input, collation).value.users, Ordered(t, input, collation),
                   Page(input), PageSize(input))
  {
    var ordered := Ordered(t, input, collation);
    assert ListParticipants(t, ctx, input, collation).value == PageOf(ordered, Page(input), PageSize(input));
    PageOfShape(ordered, Page(input), PageSize(input));
  }

  /** The listing's counts: the page and size asked for, the number of all matching users, and the
      least page count that holds them. */
  lemma ListCounts(t: Tables, ctx: RequestContext, input: ListParticipantsInput, collation: string -> int)
    requires ListParticipants(t, ctx, input, collation).Answered?
    ensures var p := ListParticipants(t, ctx, input, collation).value.pagination;
      var total := |Filter(t.users, Selected(Conditions(input)))|;
      p.page == Page(input) && p.pageSize == PageSize(input) && p.total == total &&
      p.totalPages * PageSize(input) >= total && (p.totalPages == 0 || (p.totalPages - 1) * PageSize(input) < total)
  {
    var ordered := Ordered(t, input, collation);
    assert ListParticipants(t, ctx, input, collation).value == PageOf(ordered, Page(input), PageSize(input));
    PageOfCounts(ordered, Page(input), PageSize(input));
  }

  lemma PastLastPage(total: nat, page: int, size: int)
    requires size >= 1 && page > CeilDiv(total, size)
    ensures (page - 1) * size >= total
  {
    var pages := CeilDiv(total, size);
    var extra := page - 1 - pages;
    assert (page - 1) * size == pages * size + extra * size;
  }

  /** Paging reaches every match: the i-th user in listing order is row `i % pageSize` of page
      `i / pageSize + 1`. */
  lemma EveryMatchOnItsPage(t: Tables, ctx: RequestContext, input: ListParticipantsInput, collation: string -> int, i: nat)
    requires ListParticipants(t, ctx, input, collation).Answered?
    requires i < |Ordered(t, input, collation)|
    ensures var r := ListParticipants(t, ctx, input.(page := Some(PageFor(i, PageSize(input)))), collation);
      r.Answered? && SlotFor(i, PageSize(input)) < |r.value.users| &&
      r.value.users[SlotFor(i, PageSize(input))] == RowOf(Ordered(t, input, collation)[i])
  {
    var size := PageSize(input);
    var ordered := Ordered(t, input, collation);
    var p := PageFor(i, size);
    var at := input.(page := Some(p));
    assert Conditions(at) == Conditions(input);
    assert Ordered(t, at, collation) == ordered;
    assert ListParticipants(t, ctx, at, collation) == Answered(PageOf(ordered, p, size));
    PageHolds(ordered, size, i);
  }

  /** The page that holds position `i` of the listing order. */
  function PageFor(i: nat, size: int): (p: int)
    requires size >= 1
    ensures p >= 1 && (p - 1) * size <= i < p * size
  {
    DivMod(i, size);
    i / size + 1
  }

  /** The row of that page that holds position `i`. */
  function SlotFor(i: nat, size: int): (j: nat)
    requires size >= 1
    ensures j < size && (PageFor(i, size) - 1) * size + j == i
  {
    DivMod(i, size);
    i % size
  }

  lemma PageHolds(ordered: seq<User>, size: int, i: nat)
    requires size >= 1 && i < |ordered|
    ensures var v := PageOf(ordered, PageFor(i, size), size);
      SlotFor(i, size) < |v.users| && v.users[SlotFor(i, size)] == RowOf(ordered[i])
  {
    var p, j := PageFor(i, size), SlotFor(i, size);
    var offset := (p - 1) * size;
    var w := Window(ordered, offset, size);
    assert PageOf(ordered, p, size).users == RowsOf(w);
    assert |w| > j by {
      if offset + size > |ordered| {
        assert |w| == |ordered| - offset;
      }
    }
  }

  lemma DivMod(i: nat, size: int)
    requires size >= 1
    ensures (i / size) * size + i % size == i && 0 <= i % size < size
  {
  }

  // ---------------------------------------------------------------- users table writes

  /** Appending users whose ids are minted below `next` and whose ids and emails keep the users
      table's keys unique keeps every constraint: every reference into users still resolves. */
  lemma AppendUsersKeepsTables(t: Tables, extra: seq<User>, next: nat)
    requires TablesOk(t) && t.serial <= next
    requires UsersOk(t.users + extra) && AllIn(UserIds(extra), Minted(next))
    ensures TablesOk(t.(users := t.users + extra, serial := next))
  {
    var users := t.users + extra;
    assert UserIds(users) == UserIds(t.users) + UserIds(extra);
    forall x | x in UserIds(t.users) ensures x in UserIds(users) {
    }
    AllInGrows(UserIds(t.users), t.serial, next);
    AllInGrows(CreditTypeIds(t.creditTypes), t.serial, next);
    AllInGrows(CodeIds(t.codes), t.serial, next);
    AllInGrows(CheckinTypeIds(t.checkinTypes), t.serial, next);
    AllInGrows(RecordIds(t.records), t.serial, next);
  }

  // ---------------------------------------------------------------- createUser

  datatype CreateUserInput = CreateUserInput(name: string, email: string, userType: UserType)

  /** The validator's issues, in field order; `isEmail` is zod's `.email()` check. */
  function CreateIssues(input: CreateUserInput, isEmail: string -> bool): (issues: seq<string>)
    ensures issues == [] <==> input.name != [] && isEmail(input.email)
  {
    Check(input.name != [], Credits.NameRequired) + Check(isEmail(input.email), InvalidEmailFormat)
  }

  /** A new `users` row: registered, email not verified, not checked in, carrying its QR value. */
  function NewUser(id: Id, name: string, email: string, userType: UserType, lumaId: Option<string>,
                   qrValue: Id -> string, now: Time): User
  {
    var (role, participantType) := RoleAndType(userType);
    User(id, name, email, false, role, participantType, Registered, None, None,
         Some(qrValue(id)), lumaId, false, now)
  }

  /** `createUser`: validation, the admin check, the email lookup, then the insert. */
  function CreateSpec(t: Tables, ctx: RequestContext, input: CreateUserInput, isEmail: string -> bool,
                      qrValue: Id -> string, now: Time): (r: (Tables, Response<User>))
    ensures r.0 == t.(users := r.0.users, serial := r.0.serial)
    ensures !r.1.Answered? ==> r.0 == t
    ensures r.1.Answered? ==> r.0.users == t.users + [r.1.value] && r.1.value.email !in Emails(t.users)
  {
    var issues := CreateIssues(input, isEmail);
    if issues != [] then (t, InvalidInput(issues))
    else if RequireAdmin(ctx).Err? then (t, Thrown(RequireAdmin(ctx).error))
    else
      var email := NormalizeEmail(input.email);
      if email in Emails(t.users) then (t, Thrown(EmailTaken))
      else
        var u := NewUser(MintId(t.serial), input.name, email, input.userType, None, qrValue, now);
        (t.(users := t.users + [u], serial := t.serial + 1), Answered(u))
  }

  /** A new user with a fresh id and an unused email keeps every constraint. */
  lemma NewUserKeepsTables(t: Tables, u: User)
    requires TablesOk(t) && u.id == MintId(t.serial) && u.email !in Emails(t.users)
    ensures TablesOk(t.(users := t.users + [u], serial := t.serial + 1)) && u.id !in UserIds(t.users)
  {
    MintedFresh(t.serial, 0);
    forall k | 0 <= k < |t.users| ensures UserIds(t.users)[k] != u.id {
      assert UserIds(t.users)[k] in Minted(t.serial);
    }
    assert UserIds(t.users + [u]) == UserIds(t.users) + [u.id];
    assert Emails(t.users + [u]) == Emails(t.users) + [u.email];
    DistinctAppend(UserIds(t.users), [u.id]);
    DistinctAppend(Emails(t.users), [u.email]);
    assert UserIds([u])[0] in Minted(t.serial + 1);
    AppendUsersKeepsTables(t, [u], t.serial + 1);
  }

  method CreateUser(db: Store, ctx: RequestContext, input: CreateUserInput, isEmail: string -> bool,
                    qrValue: Id -> string, now: Time) returns (r: Response<User>)
    requires db.Valid()
    modifies db
    ensures db.Valid()
    ensures (db.Snapshot(), r) == CreateSpec(old(db.Snapshot()), ctx, input, isEmail, qrValue, now)
  {
    var issues := CreateIssues(input, isEmail);
    if issues != [] {
      return InvalidInput(issues);
    }
    var session := RequireAdmin(ctx);
    if session.Err? {
      return Thrown(session.error);
    }
    var email := NormalizeEmail(input.email);
    var existing := UserIndexByEmail(db.users, email);
    UserIndexByEmailIn(db.users, email);
    if existing < |db.users| {
      return Thrown(EmailTaken);
    }
    var u := NewUser(MintId(db.serial), input.name, email, input.userType, None, qrValue, now);
    NewUserKeepsTables(db.Snapshot(), u);
    db.users, db.serial := db.users + [u], db.serial + 1;
    r := Answered(u);
  }

  /** Once the input is valid and the caller is an admin, creation is refused exactly when the
      normalised email is already stored, and the refusal changes nothing. */
  lemma CreateRejectsTakenEmail(t: Tables, ctx: RequestContext, input: CreateUserInput, isEmail: string -> bool,
                                qrValue: Id -> string, now: Time)
    requires CreateIssues(input, isEmail) == [] && RequireAdmin(ctx).Ok?
    ensures var (after, r) := CreateSpec(t, ctx, input, isEmail, qrValue, now);
      (r == Thrown(EmailTaken) <==> NormalizeEmail(input.email) in Emails(t.users)) &&
      (r.Thrown? ==> after == t) && (r.Answered? <==> !r.Thrown?)
  {
  }

  /** A created user is stored last with a fresh id, the normalised email, the role and type its
      user type stands for, status registered and a QR value that verifies to its id; every
      constraint still holds. */
  lemma CreateStoresUser(t: Tables, ctx: RequestContext, input: CreateUserInput, isEmail: string -> bool,
                         qrValue: Id -> string, now: Time)
    requires TablesOk(t) && CreateSpec(t, ctx, input, isEmail, qrValue, now).1.Answered?
    ensures var (after, r) := CreateSpec(t, ctx, input, isEmail, qrValue, now);
      var u := r.value;
      TablesOk(after) && after.users == t.users + [u] &&
      u.id !in UserIds(t.users) && u.email == NormalizeEmail(input.email) && u.name == input.name &&
      (u.role, u.participantType) == RoleAndType(input.userType) &&
      u.status == Registered && !u.emailVerified && u.checkedInAt.None? && !u.isNameUpdated &&
      u.qrCodeValue == Some(qrValue(u.id)) && after.codes == t.codes && after.records == t.records
  {
    var email := NormalizeEmail(input.email);
    var u := NewUser(MintId(t.serial), input.name, email, input.userType, None, qrValue, now);
    assert CreateSpec(t, ctx, input, isEmail, qrValue, now) == (t.(users := t.users + [u], serial := t.serial + 1), Answered(u));
    NewUserKeepsTables(t, u);
    assert UserIds(t.users + [u])[|t.users|] == u.id;
  }

  /** A stored QR value, generated under a lawful codec, verifies back to the id it was made for. */
  lemma QrValuesVerify(codec: Qr.QrCodec, qrValue: Id -> string, id: Id)
    requires Qr.Lawful(codec) && forall x :: qrValue(x) == Qr.Generate(codec, x)
    ensures Qr.Verify(codec, qrValue(id)) == Qr.Verified(id)
  {
    Qr.VerifyGenerate(codec, id);
  }

  /** Emails are compared after normalising: once a user is created, creating another whose email
      differs only in case or surrounding spaces is refused. */
  lemma CreateTwiceRefused(t: Tables, ctx: RequestContext, input: CreateUserInput, second: CreateUserInput,
                           isEmail: string -> bool, qrValue: Id -> string, now: Time, later: Time)
    requires CreateSpec(t, ctx, input, isEmail, qrValue, now).1.Answered?
    requires CreateIssues(second, isEmail) == [] && NormalizeEmail(second.email) == NormalizeEmail(input.email)
    ensures var after := CreateSpec(t, ctx, input, isEmail, qrValue, now).0;
      CreateSpec(after, ctx, second, isEmail, qrValue, later) == (after, Thrown(EmailTaken))
  {
    var (after, r) := CreateSpec(t, ctx, input, isEmail, qrValue, now);
    assert Emails(after.users)[|t.users|] == r.value.email;
  }

  // ---------------------------------------------------------------- importParticipants

  /** One row of the uploaded participant file; `userType` defaults to regular. */
  datatype ImportedParticipant = ImportedParticipant(name: string, email: string, lumaId: Option<string>,
                                                     userType: Option<UserType>)

  /** A skipped row: its 1-based position in the file, its normalised email and why. */
  datatype SkippedRow = SkippedRow(row: nat, email: string, reason: string)

  datatype ImportResult = ImportResult(imported: nat, skipped: seq<SkippedRow>)

  const TooShort: string := "String must contain at least 1 character(s)"
  const InvalidEmail: string := "Invalid email"
  const DuplicateInFile: string := "Duplicate email in import file"

  /** The validator's issues, row by row: an empty name, then a malformed email. */
  function ImportIssues(rows: seq<ImportedParticipant>, isEmail: string -> bool): (issues: seq<string>)
    ensures issues == [] <==> forall k :: 0 <= k < |rows| ==> rows[k].name != [] && isEmail(rows[k].email)
    decreases |rows|
  {
    if rows == [] then []
    else
      Check(rows[0].name != [], TooShort) + Check(isEmail(rows[0].email), InvalidEmail) +
      ImportIssues(rows[1..], isEmail)
  }

  /** `emails`: every row's normalised email, in file order. */
  function NormalizedEmails(rows: seq<ImportedParticipant>): (r: seq<string>)
    ensures |r| == |rows| && forall k :: 0 <= k < |rows| ==> r[k] == NormalizeEmail(rows[k].email)
  {
    seq(|rows|, k requires 0 <= k < |rows| => NormalizeEmail(rows[k].email))
  }

  /** `existingEmails`: the stored emails among the file's. */
  function ExistingEmails(users: seq<User>, emails: seq<string>): set<string> {
    set k | 0 <= k < |users| && users[k].email in emails :: users[k].email
  }

  function ReasonText(d: Decision): string {
    match d
    case SkipExisting => EmailTaken
    case SkipDuplicate => DuplicateInFile
    case Accept => ""
  }

  /** The row a file line becomes, with the id minted for it. */
  function ImportedUser(p: ImportedParticipant, id: Id, qrValue: Id -> string, now: Time): User {
    NewUser(id, p.name, NormalizeEmail(p.email), p.userType.GetOr(RegularUser), Credits.OrNull(p.lumaId), qrValue, now)
  }

  /** The lines of `toInsert`, by the forEach's own steps: a line whose email is neither stored nor
      seen before is taken. */
  function AcceptedLines(rows: seq<ImportedParticipant>, existing: set<string>): seq<ImportedParticipant>
    decreases |rows|
  {
    if rows == [] then []
    else
      var n := |rows| - 1;
      AcceptedLines(rows[..n], existing) +
      (if Decide(existing, NormalizedEmails(rows[..n]), NormalizeEmail(rows[n].email)) == Accept then [rows[n]] else [])
  }

  /** The users the taken lines become, the j-th with the j-th identifier minted from `from`. */
  function ImportedUsers(lines: seq<ImportedParticipant>, from: nat, qrValue: Id -> string, now: Time): (users: seq<User>)
    ensures |users| == |lines|
    decreases |lines|
  {
    if lines == [] then []
    else
      var n := |lines| - 1;
      ImportedUsers(lines[..n], from, qrValue, now) + [ImportedUser(lines[n], MintId(from + n), qrValue, now)]
  }

  /** The j-th imported user is the j-th taken line under the j-th minted identifier. */
  lemma ImportedUsersAt(lines: seq<ImportedParticipant>, from: nat, qrValue: Id -> string, now: Time)
    ensures var users := ImportedUsers(lines, from, qrValue, now);
      forall j :: 0 <= j < |lines| ==> users[j] == ImportedUser(lines[j], MintId(from + j), qrValue, now)
  {
    forall j | 0 <= j < |lines|
      ensures ImportedUsers(lines, from, qrValue, now)[j] == ImportedUser(lines[j], MintId(from + j), qrValue, now)
    {
      ImportedUserAt(lines, from, qrValue, now, j);
    }
  }

  lemma ImportedUserAt(lines: seq<ImportedParticipant>, from: nat, qrValue: Id -> string, now: Time, j: nat)
    requires j < |lines|
    ensures ImportedUsers(lines, from, qrValue, now)[j] == ImportedUser(lines[j], MintId(from + j), qrValue, now)
  {
    var pre := lines[..j + 1];
    ImportedUsersPrefix(lines, from, qrValue, now, j + 1);
    assert pre[..j] == lines[..j] && pre[j] == lines[j];
    var before := ImportedUsers(pre[..j], from, qrValue, now);
    assert ImportedUsers(pre, from, qrValue, now) == before + [ImportedUser(lines[j], MintId(from + j), qrValue, now)];
    assert ImportedUsers(pre, from, qrValue, now)[j] == ImportedUsers(lines, from, qrValue, now)[j];
  }

  /** Importing a prefix of the lines gives the same prefix of the users. */
  lemma {:induction false} ImportedUsersPrefix(lines: seq<ImportedParticipant>, from: nat, qrValue: Id -> string, now: Time, m: nat)
    requires m <= |lines|
    ensures ImportedUsers(lines[..m], from, qrValue, now) == ImportedUsers(lines, from, qrValue, now)[..m]
    decreases |lines|
  {
    if m < |lines| {
      var n := |lines| - 1;
      ImportedUsersPrefix(lines[..n], from, qrValue, now, m);
      assert lines[..n][..m] == lines[..m];
    } else {
      assert lines[..m] == lines;
    }
  }

  /** `skipped`, by the forEach's own steps. */
  function ImportSkips(rows: seq<ImportedParticipant>, existing: set<string>): seq<SkippedRow>
    decreases |rows|
  {
    if rows == [] then []
    else
      var n := |rows| - 1;
      var email := NormalizeEmail(rows[n].email);
      var d := Decide(existing, NormalizedEmails(rows[..n]), email);
      ImportSkips(rows[..n], existing) + (if d == Accept then [] else [SkippedRow(n + 1, email, ReasonText(d))])
  }

  /** The lines the forEach takes are the accepted half of the shared de-duplication. */
  lemma {:induction false} AcceptedLinesAccepted(rows: seq<ImportedParticipant>, existing: set<string>)
    ensures var lines := AcceptedLines(rows, existing);
      var a := AcceptedAt(existing, NormalizedEmails(rows));
      |lines| == |a| && forall j :: 0 <= j < |a| ==> lines[j] == rows[a[j]]
    decreases |rows|
  {
    if rows != [] {
      var n := |rows| - 1;
      var init := rows[..n];
      AcceptedLinesAccepted(init, existing);
      var emails := NormalizedEmails(rows);
      assert emails[..n] == NormalizedEmails(init);
      var prev := AcceptedAt(existing, NormalizedEmails(init));
      var accept := Decide(existing, NormalizedEmails(init), NormalizeEmail(rows[n].email)) == Accept;
      assert AcceptedAt(existing, emails) == prev + (if accept then [n] else []);
      forall j | 0 <= j < |prev| ensures init[prev[j]] == rows[prev[j]] {
      }
    }
  }

  /** The skips the forEach builds are the skipped half of the shared de-duplication, numbered
      from 1. */
  lemma {:induction false} ImportSkipsSkipped(rows: seq<ImportedParticipant>, existing: set<string>)
    ensures var skips := ImportSkips(rows, existing);
      var sk := Skips(existing, NormalizedEmails(rows));
      |skips| == |sk| &&
      forall j :: 0 <= j < |sk| ==> skips[j] == SkippedRow(sk[j].index + 1, sk[j].key, ReasonText(sk[j].reason))
    decreases |rows|
  {
    if rows != [] {
      var n := |rows| - 1;
      var init := rows[..n];
      ImportSkipsSkipped(init, existing);
      var emails := NormalizedEmails(rows);
      var email := NormalizeEmail(rows[n].email);
      assert emails[..n] == NormalizedEmails(init) && emails[n] == email;
      var d := Decide(existing, NormalizedEmails(init), email);
      assert Skips(existing, emails) == Skips(existing, NormalizedEmails(init)) + (if d == Accept then [] else [Skip(n, email, d)]);
      assert ImportSkips(rows, existing) ==
        ImportSkips(init, existing) + (if d == Accept then [] else [SkippedRow(n + 1, email, ReasonText(d))]);
    }
  }

  /** `importParticipants`: validation, the admin check, the empty file, then the de-duplicated
      batch insert. */
  function ImportSpec(t: Tables, ctx: RequestContext, rows: seq<ImportedParticipant>, isEmail: string -> bool,
                      qrValue: Id -> string, now: Time): (r: (Tables, Response<ImportResult>))
    ensures r.0 == t.(users := r.0.users, serial := r.0.serial)
    ensures !r.1.Answered? ==> r.0 == t
    ensures |r.0.users| >= |t.users| && r.0.users[..|t.users|] == t.users
  {
    var issues := ImportIssues(rows, isEmail);
    if issues != [] then (t, InvalidInput(issues))
    else if RequireAdmin(ctx).Err? then (t, Thrown(RequireAdmin(ctx).error))
    else if rows == [] then (t, Answered(ImportResult(0, [])))
    else ImportCommit(t, rows, qrValue, now)
  }

  /** The accepted lines are inserted with identifiers minted in file order; the result counts them
      and lists the skips. */
  function ImportCommit(t: Tables, rows: seq<ImportedParticipant>, qrValue: Id -> string, now: Time): (Tables, Response<ImportResult>) {
    var existing := ExistingEmails(t.users, NormalizedEmails(rows));
    var users := ImportedUsers(AcceptedLines(rows, existing), t.serial, qrValue, now);
    (t.(users := t.users + users, serial := t.serial + |users|),
     Answered(ImportResult(|users|, ImportSkips(rows, existing))))
  }

  /** The forEach over the rows: a stored email is skipped, then an email already in `toInsert`;
      any other row mints an identifier and joins `toInsert`. */
  method SelectParticipants(rows: seq<ImportedParticipant>, existing: set<string>, from: nat, qrValue: Id -> string,
                            now: Time)
    returns (toInsert: seq<User>, skipped: seq<SkippedRow>)
    ensures toInsert == ImportedUsers(AcceptedLines(rows, existing), from, qrValue, now)
    ensures skipped == ImportSkips(rows, existing)
  {
    toInsert, skipped := [], [];
    ghost var lines: seq<ImportedParticipant> := [];
    for i := 0 to |rows|
      invariant lines == AcceptedLines(rows[..i], existing)
      invariant toInsert == ImportedUsers(lines, from, qrValue, now)
      invariant skipped == ImportSkips(rows[..i], existing)
    {
      var p := rows[i];
      var email := NormalizeEmail(p.email);
      SelectStep(rows, existing, i, from, qrValue, now, lines, toInsert, skipped);
      if email in existing {
        skipped := skipped + [SkippedRow(i + 1, email, EmailTaken)];
      } else if email in Emails(toInsert) {
        skipped := skipped + [SkippedRow(i + 1, email, DuplicateInFile)];
      } else {
        toInsert := toInsert + [ImportedUser(p, MintId(from + |toInsert|), qrValue, now)];
        lines := lines + [p];
      }
    }
    assert rows[..|rows|] == rows;
  }

  /** One step of the forEach, stated for each of its three branches. */
  lemma SelectStep(rows: seq<ImportedParticipant>, existing: set<string>, i: nat, from: nat, qrValue: Id -> string, now: Time,
                   lines: seq<ImportedParticipant>, users: seq<User>, skips: seq<SkippedRow>)
    requires i < |rows|
    requires lines == AcceptedLines(rows[..i], existing) && users == ImportedUsers(lines, from, qrValue, now)
    requires skips == ImportSkips(rows[..i], existing)
    ensures var email := NormalizeEmail(rows[i].email);
      (email in existing ==>
         AcceptedLines(rows[..i + 1], existing) == lines &&
         ImportSkips(rows[..i + 1], existing) == skips + [SkippedRow(i + 1, email, EmailTaken)]) &&
      (email !in existing && email in Emails(users) ==>
         AcceptedLines(rows[..i + 1], existing) == lines &&
         ImportSkips(rows[..i + 1], existing) == skips + [SkippedRow(i + 1, email, DuplicateInFile)]) &&
      (email !in existing && email !in Emails(users) ==>
         AcceptedLines(rows[..i + 1], existing) == lines + [rows[i]] &&
         ImportSkips(rows[..i + 1], existing) == skips &&
         ImportedUsers(lines + [rows[i]], from, qrValue, now) == users + [ImportedUser(rows[i], MintId(from + |users|), qrValue, now)])
  {
    DecideByToInsert(rows, existing, i, from, qrValue, now);
    AcceptedLinesStep(rows, existing, i);
    ImportSkipsStep(rows, existing, i);
    ImportedUsersAppend(lines, rows[i], from, qrValue, now);
  }

  lemma EmailsOfImported(lines: seq<ImportedParticipant>, from: nat, qrValue: Id -> string, now: Time)
    ensures Emails(ImportedUsers(lines, from, qrValue, now)) == NormalizedEmails(lines)
  {
    ImportedUsersAt(lines, from, qrValue, now);
  }

  /** The forEach's two tests decide as the shared de-duplication does: a row whose email is not
      stored is a duplicate exactly when `toInsert` already has its email. */
  lemma DecideByToInsert(rows: seq<ImportedParticipant>, existing: set<string>, i: nat, from: nat, qrValue: Id -> string, now: Time)
    requires i < |rows|
    ensures var email := NormalizeEmail(rows[i].email);
      var toInsert := ImportedUsers(AcceptedLines(rows[..i], existing), from, qrValue, now);
      Decide(existing, NormalizedEmails(rows[..i]), email) ==
        if email in existing then SkipExisting else if email in Emails(toInsert) then SkipDuplicate else Accept
  {
    EmailsOfImported(AcceptedLines(rows[..i], existing), from, qrValue, now);
    AcceptedEmailsIff(rows[..i], existing, NormalizeEmail(rows[i].email));
  }

  /** An email is among the taken lines exactly when the file has it and it is not stored. */
  lemma AcceptedEmailsIff(rows: seq<ImportedParticipant>, existing: set<string>, v: string)
    ensures v in NormalizedEmails(AcceptedLines(rows, existing)) <==> v in NormalizedEmails(rows) && v !in existing
  {
    var keys := NormalizedEmails(rows);
    var lines := AcceptedLines(rows, existing);
    var a := AcceptedAt(existing, keys);
    AcceptedLinesAccepted(rows, existing);
    assert NormalizedEmails(lines) == AcceptedKeys(existing, keys);
    if v in NormalizedEmails(lines) {
      var j :| 0 <= j < |lines| && NormalizedEmails(lines)[j] == v;
      assert v == keys[a[j]];
    }
    if v in keys && v !in existing {
      AcceptedComplete(existing, keys, v);
    }
  }

  /** One step of the forEach on the taken lines: the row is taken exactly when it is accepted. */
  lemma AcceptedLinesStep(rows: seq<ImportedParticipant>, existing: set<string>, i: nat)
    requires i < |rows|
    ensures AcceptedLines(rows[..i + 1], existing) ==
      AcceptedLines(rows[..i], existing) +
      (if Decide(existing, NormalizedEmails(rows[..i]), NormalizeEmail(rows[i].email)) == Accept then [rows[i]] else [])
  {
    assert rows[..i + 1][..i] == rows[..i];
  }

  /** One step of the forEach on the skips: a row that is not accepted is listed with its reason. */
  lemma ImportSkipsStep(rows: seq<ImportedParticipant>, existing: set<string>, i: nat)
    requires i < |rows|
    ensures var email := NormalizeEmail(rows[i].email);
      var d := Decide(existing, NormalizedEmails(rows[..i]), email);
      ImportSkips(rows[..i + 1], existing) ==
        ImportSkips(rows[..i], existing) + (if d == Accept then [] else [SkippedRow(i + 1, email, ReasonText(d))])
  {
    assert rows[..i + 1][..i] == rows[..i];
  }

  lemma ImportedUsersAppend(lines: seq<ImportedParticipant>, p: ImportedParticipant, from: nat, qrValue: Id -> string, now: Time)
    ensures ImportedUsers(lines + [p], from, qrValue, now) ==
      ImportedUsers(lines, from, qrValue, now) + [ImportedUser(p, MintId(from + |lines|), qrValue, now)]
  {
    assert (lines + [p])[..|lines|] == lines;
  }

  /** Imported users carry the identifiers minted from `from` on: pairwise distinct and none
      minted before. */
  lemma ImportedIdsFresh(users: seq<User>, lines: seq<ImportedParticipant>, from: nat, qrValue: Id -> string, now: Time)
    requires users == ImportedUsers(lines, from, qrValue, now)
    ensures Distinct(UserIds(users)) && AllIn(UserIds(users), Minted(from + |users|))
    ensures forall j :: 0 <= j < |users| ==> UserIds(users)[j] !in Minted(from)
  {
    ImportedUsersAt(lines, from, qrValue, now);
    forall i, j | 0 <= i < j < |users| ensures UserIds(users)[i] != UserIds(users)[j] {
      if UserIds(users)[i] == UserIds(users)[j] {
        MintIdInjective(from + i, from + j);
      }
    }
    forall j | 0 <= j < |users| ensures UserIds(users)[j] !in Minted(from) && UserIds(users)[j] in Minted(from + |users|) {
      MintedFresh(from, j);
    }
  }

  /** Imported users have the accepted emails: pairwise distinct and none stored yet. */
  lemma ImportedEmailsFresh(t: Tables, rows: seq<ImportedParticipant>, qrValue: Id -> string, now: Time)
    ensures var existing := ExistingEmails(t.users, NormalizedEmails(rows));
      var users := ImportedUsers(AcceptedLines(rows, existing), t.serial, qrValue, now);
      Distinct(Emails(users)) && forall j :: 0 <= j < |users| ==> Emails(users)[j] !in Emails(t.users)
  {
    var emails := NormalizedEmails(rows);
    var existing := ExistingEmails(t.users, emails);
    var users := ImportedUsers(AcceptedLines(rows, existing), t.serial, qrValue, now);
    var a := AcceptedAt(existing, emails);
    var accepted := AcceptedKeys(existing, emails);
    AcceptedLinesAccepted(rows, existing);
    AcceptedKeysFresh(existing, emails);
    ImportedUsersAt(AcceptedLines(rows, existing), t.serial, qrValue, now);
    assert Emails(users) == accepted;
    forall j | 0 <= j < |users| ensures Emails(users)[j] !in Emails(t.users) {
      forall k | 0 <= k < |t.users| ensures Emails(t.users)[k] != accepted[j] {
        assert accepted[j] == emails[a[j]] && accepted[j] !in existing;
        assert t.users[k].email in emails ==> t.users[k].email in existing;
      }
    }
  }

  /** Appending users whose identifiers are newly minted and pairwise distinct, and whose emails
      are pairwise distinct and not stored yet, keeps every constraint. */
  lemma AppendFreshUsers(t: Tables, extra: seq<User>)
    requires TablesOk(t) && Distinct(UserIds(extra)) && Distinct(Emails(extra))
    requires AllIn(UserIds(extra), Minted(t.serial + |extra|))
    requires forall j :: 0 <= j < |extra| ==> UserIds(extra)[j] !in Minted(t.serial)
    requires forall j :: 0 <= j < |extra| ==> Emails(extra)[j] !in Emails(t.users)
    ensures TablesOk(t.(users := t.users + extra, serial := t.serial + |extra|))
  {
    assert Distinct(Emails(t.users + extra)) by {
      DistinctAppend(Emails(t.users), Emails(extra));
      assert Emails(t.users + extra) == Emails(t.users) + Emails(extra);
    }
    assert Distinct(UserIds(t.users + extra)) by {
      forall x | x in UserIds(extra) ensures x !in UserIds(t.users) {
        var j :| 0 <= j < |extra| && UserIds(extra)[j] == x;
        forall k | 0 <= k < |t.users| ensures UserIds(t.users)[k] != x {
          assert UserIds(t.users)[k] in Minted(t.serial);
        }
      }
      DistinctAppend(UserIds(t.users), UserIds(extra));
      assert UserIds(t.users + extra) == UserIds(t.users) + UserIds(extra);
    }
    AppendUsersKeepsTables(t, extra, t.serial + |extra|);
  }

  /** The users the import selects keep every constraint when appended. */
  lemma ImportRowsFit(t: Tables, rows: seq<ImportedParticipant>, qrValue: Id -> string, now: Time)
    requires TablesOk(t)
    ensures var existing := ExistingEmails(t.users, NormalizedEmails(rows));
      var users := ImportedUsers(AcceptedLines(rows, existing), t.serial, qrValue, now);
      TablesOk(t.(users := t.users + users, serial := t.serial + |users|))
  {
    var existing := ExistingEmails(t.users, NormalizedEmails(rows));
    var users := ImportedUsers(AcceptedLines(rows, existing), t.serial, qrValue, now);
    ImportedEmailsFresh(t, rows, qrValue, now);
    ImportedIdsFresh(users, AcceptedLines(rows, existing), t.serial, qrValue, now);
    AppendFreshUsers(t, users);
  }

  /** `db.insert(users).values(batch)` for consecutive chunks of `BatchSize` rows. */
  method InsertUsersInBatches(db: Store, users: seq<User>)
    modifies db
    ensures db.users == old(db.users) + users
    ensures db.creditTypes == old(db.creditTypes) && db.codes == old(db.codes)
    ensures db.checkinTypes == old(db.checkinTypes) && db.records == old(db.records) && db.serial == old(db.serial)
  {
    var i := 0;
    while i < |users|
      invariant 0 <= i <= |users|
      invariant db.users == old(db.users) + users[..i]
      invariant db.creditTypes == old(db.creditTypes) && db.codes == old(db.codes)
      invariant db.checkinTypes == old(db.checkinTypes) && db.records == old(db.records) && db.serial == old(db.serial)
    {
      var end := Min(i + BatchSize, |users|);
      assert users[..end] == users[..i] + users[i..end];
      db.users := db.users + users[i..end];
      i := end;
    }
    assert users[..|users|] == users;
  }

  method ImportParticipants(db: Store, ctx: RequestContext, rows: seq<ImportedParticipant>, isEmail: string -> bool,
                            qrValue: Id -> string, now: Time) returns (r: Response<ImportResult>)
    requires db.Valid()
    modifies db
    ensures db.Valid()
    ensures (db.Snapshot(), r) == ImportSpec(old(db.Snapshot()), ctx, rows, isEmail, qrValue, now)
  {
    var issues := ImportIssues(rows, isEmail);
    if issues != [] {
      return InvalidInput(issues);
    }
    var session := RequireAdmin(ctx);
    if session.Err? {
      return Thrown(session.error);
    }
    if |rows| == 0 {
      return Answered(ImportResult(0, []));
    }
    r := StoreImport(db, rows, qrValue, now);
  }

  /** The existing-emails query, the forEach and the batched insert of `importParticipants`. */
  method StoreImport(db: Store, rows: seq<ImportedParticipant>, qrValue: Id -> string, now: Time) returns (r: Response<ImportResult>)
    requires db.Valid()
    modifies db
    ensures db.Valid()
    ensures (db.Snapshot(), r) == ImportCommit(old(db.Snapshot()), rows, qrValue, now)
  {
    ghost var t := db.Snapshot();
    var existing := ExistingEmails(db.users, NormalizedEmails(rows));
    var toInsert, skipped := SelectParticipants(rows, existing, db.serial, qrValue, now);
    ghost var after := t.(users := t.users + toInsert, serial := t.serial + |toInsert|);
    ImportRowsFit(t, rows, qrValue, now);
    assert TablesOk(after);
    db.serial := db.serial + |toInsert|;
    InsertUsersInBatches(db, toInsert);
    assert db.Snapshot() == after;
    r := Answered(ImportResult(|toInsert|, skipped));
  }

  /** Every line of a file that passed validation is either imported or skipped. */
  lemma ImportPartition(t: Tables, ctx: RequestContext, rows: seq<ImportedParticipant>, isEmail: string -> bool,
                        qrValue: Id -> string, now: Time)
    requires ImportSpec(t, ctx, rows, isEmail, qrValue, now).1.Answered?
    ensures var res := ImportSpec(t, ctx, rows, isEmail, qrValue, now).1.value;
      res.imported + |res.skipped| == |rows|
  {
    if rows != [] {
      var existing := ExistingEmails(t.users, NormalizedEmails(rows));
      AcceptedLinesAccepted(rows, existing);
      ImportSkipsSkipped(rows, existing);
      Partition(existing, NormalizedEmails(rows));
    }
  }

  /** An email of the file is among the existing emails exactly when a stored user has it. */
  lemma ExistingEmailsIff(users: seq<User>, emails: seq<string>, v: string)
    requires v in emails
    ensures v in ExistingEmails(users, emails) <==> v in Emails(users)
  {
    if v in Emails(users) {
      var k :| 0 <= k < |users| && Emails(users)[k] == v;
      assert users[k].email in ExistingEmails(users, emails);
    }
  }

  /** The skips of the insert step, by position. */
  lemma CommitSkipReasons(t: Tables, rows: seq<ImportedParticipant>, qrValue: Id -> string, now: Time)
    ensures var skipped := ImportCommit(t, rows, qrValue, now).1.value.skipped;
      forall j :: 0 <= j < |skipped| ==>
        1 <= skipped[j].row <= |rows| && skipped[j].email == NormalizeEmail(rows[skipped[j].row - 1].email) &&
        (skipped[j].reason == EmailTaken <==> skipped[j].email in Emails(t.users)) &&
        (skipped[j].reason != EmailTaken ==>
           skipped[j].reason == DuplicateInFile && skipped[j].email in NormalizedEmails(rows[..skipped[j].row - 1]))
  {
    var emails := NormalizedEmails(rows);
    var existing := ExistingEmails(t.users, emails);
    var skipped := ImportSkips(rows, existing);
    var sk := Skips(existing, emails);
    ImportSkipsSkipped(rows, existing);
    forall j | 0 <= j < |skipped|
      ensures 1 <= skipped[j].row <= |rows| && skipped[j].email == NormalizeEmail(rows[skipped[j].row - 1].email)
      ensures skipped[j].reason == EmailTaken <==> skipped[j].email in Emails(t.users)
      ensures skipped[j].reason != EmailTaken ==>
        skipped[j].reason == DuplicateInFile && skipped[j].email in NormalizedEmails(rows[..skipped[j].row - 1])
    {
      var i := sk[j].index;
      assert skipped[j] == SkippedRow(i + 1, sk[j].key, ReasonText(sk[j].reason));
      assert sk[j].key == emails[i];
      assert NormalizedEmails(rows[..i]) == emails[..i];
      ExistingEmailsIff(t.users, emails, sk[j].key);
    }
  }

  /** A skipped line carries its 1-based row number and its normalised email, and says why:
      "already registered" exactly when a stored user has that email, "duplicate" otherwise, and
      then an earlier line of the file has the same email. */
  lemma ImportSkipReasons(t: Tables, ctx: RequestContext, rows: seq<ImportedParticipant>, isEmail: string -> bool,
                          qrValue: Id -> string, now: Time)
    requires ImportSpec(t, ctx, rows, isEmail, qrValue, now).1.Answered?
    ensures var skipped := ImportSpec(t, ctx, rows, isEmail, qrValue, now).1.value.skipped;
      forall j :: 0 <= j < |skipped| ==>
        1 <= skipped[j].row <= |rows| && skipped[j].email == NormalizeEmail(rows[skipped[j].row - 1].email) &&
        (skipped[j].reason == EmailTaken <==> skipped[j].email in Emails(t.users)) &&
        (skipped[j].reason != EmailTaken ==>
           skipped[j].reason == DuplicateInFile && skipped[j].email in NormalizedEmails(rows[..skipped[j].row - 1]))
  {
    if rows != [] {
      assert ImportSpec(t, ctx, rows, isEmail, qrValue, now) == ImportCommit(t, rows, qrValue, now);
      CommitSkipReasons(t, rows, qrValue, now);
    }
  }

  /** Every email of the file that no stored user has is imported: some new user carries it. */
  lemma ImportTakesNewEmails(t: Tables, ctx: RequestContext, rows: seq<ImportedParticipant>, isEmail: string -> bool,
                             qrValue: Id -> string, now: Time, v: string)
    requires ImportSpec(t, ctx, rows, isEmail, qrValue, now).1.Answered?
    requires v in NormalizedEmails(rows) && v !in Emails(t.users)
    ensures var after := ImportSpec(t, ctx, rows, isEmail, qrValue, now).0;
      exists k :: |t.users| <= k < |after.users| && after.users[k].email == v
  {
    var emails := NormalizedEmails(rows);
    var existing := ExistingEmails(t.users, emails);
    var lines := AcceptedLines(rows, existing);
    var users := ImportedUsers(lines, t.serial, qrValue, now);
    var after := ImportCommit(t, rows, qrValue, now).0;
    assert after == ImportSpec(t, ctx, rows, isEmail, qrValue, now).0;
    ExistingEmailsIff(t.users, emails, v);
    AcceptedEmailsIff(rows, existing, v);
    var j :| 0 <= j < |lines| && NormalizedEmails(lines)[j] == v;
    ImportedUsersAt(lines, t.serial, qrValue, now);
    assert after.users[|t.users| + j] == users[j];
  }

  /** The j-th imported user is the copy of the j-th accepted line of the file, under the j-th
      identifier minted from `from`. */
  lemma ImportedFromRows(rows: seq<ImportedParticipant>, existing: set<string>, from: nat, qrValue: Id -> string, now: Time)
    ensures var users := ImportedUsers(AcceptedLines(rows, existing), from, qrValue, now);
      var a := AcceptedAt(existing, NormalizedEmails(rows));
      |users| == |a| &&
      forall j :: 0 <= j < |users| ==> a[j] < |rows| && users[j] == ImportedUser(rows[a[j]], MintId(from + j), qrValue, now)
  {
    var lines := AcceptedLines(rows, existing);
    AcceptedLinesAccepted(rows, existing);
    ImportedUsersAt(lines, from, qrValue, now);
  }

  /** What the insert step changes: the users table grows by one row per accepted line, the stored
      rows first; no other table changes. */
  lemma CommitShape(t: Tables, rows: seq<ImportedParticipant>, qrValue: Id -> string, now: Time)
    ensures var (after, r) := ImportCommit(t, rows, qrValue, now);
      var a := AcceptedAt(ExistingEmails(t.users, NormalizedEmails(rows)), NormalizedEmails(rows));
      |after.users| == |t.users| + |a| && r.value.imported == |a| && after.users[..|t.users|] == t.users &&
      after.serial == t.serial + |a| &&
      after.creditTypes == t.creditTypes && after.codes == t.codes &&
      after.checkinTypes == t.checkinTypes && after.records == t.records
  {
    var existing := ExistingEmails(t.users, NormalizedEmails(rows));
    AcceptedLinesAccepted(rows, existing);
  }

  /** Position j of the appended rows is position `|prefix| + j` of the table. */
  lemma AppendedCopies(prefix: seq<User>, users: seq<User>, rows: seq<ImportedParticipant>, a: seq<nat>, from: nat,
                       qrValue: Id -> string, now: Time)
    requires |users| == |a|
    requires forall j :: 0 <= j < |a| ==> a[j] < |rows| && users[j] == ImportedUser(rows[a[j]], MintId(from + j), qrValue, now)
    ensures forall j :: 0 <= j < |a| ==>
      a[j] < |rows| && (prefix + users)[|prefix| + j] == ImportedUser(rows[a[j]], MintId(from + j), qrValue, now)
  {
  }

  /** What the insert step appends: the j-th new user is the copy of the j-th accepted line, with
      the j-th identifier minted for the import. */
  lemma CommitAppends(t: Tables, rows: seq<ImportedParticipant>, qrValue: Id -> string, now: Time)
    ensures var after := ImportCommit(t, rows, qrValue, now).0;
      var a := AcceptedAt(ExistingEmails(t.users, NormalizedEmails(rows)), NormalizedEmails(rows));
      |after.users| == |t.users| + |a| &&
      forall j :: 0 <= j < |a| ==>
        a[j] < |rows| && after.users[|t.users| + j] == ImportedUser(rows[a[j]], MintId(t.serial + j), qrValue, now)
  {
    var existing := ExistingEmails(t.users, NormalizedEmails(rows));
    var users := ImportedUsers(AcceptedLines(rows, existing), t.serial, qrValue, now);
    ImportedFromRows(rows, existing, t.serial, qrValue, now);
    AppendedCopies(t.users, users, rows, AcceptedAt(existing, NormalizedEmails(rows)), t.serial, qrValue, now);
  }

  /** A successful import keeps every constraint and only appends users, one per accepted line;
      no other table changes. */
  lemma ImportKeepsTables(t: Tables, ctx: RequestContext, rows: seq<ImportedParticipant>, isEmail: string -> bool,
                          qrValue: Id -> string, now: Time)
    requires TablesOk(t) && ImportSpec(t, ctx, rows, isEmail, qrValue, now).1.Answered?
    ensures var (after, r) := ImportSpec(t, ctx, rows, isEmail, qrValue, now);
      var a := AcceptedAt(ExistingEmails(t.users, NormalizedEmails(rows)), NormalizedEmails(rows));
      TablesOk(after) && r.value.imported == |a| && |after.users| == |t.users| + |a| &&
      after.users[..|t.users|] == t.users &&
      after.creditTypes == t.creditTypes && after.codes == t.codes &&
      after.checkinTypes == t.checkinTypes && after.records == t.records
  {
    if rows != [] {
      assert ImportSpec(t, ctx, rows, isEmail, qrValue, now) == ImportCommit(t, rows, qrValue, now);
      ImportRowsFit(t, rows, qrValue, now);
      CommitShape(t, rows, qrValue, now);
    }
  }

  /** The rows of `all` after `prefix` are, in order, registered, unverified, not checked-in copies
      of the lines `a` selects from `rows`, each with the QR value generated for its identifier, and
      none shares an identifier or an email with `prefix`. */
  ghost predicate CopiesOfLines(prefix: seq<User>, all: seq<User>, rows: seq<ImportedParticipant>, a: seq<nat>,
                                qrValue: Id -> string)
  {
    |all| == |prefix| + |a| &&
    forall j :: 0 <= j < |a| ==>
      var u := all[|prefix| + j];
      u.id !in UserIds(prefix) && u.email !in Emails(prefix) &&
      a[j] < |rows| && u.name == rows[a[j]].name && u.email == NormalizeEmail(rows[a[j]].email) &&
      (u.role, u.participantType) == RoleAndType(rows[a[j]].userType.GetOr(RegularUser)) &&
      u.status == Registered && !u.emailVerified && u.checkedInAt.None? && u.qrCodeValue == Some(qrValue(u.id))
  }

  /** The j-th user the import commit appends is a copy of the j-th accepted line of the file, with
      an identifier and an email no stored user has. */
  lemma CommitNewRows(t: Tables, rows: seq<ImportedParticipant>, qrValue: Id -> string, now: Time)
    requires TablesOk(t)
    ensures CopiesOfLines(t.users, ImportCommit(t, rows, qrValue, now).0.users, rows,
                          AcceptedAt(ExistingEmails(t.users, NormalizedEmails(rows)), NormalizedEmails(rows)), qrValue)
  {
    var existing := ExistingEmails(t.users, NormalizedEmails(rows));
    var users := ImportedUsers(AcceptedLines(rows, existing), t.serial, qrValue, now);
    ImportUsersOk(t, rows, qrValue, now);
    ImportedFromRows(rows, existing, t.serial, qrValue, now);
    var a := AcceptedAt(existing, NormalizedEmails(rows));
    AppendedRowFacts(t.users, users, rows, a, t.serial, qrValue, now);
    var all := t.users + users;
    assert CopiesOfLines(t.users, all, rows, a, qrValue);
    assert ImportCommit(t, rows, qrValue, now).0.users == all;
  }

  lemma ImportUsersOk(t: Tables, rows: seq<ImportedParticipant>, qrValue: Id -> string, now: Time)
    requires TablesOk(t)
    ensures UsersOk(t.users + ImportedUsers(AcceptedLines(rows, ExistingEmails(t.users, NormalizedEmails(rows))), t.serial, qrValue, now))
  {
    ImportRowsFit(t, rows, qrValue, now);
  }

  lemma AppendedRowFacts(prefix: seq<User>, users: seq<User>, rows: seq<ImportedParticipant>, a: seq<nat>, from: nat,
                         qrValue: Id -> string, now: Time)
    requires UsersOk(prefix + users) && |users| == |a|
    requires forall j :: 0 <= j < |a| ==> a[j] < |rows| && users[j] == ImportedUser(rows[a[j]], MintId(from + j), qrValue, now)
    ensures CopiesOfLines(prefix, prefix + users, rows, a, qrValue)
  {
    LaterRowsFresh(prefix + users, |prefix|);
    assert (prefix + users)[..|prefix|] == prefix;
    forall j | 0 <= j < |a|
      ensures var u := (prefix + users)[|prefix| + j];
        u.id !in UserIds(prefix) && u.email !in Emails(prefix) &&
        a[j] < |rows| && u.name == rows[a[j]].name && u.email == NormalizeEmail(rows[a[j]].email) &&
        (u.role, u.participantType) == RoleAndType(rows[a[j]].userType.GetOr(RegularUser)) &&
        u.status == Registered && !u.emailVerified && u.checkedInAt.None? && u.qrCodeValue == Some(qrValue(u.id))
    {
      assert (prefix + users)[|prefix| + j] == users[j];
    }
  }

  /** In a users table that keeps its constraints, a row after position n shares neither its id nor
      its email with the first n rows. */
  lemma LaterRowsFresh(users: seq<User>, n: nat)
    requires UsersOk(users) && n <= |users|
    ensures forall k :: n <= k < |users| ==> users[k].id !in UserIds(users[..n]) && users[k].email !in Emails(users[..n])
  {
    forall k | n <= k < |users| ensures users[k].id !in UserIds(users[..n]) && users[k].email !in Emails(users[..n]) {
      forall i | 0 <= i < n ensures UserIds(users[..n])[i] != users[k].id && Emails(users[..n])[i] != users[k].email {
        assert UserIds(users)[i] != UserIds(users)[k];
        assert Emails(users)[i] != Emails(users)[k];
      }
    }
  }

  // ---------------------------------------------------------------- updateUser

  /** Every field but the id is optional; an absent field is left as stored. */
  datatype UpdateUserInput = UpdateUserInput(id: string, name: Option<string>, email: Option<string>,
                                             role: Option<UserRole>, participantType: Option<ParticipantType>,
                                             status: Option<ParticipantStatus>)

  /** The validator's issues, in field order; the enum fields are well-typed by construction. */
  function UpdateIssues(input: UpdateUserInput, isEmail: string -> bool): (issues: seq<string>)
    ensures issues == [] <==>
      input.id != [] && (input.name.Some? ==> input.name.value != []) &&
      (input.email.Some? ==> isEmail(input.email.value))
  {
    Check(input.id != [], UserIdRequired) +
    (if input.name.Some? then Check(input.name.value != [], Credits.NameRequired) else []) +
    (if input.email.Some? then Check(isEmail(input.email.value), InvalidEmailFormat) else [])
  }

  /** The email to store: the normalised submitted email when it differs from the stored one. */
  function EmailChange(existing: User, email: Option<string>): (r: Option<string>)
    ensures r.Some? <==> email.Some? && NormalizeEmail(email.value) != existing.email
    ensures r.Some? ==> r.value == NormalizeEmail(email.value)
  {
    if email.Some? && NormalizeEmail(email.value) != existing.email then Some(NormalizeEmail(email.value)) else None
  }

  /** `updateData` is empty. */
  predicate NoChanges(input: UpdateUserInput, change: Option<string>) {
    input.name.None? && change.None? && input.role.None? && input.participantType.None? && input.status.None?
  }

  /** The stored row with `updateData` applied. */
  function ApplyUpdate(u: User, input: UpdateUserInput, change: Option<string>): User {
    u.(name := input.name.GetOr(u.name), email := change.GetOr(u.email), role := input.role.GetOr(u.role),
       participantType := input.participantType.GetOr(u.participantType), status := input.status.GetOr(u.status))
  }

  /** `updateUser`: validation, the admin check, the lookup, the email collision check, then the
      update of the given fields (or the stored row when nothing is to change). */
  function UpdateSpec(t: Tables, ctx: RequestContext, input: UpdateUserInput, isEmail: string -> bool): (r: (Tables, Response<User>))
    ensures r.0 == t.(users := r.0.users)
    ensures !r.1.Answered? ==> r.0 == t
    ensures |r.0.users| == |t.users| && (r.1.Answered? ==> r.1.value.id == input.id)
  {
    var issues := UpdateIssues(input, isEmail);
    if issues != [] then (t, InvalidInput(issues))
    else if RequireAdmin(ctx).Err? then (t, Thrown(RequireAdmin(ctx).error))
    else
      var k := UserIndex(t.users, input.id);
      if k == |t.users| then (t, Thrown(UserNotFound))
      else
        var existing := t.users[k];
        var change := EmailChange(existing, input.email);
        if change.Some? && change.value in Emails(t.users) then (t, Thrown(EmailTaken))
        else if NoChanges(input, change) then (t, Answered(existing))
        else
          var u := ApplyUpdate(existing, input, change);
          (t.(users := t.users[k := u]), Answered(u))
  }

  /** Replacing a row by one with the same id and either the same email or an unused one keeps
      every constraint. */
  lemma ReplaceUserKeepsTables(t: Tables, k: nat, u: User)
    requires TablesOk(t) && k < |t.users| && u.id == t.users[k].id
    requires u.email == t.users[k].email || u.email !in Emails(t.users)
    ensures TablesOk(t.(users := t.users[k := u]))
  {
    var users := t.users[k := u];
    assert UserIds(users) == UserIds(t.users);
    forall i, j | 0 <= i < j < |users| ensures Emails(users)[i] != Emails(users)[j] {
      if i != k && j != k {
        assert Emails(users)[i] == Emails(t.users)[i] && Emails(users)[j] == Emails(t.users)[j];
      } else if i == k {
        assert Emails(users)[j] == Emails(t.users)[j];
      } else {
        assert Emails(users)[i] == Emails(t.users)[i];
      }
    }
  }

  /** `updateData`, field by field: the submitted fields and the changed email, applied to the
      stored row; `changed` says whether any key was set. */
  method UpdateData(existing: User, input: UpdateUserInput, change: Option<string>) returns (u: User, changed: bool)
    ensures u == ApplyUpdate(existing, input, change)
    ensures changed <==> !NoChanges(input, change)
  {
    u, changed := existing, false;
    if input.name.Some? {
      u, changed := u.(name := input.name.value), true;
    }
    if change.Some? {
      u, changed := u.(email := change.value), true;
    }
    if input.role.Some? {
      u, changed := u.(role := input.role.value), true;
    }
    if input.participantType.Some? {
      u, changed := u.(participantType := input.participantType.value), true;
    }
    if input.status.Some? {
      u, changed := u.(status := input.status.value), true;
    }
  }

  method UpdateUser(db: Store, ctx: RequestContext, input: UpdateUserInput, isEmail: string -> bool) returns (r: Response<User>)
    requires db.Valid()
    modifies db
    ensures db.Valid()
    ensures (db.Snapshot(), r) == UpdateSpec(old(db.Snapshot()), ctx, input, isEmail)
  {
    var issues := UpdateIssues(input, isEmail);
    if issues != [] {
      return InvalidInput(issues);
    }
    var session := RequireAdmin(ctx);
    if session.Err? {
      return Thrown(session.error);
    }
    var k := UserIndex(db.users, input.id);
    if k == |db.users| {
      return Thrown(UserNotFound);
    }
    var existing := db.users[k];
    var change: Option<string> := None;
    if input.email.Some? {
      var email := NormalizeEmail(input.email.value);
      if email != existing.email {
        var other := UserIndexByEmail(db.users, email);
        UserIndexByEmailIn(db.users, email);
        if other < |db.users| {
          return Thrown(EmailTaken);
        }
        change := Some(email);
      }
    }
    assert change == EmailChange(existing, input.email);
    var u, changed := UpdateData(existing, input, change);
    if !changed {
      return Answered(existing);
    }
    ReplaceUserKeepsTables(db.Snapshot(), k, u);
    db.users := db.users[k := u];
    r := Answered(u);
  }

  /** Once the input is valid and the caller is an admin, an unknown id is refused with "User not
      found" and changes nothing. */
  lemma UpdateUnknownId(t: Tables, ctx: RequestContext, input: UpdateUserInput, isEmail: string -> bool)
    requires UpdateIssues(input, isEmail) == [] && RequireAdmin(ctx).Ok?
    ensures input.id !in UserIds(t.users) <==> UpdateSpec(t, ctx, input, isEmail) == (t, Thrown(UserNotFound))
  {
    UserIndexIn(t.users, input.id);
  }

  /** For a stored user, the update is refused with "Email already registered" exactly when a
      different email is submitted whose normal form another row already has; the refusal changes
      nothing. */
  lemma UpdateEmailCollision(t: Tables, ctx: RequestContext, input: UpdateUserInput, isEmail: string -> bool)
    requires UpdateIssues(input, isEmail) == [] && RequireAdmin(ctx).Ok? && input.id in UserIds(t.users)
    ensures var k := UserIndex(t.users, input.id);
      var (after, r) := UpdateSpec(t, ctx, input, isEmail);
      k < |t.users| &&
      (r == Thrown(EmailTaken) <==>
         input.email.Some? && NormalizeEmail(input.email.value) != t.users[k].email &&
         NormalizeEmail(input.email.value) in Emails(t.users)) &&
      (r.Thrown? ==> after == t)
  {
    UserIndexIn(t.users, input.id);
  }

  /** Submitting the stored email again, in any case or spacing, and nothing else, is not a change:
      the stored row is returned and nothing is written. */
  lemma UpdateSameEmailKept(t: Tables, ctx: RequestContext, input: UpdateUserInput, isEmail: string -> bool)
    requires UpdateIssues(input, isEmail) == [] && RequireAdmin(ctx).Ok? && input.id in UserIds(t.users)
    requires input.name.None? && input.role.None? && input.participantType.None? && input.status.None?
    requires input.email.None? || NormalizeEmail(input.email.value) == t.users[UserIndex(t.users, input.id)].email
    ensures UpdateSpec(t, ctx, input, isEmail) == (t, Answered(t.users[UserIndex(t.users, input.id)]))
  {
    UserIndexIn(t.users, input.id);
  }

  /** A successful update keeps every constraint and rewrites exactly the addressed row: the
      submitted fields take the submitted values (the email normalised), every other column keeps
      its value, and no other row or table changes. */
  lemma UpdateEffects(t: Tables, ctx: RequestContext, input: UpdateUserInput, isEmail: string -> bool)
    requires TablesOk(t) && UpdateSpec(t, ctx, input, isEmail).1.Answered?
    ensures var (after, r) := UpdateSpec(t, ctx, input, isEmail);
      var k := UserIndex(t.users, input.id);
      var stored := t.users[k];
      var u := r.value;
      k < |t.users| && TablesOk(after) && after.users == t.users[k := u] &&
      after.creditTypes == t.creditTypes && after.codes == t.codes &&
      after.checkinTypes == t.checkinTypes && after.records == t.records && after.serial == t.serial &&
      u.id == input.id && u.name == input.name.GetOr(stored.name) &&
      u.email == (if input.email.Some? then NormalizeEmail(input.email.value) else stored.email) &&
      u.role == input.role.GetOr(stored.role) && u.participantType == input.participantType.GetOr(stored.participantType) &&
      u.status == input.status.GetOr(stored.status) &&
      u.(name := stored.name, email := stored.email, role := stored.role, participantType := stored.participantType,
         status := stored.status) == stored
  {
    var k := UserIndex(t.users, input.id);
    var existing := t.users[k];
    var change := EmailChange(existing, input.email);
    if !NoChanges(input, change) {
      ReplaceUserKeepsTables(t, k, ApplyUpdate(existing, input, change));
    }
  }

  /** Applying the same update twice writes nothing the second time. */
  lemma UpdateTwiceSame(t: Tables, ctx: RequestContext, input: UpdateUserInput, isEmail: string -> bool)
    requires TablesOk(t) && UpdateSpec(t, ctx, input, isEmail).1.Answered?
    ensures var (after, r) := UpdateSpec(t, ctx, input, isEmail);
      UpdateSpec(after, ctx, input, isEmail) == (after, r)
  {
    var (after, r) := UpdateSpec(t, ctx, input, isEmail);
    var k := UserIndex(t.users, input.id);
    UpdateEffects(t, ctx, input, isEmail);
    UserIndexSameIds(t.users, after.users, input.id);
    assert after.users[k] == r.value;
    var change := EmailChange(after.users[k], input.email);
    assert change.None?;
    if NoChanges(input, change) {
      assert UpdateSpec(after, ctx, input, isEmail) == (after, Answered(after.users[k]));
    } else {
      assert ApplyUpdate(r.value, input, change) == r.value;
      assert after.users[k := r.value] == after.users;
    }
  }

  // ---------------------------------------------------------------- deleteUser

  /** The error the database raises when a check-in record still names the user as the staff
      member who performed it (`checked_in_by` is `on delete restrict`). */
  const UserDeleteRejected: string := "delete from users violates a foreign key constraint"

  /** Some check-in record was performed by `id`. */
  predicate CheckedInSomeone(records: seq<CheckinRecord>, id: Id) {
    exists k :: 0 <= k < |records| && records[k].checkedInBy == id
  }

  /** `assigned_to` is `on delete set null`: the user's codes lose their owner and keep the rest. */
  function Released(codes: seq<Code>, id: Id): (r: seq<Code>)
    ensures |r| == |codes|
    ensures forall i :: 0 <= i < |codes| ==>
      r[i] == if codes[i].assignedTo == Some(id) then codes[i].(assignedTo := None) else codes[i]
  {
    seq(|codes|, i requires 0 <= i < |codes| =>
      if codes[i].assignedTo == Some(id) then codes[i].(assignedTo := None) else codes[i])
  }

  function OtherUsers(users: seq<User>, id: Id): seq<User> {
    Filter(users, (u: User) => u.id != id)
  }

  /** `participant_id` is `on delete cascade`: the user's own check-in records go with it. */
  function OtherRecords(records: seq<CheckinRecord>, id: Id): seq<CheckinRecord> {
    Filter(records, (r: CheckinRecord) => r.participantId != id)
  }

  /** `deleteUser`: validation, the admin check, the lookup, then the delete with its foreign-key
      actions, or the database's refusal. The result is `{ success: true }`. */
  function DeleteSpec(t: Tables, ctx: RequestContext, id: string): (r: (Tables, Response<bool>))
    ensures r.0 == t.(users := r.0.users, codes := r.0.codes, records := r.0.records)
    ensures !r.1.Answered? ==> r.0 == t
    ensures r.1.Answered? ==> forall k :: 0 <= k < |r.0.users| ==> r.0.users[k].id != id
    ensures r.1.Answered? ==> forall k :: 0 <= k < |r.0.records| ==> r.0.records[k].participantId != id
    ensures r.1.Answered? ==> forall k :: 0 <= k < |r.0.codes| ==> r.0.codes[k].assignedTo != Some(id)
  {
    var issues := Check(id != [], UserIdRequired);
    if issues != [] then (t, InvalidInput(issues))
    else if RequireAdmin(ctx).Err? then (t, Thrown(RequireAdmin(ctx).error))
    else if UserIndex(t.users, id) == |t.users| then (t, Thrown(UserNotFound))
    else if CheckedInSomeone(t.records, id) then (t, Thrown(UserDeleteRejected))
    else
      (t.(users := OtherUsers(t.users, id), codes := Released(t.codes, id), records := OtherRecords(t.records, id)),
       Answered(true))
  }

  /** The remaining users keep their constraints. */
  lemma OtherUsersOk(users: seq<User>, id: Id, serial: nat)
    requires UsersOk(users) && AllIn(UserIds(users), Minted(serial))
    ensures var rest := OtherUsers(users, id);
      UsersOk(rest) && AllIn(UserIds(rest), Minted(serial))
  {
    var rest := OtherUsers(users, id);
    var keep := (u: User) => u.id != id;
    FilterKeepsDistinct(users, keep, (u: User) => u.id);
    FilterKeepsDistinct(users, keep, (u: User) => u.email);
    forall i | 0 <= i < |rest| ensures UserIds(rest)[i] in Minted(serial) {
      var j :| 0 <= j < |users| && users[j] == rest[i];
      assert UserIds(users)[j] in Minted(serial);
    }
  }

  /** Exactly the identifier `id` is gone from the remaining users. */
  lemma OtherUsersIds(users: seq<User>, id: Id)
    ensures var rest := OtherUsers(users, id);
      id !in UserIds(rest) && forall x :: x in UserIds(users) && x != id ==> x in UserIds(rest)
  {
    var rest := OtherUsers(users, id);
    forall x | x in UserIds(users) && x != id ensures x in UserIds(rest) {
      var j :| 0 <= j < |users| && UserIds(users)[j] == x;
      assert users[j] in rest;
      var m :| 0 <= m < |rest| && rest[m] == users[j];
      assert UserIds(rest)[m] == x;
    }
  }

  /** With distinct ids, the remaining users are the rows before and after the deleted one. */
  lemma OtherUsersSlice(users: seq<User>, id: Id)
    requires Distinct(UserIds(users)) && UserIndex(users, id) < |users|
    ensures var k := UserIndex(users, id);
      OtherUsers(users, id) == users[..k] + users[k + 1..]
  {
    var k := UserIndex(users, id);
    var keep := (u: User) => u.id != id;
    forall j | 0 <= j < |users| && j != k ensures keep(users[j]) {
      assert UserIds(users)[j] != UserIds(users)[k];
    }
    FilterDropsOne(users, keep, k);
  }

  /** Releasing the user's codes keeps the codes constraints against the remaining users. */
  lemma ReleasedOk(t: Tables, id: Id)
    requires TablesOk(t)
    requires forall x :: x in UserIds(t.users) && x != id ==> x in UserIds(OtherUsers(t.users, id))
    ensures var codes := Released(t.codes, id);
      CodesOk(codes, t.creditTypes, OtherUsers(t.users, id)) && PoolInvariant(codes) &&
      AllIn(CodeIds(codes), Minted(t.serial))
  {
    var codes := Released(t.codes, id);
    assert CodeIds(codes) == CodeIds(t.codes);
    assert CodeKeys(codes) == CodeKeys(t.codes);
  }

  /** The remaining records keep their identifiers and keys distinct and minted. */
  lemma OtherRecordsDistinct(records: seq<CheckinRecord>, id: Id, serial: nat)
    requires Distinct(RecordIds(records)) && Distinct(RecordKeys(records)) && AllIn(RecordIds(records), Minted(serial))
    ensures var rest := OtherRecords(records, id);
      Distinct(RecordIds(rest)) && Distinct(RecordKeys(rest)) && AllIn(RecordIds(rest), Minted(serial))
  {
    var rest := OtherRecords(records, id);
    var keep := (r: CheckinRecord) => r.participantId != id;
    FilterKeepsDistinct(records, keep, (r: CheckinRecord) => r.id);
    FilterKeepsDistinct(records, keep, (r: CheckinRecord) => (r.checkinTypeId, r.participantId));
    forall i | 0 <= i < |rest| ensures RecordIds(rest)[i] in Minted(serial) {
      var j :| 0 <= j < |records| && records[j] == rest[i];
      assert RecordIds(records)[j] in Minted(serial);
    }
  }

  /** The remaining records keep their constraints against the remaining users when none of them
      was performed by the deleted user. */
  lemma OtherRecordsOk(t: Tables, id: Id)
    requires TablesOk(t) && !CheckedInSomeone(t.records, id)
    requires forall x :: x in UserIds(t.users) && x != id ==> x in UserIds(OtherUsers(t.users, id))
    ensures var records := OtherRecords(t.records, id);
      RecordsOk(records, t.checkinTypes, OtherUsers(t.users, id)) && AllIn(RecordIds(records), Minted(t.serial))
  {
    var records := OtherRecords(t.records, id);
    OtherRecordsDistinct(t.records, id, t.serial);
    forall i | 0 <= i < |records|
      ensures records[i].checkinTypeId in CheckinTypeIds(t.checkinTypes)
      ensures records[i].participantId in UserIds(OtherUsers(t.users, id))
      ensures records[i].checkedInBy in UserIds(OtherUsers(t.users, id))
    {
      var j :| 0 <= j < |t.records| && t.records[j] == records[i];
    }
  }

  /** A delete the database accepts keeps every constraint. */
  lemma DeleteKeepsTables(t: Tables, id: Id)
    requires TablesOk(t) && !CheckedInSomeone(t.records, id)
    ensures TablesOk(t.(users := OtherUsers(t.users, id), codes := Released(t.codes, id), records := OtherRecords(t.records, id)))
  {
    OtherUsersOk(t.users, id, t.serial);
    OtherUsersIds(t.users, id);
    ReleasedOk(t, id);
    OtherRecordsOk(t, id);
  }

  method DeleteUser(db: Store, ctx: RequestContext, id: string) returns (r: Response<bool>)
    requires db.Valid()
    modifies db
    ensures db.Valid()
    ensures (db.Snapshot(), r) == DeleteSpec(old(db.Snapshot()), ctx, id)
  {
    if id == [] {
      return InvalidInput([UserIdRequired]);
    }
    var session := RequireAdmin(ctx);
    if session.Err? {
      return Thrown(session.error);
    }
    var k := UserIndex(db.users, id);
    if k == |db.users| {
      return Thrown(UserNotFound);
    }
    if CheckedInSomeone(db.records, id) {
      return Thrown(UserDeleteRejected);
    }
    DeleteKeepsTables(db.Snapshot(), id);
    db.users, db.codes, db.records := OtherUsers(db.users, id), Released(db.codes, id), OtherRecords(db.records, id);
    r := Answered(true);
  }

  /** Once the id is non-empty and the caller is an admin, an unknown id is refused with "User not
      found", and a user who performed some check-in cannot be deleted; both refusals change
      nothing, and every other call succeeds. */
  lemma DeleteGuard(t: Tables, ctx: RequestContext, id: string)
    requires id != [] && RequireAdmin(ctx).Ok?
    ensures var (after, r) := DeleteSpec(t, ctx, id);
      (r == Thrown(UserNotFound) <==> id !in UserIds(t.users)) &&
      (r == Thrown(UserDeleteRejected) <==> id in UserIds(t.users) && CheckedInSomeone(t.records, id)) &&
      (r.Answered? <==> id in UserIds(t.users) && !CheckedInSomeone(t.records, id)) &&
      (!r.Answered? ==> after == t)
  {
    UserIndexIn(t.users, id);
  }

  /** A successful delete keeps every constraint. */
  lemma DeleteKeepsConstraints(t: Tables, ctx: RequestContext, id: string)
    requires TablesOk(t) && DeleteSpec(t, ctx, id).1.Answered?
    ensures TablesOk(DeleteSpec(t, ctx, id).0)
  {
    DeleteKeepsTables(t, id);
  }

  /** A successful delete removes exactly the user's row (the others stay in order) and leaves the
      type tables alone. */
  lemma DeleteEffects(t: Tables, ctx: RequestContext, id: string)
    requires TablesOk(t) && DeleteSpec(t, ctx, id).1.Answered?
    ensures var after := DeleteSpec(t, ctx, id).0;
      var k := UserIndex(t.users, id);
      k < |t.users| && after.users == t.users[..k] + t.users[k + 1..] &&
      id !in UserIds(after.users) &&
      after.creditTypes == t.creditTypes && after.checkinTypes == t.checkinTypes && after.serial == t.serial
  {
    OtherUsersIds(t.users, id);
    OtherUsersSlice(t.users, id);
  }

  /** The foreign-key actions of a successful delete: the user's codes lose their owner and nothing
      else about them changes; the user's own check-in records are removed and all others kept. */
  lemma DeleteCascades(t: Tables, ctx: RequestContext, id: string)
    requires DeleteSpec(t, ctx, id).1.Answered?
    ensures var after := DeleteSpec(t, ctx, id).0;
      |after.codes| == |t.codes| &&
      (forall i :: 0 <= i < |t.codes| ==>
         after.codes[i].assignedTo != Some(id) &&
         after.codes[i] == if t.codes[i].assignedTo == Some(id) then t.codes[i].(assignedTo := None) else t.codes[i]) &&
      (forall i :: 0 <= i < |after.records| ==> after.records[i].participantId != id && after.records[i] in t.records) &&
      (forall i :: 0 <= i < |t.records| && t.records[i].participantId != id ==> t.records[i] in after.records)
  {
  }
}
