/** The participant dashboard of apps/web/src/apis/participant/dashboard.ts: the caller's own
    codes, the redeemed mark a participant sets on one of them, and the one-shot certificate
    name. Every call needs a session; the clock is the parameter `now`. */
module Dashboard {
  import opened Wrappers
  import opened Constant
  import opened Schema
  import opened Db
  import opened Auth
  import opened Ordering
  import opened Lookup
  import opened Api
  import opened CertificateName
  import Text

  // ---------------------------------------------------------------- getParticipantDashboard

  /** The user columns the dashboard selects. */
  datatype ParticipantView = ParticipantView(
    id: Id, name: string, email: string, status: ParticipantStatus, qrCodeValue: Option<string>,
    checkedInAt: Option<Time>, role: UserRole, isNameUpdated: bool)

  function ViewOf(u: User): ParticipantView {
    ParticipantView(u.id, u.name, u.email, u.status, u.qrCodeValue, u.checkedInAt, u.role, u.isNameUpdated)
  }

  /** A code with its credit type (`with: { creditType: true }`), which is absent when no type row
      carries the code's type id. */
  datatype OwnedCredit = OwnedCredit(code: Code, creditType: Option<CreditType>)

  datatype ParticipantDashboard = ParticipantDashboard(user: ParticipantView, credits: seq<OwnedCredit>)

  const UserNotFound: string := "User not found"

  /** `a.creditType?.displayOrder ?? 0`. */
  function CreditOrderKey(c: OwnedCredit): int {
    match c.creditType
    case Some(ct) => ct.displayOrder
    case None => 0
  }

  function WithType(types: seq<CreditType>, c: Code): OwnedCredit {
    var i := CreditTypeIndex(types, c.creditTypeId);
    OwnedCredit(c, if i < |types| then Some(types[i]) else None)
  }

  /** `findMany(where assignedTo = userId)`: the caller's codes in table order, each with its type. */
  function OwnedCredits(t: Tables, userId: Id): (r: seq<OwnedCredit>)
    ensures forall k :: 0 <= k < |r| ==> r[k].code in t.codes && r[k].code.assignedTo == Some(userId)
  {
    var owned := Filter(t.codes, (c: Code) => c.assignedTo == Some(userId));
    seq(|owned|, k requires 0 <= k < |owned| => WithType(t.creditTypes, owned[k]))
  }

  /** No code of the caller is missing from the query. */
  lemma OwnedCreditsComplete(t: Tables, userId: Id, k: nat)
    requires k < |t.codes| && t.codes[k].assignedTo == Some(userId)
    ensures WithType(t.creditTypes, t.codes[k]) in OwnedCredits(t, userId)
  {
    var owned := Filter(t.codes, (c: Code) => c.assignedTo == Some(userId));
    var j :| 0 <= j < |owned| && owned[j] == t.codes[k];
    assert OwnedCredits(t, userId)[j] == WithType(t.creditTypes, t.codes[k]);
  }

  /** `getParticipantDashboard`. */
  function GetParticipantDashboard(t: Tables, ctx: RequestContext): (r: Response<ParticipantDashboard>)
    ensures r.Answered? <==> RequireSession(ctx).Ok? && UserIndex(t.users, ctx.session.value.userId) < |t.users|
    ensures r.Answered? ==> SortedBy(r.value.credits, CreditOrderKey)
    ensures r.Answered? ==> multiset(r.value.credits) == multiset(OwnedCredits(t, ctx.session.value.userId))
  {
    match RequireSession(ctx)
    case Err(e) => Thrown(e)
    case Ok(session) =>
      var p := UserIndex(t.users, session.userId);
      if p == |t.users| then Thrown(UserNotFound)
      else Answered(ParticipantDashboard(ViewOf(t.users[p]), SortBy(OwnedCredits(t, session.userId), CreditOrderKey)))
  }

  /** The dashboard shows the caller's own row and exactly the codes assigned to the caller, each
      once as often as it is stored, in ascending display order of their credit types. */
  lemma DashboardShape(t: Tables, ctx: RequestContext)
    requires GetParticipantDashboard(t, ctx).Answered?
    ensures var d := GetParticipantDashboard(t, ctx).value;
      var userId := ctx.session.value.userId;
      d.user.id == userId &&
      SortedBy(d.credits, CreditOrderKey) &&
      multiset(d.credits) == multiset(OwnedCredits(t, userId)) &&
      (forall k :: 0 <= k < |d.credits| ==> d.credits[k].code in t.codes && d.credits[k].code.assignedTo == Some(userId)) &&
      (forall k :: 0 <= k < |t.codes| && t.codes[k].assignedTo == Some(userId) ==> WithType(t.creditTypes, t.codes[k]) in d.credits)
  {
    var userId := ctx.session.value.userId;
    var owned := OwnedCredits(t, userId);
    var d := GetParticipantDashboard(t, ctx).value;
    UserIndexIn(t.users, userId);
    forall k | 0 <= k < |d.credits| ensures d.credits[k] in owned {
      SortByMembers(owned, CreditOrderKey, d.credits[k]);
    }
    forall k | 0 <= k < |t.codes| && t.codes[k].assignedTo == Some(userId)
      ensures WithType(t.creditTypes, t.codes[k]) in d.credits
    {
      OwnedCreditsComplete(t, userId, k);
      SortByMembers(owned, CreditOrderKey, WithType(t.creditTypes, t.codes[k]));
    }
  }

  /** Under the table constraints every owned code comes with its own credit type. */
  lemma OwnedCreditsTyped(t: Tables, userId: Id)
    requires TablesOk(t)
    ensures forall k :: 0 <= k < |OwnedCredits(t, userId)| ==>
      var c := OwnedCredits(t, userId)[k];
      c.creditType.Some? && c.creditType.value in t.creditTypes && c.creditType.value.id == c.code.creditTypeId
  {
    forall k | 0 <= k < |OwnedCredits(t, userId)|
      ensures var c := OwnedCredits(t, userId)[k];
        c.creditType.Some? && c.creditType.value in t.creditTypes && c.creditType.value.id == c.code.creditTypeId
    {
      var c := OwnedCredits(t, userId)[k];
      var j :| 0 <= j < |t.codes| && t.codes[j] == c.code;
      CreditTypeIndexIn(t.creditTypes, c.code.creditTypeId);
    }
  }

  // ---------------------------------------------------------------- markCreditRedeemed

  const NotYourCode: string := "Code not found or not assigned to you"

  /** The `SET redeemed_at` of the redeemed toggle. */
  function MarkRedeemed(c: Code, redeemed: bool, now: Time): Code {
    c.(redeemedAt := if redeemed then Some(now) else None)
  }

  /** `markCreditRedeemed`: only the owner of an existing code may mark it. */
  function RedeemSpec(t: Tables, ctx: RequestContext, codeId: Id, redeemed: bool, now: Time): (r: (Tables, Response<bool>))
    ensures r.0 == t.(codes := r.0.codes)
    ensures !r.1.Answered? ==> r.0 == t
    ensures |r.0.codes| == |t.codes| &&
      forall k :: 0 <= k < |t.codes| && t.codes[k].id != codeId ==> r.0.codes[k] == t.codes[k]
  {
    match RequireSession(ctx)
    case Err(e) => (t, Thrown(e))
    case Ok(session) =>
      var k := CodeIndex(t.codes, codeId);
      if k == |t.codes| || t.codes[k].assignedTo != Some(session.userId) then (t, Thrown(NotYourCode))
      else (t.(codes := t.codes[k := MarkRedeemed(t.codes[k], redeemed, now)]), Answered(true))
  }

  /** Changing only `redeemedAt` of one code keeps every constraint. */
  lemma RedeemKeepsTables(t: Tables, k: nat, redeemed: bool, now: Time)
    requires TablesOk(t) && k < |t.codes|
    ensures TablesOk(t.(codes := t.codes[k := MarkRedeemed(t.codes[k], redeemed, now)]))
  {
    var codes := t.codes[k := MarkRedeemed(t.codes[k], redeemed, now)];
    assert CodeIds(codes) == CodeIds(t.codes);
    assert CodeKeys(codes) == CodeKeys(t.codes);
  }

  method MarkCreditRedeemed(db: Store, ctx: RequestContext, codeId: Id, redeemed: bool, now: Time) returns (r: Response<bool>)
    requires db.Valid()
    modifies db
    ensures db.Valid()
    ensures (db.Snapshot(), r) == RedeemSpec(old(db.Snapshot()), ctx, codeId, redeemed, now)
  {
    var session := RequireSession(ctx);
    if session.Err? {
      return Thrown(session.error);
    }
    var k := CodeIndex(db.codes, codeId);
    if k == |db.codes| || db.codes[k].assignedTo != Some(session.value.userId) {
      return Thrown(NotYourCode);
    }
    RedeemKeepsTables(db.Snapshot(), k, redeemed, now);
    db.codes := db.codes[k := MarkRedeemed(db.codes[k], redeemed, now)];
    r := Answered(true);
  }

  /** The mark is refused, and nothing changes, exactly when no code has the id or the code with
      the id is not assigned to the caller. */
  lemma RedeemRefusal(t: Tables, ctx: RequestContext, codeId: Id, redeemed: bool, now: Time)
    requires TablesOk(t) && RequireSession(ctx).Ok?
    ensures var userId := ctx.session.value.userId;
      var owned := exists k :: 0 <= k < |t.codes| && t.codes[k].id == codeId && t.codes[k].assignedTo == Some(userId);
      (!owned <==> RedeemSpec(t, ctx, codeId, redeemed, now) == (t, Thrown(NotYourCode))) &&
      (owned <==> RedeemSpec(t, ctx, codeId, redeemed, now).1 == Answered(true))
  {
    var userId := ctx.session.value.userId;
    var i := CodeIndex(t.codes, codeId);
    forall k | 0 <= k < |t.codes| && t.codes[k].id == codeId ensures k == i {
      assert CodeIds(t.codes)[k] == codeId;
      if i < |t.codes| {
        assert CodeIds(t.codes)[i] == codeId;
      }
    }
  }

  /** A mark sets or clears `redeemedAt` of the caller's code and changes nothing else: the status
      and the owner stay, so a code never reaches the status "redeemed" this way. */
  lemma RedeemEffects(t: Tables, ctx: RequestContext, codeId: Id, redeemed: bool, now: Time)
    requires RedeemSpec(t, ctx, codeId, redeemed, now).1.Answered?
    ensures var after := RedeemSpec(t, ctx, codeId, redeemed, now).0;
      var k := CodeIndex(t.codes, codeId);
      k < |t.codes| && |after.codes| == |t.codes| &&
      after == t.(codes := after.codes) &&
      (forall j :: 0 <= j < |t.codes| && j != k ==> after.codes[j] == t.codes[j]) &&
      after.codes[k].redeemedAt == (if redeemed then Some(now) else None) &&
      after.codes[k].status == t.codes[k].status && after.codes[k].assignedTo == t.codes[k].assignedTo &&
      after.codes[k] == t.codes[k].(redeemedAt := after.codes[k].redeemedAt)
  {
  }

  /** Marking and then unmarking leaves the code as it was before, if it was not marked. */
  lemma RedeemUndo(t: Tables, ctx: RequestContext, codeId: Id, now: Time, later: Time)
    requires RedeemSpec(t, ctx, codeId, true, now).1.Answered?
    requires t.codes[CodeIndex(t.codes, codeId)].redeemedAt.None?
    ensures RedeemSpec(RedeemSpec(t, ctx, codeId, true, now).0, ctx, codeId, false, later).0 == t
  {
    var k := CodeIndex(t.codes, codeId);
    var once := RedeemSpec(t, ctx, codeId, true, now).0;
    CodeIndexSameIds(t.codes, once.codes, codeId);
    assert once.codes[k := MarkRedeemed(once.codes[k], false, later)] == t.codes;
  }

  // ---------------------------------------------------------------- updateProfileName

  const MustCheckIn: string := "You must check in at the event before you can set your certificate name"
  const NameLocked: string := "Certificate name cannot be changed after it has been saved"

  /** The name update: the trimmed name is stored and the lock is set. */
  function SaveName(u: User, name: string): User {
    u.(name := Text.Trim(name), isNameUpdated := true)
  }

  /** The name check shared with the operations profile: a validated trimmed name, or the error of
      `validateCertificateName` (`validation.error || 'Invalid name'`). */
  function NameError(name: string): Option<string> {
    match ValidateCertificateName(Text.Trim(name))
    case NameOk => None
    case NameRejected(e) => Some(if e == [] then "Invalid name" else e)
  }

  /** `updateProfileName`. The re-read after the update finds the row just written, so its
      "User not found after update" cannot fire in this sequential model. */
  function ProfileNameSpec(t: Tables, ctx: RequestContext, name: string): (r: (Tables, Response<ParticipantView>))
    ensures r.0 == t.(users := r.0.users)
    ensures !r.1.Answered? ==> r.0 == t
    ensures |r.0.users| == |t.users|
  {
    match RequireSession(ctx)
    case Err(e) => (t, Thrown(e))
    case Ok(session) =>
      var p := UserIndex(t.users, session.userId);
      if p == |t.users| then (t, Thrown(UserNotFound))
      else if t.users[p].status != CheckedIn then (t, Thrown(MustCheckIn))
      else if t.users[p].isNameUpdated then (t, Thrown(NameLocked))
      else if NameError(name).Some? then (t, Thrown(NameError(name).value))
      else
        var u := SaveName(t.users[p], name);
        (t.(users := t.users[p := u]), Answered(ViewOf(u)))
  }

  /** Rewriting one user's name and lock keeps every constraint. */
  lemma SaveNameKeepsTables(t: Tables, p: nat, name: string)
    requires TablesOk(t) && p < |t.users|
    ensures TablesOk(t.(users := t.users[p := SaveName(t.users[p], name)]))
  {
    var users := t.users[p := SaveName(t.users[p], name)];
    assert UserIds(users) == UserIds(t.users);
    assert Emails(users) == Emails(t.users);
  }

  method UpdateProfileName(db: Store, ctx: RequestContext, name: string) returns (r: Response<ParticipantView>)
    requires db.Valid()
    modifies db
    ensures db.Valid()
    ensures (db.Snapshot(), r) == ProfileNameSpec(old(db.Snapshot()), ctx, name)
  {
    var session := RequireSession(ctx);
    if session.Err? {
      return Thrown(session.error);
    }
    var p := UserIndex(db.users, session.value.userId);
    if p == |db.users| {
      return Thrown(UserNotFound);
    }
    var current := db.users[p];
    if current.status != CheckedIn {
      return Thrown(MustCheckIn);
    }
    if current.isNameUpdated {
      return Thrown(NameLocked);
    }
    var error := NameError(name);
    if error.Some? {
      return Thrown(error.value);
    }
    var u := SaveName(current, name);
    SaveNameKeepsTables(db.Snapshot(), p, name);
    db.users := db.users[p := u];
    r := Answered(ViewOf(u));
  }

  /** The gates, each leaving the tables as they were: a user who has not checked in, or whose
      name is already saved, is refused whatever the name. */
  lemma ProfileNameGates(t: Tables, ctx: RequestContext, name: string)
    requires RequireSession(ctx).Ok?
    ensures var p := UserIndex(t.users, ctx.session.value.userId);
      p < |t.users| && t.users[p].status != CheckedIn ==> ProfileNameSpec(t, ctx, name) == (t, Thrown(MustCheckIn))
    ensures var p := UserIndex(t.users, ctx.session.value.userId);
      p < |t.users| && t.users[p].status == CheckedIn && t.users[p].isNameUpdated ==>
        ProfileNameSpec(t, ctx, name) == (t, Thrown(NameLocked))
    ensures !ProfileNameSpec(t, ctx, name).1.Answered? ==> ProfileNameSpec(t, ctx, name).0 == t
  {
  }

  /** A saved name is the trimmed input, non-empty and at most 100 UTF-16 code units (so at most
      100 characters), and only the caller's name and lock change. */
  lemma ProfileNameEffects(t: Tables, ctx: RequestContext, name: string)
    requires ProfileNameSpec(t, ctx, name).1.Answered?
    ensures var (after, r) := ProfileNameSpec(t, ctx, name);
      var p := UserIndex(t.users, ctx.session.value.userId);
      p < |t.users| && r.value.name == Text.Trim(name) && 1 <= |r.value.name| <= MaxNameLength &&
      Text.Utf16Length(r.value.name) <= MaxNameLength &&
      r.value.isNameUpdated && r.value.id == t.users[p].id &&
      after == t.(users := t.users[p := t.users[p].(name := Text.Trim(name), isNameUpdated := true)])
  {
    Text.TrimIdempotent(name);
  }

  /** The lock is one-shot: once a name is saved, every later call is refused, whatever the name. */
  lemma ProfileNameOnce(t: Tables, ctx: RequestContext, name: string, second: string)
    requires ProfileNameSpec(t, ctx, name).1.Answered?
    ensures var after := ProfileNameSpec(t, ctx, name).0;
      ProfileNameSpec(after, ctx, second) == (after, Thrown(NameLocked))
  {
    var after := ProfileNameSpec(t, ctx, name).0;
    var p := UserIndex(t.users, ctx.session.value.userId);
    UserIndexSameIds(t.users, after.users, ctx.session.value.userId);
  }
}
