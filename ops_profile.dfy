/** The operations profile of apps/web/src/apis/ops/profile.ts: the caller's own row and the
    one-shot certificate name, which unlike the participant's needs no check-in. */
module OpsProfile {
  import opened Wrappers
  import opened Constant
  import opened Schema
  import opened Db
  import opened Auth
  import opened Lookup
  import opened Api
  import opened CertificateName
  import opened Dashboard
  import Text

  /** The user columns the profile selects. */
  datatype OpsView = OpsView(id: Id, name: string, email: string, role: UserRole, isNameUpdated: bool)

  function OpsViewOf(u: User): OpsView {
    OpsView(u.id, u.name, u.email, u.role, u.isNameUpdated)
  }

  /** `getOpsProfile`. */
  function GetOpsProfile(t: Tables, ctx: RequestContext): (r: Response<OpsView>)
    ensures r.Answered? <==> RequireSession(ctx).Ok? && RequireSession(ctx).value.userId in UserIds(t.users)
    ensures r.Answered? ==> r.value.id == RequireSession(ctx).value.userId && exists k :: 0 <= k < |t.users| && OpsViewOf(t.users[k]) == r.value
    ensures RequireSession(ctx).Ok? && RequireSession(ctx).value.userId !in UserIds(t.users) ==> r == Thrown(UserNotFound)
  {
    match RequireSession(ctx)
    case Err(e) => Thrown(e)
    case Ok(session) =>
      var p := UserIndex(t.users, session.userId);
      UserIndexIn(t.users, session.userId);
      if p == |t.users| then Thrown(UserNotFound)
      else Answered(OpsViewOf(t.users[p]))
  }

  /** `updateOpsProfileName`: the participant's rules without the check-in requirement. */
  function OpsNameSpec(t: Tables, ctx: RequestContext, name: string): (r: (Tables, Response<OpsView>))
    ensures r.0 == t.(users := r.0.users)
    ensures !r.1.Answered? ==> r.0 == t
    ensures |r.0.users| == |t.users|
  {
    match RequireSession(ctx)
    case Err(e) => (t, Thrown(e))
    case Ok(session) =>
      var p := UserIndex(t.users, session.userId);
      if p == |t.users| then (t, Thrown(UserNotFound))
      else if t.users[p].isNameUpdated then (t, Thrown(NameLocked))
      else if NameError(name).Some? then (t, Thrown(NameError(name).value))
      else
        var u := SaveName(t.users[p], name);
        (t.(users := t.users[p := u]), Answered(OpsViewOf(u)))
  }

  method UpdateOpsProfileName(db: Store, ctx: RequestContext, name: string) returns (r: Response<OpsView>)
    requires db.Valid()
    modifies db
    ensures db.Valid()
    ensures (db.Snapshot(), r) == OpsNameSpec(old(db.Snapshot()), ctx, name)
  {
    var session := RequireSession(ctx);
    if session.Err? {
      return Thrown(session.error);
    }
    var p := UserIndex(db.users, session.value.userId);
    if p == |db.users| {
      return Thrown(UserNotFound);
    }
    var current := db.users[p];
    if current.isNameUpdated {
      return Thrown(NameLocked);
    }
    var error := NameError(name);
    if error.Some? {
      return Thrown(error.value);
    }
    var u := SaveName(current, name);
    SaveNameKeepsTables(db.Snapshot(), p, name);
    db.users := db.users[p := u];
    r := Answered(OpsViewOf(u));
  }

  /** An invalid trimmed name is refused with the validator's message and changes nothing; so is
      any name once the lock is set. */
  lemma OpsNameRefusals(t: Tables, ctx: RequestContext, name: string)
    requires RequireSession(ctx).Ok?
    ensures var p := UserIndex(t.users, ctx.session.value.userId);
      p < |t.users| && !t.users[p].isNameUpdated && ValidateCertificateName(Text.Trim(name)).NameRejected? ==>
        OpsNameSpec(t, ctx, name) == (t, Thrown(ValidateCertificateName(Text.Trim(name)).error))
    ensures var p := UserIndex(t.users, ctx.session.value.userId);
      p < |t.users| && t.users[p].isNameUpdated ==> OpsNameSpec(t, ctx, name) == (t, Thrown(NameLocked))
  {
    var p := UserIndex(t.users, ctx.session.value.userId);
    if p < |t.users| && !t.users[p].isNameUpdated && ValidateCertificateName(Text.Trim(name)).NameRejected? {
      var e := ValidateCertificateName(Text.Trim(name)).error;
      assert e == "Name cannot be empty" || e == "Name must be 100 characters or less";
    }
  }

  /** No check-in is needed: a registered operator with a valid name and no saved name succeeds,
      storing the trimmed name and setting the lock; a second call is then refused. */
  lemma OpsNameSaved(t: Tables, ctx: RequestContext, name: string, second: string)
    requires RequireSession(ctx).Ok?
    requires var p := UserIndex(t.users, ctx.session.value.userId);
      p < |t.users| && !t.users[p].isNameUpdated &&
      Text.Trim(name) != [] && Text.Utf16Length(Text.Trim(name)) <= MaxNameLength
    ensures var (after, r) := OpsNameSpec(t, ctx, name);
      var p := UserIndex(t.users, ctx.session.value.userId);
      r.Answered? && r.value.name == Text.Trim(name) && r.value.isNameUpdated &&
      after == t.(users := t.users[p := t.users[p].(name := Text.Trim(name), isNameUpdated := true)]) &&
      OpsNameSpec(after, ctx, second) == (after, Thrown(NameLocked))
  {
    var after := OpsNameSpec(t, ctx, name).0;
    Text.TrimIdempotent(name);
    UserIndexSameIds(t.users, after.users, ctx.session.value.userId);
  }
}
