/** The operations desk's check-in API (apps/web/src/apis/ops/checkin.ts): `processCheckin`,
    `getGuestStatus`, `getCheckinCount` and `getRecentScans`. The transaction around the claim
    loop and the status update is one atomic step; the clock is the `now` parameter. */
module Checkin {
  import opened Wrappers
  import opened Constant
  import opened Schema
  import opened Db
  import opened Auth
  import opened Qr
  import opened Claims
  import opened Ordering
  import opened Lookup

  datatype ParticipantSummary = ParticipantSummary(id: Id, name: string, email: string, participantType: ParticipantType)

  function Summary(u: User): ParticipantSummary {
    ParticipantSummary(u.id, u.name, u.email, u.participantType)
  }

  /** What `processCheckin` hands back: an exception (`Raised`), a `success: false` answer
      (`Refused`), or a `success: true` answer (`Succeeded`, with the participant row as read before
      the check-in). */
  datatype CheckinOutcome =
    | Raised(error: string)
    | Refused(error: string, summary: Option<ParticipantSummary>, existingCheckinTime: Option<Time>)
    | Succeeded(participant: User, codesAssigned: nat, assignedCodes: seq<AssignedCode>, isVip: bool,
                isFirstAttendance: bool)

  /** The error the driver raises when the record insert breaks a constraint (its text is not modelled). */
  const RecordInsertRejected: string := "insert into checkin_records violates a constraint"

  /** The checks before any write: the input validator, the role gate, the QR token (whose
      verification result is `verification`), the participant, the check-in type, and an earlier
      record for the same pair. */
  datatype Admission =
    | Stop(outcome: CheckinOutcome)
    | Admitted(actor: Id, participant: nat, checkinType: CheckinType)

  function Admit(users: seq<User>, checkinTypes: seq<CheckinType>, records: seq<CheckinRecord>,
                 ctx: RequestContext, qrValue: string, verification: Verification, checkinTypeId: Id): (a: Admission)
    ensures a.Stop? ==> !a.outcome.Succeeded?
    ensures a.Admitted? ==> a.participant < |users| && verification == Verified(users[a.participant].id)
    ensures a.Admitted? ==> RequireOpsOrAdmin(ctx).Ok? && RequireOpsOrAdmin(ctx).value.userId == a.actor
    ensures a.Admitted? ==> a.checkinType in checkinTypes && a.checkinType.id == checkinTypeId && a.checkinType.isActive
    ensures a.Admitted? ==> forall k :: 0 <= k < |records| ==>
      !(records[k].checkinTypeId == checkinTypeId && records[k].participantId == users[a.participant].id)
  {
    if qrValue == [] then Stop(Raised("QR value is required"))
    else if checkinTypeId == [] then Stop(Raised("Check-in type ID is required"))
    else match RequireOpsOrAdmin(ctx)
      case Err(e) => Stop(Raised(e))
      case Ok(session) =>
        match verification
        case Rejected(_) => Stop(Refused("Invalid QR code", None, None))
        case Verified(participantId) =>
          var p := UserIndex(users, participantId);
          var t := CheckinTypeIndex(checkinTypes, checkinTypeId);
          var r := RecordIndex(records, checkinTypeId, participantId);
          if p == |users| then Stop(Refused("Participant not found", None, None))
          else if t == |checkinTypes| || !checkinTypes[t].isActive then
            Stop(Refused("Check-in type not found or inactive", None, None))
          else if r < |records| then
            Stop(Refused("Already checked in", Some(Summary(users[p])), Some(records[r].checkedInAt)))
          else Admitted(session.userId, p, checkinTypes[t])
  }

  /** `isFirstAttendance`: an attendance-type check-in of a participant still registered. */
  predicate IsFirstAttendance(checkinType: CheckinType, participant: User) {
    checkinType.category == CategoryCode(Attendance) && participant.status == Registered
  }

  /** The user row update of a first attendance. */
  function CheckIn(u: User, actor: Id, now: Time): User {
    u.(status := CheckedIn, checkedInAt := Some(now), checkedInBy := Some(actor))
  }

  /** The users table after the status update (made only on a first attendance). */
  function MarkCheckedIn(users: seq<User>, p: nat, first: bool, actor: Id, now: Time): seq<User>
    requires p < |users|
  {
    if first then users[p := CheckIn(users[p], actor, now)] else users
  }

  /** The claim run: the claim loop for a first attendance of a non-VIP, nothing otherwise. */
  function ClaimsFor(t: Tables, participant: User, claim: bool, now: Time): ClaimRun {
    if claim then ClaimAll(t.codes, VisitOrder(t.creditTypes), participant.id, now) else ClaimRun(t.codes, [])
  }

  /** The record a check-in inserts, with the next minted id. */
  function NewRecord(serial: nat, checkinTypeId: Id, participantId: Id, actor: Id, now: Time): CheckinRecord {
    CheckinRecord(MintId(serial), checkinTypeId, participantId, actor, now)
  }

  /** The writes of an admitted check-in: the claim transaction (claims and status update), then
      the record insert, which the database refuses when the actor is not a user (the only
      constraint it can break, by `RecordInsertOk`); the transaction stays committed. */
  function Commit(t: Tables, actor: Id, p: nat, checkinType: CheckinType, now: Time): (Tables, CheckinOutcome)
    requires p < |t.users|
  {
    var participant := t.users[p];
    var first := IsFirstAttendance(checkinType, participant);
    var vip := participant.participantType == Vip;
    var run := ClaimsFor(t, participant, first && !vip, now);
    var users := MarkCheckedIn(t.users, p, first, actor, now);
    var record := NewRecord(t.serial, checkinType.id, participant.id, actor, now);
    if actor in UserIds(users) then
      (t.(users := users, codes := run.codes, records := t.records + [record], serial := t.serial + 1),
       Succeeded(participant, |run.claimed|, run.claimed, vip, first))
    else
      (t.(users := users, codes := run.codes, serial := t.serial + 1), Raised(RecordInsertRejected))
  }

  /** The check-in's effect on the whole database, and its answer. */
  function CheckinSpec(t: Tables, ctx: RequestContext, qrValue: string, verification: Verification,
                       checkinTypeId: Id, now: Time): (r: (Tables, CheckinOutcome))
    ensures r.0.creditTypes == t.creditTypes && r.0.checkinTypes == t.checkinTypes
    ensures r.1.Refused? ==> r.0 == t
    ensures r.1.Succeeded? ==> |r.0.records| == |t.records| + 1 && r.0.records[..|t.records|] == t.records
    ensures !r.1.Succeeded? ==> r.0.records == t.records
  {
    match Admit(t.users, t.checkinTypes, t.records, ctx, qrValue, verification, checkinTypeId)
    case Stop(outcome) => (t, outcome)
    case Admitted(actor, p, checkinType) => Commit(t, actor, p, checkinType, now)
  }

  /** `processCheckin`. */
  method ProcessCheckin(db: Store, codec: QrCodec, ctx: RequestContext, qrValue: string, checkinTypeId: Id,
                        now: Time) returns (out: CheckinOutcome)
    requires db.Valid()
    modifies db
    ensures db.Valid()
    ensures (db.Snapshot(), out) ==
      CheckinSpec(old(db.Snapshot()), ctx, qrValue, Verify(codec, qrValue), checkinTypeId, now)
  {
    var verification := Verify(codec, qrValue);
    var admission := Admit(db.users, db.checkinTypes, db.records, ctx, qrValue, verification, checkinTypeId);
    if admission.Stop? {
      return admission.outcome;
    }
    out := CommitCheckin(db, admission.actor, admission.participant, admission.checkinType, now);
  }

  /** The writes of an admitted check-in: the transaction (claims, then the status update), then
      the record insert. */
  method CommitCheckin(db: Store, actor: Id, p: nat, checkinType: CheckinType, now: Time) returns (out: CheckinOutcome)
    requires db.Valid() && Admissible(db.Snapshot(), p, checkinType)
    modifies db
    ensures db.Valid()
    ensures (db.Snapshot(), out) == Commit(old(db.Snapshot()), actor, p, checkinType, now)
  {
    ghost var t := db.Snapshot();
    var participant := db.users[p];
    var isFirstAttendance := IsFirstAttendance(checkinType, participant);
    var isVip := participant.participantType == Vip;
    var codes, users := db.codes, db.users;
    var codesAssigned := 0;
    var assignedCodes := [];
    if isFirstAttendance && !isVip {
      codes, assignedCodes, codesAssigned := ClaimCodes(codes, VisitOrder(db.creditTypes), participant.id, now);
    }
    if isFirstAttendance {
      users := users[p := CheckIn(participant, actor, now)];
    }
    assert ClaimRun(codes, assignedCodes) == ClaimsFor(t, participant, isFirstAttendance && !isVip, now);
    assert users == MarkCheckedIn(t.users, p, isFirstAttendance, actor, now);
    var record := NewRecord(db.serial, checkinType.id, participant.id, actor, now);
    var records := db.records;
    if actor in UserIds(users) {
      records := records + [record];
      out := Succeeded(participant, codesAssigned, assignedCodes, isVip, isFirstAttendance);
    } else {
      out := Raised(RecordInsertRejected);
    }
    ghost var after := Tables(users, t.creditTypes, codes, t.checkinTypes, records, t.serial + 1);
    assert Commit(t, actor, p, checkinType, now) == (after, out);
    db.codes, db.users, db.records, db.serial := codes, users, records, db.serial + 1;
    assert db.Snapshot() == after;
    CommitKeepsTables(t, actor, p, checkinType, now);
  }

  // ---------------------------------------------------------------- properties of a check-in

  /** What admission guarantees about the row it hands on. */
  predicate Admissible(t: Tables, p: nat, checkinType: CheckinType) {
    p < |t.users| && checkinType in t.checkinTypes &&
    forall k :: 0 <= k < |t.records| ==>
      !(t.records[k].checkinTypeId == checkinType.id && t.records[k].participantId == t.users[p].id)
  }

  lemma MarkKeepsKeys(users: seq<User>, p: nat, first: bool, actor: Id, now: Time)
    requires p < |users|
    ensures UserIds(MarkCheckedIn(users, p, first, actor, now)) == UserIds(users)
    ensures Emails(MarkCheckedIn(users, p, first, actor, now)) == Emails(users)
  {
  }

  /** Appending the check-in record keeps the record table's constraints exactly when its actor is
      a user: its id is fresh, its (type, participant) pair is new, and its type and participant
      exist. */
  lemma RecordInsertOk(records: seq<CheckinRecord>, types: seq<CheckinType>, users: seq<User>, serial: nat,
                       checkinType: CheckinType, p: nat, actor: Id, now: Time)
    requires RecordsOk(records, types, users) && AllIn(RecordIds(records), Minted(serial))
    requires p < |users| && checkinType in types
    requires forall k :: 0 <= k < |records| ==>
      !(records[k].checkinTypeId == checkinType.id && records[k].participantId == users[p].id)
    ensures var record := NewRecord(serial, checkinType.id, users[p].id, actor, now);
      RecordsOk(records + [record], types, users) <==> actor in UserIds(users)
    ensures AllIn(RecordIds(records + [NewRecord(serial, checkinType.id, users[p].id, actor, now)]), Minted(serial + 1))
  {
    var record := NewRecord(serial, checkinType.id, users[p].id, actor, now);
    var all := records + [record];
    MintedFresh(serial, 0);
    MintedGrows(serial, serial + 1);
    assert RecordIds(all) == RecordIds(records) + [record.id];
    assert record.id !in RecordIds(records) by {
      forall k | 0 <= k < |records| ensures RecordIds(records)[k] != record.id {
        assert RecordIds(records)[k] in Minted(serial);
      }
    }
    DistinctAppend(RecordIds(records), [record.id]);
    assert RecordKeys(all) == RecordKeys(records) + [(record.checkinTypeId, record.participantId)];
    assert (record.checkinTypeId, record.participantId) !in RecordKeys(records) by {
      forall k | 0 <= k < |records|
        ensures RecordKeys(records)[k] != (record.checkinTypeId, record.participantId)
      {
        assert !(records[k].checkinTypeId == checkinType.id && records[k].participantId == users[p].id);
      }
    }
    DistinctAppend(RecordKeys(records), [(record.checkinTypeId, record.participantId)]);
    assert checkinType.id in CheckinTypeIds(types) by {
      var k :| 0 <= k < |types| && types[k] == checkinType;
      assert CheckinTypeIds(types)[k] == checkinType.id;
    }
    assert users[p].id in UserIds(users) by {
      assert UserIds(users)[p] == users[p].id;
    }
    assert all[|records|] == record;
    forall k | 0 <= k < |all| ensures RecordIds(all)[k] in Minted(serial + 1) {
      if k < |records| {
        assert RecordIds(records)[k] in Minted(serial);
      }
    }
  }

  /** The writes of an admitted check-in keep every constraint of the database. */
  lemma CommitKeepsTables(t: Tables, actor: Id, p: nat, checkinType: CheckinType, now: Time)
    requires TablesOk(t) && Admissible(t, p, checkinType)
    ensures TablesOk(Commit(t, actor, p, checkinType, now).0)
  {
    var participant := t.users[p];
    var first := IsFirstAttendance(checkinType, participant);
    var vip := participant.participantType == Vip;
    var users := MarkCheckedIn(t.users, p, first, actor, now);
    var run := ClaimsFor(t, participant, first && !vip, now);
    var record := NewRecord(t.serial, checkinType.id, participant.id, actor, now);
    var records := if actor in UserIds(users) then t.records + [record] else t.records;
    var after := Commit(t, actor, p, checkinType, now).0;
    assert after == Tables(users, t.creditTypes, run.codes, t.checkinTypes, records, t.serial + 1);
    MarkKeepsKeys(t.users, p, first, actor, now);
    assert UsersOk(users);
    assert participant.id in UserIds(t.users) by {
      assert UserIds(t.users)[p] == participant.id;
    }
    CodesFor(t, participant, first && !vip, now);
    assert CodesOk(run.codes, t.creditTypes, users);
    RecordInsertOk(t.records, t.checkinTypes, t.users, t.serial, checkinType, p, actor, now);
    assert RecordsOk(records, t.checkinTypes, users);
    AllInGrows(UserIds(t.users), t.serial, t.serial + 1);
    AllInGrows(CreditTypeIds(t.creditTypes), t.serial, t.serial + 1);
    AllInGrows(CodeIds(t.codes), t.serial, t.serial + 1);
    AllInGrows(CheckinTypeIds(t.checkinTypes), t.serial, t.serial + 1);
    AllInGrows(RecordIds(t.records), t.serial, t.serial + 1);
  }

  lemma CodesFor(t: Tables, participant: User, claim: bool, now: Time)
    requires TablesOk(t) && participant.id in UserIds(t.users)
    ensures var codes := ClaimsFor(t, participant, claim, now).codes;
      CodesOk(codes, t.creditTypes, t.users) && PoolInvariant(codes) && CodeIds(codes) == CodeIds(t.codes)
  {
    if claim {
      ClaimAllKeepsConstraints(t.codes, VisitOrder(t.creditTypes), t.creditTypes, t.users, participant.id, now);
    }
  }

  /** An admitted check-in hands on a row that admission checked. */
  lemma AdmittedIsAdmissible(t: Tables, ctx: RequestContext, qrValue: string, verification: Verification, checkinTypeId: Id)
    requires Admit(t.users, t.checkinTypes, t.records, ctx, qrValue, verification, checkinTypeId).Admitted?
    ensures var a := Admit(t.users, t.checkinTypes, t.records, ctx, qrValue, verification, checkinTypeId);
      Admissible(t, a.participant, a.checkinType)
  {
  }

  /** A check-in keeps every constraint of the database. */
  lemma CheckinKeepsTables(t: Tables, ctx: RequestContext, qrValue: string, verification: Verification,
                           checkinTypeId: Id, now: Time)
    requires TablesOk(t)
    ensures TablesOk(CheckinSpec(t, ctx, qrValue, verification, checkinTypeId, now).0)
  {
    var a := Admit(t.users, t.checkinTypes, t.records, ctx, qrValue, verification, checkinTypeId);
    if a.Admitted? {
      CommitKeepsTables(t, a.actor, a.participant, a.checkinType, now);
    }
  }

  /** A check-in that is not admitted answers without success and changes nothing. */
  lemma RefusalChangesNothing(t: Tables, ctx: RequestContext, qrValue: string, verification: Verification,
                              checkinTypeId: Id, now: Time)
    requires Admit(t.users, t.checkinTypes, t.records, ctx, qrValue, verification, checkinTypeId).Stop?
    ensures CheckinSpec(t, ctx, qrValue, verification, checkinTypeId, now).0 == t
    ensures !CheckinSpec(t, ctx, qrValue, verification, checkinTypeId, now).1.Succeeded?
  {
  }

  /** The refusals, in the order the handler checks them. */
  lemma AdmitRefusals(users: seq<User>, checkinTypes: seq<CheckinType>, records: seq<CheckinRecord>,
                      ctx: RequestContext, qrValue: string, verification: Verification, checkinTypeId: Id)
    requires qrValue != [] && checkinTypeId != [] && RequireOpsOrAdmin(ctx).Ok?
    ensures verification.Rejected? ==>
      Admit(users, checkinTypes, records, ctx, qrValue, verification, checkinTypeId) == Stop(Refused("Invalid QR code", None, None))
    ensures verification.Verified? && verification.participantId !in UserIds(users) ==>
      Admit(users, checkinTypes, records, ctx, qrValue, verification, checkinTypeId) ==
        Stop(Refused("Participant not found", None, None))
    ensures verification.Verified? && verification.participantId in UserIds(users) &&
            (forall k :: 0 <= k < |checkinTypes| && checkinTypes[k].id == checkinTypeId ==> !checkinTypes[k].isActive) ==>
      Admit(users, checkinTypes, records, ctx, qrValue, verification, checkinTypeId) ==
        Stop(Refused("Check-in type not found or inactive", None, None))
  {
    if verification.Verified? {
      UserIndexIn(users, verification.participantId);
    }
  }

  /** A scan of a pair that already has a record is stopped with "Already checked in", the
      participant and the stored time. */
  lemma AdmitAlreadyCheckedIn(t: Tables, ctx: RequestContext, qrValue: string, k: nat, p: nat)
    requires UsersOk(t.users) && CheckinTypesOk(t.checkinTypes) && Distinct(RecordKeys(t.records))
    requires qrValue != [] && RequireOpsOrAdmin(ctx).Ok?
    requires k < |t.records| && p < |t.users| && t.records[k].participantId == t.users[p].id
    requires exists j :: 0 <= j < |t.checkinTypes| && t.checkinTypes[j].id == t.records[k].checkinTypeId && t.checkinTypes[j].isActive
    ensures t.records[k].checkinTypeId != [] ==>
      Admit(t.users, t.checkinTypes, t.records, ctx, qrValue, Verified(t.users[p].id), t.records[k].checkinTypeId) ==
        Stop(Refused("Already checked in", Some(Summary(t.users[p])), Some(t.records[k].checkedInAt)))
  {
    var typeId := t.records[k].checkinTypeId;
    UserIndexFinds(t.users, p);
    RecordIndexFinds(t.records, k);
    var j :| 0 <= j < |t.checkinTypes| && t.checkinTypes[j].id == typeId && t.checkinTypes[j].isActive;
    CheckinTypeIndexFinds(t.checkinTypes, j);
  }

  /** A scan of a pair that already has a record answers "Already checked in" with the participant
      and the stored time, and changes nothing. */
  lemma AlreadyCheckedIn(t: Tables, ctx: RequestContext, qrValue: string, k: nat, p: nat, now: Time)
    requires UsersOk(t.users) && CheckinTypesOk(t.checkinTypes) && Distinct(RecordKeys(t.records))
    requires qrValue != [] && RequireOpsOrAdmin(ctx).Ok?
    requires k < |t.records| && p < |t.users| && t.records[k].participantId == t.users[p].id
    requires exists j :: 0 <= j < |t.checkinTypes| && t.checkinTypes[j].id == t.records[k].checkinTypeId && t.checkinTypes[j].isActive
    ensures t.records[k].checkinTypeId != []
      ==> CheckinSpec(t, ctx, qrValue, Verified(t.users[p].id), t.records[k].checkinTypeId, now) ==
          (t, Refused("Already checked in", Some(Summary(t.users[p])), Some(t.records[k].checkedInAt)))
  {
    AdmitAlreadyCheckedIn(t, ctx, qrValue, k, p);
  }

  /** A participant's token, scanned by an ops or admin user at an active check-in type they have
      no record for, is admitted. */
  lemma GeneratedTokenAdmitted(t: Tables, codec: QrCodec, ctx: RequestContext, p: nat, j: nat)
    requires Lawful(codec) && UsersOk(t.users) && p < |t.users| && j < |t.checkinTypes|
    requires RequireOpsOrAdmin(ctx).Ok? && t.checkinTypes[j].isActive && t.checkinTypes[j].id != []
    requires forall k :: 0 <= k < |t.checkinTypes| && t.checkinTypes[k].id == t.checkinTypes[j].id ==> k == j
    requires forall k :: 0 <= k < |t.records| ==>
      !(t.records[k].checkinTypeId == t.checkinTypes[j].id && t.records[k].participantId == t.users[p].id)
    requires Generate(codec, t.users[p].id) != []
    ensures var token := Generate(codec, t.users[p].id);
      Admit(t.users, t.checkinTypes, t.records, ctx, token, Verify(codec, token), t.checkinTypes[j].id)
        == Admitted(RequireOpsOrAdmin(ctx).value.userId, p, t.checkinTypes[j])
  {
    VerifyGenerate(codec, t.users[p].id);
    UserIndexFinds(t.users, p);
    FindIndexUnique(t.checkinTypes, (c: CheckinType) => c.id == t.checkinTypes[j].id, j);
  }

  /** The effects of the writes, stated on `Commit`. */
  lemma CommitEffects(t: Tables, actor: Id, p: nat, checkinType: CheckinType, now: Time)
    requires p < |t.users|
    requires Commit(t, actor, p, checkinType, now).1.Succeeded?
    ensures var after := Commit(t, actor, p, checkinType, now).0;
      var out := Commit(t, actor, p, checkinType, now).1;
      out.participant == t.users[p] &&
      (out.isFirstAttendance <==> checkinType.category == "attendance" && t.users[p].status == Registered) &&
      (out.isVip <==> t.users[p].participantType == Vip) &&
      |after.users| == |t.users| &&
      (forall k :: 0 <= k < |t.users| && k != p ==> after.users[k] == t.users[k]) &&
      (out.isFirstAttendance ==>
         after.users[p].status == CheckedIn && after.users[p].checkedInBy == Some(actor) &&
         after.users[p].checkedInAt == Some(now)) &&
      (!out.isFirstAttendance ==> after.users == t.users && after.codes == t.codes) &&
      (out.isVip ==> out.codesAssigned == 0 && after.codes == t.codes) &&
      out.codesAssigned == |out.assignedCodes| <= |ActiveCreditTypes(t.creditTypes)| &&
      after.records == t.records + [CheckinRecord(MintId(t.serial), checkinType.id, t.users[p].id, actor, now)] &&
      after.creditTypes == t.creditTypes && after.checkinTypes == t.checkinTypes
  {
    var order := VisitOrder(t.creditTypes);
    ClaimAllAssigned(t.codes, order, t.users[p].id, now);
    VisitOrderShape(t.creditTypes);
  }

  /** A successful check-in: the answer carries the participant as read, and `isFirstAttendance`
      and `isVip` as the handler computes them; the user row changes only on a first attendance (to
      checked in, by the actor, at `now`), VIP or not; codes change only on a first attendance of a
      non-VIP, and a VIP gets none; exactly one record (type, participant, actor, now) is appended
      last; the credit types and check-in types are untouched. */
  lemma CheckinEffects(t: Tables, ctx: RequestContext, qrValue: string, verification: Verification,
                       checkinTypeId: Id, now: Time)
    requires CheckinSpec(t, ctx, qrValue, verification, checkinTypeId, now).1.Succeeded?
    ensures Admit(t.users, t.checkinTypes, t.records, ctx, qrValue, verification, checkinTypeId).Admitted?
    ensures var a := Admit(t.users, t.checkinTypes, t.records, ctx, qrValue, verification, checkinTypeId);
      var after := CheckinSpec(t, ctx, qrValue, verification, checkinTypeId, now).0;
      var out := CheckinSpec(t, ctx, qrValue, verification, checkinTypeId, now).1;
      var p := a.participant;
      verification == Verified(t.users[p].id) &&
      out.participant == t.users[p] &&
      (out.isFirstAttendance <==> a.checkinType.category == "attendance" && t.users[p].status == Registered) &&
      (out.isVip <==> t.users[p].participantType == Vip) &&
      |after.users| == |t.users| &&
      (forall k :: 0 <= k < |t.users| && k != p ==> after.users[k] == t.users[k]) &&
      (out.isFirstAttendance ==>
         after.users[p].status == CheckedIn && after.users[p].checkedInBy == Some(a.actor) &&
         after.users[p].checkedInAt == Some(now)) &&
      (!out.isFirstAttendance ==> after.users == t.users && after.codes == t.codes) &&
      (out.isVip ==> out.codesAssigned == 0 && after.codes == t.codes) &&
      out.codesAssigned == |out.assignedCodes| <= |ActiveCreditTypes(t.creditTypes)| &&
      after.records == t.records + [CheckinRecord(MintId(t.serial), checkinTypeId, t.users[p].id, a.actor, now)] &&
      after.creditTypes == t.creditTypes && after.checkinTypes == t.checkinTypes
  {
    var a := Admit(t.users, t.checkinTypes, t.records, ctx, qrValue, verification, checkinTypeId);
    CommitEffects(t, a.actor, a.participant, a.checkinType, now);
  }

  /** For a first attendance of a regular participant, the codes claimed are one per active credit
      type with a free code, in ascending display order, types with an empty pool skipped; each was
      free and of its type before, and is held by the participant afterwards; every other code is
      unchanged. */
  lemma CommitClaims(t: Tables, actor: Id, p: nat, checkinType: CheckinType, now: Time)
    requires TablesOk(t) && p < |t.users|
    requires Commit(t, actor, p, checkinType, now).1.Succeeded?
    requires Commit(t, actor, p, checkinType, now).1.isFirstAttendance
    requires !Commit(t, actor, p, checkinType, now).1.isVip
    ensures var after := Commit(t, actor, p, checkinType, now).0;
      var out := Commit(t, actor, p, checkinType, now).1;
      var pid := t.users[p].id;
      ClaimedTypes(out.assignedCodes) == TypesWithFree(t.codes, VisitOrder(t.creditTypes)) &&
      SortedBy(ClaimedTypes(out.assignedCodes), DisplayOrderKey) &&
      (forall j :: 0 <= j < |out.assignedCodes| ==>
         out.assignedCodes[j].code in t.codes && IsFree(out.assignedCodes[j].code) &&
         out.assignedCodes[j].code.creditTypeId == out.assignedCodes[j].creditType.id &&
         out.assignedCodes[j].creditType.isActive &&
         Assign(out.assignedCodes[j].code, pid, now) in after.codes) &&
      |after.codes| == |t.codes| &&
      (forall k :: 0 <= k < |t.codes| ==>
         after.codes[k] == t.codes[k] || (IsFree(t.codes[k]) && after.codes[k] == Assign(t.codes[k], pid, now)))
  {
    var order := VisitOrder(t.creditTypes);
    var pid := t.users[p].id;
    var run := ClaimAll(t.codes, order, pid, now);
    assert Commit(t, actor, p, checkinType, now).1.assignedCodes == run.claimed;
    assert Commit(t, actor, p, checkinType, now).0.codes == run.codes;
    VisitOrderShape(t.creditTypes);
    ClaimedTypesExactly(t.codes, order, pid, now);
    ClaimAllAssigned(t.codes, order, pid, now);
    ClaimAllFrame(t.codes, order, pid, now);
    TypesWithFreeSorted(t.codes, order);
    TypesWithFreeSub(t.codes, order);
    forall j | 0 <= j < |run.claimed| ensures run.claimed[j].creditType.isActive {
      assert ClaimedTypes(run.claimed)[j] in TypesWithFree(t.codes, order);
    }
  }

  /** The claims of a check-in, stated on the whole handler. */
  lemma CheckinClaims(t: Tables, ctx: RequestContext, qrValue: string, verification: Verification,
                      checkinTypeId: Id, now: Time)
    requires TablesOk(t)
    requires CheckinSpec(t, ctx, qrValue, verification, checkinTypeId, now).1.Succeeded?
    requires CheckinSpec(t, ctx, qrValue, verification, checkinTypeId, now).1.isFirstAttendance
    requires !CheckinSpec(t, ctx, qrValue, verification, checkinTypeId, now).1.isVip
    ensures var after := CheckinSpec(t, ctx, qrValue, verification, checkinTypeId, now).0;
      var out := CheckinSpec(t, ctx, qrValue, verification, checkinTypeId, now).1;
      var pid := out.participant.id;
      ClaimedTypes(out.assignedCodes) == TypesWithFree(t.codes, VisitOrder(t.creditTypes)) &&
      SortedBy(ClaimedTypes(out.assignedCodes), DisplayOrderKey) &&
      (forall j :: 0 <= j < |out.assignedCodes| ==>
         out.assignedCodes[j].code in t.codes && IsFree(out.assignedCodes[j].code) &&
         out.assignedCodes[j].code.creditTypeId == out.assignedCodes[j].creditType.id &&
         out.assignedCodes[j].creditType.isActive &&
         Assign(out.assignedCodes[j].code, pid, now) in after.codes) &&
      |after.codes| == |t.codes| &&
      (forall k :: 0 <= k < |t.codes| ==>
         after.codes[k] == t.codes[k] || (IsFree(t.codes[k]) && after.codes[k] == Assign(t.codes[k], pid, now)))
  {
    var a := Admit(t.users, t.checkinTypes, t.records, ctx, qrValue, verification, checkinTypeId);
    CommitClaims(t, a.actor, a.participant, a.checkinType, now);
  }

  lemma {:induction false} TypesWithFreeSub(codes: seq<Code>, types: seq<CreditType>)
    ensures forall x :: x in TypesWithFree(codes, types) ==> x in types
    decreases |types|
  {
    if types != [] {
      TypesWithFreeSub(codes, types[..|types| - 1]);
    }
  }

  /** Keeping the elements of a sorted list that pass a test keeps it sorted. */
  lemma {:induction false} TypesWithFreeSorted(codes: seq<Code>, types: seq<CreditType>)
    requires SortedBy(types, DisplayOrderKey)
    ensures SortedBy(TypesWithFree(codes, types), DisplayOrderKey)
    decreases |types|
  {
    if types != [] {
      var init := types[..|types| - 1];
      TypesWithFreeSorted(codes, init);
      TypesWithFreeSub(codes, init);
      var f := TypesWithFree(codes, init);
      forall i | 0 <= i < |f| ensures DisplayOrderKey(f[i]) <= DisplayOrderKey(types[|types| - 1]) {
        assert f[i] in init;
      }
    }
  }

  /** Scanning the same token at the same check-in type again after a successful check-in is
      answered "Already checked in", with the time of the first scan, and changes nothing: a
      participant never claims codes twice through one check-in type. */
  lemma RescanRefused(t: Tables, ctx: RequestContext, qrValue: string, verification: Verification,
                      checkinTypeId: Id, now: Time, later: Time)
    requires TablesOk(t)
    requires CheckinSpec(t, ctx, qrValue, verification, checkinTypeId, now).1.Succeeded?
    ensures var after := CheckinSpec(t, ctx, qrValue, verification, checkinTypeId, now).0;
      var out := CheckinSpec(t, ctx, qrValue, verification, checkinTypeId, now).1;
      CheckinSpec(after, ctx, qrValue, verification, checkinTypeId, later) ==
        (after, Refused("Already checked in", Some(Summary(out.participant)), Some(now)))
  {
    var a := Admit(t.users, t.checkinTypes, t.records, ctx, qrValue, verification, checkinTypeId);
    var after := CheckinSpec(t, ctx, qrValue, verification, checkinTypeId, now).0;
    CheckinKeepsTables(t, ctx, qrValue, verification, checkinTypeId, now);
    CheckinEffects(t, ctx, qrValue, verification, checkinTypeId, now);
    var p := a.participant;
    var pid := t.users[p].id;
    assert after.users[p].id == pid;
    var j :| 0 <= j < |t.checkinTypes| && t.checkinTypes[j] == a.checkinType;
    assert after.records[|t.records|].checkedInAt == now;
    AlreadyCheckedIn(after, ctx, qrValue, |t.records|, p, later);
  }

  // ---------------------------------------------------------------- guest status

  /** One line of the guest status: an active check-in type and, when the participant has a
      record for it, the time of that record. */
  datatype CheckinStatus = CheckinStatus(checkinTypeId: Id, checkinTypeName: string, checkedInAt: Option<Time>)

  /** What `getGuestStatus` hands back: an exception, a `success: false` answer, or the
      participant with one status per active check-in type. */
  datatype GuestOutcome =
    | GuestRaised(error: string)
    | GuestRefused(error: string)
    | GuestFound(participant: ParticipantSummary, statuses: seq<CheckinStatus>)

  function CheckinTypeOrderKey(c: CheckinType): int {
    c.displayOrder
  }

  /** `SELECT * FROM checkin_types WHERE is_active ORDER BY display_order`. */
  function ActiveCheckinTypes(types: seq<CheckinType>): seq<CheckinType> {
    SortBy(Filter(types, (c: CheckinType) => c.isActive), CheckinTypeOrderKey)
  }

  /** `recordsMap.get(typeId)`, the map built from the participant's records in table order: a
      later record for the same type overrides an earlier one, so the last one counts. */
  function RecordTime(records: seq<CheckinRecord>, participantId: Id, checkinTypeId: Id): (r: Option<Time>)
    decreases |records|
  {
    if records == [] then None
    else
      var last := records[|records| - 1];
      if last.participantId == participantId && last.checkinTypeId == checkinTypeId then Some(last.checkedInAt)
      else RecordTime(records[..|records| - 1], participantId, checkinTypeId)
  }

  /** The statuses, one per check-in type of `order`, in that order. */
  function Statuses(order: seq<CheckinType>, records: seq<CheckinRecord>, participantId: Id): seq<CheckinStatus> {
    seq(|order|, i requires 0 <= i < |order| =>
      CheckinStatus(order[i].id, order[i].name, RecordTime(records, participantId, order[i].id)))
  }

  /** `getGuestStatus`, with the result of `verifyQRCodeValue` as `verification`. */
  function GuestStatus(t: Tables, ctx: RequestContext, qrValue: string, verification: Verification): (r: GuestOutcome)
    ensures r.GuestFound? ==> RequireOpsOrAdmin(ctx).Ok? && verification == Verified(r.participant.id)
    ensures r.GuestFound? ==> r.participant.id in UserIds(t.users)
    ensures qrValue == [] ==> r == GuestRaised("QR value is required")
    ensures qrValue != [] && RequireOpsOrAdmin(ctx).Ok? && verification.Rejected? ==> r == GuestRefused("Invalid QR code")
    ensures qrValue != [] && RequireOpsOrAdmin(ctx).Ok? && verification.Verified? ==>
      (r == GuestRefused("Participant not found") <==> verification.participantId !in UserIds(t.users))
  {
    if qrValue == [] then GuestRaised("QR value is required")
    else match RequireOpsOrAdmin(ctx)
      case Err(e) => GuestRaised(e)
      case Ok(_) =>
        match verification
        case Rejected(_) => GuestRefused("Invalid QR code")
        case Verified(participantId) =>
          var p := UserIndex(t.users, participantId);
          UserIndexIn(t.users, participantId);
          if p == |t.users| then GuestRefused("Participant not found")
          else
            assert UserIds(t.users)[p] == t.users[p].id;
            GuestFound(Summary(t.users[p]), Statuses(ActiveCheckinTypes(t.checkinTypes), t.records, participantId))
  }

  /** The time shown is present exactly when the participant has a record for the type, and is
      that record's time when records are unique per (type, participant). */
  lemma {:induction false} RecordTimeFinds(records: seq<CheckinRecord>, participantId: Id, checkinTypeId: Id)
    ensures RecordTime(records, participantId, checkinTypeId).Some? <==>
      exists k :: 0 <= k < |records| && records[k].participantId == participantId && records[k].checkinTypeId == checkinTypeId
    ensures Distinct(RecordKeys(records)) ==> forall k :: 0 <= k < |records| ==>
      (records[k].participantId == participantId && records[k].checkinTypeId == checkinTypeId ==>
       RecordTime(records, participantId, checkinTypeId) == Some(records[k].checkedInAt))
    decreases |records|
  {
    if records != [] {
      var n := |records| - 1;
      var init := records[..n];
      RecordTimeFinds(init, participantId, checkinTypeId);
      assert forall k :: 0 <= k < n ==> init[k] == records[k];
      if Distinct(RecordKeys(records)) {
        assert forall k :: 0 <= k < n ==> RecordKeys(init)[k] == RecordKeys(records)[k];
        forall k | 0 <= k < n && records[k].participantId == participantId && records[k].checkinTypeId == checkinTypeId
          ensures !(records[n].participantId == participantId && records[n].checkinTypeId == checkinTypeId)
        {
          assert RecordKeys(records)[k] != RecordKeys(records)[n];
        }
      }
    }
  }

  /** The active check-in types, each once, in ascending display order. */
  lemma ActiveCheckinTypesShape(types: seq<CheckinType>)
    ensures forall c :: c in ActiveCheckinTypes(types) <==> c in types && c.isActive
    ensures forall i, j :: 0 <= i < j < |ActiveCheckinTypes(types)| ==>
      ActiveCheckinTypes(types)[i].displayOrder <= ActiveCheckinTypes(types)[j].displayOrder
  {
    var active := Filter(types, (c: CheckinType) => c.isActive);
    var order := ActiveCheckinTypes(types);
    forall c ensures c in order <==> c in types && c.isActive {
      SortByMembers(active, CheckinTypeOrderKey, c);
      if c in types && c.isActive {
        var k :| 0 <= k < |types| && types[k] == c;
      }
      if c in active {
        var k :| 0 <= k < |active| && active[k] == c;
      }
    }
    forall i, j | 0 <= i < j < |order| ensures order[i].displayOrder <= order[j].displayOrder {
      assert CheckinTypeOrderKey(order[i]) <= CheckinTypeOrderKey(order[j]);
    }
  }

  /** The guest status lists every active check-in type once, in ascending display order, and
      shows for each the time of the participant's record for it, or nothing when there is none. */
  lemma GuestStatusShape(t: Tables, ctx: RequestContext, qrValue: string, verification: Verification)
    requires Distinct(RecordKeys(t.records))
    requires GuestStatus(t, ctx, qrValue, verification).GuestFound?
    ensures var r := GuestStatus(t, ctx, qrValue, verification);
      var order := ActiveCheckinTypes(t.checkinTypes);
      |r.statuses| == |order| &&
      (forall c :: c in order <==> c in t.checkinTypes && c.isActive) &&
      (forall i, j :: 0 <= i < j < |order| ==> order[i].displayOrder <= order[j].displayOrder) &&
      forall i :: 0 <= i < |order| ==>
        r.statuses[i].checkinTypeId == order[i].id && r.statuses[i].checkinTypeName == order[i].name &&
        (r.statuses[i].checkedInAt.None? <==>
           forall k :: 0 <= k < |t.records| ==>
             !(t.records[k].participantId == r.participant.id && t.records[k].checkinTypeId == order[i].id)) &&
        forall k :: 0 <= k < |t.records| ==>
          (t.records[k].participantId == r.participant.id && t.records[k].checkinTypeId == order[i].id ==>
           r.statuses[i].checkedInAt == Some(t.records[k].checkedInAt))
  {
    var r := GuestStatus(t, ctx, qrValue, verification);
    var order := ActiveCheckinTypes(t.checkinTypes);
    ActiveCheckinTypesShape(t.checkinTypes);
    forall i | 0 <= i < |order| ensures
      (r.statuses[i].checkedInAt.None? <==>
         forall k :: 0 <= k < |t.records| ==>
           !(t.records[k].participantId == r.participant.id && t.records[k].checkinTypeId == order[i].id)) &&
      forall k :: 0 <= k < |t.records| ==>
        (t.records[k].participantId == r.participant.id && t.records[k].checkinTypeId == order[i].id ==>
         r.statuses[i].checkedInAt == Some(t.records[k].checkedInAt))
    {
      RecordTimeFinds(t.records, r.participant.id, order[i].id);
    }
  }

  /** The facts the queries need about a successful check-in: the record appended, the user ids
      and the check-in types kept. */
  lemma CheckinAppendsRecord(t: Tables, ctx: RequestContext, qrValue: string, verification: Verification,
                             checkinTypeId: Id, now: Time)
    requires CheckinSpec(t, ctx, qrValue, verification, checkinTypeId, now).1.Succeeded?
    ensures var a := Admit(t.users, t.checkinTypes, t.records, ctx, qrValue, verification, checkinTypeId);
      var after := CheckinSpec(t, ctx, qrValue, verification, checkinTypeId, now).0;
      a.Admitted? && verification == Verified(t.users[a.participant].id) &&
      after.records == t.records + [NewRecord(t.serial, checkinTypeId, t.users[a.participant].id, a.actor, now)] &&
      UserIds(after.users) == UserIds(t.users) && after.checkinTypes == t.checkinTypes
  {
    var a := Admit(t.users, t.checkinTypes, t.records, ctx, qrValue, verification, checkinTypeId);
    var first := IsFirstAttendance(a.checkinType, t.users[a.participant]);
    MarkKeepsKeys(t.users, a.participant, first, a.actor, now);
  }

  /** After a successful check-in, the guest status shows the check-in type as checked in at the
      time of the scan. */
  lemma CheckinShowsInStatus(t: Tables, ctx: RequestContext, qrValue: string, verification: Verification,
                             checkinTypeId: Id, now: Time)
    requires CheckinSpec(t, ctx, qrValue, verification, checkinTypeId, now).1.Succeeded?
    ensures var after := CheckinSpec(t, ctx, qrValue, verification, checkinTypeId, now).0;
      var r := GuestStatus(after, ctx, qrValue, verification);
      r.GuestFound? &&
      exists i :: 0 <= i < |r.statuses| && r.statuses[i].checkinTypeId == checkinTypeId &&
        r.statuses[i].checkedInAt == Some(now)
  {
    var a := Admit(t.users, t.checkinTypes, t.records, ctx, qrValue, verification, checkinTypeId);
    var after := CheckinSpec(t, ctx, qrValue, verification, checkinTypeId, now).0;
    CheckinAppendsRecord(t, ctx, qrValue, verification, checkinTypeId, now);
    var pid := t.users[a.participant].id;
    assert UserIds(t.users)[a.participant] == pid;
    var r := GuestStatus(after, ctx, qrValue, verification);
    ActiveCheckinTypesShape(after.checkinTypes);
    var order := ActiveCheckinTypes(after.checkinTypes);
    assert a.checkinType in order;
    var i :| 0 <= i < |order| && order[i] == a.checkinType;
    assert RecordTime(after.records, pid, checkinTypeId) == Some(now);
    assert r.statuses[i].checkinTypeId == checkinTypeId;
  }

  // ---------------------------------------------------------------- check-in count

  /** The number of records of a check-in type (`SELECT count(*) ... WHERE checkin_type_id = ?`). */
  function CountOfType(records: seq<CheckinRecord>, checkinTypeId: Id): (n: nat)
    ensures n <= |records|
    ensures n == |Filter(records, (r: CheckinRecord) => r.checkinTypeId == checkinTypeId)|
    decreases |records|
  {
    if records == [] then 0
    else
      var here := if records[|records| - 1].checkinTypeId == checkinTypeId then 1 else 0;
      CountOfType(records[..|records| - 1], checkinTypeId) + here
  }

  /** `getCheckinCount`. */
  function CheckinCount(t: Tables, ctx: RequestContext, checkinTypeId: Id): (r: Result<nat>)
    ensures checkinTypeId == [] ==> r == Err("Check-in type ID is required")
    ensures checkinTypeId != [] ==> (r.Ok? <==> RequireOpsOrAdmin(ctx).Ok?)
    ensures r.Ok? ==> r.value <= |t.records|
  {
    if checkinTypeId == [] then Err("Check-in type ID is required")
    else match RequireOpsOrAdmin(ctx)
      case Err(e) => Err(e)
      case Ok(_) => Ok(CountOfType(t.records, checkinTypeId))
  }

  /** A successful check-in adds one to its type's count and leaves every other count as it was. */
  lemma CheckinRaisesCount(t: Tables, ctx: RequestContext, qrValue: string, verification: Verification,
                           checkinTypeId: Id, now: Time, other: Id)
    requires CheckinSpec(t, ctx, qrValue, verification, checkinTypeId, now).1.Succeeded?
    ensures var after := CheckinSpec(t, ctx, qrValue, verification, checkinTypeId, now).0;
      CheckinCount(after, ctx, checkinTypeId) == Ok(CountOfType(t.records, checkinTypeId) + 1) &&
      (other != checkinTypeId ==> CheckinCount(after, ctx, other) == CheckinCount(t, ctx, other))
  {
    var after := CheckinSpec(t, ctx, qrValue, verification, checkinTypeId, now).0;
    CheckinAppendsRecord(t, ctx, qrValue, verification, checkinTypeId, now);
    CountsAfterAppend(t, after, ctx, checkinTypeId, other);
  }

  /** Appending one record of a type raises that type's count by one and no other. */
  lemma CountsAfterAppend(t: Tables, after: Tables, ctx: RequestContext, checkinTypeId: Id, other: Id)
    requires |after.records| == |t.records| + 1 && after.records[..|t.records|] == t.records
    requires after.records[|t.records|].checkinTypeId == checkinTypeId && checkinTypeId != []
    requires RequireOpsOrAdmin(ctx).Ok?
    ensures CheckinCount(after, ctx, checkinTypeId) == Ok(CountOfType(t.records, checkinTypeId) + 1)
    ensures other != checkinTypeId ==> CheckinCount(after, ctx, other) == CheckinCount(t, ctx, other)
  {
  }

  // ---------------------------------------------------------------- recent scans

  datatype RecentScan = RecentScan(participantId: Id, participantName: string, participantType: ParticipantType,
                                   checkinTypeId: Id, checkinTypeName: string, checkedInAt: Time, isDuplicate: bool)

  const RecentScanLimit: nat := 10

  /** One record joined with its participant and its check-in type (`INNER JOIN`): nothing when
      either is missing. */
  function JoinScan(r: CheckinRecord, users: seq<User>, types: seq<CheckinType>): Option<RecentScan> {
    var u := UserIndex(users, r.participantId);
    var c := CheckinTypeIndex(types, r.checkinTypeId);
    if u == |users| || c == |types| then None
    else Some(RecentScan(r.participantId, users[u].name, users[u].participantType, r.checkinTypeId, types[c].name,
                         r.checkedInAt, false))
  }

  /** The joined rows of the records made by `actor`, in table order. */
  function ScansBy(records: seq<CheckinRecord>, users: seq<User>, types: seq<CheckinType>, actor: Id): (r: seq<RecentScan>)
    ensures |r| <= |records|
    decreases |records|
  {
    if records == [] then []
    else
      var last := records[|records| - 1];
      var j := JoinScan(last, users, types);
      ScansBy(records[..|records| - 1], users, types, actor) +
        (if last.checkedInBy == actor && j.Some? then [j.value] else [])
  }

  function NewestFirstKey(s: RecentScan): int {
    -(s.checkedInAt as int)
  }

  /** `getRecentScans`: the actor's records, newest first, at most ten. */
  function RecentScans(t: Tables, ctx: RequestContext): (r: Result<seq<RecentScan>>)
    ensures r.Ok? <==> RequireOpsOrAdmin(ctx).Ok?
    ensures r.Ok? ==> |r.value| <= RecentScanLimit
  {
    match RequireOpsOrAdmin(ctx)
    case Err(e) => Err(e)
    case Ok(session) =>
      var sorted := SortBy(ScansBy(t.records, t.users, t.checkinTypes, session.userId), NewestFirstKey);
      Ok(if |sorted| <= RecentScanLimit then sorted else sorted[..RecentScanLimit])
  }

  /** A record is made by the actor and joins exactly when its row is among the actor's rows. */
  predicate ScanOf(records: seq<CheckinRecord>, users: seq<User>, types: seq<CheckinType>, actor: Id, s: RecentScan) {
    !s.isDuplicate &&
    exists k :: 0 <= k < |records| && records[k].checkedInBy == actor && JoinScan(records[k], users, types) == Some(s)
  }

  /** Every joined row comes from a record made by the actor, with that record's participant,
      check-in type and time, and is not marked as a duplicate. */
  lemma {:induction false} ScansBySound(records: seq<CheckinRecord>, users: seq<User>, types: seq<CheckinType>, actor: Id)
    ensures forall j :: 0 <= j < |ScansBy(records, users, types, actor)| ==>
      ScanOf(records, users, types, actor, ScansBy(records, users, types, actor)[j])
    decreases |records|
  {
    if records != [] {
      var n := |records| - 1;
      var init := records[..n];
      ScansBySound(init, users, types, actor);
      var here := ScansBy(records, users, types, actor);
      var before := ScansBy(init, users, types, actor);
      forall j | 0 <= j < |here| ensures ScanOf(records, users, types, actor, here[j]) {
        if j < |before| {
          assert here[j] == before[j];
          var k :| 0 <= k < n && init[k].checkedInBy == actor && JoinScan(init[k], users, types) == Some(here[j]);
          assert records[k] == init[k];
        } else {
          assert JoinScan(records[n], users, types) == Some(here[j]);
        }
      }
    }
  }

  /** Under the foreign keys every record made by the actor has its row. */
  lemma {:induction false} ScansByComplete(records: seq<CheckinRecord>, users: seq<User>, types: seq<CheckinType>, actor: Id)
    requires forall k :: 0 <= k < |records| ==> records[k].participantId in UserIds(users)
    requires forall k :: 0 <= k < |records| ==> records[k].checkinTypeId in CheckinTypeIds(types)
    ensures forall k :: 0 <= k < |records| && records[k].checkedInBy == actor ==>
      JoinScan(records[k], users, types).Some? && JoinScan(records[k], users, types).value in ScansBy(records, users, types, actor)
    decreases |records|
  {
    if records != [] {
      var n := |records| - 1;
      var init := records[..n];
      assert forall k :: 0 <= k < n ==> init[k] == records[k];
      ScansByComplete(init, users, types, actor);
      var before := ScansBy(init, users, types, actor);
      var here := ScansBy(records, users, types, actor);
      assert here[..|before|] == before;
      forall k | 0 <= k < |records| && records[k].checkedInBy == actor
        ensures JoinScan(records[k], users, types).Some? && JoinScan(records[k], users, types).value in here
      {
        if k == n {
          UserIndexIn(users, records[k].participantId);
          CheckinTypeIndexIn(types, records[k].checkinTypeId);
        } else {
          assert JoinScan(init[k], users, types).value in before;
        }
      }
    }
  }

  /** The recent scans are sorted newest first, all made by the actor; when the actor has made at
      most ten check-ins they are all there. */
  lemma RecentScansShape(t: Tables, ctx: RequestContext)
    requires RecentScans(t, ctx).Ok?
    ensures var scans := RecentScans(t, ctx).value;
      var actor := RequireOpsOrAdmin(ctx).value.userId;
      var all := ScansBy(t.records, t.users, t.checkinTypes, actor);
      (forall i, j :: 0 <= i < j < |scans| ==> scans[i].checkedInAt >= scans[j].checkedInAt) &&
      (forall s :: s in scans ==> s in all && ScanOf(t.records, t.users, t.checkinTypes, actor, s)) &&
      (|all| <= RecentScanLimit ==> multiset(scans) == multiset(all))
  {
    var actor := RequireOpsOrAdmin(ctx).value.userId;
    var all := ScansBy(t.records, t.users, t.checkinTypes, actor);
    var sorted := SortBy(all, NewestFirstKey);
    var scans := RecentScans(t, ctx).value;
    ScansBySound(t.records, t.users, t.checkinTypes, actor);
    forall s | s in scans ensures s in all && ScanOf(t.records, t.users, t.checkinTypes, actor, s) {
      assert s in sorted;
      SortByMembers(all, NewestFirstKey, s);
      var i :| 0 <= i < |all| && all[i] == s;
    }
    forall i, j | 0 <= i < j < |scans| ensures scans[i].checkedInAt >= scans[j].checkedInAt {
      assert NewestFirstKey(sorted[i]) <= NewestFirstKey(sorted[j]);
    }
  }

  /** `ORDER BY checked_in_at DESC LIMIT 10`: the answer holds ten of the actor's rows whenever it
      has more than ten (all of them otherwise), each taken from them, and every row left out is no
      newer than any row shown. */
  lemma RecentScansNewest(t: Tables, ctx: RequestContext)
    requires RecentScans(t, ctx).Ok?
    ensures var scans := RecentScans(t, ctx).value;
      var all := ScansBy(t.records, t.users, t.checkinTypes, RequireOpsOrAdmin(ctx).value.userId);
      |scans| == (if |all| <= RecentScanLimit then |all| else RecentScanLimit) &&
      multiset(scans) <= multiset(all) &&
      forall s: RecentScan :: multiset(scans)[s] < multiset(all)[s] ==>
        forall k :: 0 <= k < |scans| ==> s.checkedInAt <= scans[k].checkedInAt
  {
    var all := ScansBy(t.records, t.users, t.checkinTypes, RequireOpsOrAdmin(ctx).value.userId);
    NewestTen(all, SortBy(all, NewestFirstKey), RecentScans(t, ctx).value);
  }

  /** The first ten rows of `sorted`, a newest-first ordering of `all`, or all of them. */
  lemma NewestTen(all: seq<RecentScan>, sorted: seq<RecentScan>, scans: seq<RecentScan>)
    requires SortedBy(sorted, NewestFirstKey) && multiset(sorted) == multiset(all)
    requires scans == if |sorted| <= RecentScanLimit then sorted else sorted[..RecentScanLimit]
    ensures |scans| == (if |all| <= RecentScanLimit then |all| else RecentScanLimit)
    ensures multiset(scans) <= multiset(all)
    ensures forall s: RecentScan :: multiset(scans)[s] < multiset(all)[s] ==>
      forall k :: 0 <= k < |scans| ==> s.checkedInAt <= scans[k].checkedInAt
  {
    var n := |scans|;
    assert |sorted| == |multiset(all)| == |all|;
    assert scans == sorted[..n];
    SortedPrefixFirst(sorted, NewestFirstKey, n);
    forall s: RecentScan | multiset(scans)[s] < multiset(all)[s]
      ensures forall k :: 0 <= k < n ==> s.checkedInAt <= scans[k].checkedInAt
    {
      forall k | 0 <= k < n ensures s.checkedInAt <= scans[k].checkedInAt {
        assert NewestFirstKey(sorted[k]) <= NewestFirstKey(s);
      }
    }
  }

  /** A prefix of a sorted sequence is a sub-multiset of it, and whatever it leaves out sorts no
      earlier than anything it holds. */
  lemma SortedPrefixFirst<T>(sorted: seq<T>, key: T -> int, n: nat)
    requires SortedBy(sorted, key) && n <= |sorted|
    ensures multiset(sorted[..n]) <= multiset(sorted)
    ensures forall x :: multiset(sorted[..n])[x] < multiset(sorted)[x] ==>
      forall k :: 0 <= k < n ==> key(sorted[k]) <= key(x)
  {
    assert sorted == sorted[..n] + sorted[n..];
    assert multiset(sorted) == multiset(sorted[..n]) + multiset(sorted[n..]);
    forall x | multiset(sorted[..n])[x] < multiset(sorted)[x]
      ensures forall k :: 0 <= k < n ==> key(sorted[k]) <= key(x)
    {
      assert x in multiset(sorted[n..]);
      var m :| n <= m < |sorted| && sorted[m] == x;
    }
  }

  /** Every check-in the actor has made shows among the recent scans when there are at most ten. */
  lemma RecentScansComplete(t: Tables, ctx: RequestContext, k: nat)
    requires RecordsOk(t.records, t.checkinTypes, t.users)
    requires RecentScans(t, ctx).Ok?
    requires k < |t.records| && t.records[k].checkedInBy == RequireOpsOrAdmin(ctx).value.userId
    ensures |ScansBy(t.records, t.users, t.checkinTypes, t.records[k].checkedInBy)| <= RecentScanLimit ==>
      JoinScan(t.records[k], t.users, t.checkinTypes).Some? &&
      JoinScan(t.records[k], t.users, t.checkinTypes).value in RecentScans(t, ctx).value
  {
    var actor := t.records[k].checkedInBy;
    var all := ScansBy(t.records, t.users, t.checkinTypes, actor);
    ScansByComplete(t.records, t.users, t.checkinTypes, actor);
    SortByMembers(all, NewestFirstKey, JoinScan(t.records[k], t.users, t.checkinTypes).value);
  }
}
