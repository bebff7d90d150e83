/** The three handlers of the admin participants page (apps/web/src/routes/admin/participants.tsx)
    that decide what reaches the server: `handleEdit` fills the edit dialog from a listed
    participant, `handleUpdateUser` turns the dialog into an `updateUser` payload carrying only a
    changed role or participant type, and `handleImport` sends the valid rows of a parsed CSV file.
    The React state the handlers set is a value here: the dialog is an `EditForm`. */
module ParticipantsPage {
  import opened Wrappers
  import opened Constant
  import opened Schema
  import opened Participants
  import opened CsvParser

  /** The edit dialog's state: the participant being edited, the name, email and user type fields,
      and the role and participant type the participant had when the dialog opened. */
  datatype EditForm = EditForm(editing: Option<ParticipantRow>, name: string, email: string, userType: UserType,
                               originalRole: Option<UserRole>, originalType: Option<ParticipantType>)

  /** `handleEdit`'s if-chain: the user type the dialog preselects for a role and participant type.
      Its last test (`vip` gives vip) repeats the default. */
  function SelectedType(role: UserRole, participantType: ParticipantType): UserType {
    if role == Admin then AdminUser
    else if role == Ops then OpsUser
    else if role == Participant && participantType == Regular then RegularUser
    else if participantType == Vip then VipUser
    else VipUser
  }

  /** The preselection names the row's role and type exactly when the row is a participant or has
      the regular type; an admin or ops row with the vip type is shown as plain admin or ops. */
  lemma SelectedTypeRoundTrip(role: UserRole, participantType: ParticipantType)
    ensures RoleAndType(SelectedType(role, participantType)) == (role, participantType) <==>
      role == Participant || participantType == Regular
    ensures role != Participant ==> RoleAndType(SelectedType(role, participantType)) == (role, Regular)
  {
  }

  /** Every user type is preselected again for the role and type it stands for. */
  lemma SelectedTypeOfMapping(userType: UserType)
    ensures var (role, participantType) := RoleAndType(userType); SelectedType(role, participantType) == userType
  {
  }

  /** `handleEdit`: the dialog opens on the participant, with its name, email and preselected type,
      and remembers its role and participant type. */
  function HandleEdit(p: ParticipantRow): (form: EditForm)
    ensures form.editing == Some(p) && form.name == p.name && form.email == p.email
    ensures form.originalRole == Some(p.role) && form.originalType == Some(p.participantType)
    ensures p.role == Participant || p.participantType == Regular ==>
      RoleAndType(form.userType) == (p.role, p.participantType)
  {
    EditForm(Some(p), p.name, p.email, SelectedType(p.role, p.participantType), Some(p.role), Some(p.participantType))
  }

  /** `handleUpdateUser`: nothing is sent unless a participant is being edited, the name and email
      are non-empty and both originals are known; otherwise the payload carries the id, name and
      email, and the role and participant type the selected user type stands for (the same
      mapping as `createUser`'s) only where they differ from the originals. */
  function UpdatePayload(form: EditForm): (r: Option<UpdateUserInput>)
    ensures r.Some? <==>
      form.editing.Some? && form.name != [] && form.email != [] && form.originalRole.Some? && form.originalType.Some?
    ensures r.Some? ==>
      r.value.id == form.editing.value.id && r.value.name == Some(form.name) && r.value.email == Some(form.email) &&
      r.value.status.None? &&
      (r.value.role.None? <==> RoleAndType(form.userType).0 == form.originalRole.value) &&
      (r.value.participantType.None? <==> RoleAndType(form.userType).1 == form.originalType.value)
  {
    if form.editing.None? || form.name == [] || form.email == [] || form.originalRole.None? || form.originalType.None? then
      None
    else
      var (role, participantType) := RoleAndType(form.userType);
      Some(UpdateUserInput(form.editing.value.id, Some(form.name), Some(form.email),
                           if role != form.originalRole.value then Some(role) else None,
                           if participantType != form.originalType.value then Some(participantType) else None,
                           None))
  }

  /** Saving the dialog unchanged for a participant, or for an admin or ops user of the regular
      type, sends neither a role nor a participant type; for an admin or ops user of the vip type
      it sends the regular type. */
  lemma EditRoundTrip(p: ParticipantRow)
    requires p.name != [] && p.email != []
    ensures var r := UpdatePayload(HandleEdit(p));
      r.Some? && r.value.id == p.id &&
      (p.role == Participant || p.participantType == Regular ==> r.value.role.None? && r.value.participantType.None?) &&
      (p.role != Participant && p.participantType == Vip ==> r.value.role.None? && r.value.participantType == Some(Regular))
  {
    SelectedTypeRoundTrip(p.role, p.participantType);
  }

  /** Whatever user type is chosen, the stored row the payload updates ends with the role and
      participant type that user type stands for, when the originals are the stored row's. */
  lemma EditAppliesSelection(u: User, form: EditForm, change: Option<string>)
    requires UpdatePayload(form).Some?
    requires form.originalRole == Some(u.role) && form.originalType == Some(u.participantType)
    ensures var after := ApplyUpdate(u, UpdatePayload(form).value, change);
      (after.role, after.participantType) == RoleAndType(form.userType) && after.name == form.name &&
      after.status == u.status
  {
  }

  /** What the page sends for a parsed row: its name, email and Luma id, with no user type (the
      server defaults it to regular). */
  function Imported(row: ParsedRow): ImportedParticipant {
    ImportedParticipant(row.name, row.email, row.lumaId, None)
  }

  /** `parsedRows.filter((r) => r.valid).map((r) => r.data)`. */
  function ValidParticipants(rows: seq<ParsedRow>): (r: seq<ImportedParticipant>)
    ensures |r| == CountValid(rows)
    decreases |rows|
  {
    if rows == [] then []
    else
      var last := rows[|rows| - 1];
      ValidParticipants(rows[..|rows| - 1]) + (if last.valid then [Imported(last)] else [])
  }

  /** The valid rows are sent and only they, in file order. */
  lemma {:induction false} ValidParticipantsExactly(rows: seq<ParsedRow>)
    ensures forall k :: 0 <= k < |rows| && rows[k].valid ==> Imported(rows[k]) in ValidParticipants(rows)
    ensures forall x :: x in ValidParticipants(rows) ==> exists k :: 0 <= k < |rows| && rows[k].valid && x == Imported(rows[k])
    decreases |rows|
  {
    if rows != [] {
      var n := |rows| - 1;
      var init := rows[..n];
      ValidParticipantsExactly(init);
      var prev := ValidParticipants(init);
      var here := ValidParticipants(rows);
      assert here == prev + (if rows[n].valid then [Imported(rows[n])] else []);
      forall k | 0 <= k < |rows| && rows[k].valid ensures Imported(rows[k]) in here {
        if k < n {
          assert init[k] == rows[k];
        }
      }
      forall x | x in here ensures exists k :: 0 <= k < |rows| && rows[k].valid && x == Imported(rows[k]) {
        if x in prev {
          var k :| 0 <= k < n && init[k].valid && x == Imported(init[k]);
          assert rows[k] == init[k];
        } else {
          assert rows[n].valid && x == Imported(rows[n]);
        }
      }
    }
  }

  /** What `handleImport` does: report an error, or send the participants. */
  datatype ImportAction = ReportError(message: string) | SendImport(participants: seq<ImportedParticipant>)

  const NoValidRows := "No valid rows to import"

  /** `handleImport`: with no valid row it reports an error and sends nothing. */
  function HandleImport(rows: seq<ParsedRow>): (a: ImportAction)
    ensures a.ReportError? <==> CountValid(rows) == 0
    ensures a.ReportError? ==> a.message == NoValidRows
    ensures a.SendImport? ==> a.participants == ValidParticipants(rows) && |a.participants| == CountValid(rows)
  {
    var participants := ValidParticipants(rows);
    if |participants| == 0 then ReportError(NoValidRows) else SendImport(participants)
  }

  /** A file with no valid row sends nothing; one valid row is enough to send. */
  lemma {:induction false} ImportNeedsValidRow(rows: seq<ParsedRow>)
    ensures HandleImport(rows).ReportError? <==> forall k :: 0 <= k < |rows| ==> !rows[k].valid
    decreases |rows|
  {
    if rows != [] {
      var n := |rows| - 1;
      ImportNeedsValidRow(rows[..n]);
      assert forall k :: 0 <= k < n ==> rows[..n][k] == rows[k];
    }
  }
}
