/** The enumerations of packages/core/src/config/constant.ts. Each source enum is a
    list of `{code, label}` entries; here it is a Dafny datatype plus the entry list,
    with the code strings the database and the APIs exchange. */
module Constant {

  datatype ConstantEntry = ConstantEntry(code: string, display: string)

  /** `generateCodes`: the `code` fields of the entries, in declaration order. */
  function GenerateCodes(entries: seq<ConstantEntry>): (codes: seq<string>)
    ensures |codes| == |entries|
    ensures forall i :: 0 <= i < |entries| ==> codes[i] == entries[i].code
    decreases |entries|
  {
    if entries == [] then [] else [entries[0].code] + GenerateCodes(entries[1..])
  }

  /** `createEnumObject`: a loop that maps every listed value to itself. */
  method CreateEnumObject(values: seq<string>) returns (obj: map<string, string>)
    ensures obj.Keys == set v | v in values
    ensures forall v :: v in values ==> obj[v] == v
  {
    obj := map[];
    for i := 0 to |values|
      invariant obj.Keys == set v | v in values[..i]
      invariant forall v :: v in obj ==> obj[v] == v
    {
      obj := obj[values[i] := values[i]];
      assert values[..i + 1] == values[..i] + [values[i]];
    }
    assert values[..|values|] == values;
  }

  // ---- user roles
  datatype UserRole = Participant | Ops | Admin

  const UserRoles: seq<ConstantEntry> :=
    [ConstantEntry("participant", "Participant"), ConstantEntry("ops", "Operations"),
     ConstantEntry("admin", "Administrator")]

  function RoleCode(r: UserRole): string {
    match r
    case Participant => "participant"
    case Ops => "ops"
    case Admin => "admin"
  }

  // ---- participant types
  datatype ParticipantType = Regular | Vip

  const ParticipantTypes: seq<ConstantEntry> :=
    [ConstantEntry("regular", "Regular"), ConstantEntry("vip", "VIP")]

  function ParticipantTypeCode(t: ParticipantType): string {
    match t
    case Regular => "regular"
    case Vip => "vip"
  }

  // ---- user types (a UI notion combining role and participant type)
  datatype UserType = VipUser | OpsUser | AdminUser | RegularUser

  const UserTypeCodes: seq<string> := ["vip", "ops", "admin", "regular"]

  function UserTypeCode(t: UserType): string {
    match t
    case VipUser => "vip"
    case OpsUser => "ops"
    case AdminUser => "admin"
    case RegularUser => "regular"
  }

  // ---- participant statuses
  datatype ParticipantStatus = Registered | CheckedIn

  const ParticipantStatuses: seq<ConstantEntry> :=
    [ConstantEntry("registered", "Registered"), ConstantEntry("checked_in", "Checked In")]

  function StatusCode(s: ParticipantStatus): string {
    match s
    case Registered => "registered"
    case CheckedIn => "checked_in"
  }

  // ---- code statuses (there is no "assigned": a claimed code becomes "available")
  datatype CodeStatus = Unassigned | Available | Redeemed

  const CodeStatuses: seq<ConstantEntry> :=
    [ConstantEntry("unassigned", "Unassigned"), ConstantEntry("available", "Available"),
     ConstantEntry("redeemed", "Redeemed")]

  function CodeStatusCode(s: CodeStatus): string {
    match s
    case Unassigned => "unassigned"
    case Available => "available"
    case Redeemed => "redeemed"
  }

  // ---- check-in type categories
  datatype CheckinTypeCategory = Attendance | Meal

  const CheckinTypeCategories: seq<ConstantEntry> :=
    [ConstantEntry("attendance", "Attendance"), ConstantEntry("meal", "Meal")]

  function CategoryCode(c: CheckinTypeCategory): string {
    match c
    case Attendance => "attendance"
    case Meal => "meal"
  }

  // ---- code distribution types
  datatype DistributionType = Unique | Universal

  const CodeDistributionTypes: seq<ConstantEntry> :=
    [ConstantEntry("unique", "Unique (1 code per participant)"),
     ConstantEntry("universal", "Universal (same code for all)")]

  function DistributionCode(d: DistributionType): string {
    match d
    case Unique => "unique"
    case Universal => "universal"
  }

  /** The code lists the entry tables generate are exactly the datatype's codes, in declaration order;
      in particular there is no "assigned" code status. */
  lemma CodeListsMatchDatatypes()
    ensures GenerateCodes(UserRoles) == [RoleCode(Participant), RoleCode(Ops), RoleCode(Admin)]
    ensures GenerateCodes(ParticipantTypes) == [ParticipantTypeCode(Regular), ParticipantTypeCode(Vip)]
    ensures UserTypeCodes == [UserTypeCode(VipUser), UserTypeCode(OpsUser), UserTypeCode(AdminUser), UserTypeCode(RegularUser)]
    ensures GenerateCodes(ParticipantStatuses) == [StatusCode(Registered), StatusCode(CheckedIn)]
    ensures GenerateCodes(CodeStatuses) == [CodeStatusCode(Unassigned), CodeStatusCode(Available), CodeStatusCode(Redeemed)]
    ensures "assigned" !in GenerateCodes(CodeStatuses)
    ensures GenerateCodes(CheckinTypeCategories) == [CategoryCode(Attendance), CategoryCode(Meal)]
    ensures GenerateCodes(CodeDistributionTypes) == [DistributionCode(Unique), DistributionCode(Universal)]
  {
  }
}
