/** The five tables the core reads and writes, as declared in
    packages/core/src/auth/schema.ts (users) and
    the events schemas (credit types, codes, check-in types, check-in records), together with the
    constraints the database enforces on them (primary keys, unique columns, foreign keys). */
module Schema {
  import opened Wrappers
  import opened Constant
  import Text

  type Id = string
  /** A timestamp (`new Date()` / `defaultNow()` are supplied by the caller as `now`). */
  type Time = nat

  // ---------------------------------------------------------------- identifiers

  /** The identifier generator (`cuid()`): the store mints the n-th identifier. */
  function MintId(n: nat): Id {
    "c" + Text.NatToString(n)
  }

  lemma MintIdInjective(a: nat, b: nat)
    requires MintId(a) == MintId(b)
    ensures a == b
  {
    assert MintId(a)[1..] == Text.NatToString(a);
    assert MintId(b)[1..] == Text.NatToString(b);
    Text.NatToStringInjective(a, b);
  }

  /** The identifiers minted before serial number `serial`. */
  function Minted(serial: nat): set<Id> {
    set k | 0 <= k < serial :: MintId(k)
  }

  /** Minting never repeats: identifiers minted from `serial` on are not among the earlier ones. */
  lemma MintedFresh(serial: nat, n: nat)
    ensures MintId(serial + n) !in Minted(serial)
  {
    if MintId(serial + n) in Minted(serial) {
      var k :| 0 <= k < serial && MintId(k) == MintId(serial + n);
      MintIdInjective(k, serial + n);
    }
  }

  lemma MintedGrows(a: nat, b: nat)
    requires a <= b
    ensures Minted(a) <= Minted(b)
  {
  }

  // ---------------------------------------------------------------- rows

  /** A row of `users`. `role`, `participantType` and `status` are free-text columns in the
      schema; every write the core performs stores one of the enum codes, so they are typed
      with the enums here. `isNameUpdated` is read and written by the profile APIs but is
      not declared in schema.ts; it is an explicit field here. */
  datatype User = User(
    id: Id,
    name: string,
    email: string,
    emailVerified: bool,
    role: UserRole,
    participantType: ParticipantType,
    status: ParticipantStatus,
    checkedInAt: Option<Time>,
    checkedInBy: Option<Id>,
    qrCodeValue: Option<string>,
    lumaId: Option<string>,
    isNameUpdated: bool,
    createdAt: Time)

  datatype CreditType = CreditType(
    id: Id,
    name: string,
    displayName: string,
    emailInstructions: Option<string>,
    webInstructions: Option<string>,
    displayOrder: int,
    iconUrl: Option<string>,
    isActive: bool,
    distributionType: DistributionType,
    universalCode: Option<string>,
    universalRedeemUrl: Option<string>)

  datatype Code = Code(
    id: Id,
    creditTypeId: Id,
    codeValue: string,
    redeemUrl: Option<string>,
    assignedTo: Option<Id>,
    assignedAt: Option<Time>,
    redeemedAt: Option<Time>,
    status: CodeStatus)

  /** A row of `checkin_types`; `category` is the free-text `type` column (not constrained to
      the attendance/meal constants by the schema). */
  datatype CheckinType = CheckinType(
    id: Id,
    name: string,
    category: string,
    description: Option<string>,
    displayOrder: int,
    isActive: bool)

  datatype CheckinRecord = CheckinRecord(
    id: Id,
    checkinTypeId: Id,
    participantId: Id,
    checkedInBy: Id,
    checkedInAt: Time)

  /** The values an insert into `codes` supplies; the id is minted and the nullable
      assignment columns start as NULL. */
  datatype NewCode = NewCode(creditTypeId: Id, codeValue: string, redeemUrl: Option<string>, status: CodeStatus)

  /** The rows a multi-row insert of `rows` creates, the k-th with the (from+k)-th minted id. */
  function CodeRows(rows: seq<NewCode>, from: nat): (r: seq<Code>)
    ensures |r| == |rows|
    ensures forall k :: 0 <= k < |rows| ==>
      r[k] == Code(MintId(from + k), rows[k].creditTypeId, rows[k].codeValue, rows[k].redeemUrl, None, None, None, rows[k].status)
  {
    seq(|rows|, k requires 0 <= k < |rows| =>
      Code(MintId(from + k), rows[k].creditTypeId, rows[k].codeValue, rows[k].redeemUrl, None, None, None, rows[k].status))
  }

  // ---------------------------------------------------------------- projections

  // One function per table and column rather than one generic projection taking the column as
  // a function argument: each name is a plain function term for the quantifiers over ids, keys
  // and names to trigger on, and keeps the column readable at the call sites.

  function UserIds(t: seq<User>): (r: seq<Id>)
    ensures |r| == |t| && forall i :: 0 <= i < |t| ==> r[i] == t[i].id
  { seq(|t|, i requires 0 <= i < |t| => t[i].id) }

  function Emails(t: seq<User>): (r: seq<string>)
    ensures |r| == |t| && forall i :: 0 <= i < |t| ==> r[i] == t[i].email
  { seq(|t|, i requires 0 <= i < |t| => t[i].email) }

  function CreditTypeIds(t: seq<CreditType>): (r: seq<Id>)
    ensures |r| == |t| && forall i :: 0 <= i < |t| ==> r[i] == t[i].id
  { seq(|t|, i requires 0 <= i < |t| => t[i].id) }

  function CreditTypeNames(t: seq<CreditType>): (r: seq<string>)
    ensures |r| == |t| && forall i :: 0 <= i < |t| ==> r[i] == t[i].name
  { seq(|t|, i requires 0 <= i < |t| => t[i].name) }

  function CodeIds(t: seq<Code>): (r: seq<Id>)
    ensures |r| == |t| && forall i :: 0 <= i < |t| ==> r[i] == t[i].id
  { seq(|t|, i requires 0 <= i < |t| => t[i].id) }

  /** The `(credit_type_id, code_value)` pairs of the codes table. */
  function CodeKeys(t: seq<Code>): (r: seq<(Id, string)>)
    ensures |r| == |t| && forall i :: 0 <= i < |t| ==> r[i] == (t[i].creditTypeId, t[i].codeValue)
  { seq(|t|, i requires 0 <= i < |t| => (t[i].creditTypeId, t[i].codeValue)) }

  function CheckinTypeIds(t: seq<CheckinType>): (r: seq<Id>)
    ensures |r| == |t| && forall i :: 0 <= i < |t| ==> r[i] == t[i].id
  { seq(|t|, i requires 0 <= i < |t| => t[i].id) }

  function CheckinTypeNames(t: seq<CheckinType>): (r: seq<string>)
    ensures |r| == |t| && forall i :: 0 <= i < |t| ==> r[i] == t[i].name
  { seq(|t|, i requires 0 <= i < |t| => t[i].name) }

  function RecordIds(t: seq<CheckinRecord>): (r: seq<Id>)
    ensures |r| == |t| && forall i :: 0 <= i < |t| ==> r[i] == t[i].id
  { seq(|t|, i requires 0 <= i < |t| => t[i].id) }

  /** The `(checkin_type_id, participant_id)` pairs of the check-in records table. */
  function RecordKeys(t: seq<CheckinRecord>): (r: seq<(Id, Id)>)
    ensures |r| == |t| && forall i :: 0 <= i < |t| ==> r[i] == (t[i].checkinTypeId, t[i].participantId)
  { seq(|t|, i requires 0 <= i < |t| => (t[i].checkinTypeId, t[i].participantId)) }

  // ---------------------------------------------------------------- constraints

  /** No value occurs twice (a primary key or a unique constraint). */
  predicate Distinct<T(==)>(s: seq<T>) {
    forall i, j | 0 <= i < j < |s| :: s[i] != s[j]
  }

  /** A prefix of a duplicate-free sequence is duplicate-free. */
  lemma DistinctPrefix<T>(s: seq<T>, n: nat)
    requires Distinct(s) && n <= |s|
    ensures Distinct(s[..n])
  {
  }

  /** Appending a duplicate-free block whose values are all new keeps a sequence duplicate-free. */
  lemma DistinctAppend<T>(s: seq<T>, t: seq<T>)
    requires Distinct(s) && Distinct(t)
    requires forall x :: x in t ==> x !in s
    ensures Distinct(s + t)
  {
    forall i, j | 0 <= i < j < |s + t| ensures (s + t)[i] != (s + t)[j] {
      if j >= |s| && i < |s| {
        assert (s + t)[j] in t;
      }
    }
  }

  /** Every element lies in the set `ids` (all identifiers were minted). */
  predicate AllIn(ids: seq<Id>, bound: set<Id>) {
    forall i :: 0 <= i < |ids| ==> ids[i] in bound
  }

  /** users: `id` primary key, `email` unique. */
  predicate UsersOk(users: seq<User>) {
    Distinct(UserIds(users)) && Distinct(Emails(users))
  }

  /** credit_types: `id` primary key, `name` unique. */
  predicate CreditTypesOk(types: seq<CreditType>) {
    Distinct(CreditTypeIds(types)) && Distinct(CreditTypeNames(types))
  }

  /** codes: `id` primary key, `(credit_type_id, code_value)` unique, `credit_type_id` references
      credit_types, `assigned_to` references users or is NULL. */
  predicate CodesOk(codes: seq<Code>, types: seq<CreditType>, users: seq<User>) {
    Distinct(CodeIds(codes)) && Distinct(CodeKeys(codes)) &&
    (forall i :: 0 <= i < |codes| ==> codes[i].creditTypeId in CreditTypeIds(types)) &&
    (forall i :: 0 <= i < |codes| && codes[i].assignedTo.Some? ==> codes[i].assignedTo.value in UserIds(users))
  }

  /** checkin_types: `id` primary key, `name` unique. */
  predicate CheckinTypesOk(types: seq<CheckinType>) {
    Distinct(CheckinTypeIds(types)) && Distinct(CheckinTypeNames(types))
  }

  /** checkin_records: `id` primary key, one record per (check-in type, participant), and all three
      references resolve. */
  predicate RecordsOk(records: seq<CheckinRecord>, types: seq<CheckinType>, users: seq<User>) {
    Distinct(RecordIds(records)) && Distinct(RecordKeys(records)) &&
    (forall i :: 0 <= i < |records| ==> records[i].checkinTypeId in CheckinTypeIds(types)) &&
    (forall i :: 0 <= i < |records| ==> records[i].participantId in UserIds(users)) &&
    (forall i :: 0 <= i < |records| ==> records[i].checkedInBy in UserIds(users))
  }

  /** What the operations of the core keep true of the codes table beyond the declared constraints:
      an unassigned code has no owner and no assignment time, and no operation ever sets the
      status "redeemed". */
  predicate PoolInvariant(codes: seq<Code>) {
    forall i :: 0 <= i < |codes| ==>
      codes[i].status != Redeemed &&
      (codes[i].status == Unassigned ==> codes[i].assignedTo.None? && codes[i].assignedAt.None?)
  }

  /** The whole database as a value: the five tables in table order and the identifier
      generator's serial number. */
  datatype Tables = Tables(users: seq<User>, creditTypes: seq<CreditType>, codes: seq<Code>,
                           checkinTypes: seq<CheckinType>, records: seq<CheckinRecord>, serial: nat)

  /** Every declared constraint holds, every identifier was minted before `serial`, and the codes
      table keeps the pool invariant. */
  predicate TablesOk(t: Tables) {
    UsersOk(t.users) && CreditTypesOk(t.creditTypes) && CodesOk(t.codes, t.creditTypes, t.users) &&
    CheckinTypesOk(t.checkinTypes) && RecordsOk(t.records, t.checkinTypes, t.users) &&
    PoolInvariant(t.codes) &&
    AllIn(UserIds(t.users), Minted(t.serial)) && AllIn(CreditTypeIds(t.creditTypes), Minted(t.serial)) &&
    AllIn(CodeIds(t.codes), Minted(t.serial)) && AllIn(CheckinTypeIds(t.checkinTypes), Minted(t.serial)) &&
    AllIn(RecordIds(t.records), Minted(t.serial))
  }

  /** The rows a universal credit type's replication inserts: `n` rows carrying the same code value. */
  function UniversalRows(typeId: Id, codeValue: string, redeemUrl: Option<string>, n: nat): (rows: seq<NewCode>)
    ensures |rows| == n
    ensures forall k :: 0 <= k < n ==> rows[k] == NewCode(typeId, codeValue, redeemUrl, Unassigned)
  {
    seq(n, k requires 0 <= k < n => NewCode(typeId, codeValue, redeemUrl, Unassigned))
  }

  /** The conflict between universal replication and the codes table's unique constraint: as soon as
      two or more rows are replicated, the codes table cannot satisfy `(credit_type_id, code_value)`
      uniqueness, whatever it held before. */
  lemma UniversalRowsViolateUniqueness(codes: seq<Code>, typeId: Id, codeValue: string,
                                       redeemUrl: Option<string>, n: nat, from: nat)
    requires n >= 2
    ensures !Distinct(CodeKeys(codes + CodeRows(UniversalRows(typeId, codeValue, redeemUrl, n), from)))
  {
    var all := codes + CodeRows(UniversalRows(typeId, codeValue, redeemUrl, n), from);
    var i, j := |codes|, |codes| + 1;
    assert CodeKeys(all)[i] == (typeId, codeValue) == CodeKeys(all)[j];
  }
}
