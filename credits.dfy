/** The credit-type registry and code pool administration of apps/web/src/apis/admin/credits.ts:
    `listCreditTypes` with its pool statistics, `createCreditType` with universal-code
    replication, `updateCreditType`, `toggleCreditTypeActive`, `deleteCreditType` and
    `importCodes`. Every call is gated by `requireAdmin`; the validators run before the handler. */
module Credits {
  import opened Wrappers
  import opened Constant
  import opened Schema
  import opened Db
  import opened Auth
  import opened Ordering
  import opened Lookup
  import opened Dedup
  import opened Api
  import opened Claims
  import Text

  // ---------------------------------------------------------------- pool statistics

  /** `poolStats` (`assigned` is a reserved word here, hence `assignedCount`). */
  datatype PoolStats = PoolStats(total: nat, assignedCount: nat, remaining: nat)

  /** The grouped count over the codes of `typeId`: all of them, those whose status is not
      "unassigned", and those whose status is. A type without codes has no group and gets zeros. */
  function PoolStatsOf(codes: seq<Code>, typeId: Id): (s: PoolStats)
    ensures s.total == s.assignedCount + s.remaining
    ensures s.total <= |codes|
    decreases |codes|
  {
    if codes == [] then PoolStats(0, 0, 0)
    else
      var prev := PoolStatsOf(codes[..|codes| - 1], typeId);
      var last := codes[|codes| - 1];
      if last.creditTypeId != typeId then prev
      else if last.status != Unassigned then PoolStats(prev.total + 1, prev.assignedCount + 1, prev.remaining)
      else PoolStats(prev.total + 1, prev.assignedCount, prev.remaining + 1)
  }

  /** A credit type without codes has all-zero statistics. */
  lemma {:induction false} PoolStatsEmpty(codes: seq<Code>, typeId: Id)
    requires forall k :: 0 <= k < |codes| ==> codes[k].creditTypeId != typeId
    ensures PoolStatsOf(codes, typeId) == PoolStats(0, 0, 0)
    decreases |codes|
  {
    if codes != [] {
      PoolStatsEmpty(codes[..|codes| - 1], typeId);
    }
  }

  /** Some code of the type has left the pool exactly when `assigned` is positive. */
  lemma {:induction false} AssignedPositive(codes: seq<Code>, typeId: Id)
    ensures PoolStatsOf(codes, typeId).assignedCount > 0 <==>
      exists k :: 0 <= k < |codes| && codes[k].creditTypeId == typeId && codes[k].status != Unassigned
    decreases |codes|
  {
    if codes != [] {
      var init := codes[..|codes| - 1];
      AssignedPositive(init, typeId);
      assert forall k :: 0 <= k < |init| ==> init[k] == codes[k];
    }
  }

  /** Under the pool invariant, `remaining` is positive exactly when the check-in claim loop can
      still take a code of the type. */
  lemma {:induction false} RemainingIsClaimable(codes: seq<Code>, typeId: Id)
    requires PoolInvariant(codes)
    ensures PoolStatsOf(codes, typeId).remaining > 0 <==> HasFree(codes, typeId)
    decreases |codes|
  {
    if codes != [] {
      var init := codes[..|codes| - 1];
      assert forall k :: 0 <= k < |init| ==> init[k] == codes[k];
      RemainingIsClaimable(init, typeId);
      if HasFree(codes, typeId) && !HasFree(init, typeId) {
        var k :| 0 <= k < |codes| && codes[k].creditTypeId == typeId && IsFree(codes[k]);
        assert k == |codes| - 1;
      }
    }
  }

  datatype CreditTypeWithStats = CreditTypeWithStats(creditType: CreditType, poolStats: PoolStats)

  /** `listCreditTypes`: every credit type in ascending display order, with its pool statistics. */
  function ListCreditTypes(t: Tables, ctx: RequestContext): (r: Response<seq<CreditTypeWithStats>>)
    ensures r.Answered? <==> RequireAdmin(ctx).Ok?
    ensures !r.Answered? ==> r == Thrown(RequireAdmin(ctx).error)
    ensures r.Answered? ==> |r.value| == |t.creditTypes|
  {
    match RequireAdmin(ctx)
    case Err(e) => Thrown(e)
    case Ok(_) =>
      var sorted := SortBy(t.creditTypes, DisplayOrderKey);
      Answered(seq(|sorted|, i requires 0 <= i < |sorted| =>
        CreditTypeWithStats(sorted[i], PoolStatsOf(t.codes, sorted[i].id))))
  }

  /** The credit types of a listing, in listing order. */
  function ListedTypes(list: seq<CreditTypeWithStats>): (r: seq<CreditType>)
    ensures |r| == |list| && forall i :: 0 <= i < |list| ==> r[i] == list[i].creditType
  {
    seq(|list|, i requires 0 <= i < |list| => list[i].creditType)
  }

  /** The listing holds every credit type exactly once, in ascending display order, each with the
      statistics of its own codes, whose total splits into assigned and remaining. */
  lemma ListCreditTypesShape(t: Tables, ctx: RequestContext)
    requires ListCreditTypes(t, ctx).Answered?
    ensures var list := ListCreditTypes(t, ctx).value;
      multiset(ListedTypes(list)) == multiset(t.creditTypes) &&
      SortedBy(ListedTypes(list), DisplayOrderKey) &&
      forall i :: 0 <= i < |list| ==>
        list[i].poolStats == PoolStatsOf(t.codes, list[i].creditType.id) &&
        list[i].poolStats.total == list[i].poolStats.assignedCount + list[i].poolStats.remaining
  {
    var list := ListCreditTypes(t, ctx).value;
    assert ListedTypes(list) == SortBy(t.creditTypes, DisplayOrderKey);
  }

  // ---------------------------------------------------------------- createCreditType

  /** The validated input of `createCreditType`; `None` marks an omitted optional field. The
      `category` field of the input schema has no column and is not modelled. */
  datatype CreateCreditTypeInput = CreateCreditTypeInput(
    name: string,
    displayName: string,
    emailInstructions: string,
    webInstructions: string,
    displayOrder: int,
    iconUrl: Option<string>,
    isActive: Option<bool>,
    distributionType: Option<DistributionType>,
    universalCode: Option<string>,
    universalRedeemUrl: Option<string>,
    universalQuantity: Option<int>)

  predicate NameChar(c: char) {
    'a' <= c <= 'z' || '0' <= c <= '9' || c == '_'
  }

  /** `/^[a-z0-9_]+$/`. */
  predicate NameFormat(s: string) {
    |s| >= 1 && forall k :: 0 <= k < |s| ==> NameChar(s[k])
  }

  /** zod's default messages for `.min(0)` and `.min(1)` on a number. */
  const AtLeastZero: string := "Number must be greater than or equal to 0"
  const AtLeastOne: string := "Number must be greater than or equal to 1"

  const NameRequired: string := "Name is required"
  const NameFormatIssue: string := "Name must be lowercase letters, numbers, or underscores only"
  const UniversalIncomplete: string := "Universal code and quantity are required for universal distribution type"

  /** `distributionType`, with its default. */
  function Distribution(input: CreateCreditTypeInput): DistributionType {
    input.distributionType.GetOr(Unique)
  }

  /** The refinement: a universal type needs a non-empty code and a non-zero quantity. */
  predicate UniversalComplete(input: CreateCreditTypeInput) {
    Distribution(input) == Universal ==>
      input.universalCode.Some? && input.universalCode.value != [] &&
      input.universalQuantity.Some? && input.universalQuantity.value != 0
  }

  /** The issues `createCreditTypeInputSchema` reports, field by field in schema order, then the
      refinement (which zod evaluates even when a field check has failed). An empty name fails both
      of its checks. The URL checks are not modelled. */
  function CreateIssues(input: CreateCreditTypeInput): (issues: seq<string>)
    ensures issues == [] <==>
      NameFormat(input.name) && input.displayName != [] && input.emailInstructions != [] &&
      input.webInstructions != [] && input.displayOrder >= 0 &&
      (input.universalQuantity.Some? ==> input.universalQuantity.value >= 1) && UniversalComplete(input)
    ensures input.name == [] ==> |issues| >= 2 && issues[0] == NameRequired && issues[1] == NameFormatIssue
  {
    var nameIssues := Check(input.name != [], NameRequired) + Check(NameFormat(input.name), NameFormatIssue);
    var rest :=
      Check(input.displayName != [], "Display name is required") +
      Check(input.emailInstructions != [], "Email instructions are required") +
      Check(input.webInstructions != [], "Web instructions are required") +
      Check(input.displayOrder >= 0, AtLeastZero) +
      Check(input.universalQuantity.None? || input.universalQuantity.value >= 1, AtLeastOne) +
      Check(UniversalComplete(input), UniversalIncomplete);
    nameIssues + rest
  }

  /** `value || null` on an optional string: the empty string becomes NULL as well. */
  function OrNull(value: Option<string>): (r: Option<string>)
    ensures r.Some? <==> value.Some? && value.value != []
    ensures r.Some? ==> r.value == value.value
  {
    if value.Some? && value.value != [] then value else None
  }

  /** `data.universalCode?.toUpperCase() || null`. */
  function NormalizeUniversalCode(code: Option<string>): (r: Option<string>)
    ensures r.Some? <==> code.Some? && code.value != []
    ensures r.Some? ==> r.value == Text.ToUpper(code.value)
  {
    match code
    case None => None
    case Some(c) => Text.ToUpperEmpty(c); OrNull(Some(Text.ToUpper(c)))
  }

  /** The credit type row the insert creates, with the schema defaults for omitted fields. */
  function NewCreditTypeRow(id: Id, input: CreateCreditTypeInput): CreditType {
    CreditType(id, input.name, input.displayName, Some(input.emailInstructions), Some(input.webInstructions),
               input.displayOrder, OrNull(input.iconUrl), input.isActive.GetOr(true), Distribution(input),
               NormalizeUniversalCode(input.universalCode), OrNull(input.universalRedeemUrl))
  }

  /** Whether the handler replicates the universal code into rows. */
  predicate Replicates(input: CreateCreditTypeInput) {
    Distribution(input) == Universal && input.universalQuantity.Some? && input.universalQuantity.value != 0 &&
    NormalizeUniversalCode(input.universalCode).Some?
  }

  /** For a validated input, codes are replicated exactly for a universal type. */
  lemma ReplicatesIffUniversal(input: CreateCreditTypeInput)
    requires CreateIssues(input) == []
    ensures Replicates(input) <==> Distribution(input) == Universal
  {
  }

  /** `codesCreated`: `universalQuantity ?? 0`, whatever the distribution type. */
  function CodesCreated(input: CreateCreditTypeInput): int {
    input.universalQuantity.GetOr(0)
  }

  /** A unique-distribution type created with a quantity reports that quantity as created
      although no code row is written. */
  lemma UniqueTypeReportsQuantity(input: CreateCreditTypeInput)
    requires CreateIssues(input) == [] && Distribution(input) == Unique && input.universalQuantity.Some?
    ensures !Replicates(input) && CodesCreated(input) == input.universalQuantity.value >= 1
  {
  }

  /** The `codesToInsert` loop: `quantity` copies of the universal code's row, all unassigned. */
  method ReplicateRows(typeId: Id, codeValue: string, redeemUrl: Option<string>, quantity: nat)
    returns (rows: seq<NewCode>)
    ensures rows == UniversalRows(typeId, codeValue, redeemUrl, quantity)
  {
    rows := [];
    for i := 0 to quantity
      invariant rows == UniversalRows(typeId, codeValue, redeemUrl, i)
    {
      rows := rows + [NewCode(typeId, codeValue, redeemUrl, Unassigned)];
    }
  }

  datatype Created = Created(creditType: CreditType, codesCreated: int)

  /** The error the driver raises when an insert into `codes` breaks a constraint (its text is not
      modelled). */
  const CodesInsertRejected: string := "insert into codes violates a constraint"

  const NameTaken: string := "Credit type with this name already exists"

  /** The tables after the credit type row is inserted with the next minted id. */
  function InsertType(t: Tables, row: CreditType): Tables {
    t.(creditTypes := t.creditTypes + [row], serial := t.serial + 1)
  }

  /** Appending a credit type with the next minted id and an unused name keeps every constraint. */
  lemma TypeInsertKeepsTables(t: Tables, row: CreditType)
    requires TablesOk(t) && row.id == MintId(t.serial) && row.name !in CreditTypeNames(t.creditTypes)
    ensures TablesOk(InsertType(t, row))
    ensures row.id in CreditTypeIds(t.creditTypes + [row])
  {
    var types := t.creditTypes + [row];
    MintedFresh(t.serial, 0);
    forall k | 0 <= k < |t.creditTypes| ensures CreditTypeIds(t.creditTypes)[k] != row.id {
      assert CreditTypeIds(t.creditTypes)[k] in Minted(t.serial);
    }
    assert CreditTypeIds(types) == CreditTypeIds(t.creditTypes) + [row.id];
    assert CreditTypeIds(types)[|t.creditTypes|] == row.id;
    assert CreditTypeNames(types) == CreditTypeNames(t.creditTypes) + [row.name];
    DistinctAppend(CreditTypeIds(t.creditTypes), [row.id]);
    DistinctAppend(CreditTypeNames(t.creditTypes), [row.name]);
    forall x | x in CreditTypeIds(t.creditTypes) ensures x in CreditTypeIds(types) {
      var k :| 0 <= k < |t.creditTypes| && CreditTypeIds(t.creditTypes)[k] == x;
      assert CreditTypeIds(types)[k] == x;
    }
    MintedGrows(t.serial, t.serial + 1);
    AllInGrows(UserIds(t.users), t.serial, t.serial + 1);
    AllInGrows(CodeIds(t.codes), t.serial, t.serial + 1);
    AllInGrows(CheckinTypeIds(t.checkinTypes), t.serial, t.serial + 1);
    AllInGrows(RecordIds(t.records), t.serial, t.serial + 1);
    assert AllIn(CreditTypeIds(types), Minted(t.serial + 1)) by {
      forall k | 0 <= k < |types| ensures CreditTypeIds(types)[k] in Minted(t.serial + 1) {
        if k < |t.creditTypes| {
          assert CreditTypeIds(t.creditTypes)[k] in Minted(t.serial);
        }
      }
    }
  }

  /** What the chunked insert of `quantity` replicated rows meets right after the credit type
      insert: with one row the codes table keeps its constraints; with two or more the first chunk
      already repeats the `(credit_type_id, code_value)` key. */
  lemma ReplicationOutcome(t: Tables, row: CreditType, quantity: nat)
    requires TablesOk(t) && row.id == MintId(t.serial) && row.name !in CreditTypeNames(t.creditTypes)
    requires row.universalCode.Some?
    ensures var t1 := InsertType(t, row);
      var rows := UniversalRows(row.id, row.universalCode.value, row.universalRedeemUrl, quantity);
      (quantity == 1 ==> CodesOk(t1.codes + CodeRows(rows, t1.serial), t1.creditTypes, t1.users)) &&
      (quantity >= 2 ==> !CodesOk(t1.codes + CodeRows(rows, t1.serial)[..Min(BatchSize, |rows|)], t1.creditTypes, t1.users))
  {
    var t1 := InsertType(t, row);
    var rows := UniversalRows(row.id, row.universalCode.value, row.universalRedeemUrl, quantity);
    TypeInsertKeepsTables(t, row);
    if quantity == 1 {
      MintedFresh(t.serial, 0);
      forall k | 0 <= k < |t.codes| ensures CodeKeys(t.codes)[k] != NewCodeKeys(rows)[0] {
        var typeId := t.codes[k].creditTypeId;
        assert typeId in CreditTypeIds(t.creditTypes);
        var i :| 0 <= i < |t.creditTypes| && CreditTypeIds(t.creditTypes)[i] == typeId;
        assert typeId in Minted(t.serial);
      }
      NewRowsKeepCodesOk(t1.codes, rows, t1.serial, t1.creditTypes, t1.users);
    } else if quantity >= 2 {
      var m := Min(BatchSize, |rows|);
      var first := UniversalRows(row.id, row.universalCode.value, row.universalRedeemUrl, m);
      assert CodeRows(rows, t1.serial)[..m] == CodeRows(first, t1.serial);
      UniversalRowsViolateUniqueness(t1.codes, row.id, row.universalCode.value, row.universalRedeemUrl, m, t1.serial);
    }
  }

  /** The quantity of a replicating input, which validation makes positive. */
  function Quantity(input: CreateCreditTypeInput): nat
    requires CreateIssues(input) == [] && Replicates(input)
  {
    input.universalQuantity.value as nat
  }

  /** The chunked insert of `quantity` copies of the universal code right after the credit type
      row: one copy goes in; with two or more the first chunk is refused and nothing is written.
      The second component says whether the insert went through. */
  function AddReplicas(t: Tables, row: CreditType, quantity: nat): (Tables, bool)
    requires row.universalCode.Some? && quantity >= 1
  {
    if quantity == 1 then
      var rows := UniversalRows(row.id, row.universalCode.value, row.universalRedeemUrl, 1);
      (t.(codes := t.codes + CodeRows(rows, t.serial), serial := t.serial + 1), true)
    else (t.(serial := t.serial + quantity), false)
  }

  /** What `createCreditType` does once the input, the session and the name are accepted: the
      credit type row goes in, then the replicated codes in chunks of `BatchSize`. */
  function CreateCommit(t: Tables, input: CreateCreditTypeInput): (Tables, Response<Created>)
    requires CreateIssues(input) == []
  {
    var row := NewCreditTypeRow(MintId(t.serial), input);
    var t1 := InsertType(t, row);
    if !Replicates(input) then (t1, Answered(Created(row, CodesCreated(input))))
    else
      var (t2, ok) := AddReplicas(t1, row, Quantity(input));
      (t2, if ok then Answered(Created(row, CodesCreated(input))) else Thrown(CodesInsertRejected))
  }

  /** `createCreditType`: validation, the admin check, the name lookup, then the inserts. */
  function CreateSpec(t: Tables, ctx: RequestContext, input: CreateCreditTypeInput): (r: (Tables, Response<Created>))
    ensures r.0 == t.(creditTypes := r.0.creditTypes, codes := r.0.codes, serial := r.0.serial)
    ensures r.0.creditTypes == t.creditTypes ==> r.0 == t
    ensures r.1.Answered? ==> r.0.creditTypes == t.creditTypes + [r.1.value.creditType]
  {
    var issues := CreateIssues(input);
    if issues != [] then (t, InvalidInput(issues))
    else if RequireAdmin(ctx).Err? then (t, Thrown(RequireAdmin(ctx).error))
    else if input.name in CreditTypeNames(t.creditTypes) then (t, Thrown(NameTaken))
    else CreateCommit(t, input)
  }

  method CreateCreditType(db: Store, ctx: RequestContext, input: CreateCreditTypeInput) returns (r: Response<Created>)
    requires db.Valid()
    modifies db
    ensures db.Valid()
    ensures (db.Snapshot(), r) == CreateSpec(old(db.Snapshot()), ctx, input)
  {
    var issues := CreateIssues(input);
    if issues != [] {
      return InvalidInput(issues);
    }
    var session := RequireAdmin(ctx);
    if session.Err? {
      return Thrown(session.error);
    }
    var existing := CreditTypeIndexByName(db.creditTypes, input.name);
    CreditTypeIndexByNameIn(db.creditTypes, input.name);
    if existing < |db.creditTypes| {
      return Thrown(NameTaken);
    }
    r := StoreCreditType(db, input);
  }

  /** The two inserts of `createCreditType`. */
  method StoreCreditType(db: Store, input: CreateCreditTypeInput) returns (r: Response<Created>)
    requires db.Valid() && CreateIssues(input) == [] && input.name !in CreditTypeNames(db.creditTypes)
    modifies db
    ensures db.Valid()
    ensures (db.Snapshot(), r) == CreateCommit(old(db.Snapshot()), input)
  {
    ghost var t := db.Snapshot();
    var row := NewCreditTypeRow(MintId(db.serial), input);
    TypeInsertKeepsTables(t, row);
    db.creditTypes, db.serial := db.creditTypes + [row], db.serial + 1;
    assert db.Snapshot() == InsertType(t, row);
    if Replicates(input) {
      var quantity := input.universalQuantity.value as nat;
      ReplicationOutcome(t, row, quantity);
      var ok := InsertReplicas(db, row, quantity);
      if !ok {
        return Thrown(CodesInsertRejected);
      }
    }
    r := Answered(Created(row, CodesCreated(input)));
  }

  /** The `codesToInsert` loop and the batch insert. Because every replicated row carries the same
      `(credit_type_id, code_value)` key, the first chunk breaks the unique constraint as soon as
      the quantity is 2 or more. */
  method InsertReplicas(db: Store, row: CreditType, quantity: nat) returns (ok: bool)
    requires db.Valid() && row.universalCode.Some? && quantity >= 1
    requires var rows := UniversalRows(row.id, row.universalCode.value, row.universalRedeemUrl, quantity);
      (quantity == 1 ==> CodesOk(db.codes + CodeRows(rows, db.serial), db.creditTypes, db.users)) &&
      (quantity >= 2 ==> !CodesOk(db.codes + CodeRows(rows, db.serial)[..Min(BatchSize, |rows|)], db.creditTypes, db.users))
    modifies db
    ensures db.Valid()
    ensures (db.Snapshot(), ok) == AddReplicas(old(db.Snapshot()), row, quantity)
  {
    ghost var t := db.Snapshot();
    var rows := ReplicateRows(row.id, row.universalCode.value, row.universalRedeemUrl, quantity);
    ghost var committed;
    ok, committed := db.InsertCodesInBatches(rows);
    ReplicaInsertResult(t, db.Snapshot(), row, quantity, ok, committed);
  }

  /** What the chunked insert reported, read back as `AddReplicas`. */
  lemma ReplicaInsertResult(t: Tables, after: Tables, row: CreditType, quantity: nat, ok: bool, committed: nat)
    requires row.universalCode.Some? && quantity >= 1
    requires var rows := UniversalRows(row.id, row.universalCode.value, row.universalRedeemUrl, quantity);
      committed <= |rows| &&
      after == t.(codes := t.codes + CodeRows(rows, t.serial)[..committed], serial := t.serial + |rows|) &&
      (ok <==> committed == |rows|) && (quantity == 1 ==> ok) && (quantity >= 2 ==> !ok && after.codes == t.codes)
    ensures (after, ok) == AddReplicas(t, row, quantity)
  {
    var rows := UniversalRows(row.id, row.universalCode.value, row.universalRedeemUrl, quantity);
    if quantity == 1 {
      assert CodeRows(rows, t.serial)[..committed] == CodeRows(rows, t.serial);
    }
  }

  /** Only a refused code insert leaves a trace of a failed call: every other refusal changes
      nothing, and validation issues are reported exactly when the input is malformed. */
  lemma CreateRefusals(t: Tables, ctx: RequestContext, input: CreateCreditTypeInput)
    ensures var (after, r) := CreateSpec(t, ctx, input);
      (r.InvalidInput? <==> CreateIssues(input) != []) &&
      (r.Thrown? && r != Thrown(CodesInsertRejected) ==> after == t) &&
      (r.InvalidInput? ==> after == t)
    ensures CreateIssues(input) == [] && RequireAdmin(ctx).Ok? ==>
      (CreateSpec(t, ctx, input).1 == Thrown(NameTaken) <==> input.name in CreditTypeNames(t.creditTypes))
  {
  }

  /** Credit type names stay unique: a created type carries the requested name, which no earlier
      type had, and is appended after the existing ones. */
  lemma CreateKeepsNamesUnique(t: Tables, ctx: RequestContext, input: CreateCreditTypeInput)
    requires TablesOk(t)
    ensures var after := CreateSpec(t, ctx, input).0;
      CreditTypesOk(after.creditTypes) &&
      (after.creditTypes == t.creditTypes ||
       (|after.creditTypes| == |t.creditTypes| + 1 && after.creditTypes[..|t.creditTypes|] == t.creditTypes &&
        after.creditTypes[|t.creditTypes|].name == input.name && input.name !in CreditTypeNames(t.creditTypes)))
  {
    var after := CreateSpec(t, ctx, input).0;
    if after.creditTypes != t.creditTypes {
      var row := NewCreditTypeRow(MintId(t.serial), input);
      TypeInsertKeepsTables(t, row);
      assert (t.creditTypes + [row])[..|t.creditTypes|] == t.creditTypes;
    }
  }

  /** A successful call returns the row it stored: a fresh id, the requested name, the active flag
      defaulting to true, and the universal code in upper case. */
  lemma CreateStoresType(t: Tables, ctx: RequestContext, input: CreateCreditTypeInput)
    requires TablesOk(t) && CreateSpec(t, ctx, input).1.Answered?
    ensures var (after, r) := CreateSpec(t, ctx, input);
      var row := r.value.creditType;
      after.creditTypes == t.creditTypes + [row] &&
      row.id !in CreditTypeIds(t.creditTypes) && row.name == input.name &&
      row.isActive == input.isActive.GetOr(true) && row.distributionType == Distribution(input) &&
      (row.universalCode.Some? ==> row.universalCode.value != [] && Text.ToUpper(row.universalCode.value) == row.universalCode.value)
  {
    var row := NewCreditTypeRow(MintId(t.serial), input);
    MintedFresh(t.serial, 0);
    forall k | 0 <= k < |t.creditTypes| ensures CreditTypeIds(t.creditTypes)[k] != row.id {
      assert CreditTypeIds(t.creditTypes)[k] in Minted(t.serial);
    }
    if input.universalCode.Some? {
      Text.ToUpperIdempotent(input.universalCode.value);
    }
  }

  /** A universal type with quantity 2 or more: the credit type row stays, the replicated codes
      break the `(credit_type_id, code_value)` uniqueness in the first chunk, no code is stored and
      the call throws. */
  lemma UniversalReplicationRejected(t: Tables, ctx: RequestContext, input: CreateCreditTypeInput)
    requires CreateIssues(input) == [] && RequireAdmin(ctx).Ok? && input.name !in CreditTypeNames(t.creditTypes)
    requires Distribution(input) == Universal && input.universalQuantity.value >= 2
    ensures var (after, r) := CreateSpec(t, ctx, input);
      r == Thrown(CodesInsertRejected) && after.codes == t.codes && |after.creditTypes| == |t.creditTypes| + 1
  {
  }

  /** A universal type with quantity 1 gets exactly one code, unassigned, carrying the upper-cased
      code: its pool statistics are one code in total, none assigned, one remaining. */
  lemma UniversalSingleCode(t: Tables, ctx: RequestContext, input: CreateCreditTypeInput)
    requires TablesOk(t)
    requires CreateIssues(input) == [] && RequireAdmin(ctx).Ok? && input.name !in CreditTypeNames(t.creditTypes)
    requires Distribution(input) == Universal && input.universalQuantity.value == 1
    ensures var (after, r) := CreateSpec(t, ctx, input);
      r.Answered? && r.value.codesCreated == 1 && |after.codes| == |t.codes| + 1 &&
      after.codes[|t.codes|].codeValue == Text.ToUpper(input.universalCode.value) &&
      after.codes[|t.codes|].status == Unassigned &&
      PoolStatsOf(after.codes, r.value.creditType.id) == PoolStats(1, 0, 1)
  {
    var (after, r) := CreateSpec(t, ctx, input);
    var id := MintId(t.serial);
    MintedFresh(t.serial, 0);
    forall k | 0 <= k < |t.codes| ensures t.codes[k].creditTypeId != id {
      assert t.codes[k].creditTypeId in CreditTypeIds(t.creditTypes);
      var i :| 0 <= i < |t.creditTypes| && CreditTypeIds(t.creditTypes)[i] == t.codes[k].creditTypeId;
      assert t.codes[k].creditTypeId in Minted(t.serial);
    }
    PoolStatsEmpty(t.codes, id);
    assert after.codes[..|t.codes|] == t.codes;
  }

  // ---------------------------------------------------------------- updateCreditType

  const IdRequired: string := "ID is required"
  const TypeNotFound: string := "Credit type not found"

  /** The validated input of `updateCreditType`; `None` marks a field left out of the update. The
      optional `category` has no column and is not modelled. */
  datatype UpdateCreditTypeInput = UpdateCreditTypeInput(
    id: string,
    displayName: Option<string>,
    emailInstructions: Option<string>,
    webInstructions: Option<string>,
    displayOrder: Option<int>,
    iconUrl: Option<string>,
    isActive: Option<bool>)

  function UpdateIssues(input: UpdateCreditTypeInput): (issues: seq<string>)
    ensures issues == [] <==>
      input.id != [] && (input.displayName.Some? ==> input.displayName.value != []) &&
      (input.emailInstructions.Some? ==> input.emailInstructions.value != []) &&
      (input.webInstructions.Some? ==> input.webInstructions.value != []) &&
      (input.displayOrder.Some? ==> input.displayOrder.value >= 0)
  {
    Check(input.id != [], IdRequired) +
    Check(input.displayName.None? || input.displayName.value != [], "Display name is required") +
    Check(input.emailInstructions.None? || input.emailInstructions.value != [], "Email instructions are required") +
    Check(input.webInstructions.None? || input.webInstructions.value != [], "Web instructions are required") +
    Check(input.displayOrder.None? || input.displayOrder.value >= 0, AtLeastZero)
  }

  /** The `SET` clause: every provided field, the icon URL with `'' -> NULL`. */
  function ApplyUpdate(c: CreditType, input: UpdateCreditTypeInput): CreditType {
    c.(displayName := input.displayName.GetOr(c.displayName),
       emailInstructions := if input.emailInstructions.Some? then input.emailInstructions else c.emailInstructions,
       webInstructions := if input.webInstructions.Some? then input.webInstructions else c.webInstructions,
       displayOrder := input.displayOrder.GetOr(c.displayOrder),
       iconUrl := if input.iconUrl.Some? then OrNull(input.iconUrl) else c.iconUrl,
       isActive := input.isActive.GetOr(c.isActive))
  }

  /** An `UPDATE credit_types ... WHERE id = id`: `f` applied to every row carrying the id. Each table
      module keeps its own, as the schema keeps its projections, over its own row type. */
  function UpdateWhere(types: seq<CreditType>, id: Id, f: CreditType -> CreditType): (r: seq<CreditType>)
    ensures |r| == |types|
    ensures forall i :: 0 <= i < |types| ==> r[i] == if types[i].id == id then f(types[i]) else types[i]
  {
    seq(|types|, i requires 0 <= i < |types| => if types[i].id == id then f(types[i]) else types[i])
  }

  function UpdateWith(input: UpdateCreditTypeInput): CreditType -> CreditType {
    (c: CreditType) => ApplyUpdate(c, input)
  }

  /** `updateCreditType`: validation, the admin check, then the update; no updated row means the
      id is unknown. */
  function UpdateSpec(t: Tables, ctx: RequestContext, input: UpdateCreditTypeInput): (r: (Tables, Response<CreditType>))
    ensures r.0 == t.(creditTypes := r.0.creditTypes)
    ensures !r.1.Answered? ==> r.0 == t
    ensures r.1.Answered? ==> |r.0.creditTypes| == |t.creditTypes| && r.1.value.id == input.id && r.1.value in r.0.creditTypes
  {
    var issues := UpdateIssues(input);
    if issues != [] then (t, InvalidInput(issues))
    else if RequireAdmin(ctx).Err? then (t, Thrown(RequireAdmin(ctx).error))
    else
      var i := CreditTypeIndex(t.creditTypes, input.id);
      if i == |t.creditTypes| then (t, Thrown(TypeNotFound))
      else
        var types := UpdateWhere(t.creditTypes, input.id, UpdateWith(input));
        (t.(creditTypes := types), Answered(types[i]))
  }

  /** Rewriting credit type rows without touching their ids and names keeps every constraint. */
  lemma SameKeysKeepTables(t: Tables, types: seq<CreditType>)
    requires TablesOk(t)
    requires CreditTypeIds(types) == CreditTypeIds(t.creditTypes) && CreditTypeNames(types) == CreditTypeNames(t.creditTypes)
    ensures TablesOk(t.(creditTypes := types))
  {
  }

  lemma UpdateKeepsKeys(types: seq<CreditType>, id: Id, input: UpdateCreditTypeInput)
    ensures CreditTypeIds(UpdateWhere(types, id, UpdateWith(input))) == CreditTypeIds(types)
    ensures CreditTypeNames(UpdateWhere(types, id, UpdateWith(input))) == CreditTypeNames(types)
  {
  }

  method UpdateCreditType(db: Store, ctx: RequestContext, input: UpdateCreditTypeInput) returns (r: Response<CreditType>)
    requires db.Valid()
    modifies db
    ensures db.Valid()
    ensures (db.Snapshot(), r) == UpdateSpec(old(db.Snapshot()), ctx, input)
  {
    var issues := UpdateIssues(input);
    if issues != [] {
      return InvalidInput(issues);
    }
    var session := RequireAdmin(ctx);
    if session.Err? {
      return Thrown(session.error);
    }
    var i := CreditTypeIndex(db.creditTypes, input.id);
    if i == |db.creditTypes| {
      return Thrown(TypeNotFound);
    }
    var types := UpdateWhere(db.creditTypes, input.id, UpdateWith(input));
    UpdateKeepsKeys(db.creditTypes, input.id, input);
    SameKeysKeepTables(db.Snapshot(), types);
    db.creditTypes := types;
    r := Answered(types[i]);
  }

  /** A successful update rewrites exactly the row with the id: the returned row keeps its id,
      name, distribution and universal code, takes every provided field and keeps every omitted
      one; all other rows and tables stay as they were. */
  lemma UpdateEffects(t: Tables, ctx: RequestContext, input: UpdateCreditTypeInput)
    requires TablesOk(t) && UpdateSpec(t, ctx, input).1.Answered?
    ensures var (after, r) := UpdateSpec(t, ctx, input);
      var k := CreditTypeIndex(t.creditTypes, input.id);
      var before := t.creditTypes[k];
      var row := r.value;
      k < |t.creditTypes| && before.id == input.id &&
      after == t.(creditTypes := t.creditTypes[k := row]) &&
      row.id == before.id && row.name == before.name && row.distributionType == before.distributionType &&
      row.universalCode == before.universalCode && row.universalRedeemUrl == before.universalRedeemUrl &&
      row.displayName == input.displayName.GetOr(before.displayName) &&
      (input.emailInstructions.Some? ==> row.emailInstructions == input.emailInstructions) &&
      (input.emailInstructions.None? ==> row.emailInstructions == before.emailInstructions) &&
      (input.webInstructions.Some? ==> row.webInstructions == input.webInstructions) &&
      (input.webInstructions.None? ==> row.webInstructions == before.webInstructions) &&
      row.displayOrder == input.displayOrder.GetOr(before.displayOrder) &&
      (input.iconUrl.Some? ==> row.iconUrl == OrNull(input.iconUrl)) &&
      (input.iconUrl.None? ==> row.iconUrl == before.iconUrl) &&
      row.isActive == input.isActive.GetOr(before.isActive)
  {
    var k := CreditTypeIndex(t.creditTypes, input.id);
    var types := UpdateWhere(t.creditTypes, input.id, UpdateWith(input));
    forall j | 0 <= j < |t.creditTypes| && j != k ensures types[j] == t.creditTypes[j] {
      assert CreditTypeIds(t.creditTypes)[j] != CreditTypeIds(t.creditTypes)[k];
    }
    assert types == t.creditTypes[k := types[k]];
  }

  /** Repeating an update changes nothing more. */
  lemma UpdateIdempotent(t: Tables, ctx: RequestContext, input: UpdateCreditTypeInput)
    ensures var once := UpdateSpec(t, ctx, input);
      once.1.Answered? ==> UpdateSpec(once.0, ctx, input) == once
  {
    var once := UpdateSpec(t, ctx, input);
    if once.1.Answered? {
      var types := once.0.creditTypes;
      UpdateKeepsKeys(t.creditTypes, input.id, input);
      var k := CreditTypeIndex(t.creditTypes, input.id);
      assert CreditTypeIndex(types, input.id) == k by {
        CreditTypeIndexSameIds(t.creditTypes, types, input.id);
      }
      assert UpdateWhere(types, input.id, UpdateWith(input)) == types;
    }
  }

  /** An update that provides no field leaves the table as it was. */
  lemma EmptyUpdateChangesNothing(t: Tables, ctx: RequestContext, id: string)
    requires UpdateSpec(t, ctx, UpdateCreditTypeInput(id, None, None, None, None, None, None)).1.Answered?
    ensures var (after, r) := UpdateSpec(t, ctx, UpdateCreditTypeInput(id, None, None, None, None, None, None));
      after == t && r.value == t.creditTypes[CreditTypeIndex(t.creditTypes, id)]
  {
    var input := UpdateCreditTypeInput(id, None, None, None, None, None, None);
    assert UpdateWhere(t.creditTypes, id, UpdateWith(input)) == t.creditTypes;
  }

  // ---------------------------------------------------------------- toggleCreditTypeActive

  function IdIssues(id: string): (issues: seq<string>)
    ensures issues == [] <==> id != []
  {
    Check(id != [], IdRequired)
  }

  function SetActive(active: bool): CreditType -> CreditType {
    (c: CreditType) => c.(isActive := active)
  }

  /** `toggleCreditTypeActive`: read the row, then set `isActive` to the negation of what was read.
      The handler's second "not found" check follows an update of a row just read and cannot fire
      in this sequential model. */
  function ToggleSpec(t: Tables, ctx: RequestContext, id: string): (r: (Tables, Response<CreditType>))
    ensures r.0 == t.(creditTypes := r.0.creditTypes)
    ensures !r.1.Answered? ==> r.0 == t
    ensures r.1.Answered? ==> |r.0.creditTypes| == |t.creditTypes| && r.1.value.id == id && r.1.value in r.0.creditTypes
  {
    var issues := IdIssues(id);
    if issues != [] then (t, InvalidInput(issues))
    else if RequireAdmin(ctx).Err? then (t, Thrown(RequireAdmin(ctx).error))
    else
      var i := CreditTypeIndex(t.creditTypes, id);
      if i == |t.creditTypes| then (t, Thrown(TypeNotFound))
      else
        var types := UpdateWhere(t.creditTypes, id, SetActive(!t.creditTypes[i].isActive));
        (t.(creditTypes := types), Answered(types[i]))
  }

  lemma SetActiveKeepsKeys(types: seq<CreditType>, id: Id, active: bool)
    ensures CreditTypeIds(UpdateWhere(types, id, SetActive(active))) == CreditTypeIds(types)
    ensures CreditTypeNames(UpdateWhere(types, id, SetActive(active))) == CreditTypeNames(types)
  {
  }

  method ToggleCreditTypeActive(db: Store, ctx: RequestContext, id: string) returns (r: Response<CreditType>)
    requires db.Valid()
    modifies db
    ensures db.Valid()
    ensures (db.Snapshot(), r) == ToggleSpec(old(db.Snapshot()), ctx, id)
  {
    var issues := IdIssues(id);
    if issues != [] {
      return InvalidInput(issues);
    }
    var session := RequireAdmin(ctx);
    if session.Err? {
      return Thrown(session.error);
    }
    var i := CreditTypeIndex(db.creditTypes, id);
    if i == |db.creditTypes| {
      return Thrown(TypeNotFound);
    }
    var found := db.creditTypes[i];
    var types := UpdateWhere(db.creditTypes, id, SetActive(!found.isActive));
    SetActiveKeepsKeys(db.creditTypes, id, !found.isActive);
    SameKeysKeepTables(db.Snapshot(), types);
    db.creditTypes := types;
    r := Answered(types[i]);
  }

  /** A toggle flips the flag of the row with the id and touches nothing else. */
  lemma ToggleFlips(t: Tables, ctx: RequestContext, id: string)
    requires TablesOk(t) && ToggleSpec(t, ctx, id).1.Answered?
    ensures var (after, r) := ToggleSpec(t, ctx, id);
      var k := CreditTypeIndex(t.creditTypes, id);
      k < |t.creditTypes| && r.value == t.creditTypes[k].(isActive := !t.creditTypes[k].isActive) &&
      after == t.(creditTypes := t.creditTypes[k := r.value])
  {
    var k := CreditTypeIndex(t.creditTypes, id);
    var types := ToggleSpec(t, ctx, id).0.creditTypes;
    forall j | 0 <= j < |t.creditTypes| && j != k ensures types[j] == t.creditTypes[j] {
      assert CreditTypeIds(t.creditTypes)[j] != CreditTypeIds(t.creditTypes)[k];
    }
    assert types == t.creditTypes[k := types[k]];
  }

  /** Toggling twice restores the tables. */
  lemma ToggleTwiceRestores(t: Tables, ctx: RequestContext, id: string)
    requires TablesOk(t) && ToggleSpec(t, ctx, id).1.Answered?
    ensures ToggleSpec(ToggleSpec(t, ctx, id).0, ctx, id).0 == t
  {
    var once := ToggleSpec(t, ctx, id).0;
    var k := CreditTypeIndex(t.creditTypes, id);
    ToggleFlips(t, ctx, id);
    CreditTypeIndexSameIds(t.creditTypes, once.creditTypes, id);
    SetActiveKeepsKeys(t.creditTypes, id, !t.creditTypes[k].isActive);
    SameKeysKeepTables(t, once.creditTypes);
    ToggleFlips(once, ctx, id);
    assert once.creditTypes[k := once.creditTypes[k].(isActive := !once.creditTypes[k].isActive)] == t.creditTypes;
  }

  // ---------------------------------------------------------------- deleteCreditType

  const AssignedCodesBlock: string := "Cannot delete credit type with assigned codes"

  /** `DELETE FROM codes WHERE credit_type_id = id`: the codes of every other type, in order. */
  function RemainingCodes(codes: seq<Code>, id: Id): (r: seq<Code>)
    ensures forall k :: 0 <= k < |r| ==> r[k] in codes && r[k].creditTypeId != id
    ensures forall k :: 0 <= k < |codes| && codes[k].creditTypeId != id ==> codes[k] in r
  {
    Filter(codes, (c: Code) => c.creditTypeId != id)
  }

  /** `DELETE FROM credit_types WHERE id = id`. */
  function RemainingTypes(types: seq<CreditType>, id: Id): (r: seq<CreditType>)
    ensures forall k :: 0 <= k < |r| ==> r[k] in types && r[k].id != id
    ensures forall k :: 0 <= k < |types| && types[k].id != id ==> types[k] in r
  {
    Filter(types, (c: CreditType) => c.id != id)
  }

  /** `deleteCreditType`: refused while a code of the type has left the pool; otherwise the type's
      codes are deleted, then the type itself. When no type row is deleted the call throws, after
      the codes deletion. */
  function DeleteSpec(t: Tables, ctx: RequestContext, id: string): (r: (Tables, Response<bool>))
    ensures r.0 == t.(codes := r.0.codes, creditTypes := r.0.creditTypes)
    ensures r.1.InvalidInput? ==> r.0 == t
    ensures r.0.codes == t.codes || forall k :: 0 <= k < |r.0.codes| ==> r.0.codes[k].creditTypeId != id
    ensures r.1.Answered? ==> forall k :: 0 <= k < |r.0.creditTypes| ==> r.0.creditTypes[k].id != id
  {
    var issues := IdIssues(id);
    if issues != [] then (t, InvalidInput(issues))
    else if RequireAdmin(ctx).Err? then (t, Thrown(RequireAdmin(ctx).error))
    else if PoolStatsOf(t.codes, id).assignedCount > 0 then (t, Thrown(AssignedCodesBlock))
    else
      var codes := RemainingCodes(t.codes, id);
      if id !in CreditTypeIds(t.creditTypes) then (t.(codes := codes), Thrown(TypeNotFound))
      else (t.(codes := codes, creditTypes := RemainingTypes(t.creditTypes, id)), Answered(true))
  }

  /** Deleting the type keeps the credit type constraints. */
  lemma RemainingTypesOk(types: seq<CreditType>, id: Id, serial: nat)
    requires CreditTypesOk(types) && AllIn(CreditTypeIds(types), Minted(serial))
    ensures var rest := RemainingTypes(types, id);
      CreditTypesOk(rest) && AllIn(CreditTypeIds(rest), Minted(serial))
  {
    var rest := RemainingTypes(types, id);
    var keep := (c: CreditType) => c.id != id;
    FilterKeepsDistinct(types, keep, (c: CreditType) => c.id);
    FilterKeepsDistinct(types, keep, (c: CreditType) => c.name);
    forall i | 0 <= i < |rest| ensures CreditTypeIds(rest)[i] in Minted(serial) {
      var j :| 0 <= j < |types| && types[j] == rest[i];
      assert CreditTypeIds(types)[j] in Minted(serial);
    }
  }

  /** Deleting the type keeps every other type's id. */
  lemma RemainingTypesKeepIds(types: seq<CreditType>, id: Id)
    ensures forall x :: x in CreditTypeIds(types) && x != id ==> x in CreditTypeIds(RemainingTypes(types, id))
  {
    var rest := RemainingTypes(types, id);
    forall x | x in CreditTypeIds(types) && x != id ensures x in CreditTypeIds(rest) {
      var l :| 0 <= l < |types| && CreditTypeIds(types)[l] == x;
      assert types[l] in rest;
      var m :| 0 <= m < |rest| && rest[m] == types[l];
      assert CreditTypeIds(rest)[m] == x;
    }
  }

  /** Deleting the type's codes keeps the codes constraints against any credit type table that
      still holds every other type. */
  lemma RemainingCodesOk(codes: seq<Code>, id: Id, types: seq<CreditType>, rest: seq<CreditType>,
                         users: seq<User>, serial: nat)
    requires CodesOk(codes, types, users) && PoolInvariant(codes) && AllIn(CodeIds(codes), Minted(serial))
    requires forall x :: x in CreditTypeIds(types) && x != id ==> x in CreditTypeIds(rest)
    ensures var left := RemainingCodes(codes, id);
      CodesOk(left, rest, users) && PoolInvariant(left) && AllIn(CodeIds(left), Minted(serial))
  {
    var left := RemainingCodes(codes, id);
    var keep := (c: Code) => c.creditTypeId != id;
    FilterKeepsDistinct(codes, keep, (c: Code) => c.id);
    FilterKeepsDistinct(codes, keep, (c: Code) => (c.creditTypeId, c.codeValue));
    forall i | 0 <= i < |left|
      ensures left[i].creditTypeId in CreditTypeIds(rest)
      ensures left[i].assignedTo.Some? ==> left[i].assignedTo.value in UserIds(users)
      ensures CodeIds(left)[i] in Minted(serial)
      ensures left[i].status != Redeemed
      ensures left[i].status == Unassigned ==> left[i].assignedTo.None? && left[i].assignedAt.None?
    {
      var j :| 0 <= j < |codes| && codes[j] == left[i];
      assert CodeIds(codes)[j] in Minted(serial);
    }
  }

  /** Deleting a type's codes, and then possibly the type, keeps every constraint. */
  lemma DeleteKeepsTables(t: Tables, id: Id, dropType: bool)
    requires TablesOk(t)
    ensures var types := if dropType then RemainingTypes(t.creditTypes, id) else t.creditTypes;
      TablesOk(t.(codes := RemainingCodes(t.codes, id), creditTypes := types))
  {
    var types := if dropType then RemainingTypes(t.creditTypes, id) else t.creditTypes;
    RemainingTypesOk(t.creditTypes, id, t.serial);
    RemainingTypesKeepIds(t.creditTypes, id);
    RemainingCodesOk(t.codes, id, t.creditTypes, types, t.users, t.serial);
  }

  method DeleteCreditType(db: Store, ctx: RequestContext, id: string) returns (r: Response<bool>)
    requires db.Valid()
    modifies db
    ensures db.Valid()
    ensures (db.Snapshot(), r) == DeleteSpec(old(db.Snapshot()), ctx, id)
  {
    var issues := IdIssues(id);
    if issues != [] {
      return InvalidInput(issues);
    }
    var session := RequireAdmin(ctx);
    if session.Err? {
      return Thrown(session.error);
    }
    var countValue := PoolStatsOf(db.codes, id).assignedCount;
    if countValue > 0 {
      return Thrown(AssignedCodesBlock);
    }
    var i := CreditTypeIndex(db.creditTypes, id);
    CreditTypeIndexIn(db.creditTypes, id);
    var found := i < |db.creditTypes|;
    DeleteKeepsTables(db.Snapshot(), id, found);
    db.codes := RemainingCodes(db.codes, id);
    if !found {
      return Thrown(TypeNotFound);
    }
    db.creditTypes := RemainingTypes(db.creditTypes, id);
    r := Answered(true);
  }

  /** The guard: once validation and the admin check pass, the deletion is refused exactly when
      some code of the type is no longer unassigned. */
  lemma DeleteGuard(t: Tables, ctx: RequestContext, id: string)
    requires id != [] && RequireAdmin(ctx).Ok?
    ensures DeleteSpec(t, ctx, id) == (t, Thrown(AssignedCodesBlock)) <==>
      exists k :: 0 <= k < |t.codes| && t.codes[k].creditTypeId == id && t.codes[k].status != Unassigned
  {
    AssignedPositive(t.codes, id);
  }

  /** A successful deletion removes the type, keeps every other type and every constraint. */
  lemma DeleteEffects(t: Tables, ctx: RequestContext, id: string)
    requires TablesOk(t) && DeleteSpec(t, ctx, id).1.Answered?
    ensures var after := DeleteSpec(t, ctx, id).0;
      TablesOk(after) &&
      id in CreditTypeIds(t.creditTypes) && id !in CreditTypeIds(after.creditTypes) &&
      (forall k :: 0 <= k < |t.creditTypes| && t.creditTypes[k].id != id ==> t.creditTypes[k] in after.creditTypes) &&
      after.users == t.users && after.checkinTypes == t.checkinTypes && after.records == t.records
  {
    var after := DeleteSpec(t, ctx, id).0;
    assert id in CreditTypeIds(t.creditTypes);
    assert after == t.(codes := RemainingCodes(t.codes, id), creditTypes := RemainingTypes(t.creditTypes, id));
    DeleteKeepsTables(t, id, true);
    RemainingTypesDropId(t.creditTypes, id);
  }

  lemma RemainingTypesDropId(types: seq<CreditType>, id: Id)
    ensures id !in CreditTypeIds(RemainingTypes(types, id))
  {
    var rest := RemainingTypes(types, id);
    forall k | 0 <= k < |rest| ensures CreditTypeIds(rest)[k] != id {
      assert rest[k].id != id;
    }
  }

  /** A successful deletion drops exactly the type's codes, which were all still in the pool. */
  lemma DeleteDropsPoolCodes(t: Tables, ctx: RequestContext, id: string)
    requires DeleteSpec(t, ctx, id).1.Answered?
    ensures var after := DeleteSpec(t, ctx, id).0;
      (forall k :: 0 <= k < |t.codes| && t.codes[k].creditTypeId == id ==> t.codes[k].status == Unassigned) &&
      (forall k :: 0 <= k < |after.codes| ==> after.codes[k].creditTypeId != id) &&
      (forall k :: 0 <= k < |t.codes| && t.codes[k].creditTypeId != id ==> t.codes[k] in after.codes)
  {
    assert DeleteSpec(t, ctx, id).0.codes == RemainingCodes(t.codes, id);
    AssignedPositive(t.codes, id);
  }

  /** Deleting an unknown type throws and changes nothing: no code can reference a missing type. */
  lemma DeleteUnknownChangesNothing(t: Tables, ctx: RequestContext, id: string)
    requires TablesOk(t) && id != [] && RequireAdmin(ctx).Ok? && id !in CreditTypeIds(t.creditTypes)
    ensures DeleteSpec(t, ctx, id) == (t, Thrown(TypeNotFound))
  {
    forall k | 0 <= k < |t.codes| ensures t.codes[k].creditTypeId != id {
      assert t.codes[k].creditTypeId in CreditTypeIds(t.creditTypes);
    }
    PoolStatsEmpty(t.codes, id);
    FilterAll(t.codes, (c: Code) => c.creditTypeId != id);
  }

  // ---------------------------------------------------------------- importCodes

  /** One line of an uploaded code file. */
  datatype ImportedCode = ImportedCode(codeValue: string, redeemUrl: Option<string>)

  datatype ImportCodesInput = ImportCodesInput(creditTypeId: string, codes: seq<ImportedCode>)

  datatype SkippedCode = SkippedCode(codeValue: string, reason: string)

  datatype ImportResult = ImportResult(imported: nat, skipped: seq<SkippedCode>)

  const CodeValueRequired: string := "Code value is required"

  /** One "Code value is required" per empty code value, in file order. */
  function CodeValueIssues(codes: seq<ImportedCode>): (issues: seq<string>)
    ensures issues == [] <==> forall k :: 0 <= k < |codes| ==> codes[k].codeValue != []
    ensures forall j :: 0 <= j < |issues| ==> issues[j] == CodeValueRequired
    decreases |codes|
  {
    if codes == [] then []
    else Check(codes[0].codeValue != [], CodeValueRequired) + CodeValueIssues(codes[1..])
  }

  function ImportIssues(input: ImportCodesInput): (issues: seq<string>)
    ensures issues == [] <==> input.creditTypeId != [] && forall k :: 0 <= k < |input.codes| ==> input.codes[k].codeValue != []
  {
    Check(input.creditTypeId != [], "Credit type ID is required") + CodeValueIssues(input.codes)
  }

  /** `normalizedCodes`: every code value in upper case. */
  function Normalized(codes: seq<ImportedCode>): (r: seq<ImportedCode>)
    ensures |r| == |codes|
    ensures forall k :: 0 <= k < |codes| ==> r[k] == ImportedCode(Text.ToUpper(codes[k].codeValue), codes[k].redeemUrl)
  {
    seq(|codes|, k requires 0 <= k < |codes| => ImportedCode(Text.ToUpper(codes[k].codeValue), codes[k].redeemUrl))
  }

  /** `codeValues`. */
  function Values(items: seq<ImportedCode>): (r: seq<string>)
    ensures |r| == |items| && forall k :: 0 <= k < |items| ==> r[k] == items[k].codeValue
  {
    seq(|items|, k requires 0 <= k < |items| => items[k].codeValue)
  }

  /** `existingCodeValues`: the values of the file that the type already has a code for. */
  function ExistingValues(codes: seq<Code>, typeId: Id, values: seq<string>): set<string> {
    set k | 0 <= k < |codes| && codes[k].creditTypeId == typeId && codes[k].codeValue in values :: codes[k].codeValue
  }

  function ReasonText(d: Decision): string {
    match d
    case SkipExisting => "Code already exists in database"
    case SkipDuplicate => "Duplicate code in import file"
    case Accept => ""
  }

  /** `toInsert`, by the forEach's own steps: a line whose value is neither stored nor seen before
      becomes an unassigned code of the type. */
  function ImportRows(typeId: Id, items: seq<ImportedCode>, existing: set<string>): (rows: seq<NewCode>)
    ensures forall k :: 0 <= k < |rows| ==> rows[k].creditTypeId == typeId && rows[k].status == Unassigned
    decreases |items|
  {
    if items == [] then []
    else
      var n := |items| - 1;
      ImportRows(typeId, items[..n], existing) +
      (if Decide(existing, Values(items[..n]), items[n].codeValue) == Accept
       then [NewCode(typeId, items[n].codeValue, OrNull(items[n].redeemUrl), Unassigned)] else [])
  }

  /** `skipped`, by the forEach's own steps. */
  function ImportSkips(items: seq<ImportedCode>, existing: set<string>): seq<SkippedCode>
    decreases |items|
  {
    if items == [] then []
    else
      var n := |items| - 1;
      var d := Decide(existing, Values(items[..n]), items[n].codeValue);
      ImportSkips(items[..n], existing) + (if d == Accept then [] else [SkippedCode(items[n].codeValue, ReasonText(d))])
  }

  /** The rows the forEach builds are the accepted half of the shared de-duplication. */
  lemma {:induction false} ImportRowsAccepted(typeId: Id, items: seq<ImportedCode>, existing: set<string>)
    ensures var rows := ImportRows(typeId, items, existing);
      var a := AcceptedAt(existing, Values(items));
      |rows| == |a| &&
      forall j :: 0 <= j < |a| ==> rows[j] == NewCode(typeId, items[a[j]].codeValue, OrNull(items[a[j]].redeemUrl), Unassigned)
    decreases |items|
  {
    if items != [] {
      var n := |items| - 1;
      var init := items[..n];
      ImportRowsAccepted(typeId, init, existing);
      var values := Values(items);
      assert values[..n] == Values(init);
      var prev := AcceptedAt(existing, Values(init));
      var prevRows := ImportRows(typeId, init, existing);
      var accept := Decide(existing, Values(init), items[n].codeValue) == Accept;
      assert AcceptedAt(existing, values) == prev + (if accept then [n] else []);
      var rows := ImportRows(typeId, items, existing);
      assert rows == prevRows + (if accept then [NewCode(typeId, items[n].codeValue, OrNull(items[n].redeemUrl), Unassigned)] else []);
      forall j | 0 <= j < |prev| ensures rows[j] == NewCode(typeId, items[prev[j]].codeValue, OrNull(items[prev[j]].redeemUrl), Unassigned) {
        assert rows[j] == prevRows[j];
        assert init[prev[j]] == items[prev[j]];
      }
    }
  }

  /** The skips the forEach builds are the skipped half of the shared de-duplication. */
  lemma {:induction false} ImportSkipsSkipped(items: seq<ImportedCode>, existing: set<string>)
    ensures var skips := ImportSkips(items, existing);
      var sk := Skips(existing, Values(items));
      |skips| == |sk| &&
      forall j :: 0 <= j < |sk| ==> skips[j] == SkippedCode(sk[j].key, ReasonText(sk[j].reason))
    decreases |items|
  {
    if items != [] {
      var n := |items| - 1;
      var init := items[..n];
      ImportSkipsSkipped(init, existing);
      var values := Values(items);
      assert values[..n] == Values(init) && values[n] == items[n].codeValue;
      var d := Decide(existing, Values(init), items[n].codeValue);
      assert Skips(existing, values) ==
        Skips(existing, Values(init)) + (if d == Accept then [] else [Skip(n, items[n].codeValue, d)]);
      assert ImportSkips(items, existing) ==
        ImportSkips(init, existing) + (if d == Accept then [] else [SkippedCode(items[n].codeValue, ReasonText(d))]);
    }
  }

  /** `importCodes`: validation, the admin check, the empty file, the type lookup, then the
      de-duplicated batch insert. */
  function ImportSpec(t: Tables, ctx: RequestContext, input: ImportCodesInput): (r: (Tables, Response<ImportResult>))
    ensures r.0 == t.(codes := r.0.codes, serial := r.0.serial)
    ensures !r.1.Answered? ==> r.0 == t
    ensures |r.0.codes| >= |t.codes| && r.0.codes[..|t.codes|] == t.codes
  {
    var issues := ImportIssues(input);
    if issues != [] then (t, InvalidInput(issues))
    else if RequireAdmin(ctx).Err? then (t, Thrown(RequireAdmin(ctx).error))
    else if input.codes == [] then (t, Answered(ImportResult(0, [])))
    else if input.creditTypeId !in CreditTypeIds(t.creditTypes) then (t, Thrown(TypeNotFound))
    else ImportCommit(t, input.creditTypeId, Normalized(input.codes))
  }

  /** The accepted lines go in as one chunked insert; the result counts them and lists the skips. */
  function ImportCommit(t: Tables, typeId: Id, items: seq<ImportedCode>): (Tables, Response<ImportResult>) {
    var existing := ExistingValues(t.codes, typeId, Values(items));
    var rows := ImportRows(typeId, items, existing);
    (t.(codes := t.codes + CodeRows(rows, t.serial), serial := t.serial + |rows|),
     Answered(ImportResult(|rows|, ImportSkips(items, existing))))
  }

  /** The forEach over the normalised lines, with its `seenInBatch` set. */
  method SelectCodes(typeId: Id, items: seq<ImportedCode>, existing: set<string>)
    returns (toInsert: seq<NewCode>, skipped: seq<SkippedCode>)
    ensures toInsert == ImportRows(typeId, items, existing)
    ensures skipped == ImportSkips(items, existing)
  {
    toInsert, skipped := [], [];
    var seenInBatch: set<string> := {};
    for i := 0 to |items|
      invariant toInsert == ImportRows(typeId, items[..i], existing)
      invariant skipped == ImportSkips(items[..i], existing)
      invariant forall v :: v in seenInBatch <==> v in Values(items[..i]) && v !in existing
    {
      var code := items[i];
      assert items[..i + 1][..i] == items[..i];
      assert Values(items[..i + 1]) == Values(items[..i]) + [code.codeValue];
      if code.codeValue in existing {
        skipped := skipped + [SkippedCode(code.codeValue, ReasonText(SkipExisting))];
      } else if code.codeValue in seenInBatch {
        skipped := skipped + [SkippedCode(code.codeValue, ReasonText(SkipDuplicate))];
      } else {
        seenInBatch := seenInBatch + {code.codeValue};
        toInsert := toInsert + [NewCode(typeId, code.codeValue, OrNull(code.redeemUrl), Unassigned)];
      }
    }
    assert items[..|items|] == items;
  }

  /** The rows the import selects keep every constraint when appended: their keys are pairwise
      distinct and none is stored yet. */
  lemma ImportRowsFit(t: Tables, typeId: Id, items: seq<ImportedCode>)
    requires TablesOk(t) && typeId in CreditTypeIds(t.creditTypes)
    ensures var rows := ImportRows(typeId, items, ExistingValues(t.codes, typeId, Values(items)));
      CodesOk(t.codes + CodeRows(rows, t.serial), t.creditTypes, t.users)
  {
    var values := Values(items);
    var existing := ExistingValues(t.codes, typeId, values);
    var rows := ImportRows(typeId, items, existing);
    var a := AcceptedAt(existing, values);
    var accepted := AcceptedKeys(existing, values);
    ImportRowsAccepted(typeId, items, existing);
    AcceptedKeysFresh(existing, values);
    assert forall j :: 0 <= j < |rows| ==> NewCodeKeys(rows)[j] == (typeId, accepted[j]);
    forall i, j | 0 <= i < j < |rows| ensures NewCodeKeys(rows)[i] != NewCodeKeys(rows)[j] {
      assert accepted[i] != accepted[j];
    }
    forall j | 0 <= j < |rows| ensures NewCodeKeys(rows)[j] !in CodeKeys(t.codes) {
      forall k | 0 <= k < |t.codes| ensures CodeKeys(t.codes)[k] != (typeId, accepted[j]) {
        assert accepted[j] == values[a[j]] && accepted[j] !in existing;
        assert t.codes[k].creditTypeId == typeId && t.codes[k].codeValue in values ==> t.codes[k].codeValue in existing;
      }
    }
    NewRowsKeepCodesOk(t.codes, rows, t.serial, t.creditTypes, t.users);
  }

  method ImportCodes(db: Store, ctx: RequestContext, input: ImportCodesInput) returns (r: Response<ImportResult>)
    requires db.Valid()
    modifies db
    ensures db.Valid()
    ensures (db.Snapshot(), r) == ImportSpec(old(db.Snapshot()), ctx, input)
  {
    var issues := ImportIssues(input);
    if issues != [] {
      return InvalidInput(issues);
    }
    var session := RequireAdmin(ctx);
    if session.Err? {
      return Thrown(session.error);
    }
    if input.codes == [] {
      return Answered(ImportResult(0, []));
    }
    var typeId := input.creditTypeId;
    var i := CreditTypeIndex(db.creditTypes, typeId);
    CreditTypeIndexIn(db.creditTypes, typeId);
    if i == |db.creditTypes| {
      return Thrown(TypeNotFound);
    }
    r := StoreImport(db, typeId, Normalized(input.codes));
  }

  /** The existing-values query, the forEach and the chunked insert of `importCodes`. */
  method StoreImport(db: Store, typeId: Id, items: seq<ImportedCode>) returns (r: Response<ImportResult>)
    requires db.Valid() && typeId in CreditTypeIds(db.creditTypes)
    modifies db
    ensures db.Valid()
    ensures (db.Snapshot(), r) == ImportCommit(old(db.Snapshot()), typeId, items)
  {
    var existing := ExistingValues(db.codes, typeId, Values(items));
    var toInsert, skipped := SelectCodes(typeId, items, existing);
    ImportRowsFit(db.Snapshot(), typeId, items);
    var ok, committed := db.InsertCodesInBatches(toInsert);
    assert CodeRows(toInsert, old(db.serial))[..|toInsert|] == CodeRows(toInsert, old(db.serial));
    r := Answered(ImportResult(|toInsert|, skipped));
  }

  /** Every line of a non-empty file is either imported or skipped. */
  lemma ImportPartition(t: Tables, ctx: RequestContext, input: ImportCodesInput)
    requires ImportSpec(t, ctx, input).1.Answered?
    ensures var res := ImportSpec(t, ctx, input).1.value;
      res.imported + |res.skipped| == |input.codes|
  {
    if input.codes != [] {
      var items := Normalized(input.codes);
      var existing := ExistingValues(t.codes, input.creditTypeId, Values(items));
      ImportRowsAccepted(input.creditTypeId, items, existing);
      ImportSkipsSkipped(items, existing);
      Partition(existing, Values(items));
    }
  }

  /** Before any line is looked at: an invalid line or id is reported by the validator, an empty
      file imports nothing without looking the type up, and an unknown type is refused; none of
      these changes the tables. */
  lemma ImportRefusals(t: Tables, ctx: RequestContext, input: ImportCodesInput)
    ensures ImportSpec(t, ctx, input).1.InvalidInput? <==> ImportIssues(input) != []
    ensures ImportIssues(input) == [] && RequireAdmin(ctx).Ok? && input.codes == [] ==>
      ImportSpec(t, ctx, input) == (t, Answered(ImportResult(0, [])))
    ensures (ImportIssues(input) == [] && RequireAdmin(ctx).Ok? && input.codes != [] &&
             input.creditTypeId !in CreditTypeIds(t.creditTypes)) ==>
      ImportSpec(t, ctx, input) == (t, Thrown(TypeNotFound))
    ensures !ImportSpec(t, ctx, input).1.Answered? ==> ImportSpec(t, ctx, input).0 == t
  {
  }

  /** A value of the file is among the existing values exactly when the type has a code with it. */
  lemma ExistingValuesIff(codes: seq<Code>, typeId: Id, values: seq<string>, v: string)
    requires v in values
    ensures v in ExistingValues(codes, typeId, values) <==>
      exists k :: 0 <= k < |codes| && codes[k].creditTypeId == typeId && codes[k].codeValue == v
  {
    if exists k :: 0 <= k < |codes| && codes[k].creditTypeId == typeId && codes[k].codeValue == v {
      var k :| 0 <= k < |codes| && codes[k].creditTypeId == typeId && codes[k].codeValue == v;
      assert codes[k].codeValue in ExistingValues(codes, typeId, values);
    }
  }

  /** The skip reasons of the insert step. */
  lemma CommitSkipReasons(t: Tables, typeId: Id, items: seq<ImportedCode>)
    ensures var skipped := ImportCommit(t, typeId, items).1.value.skipped;
      forall j :: 0 <= j < |skipped| ==>
        (skipped[j].reason == "Code already exists in database" <==>
           exists k :: 0 <= k < |t.codes| && t.codes[k].creditTypeId == typeId && t.codes[k].codeValue == skipped[j].codeValue) &&
        (skipped[j].reason != "Code already exists in database" ==> skipped[j].reason == "Duplicate code in import file")
  {
    var values := Values(items);
    var existing := ExistingValues(t.codes, typeId, values);
    var skipped := ImportSkips(items, existing);
    var sk := Skips(existing, values);
    ImportSkipsSkipped(items, existing);
    forall j | 0 <= j < |skipped|
      ensures (skipped[j].reason == "Code already exists in database" <==>
           exists k :: 0 <= k < |t.codes| && t.codes[k].creditTypeId == typeId && t.codes[k].codeValue == skipped[j].codeValue)
      ensures skipped[j].reason != "Code already exists in database" ==> skipped[j].reason == "Duplicate code in import file"
    {
      assert skipped[j] == SkippedCode(sk[j].key, ReasonText(sk[j].reason));
      assert sk[j].key == values[sk[j].index];
      ExistingValuesIff(t.codes, typeId, values, sk[j].key);
    }
  }

  /** A skipped line says why: "already exists" exactly when the type has a stored code with that
      value, "duplicate" otherwise. */
  lemma ImportSkipReasons(t: Tables, ctx: RequestContext, input: ImportCodesInput)
    requires ImportSpec(t, ctx, input).1.Answered?
    ensures var skipped := ImportSpec(t, ctx, input).1.value.skipped;
      forall j :: 0 <= j < |skipped| ==>
        (skipped[j].reason == "Code already exists in database" <==>
           exists k :: 0 <= k < |t.codes| && t.codes[k].creditTypeId == input.creditTypeId && t.codes[k].codeValue == skipped[j].codeValue) &&
        (skipped[j].reason != "Code already exists in database" ==> skipped[j].reason == "Duplicate code in import file")
  {
    if input.codes != [] {
      assert ImportSpec(t, ctx, input) == ImportCommit(t, input.creditTypeId, Normalized(input.codes));
      CommitSkipReasons(t, input.creditTypeId, Normalized(input.codes));
    }
  }

  /** Every value of the file that the type has no code for is imported, in upper case. */
  lemma ImportTakesNewValues(t: Tables, ctx: RequestContext, input: ImportCodesInput, v: string)
    requires ImportSpec(t, ctx, input).1.Answered? && input.codes != []
    requires v in Values(Normalized(input.codes))
    requires forall k :: 0 <= k < |t.codes| && t.codes[k].creditTypeId == input.creditTypeId ==> t.codes[k].codeValue != v
    ensures var after := ImportSpec(t, ctx, input).0;
      exists k :: |t.codes| <= k < |after.codes| && after.codes[k].codeValue == v && after.codes[k].creditTypeId == input.creditTypeId
  {
    var items := Normalized(input.codes);
    var values := Values(items);
    var existing := ExistingValues(t.codes, input.creditTypeId, values);
    var rows := ImportRows(input.creditTypeId, items, existing);
    var after := ImportCommit(t, input.creditTypeId, items).0;
    assert after == ImportSpec(t, ctx, input).0;
    ImportRowsAccepted(input.creditTypeId, items, existing);
    AcceptedComplete(existing, values, v);
    var a := AcceptedAt(existing, values);
    var j :| 0 <= j < |a| && AcceptedKeys(existing, values)[j] == v;
    assert after.codes[|t.codes| + j] == CodeRows(rows, t.serial)[j];
  }

  /** A successful import keeps every constraint and only appends codes: unassigned codes of the
      type, one per imported line. */
  lemma ImportKeepsTables(t: Tables, ctx: RequestContext, input: ImportCodesInput)
    requires TablesOk(t) && ImportSpec(t, ctx, input).1.Answered?
    ensures var (after, r) := ImportSpec(t, ctx, input);
      TablesOk(after) && |after.codes| == |t.codes| + r.value.imported && after.codes[..|t.codes|] == t.codes &&
      after.users == t.users && after.creditTypes == t.creditTypes &&
      forall k :: |t.codes| <= k < |after.codes| ==>
        after.codes[k].creditTypeId == input.creditTypeId && after.codes[k].status == Unassigned &&
        after.codes[k].assignedTo.None?
  {
    var (after, r) := ImportSpec(t, ctx, input);
    if input.codes != [] {
      var typeId := input.creditTypeId;
      var items := Normalized(input.codes);
      var rows := ImportRows(typeId, items, ExistingValues(t.codes, typeId, Values(items)));
      var all := CodeRows(rows, t.serial);
      var next := t.serial + |rows|;
      ImportRowsFit(t, typeId, items);
      FreshRowsMinted(rows, t.serial);
      MintedGrows(t.serial, next);
      AllInGrows(CodeIds(t.codes), t.serial, next);
      AppendKeepsMinted(t.codes, all, next);
      AppendKeepsPool(t.codes, all);
      AllInGrows(UserIds(t.users), t.serial, next);
      AllInGrows(CreditTypeIds(t.creditTypes), t.serial, next);
      AllInGrows(CheckinTypeIds(t.checkinTypes), t.serial, next);
      AllInGrows(RecordIds(t.records), t.serial, next);
      assert (t.codes + all)[..|t.codes|] == t.codes;
    }
  }
}
