/** The check-in type registry of apps/web/src/apis/admin/checkins.ts: `listCheckinTypes`,
    `createCheckinType`, `updateCheckinType`, `toggleCheckinTypeActive` and `deleteCheckinType`.
    Every call is gated by `requireAdmin`; the validators run before the handler. */
module CheckinTypes {
  import opened Wrappers
  import opened Constant
  import opened Schema
  import opened Db
  import opened Auth
  import opened Ordering
  import opened Lookup
  import opened Api
  import Checkin
  import Credits
  import Text

  const NameTaken: string := "Check-in type with this name already exists"
  const NotFound: string := "Check-in type not found"

  // ---------------------------------------------------------------- listCheckinTypes

  /** `listCheckinTypes`: every check-in type, in ascending display order. */
  function ListCheckinTypes(t: Tables, ctx: RequestContext): (r: Response<seq<CheckinType>>)
    ensures r.Answered? <==> RequireAdmin(ctx).Ok?
    ensures !r.Answered? ==> r == Thrown(RequireAdmin(ctx).error)
  {
    match RequireAdmin(ctx)
    case Err(e) => Thrown(e)
    case Ok(_) => Answered(SortBy(t.checkinTypes, Checkin.CheckinTypeOrderKey))
  }

  /** The listing is the whole table, each row once, in ascending display order. */
  lemma ListCheckinTypesShape(t: Tables, ctx: RequestContext)
    requires RequireAdmin(ctx).Ok?
    ensures var list := ListCheckinTypes(t, ctx).value;
      multiset(list) == multiset(t.checkinTypes) && SortedBy(list, Checkin.CheckinTypeOrderKey) &&
      forall c :: c in list <==> c in t.checkinTypes
  {
    var list := ListCheckinTypes(t, ctx).value;
    forall c ensures c in list <==> c in t.checkinTypes {
      SortByMembers(t.checkinTypes, Checkin.CheckinTypeOrderKey, c);
    }
  }

  // ---------------------------------------------------------------- createCheckinType

  /** The validated input of `createCheckinType`; `None` marks an omitted optional field. */
  datatype CreateCheckinTypeInput = CreateCheckinTypeInput(
    name: string,
    category: CheckinTypeCategory,
    description: Option<string>,
    displayOrder: int,
    isActive: Option<bool>)

  function CreateIssues(input: CreateCheckinTypeInput): (issues: seq<string>)
    ensures issues == [] <==> input.name != [] && input.displayOrder >= 0
  {
    Check(input.name != [], Credits.NameRequired) + Check(input.displayOrder >= 0, Credits.AtLeastZero)
  }

  /** The inserted row: the validated input, `isActive` defaulting to true. */
  function NewCheckinTypeRow(id: Id, input: CreateCheckinTypeInput): CheckinType {
    CheckinType(id, input.name, CategoryCode(input.category), input.description, input.displayOrder,
                input.isActive.GetOr(true))
  }

  /** `createCheckinType`: validation, the admin check, the name lookup, then the insert. */
  function CreateSpec(t: Tables, ctx: RequestContext, input: CreateCheckinTypeInput): (r: (Tables, Response<CheckinType>))
    ensures r.0 == t.(checkinTypes := r.0.checkinTypes, serial := r.0.serial)
    ensures !r.1.Answered? ==> r.0 == t
    ensures r.1.Answered? ==>
      r.0.checkinTypes == t.checkinTypes + [r.1.value] && r.1.value.name !in CheckinTypeNames(t.checkinTypes)
  {
    var issues := CreateIssues(input);
    if issues != [] then (t, InvalidInput(issues))
    else if RequireAdmin(ctx).Err? then (t, Thrown(RequireAdmin(ctx).error))
    else if input.name in CheckinTypeNames(t.checkinTypes) then (t, Thrown(NameTaken))
    else
      var row := NewCheckinTypeRow(MintId(t.serial), input);
      (t.(checkinTypes := t.checkinTypes + [row], serial := t.serial + 1), Answered(row))
  }

  /** Appending a check-in type with the next minted id and an unused name keeps every constraint. */
  lemma InsertKeepsTables(t: Tables, row: CheckinType)
    requires TablesOk(t) && row.id == MintId(t.serial) && row.name !in CheckinTypeNames(t.checkinTypes)
    ensures TablesOk(t.(checkinTypes := t.checkinTypes + [row], serial := t.serial + 1))
  {
    var types := t.checkinTypes + [row];
    MintedFresh(t.serial, 0);
    forall k | 0 <= k < |t.checkinTypes| ensures CheckinTypeIds(t.checkinTypes)[k] != row.id {
      assert CheckinTypeIds(t.checkinTypes)[k] in Minted(t.serial);
    }
    assert CheckinTypeIds(types) == CheckinTypeIds(t.checkinTypes) + [row.id];
    assert CheckinTypeNames(types) == CheckinTypeNames(t.checkinTypes) + [row.name];
    DistinctAppend(CheckinTypeIds(t.checkinTypes), [row.id]);
    DistinctAppend(CheckinTypeNames(t.checkinTypes), [row.name]);
    forall x | x in CheckinTypeIds(t.checkinTypes) ensures x in CheckinTypeIds(types) {
      var k :| 0 <= k < |t.checkinTypes| && CheckinTypeIds(t.checkinTypes)[k] == x;
      assert CheckinTypeIds(types)[k] == x;
    }
    MintedGrows(t.serial, t.serial + 1);
    AllInGrows(UserIds(t.users), t.serial, t.serial + 1);
    AllInGrows(CreditTypeIds(t.creditTypes), t.serial, t.serial + 1);
    AllInGrows(CodeIds(t.codes), t.serial, t.serial + 1);
    AllInGrows(RecordIds(t.records), t.serial, t.serial + 1);
    assert AllIn(CheckinTypeIds(types), Minted(t.serial + 1)) by {
      forall k | 0 <= k < |types| ensures CheckinTypeIds(types)[k] in Minted(t.serial + 1) {
        if k < |t.checkinTypes| {
          assert CheckinTypeIds(t.checkinTypes)[k] in Minted(t.serial);
        }
      }
    }
  }

  method CreateCheckinType(db: Store, ctx: RequestContext, input: CreateCheckinTypeInput) returns (r: Response<CheckinType>)
    requires db.Valid()
    modifies db
    ensures db.Valid()
    ensures (db.Snapshot(), r) == CreateSpec(old(db.Snapshot()), ctx, input)
  {
    var issues := CreateIssues(input);
    if issues != [] {
      return InvalidInput(issues);
    }
    var session := RequireAdmin(ctx);
    if session.Err? {
      return Thrown(session.error);
    }
    var existing := CheckinTypeIndexByName(db.checkinTypes, input.name);
    CheckinTypeIndexByNameIn(db.checkinTypes, input.name);
    if existing < |db.checkinTypes| {
      return Thrown(NameTaken);
    }
    var row := NewCheckinTypeRow(MintId(db.serial), input);
    InsertKeepsTables(db.Snapshot(), row);
    db.checkinTypes, db.serial := db.checkinTypes + [row], db.serial + 1;
    r := Answered(row);
  }

  /** A name already used by any check-in type is refused, and only then (once the input and the
      session pass); a refusal changes nothing. */
  lemma CreateRejectsTakenName(t: Tables, ctx: RequestContext, input: CreateCheckinTypeInput)
    requires CreateIssues(input) == [] && RequireAdmin(ctx).Ok?
    ensures var (after, r) := CreateSpec(t, ctx, input);
      (r == Thrown(NameTaken) <==> exists k :: 0 <= k < |t.checkinTypes| && t.checkinTypes[k].name == input.name) &&
      (r == Thrown(NameTaken) ==> after == t)
  {
    if input.name in CheckinTypeNames(t.checkinTypes) {
      var k :| 0 <= k < |t.checkinTypes| && CheckinTypeNames(t.checkinTypes)[k] == input.name;
      assert t.checkinTypes[k].name == input.name;
    } else {
      forall k | 0 <= k < |t.checkinTypes| ensures t.checkinTypes[k].name != input.name {
        assert CheckinTypeNames(t.checkinTypes)[k] == t.checkinTypes[k].name;
      }
    }
  }

  /** A created check-in type is appended with a fresh id, the requested name and category, the
      active flag defaulting to true; names stay unique and the other tables are untouched. */
  lemma CreateStoresCheckinType(t: Tables, ctx: RequestContext, input: CreateCheckinTypeInput)
    requires TablesOk(t) && CreateSpec(t, ctx, input).1.Answered?
    ensures var (after, r) := CreateSpec(t, ctx, input);
      var row := r.value;
      after.checkinTypes == t.checkinTypes + [row] && CheckinTypesOk(after.checkinTypes) &&
      row.id !in CheckinTypeIds(t.checkinTypes) && row.name == input.name &&
      row.category == CategoryCode(input.category) && row.description == input.description &&
      row.displayOrder == input.displayOrder && row.isActive == input.isActive.GetOr(true) &&
      after.users == t.users && after.creditTypes == t.creditTypes && after.codes == t.codes &&
      after.records == t.records
  {
    var row := NewCheckinTypeRow(MintId(t.serial), input);
    InsertKeepsTables(t, row);
    MintedFresh(t.serial, 0);
    forall k | 0 <= k < |t.checkinTypes| ensures CheckinTypeIds(t.checkinTypes)[k] != row.id {
      assert CheckinTypeIds(t.checkinTypes)[k] in Minted(t.serial);
    }
  }

  // ---------------------------------------------------------------- updateCheckinType

  /** The validated input of `updateCheckinType`; `None` marks a field left out of the update. */
  datatype UpdateCheckinTypeInput = UpdateCheckinTypeInput(
    id: string,
    name: Option<string>,
    category: Option<CheckinTypeCategory>,
    description: Option<string>,
    displayOrder: Option<int>,
    isActive: Option<bool>)

  function UpdateIssues(input: UpdateCheckinTypeInput): (issues: seq<string>)
    ensures issues == [] <==>
      input.id != [] && (input.name.Some? ==> input.name.value != []) &&
      (input.displayOrder.Some? ==> input.displayOrder.value >= 0)
  {
    Check(input.id != [], Credits.IdRequired) +
    Check(input.name.None? || input.name.value != [], Credits.NameRequired) +
    Check(input.displayOrder.None? || input.displayOrder.value >= 0, Credits.AtLeastZero)
  }

  /** The `SET` clause: every provided field. */
  function ApplyUpdate(c: CheckinType, input: UpdateCheckinTypeInput): CheckinType {
    c.(name := input.name.GetOr(c.name),
       category := if input.category.Some? then CategoryCode(input.category.value) else c.category,
       description := if input.description.Some? then input.description else c.description,
       displayOrder := input.displayOrder.GetOr(c.displayOrder),
       isActive := input.isActive.GetOr(c.isActive))
  }

  /** An `UPDATE checkin_types ... WHERE id = id`: `f` applied to every row carrying the id. Each table
      module keeps its own, as the schema keeps its projections, over its own row type. */
  function UpdateWhere(types: seq<CheckinType>, id: Id, f: CheckinType -> CheckinType): (r: seq<CheckinType>)
    ensures |r| == |types|
    ensures forall i :: 0 <= i < |types| ==> r[i] == if types[i].id == id then f(types[i]) else types[i]
  {
    seq(|types|, i requires 0 <= i < |types| => if types[i].id == id then f(types[i]) else types[i])
  }

  function UpdateWith(input: UpdateCheckinTypeInput): CheckinType -> CheckinType {
    (c: CheckinType) => ApplyUpdate(c, input)
  }

  /** The name check of `updateCheckinType`: the first row carrying the new name belongs to
      another check-in type. */
  predicate NameHeldElsewhere(types: seq<CheckinType>, input: UpdateCheckinTypeInput) {
    input.name.Some? && input.name.value != [] &&
    var k := CheckinTypeIndexByName(types, input.name.value);
    k < |types| && types[k].id != input.id
  }

  /** `updateCheckinType`: validation, the admin check, the name check, then the update; no
      updated row means the id is unknown. */
  function UpdateSpec(t: Tables, ctx: RequestContext, input: UpdateCheckinTypeInput): (r: (Tables, Response<CheckinType>))
    ensures r.0 == t.(checkinTypes := r.0.checkinTypes)
    ensures !r.1.Answered? ==> r.0 == t
    ensures r.1.Answered? ==> |r.0.checkinTypes| == |t.checkinTypes| && r.1.value.id == input.id && r.1.value in r.0.checkinTypes
  {
    var issues := UpdateIssues(input);
    if issues != [] then (t, InvalidInput(issues))
    else if RequireAdmin(ctx).Err? then (t, Thrown(RequireAdmin(ctx).error))
    else if NameHeldElsewhere(t.checkinTypes, input) then (t, Thrown(NameTaken))
    else
      var i := CheckinTypeIndex(t.checkinTypes, input.id);
      if i == |t.checkinTypes| then (t, Thrown(NotFound))
      else
        var types := UpdateWhere(t.checkinTypes, input.id, UpdateWith(input));
        (t.(checkinTypes := types), Answered(types[i]))
  }

  /** Rewriting the row with the id, with a name no other row holds, keeps every constraint. */
  lemma UpdateKeepsTables(t: Tables, input: UpdateCheckinTypeInput)
    requires TablesOk(t) && !NameHeldElsewhere(t.checkinTypes, input)
    requires input.name.Some? ==> input.name.value != []
    ensures TablesOk(t.(checkinTypes := UpdateWhere(t.checkinTypes, input.id, UpdateWith(input))))
  {
    var types := t.checkinTypes;
    var after := UpdateWhere(types, input.id, UpdateWith(input));
    assert CheckinTypeIds(after) == CheckinTypeIds(types);
    forall i, j | 0 <= i < j < |after| ensures CheckinTypeNames(after)[i] != CheckinTypeNames(after)[j] {
      RenamedApart(types, input, i, j);
      RenamedApart(types, input, j, i);
    }
  }

  /** After the update, a renamed row's name differs from every other row's name. */
  lemma RenamedApart(types: seq<CheckinType>, input: UpdateCheckinTypeInput, i: nat, j: nat)
    requires CheckinTypesOk(types) && !NameHeldElsewhere(types, input)
    requires input.name.Some? ==> input.name.value != []
    requires i < |types| && j < |types| && i != j
    ensures var after := UpdateWhere(types, input.id, UpdateWith(input));
      after[i].name != after[j].name
  {
    var after := UpdateWhere(types, input.id, UpdateWith(input));
    assert CheckinTypeNames(types)[i] != CheckinTypeNames(types)[j];
    assert CheckinTypeIds(types)[i] != CheckinTypeIds(types)[j];
    if types[i].id == input.id && input.name.Some? && types[j].name == input.name.value {
      CheckinTypeIndexByNameFinds(types, j);
    }
  }

  method UpdateCheckinType(db: Store, ctx: RequestContext, input: UpdateCheckinTypeInput) returns (r: Response<CheckinType>)
    requires db.Valid()
    modifies db
    ensures db.Valid()
    ensures (db.Snapshot(), r) == UpdateSpec(old(db.Snapshot()), ctx, input)
  {
    var issues := UpdateIssues(input);
    if issues != [] {
      return InvalidInput(issues);
    }
    var session := RequireAdmin(ctx);
    if session.Err? {
      return Thrown(session.error);
    }
    if input.name.Some? && input.name.value != [] {
      var existing := CheckinTypeIndexByName(db.checkinTypes, input.name.value);
      if existing < |db.checkinTypes| && db.checkinTypes[existing].id != input.id {
        return Thrown(NameTaken);
      }
    }
    var i := CheckinTypeIndex(db.checkinTypes, input.id);
    if i == |db.checkinTypes| {
      return Thrown(NotFound);
    }
    var types := UpdateWhere(db.checkinTypes, input.id, UpdateWith(input));
    UpdateKeepsTables(db.Snapshot(), input);
    db.checkinTypes := types;
    r := Answered(types[i]);
  }

  /** The name check refuses a name held by a different check-in type and only such a name; a
      check-in type may keep its own name. */
  lemma UpdateNameCheck(t: Tables, ctx: RequestContext, input: UpdateCheckinTypeInput)
    requires TablesOk(t) && UpdateIssues(input) == [] && RequireAdmin(ctx).Ok?
    ensures var (after, r) := UpdateSpec(t, ctx, input);
      (r == Thrown(NameTaken) <==>
        input.name.Some? &&
        (exists k :: 0 <= k < |t.checkinTypes| && t.checkinTypes[k].name == input.name.value && t.checkinTypes[k].id != input.id)) &&
      (r == Thrown(NameTaken) ==> after == t)
  {
    var types := t.checkinTypes;
    if input.name.Some? {
      var k := CheckinTypeIndexByName(types, input.name.value);
      forall j | 0 <= j < |types| && types[j].name == input.name.value
        ensures types[j].id != input.id <==> NameHeldElsewhere(types, input)
      {
        CheckinTypeIndexByNameFinds(types, j);
      }
    }
  }

  /** A successful update rewrites exactly the row with the id: it keeps its id, takes every
      provided field and keeps every omitted one; all other rows and tables stay as they were and
      names stay unique. */
  lemma UpdateEffects(t: Tables, ctx: RequestContext, input: UpdateCheckinTypeInput)
    requires TablesOk(t) && UpdateSpec(t, ctx, input).1.Answered?
    ensures var (after, r) := UpdateSpec(t, ctx, input);
      var k := CheckinTypeIndex(t.checkinTypes, input.id);
      var before := t.checkinTypes[k];
      var row := r.value;
      k < |t.checkinTypes| && before.id == input.id && TablesOk(after) &&
      after == t.(checkinTypes := t.checkinTypes[k := row]) &&
      row.id == before.id &&
      row.name == input.name.GetOr(before.name) &&
      (input.category.Some? ==> row.category == CategoryCode(input.category.value)) &&
      (input.category.None? ==> row.category == before.category) &&
      (input.description.Some? ==> row.description == input.description) &&
      (input.description.None? ==> row.description == before.description) &&
      row.displayOrder == input.displayOrder.GetOr(before.displayOrder) &&
      row.isActive == input.isActive.GetOr(before.isActive)
  {
    var k := CheckinTypeIndex(t.checkinTypes, input.id);
    var types := UpdateWhere(t.checkinTypes, input.id, UpdateWith(input));
    UpdateKeepsTables(t, input);
    forall j | 0 <= j < |t.checkinTypes| && j != k ensures types[j] == t.checkinTypes[j] {
      assert CheckinTypeIds(t.checkinTypes)[j] != CheckinTypeIds(t.checkinTypes)[k];
    }
    assert types == t.checkinTypes[k := types[k]];
  }

  /** An update of an unknown id whose name passes the check throws and changes nothing. */
  lemma UpdateUnknownChangesNothing(t: Tables, ctx: RequestContext, input: UpdateCheckinTypeInput)
    requires UpdateIssues(input) == [] && RequireAdmin(ctx).Ok?
    requires input.id !in CheckinTypeIds(t.checkinTypes) && !NameHeldElsewhere(t.checkinTypes, input)
    ensures UpdateSpec(t, ctx, input) == (t, Thrown(NotFound))
  {
    CheckinTypeIndexIn(t.checkinTypes, input.id);
  }

  // ---------------------------------------------------------------- toggleCheckinTypeActive

  function SetActive(active: bool): CheckinType -> CheckinType {
    (c: CheckinType) => c.(isActive := active)
  }

  /** `toggleCheckinTypeActive`: read the row, then set `isActive` to the negation of what was read.
      The handler's second "not found" check follows an update of a row just read and cannot fire
      in this sequential model. */
  function ToggleSpec(t: Tables, ctx: RequestContext, id: string): (r: (Tables, Response<CheckinType>))
    ensures r.0 == t.(checkinTypes := r.0.checkinTypes)
    ensures !r.1.Answered? ==> r.0 == t
    ensures r.1.Answered? ==> |r.0.checkinTypes| == |t.checkinTypes| && r.1.value.id == id && r.1.value in r.0.checkinTypes
  {
    var issues := Credits.IdIssues(id);
    if issues != [] then (t, InvalidInput(issues))
    else if RequireAdmin(ctx).Err? then (t, Thrown(RequireAdmin(ctx).error))
    else
      var i := CheckinTypeIndex(t.checkinTypes, id);
      if i == |t.checkinTypes| then (t, Thrown(NotFound))
      else
        var types := UpdateWhere(t.checkinTypes, id, SetActive(!t.checkinTypes[i].isActive));
        (t.(checkinTypes := types), Answered(types[i]))
  }

  method ToggleCheckinTypeActive(db: Store, ctx: RequestContext, id: string) returns (r: Response<CheckinType>)
    requires db.Valid()
    modifies db
    ensures db.Valid()
    ensures (db.Snapshot(), r) == ToggleSpec(old(db.Snapshot()), ctx, id)
  {
    var issues := Credits.IdIssues(id);
    if issues != [] {
      return InvalidInput(issues);
    }
    var session := RequireAdmin(ctx);
    if session.Err? {
      return Thrown(session.error);
    }
    var i := CheckinTypeIndex(db.checkinTypes, id);
    if i == |db.checkinTypes| {
      return Thrown(NotFound);
    }
    var found := db.checkinTypes[i];
    var types := UpdateWhere(db.checkinTypes, id, SetActive(!found.isActive));
    assert CheckinTypeIds(types) == CheckinTypeIds(db.checkinTypes);
    assert CheckinTypeNames(types) == CheckinTypeNames(db.checkinTypes);
    db.checkinTypes := types;
    r := Answered(types[i]);
  }

  /** A toggle flips the flag of the row with the id and touches nothing else. */
  lemma ToggleFlips(t: Tables, ctx: RequestContext, id: string)
    requires TablesOk(t) && ToggleSpec(t, ctx, id).1.Answered?
    ensures var (after, r) := ToggleSpec(t, ctx, id);
      var k := CheckinTypeIndex(t.checkinTypes, id);
      k < |t.checkinTypes| && r.value == t.checkinTypes[k].(isActive := !t.checkinTypes[k].isActive) &&
      after == t.(checkinTypes := t.checkinTypes[k := r.value])
  {
    var k := CheckinTypeIndex(t.checkinTypes, id);
    var types := ToggleSpec(t, ctx, id).0.checkinTypes;
    forall j | 0 <= j < |t.checkinTypes| && j != k ensures types[j] == t.checkinTypes[j] {
      assert CheckinTypeIds(t.checkinTypes)[j] != CheckinTypeIds(t.checkinTypes)[k];
    }
    assert types == t.checkinTypes[k := types[k]];
  }

  /** Toggling twice restores the tables. */
  lemma ToggleTwiceRestores(t: Tables, ctx: RequestContext, id: string)
    requires TablesOk(t) && ToggleSpec(t, ctx, id).1.Answered?
    ensures ToggleSpec(ToggleSpec(t, ctx, id).0, ctx, id).0 == t
  {
    var once := ToggleSpec(t, ctx, id).0;
    var k := CheckinTypeIndex(t.checkinTypes, id);
    ToggleFlips(t, ctx, id);
    assert CheckinTypeIds(once.checkinTypes) == CheckinTypeIds(t.checkinTypes);
    assert CheckinTypeNames(once.checkinTypes) == CheckinTypeNames(t.checkinTypes);
    CheckinTypeIndexSameIds(t.checkinTypes, once.checkinTypes, id);
    ToggleFlips(once, ctx, id);
    assert once.checkinTypes[k := once.checkinTypes[k].(isActive := !once.checkinTypes[k].isActive)] == t.checkinTypes;
  }

  // ---------------------------------------------------------------- deleteCheckinType

  /** The refusal naming how many records reference the type. */
  function RecordsBlock(n: nat): string {
    "Cannot delete check-in type: " + Text.NatToString(n) + " check-in record(s) exist"
  }

  /** `DELETE FROM checkin_types WHERE id = id`. */
  function RemainingTypes(types: seq<CheckinType>, id: Id): (r: seq<CheckinType>)
    ensures forall k :: 0 <= k < |r| ==> r[k] in types && r[k].id != id
    ensures forall k :: 0 <= k < |types| && types[k].id != id ==> types[k] in r
  {
    Filter(types, (c: CheckinType) => c.id != id)
  }

  /** `deleteCheckinType`: refused while any check-in record references the type; otherwise the
      row is deleted and returned, and a missing row throws. */
  function DeleteSpec(t: Tables, ctx: RequestContext, id: string): (r: (Tables, Response<CheckinType>))
    ensures r.0 == t.(checkinTypes := r.0.checkinTypes)
    ensures !r.1.Answered? ==> r.0 == t
    ensures r.1.Answered? ==> r.1.value in t.checkinTypes && r.1.value.id == id
    ensures r.1.Answered? ==> forall k :: 0 <= k < |r.0.checkinTypes| ==> r.0.checkinTypes[k].id != id
    ensures r.1.Answered? ==> forall k :: 0 <= k < |t.records| ==> t.records[k].checkinTypeId != id
  {
    var issues := Credits.IdIssues(id);
    if issues != [] then (t, InvalidInput(issues))
    else if RequireAdmin(ctx).Err? then (t, Thrown(RequireAdmin(ctx).error))
    else
      var n := Checkin.CountOfType(t.records, id);
      if n > 0 then (t, Thrown(RecordsBlock(n)))
      else
        CountOfTypeZero(t.records, id);
        var i := CheckinTypeIndex(t.checkinTypes, id);
        if i == |t.checkinTypes| then (t, Thrown(NotFound))
        else (t.(checkinTypes := RemainingTypes(t.checkinTypes, id)), Answered(t.checkinTypes[i]))
  }

  /** The count is zero exactly when no record references the type. */
  lemma {:induction false} CountOfTypeZero(records: seq<CheckinRecord>, id: Id)
    ensures Checkin.CountOfType(records, id) == 0 <==> forall k :: 0 <= k < |records| ==> records[k].checkinTypeId != id
    decreases |records|
  {
    if records != [] {
      var n := |records| - 1;
      CountOfTypeZero(records[..n], id);
      assert forall k :: 0 <= k < n ==> records[..n][k] == records[k];
    }
  }

  /** With distinct ids, deleting the row at `k` leaves the rows before and after it, in order. */
  lemma RemainingTypesSlice(types: seq<CheckinType>, id: Id, k: nat)
    requires Distinct(CheckinTypeIds(types)) && k < |types| && types[k].id == id
    ensures RemainingTypes(types, id) == types[..k] + types[k + 1..]
  {
    var keep := (c: CheckinType) => c.id != id;
    forall j | 0 <= j < |types| && j != k ensures keep(types[j]) {
      assert CheckinTypeIds(types)[j] != CheckinTypeIds(types)[k];
    }
    FilterDropsOne(types, keep, k);
  }

  /** Deleting a row keeps the check-in type constraints. */
  lemma RemainingTypesOk(types: seq<CheckinType>, id: Id, serial: nat)
    requires CheckinTypesOk(types) && AllIn(CheckinTypeIds(types), Minted(serial))
    ensures var rest := RemainingTypes(types, id);
      CheckinTypesOk(rest) && AllIn(CheckinTypeIds(rest), Minted(serial))
  {
    var rest := RemainingTypes(types, id);
    var keep := (c: CheckinType) => c.id != id;
    FilterKeepsDistinct(types, keep, (c: CheckinType) => c.id);
    FilterKeepsDistinct(types, keep, (c: CheckinType) => c.name);
    forall i | 0 <= i < |rest| ensures CheckinTypeIds(rest)[i] in Minted(serial) {
      var j :| 0 <= j < |types| && types[j] == rest[i];
      assert CheckinTypeIds(types)[j] in Minted(serial);
    }
  }

  /** Records that do not reference the deleted type still reference remaining types. */
  lemma RemainingTypesKeepRecords(records: seq<CheckinRecord>, types: seq<CheckinType>, id: Id)
    requires forall i :: 0 <= i < |records| ==> records[i].checkinTypeId in CheckinTypeIds(types)
    requires forall i :: 0 <= i < |records| ==> records[i].checkinTypeId != id
    ensures var rest := RemainingTypes(types, id);
      forall i :: 0 <= i < |records| ==> records[i].checkinTypeId in CheckinTypeIds(rest)
  {
    var rest := RemainingTypes(types, id);
    forall i | 0 <= i < |records| ensures records[i].checkinTypeId in CheckinTypeIds(rest) {
      var x := records[i].checkinTypeId;
      var l :| 0 <= l < |types| && CheckinTypeIds(types)[l] == x;
      assert types[l] in rest;
      var m :| 0 <= m < |rest| && rest[m] == types[l];
      assert CheckinTypeIds(rest)[m] == x;
    }
  }

  /** Deleting an unreferenced type keeps every constraint. */
  lemma DeleteKeepsTables(t: Tables, id: Id)
    requires TablesOk(t) && Checkin.CountOfType(t.records, id) == 0
    ensures TablesOk(t.(checkinTypes := RemainingTypes(t.checkinTypes, id)))
  {
    RemainingTypesOk(t.checkinTypes, id, t.serial);
    CountOfTypeZero(t.records, id);
    RemainingTypesKeepRecords(t.records, t.checkinTypes, id);
  }

  method DeleteCheckinType(db: Store, ctx: RequestContext, id: string) returns (r: Response<CheckinType>)
    requires db.Valid()
    modifies db
    ensures db.Valid()
    ensures (db.Snapshot(), r) == DeleteSpec(old(db.Snapshot()), ctx, id)
  {
    var issues := Credits.IdIssues(id);
    if issues != [] {
      return InvalidInput(issues);
    }
    var session := RequireAdmin(ctx);
    if session.Err? {
      return Thrown(session.error);
    }
    var countValue := Checkin.CountOfType(db.records, id);
    if countValue > 0 {
      return Thrown(RecordsBlock(countValue));
    }
    var i := CheckinTypeIndex(db.checkinTypes, id);
    if i == |db.checkinTypes| {
      return Thrown(NotFound);
    }
    var deleted := db.checkinTypes[i];
    DeleteKeepsTables(db.Snapshot(), id);
    db.checkinTypes := RemainingTypes(db.checkinTypes, id);
    r := Answered(deleted);
  }

  /** The guard: once validation and the admin check pass, the deletion is refused, naming the
      count, exactly when some record references the type, and the refusal changes nothing. */
  lemma DeleteGuard(t: Tables, ctx: RequestContext, id: string)
    requires id != [] && RequireAdmin(ctx).Ok?
    ensures var (after, r) := DeleteSpec(t, ctx, id);
      (r == Thrown(RecordsBlock(Checkin.CountOfType(t.records, id))) <==>
        exists k :: 0 <= k < |t.records| && t.records[k].checkinTypeId == id) &&
      (r.Thrown? ==> after == t)
  {
    CountOfTypeZero(t.records, id);
    if Checkin.CountOfType(t.records, id) == 0 {
      assert |NotFound| < |RecordsBlock(0)|;
    }
  }

  /** A successful deletion removes exactly the row with the id, returning it, and keeps every
      other row in order, every other table and every constraint. */
  lemma DeleteEffects(t: Tables, ctx: RequestContext, id: string)
    requires TablesOk(t) && DeleteSpec(t, ctx, id).1.Answered?
    ensures var (after, r) := DeleteSpec(t, ctx, id);
      var k := CheckinTypeIndex(t.checkinTypes, id);
      k < |t.checkinTypes| && r.value == t.checkinTypes[k] && r.value.id == id &&
      after == t.(checkinTypes := t.checkinTypes[..k] + t.checkinTypes[k + 1..]) &&
      TablesOk(after)
  {
    var k := CheckinTypeIndex(t.checkinTypes, id);
    var rest := RemainingTypes(t.checkinTypes, id);
    assert Checkin.CountOfType(t.records, id) == 0 && k < |t.checkinTypes|;
    assert DeleteSpec(t, ctx, id) == (t.(checkinTypes := rest), Answered(t.checkinTypes[k]));
    RemainingTypesSlice(t.checkinTypes, id, k);
    DeleteKeepsTables(t, id);
  }
}
