/** The code claim a first-attendance check-in of a regular participant performs
    (apps/web/src/apis/ops/checkin.ts): the active credit types are visited in ascending display
    order, and for each one the first code of that type that is unassigned and has no owner is
    handed to the participant. A type whose pool is empty is skipped. */
module Claims {
  import opened Wrappers
  import opened Constant
  import opened Schema
  import opened Ordering

  /** A code nobody holds: status unassigned and no owner. */
  predicate IsFree(c: Code) {
    c.status == Unassigned && c.assignedTo.None?
  }

  /** The row update of a claim: owner, assignment time and status "available". */
  function Assign(c: Code, participantId: Id, now: Time): Code {
    c.(assignedTo := Some(participantId), assignedAt := Some(now), status := Available)
  }

  /** The row `SELECT ... WHERE credit_type_id = typeId AND status = 'unassigned' AND assigned_to IS
      NULL LIMIT 1` returns: the first matching row in table order, or `|codes|` when none matches. */
  function FirstFree(codes: seq<Code>, typeId: Id): (i: nat)
    ensures i <= |codes|
    ensures i < |codes| ==> codes[i].creditTypeId == typeId && IsFree(codes[i])
    ensures forall k :: 0 <= k < i ==> !(codes[k].creditTypeId == typeId && IsFree(codes[k]))
  {
    if codes == [] then 0
    else if codes[0].creditTypeId == typeId && IsFree(codes[0]) then 0
    else 1 + FirstFree(codes[1..], typeId)
  }

  /** The pool of credit type `typeId` still holds a free code. */
  predicate HasFree(codes: seq<Code>, typeId: Id) {
    exists k :: 0 <= k < |codes| && codes[k].creditTypeId == typeId && IsFree(codes[k])
  }

  lemma FirstFreeFound(codes: seq<Code>, typeId: Id)
    ensures FirstFree(codes, typeId) < |codes| <==> HasFree(codes, typeId)
  {
  }

  /** An entry of `assignedCodes`: the credit type and the code row as the claim query read it. */
  datatype AssignedCode = AssignedCode(creditType: CreditType, code: Code)

  /** The codes table after a run of claims, and the claims made, in order. */
  datatype ClaimRun = ClaimRun(codes: seq<Code>, claimed: seq<AssignedCode>)

  /** The claims made while visiting `types` in order. */
  function ClaimAll(codes: seq<Code>, types: seq<CreditType>, participantId: Id, now: Time): (r: ClaimRun)
    ensures |r.codes| == |codes| && |r.claimed| <= |types|
    decreases |types|
  {
    if types == [] then ClaimRun(codes, [])
    else
      var prev := ClaimAll(codes, types[..|types| - 1], participantId, now);
      var creditType := types[|types| - 1];
      var i := FirstFree(prev.codes, creditType.id);
      if i < |prev.codes| then
        ClaimRun(prev.codes[i := Assign(prev.codes[i], participantId, now)],
               prev.claimed + [AssignedCode(creditType, prev.codes[i])])
      else prev
  }

  /** The active credit types, in table order. */
  function ActiveCreditTypes(types: seq<CreditType>): (r: seq<CreditType>)
    ensures |r| <= |types|
    ensures forall t :: t in r <==> t in types && t.isActive
    decreases |types|
  {
    if types == [] then []
    else
      var last := types[|types| - 1];
      ActiveCreditTypes(types[..|types| - 1]) + (if last.isActive then [last] else [])
  }

  function DisplayOrderKey(t: CreditType): int {
    t.displayOrder
  }

  /** `SELECT * FROM credit_types WHERE is_active ORDER BY display_order`: the order the claim
      loop visits the credit types in. */
  function VisitOrder(types: seq<CreditType>): seq<CreditType> {
    SortBy(ActiveCreditTypes(types), DisplayOrderKey)
  }

  /** The credit types of the claims, in claim order. */
  function ClaimedTypes(claimed: seq<AssignedCode>): (r: seq<CreditType>)
    ensures |r| == |claimed| && forall j :: 0 <= j < |r| ==> r[j] == claimed[j].creditType
  {
    seq(|claimed|, j requires 0 <= j < |claimed| => claimed[j].creditType)
  }

  /** The credit types of `types`, in order, whose pool holds a free code. */
  function TypesWithFree(codes: seq<Code>, types: seq<CreditType>): seq<CreditType>
    decreases |types|
  {
    if types == [] then []
    else
      var last := types[|types| - 1];
      TypesWithFree(codes, types[..|types| - 1]) + (if HasFree(codes, last.id) then [last] else [])
  }

  /** `for (const creditType of activeCreditTypes)`: the claim loop, on the transaction's view of
      the codes table. */
  method ClaimCodes(codes: seq<Code>, activeCreditTypes: seq<CreditType>, participantId: Id, now: Time)
    returns (table: seq<Code>, assignedCodes: seq<AssignedCode>, codesAssigned: nat)
    ensures ClaimRun(table, assignedCodes) == ClaimAll(codes, activeCreditTypes, participantId, now)
    ensures codesAssigned == |assignedCodes|
  {
    table, assignedCodes, codesAssigned := codes, [], 0;
    for i := 0 to |activeCreditTypes|
      invariant ClaimRun(table, assignedCodes) == ClaimAll(codes, activeCreditTypes[..i], participantId, now)
      invariant codesAssigned == |assignedCodes|
    {
      var creditType := activeCreditTypes[i];
      assert activeCreditTypes[..i + 1][..i] == activeCreditTypes[..i];
      var k := FirstFree(table, creditType.id);
      if k < |table| {
        var code := table[k];
        table := table[k := Assign(code, participantId, now)];
        assignedCodes := assignedCodes + [AssignedCode(creditType, code)];
        codesAssigned := codesAssigned + 1;
      }
      // otherwise the pool is exhausted: a warning is logged and the loop goes on
    }
    assert activeCreditTypes[..|activeCreditTypes|] == activeCreditTypes;
  }

  // ---------------------------------------------------------------- properties of the claim

  lemma IdsPrefix(types: seq<CreditType>, n: nat)
    requires n <= |types|
    ensures CreditTypeIds(types[..n]) == CreditTypeIds(types)[..n]
  {
  }

  /** The claims change only free codes of visited credit types, and each such code only by
      handing it to the participant; every other code (other participants' codes, codes of
      inactive or unvisited types) is left as it was. */
  lemma {:induction false} ClaimAllFrame(codes: seq<Code>, types: seq<CreditType>, participantId: Id, now: Time)
    ensures |ClaimAll(codes, types, participantId, now).codes| == |codes|
    ensures forall k :: 0 <= k < |codes| ==>
      var after := ClaimAll(codes, types, participantId, now).codes[k];
      after == codes[k] ||
      (IsFree(codes[k]) && codes[k].creditTypeId in CreditTypeIds(types) && after == Assign(codes[k], participantId, now))
    decreases |types|
  {
    if types != [] {
      var init := types[..|types| - 1];
      ClaimAllFrame(codes, init, participantId, now);
      IdsPrefix(types, |types| - 1);
      assert forall x :: x in CreditTypeIds(init) ==> x in CreditTypeIds(types);
      assert types[|types| - 1].id == CreditTypeIds(types)[|types| - 1];
    }
  }

  /** Each claim took a code that was free in the table before the check-in and belongs to the
      claimed type; afterwards that code is held by the participant with status "available". At
      most one code is claimed per visited type. */
  lemma {:induction false} ClaimAllAssigned(codes: seq<Code>, types: seq<CreditType>, participantId: Id, now: Time)
    ensures |ClaimAll(codes, types, participantId, now).claimed| <= |types|
    ensures forall j :: 0 <= j < |ClaimAll(codes, types, participantId, now).claimed| ==>
      var a := ClaimAll(codes, types, participantId, now).claimed[j];
      a.code in codes && IsFree(a.code) && a.code.creditTypeId == a.creditType.id &&
      Assign(a.code, participantId, now) in ClaimAll(codes, types, participantId, now).codes
    decreases |types|
  {
    if types != [] {
      var init := types[..|types| - 1];
      var prev := ClaimAll(codes, init, participantId, now);
      ClaimAllAssigned(codes, init, participantId, now);
      ClaimAllFrame(codes, init, participantId, now);
      var creditType := types[|types| - 1];
      var i := FirstFree(prev.codes, creditType.id);
      if i < |prev.codes| {
        var next := prev.codes[i := Assign(prev.codes[i], participantId, now)];
        assert prev.codes[i] == codes[i];
        forall j | 0 <= j < |prev.claimed|
          ensures Assign(prev.claimed[j].code, participantId, now) in next
        {
          var c := Assign(prev.claimed[j].code, participantId, now);
          var k :| 0 <= k < |prev.codes| && prev.codes[k] == c;
          assert next[k] == c;
        }
        assert next[i] == Assign(prev.codes[i], participantId, now);
      }
    }
  }

  /** With distinct credit type ids, the types that receive a claim are exactly the visited types
      whose pool holds a free code, in visiting order: every type with a free code yields one, and
      an empty pool is skipped. */
  lemma {:induction false} ClaimedTypesExactly(codes: seq<Code>, types: seq<CreditType>, participantId: Id, now: Time)
    requires Distinct(CreditTypeIds(types))
    ensures ClaimedTypes(ClaimAll(codes, types, participantId, now).claimed) == TypesWithFree(codes, types)
    decreases |types|
  {
    if types != [] {
      var n := |types| - 1;
      var init := types[..n];
      var prev := ClaimAll(codes, init, participantId, now);
      var creditType := types[n];
      IdsPrefix(types, n);
      DistinctPrefix(CreditTypeIds(types), n);
      ClaimedTypesExactly(codes, init, participantId, now);
      ClaimAllFrame(codes, init, participantId, now);
      assert creditType.id !in CreditTypeIds(init) by {
        forall k | 0 <= k < n ensures CreditTypeIds(init)[k] != creditType.id {
          assert CreditTypeIds(types)[k] != CreditTypeIds(types)[n];
        }
      }
      assert HasFree(prev.codes, creditType.id) <==> HasFree(codes, creditType.id) by {
        if HasFree(prev.codes, creditType.id) {
          var k :| 0 <= k < |prev.codes| && prev.codes[k].creditTypeId == creditType.id && IsFree(prev.codes[k]);
          assert prev.codes[k] == codes[k];
        }
        if HasFree(codes, creditType.id) {
          var k :| 0 <= k < |codes| && codes[k].creditTypeId == creditType.id && IsFree(codes[k]);
          assert prev.codes[k] == codes[k];
        }
      }
      FirstFreeFound(prev.codes, creditType.id);
      var i := FirstFree(prev.codes, creditType.id);
      if i < |prev.codes| {
        assert ClaimedTypes(prev.claimed + [AssignedCode(creditType, prev.codes[i])])
            == ClaimedTypes(prev.claimed) + [creditType];
      }
    }
  }

  /** A claim run keeps the codes table's constraints and the pool invariant: ids and
      (type, value) pairs are untouched, and the new owner is a user. */
  lemma ClaimAllKeepsConstraints(codes: seq<Code>, visited: seq<CreditType>, tableTypes: seq<CreditType>,
                                 users: seq<User>, participantId: Id, now: Time)
    requires CodesOk(codes, tableTypes, users) && PoolInvariant(codes)
    requires participantId in UserIds(users)
    ensures CodeIds(ClaimAll(codes, visited, participantId, now).codes) == CodeIds(codes)
    ensures CodeKeys(ClaimAll(codes, visited, participantId, now).codes) == CodeKeys(codes)
    ensures CodesOk(ClaimAll(codes, visited, participantId, now).codes, tableTypes, users)
    ensures PoolInvariant(ClaimAll(codes, visited, participantId, now).codes)
  {
    ClaimAllFrame(codes, visited, participantId, now);
    var after := ClaimAll(codes, visited, participantId, now).codes;
    assert CodeIds(after) == CodeIds(codes);
    assert CodeKeys(after) == CodeKeys(codes);
  }

  // ---------------------------------------------------------------- the visiting order

  /** The visited types are the active ones, each once, in ascending display order. */
  lemma VisitOrderShape(types: seq<CreditType>)
    ensures SortedBy(VisitOrder(types), DisplayOrderKey)
    ensures forall t :: t in VisitOrder(types) <==> t in types && t.isActive
    ensures Distinct(CreditTypeIds(types)) ==> Distinct(CreditTypeIds(VisitOrder(types)))
  {
    forall t ensures t in VisitOrder(types) <==> t in ActiveCreditTypes(types) {
      SortByMembers(ActiveCreditTypes(types), DisplayOrderKey, t);
    }
    if Distinct(CreditTypeIds(types)) {
      ActiveKeepsDistinct(types);
      SameRowsKeepDistinct(ActiveCreditTypes(types), VisitOrder(types));
    }
  }

  lemma {:induction false} ActiveKeepsDistinct(types: seq<CreditType>)
    requires Distinct(CreditTypeIds(types))
    ensures Distinct(CreditTypeIds(ActiveCreditTypes(types)))
    decreases |types|
  {
    if types != [] {
      var n := |types| - 1;
      var init := types[..n];
      IdsPrefix(types, n);
      DistinctPrefix(CreditTypeIds(types), n);
      ActiveKeepsDistinct(init);
      var a := ActiveCreditTypes(init);
      if types[n].isActive {
        assert ActiveCreditTypes(types) == a + [types[n]];
        forall k | 0 <= k < |a| ensures a[k].id != types[n].id {
          assert a[k] in init;
          var p :| 0 <= p < n && init[p] == a[k];
          assert CreditTypeIds(types)[p] != CreditTypeIds(types)[n];
        }
        AppendNewIdDistinct(a, types[n]);
      } else {
        assert ActiveCreditTypes(types) == a;
      }
    }
  }

  lemma AppendNewIdDistinct(a: seq<CreditType>, x: CreditType)
    requires Distinct(CreditTypeIds(a)) && forall k :: 0 <= k < |a| ==> a[k].id != x.id
    ensures Distinct(CreditTypeIds(a + [x]))
  {
    var r := a + [x];
    forall i, j | 0 <= i < j < |r| ensures CreditTypeIds(r)[i] != CreditTypeIds(r)[j] {
      assert r[i] == a[i];
      if j < |a| {
        assert r[j] == a[j];
        assert CreditTypeIds(a)[i] != CreditTypeIds(a)[j];
      }
    }
  }

  /** Reordering rows keeps their ids distinct. */
  lemma SameRowsKeepDistinct(s: seq<CreditType>, r: seq<CreditType>)
    requires multiset(r) == multiset(s) && Distinct(CreditTypeIds(s))
    ensures Distinct(CreditTypeIds(r))
  {
    forall i, j | 0 <= i < j < |r| ensures CreditTypeIds(r)[i] != CreditTypeIds(r)[j] {
      assert r[i] in multiset(s) && r[j] in multiset(s);
      var p :| 0 <= p < |s| && s[p] == r[i];
      var q :| 0 <= q < |s| && s[q] == r[j];
      if r[i] == r[j] {
        RepeatCount(r, i, j);
        DistinctRowsCount(s, r[i]);
      } else {
        assert p != q;
        assert CreditTypeIds(s)[p] != CreditTypeIds(s)[q];
      }
    }
  }

  lemma {:induction false} DistinctRowsCount(s: seq<CreditType>, x: CreditType)
    requires Distinct(CreditTypeIds(s))
    ensures multiset(s)[x] <= 1
    decreases |s|
  {
    if s != [] {
      var n := |s| - 1;
      IdsPrefix(s, n);
      DistinctPrefix(CreditTypeIds(s), n);
      DistinctRowsCount(s[..n], x);
      assert s == s[..n] + [s[n]];
      if x == s[n] {
        assert forall p :: 0 <= p < n ==> CreditTypeIds(s)[p] != CreditTypeIds(s)[n];
        assert x !in s[..n];
      }
    }
  }

  lemma RepeatCount<T>(r: seq<T>, i: nat, j: nat)
    requires i < j < |r| && r[i] == r[j]
    ensures multiset(r)[r[i]] >= 2
  {
    assert r == r[..j] + r[j..];
    assert r[i] == r[..j][i];
    assert r[j] == r[j..][0];
    assert multiset(r) == multiset(r[..j]) + multiset(r[j..]);
  }
}
