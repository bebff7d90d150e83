/** Single-row lookups (`findFirst` with an equality filter): the first row in table order that
    matches, or the table length when none does. */
module Lookup {
  import opened Schema

  /** The index of the first element satisfying `p`, or `|s|`. */
  function FindIndex<T>(s: seq<T>, p: T -> bool): (i: nat)
    ensures i <= |s|
    ensures i < |s| ==> p(s[i])
    ensures forall k :: 0 <= k < i ==> !p(s[k])
    decreases |s|
  {
    if s == [] then 0 else if p(s[0]) then 0 else 1 + FindIndex(s[1..], p)
  }

  /** When exactly one element matches, the lookup finds it. */
  lemma FindIndexUnique<T>(s: seq<T>, p: T -> bool, k: nat)
    requires k < |s| && p(s[k])
    requires forall j :: 0 <= j < |s| && p(s[j]) ==> j == k
    ensures FindIndex(s, p) == k
  {
  }

  function UserIndex(users: seq<User>, id: Id): nat {
    FindIndex(users, (u: User) => u.id == id)
  }

  function UserIndexByEmail(users: seq<User>, email: string): nat {
    FindIndex(users, (u: User) => u.email == email)
  }

  function CreditTypeIndex(types: seq<CreditType>, id: Id): nat {
    FindIndex(types, (t: CreditType) => t.id == id)
  }

  function CreditTypeIndexByName(types: seq<CreditType>, name: string): nat {
    FindIndex(types, (t: CreditType) => t.name == name)
  }

  function CodeIndex(codes: seq<Code>, id: Id): nat {
    FindIndex(codes, (c: Code) => c.id == id)
  }

  function CheckinTypeIndex(types: seq<CheckinType>, id: Id): nat {
    FindIndex(types, (t: CheckinType) => t.id == id)
  }

  function CheckinTypeIndexByName(types: seq<CheckinType>, name: string): nat {
    FindIndex(types, (t: CheckinType) => t.name == name)
  }

  /** The record of participant `participantId` for check-in type `typeId`. */
  function RecordIndex(records: seq<CheckinRecord>, typeId: Id, participantId: Id): nat {
    FindIndex(records, (r: CheckinRecord) => r.checkinTypeId == typeId && r.participantId == participantId)
  }

  /** A user id that occurs in the table is found at the row that carries it. */
  lemma UserIndexFinds(users: seq<User>, k: nat)
    requires Distinct(UserIds(users)) && k < |users|
    ensures UserIndex(users, users[k].id) == k
  {
    var p := (u: User) => u.id == users[k].id;
    forall j | 0 <= j < |users| && p(users[j]) ensures j == k {
      assert UserIds(users)[j] == UserIds(users)[k];
    }
    FindIndexUnique(users, p, k);
  }

  lemma UserIndexIn(users: seq<User>, id: Id)
    ensures UserIndex(users, id) < |users| <==> id in UserIds(users)
  {
    if id in UserIds(users) {
      var k :| 0 <= k < |users| && UserIds(users)[k] == id;
      assert users[k].id == id;
    }
  }

  /** With one record per (type, participant), the record lookup finds the only record with that key. */
  lemma RecordIndexFinds(records: seq<CheckinRecord>, k: nat)
    requires Distinct(RecordKeys(records)) && k < |records|
    ensures RecordIndex(records, records[k].checkinTypeId, records[k].participantId) == k
  {
    var p := (r: CheckinRecord) => r.checkinTypeId == records[k].checkinTypeId && r.participantId == records[k].participantId;
    forall j | 0 <= j < |records| && p(records[j]) ensures j == k {
      assert RecordKeys(records)[j] == RecordKeys(records)[k];
    }
    FindIndexUnique(records, p, k);
  }

  lemma CheckinTypeIndexIn(types: seq<CheckinType>, id: Id)
    ensures CheckinTypeIndex(types, id) < |types| <==> id in CheckinTypeIds(types)
  {
    if id in CheckinTypeIds(types) {
      var k :| 0 <= k < |types| && CheckinTypeIds(types)[k] == id;
      assert types[k].id == id;
    }
  }

  /** A check-in type id that occurs once is found at the row that carries it. */
  lemma CheckinTypeIndexFinds(types: seq<CheckinType>, k: nat)
    requires Distinct(CheckinTypeIds(types)) && k < |types|
    ensures CheckinTypeIndex(types, types[k].id) == k
  {
    var p := (c: CheckinType) => c.id == types[k].id;
    forall j | 0 <= j < |types| && p(types[j]) ensures j == k {
      assert CheckinTypeIds(types)[j] == CheckinTypeIds(types)[k];
    }
    FindIndexUnique(types, p, k);
  }

  lemma CreditTypeIndexByNameIn(types: seq<CreditType>, name: string)
    ensures CreditTypeIndexByName(types, name) < |types| <==> name in CreditTypeNames(types)
  {
    if name in CreditTypeNames(types) {
      var k :| 0 <= k < |types| && CreditTypeNames(types)[k] == name;
      assert types[k].name == name;
    }
  }

  /** Tables with the same id column give the same lookup result. */
  lemma CreditTypeIndexSameIds(a: seq<CreditType>, b: seq<CreditType>, id: Id)
    requires CreditTypeIds(a) == CreditTypeIds(b)
    ensures CreditTypeIndex(a, id) == CreditTypeIndex(b, id)
    decreases |a|
  {
    if a != [] {
      assert CreditTypeIds(a[1..]) == CreditTypeIds(a)[1..];
      assert CreditTypeIds(b[1..]) == CreditTypeIds(b)[1..];
      assert a[0].id == CreditTypeIds(a)[0];
      CreditTypeIndexSameIds(a[1..], b[1..], id);
    }
  }

  lemma CreditTypeIndexIn(types: seq<CreditType>, id: Id)
    ensures CreditTypeIndex(types, id) < |types| <==> id in CreditTypeIds(types)
  {
    if id in CreditTypeIds(types) {
      var k :| 0 <= k < |types| && CreditTypeIds(types)[k] == id;
      assert types[k].id == id;
    }
  }

  lemma CodeIndexSameIds(a: seq<Code>, b: seq<Code>, id: Id)
    requires CodeIds(a) == CodeIds(b)
    ensures CodeIndex(a, id) == CodeIndex(b, id)
    decreases |a|
  {
    if a != [] {
      assert CodeIds(a[1..]) == CodeIds(a)[1..];
      assert CodeIds(b[1..]) == CodeIds(b)[1..];
      assert a[0].id == CodeIds(a)[0];
      CodeIndexSameIds(a[1..], b[1..], id);
    }
  }

  lemma UserIndexSameIds(a: seq<User>, b: seq<User>, id: Id)
    requires UserIds(a) == UserIds(b)
    ensures UserIndex(a, id) == UserIndex(b, id)
    decreases |a|
  {
    if a != [] {
      assert UserIds(a[1..]) == UserIds(a)[1..];
      assert UserIds(b[1..]) == UserIds(b)[1..];
      assert a[0].id == UserIds(a)[0];
      UserIndexSameIds(a[1..], b[1..], id);
    }
  }

  /** A check-in type name that occurs once is found at the row that carries it. */
  lemma CheckinTypeIndexByNameFinds(types: seq<CheckinType>, k: nat)
    requires Distinct(CheckinTypeNames(types)) && k < |types|
    ensures CheckinTypeIndexByName(types, types[k].name) == k
  {
    var p := (c: CheckinType) => c.name == types[k].name;
    forall j | 0 <= j < |types| && p(types[j]) ensures j == k {
      assert CheckinTypeNames(types)[j] == CheckinTypeNames(types)[k];
    }
    FindIndexUnique(types, p, k);
  }

  lemma CheckinTypeIndexByNameIn(types: seq<CheckinType>, name: string)
    ensures CheckinTypeIndexByName(types, name) < |types| <==> name in CheckinTypeNames(types)
  {
    if name in CheckinTypeNames(types) {
      var k :| 0 <= k < |types| && CheckinTypeNames(types)[k] == name;
      assert types[k].name == name;
    }
  }

  lemma CheckinTypeIndexSameIds(a: seq<CheckinType>, b: seq<CheckinType>, id: Id)
    requires CheckinTypeIds(a) == CheckinTypeIds(b)
    ensures CheckinTypeIndex(a, id) == CheckinTypeIndex(b, id)
    decreases |a|
  {
    if a != [] {
      assert CheckinTypeIds(a[1..]) == CheckinTypeIds(a)[1..];
      assert CheckinTypeIds(b[1..]) == CheckinTypeIds(b)[1..];
      assert a[0].id == CheckinTypeIds(a)[0];
      CheckinTypeIndexSameIds(a[1..], b[1..], id);
    }
  }

  lemma UserIndexByEmailIn(users: seq<User>, email: string)
    ensures UserIndexByEmail(users, email) < |users| <==> email in Emails(users)
  {
    if email in Emails(users) {
      var k :| 0 <= k < |users| && Emails(users)[k] == email;
      assert users[k].email == email;
    }
  }
}
