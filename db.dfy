/** The database the API handlers share: the five tables as sequences of rows in table order,
    and the identifier generator's serial number. */
module Db {
  import opened Wrappers
  import opened Constant
  import opened Schema

  /** Rows per INSERT statement when codes are written in chunks. */
  const BatchSize: nat := 100

  class Store {
    var users: seq<User>
    var creditTypes: seq<CreditType>
    var codes: seq<Code>
    var checkinTypes: seq<CheckinType>
    var records: seq<CheckinRecord>
    /** How many identifiers have been minted so far. */
    var serial: nat

    /** The tables as a value. */
    function Snapshot(): Tables
      reads this
    {
      Tables(users, creditTypes, codes, checkinTypes, records, serial)
    }

    ghost predicate Valid()
      reads this
    {
      TablesOk(Snapshot())
    }

    constructor ()
      ensures Valid()
      ensures users == [] && creditTypes == [] && codes == [] && checkinTypes == [] && records == []
    {
      users, creditTypes, codes, checkinTypes, records := [], [], [], [], [];
      serial := 0;
    }

    /** Generates a fresh identifier. */
    method Mint() returns (id: Id)
      requires Valid()
      modifies this
      ensures Valid()
      ensures id == MintId(old(serial)) && id !in Minted(old(serial))
      ensures serial == old(serial) + 1
      ensures users == old(users) && creditTypes == old(creditTypes) && codes == old(codes)
      ensures checkinTypes == old(checkinTypes) && records == old(records)
    {
      id := MintId(serial);
      MintedFresh(serial, 0);
      MintedGrows(serial, serial + 1);
      serial := serial + 1;
    }

    /** Inserts `rows` into the codes table in chunks of `BatchSize` rows, one statement per chunk.
        A statement is applied only if the table it produces satisfies the codes table's constraints;
        the first statement that would violate one fails, leaving the earlier chunks committed
        (there is no enclosing transaction). */
    method InsertCodesInBatches(rows: seq<NewCode>) returns (ok: bool, ghost committed: nat)
      requires Valid()
      requires forall k :: 0 <= k < |rows| ==> rows[k].status == Unassigned
      modifies this
      ensures Valid()
      ensures serial == old(serial) + |rows|
      ensures users == old(users) && creditTypes == old(creditTypes)
      ensures checkinTypes == old(checkinTypes) && records == old(records)
      ensures committed <= |rows|
      ensures codes == old(codes) + CodeRows(rows, old(serial))[..committed]
      ensures ok <==> committed == |rows|
      ensures !ok ==> committed % BatchSize == 0
      // every chunk goes through when the whole insert keeps the constraints
      ensures CodesOk(old(codes) + CodeRows(rows, old(serial)), creditTypes, users) ==> ok
      // a failing first chunk leaves the table as it was
      ensures |rows| > 0 && !CodesOk(old(codes) + CodeRows(rows, old(serial))[..Min(BatchSize, |rows|)], creditTypes, users)
        ==> !ok && codes == old(codes)
    {
      var all := CodeRows(rows, serial);
      FreshRowsMinted(rows, serial);
      var next := serial + |rows|;
      MintedGrows(serial, next);
      AllInGrows(CodeIds(codes), serial, next);
      var table;
      table, ok, committed := ChunkedInsert(codes, all, creditTypes, users);
      PrefixMinted(all, committed, next);
      AppendKeepsMinted(codes, all[..committed], next);
      AppendKeepsPool(codes, all[..committed]);
      codes := table;
      serial := next;
      AllInGrows(UserIds(users), old(serial), next);
      AllInGrows(CreditTypeIds(creditTypes), old(serial), next);
      AllInGrows(CheckinTypeIds(checkinTypes), old(serial), next);
      AllInGrows(RecordIds(records), old(serial), next);
    }
  }

  /** The chunked multi-statement insert of the already materialised rows `all` into `table`:
      returns the resulting table, whether every statement succeeded, and how many rows were
      committed. A statement is applied only if the table it produces keeps the codes table's
      constraints. */
  method ChunkedInsert(table: seq<Code>, all: seq<Code>, types: seq<CreditType>, users: seq<User>)
    returns (result: seq<Code>, ok: bool, committed: nat)
    requires CodesOk(table, types, users)
    ensures committed <= |all| && result == table + all[..committed]
    ensures ok <==> committed == |all|
    ensures !ok ==> committed % BatchSize == 0
    ensures CodesOk(result, types, users)
    ensures CodesOk(table + all, types, users) ==> ok
    ensures |all| > 0 && !CodesOk(table + all[..Min(BatchSize, |all|)], types, users) ==> !ok && committed == 0
  {
    result := table;
    var i := 0;
    ok := true;
    while i < |all| && ok
      invariant 0 <= i <= |all|
      invariant result == table + all[..i]
      invariant CodesOk(result, types, users)
      invariant i % BatchSize == 0 || i == |all|
      invariant i > 0 ==> CodesOk(table + all[..Min(BatchSize, |all|)], types, users)
      invariant !ok ==> i < |all| && !CodesOk(table + all[..Min(i + BatchSize, |all|)], types, users)
      decreases |all| - i, ok
    {
      var end := Min(i + BatchSize, |all|);
      assert table + all[..end] == result + all[i..end];
      if CodesOk(result + all[i..end], types, users) {
        result := result + all[i..end];
        i := end;
      } else {
        ok := false;
      }
    }
    committed := i;
    if !ok && CodesOk(table + all, types, users) {
      CodesOkPrefix(table, all, Min(i + BatchSize, |all|), types, users);
      assert false;
    }
  }

  function Min(a: nat, b: nat): (r: nat)
    ensures r <= a && r <= b && (r == a || r == b)
  {
    if a <= b then a else b
  }

  /** The minted rows carry identifiers from the range `[from, from + |rows|)`. */
  lemma FreshRowsMinted(rows: seq<NewCode>, from: nat)
    ensures AllIn(CodeIds(CodeRows(rows, from)), Minted(from + |rows|))
  {
    var r := CodeRows(rows, from);
    forall k | 0 <= k < |r| ensures CodeIds(r)[k] in Minted(from + |rows|) {
      assert CodeIds(r)[k] == MintId(from + k);
    }
  }

  /** The constraints of the codes table hold of every prefix of a table that satisfies them. */
  lemma CodesOkPrefix(codes: seq<Code>, extra: seq<Code>, n: nat, types: seq<CreditType>, users: seq<User>)
    requires n <= |extra|
    requires CodesOk(codes + extra, types, users)
    ensures CodesOk(codes + extra[..n], types, users)
  {
    var whole := codes + extra;
    var part := codes + extra[..n];
    assert part == whole[..|codes| + n];
    assert CodeIds(part) == CodeIds(whole)[..|codes| + n];
    assert CodeKeys(part) == CodeKeys(whole)[..|codes| + n];
    DistinctPrefix(CodeIds(whole), |codes| + n);
    DistinctPrefix(CodeKeys(whole), |codes| + n);
  }

  lemma AppendKeepsPool(codes: seq<Code>, extra: seq<Code>)
    requires PoolInvariant(codes)
    requires forall k :: 0 <= k < |extra| ==> extra[k].status == Unassigned && extra[k].assignedTo.None? && extra[k].assignedAt.None?
    ensures PoolInvariant(codes + extra)
  {
  }

  lemma AllInGrows(ids: seq<Id>, a: nat, b: nat)
    requires a <= b && AllIn(ids, Minted(a))
    ensures AllIn(ids, Minted(b))
  {
    MintedGrows(a, b);
  }

  lemma PrefixMinted(all: seq<Code>, n: nat, serial: nat)
    requires n <= |all| && AllIn(CodeIds(all), Minted(serial))
    ensures AllIn(CodeIds(all[..n]), Minted(serial))
  {
    assert forall k :: 0 <= k < n ==> CodeIds(all[..n])[k] == CodeIds(all)[k];
  }

  lemma AppendKeepsMinted(codes: seq<Code>, extra: seq<Code>, serial: nat)
    requires AllIn(CodeIds(codes), Minted(serial))
    requires AllIn(CodeIds(extra), Minted(serial))
    ensures AllIn(CodeIds(codes + extra), Minted(serial))
  {
    var t := codes + extra;
    forall k | 0 <= k < |t| ensures CodeIds(t)[k] in Minted(serial) {
      if k >= |codes| {
        assert CodeIds(extra)[k - |codes|] in Minted(serial);
      } else {
        assert CodeIds(codes)[k] in Minted(serial);
      }
    }
  }

  /** The `(credit_type_id, code_value)` keys of rows about to be inserted. */
  function NewCodeKeys(rows: seq<NewCode>): (r: seq<(Id, string)>)
    ensures |r| == |rows| && forall k :: 0 <= k < |rows| ==> r[k] == (rows[k].creditTypeId, rows[k].codeValue)
  {
    seq(|rows|, k requires 0 <= k < |rows| => (rows[k].creditTypeId, rows[k].codeValue))
  }

  /** Inserting rows of existing credit types whose keys are pairwise distinct and not yet stored,
      with freshly minted identifiers and no owner, keeps the codes table's constraints. */
  lemma NewRowsKeepCodesOk(codes: seq<Code>, rows: seq<NewCode>, serial: nat, types: seq<CreditType>, users: seq<User>)
    requires CodesOk(codes, types, users) && AllIn(CodeIds(codes), Minted(serial))
    requires forall k :: 0 <= k < |rows| ==> rows[k].creditTypeId in CreditTypeIds(types)
    requires Distinct(NewCodeKeys(rows))
    requires forall k :: 0 <= k < |rows| ==> NewCodeKeys(rows)[k] !in CodeKeys(codes)
    ensures CodesOk(codes + CodeRows(rows, serial), types, users)
  {
    var extra := CodeRows(rows, serial);
    var all := codes + extra;
    assert CodeIds(all) == CodeIds(codes) + CodeIds(extra);
    assert CodeKeys(all) == CodeKeys(codes) + CodeKeys(extra);
    assert CodeKeys(extra) == NewCodeKeys(rows);
    forall i, j | 0 <= i < j < |extra| ensures CodeIds(extra)[i] != CodeIds(extra)[j] {
      if CodeIds(extra)[i] == CodeIds(extra)[j] {
        MintIdInjective(serial + i, serial + j);
      }
    }
    forall x | x in CodeIds(extra) ensures x !in CodeIds(codes) {
      var k :| 0 <= k < |extra| && CodeIds(extra)[k] == x;
      MintedFresh(serial, k);
      forall i | 0 <= i < |codes| ensures CodeIds(codes)[i] != x {
        assert CodeIds(codes)[i] in Minted(serial);
      }
    }
    DistinctAppend(CodeIds(codes), CodeIds(extra));
    DistinctAppend(CodeKeys(codes), CodeKeys(extra));
  }
}
