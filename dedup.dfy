/** The two-level de-duplication shared by the bulk imports of codes and of participants:
    a key already stored is skipped first, then a key seen earlier in the same file; the first
    occurrence of every other key is accepted. */
module Dedup {
  import opened Schema

  datatype Decision = Accept | SkipExisting | SkipDuplicate

  /** One skipped input row: its position, its key and why it was skipped. */
  datatype Skip<K> = Skip(index: nat, key: K, reason: Decision)

  /** The decision for key `v` when `existing` holds the stored keys and `earlier` the keys of the
      rows before it in the file. */
  function Decide<K(==)>(existing: set<K>, earlier: seq<K>, v: K): (d: Decision)
    ensures d == SkipExisting <==> v in existing
    ensures d == SkipDuplicate <==> v !in existing && v in earlier
    ensures d == Accept <==> v !in existing && v !in earlier
  {
    if v in existing then SkipExisting
    else if v in earlier then SkipDuplicate
    else Accept
  }

  /** The positions of the accepted rows, in input order. */
  function AcceptedAt<K(==)>(existing: set<K>, keys: seq<K>): (r: seq<nat>)
    ensures forall j :: 0 <= j < |r| ==> r[j] < |keys| && Decide(existing, keys[..r[j]], keys[r[j]]) == Accept
    ensures forall j, k :: 0 <= j < k < |r| ==> r[j] < r[k]
    decreases |keys|
  {
    if keys == [] then []
    else
      var n := |keys| - 1;
      var prev := AcceptedAt(existing, keys[..n]);
      assert forall j :: 0 <= j < |prev| ==> keys[..n][..prev[j]] == keys[..prev[j]];
      prev + (if Decide(existing, keys[..n], keys[n]) == Accept then [n] else [])
  }

  /** The skipped rows with their reasons, in input order. */
  function Skips<K(==)>(existing: set<K>, keys: seq<K>): (r: seq<Skip<K>>)
    ensures forall j :: 0 <= j < |r| ==>
      r[j].index < |keys| && r[j].key == keys[r[j].index] &&
      r[j].reason == Decide(existing, keys[..r[j].index], keys[r[j].index]) && r[j].reason != Accept
    ensures forall j, k :: 0 <= j < k < |r| ==> r[j].index < r[k].index
    decreases |keys|
  {
    if keys == [] then []
    else
      var n := |keys| - 1;
      var prev := Skips(existing, keys[..n]);
      assert forall j :: 0 <= j < |prev| ==> keys[..n][..prev[j].index] == keys[..prev[j].index];
      var d := Decide(existing, keys[..n], keys[n]);
      prev + (if d == Accept then [] else [Skip(n, keys[n], d)])
  }

  /** The accepted keys, in input order. */
  function AcceptedKeys<K(==)>(existing: set<K>, keys: seq<K>): (r: seq<K>)
    ensures |r| == |AcceptedAt(existing, keys)|
    ensures forall j :: 0 <= j < |r| ==> r[j] == keys[AcceptedAt(existing, keys)[j]]
  {
    var a := AcceptedAt(existing, keys);
    seq(|a|, j requires 0 <= j < |a| => keys[a[j]])
  }

  /** Every row is either accepted or skipped, never both. */
  lemma {:induction false} Partition<K>(existing: set<K>, keys: seq<K>)
    ensures |AcceptedAt(existing, keys)| + |Skips(existing, keys)| == |keys|
    decreases |keys|
  {
    if keys != [] {
      Partition(existing, keys[..|keys| - 1]);
    }
  }

  /** The accepted keys are pairwise distinct and none of them was stored before. */
  lemma AcceptedKeysFresh<K>(existing: set<K>, keys: seq<K>)
    ensures Distinct(AcceptedKeys(existing, keys))
    ensures forall j :: 0 <= j < |AcceptedKeys(existing, keys)| ==> AcceptedKeys(existing, keys)[j] !in existing
  {
    var a := AcceptedAt(existing, keys);
    var r := AcceptedKeys(existing, keys);
    forall j, k | 0 <= j < k < |r| ensures r[j] != r[k] {
      assert a[j] < a[k];
      assert keys[..a[k]][a[j]] == keys[a[j]];
    }
  }

  /** A row is accepted exactly when its key is neither stored nor seen earlier in the file. */
  lemma {:induction false} AcceptedIff<K>(existing: set<K>, keys: seq<K>, i: nat)
    requires i < |keys|
    ensures i in AcceptedAt(existing, keys) <==> keys[i] !in existing && keys[i] !in keys[..i]
    decreases |keys|
  {
    var n := |keys| - 1;
    if i < n {
      AcceptedIff(existing, keys[..n], i);
      assert keys[..n][..i] == keys[..i];
      var prev := AcceptedAt(existing, keys[..n]);
      assert AcceptedAt(existing, keys) == prev + (if Decide(existing, keys[..n], keys[n]) == Accept then [n] else []);
    }
  }

  /** Every key of the file that was not stored before is accepted (once). */
  lemma AcceptedComplete<K>(existing: set<K>, keys: seq<K>, x: K)
    requires x in keys && x !in existing
    ensures x in AcceptedKeys(existing, keys)
  {
    var i :| 0 <= i < |keys| && keys[i] == x;
    while x in keys[..i]
      invariant 0 <= i < |keys| && keys[i] == x
      decreases i
    {
      var i' :| 0 <= i' < i && keys[..i][i'] == x;
      i := i';
    }
    AcceptedIff(existing, keys, i);
    var a := AcceptedAt(existing, keys);
    var j :| 0 <= j < |a| && a[j] == i;
    assert AcceptedKeys(existing, keys)[j] == x;
  }
}
