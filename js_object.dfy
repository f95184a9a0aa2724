/**
 * A JavaScript plain object used as a dictionary: string keys in insertion
 * order (the order `Object.keys` reports) and the value stored under each.
 * Assigning to a key that is already present keeps its position.
 */
module JsObject {
  import opened Wrappers

  ghost predicate Distinct(s: seq<string>) {
    forall i, j :: 0 <= i < j < |s| ==> s[i] != s[j]
  }

  datatype Dict<V> = Dict(keys: seq<string>, slots: map<string, V>) {

    /** The keys are listed once each, and exactly the keys have slots. */
    ghost predicate Valid() {
      && Distinct(keys)
      && forall k :: k in slots <==> k in keys
    }

    /** `o[k]`: the stored value, or `None` for a key never assigned. */
    function Get(k: string): Option<V> {
      if k in slots then Some(slots[k]) else None
    }

    /** `o[k] = v` */
    function Put(k: string, v: V): (d: Dict<V>)
      ensures Valid() ==> d.Valid()
      ensures d.Get(k) == Some(v)
      ensures forall j :: j != k ==> d.Get(j) == Get(j)
      ensures Valid() && k in keys ==> d.keys == keys
      ensures k !in slots ==> d.keys == keys + [k]
    {
      Dict(if k in slots then keys else keys + [k], slots[k := v])
    }
  }

  /** `{}` */
  function Empty<V>(): (d: Dict<V>)
    ensures d.Valid() && d.keys == []
    ensures forall k :: d.Get(k) == None
  {
    Dict([], map[])
  }

  /**
   * `pairs.reduce((acc, [k, v]) => { acc[k] = v; return acc; }, {})`: the
   * dictionary built by assigning the pairs from left to right.
   */
  function FromPairs<V>(pairs: seq<(string, V)>): (d: Dict<V>)
    ensures d.Valid()
  {
    if pairs == [] then Empty()
    else FromPairs(pairs[..|pairs| - 1]).Put(pairs[|pairs| - 1].0, pairs[|pairs| - 1].1)
  }

  /** A key never assigned reads as `undefined`. */
  lemma {:induction false} FromPairsAbsent<V>(pairs: seq<(string, V)>, k: string)
    requires forall i :: 0 <= i < |pairs| ==> pairs[i].0 != k
    ensures FromPairs(pairs).Get(k) == None
  {
    if pairs != [] {
      FromPairsAbsent(pairs[..|pairs| - 1], k);
    }
  }

  /** Last write wins: the value read is the one of the last pair with that key. */
  lemma {:induction false} FromPairsLastWins<V>(pairs: seq<(string, V)>, i: nat)
    requires i < |pairs|
    requires forall j :: i < j < |pairs| ==> pairs[j].0 != pairs[i].0
    ensures FromPairs(pairs).Get(pairs[i].0) == Some(pairs[i].1)
  {
    var n := |pairs| - 1;
    if i < n {
      FromPairsLastWins(pairs[..n], i);
    }
  }

  /** A key is present exactly when some pair assigns it. */
  lemma {:induction false} FromPairsPresent<V>(pairs: seq<(string, V)>, k: string)
    ensures FromPairs(pairs).Get(k).Some? <==> exists i :: 0 <= i < |pairs| && pairs[i].0 == k
  {
    if pairs == [] {
    } else {
      var n := |pairs| - 1;
      FromPairsPresent(pairs[..n], k);
      if pairs[n].0 != k {
        if exists i :: 0 <= i < |pairs| && pairs[i].0 == k {
          var i :| 0 <= i < |pairs| && pairs[i].0 == k;
          assert pairs[..n][i].0 == k;
        }
      }
    }
  }

  /** With distinct keys, the key order is the order of the pairs. */
  lemma {:induction false} FromPairsKeys<V>(pairs: seq<(string, V)>)
    requires forall i, j :: 0 <= i < j < |pairs| ==> pairs[i].0 != pairs[j].0
    ensures |FromPairs(pairs).keys| == |pairs|
    ensures forall i :: 0 <= i < |pairs| ==> FromPairs(pairs).keys[i] == pairs[i].0
  {
    if pairs != [] {
      var prefix := pairs[..|pairs| - 1];
      DistinctPrefix(pairs);
      FromPairsKeys(prefix);
      FromPairsNewKey(pairs);
      KeysSnoc(FromPairs(prefix).keys, pairs);
    }
  }

  /** The pairs before the last keep distinct keys, and none has the last key. */
  lemma DistinctPrefix<V>(pairs: seq<(string, V)>)
    requires pairs != []
    requires forall i, j :: 0 <= i < j < |pairs| ==> pairs[i].0 != pairs[j].0
    ensures var prefix := pairs[..|pairs| - 1];
            forall i, j :: 0 <= i < j < |prefix| ==> prefix[i].0 != prefix[j].0
    ensures forall i :: 0 <= i < |pairs| - 1 ==> pairs[i].0 != pairs[|pairs| - 1].0
  {
  }

  /** Keys that list the earlier pairs' keys, followed by the last pair's key, list every pair's key. */
  lemma KeysSnoc<V>(keys: seq<string>, pairs: seq<(string, V)>)
    requires pairs != [] && |keys| == |pairs| - 1
    requires forall i :: 0 <= i < |keys| ==> keys[i] == pairs[..|pairs| - 1][i].0
    ensures var all := keys + [pairs[|pairs| - 1].0];
            |all| == |pairs| && forall i :: 0 <= i < |pairs| ==> all[i] == pairs[i].0
  {
  }

  /** A last pair whose key no earlier pair assigns appends that key. */
  lemma FromPairsNewKey<V>(pairs: seq<(string, V)>)
    requires pairs != []
    requires forall i :: 0 <= i < |pairs| - 1 ==> pairs[i].0 != pairs[|pairs| - 1].0
    ensures FromPairs(pairs).keys == FromPairs(pairs[..|pairs| - 1]).keys + [pairs[|pairs| - 1].0]
  {
    var n := |pairs| - 1;
    var prefix := pairs[..n];
    var k := pairs[n].0;
    assert forall i :: 0 <= i < |prefix| ==> prefix[i].0 != k;
    FromPairsAbsent(prefix, k);
    assert k !in FromPairs(prefix).slots;
  }

  /** Every value read back was assigned by some pair under that key. */
  lemma {:induction false} FromPairsValueFrom<V>(pairs: seq<(string, V)>, k: string)
    requires FromPairs(pairs).Get(k).Some?
    ensures exists i :: 0 <= i < |pairs| && pairs[i] == (k, FromPairs(pairs).Get(k).value)
  {
    var n := |pairs| - 1;
    if pairs[n].0 != k {
      FromPairsValueFrom(pairs[..n], k);
      var i :| 0 <= i < n && pairs[..n][i] == (k, FromPairs(pairs[..n]).Get(k).value);
      assert pairs[i] == pairs[..n][i];
    } else {
      assert pairs[n] == (k, FromPairs(pairs).Get(k).value);
    }
  }

  /** Assigning one more pair is one more `Put`. */
  lemma FromPairsSnoc<V>(pairs: seq<(string, V)>, p: (string, V))
    ensures FromPairs(pairs + [p]) == FromPairs(pairs).Put(p.0, p.1)
  {
    assert (pairs + [p])[..|pairs|] == pairs;
  }
}
