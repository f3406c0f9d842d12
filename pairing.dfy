/** Position-based pairing of two lists and the dictionary a comprehension
    builds from the pairs (Python's `zip` and `{k: v for k, v in pairs}`). */
module Pairing {

  /** Python's `zip`: pairs elements by position and stops at the shorter list. */
  function Zip<A, B>(a: seq<A>, b: seq<B>): (r: seq<(A, B)>)
    ensures |r| == if |a| < |b| then |a| else |b|
    ensures forall i :: 0 <= i < |r| ==> r[i] == (a[i], b[i])
  {
    if |a| == 0 || |b| == 0 then [] else [(a[0], b[0])] + Zip(a[1..], b[1..])
  }

  /** The dictionary built by inserting the pairs in order: a later pair
      overwrites an earlier one with the same key. */
  function DictOf<K, V>(pairs: seq<(K, V)>): (m: map<K, V>)
    ensures m.Keys == set i | 0 <= i < |pairs| :: pairs[i].0
  {
    if pairs == [] then map[]
    else
      var init := pairs[..|pairs| - 1];
      assert forall i :: 0 <= i < |init| ==> init[i] == pairs[i];
      DictOf(init)[pairs[|pairs| - 1].0 := pairs[|pairs| - 1].1]
  }

  /** The last position at which `x` occurs in `s`. */
  function LastIndex<T(==)>(s: seq<T>, x: T): (j: nat)
    requires x in s
    ensures j < |s| && s[j] == x
    ensures forall k :: j < k < |s| ==> s[k] != x
  {
    if s[|s| - 1] == x then |s| - 1
    else
      assert x in s[..|s| - 1] by {
        var i :| 0 <= i < |s| && s[i] == x;
        assert s[..|s| - 1][i] == x;
      }
      LastIndex(s[..|s| - 1], x)
  }

  /** The value stored for a key is the one of the last pair with that key. */
  lemma {:induction false} DictOfLastWins<K, V>(pairs: seq<(K, V)>, i: nat)
    requires i < |pairs|
    requires forall j :: i < j < |pairs| ==> pairs[j].0 != pairs[i].0
    ensures pairs[i].0 in DictOf(pairs)
    ensures DictOf(pairs)[pairs[i].0] == pairs[i].1
  {
    var init := pairs[..|pairs| - 1];
    if i < |pairs| - 1 {
      assert forall j :: 0 <= j < |init| ==> init[j] == pairs[j];
      DictOfLastWins(init, i);
    }
  }

  /** Zipping equally long lists of keys and values gives a dictionary whose
      keys are exactly the elements of the key list. */
  lemma ZipDictKeys<K, V>(ks: seq<K>, vs: seq<V>)
    requires |ks| == |vs|
    ensures DictOf(Zip(ks, vs)).Keys == set k | k in ks
  {
    var ps := Zip(ks, vs);
    forall k | k in ks ensures k in DictOf(ps) {
      var i :| 0 <= i < |ks| && ks[i] == k;
      assert ps[i].0 == k;
    }
  }

  /** The value stored for the key at position `i` is the value at the last
      position holding that key. */
  lemma ZipDictAt<K, V>(ks: seq<K>, vs: seq<V>, i: nat)
    requires |ks| == |vs| && i < |ks|
    ensures ks[i] in DictOf(Zip(ks, vs))
    ensures DictOf(Zip(ks, vs))[ks[i]] == vs[LastIndex(ks, ks[i])]
  {
    var j := LastIndex(ks, ks[i]);
    DictOfLastWins(Zip(ks, vs), j);
  }
}
