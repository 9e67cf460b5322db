/** First occurrences: what remains of a list when every later repetition of a key is dropped. */
module Firsts {

  /** `pos` lists, in order, the first place of every non-blank key among the first `n`. */
  ghost predicate FirstsOf<T>(keys: seq<T>, blank: T, n: nat, pos: seq<nat>)
    requires n <= |keys|
  {
    && (forall i :: 0 <= i < |pos| ==> pos[i] < n && keys[pos[i]] != blank)
    && (forall i, j :: 0 <= i < j < |pos| ==> pos[i] < pos[j])
    && (forall i, k :: 0 <= i < |pos| && 0 <= k < pos[i] ==> keys[k] != keys[pos[i]])
    && (forall k :: 0 <= k < n && keys[k] != blank ==> Covered(keys, pos, keys[k]))
  }

  ghost predicate Covered<T>(keys: seq<T>, pos: seq<nat>, key: T) {
    exists i :: 0 <= i < |pos| && pos[i] < |keys| && keys[pos[i]] == key
  }

  /** A key seen before, or blank, is skipped; any other is kept. */
  lemma Next<T>(keys: seq<T>, blank: T, n: nat, pos: seq<nat>)
    requires n < |keys| && FirstsOf(keys, blank, n, pos)
    ensures keys[n] == blank || Covered(keys, pos, keys[n]) ==> FirstsOf(keys, blank, n + 1, pos)
    ensures keys[n] != blank && !Covered(keys, pos, keys[n]) ==> FirstsOf(keys, blank, n + 1, pos + [n])
    ensures forall key :: Covered(keys, pos + [n], key) <==> Covered(keys, pos, key) || key == keys[n]
  {
    var more := pos + [n];
    forall key ensures Covered(keys, more, key) <==> Covered(keys, pos, key) || key == keys[n] {
      if key == keys[n] {
        assert more[|pos|] == n;
      }
      if Covered(keys, pos, key) {
        var i :| 0 <= i < |pos| && pos[i] < |keys| && keys[pos[i]] == key;
        assert more[i] == pos[i];
      }
    }
  }

  /** The kept place of a key is the earliest one. */
  lemma Earliest<T>(keys: seq<T>, blank: T, pos: seq<nat>, k: nat) returns (i: nat)
    requires FirstsOf(keys, blank, |keys|, pos) && k < |keys| && keys[k] != blank
    ensures i < |pos| && keys[pos[i]] == keys[k] && pos[i] <= k
  {
    assert Covered(keys, pos, keys[k]);
    i :| 0 <= i < |pos| && pos[i] < |keys| && keys[pos[i]] == keys[k];
  }

  /** No key is kept twice. */
  lemma Once<T>(keys: seq<T>, blank: T, pos: seq<nat>, i: nat, j: nat)
    requires FirstsOf(keys, blank, |keys|, pos) && i < |pos| && j < |pos|
    requires keys[pos[i]] == keys[pos[j]]
    ensures i == j
  {
  }
}
