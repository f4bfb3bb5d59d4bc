/** `duplicated(subset=uniqueFields)` with the default keep='first': one left-to-right pass
    that remembers the keys it has seen. */
module Duplicates {
  import opened Wrappers
  import opened Records
  import opened Tables
  import opened Rules

  /** Some earlier entry of `keys` equals entry i. */
  ghost predicate RepeatsEarlier<K>(keys: seq<K>, i: int)
    requires 0 <= i < |keys|
  {
    exists j :: 0 <= j < i && keys[j] == keys[i]
  }

  lemma RepeatsAfterHead<K>(keys: seq<K>, i: int)
    requires 1 <= i < |keys|
    ensures RepeatsEarlier(keys, i) <==> keys[0] == keys[i] || RepeatsEarlier(keys[1..], i - 1)
  {
    if RepeatsEarlier(keys, i) && keys[0] != keys[i] {
      var j :| 0 <= j < i && keys[j] == keys[i];
      assert keys[1..][j - 1] == keys[j];
    }
    if RepeatsEarlier(keys[1..], i - 1) {
      var j :| 0 <= j < i - 1 && keys[1..][j] == keys[1..][i - 1];
      assert keys[1..][j] == keys[j + 1];
    }
  }

  /** The pass over `keys`, having already seen the keys in `seen`. */
  function MarkRepeats<K>(keys: seq<K>, seen: set<K>): (m: seq<bool>)
    ensures |m| == |keys|
    ensures forall i :: 0 <= i < |keys| ==> (m[i] <==> keys[i] in seen || RepeatsEarlier(keys, i))
    decreases |keys|
  {
    if |keys| == 0 then []
    else
      var rest := MarkRepeats(keys[1..], seen + {keys[0]});
      MarkRepeatsCons(keys, seen, rest);
      [keys[0] in seen] + rest
  }

  lemma MarkRepeatsCons<K>(keys: seq<K>, seen: set<K>, rest: seq<bool>)
    requires |keys| > 0 && |rest| == |keys| - 1
    requires forall i :: 0 <= i < |rest| ==> (rest[i] <==> keys[1..][i] in seen + {keys[0]} || RepeatsEarlier(keys[1..], i))
    ensures forall i :: 0 <= i < |keys| ==> (([keys[0] in seen] + rest)[i] <==> keys[i] in seen || RepeatsEarlier(keys, i))
  {
    var m := [keys[0] in seen] + rest;
    forall i | 0 <= i < |keys| ensures m[i] <==> keys[i] in seen || RepeatsEarlier(keys, i) {
      if i > 0 {
        RepeatsAfterHead(keys, i);
        assert m[i] == rest[i - 1];
        assert keys[1..][i - 1] == keys[i];
      }
    }
  }

  /** The key column of a table. */
  function KeyColumn(t: seq<Entry>): (keys: seq<Key>)
    ensures |keys| == |t|
    ensures forall i :: 0 <= i < |t| ==> keys[i] == KeyOf(t[i].row)
  {
    seq(|t|, i requires 0 <= i < |t| => KeyOf(t[i].row))
  }

  /** The duplicated mask: true exactly on the rows whose key occurred earlier. */
  function Duplicated(t: seq<Entry>): (m: seq<bool>)
    ensures |m| == |t|
    ensures forall i {:trigger m[i]} :: 0 <= i < |t| ==> (m[i] <==> exists j :: 0 <= j < i && KeyOf(t[j].row) == KeyOf(t[i].row))
  {
    var keys := KeyColumn(t);
    var m := MarkRepeats(keys, {});
    assert forall i :: 0 <= i < |t| ==> (RepeatsEarlier(keys, i) <==> exists j :: 0 <= j < i && KeyOf(t[j].row) == KeyOf(t[i].row)) by {
      forall i | 0 <= i < |t| ensures RepeatsEarlier(keys, i) <==> exists j :: 0 <= j < i && KeyOf(t[j].row) == KeyOf(t[i].row) {
        if RepeatsEarlier(keys, i) {
          var j :| 0 <= j < i && keys[j] == keys[i];
        }
        if exists j :: 0 <= j < i && KeyOf(t[j].row) == KeyOf(t[i].row) {
          var j :| 0 <= j < i && KeyOf(t[j].row) == KeyOf(t[i].row);
          assert keys[j] == keys[i];
        }
      }
    }
    m
  }

  ghost predicate KeysDistinct(t: seq<Entry>)
  {
    forall i, j :: 0 <= i < j < |t| ==> KeyOf(t[i].row) != KeyOf(t[j].row)
  }

  /** Keeping the rows the mask does not mark leaves one row per key. */
  lemma FirstOccurrencesDistinct(t: seq<Entry>)
    requires Increasing(t)
    ensures KeysDistinct(Where(t, Not(Duplicated(t))))
  {
    var m := Duplicated(t);
    var u := Where(t, Not(m));
    WhereIncreasing(t, Not(m));
    forall a, b | 0 <= a < b < |u| ensures KeyOf(u[a].row) != KeyOf(u[b].row) {
      KeptKeysDiffer(t, m, u, a, b);
    }
  }

  lemma KeptKeysDiffer(t: seq<Entry>, m: seq<bool>, u: seq<Entry>, a: int, b: int)
    requires Increasing(t) && m == Duplicated(t) && u == Where(t, Not(m)) && Increasing(u)
    requires 0 <= a < b < |u|
    ensures KeyOf(u[a].row) != KeyOf(u[b].row)
  {
    var i := WherePosition(t, Not(m), u[a]);
    var j := WherePosition(t, Not(m), u[b]);
    assert u[a].index < u[b].index;
    assert i < j;
    FirstOccurrenceDiffers(t, m, i, j);
  }

  lemma FirstOccurrenceDiffers(t: seq<Entry>, m: seq<bool>, i: int, j: int)
    requires m == Duplicated(t)
    requires 0 <= i < j < |t| && !m[j]
    ensures KeyOf(t[i].row) != KeyOf(t[j].row)
  {
  }

  /** Every row's key has an unmarked first occurrence at or before it. */
  lemma {:induction false} FirstOccurrenceOf(t: seq<Entry>, i: nat) returns (j: nat)
    requires i < |t|
    ensures j <= i && KeyOf(t[j].row) == KeyOf(t[i].row) && !Duplicated(t)[j]
    decreases i
  {
    if Duplicated(t)[i] {
      var j' :| 0 <= j' < i && KeyOf(t[j'].row) == KeyOf(t[i].row);
      j := FirstOccurrenceOf(t, j');
    } else {
      j := i;
    }
  }

  /** Without any repeated key, the duplicated mask is all false. */
  lemma NoRepeatsNoneMarked(t: seq<Entry>)
    requires KeysDistinct(t)
    ensures forall i :: 0 <= i < |t| ==> !Duplicated(t)[i]
  {
  }
}
