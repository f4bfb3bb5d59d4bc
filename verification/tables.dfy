/** Boolean-mask indexing of a dataframe (`frame[mask]`) and the bookkeeping of index labels. */
module Tables {
  import opened Records

  /** `t[mask]`: the rows whose mask entry is true, in their original order. */
  function Where<T>(t: seq<T>, mask: seq<bool>): (r: seq<T>)
    requires |mask| == |t|
    ensures |r| <= |t|
    ensures forall x :: x in r ==> exists i :: 0 <= i < |t| && mask[i] && t[i] == x
    ensures forall i :: 0 <= i < |t| && mask[i] ==> t[i] in r
    decreases |t|
  {
    if |t| == 0 then []
    else (if mask[0] then [t[0]] else []) + Where(t[1..], mask[1..])
  }

  /** Element-wise negation of a mask (`mask == False`, or `-mask` on a boolean series). */
  function Not(mask: seq<bool>): (r: seq<bool>)
    ensures |r| == |mask|
  {
    seq(|mask|, i requires 0 <= i < |mask| => !mask[i])
  }

  /** Index labels strictly increase down the table. */
  ghost predicate Increasing(t: seq<Entry>)
  {
    forall i, j :: 0 <= i < j < |t| ==> t[i].index < t[j].index
  }

  /** `t` is an order-preserving selection of the rows of `input`, each under its own index. */
  ghost predicate Drawn(t: seq<Entry>, input: seq<Row>)
  {
    && Increasing(t)
    && forall e :: e in t ==> e.index < |input| && input[e.index] == e.row
  }

  ghost function Labels(t: seq<Entry>): set<nat>
  {
    set e | e in t :: e.index
  }

  /** The labels 0 .. n-1 of a default index. */
  ghost function Range(n: nat): (r: set<nat>)
    ensures forall l: int :: l in r <==> 0 <= l < n
  {
    if n == 0 then {} else Range(n - 1) + {n - 1}
  }

  lemma {:induction false} WhereIncreasing(t: seq<Entry>, mask: seq<bool>)
    requires |mask| == |t|
    requires Increasing(t)
    ensures Increasing(Where(t, mask))
    decreases |t|
  {
    if |t| > 0 {
      var rest := Where(t[1..], mask[1..]);
      WhereIncreasing(t[1..], mask[1..]);
      assert Where(t, mask) == (if mask[0] then [t[0]] else []) + rest;
      if mask[0] {
        forall j | 0 <= j < |rest|
          ensures t[0].index < rest[j].index
        {
          var i := WherePosition(t[1..], mask[1..], rest[j]);
          assert t[1 + i] == rest[j];
        }
        ConsIncreasing(t[0], rest);
      }
    }
  }

  /** A member of `t[mask]` sits at some selected position of `t`. */
  lemma WherePosition<T>(t: seq<T>, mask: seq<bool>, x: T) returns (i: int)
    requires |mask| == |t|
    requires x in Where(t, mask)
    ensures 0 <= i < |t| && mask[i] && t[i] == x
  {
    i :| 0 <= i < |t| && mask[i] && t[i] == x;
  }

  lemma ConsIncreasing(x: Entry, t: seq<Entry>)
    requires Increasing(t)
    requires forall j :: 0 <= j < |t| ==> x.index < t[j].index
    ensures Increasing([x] + t)
  {
    var u := [x] + t;
    forall i, j | 0 <= i < j < |u| ensures u[i].index < u[j].index {
      assert u[j] == t[j - 1];
      if i > 0 {
        assert u[i] == t[i - 1];
      }
    }
  }

  lemma WhereDrawn(t: seq<Entry>, mask: seq<bool>, input: seq<Row>)
    requires |mask| == |t|
    requires Drawn(t, input)
    ensures Drawn(Where(t, mask), input)
  {
    WhereIncreasing(t, mask);
  }

  /** The labels of `t[mask]` are those of the selected positions. */
  lemma WhereLabels(t: seq<Entry>, mask: seq<bool>, l: nat)
    requires |mask| == |t|
    ensures l in Labels(Where(t, mask)) <==> exists i :: 0 <= i < |t| && mask[i] && t[i].index == l
  {
    if l in Labels(Where(t, mask)) {
      var e :| e in Where(t, mask) && e.index == l;
      var i :| 0 <= i < |t| && mask[i] && t[i] == e;
    }
    if exists i :: 0 <= i < |t| && mask[i] && t[i].index == l {
      var i :| 0 <= i < |t| && mask[i] && t[i].index == l;
      assert t[i] in Where(t, mask);
    }
  }

  /** A mask of all-true selects the whole table. */
  lemma {:induction false} WhereAll<T>(t: seq<T>, mask: seq<bool>)
    requires |mask| == |t|
    requires forall i :: 0 <= i < |t| ==> mask[i]
    ensures Where(t, mask) == t
    decreases |t|
  {
    if |t| > 0 {
      WhereAll(t[1..], mask[1..]);
      assert [t[0]] + t[1..] == t;
    }
  }

  /** `t[mask]` has a row exactly when the mask selects some position. */
  lemma WhereNonEmpty<T>(t: seq<T>, mask: seq<bool>)
    requires |mask| == |t|
    ensures |Where(t, mask)| > 0 <==> exists i :: 0 <= i < |t| && mask[i]
  {
    var r := Where(t, mask);
    if |r| > 0 {
      assert r[0] in r;
    }
  }

  /** Two masks that never select the same position, plus the positions neither selects,
      split the labels of a table with distinct labels into three disjoint parts. */
  lemma WhereSplit(t: seq<Entry>, m1: seq<bool>, m2: seq<bool>, m3: seq<bool>)
    requires |m1| == |t| && |m2| == |t| && |m3| == |t|
    requires Increasing(t)
    requires forall i :: 0 <= i < |t| ==> m3[i] == (!m1[i] && !m2[i])
    requires forall i :: 0 <= i < |t| ==> !(m1[i] && m2[i])
    ensures Labels(t) == Labels(Where(t, m1)) + Labels(Where(t, m2)) + Labels(Where(t, m3))
    ensures Labels(Where(t, m1)) !! Labels(Where(t, m2))
    ensures Labels(Where(t, m1)) !! Labels(Where(t, m3))
    ensures Labels(Where(t, m2)) !! Labels(Where(t, m3))
  {
    forall l: nat
      ensures l in Labels(t) <==> l in Labels(Where(t, m1)) || l in Labels(Where(t, m2)) || l in Labels(Where(t, m3))
    {
      WhereLabels(t, m1, l);
      WhereLabels(t, m2, l);
      WhereLabels(t, m3, l);
      if l in Labels(t) {
        var e :| e in t && e.index == l;
        var i :| 0 <= i < |t| && t[i] == e;
        assert m1[i] || m2[i] || m3[i];
      }
    }
    WhereDisjoint(t, m1, m2);
    WhereDisjoint(t, m1, m3);
    WhereDisjoint(t, m2, m3);
  }

  /** Masks that never select the same position select disjoint labels. */
  lemma WhereDisjoint(t: seq<Entry>, m1: seq<bool>, m2: seq<bool>)
    requires |m1| == |t| && |m2| == |t|
    requires Increasing(t)
    requires forall i :: 0 <= i < |t| ==> !(m1[i] && m2[i])
    ensures Labels(Where(t, m1)) !! Labels(Where(t, m2))
  {
    forall l: nat | l in Labels(Where(t, m1)) ensures l !in Labels(Where(t, m2)) {
      WhereLabels(t, m1, l);
      WhereLabels(t, m2, l);
    }
  }

  /** A table with distinct labels has as many labels as rows. */
  lemma {:induction false} LabelsCount(t: seq<Entry>)
    requires forall i, j :: 0 <= i < j < |t| ==> t[i].index != t[j].index
    ensures |Labels(t)| == |t|
    decreases |t|
  {
    if |t| > 0 {
      LabelsCount(t[1..]);
      assert Labels(t) == {t[0].index} + Labels(t[1..]);
      assert t[0].index !in Labels(t[1..]);
    }
  }

  lemma {:induction false} RangeSize(n: nat)
    ensures |Range(n)| == n
  {
    if n > 0 {
      RangeSize(n - 1);
      var r := Range(n - 1);
      assert n - 1 !in r;
      assert Range(n) == r + {n - 1};
      assert |r + {n - 1}| == |r| + 1;
    }
  }

  lemma LabelsOfDefaultIndex(input: seq<Row>)
    ensures Drawn(Label(input), input)
    ensures Labels(Label(input)) == Range(|input|)
  {
    var t := Label(input);
    forall l: nat | l < |input| ensures l in Labels(t) {
      assert t[l] in t;
    }
  }

  /** A selection of `input` is determined by its labels. */
  lemma {:induction false} SameLabelsSameTable(a: seq<Entry>, b: seq<Entry>, input: seq<Row>)
    requires Drawn(a, input) && Drawn(b, input)
    requires Labels(a) == Labels(b)
    ensures a == b
    decreases |a|
  {
    LabelsCount(a);
    LabelsCount(b);
    if |a| > 0 {
      assert a[0].index in Labels(b);
      assert b[0].index in Labels(a);
      LeastLabelFirst(a, b[0].index);
      LeastLabelFirst(b, a[0].index);
      assert a[0] == b[0];
      DropFirstLabel(a);
      DropFirstLabel(b);
      SameLabelsSameTable(a[1..], b[1..], input);
      assert a == [a[0]] + a[1..];
      assert b == [b[0]] + b[1..];
    }
  }

  lemma LeastLabelFirst(t: seq<Entry>, l: nat)
    requires Increasing(t) && |t| > 0
    requires l in Labels(t)
    ensures t[0].index <= l
  {
    var e :| e in t && e.index == l;
    var i :| 0 <= i < |t| && t[i] == e;
  }

  lemma DropFirstLabel(t: seq<Entry>)
    requires Increasing(t) && |t| > 0
    ensures Labels(t[1..]) == Labels(t) - {t[0].index}
  {
    forall l: nat ensures l in Labels(t[1..]) <==> l in Labels(t) && l != t[0].index {
      if l in Labels(t[1..]) {
        var e :| e in t[1..] && e.index == l;
        var i :| 0 <= i < |t[1..]| && t[1..][i] == e;
        assert t[i + 1] == e;
      }
      if l in Labels(t) && l != t[0].index {
        var e :| e in t && e.index == l;
        var i :| 0 <= i < |t| && t[i] == e;
        assert i != 0;
        assert t[1..][i - 1] == e;
      }
    }
  }
}
