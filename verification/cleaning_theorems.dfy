/** What cleanData promises about its two outputs, stated against the input alone. */
module CleaningTheorems {
  import opened Wrappers
  import opened Records
  import opened Tables
  import opened Rules
  import opened Duplicates
  import opened Cleaning
  import opened Vanishing

  /** Row `l` is one cleanData keeps: it passes every row-level rule and no earlier input row
      has its key. */
  predicate FirstValid(input: seq<Row>, l: nat)
  {
    && l < |input|
    && Valid(input[l])
    && forall j :: 0 <= j < l ==> KeyOf(input[j]) != KeyOf(input[l])
  }

  /** The clean frame as one filter over the input, independent of the rule chain. */
  function ReferenceClean(input: seq<Row>): seq<Entry>
  {
    Where(Label(input), seq(|input|, i requires 0 <= i < |input| => FirstValid(input, i)))
  }

  /** The removed frame before `reset_index`: rows still under their input labels. */
  ghost function RemovedFrame(input: seq<Row>): seq<Rejection>
  {
    Concat(Partition(input).removedFrames)
  }

  // ---------------------------------------------------------------------------------------
  // The clean frame

  /** The clean frame is an order-preserving selection of input rows, each of which passes
      every rule, with no key twice. */
  lemma CleanIsValidSelection(input: seq<Row>)
    ensures var clean := CleanData(input).clean;
      && Drawn(clean, input)
      && (forall e :: e in clean ==> Valid(e.row))
      && KeysDistinct(clean)
  {
    PartitionInv(input);
    ChainLayout();
    forall e | e in Partition(input).clean ensures Valid(e.row) {
      ValidIffCleared(e.row);
    }
  }

  /** A row charged to the duplicate rule and removed has an earlier twin in the input. */
  lemma RemovedValidHasTwin(input: seq<Row>, l: nat)
    requires l in RemovedLabels(RemovedFrame(input))
    requires l < |input| && Valid(input[l])
    ensures EarlierTwin(input, l)
  {
    PartitionInv(input);
    var rs := RemovedFrame(input);
    var e :| e in Entries(rs) && e.index == l;
    var i :| 0 <= i < |rs| && Entries(rs)[i] == e;
    assert rs[i] in rs;
    ValidIffCleared(input[l]);
  }

  /** Every first valid row reaches the clean frame. */
  lemma FirstValidKept(input: seq<Row>, l: nat)
    requires FirstValid(input, l)
    ensures l in Labels(CleanData(input).clean)
  {
    PartitionInv(input);
    var gone := LostRun(Chain, Start(input));
    assert l in Range(|input|);
    if l in RemovedLabels(RemovedFrame(input)) {
      RemovedValidHasTwin(input, l);
      assert false;
    }
    assert l !in gone;
  }

  /** The smallest input position carrying the key of row `l`. */
  lemma {:induction false} EarliestWithKey(input: seq<Row>, l: nat, j: nat) returns (m: nat)
    requires j <= l < |input| && KeyOf(input[j]) == KeyOf(input[l])
    ensures m <= j && KeyOf(input[m]) == KeyOf(input[l])
    ensures forall i :: 0 <= i < m ==> KeyOf(input[i]) != KeyOf(input[l])
    decreases j
  {
    if i :| 0 <= i < j && KeyOf(input[i]) == KeyOf(input[l]) {
      m := EarliestWithKey(input, l, i);
    } else {
      m := j;
    }
  }

  /** Two rows of a frame with distinct keys and labels l and m share no key. */
  lemma DistinctKeysByLabel(t: seq<Entry>, input: seq<Row>, l: nat, m: nat)
    requires Drawn(t, input) && KeysDistinct(t)
    requires l in Labels(t) && m in Labels(t) && l != m
    ensures KeyOf(input[l]) != KeyOf(input[m])
  {
    var a :| a in t && a.index == l;
    var b :| b in t && b.index == m;
    var i :| 0 <= i < |t| && t[i] == a;
    var j :| 0 <= j < |t| && t[j] == b;
    assert i != j;
  }

  /** Exactly the first valid rows are kept. */
  lemma CleanLabels(input: seq<Row>)
    ensures forall l: nat :: l in Labels(CleanData(input).clean) <==> FirstValid(input, l)
  {
    var clean := CleanData(input).clean;
    CleanIsValidSelection(input);
    forall l: nat ensures l in Labels(clean) <==> FirstValid(input, l) {
      if FirstValid(input, l) {
        FirstValidKept(input, l);
      }
      if l in Labels(clean) {
        var e :| e in clean && e.index == l;
        if j :| 0 <= j < l && KeyOf(input[j]) == KeyOf(input[l]) {
          var m := EarliestWithKey(input, l, j);
          ChargeDependsOnKey(input[m], input[l]);
          ValidIffCleared(input[m]);
          ValidIffCleared(input[l]);
          FirstValidKept(input, m);
          DistinctKeysByLabel(clean, input, l, m);
        }
      }
    }
  }

  /** The clean frame equals the reference filter: the chain of rules keeps a row exactly
      when it passes every rule and is the first of its key. */
  lemma CleanMatchesReference(input: seq<Row>)
    ensures CleanData(input).clean == ReferenceClean(input)
  {
    CleanIsValidSelection(input);
    CleanLabels(input);
    ReferenceLabels(input);
    SameLabelsSameTable(CleanData(input).clean, ReferenceClean(input), input);
  }

  lemma ReferenceLabels(input: seq<Row>)
    ensures Drawn(ReferenceClean(input), input)
    ensures forall l: nat :: l in Labels(ReferenceClean(input)) <==> FirstValid(input, l)
  {
    var t := Label(input);
    var mask := seq(|input|, i requires 0 <= i < |input| => FirstValid(input, i));
    LabelsOfDefaultIndex(input);
    WhereDrawn(t, mask, input);
    forall l: nat ensures l in Labels(ReferenceClean(input)) <==> FirstValid(input, l) {
      WhereLabels(t, mask, l);
      if FirstValid(input, l) {
        assert mask[l] && t[l].index == l;
      }
    }
  }

  // ---------------------------------------------------------------------------------------
  // The removed frame

  /** What the chain invariant says about one removed row. */
  lemma RemovedRowFacts(input: seq<Row>, i: nat)
    requires i < |RemovedFrame(input)|
    ensures var r := RemovedFrame(input)[i];
      && Charged(r, input)
      && (ChargeRank(r.entry.row) == 7 ==> EarlierTwin(input, r.entry.index))
  {
    PartitionInv(input);
    assert RemovedFrame(input)[i] in RemovedFrame(input);
  }

  /** What the chain invariant says about two removed rows. */
  lemma RemovedPairFacts(input: seq<Row>, i: nat, j: nat)
    requires i < j < |RemovedFrame(input)|
    ensures var rs := RemovedFrame(input);
      Precedes(rs[i].entry, rs[j].entry) && Charged(rs[i], input) && Charged(rs[j], input)
  {
    PartitionInv(input);
    var rs := RemovedFrame(input);
    assert rs[i] in rs && rs[j] in rs;
  }

  /** Every removed row is an input row, coded with the first rule in chain order that
      rejects it; a row coded 3 repeats the key of an earlier input row. */
  lemma RemovedCarriesFirstRule(input: seq<Row>)
    ensures forall r :: r in CleanData(input).removed ==>
      && (exists l :: 0 <= l < |input| && input[l] == r.row)
      && r.errorCode == ErrorCode(Charge(r.row))
      && (r.errorCode == 3 ==> exists l, j :: 0 <= j < l < |input| && input[l] == r.row && KeyOf(input[j]) == KeyOf(r.row))
  {
    var removed := CleanData(input).removed;
    var rs := RemovedFrame(input);
    forall r | r in removed
      ensures exists l :: 0 <= l < |input| && input[l] == r.row
      ensures r.errorCode == ErrorCode(Charge(r.row))
      ensures r.errorCode == 3 ==> exists l, j :: 0 <= j < l < |input| && input[l] == r.row && KeyOf(input[j]) == KeyOf(r.row)
    {
      var i :| 0 <= i < |removed| && removed[i] == r;
      RemovedRowFacts(input, i);
      var l := rs[i].entry.index;
      ErrorCodeMeaning(r.row);
      ValidIffCleared(r.row);
      if r.errorCode == 3 {
        var j :| 0 <= j < l && KeyOf(input[j]) == KeyOf(input[l]);
      }
    }
  }

  /** The removed frame is grouped by rule in chain order, and each group keeps input order;
      hence its codes never decrease. */
  lemma RemovedInRuleOrder(input: seq<Row>)
    ensures forall i, j :: 0 <= i < j < |RemovedFrame(input)| ==> Precedes(RemovedFrame(input)[i].entry, RemovedFrame(input)[j].entry)
    ensures var removed := CleanData(input).removed;
      forall i, j :: 0 <= i < j < |removed| ==>
        && ChargeRank(removed[i].row) <= ChargeRank(removed[j].row)
        && removed[i].errorCode <= removed[j].errorCode
  {
    var removed := CleanData(input).removed;
    var rs := RemovedFrame(input);
    forall i, j | 0 <= i < j < |rs| ensures Precedes(rs[i].entry, rs[j].entry) {
      RemovedPairFacts(input, i, j);
    }
    forall i, j | 0 <= i < j < |removed|
      ensures ChargeRank(removed[i].row) <= ChargeRank(removed[j].row)
      ensures removed[i].errorCode <= removed[j].errorCode
    {
      RemovedPairFacts(input, i, j);
      ErrorCodeMonotone(removed[i].row, removed[j].row);
    }
  }

  /** No input row is removed twice. */
  lemma RemovedLabelsDistinct(input: seq<Row>)
    ensures var rs := RemovedFrame(input);
      forall i, j :: 0 <= i < j < |rs| ==> rs[i].entry.index != rs[j].entry.index
  {
    var rs := RemovedFrame(input);
    forall i, j | 0 <= i < j < |rs| ensures rs[i].entry.index != rs[j].entry.index {
      RemovedPairFacts(input, i, j);
    }
  }

  /** The `ErrorCode` column exists exactly when some row was removed. */
  lemma ErrorCodeColumnIffRemoved(input: seq<Row>)
    ensures CleanData(input).errorCodeColumn <==> |CleanData(input).removed| > 0
  {
    PartitionInv(input);
    ConcatShape(Partition(input).removedFrames);
  }

  lemma ConcatShape(frames: seq<seq<Rejection>>)
    requires FramesShape(frames)
    ensures |Concat(frames)| > 0 <==> |frames| > 1
  {
    if |frames| == 1 {
      assert frames[..0] == [];
    }
  }

  // ---------------------------------------------------------------------------------------
  // Accounting

  /** Every input row ends up in exactly one place: the clean frame, the removed frame, or
      among the vanished rows. */
  lemma EveryRowAccountedOnce(input: seq<Row>)
    ensures var clean := Labels(CleanData(input).clean);
      var removed := RemovedLabels(RemovedFrame(input));
      var vanished := VanishedLabels(input);
      && clean !! removed && clean !! vanished && removed !! vanished
      && clean + removed + vanished == Range(|input|)
  {
    PartitionInv(input);
    LostIsVanished(input);
  }

  /** Row counts: kept plus removed plus vanished is the input size. */
  lemma RowConservation(input: seq<Row>)
    ensures |CleanData(input).clean| + |CleanData(input).removed| + |VanishedLabels(input)| == |input|
  {
    var c := CleanData(input);
    var rs := RemovedFrame(input);
    EveryRowAccountedOnce(input);
    CleanIsValidSelection(input);
    LabelsCount(c.clean);
    RemovedLabelsDistinct(input);
    LabelsCount(Entries(rs));
    RangeSize(|input|);
    DisjointUnionSize(Labels(c.clean), RemovedLabels(rs), VanishedLabels(input));
  }

  lemma DisjointUnionSize(a: set<nat>, b: set<nat>, c: set<nat>)
    requires a !! b && a !! c && b !! c
    ensures |a + b + c| == |a| + |b| + |c|
  {
    assert a * b == {};
    assert (a + b) * c == {};
  }

  /** Without a null quantity or unit price, or without a non-positive one, nothing vanishes
      and the two outputs together hold every input row. */
  lemma ConservationWithoutNullNumbers(input: seq<Row>)
    requires || (forall i :: 0 <= i < |input| ==> !NullNumber(input[i]))
             || (forall i :: 0 <= i < |input| ==> !AtMostZero(input[i].quantity) && !AtMostZero(input[i].unitPrice))
    ensures VanishedLabels(input) == {}
    ensures |CleanData(input).clean| + |CleanData(input).removed| == |input|
  {
    RowConservation(input);
  }

  /** Every row passes every rule and no key repeats. */
  predicate Pristine(input: seq<Row>)
  {
    && (forall i :: 0 <= i < |input| ==> Valid(input[i]))
    && (forall i, j :: 0 <= i < j < |input| ==> KeyOf(input[i]) != KeyOf(input[j]))
  }

  /** cleanData rejects nothing exactly when the input is pristine, and then it returns the
      input unchanged and a removed frame that is empty and has no `ErrorCode` column. */
  lemma NothingToReject(input: seq<Row>)
    ensures (|CleanData(input).removed| == 0 && VanishedLabels(input) == {}) <==> Pristine(input)
    ensures Pristine(input) ==> CleanData(input) == Cleaned(Label(input), [], false)
  {
    PristineIffAllFirst(input);
    if |CleanData(input).removed| == 0 && VanishedLabels(input) == {} {
      NothingRejectedAllFirst(input);
    }
    if Pristine(input) {
      AllFirstNothingRejected(input);
    }
  }

  lemma PristineIffAllFirst(input: seq<Row>)
    ensures Pristine(input) <==> forall l: nat :: l < |input| ==> FirstValid(input, l)
  {
    if forall l: nat :: l < |input| ==> FirstValid(input, l) {
      forall i, j | 0 <= i < j < |input| ensures KeyOf(input[i]) != KeyOf(input[j]) {
        assert FirstValid(input, j);
      }
      forall i | 0 <= i < |input| ensures Valid(input[i]) {
        assert FirstValid(input, i);
      }
    }
  }

  lemma NothingRejectedAllFirst(input: seq<Row>)
    requires |CleanData(input).removed| == 0 && VanishedLabels(input) == {}
    ensures forall l: nat :: l < |input| ==> FirstValid(input, l)
  {
    var rs := RemovedFrame(input);
    EveryRowAccountedOnce(input);
    CleanLabels(input);
    assert Entries(rs) == [];
    assert RemovedLabels(rs) == {};
    forall l: nat | l < |input| ensures FirstValid(input, l) {
      assert l in Range(|input|);
    }
  }

  lemma AllFirstNothingRejected(input: seq<Row>)
    requires forall l: nat :: l < |input| ==> FirstValid(input, l)
    ensures |CleanData(input).removed| == 0 && VanishedLabels(input) == {}
    ensures CleanData(input) == Cleaned(Label(input), [], false)
  {
    var c := CleanData(input);
    var rs := RemovedFrame(input);
    CleanLabels(input);
    assert Labels(c.clean) == Range(|input|);
    EveryRowAccountedOnce(input);
    assert RemovedLabels(rs) == {} && VanishedLabels(input) == {};
    RemovedLabelsDistinct(input);
    LabelsCount(Entries(rs));
    LabelsOfDefaultIndex(input);
    CleanIsValidSelection(input);
    SameLabelsSameTable(c.clean, Label(input), input);
    ErrorCodeColumnIffRemoved(input);
  }

  /** An empty input gives two empty outputs, the removed one without an `ErrorCode` column. */
  lemma EmptyInput()
    ensures CleanData([]) == Cleaned([], [], false)
  {
    NothingToReject([]);
    assert Label([]) == [];
  }
}
