/** Worked cases of cleanData, derived from the general theorems. */
module Scenarios {
  import opened Wrappers
  import opened Records
  import opened Tables
  import opened Rules
  import opened Cleaning
  import opened Vanishing
  import opened CleaningTheorems

  /** A transaction that passes every rule. */
  const Sale: Row := Row(Some("1"), Some("A1"), Some("WHITE MUG"), Some(2.0), Some("31-12-2011 14:05"),
                         Some(1.5), Some(100.0), Some("United Kingdom"))

  /** A lone row is either kept, or removed with the code of the first rule it breaks; it never
      vanishes, since a rule that fires on it compares a cell that is not null. */
  lemma SingleRow(row: Row)
    ensures Valid(row) ==> CleanData([row]) == Cleaned([Entry(0, row)], [], false)
    ensures !Valid(row) ==> CleanData([row]) == Cleaned([], [RemovedRow(row, ErrorCode(Charge(row)))], true)
  {
    var input := [row];
    var c := CleanData(input);
    assert VanishedLabels(input) == {} by {
      forall l: nat | l < 1 ensures !Vanishes(input, input[l]) {
      }
    }
    NothingToReject(input);
    assert Label(input) == [Entry(0, row)];
    if !Valid(row) {
      RowConservation(input);
      CleanLabels(input);
      CleanIsValidSelection(input);
      assert Labels(c.clean) == {} by {
        forall l: nat ensures l !in Labels(c.clean) {
          assert !FirstValid(input, l);
        }
      }
      LabelsCount(c.clean);
      assert |c.clean| == 0;
      assert |c.removed| == 1;
      RemovedCarriesFirstRule(input);
      assert c.removed[0] in c.removed;
      ErrorCodeColumnIffRemoved(input);
    }
  }

  /** A non-positive quantity is removed with code 1. */
  lemma NegativeQuantityRemoved()
    ensures var row := Sale.(quantity := Some(-5.0), unitPrice := Some(2.5));
      CleanData([row]) == Cleaned([], [RemovedRow(row, 1)], true)
  {
    var row := Sale.(quantity := Some(-5.0), unitPrice := Some(2.5));
    SingleRow(row);
    ErrorCodeMeaning(row);
  }

  /** A null customer id is removed with code 2. */
  lemma MissingCustomerRemoved()
    ensures var row := Sale.(customerId := None);
      CleanData([row]) == Cleaned([], [RemovedRow(row, 2)], true)
  {
    var row := Sale.(customerId := None);
    assert IsNull(row, MandatoryColumns[4]);
    SingleRow(row);
    ErrorCodeMeaning(row);
  }

  /** Precedence: a row with a non-positive quantity and a null customer id is coded 1. */
  lemma QuantityBeatsMissingValue()
    ensures var row := Sale.(quantity := Some(0.0), customerId := None);
      CleanData([row]) == Cleaned([], [RemovedRow(row, 1)], true)
  {
    var row := Sale.(quantity := Some(0.0), customerId := None);
    SingleRow(row);
    ErrorCodeMeaning(row);
  }

  /** The second of two transactions that differ only in their description. */
  const Twin: Row := Sale.(description := Some("RED MUG"))

  /** Two rows with the same key: the first is kept under its label 0, the second is removed
      with code 3. */
  lemma DuplicateRemoved()
    ensures CleanData([Sale, Twin]).clean == [Entry(0, Sale)]
    ensures CleanData([Sale, Twin]).removed == [RemovedRow(Twin, 3)]
    ensures CleanData([Sale, Twin]).errorCodeColumn
  {
    var input := [Sale, Twin];
    var c := CleanData(input);
    PairValid();
    PairClean();
    assert VanishedLabels(input) == {} by {
      forall l: nat | l < 2 ensures !Vanishes(input, input[l]) {
      }
    }
    RowConservation(input);
    assert |c.removed| == 1;
    RemovedCarriesFirstRule(input);
    assert c.removed[0] in c.removed;
    PairRemoved(c.removed[0]);
    ErrorCodeColumnIffRemoved(input);
  }

  lemma PairValid()
    ensures Valid(Sale) && Valid(Twin) && KeyOf(Sale) == KeyOf(Twin) && Sale != Twin
  {
    assert forall k :: 0 <= k < |MandatoryColumns| ==> !IsNull(Sale, MandatoryColumns[k]);
  }

  lemma PairClean()
    ensures CleanData([Sale, Twin]).clean == [Entry(0, Sale)]
  {
    var input := [Sale, Twin];
    PairValid();
    assert FirstValid(input, 0) && !FirstValid(input, 1);
    CleanMatchesReference(input);
    ReferenceIsFirstRow(input);
  }

  /** A removed row of [Sale, Twin] is Twin, coded 3: Sale has no earlier twin. */
  lemma PairRemoved(r: RemovedRow)
    requires exists l :: 0 <= l < 2 && [Sale, Twin][l] == r.row
    requires r.errorCode == ErrorCode(Charge(r.row))
    requires r.errorCode == 3 ==> exists l, j :: 0 <= j < l < 2 && [Sale, Twin][l] == r.row && KeyOf([Sale, Twin][j]) == KeyOf(r.row)
    ensures r == RemovedRow(Twin, 3)
  {
    PairValid();
    ErrorCodeMeaning(r.row);
    assert r.errorCode == 3;
  }

  lemma ReferenceIsFirstRow(input: seq<Row>)
    requires |input| == 2 && FirstValid(input, 0) && !FirstValid(input, 1)
    ensures ReferenceClean(input) == [Entry(0, input[0])]
  {
    var mask := seq(|input|, i requires 0 <= i < |input| => FirstValid(input, i));
    assert mask == [true, false];
    var t := Label(input);
    assert t == [Entry(0, input[0]), Entry(1, input[1])];
    assert Where(t[1..], mask[1..]) == Where(t[2..], mask[2..]);
  }

  /** The quantity rule fires on row 0, and row 1, whose quantity is null, lands in neither
      output: cleanData returns one row for two. */
  lemma NullQuantityVanishes()
    ensures var input := [Sale.(quantity := Some(-1.0)), Sale.(quantity := None)];
      && VanishedLabels(input) == {1}
      && |CleanData(input).clean| + |CleanData(input).removed| == 1
  {
    var input := [Sale.(quantity := Some(-1.0)), Sale.(quantity := None)];
    assert QuantityRuleFires(input) by {
      assert AtMostZero(input[0].quantity);
    }
    assert VanishedLabels(input) == {1} by {
      assert Vanishes(input, input[1]);
      assert !Vanishes(input, input[0]);
      forall l: nat ensures l in VanishedLabels(input) <==> l == 1 {
      }
    }
    RowConservation(input);
  }
}
