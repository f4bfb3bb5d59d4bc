/** The fixed configuration of cleanData and the meaning of each rule for one row. */
module Rules {
  import opened Wrappers
  import opened Records

  /** `mandatoryColumns`: a null in any of these rejects the row, checked in this order. */
  const MandatoryColumns: seq<Column> := [InvoiceNo, StockCode, Quantity, UnitPrice, CustomerID]

  /** `uniqueFields`: the columns on which duplicate rows are detected. */
  const UniqueFields: seq<Column> := [InvoiceNo, StockCode, Quantity, UnitPrice, CustomerID]

  /** The rules of the cleaning chain. */
  datatype Rule =
    | NonPositiveQuantity
    | NonPositiveUnitPrice
    | MissingValue(column: Column)
    | DuplicateKey

  function MissingValueRules(cols: seq<Column>): (rs: seq<Rule>)
    ensures |rs| == |cols|
    ensures forall i :: 0 <= i < |cols| ==> rs[i] == MissingValue(cols[i])
  {
    seq(|cols|, i requires 0 <= i < |cols| => MissingValue(cols[i]))
  }

  /** The rules in the order cleanData applies them: quantity, unit price, one null check
      per mandatory column, duplicates. */
  const Chain: seq<Rule> :=
    [NonPositiveQuantity, NonPositiveUnitPrice] + MissingValueRules(MandatoryColumns) + [DuplicateKey]

  /** The `ErrorCode` value a rule writes on the rows it removes. */
  function ErrorCode(rule: Rule): (code: int)
    ensures 1 <= code <= 3
    ensures code == 1 <==> rule.NonPositiveQuantity? || rule.NonPositiveUnitPrice?
    ensures code == 2 <==> rule.MissingValue?
  {
    match rule
    case NonPositiveQuantity => 1
    case NonPositiveUnitPrice => 1
    case MissingValue(_) => 2
    case DuplicateKey => 3
  }

  /** `x <= 0` on a float64 cell: a comparison with NaN is false. */
  predicate AtMostZero(x: Option<real>)
  {
    x.Some? && x.value <= 0.0
  }

  /** `x > 0` on a float64 cell: a comparison with NaN is false. */
  predicate AboveZero(x: Option<real>)
  {
    x.Some? && x.value > 0.0
  }

  /** The two comparisons of a numeric rule split a non-null cell between them and both
      reject a null one. */
  lemma NanComparesFalse(x: Option<real>)
    ensures x.None? ==> !AtMostZero(x) && !AboveZero(x)
    ensures x.Some? ==> (AtMostZero(x) <==> !AboveZero(x))
  {
  }

  /** The row-level test a rule rejects on (the mask that selects the removed frame).
      Duplicates depend on the earlier rows, not on the row alone, so no row violates
      DuplicateKey by itself. */
  predicate Violates(rule: Rule, row: Row)
  {
    match rule
    case NonPositiveQuantity => AtMostZero(row.quantity)
    case NonPositiveUnitPrice => AtMostZero(row.unitPrice)
    case MissingValue(c) => IsNull(row, c)
    case DuplicateKey => false
  }

  /** The row-level test a rule keeps on when it fires (the mask that rebuilds the clean frame).
      For the numeric rules it is not the negation of Violates: a null cell passes neither. */
  predicate Passes(rule: Rule, row: Row)
  {
    match rule
    case NonPositiveQuantity => AboveZero(row.quantity)
    case NonPositiveUnitPrice => AboveZero(row.unitPrice)
    case MissingValue(c) => !IsNull(row, c)
    case DuplicateKey => true
  }

  /** The position of the first null among `cols`, or |cols| when there is none. */
  function FirstNullIndex(row: Row, cols: seq<Column>): (n: nat)
    ensures n <= |cols|
    ensures forall j :: 0 <= j < n ==> !IsNull(row, cols[j])
    ensures n < |cols| ==> IsNull(row, cols[n])
  {
    if |cols| == 0 then 0
    else if IsNull(row, cols[0]) then 0
    else 1 + FirstNullIndex(row, cols[1..])
  }

  /** The position in Chain of the rule a row is charged to: the first rule in chain order
      that rejects it, or the duplicate rule for a row that passes every row-level rule. */
  function ChargeRank(row: Row): (k: nat)
    ensures k < |Chain|
  {
    if AtMostZero(row.quantity) then 0
    else if AtMostZero(row.unitPrice) then 1
    else 2 + FirstNullIndex(row, MandatoryColumns)
  }

  function Charge(row: Row): Rule
  {
    Chain[ChargeRank(row)]
  }

  /** A row that no row-level rule rejects: positive quantity and price, no mandatory null. */
  predicate Valid(row: Row)
  {
    && AboveZero(row.quantity)
    && AboveZero(row.unitPrice)
    && forall c :: c in MandatoryColumns ==> !IsNull(row, c)
  }

  /** The values of a row in the five columns of `uniqueFields`, in that order. Two rows are
      duplicates when their keys are equal; a null equals a null here, as in pandas. */
  datatype Key = Key(a: Option<Value>, b: Option<Value>, c: Option<Value>, d: Option<Value>, e: Option<Value>)

  function KeyOf(row: Row): Key
  {
    Key(Get(row, UniqueFields[0]), Get(row, UniqueFields[1]), Get(row, UniqueFields[2]),
        Get(row, UniqueFields[3]), Get(row, UniqueFields[4]))
  }

  /** The rules at each position of the chain. */
  lemma ChainLayout()
    ensures |Chain| == 8
    ensures Chain[0] == NonPositiveQuantity && Chain[1] == NonPositiveUnitPrice
    ensures forall i :: 0 <= i < |MandatoryColumns| ==> Chain[2 + i] == MissingValue(MandatoryColumns[i])
    ensures Chain[7] == DuplicateKey
  {
    var ms := MissingValueRules(MandatoryColumns);
    forall i | 0 <= i < |MandatoryColumns| ensures Chain[2 + i] == MissingValue(MandatoryColumns[i]) {
      assert Chain[2 + i] == ms[i];
    }
  }

  /** ChargeRank is the position of the first rule in the chain that rejects the row. */
  lemma ChargeIsFirstViolation(row: Row)
    ensures forall k :: 0 <= k < ChargeRank(row) ==> !Violates(Chain[k], row)
    ensures ChargeRank(row) < 7 ==> Violates(Chain[ChargeRank(row)], row)
    ensures ChargeRank(row) == 7 ==> Charge(row) == DuplicateKey
  {
    ChainLayout();
    var k := ChargeRank(row);
    forall j | 0 <= j < k ensures !Violates(Chain[j], row) {
      if j >= 2 {
        assert Chain[j] == MissingValue(MandatoryColumns[j - 2]);
      }
    }
    if 2 <= k < 7 {
      assert Chain[k] == MissingValue(MandatoryColumns[k - 2]);
    }
  }

  /** One step of the chain: a row that survived the first k rules is charged to rule k
      exactly when rule k rejects it. */
  lemma ChargeStep(row: Row, k: nat)
    requires k < 7 && k <= ChargeRank(row)
    ensures Violates(Chain[k], row) <==> ChargeRank(row) == k
  {
    ChargeIsFirstViolation(row);
  }

  /** Valid rows are exactly those charged to no row-level rule. */
  lemma ValidIffCleared(row: Row)
    ensures Valid(row) <==> ChargeRank(row) == 7
  {
    var n := FirstNullIndex(row, MandatoryColumns);
    if n == |MandatoryColumns| {
      forall c | c in MandatoryColumns ensures !IsNull(row, c) {
        var j :| 0 <= j < |MandatoryColumns| && MandatoryColumns[j] == c;
      }
    }
    assert Quantity == MandatoryColumns[2] && UnitPrice == MandatoryColumns[3];
  }

  /** The code a row is removed with, read off the row: 1 for a non-positive quantity or
      unit price, 3 for a row every row-level rule accepts, 2 for a null mandatory cell. */
  lemma ErrorCodeMeaning(row: Row)
    ensures ErrorCode(Charge(row)) == 1 <==> AtMostZero(row.quantity) || AtMostZero(row.unitPrice)
    ensures ErrorCode(Charge(row)) == 3 <==> Valid(row)
    ensures ErrorCode(Charge(row)) == 2 <==>
      && !AtMostZero(row.quantity) && !AtMostZero(row.unitPrice)
      && exists c :: c in MandatoryColumns && IsNull(row, c)
  {
    ChainLayout();
    ValidIffCleared(row);
    var k := ChargeRank(row);
    if 2 <= k < 7 {
      assert Chain[k] == MissingValue(MandatoryColumns[k - 2]);
      assert IsNull(row, MandatoryColumns[k - 2]);
    }
    if k == 7 {
      forall c | c in MandatoryColumns ensures !IsNull(row, c) {
        var j :| 0 <= j < |MandatoryColumns| && MandatoryColumns[j] == c;
      }
    }
  }

  /** Codes never decrease along the chain. */
  lemma ErrorCodeMonotone(a: Row, b: Row)
    requires ChargeRank(a) <= ChargeRank(b)
    ensures ErrorCode(Charge(a)) <= ErrorCode(Charge(b))
  {
    ChainLayout();
    var i, j := ChargeRank(a), ChargeRank(b);
    if 2 <= i < 7 {
      assert Chain[i] == MissingValue(MandatoryColumns[i - 2]);
    }
    if 2 <= j < 7 {
      assert Chain[j] == MissingValue(MandatoryColumns[j - 2]);
    }
  }

  /** Rows with equal keys are charged to the same rule: every row-level rule only looks at
      key columns. */
  lemma ChargeDependsOnKey(a: Row, b: Row)
    requires KeyOf(a) == KeyOf(b)
    ensures ChargeRank(a) == ChargeRank(b)
  {
    assert forall i :: 0 <= i < |UniqueFields| ==> Get(a, UniqueFields[i]) == Get(b, UniqueFields[i]);
    assert Get(a, Quantity) == Get(b, Quantity) by { assert UniqueFields[2] == Quantity; }
    assert Get(a, UnitPrice) == Get(b, UnitPrice) by { assert UniqueFields[3] == UnitPrice; }
    assert a.quantity == b.quantity;
    assert a.unitPrice == b.unitPrice;
    forall c | c in MandatoryColumns ensures IsNull(a, c) == IsNull(b, c) {
      var j :| 0 <= j < |MandatoryColumns| && MandatoryColumns[j] == c;
      assert UniqueFields[j] == c;
    }
    SameNullsSameIndex(a, b, MandatoryColumns);
  }

  lemma {:induction false} SameNullsSameIndex(a: Row, b: Row, cols: seq<Column>)
    requires forall c :: c in cols ==> IsNull(a, c) == IsNull(b, c)
    ensures FirstNullIndex(a, cols) == FirstNullIndex(b, cols)
    decreases |cols|
  {
    if |cols| > 0 {
      SameNullsSameIndex(a, b, cols[1..]);
    }
  }
}
