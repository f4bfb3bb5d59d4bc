/** The rows cleanData drops without a trace. The numeric rules keep `x > 0` and remove
    `x <= 0`; a null cell satisfies neither comparison, so once such a rule fires, the rows
    with a null in its column are in neither output. The other rules lose nothing. */
module Vanishing {
  import opened Wrappers
  import opened Records
  import opened Tables
  import opened Rules
  import opened Duplicates
  import opened Cleaning

  /** Some input row has a non-positive quantity, so the quantity rule runs its body. */
  predicate QuantityRuleFires(input: seq<Row>)
  {
    exists i :: 0 <= i < |input| && AtMostZero(input[i].quantity)
  }

  /** `row` is still in the working frame after the quantity rule. */
  predicate ClearsQuantityRule(input: seq<Row>, row: Row)
  {
    !QuantityRuleFires(input) || AboveZero(row.quantity)
  }

  /** Some row left after the quantity rule has a non-positive unit price. */
  predicate UnitPriceRuleFires(input: seq<Row>)
  {
    exists i :: 0 <= i < |input| && ClearsQuantityRule(input, input[i]) && AtMostZero(input[i].unitPrice)
  }

  /** `row` lands in neither output. */
  predicate Vanishes(input: seq<Row>, row: Row)
  {
    || (QuantityRuleFires(input) && row.quantity.None?)
    || (ClearsQuantityRule(input, row) && UnitPriceRuleFires(input) && row.unitPrice.None?)
  }

  ghost function VanishedLabels(input: seq<Row>): set<nat>
  {
    set l: nat | l < |input| && Vanishes(input, input[l])
  }

  /** The cell a numeric rule compares with zero. */
  function Guarded(rule: Rule, row: Row): Option<real>
    requires rule.NonPositiveQuantity? || rule.NonPositiveUnitPrice?
  {
    if rule.NonPositiveQuantity? then row.quantity else row.unitPrice
  }

  /** The rule runs its body: it would remove at least one row. */
  predicate Fires(rule: Rule, s: Stage)
  {
    |Where(s.clean, RejectMask(rule, s.clean))| > 0
  }

  /** One numeric rule over a selection of the input: when it fires, which labels it keeps
      and which it loses. */
  lemma NumericRuleStep(rule: Rule, s: Stage, input: seq<Row>)
    requires rule.NonPositiveQuantity? || rule.NonPositiveUnitPrice?
    requires Drawn(s.clean, input)
    ensures Drawn(ApplyRule(rule, s).clean, input)
    ensures forall l: nat :: l in Labels(ApplyRule(rule, s).clean) <==>
      l in Labels(s.clean) && (Fires(rule, s) ==> AboveZero(Guarded(rule, input[l])))
    ensures forall l: nat :: l in Lost(rule, s) <==>
      Fires(rule, s) && l in Labels(s.clean) && Guarded(rule, input[l]).None?
  {
    var t := s.clean;
    NumericMasks(rule, t);
    NumericKept(rule, t, input);
    NumericNeither(rule, t, input);
  }

  lemma NumericMasks(rule: Rule, t: seq<Entry>)
    requires rule.NonPositiveQuantity? || rule.NonPositiveUnitPrice?
    ensures forall i :: 0 <= i < |t| ==>
      && RejectMask(rule, t)[i] == AtMostZero(Guarded(rule, t[i].row))
      && KeepMask(rule, t)[i] == AboveZero(Guarded(rule, t[i].row))
      && NeitherMask(rule, t)[i] == Guarded(rule, t[i].row).None?
  {
  }

  /** The rule fires exactly when a row of the frame fails its comparison. */
  lemma NumericFires(rule: Rule, t: seq<Entry>, input: seq<Row>)
    requires rule.NonPositiveQuantity? || rule.NonPositiveUnitPrice?
    requires Drawn(t, input)
    requires forall i :: 0 <= i < |t| ==> RejectMask(rule, t)[i] == AtMostZero(Guarded(rule, t[i].row))
    ensures |Where(t, RejectMask(rule, t))| > 0 <==> exists l :: l in Labels(t) && AtMostZero(Guarded(rule, input[l]))
  {
    var bad := RejectMask(rule, t);
    WhereNonEmpty(t, bad);
    if l :| l in Labels(t) && AtMostZero(Guarded(rule, input[l])) {
      var e :| e in t && e.index == l;
      var i :| 0 <= i < |t| && t[i] == e;
      assert bad[i];
    }
    if i :| 0 <= i < |t| && bad[i] {
      assert t[i] in t;
      assert t[i].index in Labels(t);
    }
  }

  lemma NumericKept(rule: Rule, t: seq<Entry>, input: seq<Row>)
    requires rule.NonPositiveQuantity? || rule.NonPositiveUnitPrice?
    requires Drawn(t, input)
    requires forall i :: 0 <= i < |t| ==> KeepMask(rule, t)[i] == AboveZero(Guarded(rule, t[i].row))
    ensures Drawn(Where(t, KeepMask(rule, t)), input)
    ensures forall l: nat :: l in Labels(Where(t, KeepMask(rule, t))) <==> l in Labels(t) && AboveZero(Guarded(rule, input[l]))
  {
    var keep := KeepMask(rule, t);
    WhereDrawn(t, keep, input);
    forall l: nat ensures l in Labels(Where(t, keep)) <==> l in Labels(t) && AboveZero(Guarded(rule, input[l])) {
      SelectByLabel(t, keep, input, r => AboveZero(Guarded(rule, r)), l);
    }
  }

  lemma NumericNeither(rule: Rule, t: seq<Entry>, input: seq<Row>)
    requires rule.NonPositiveQuantity? || rule.NonPositiveUnitPrice?
    requires Drawn(t, input)
    requires forall i :: 0 <= i < |t| ==> NeitherMask(rule, t)[i] == Guarded(rule, t[i].row).None?
    ensures forall l: nat :: l in Labels(Where(t, NeitherMask(rule, t))) <==> l in Labels(t) && Guarded(rule, input[l]).None?
  {
    var neither := NeitherMask(rule, t);
    forall l: nat ensures l in Labels(Where(t, neither)) <==> l in Labels(t) && Guarded(rule, input[l]).None? {
      SelectByLabel(t, neither, input, r => Guarded(rule, r).None?, l);
    }
  }

  /** A mask that tests each row with `p` selects the labels whose input row satisfies `p`. */
  lemma SelectByLabel(t: seq<Entry>, mask: seq<bool>, input: seq<Row>, p: Row -> bool, l: nat)
    requires |mask| == |t| && Drawn(t, input)
    requires forall i :: 0 <= i < |t| ==> mask[i] == p(t[i].row)
    ensures l in Labels(Where(t, mask)) <==> l in Labels(t) && p(input[l])
  {
    WhereLabels(t, mask, l);
    if l in Labels(t) {
      var e :| e in t && e.index == l;
      var i :| 0 <= i < |t| && t[i] == e;
    }
  }

  /** The null checks and the duplicate rule keep every row they do not remove. */
  lemma NothingLostPastPrices(rule: Rule, s: Stage)
    requires rule.MissingValue? || rule.DuplicateKey?
    ensures Lost(rule, s) == {}
  {
    var t := s.clean;
    var neither := NeitherMask(rule, t);
    assert forall i :: 0 <= i < |t| ==> !neither[i];
    WhereNonEmpty(t, neither);
    assert Where(t, neither) == [];
  }

  lemma {:induction false} QuietTail(k: nat, s: Stage)
    requires 2 <= k <= |Chain|
    ensures LostRun(Chain[k..], s) == {}
    decreases |Chain| - k
  {
    ChainLayout();
    if k < |Chain| {
      RunUnfold(k, s, {});
      if k < 7 {
        assert Chain[k] == MissingValue(MandatoryColumns[k - 2]);
      }
      NothingLostPastPrices(Chain[k], s);
      QuietTail(k + 1, ApplyRule(Chain[k], s));
    } else {
      assert Chain[k..] == [];
    }
  }

  /** The labels the chain loses are exactly the vanished rows. */
  lemma LostIsVanished(input: seq<Row>)
    ensures LostRun(Chain, Start(input)) == VanishedLabels(input)
  {
    ChainLayout();
    var s0 := Start(input);
    var s1 := ApplyRule(Chain[0], s0);
    LostInPriceRules(s0);
    QuantityStage(input);
    PriceStage(input, s1);
    VanishedUnion(input, Lost(Chain[0], s0), Lost(Chain[1], s1));
  }

  /** Only the first two rules of the chain lose rows. */
  lemma LostInPriceRules(s0: Stage)
    ensures var s1 := ApplyRule(Chain[0], s0);
      LostRun(Chain, s0) == Lost(Chain[0], s0) + Lost(Chain[1], s1)
  {
    var s1 := ApplyRule(Chain[0], s0);
    var s2 := ApplyRule(Chain[1], s1);
    RunUnfold(0, s0, {});
    assert Chain[0..] == Chain;
    RunUnfold(1, s1, Lost(Chain[0], s0));
    QuietTail(2, s2);
  }

  lemma VanishedUnion(input: seq<Row>, a: set<nat>, b: set<nat>)
    requires forall l: nat :: l in a <==> l < |input| && QuantityRuleFires(input) && input[l].quantity.None?
    requires forall l: nat :: l in b <==>
      l < |input| && ClearsQuantityRule(input, input[l]) && UnitPriceRuleFires(input) && input[l].unitPrice.None?
    ensures a + b == VanishedLabels(input)
  {
  }

  /** After the quantity rule: what it lost and which rows are left. */
  lemma QuantityStage(input: seq<Row>)
    ensures var s0 := Start(input);
      var s1 := ApplyRule(Chain[0], s0);
      && Drawn(s1.clean, input)
      && (forall l: nat :: l in Labels(s1.clean) <==> l < |input| && ClearsQuantityRule(input, input[l]))
      && (forall l: nat :: l in Lost(Chain[0], s0) <==> l < |input| && QuantityRuleFires(input) && input[l].quantity.None?)
  {
    ChainLayout();
    var s0 := Start(input);
    var s1 := ApplyRule(NonPositiveQuantity, s0);
    LabelsOfDefaultIndex(input);
    NumericRuleStep(NonPositiveQuantity, s0, input);
    QuantityFires(input);
    QuantitySets(input, Labels(s0.clean), Labels(s1.clean), Lost(NonPositiveQuantity, s0), Fires(NonPositiveQuantity, s0));
  }

  lemma QuantitySets(input: seq<Row>, all: set<nat>, kept: set<nat>, lost: set<nat>, fires: bool)
    requires all == Range(|input|)
    requires fires <==> QuantityRuleFires(input)
    requires forall l: nat :: l in kept <==> l in all && (fires ==> AboveZero(Guarded(NonPositiveQuantity, input[l])))
    requires forall l: nat :: l in lost <==> fires && l in all && Guarded(NonPositiveQuantity, input[l]).None?
    ensures forall l: nat :: l in kept <==> l < |input| && ClearsQuantityRule(input, input[l])
    ensures forall l: nat :: l in lost <==> l < |input| && QuantityRuleFires(input) && input[l].quantity.None?
  {
  }

  lemma QuantityFires(input: seq<Row>)
    ensures Fires(NonPositiveQuantity, Start(input)) <==> QuantityRuleFires(input)
  {
    var t := Label(input);
    var bad := RejectMask(NonPositiveQuantity, t);
    assert forall i :: 0 <= i < |t| ==> bad[i] == AtMostZero(input[i].quantity);
    WhereNonEmpty(t, bad);
  }

  /** After the unit price rule: what it lost. */
  lemma PriceStage(input: seq<Row>, s1: Stage)
    requires Drawn(s1.clean, input)
    requires forall l: nat :: l in Labels(s1.clean) <==> l < |input| && ClearsQuantityRule(input, input[l])
    ensures forall l: nat :: l in Lost(Chain[1], s1) <==>
      l < |input| && ClearsQuantityRule(input, input[l]) && UnitPriceRuleFires(input) && input[l].unitPrice.None?
  {
    ChainLayout();
    NumericRuleStep(NonPositiveUnitPrice, s1, input);
    NumericMasks(NonPositiveUnitPrice, s1.clean);
    NumericFires(NonPositiveUnitPrice, s1.clean, input);
    if UnitPriceRuleFires(input) {
      var i :| 0 <= i < |input| && ClearsQuantityRule(input, input[i]) && AtMostZero(input[i].unitPrice);
      assert i in Labels(s1.clean);
    }
  }
}
