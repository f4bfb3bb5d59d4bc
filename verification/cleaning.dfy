/** cleanData: the rule chain as a fold over Chain that threads the working frame and the
    list of removed frames, followed by the final concatenation. */
module Cleaning {
  import opened Wrappers
  import opened Records
  import opened Tables
  import opened Rules
  import opened Duplicates

  /** A removed row as it stands in a removed frame: still under its index label, with the
      `ErrorCode` column set. */
  datatype Rejection = Rejection(entry: Entry, errorCode: int)

  /** The state the chain threads: the working frame `cleanedDF` and `removedFrames`. */
  datatype Stage = Stage(clean: seq<Entry>, removedFrames: seq<seq<Rejection>>)

  /** A row of the final removed frame: the index has been reset, so only the row and its
      code remain. */
  datatype RemovedRow = RemovedRow(row: Row, errorCode: int)

  /** What cleanData returns. `errorCodeColumn` tells whether the removed frame has the
      `ErrorCode` column at all: it exists only when some rule appended a frame. */
  datatype Cleaned = Cleaned(clean: seq<Entry>, removed: seq<RemovedRow>, errorCodeColumn: bool)

  /** The mask selecting the rows a rule removes (`Quantity <= 0`, `isna()`, `duplicated`). */
  function RejectMask(rule: Rule, t: seq<Entry>): (m: seq<bool>)
    ensures |m| == |t|
  {
    if rule.DuplicateKey? then Duplicated(t)
    else seq(|t|, i requires 0 <= i < |t| => Violates(rule, t[i].row))
  }

  /** The mask rebuilding the working frame when a rule fires (`Quantity > 0`,
      `isna() == False`, `-duplicated`). */
  function KeepMask(rule: Rule, t: seq<Entry>): (m: seq<bool>)
    ensures |m| == |t|
  {
    if rule.DuplicateKey? then Not(Duplicated(t))
    else seq(|t|, i requires 0 <= i < |t| => Passes(rule, t[i].row))
  }

  /** `removedFrame["ErrorCode"] = code` */
  function Tag(t: seq<Entry>, code: int): (r: seq<Rejection>)
    ensures |r| == |t|
    ensures forall i :: 0 <= i < |t| ==> r[i] == Rejection(t[i], code)
  {
    seq(|t|, i requires 0 <= i < |t| => Rejection(t[i], code))
  }

  /** One rule of the chain. Its body runs only when it would remove at least one row. */
  function ApplyRule(rule: Rule, s: Stage): Stage
  {
    var removedFrame := Where(s.clean, RejectMask(rule, s.clean));
    if |removedFrame| > 0 then
      Stage(Where(s.clean, KeepMask(rule, s.clean)),
            s.removedFrames + [Tag(removedFrame, ErrorCode(rule))])
    else s
  }

  /** A rule appends a frame exactly when some row fails its test, and otherwise changes
      nothing; the appended frame holds rows of the working frame tagged with the rule's code,
      and the new working frame keeps only rows of the old one. */
  lemma ApplyRuleEffect(rule: Rule, s: Stage)
    ensures var r := ApplyRule(rule, s);
      && (|r.removedFrames| > |s.removedFrames| <==> exists i :: 0 <= i < |s.clean| && RejectMask(rule, s.clean)[i])
      && (|r.removedFrames| <= |s.removedFrames| ==> r == s)
      && (|r.removedFrames| > |s.removedFrames| ==>
            && |r.removedFrames| == |s.removedFrames| + 1
            && r.removedFrames[..|s.removedFrames|] == s.removedFrames
            && |r.removedFrames[|s.removedFrames|]| > 0
            && (forall i :: 0 <= i < |s.clean| && RejectMask(rule, s.clean)[i] ==>
                  Rejection(s.clean[i], ErrorCode(rule)) in r.removedFrames[|s.removedFrames|])
            && (forall x :: x in r.removedFrames[|s.removedFrames|] ==>
                  && x.errorCode == ErrorCode(rule)
                  && exists i :: 0 <= i < |s.clean| && RejectMask(rule, s.clean)[i] && s.clean[i] == x.entry)
            && (forall i :: 0 <= i < |s.clean| && KeepMask(rule, s.clean)[i] ==> s.clean[i] in r.clean)
            && (forall e :: e in r.clean ==> exists i :: 0 <= i < |s.clean| && KeepMask(rule, s.clean)[i] && s.clean[i] == e))
  {
    var removedFrame := Where(s.clean, RejectMask(rule, s.clean));
    WhereNonEmpty(s.clean, RejectMask(rule, s.clean));
    if |removedFrame| > 0 {
      TaggedFrame(rule, s.clean);
      assert ApplyRule(rule, s).removedFrames[|s.removedFrames|] == Tag(removedFrame, ErrorCode(rule));
    }
  }

  /** The frame a rule appends holds each rejected row, tagged, and nothing else. */
  lemma TaggedFrame(rule: Rule, t: seq<Entry>)
    ensures var removedFrame := Where(t, RejectMask(rule, t));
      var tagged := Tag(removedFrame, ErrorCode(rule));
      && (forall i :: 0 <= i < |t| && RejectMask(rule, t)[i] ==> Rejection(t[i], ErrorCode(rule)) in tagged)
      && (forall x :: x in tagged ==>
            && x.errorCode == ErrorCode(rule)
            && exists i :: 0 <= i < |t| && RejectMask(rule, t)[i] && t[i] == x.entry)
  {
    var m := RejectMask(rule, t);
    var removedFrame := Where(t, m);
    var tagged := Tag(removedFrame, ErrorCode(rule));
    forall i | 0 <= i < |t| && m[i] ensures Rejection(t[i], ErrorCode(rule)) in tagged {
      var k :| 0 <= k < |removedFrame| && removedFrame[k] == t[i];
      assert tagged[k] == Rejection(t[i], ErrorCode(rule));
    }
    forall x | x in tagged
      ensures x.errorCode == ErrorCode(rule) && exists i :: 0 <= i < |t| && m[i] && t[i] == x.entry
    {
      var k :| 0 <= k < |tagged| && tagged[k] == x;
      assert removedFrame[k] in removedFrame;
    }
  }

  /** The chain as a left fold. */
  function Run(rules: seq<Rule>, s: Stage): Stage
    decreases |rules|
  {
    if rules == [] then s else Run(rules[1..], ApplyRule(rules[0], s))
  }

  /** The input frame under its default index, and `removedFrames = [removedDF]` with the
      empty frame that carries only the input columns. */
  function Start(input: seq<Row>): Stage
  {
    Stage(Label(input), [[]])
  }

  function Partition(input: seq<Row>): Stage
  {
    Run(Chain, Start(input))
  }

  /** `pd.concat(removedFrames)`. */
  function Concat(frames: seq<seq<Rejection>>): seq<Rejection>
  {
    if frames == [] then [] else Concat(frames[..|frames| - 1]) + frames[|frames| - 1]
  }

  /** The concatenation holds the rows of every frame and nothing else. */
  lemma {:induction false} ConcatMembers(frames: seq<seq<Rejection>>)
    ensures forall i, x :: 0 <= i < |frames| && x in frames[i] ==> x in Concat(frames)
    ensures forall x :: x in Concat(frames) ==> exists i :: 0 <= i < |frames| && x in frames[i]
    decreases |frames|
  {
    if frames != [] {
      var n := |frames| - 1;
      ConcatMembers(frames[..n]);
      assert forall i :: 0 <= i < n ==> frames[..n][i] == frames[i];
    }
  }

  /** `reset_index(drop=True)`: the labels are dropped. */
  function ResetIndex(rs: seq<Rejection>): (r: seq<RemovedRow>)
    ensures |r| == |rs|
    ensures forall i :: 0 <= i < |rs| ==> r[i] == RemovedRow(rs[i].entry.row, rs[i].errorCode)
  {
    seq(|rs|, i requires 0 <= i < |rs| => RemovedRow(rs[i].entry.row, rs[i].errorCode))
  }

  function CleanData(input: seq<Row>): Cleaned
  {
    var p := Partition(input);
    Cleaned(p.clean, ResetIndex(Concat(p.removedFrames)), |p.removedFrames| > 1)
  }

  // ---------------------------------------------------------------------------------------
  // Proof vocabulary

  /** A numeric rule keeps neither the rows it rejects nor the rows with a null cell. */
  function NeitherMask(rule: Rule, t: seq<Entry>): (m: seq<bool>)
    ensures |m| == |t|
  {
    seq(|t|, i requires 0 <= i < |t| => !RejectMask(rule, t)[i] && !KeepMask(rule, t)[i])
  }

  /** The labels a rule drops without recording them anywhere. */
  ghost function Lost(rule: Rule, s: Stage): set<nat>
  {
    if |Where(s.clean, RejectMask(rule, s.clean))| > 0 then Labels(Where(s.clean, NeitherMask(rule, s.clean)))
    else {}
  }

  ghost function LostRun(rules: seq<Rule>, s: Stage): set<nat>
    decreases |rules|
  {
    if rules == [] then {} else Lost(rules[0], s) + LostRun(rules[1..], ApplyRule(rules[0], s))
  }

  ghost function Entries(rs: seq<Rejection>): (t: seq<Entry>)
    ensures |t| == |rs|
    ensures forall i :: 0 <= i < |rs| ==> t[i] == rs[i].entry
  {
    seq(|rs|, i requires 0 <= i < |rs| => rs[i].entry)
  }

  ghost function RemovedLabels(rs: seq<Rejection>): set<nat>
  {
    Labels(Entries(rs))
  }

  /** A removed row is a row of the input, under its own label, coded with the rule it is
      charged to. */
  ghost predicate Charged(r: Rejection, input: seq<Row>)
  {
    && r.entry.index < |input|
    && input[r.entry.index] == r.entry.row
    && r.errorCode == ErrorCode(Charge(r.entry.row))
  }

  /** Removed rows come grouped by rule in chain order, and in input order within a rule. */
  predicate Precedes(a: Entry, b: Entry)
  {
    || ChargeRank(a.row) < ChargeRank(b.row)
    || (ChargeRank(a.row) == ChargeRank(b.row) && a.index < b.index)
  }

  ghost predicate RuleOrdered(rs: seq<Rejection>)
  {
    forall i, j :: 0 <= i < j < |rs| ==> Precedes(rs[i].entry, rs[j].entry)
  }

  /** The first removed frame is the empty one; every frame a rule appends is non-empty. */
  ghost predicate FramesShape(frames: seq<seq<Rejection>>)
  {
    && |frames| >= 1
    && frames[0] == []
    && forall i :: 1 <= i < |frames| ==> |frames[i]| > 0
  }

  /** Some earlier input row has the key of row l. */
  ghost predicate EarlierTwin(input: seq<Row>, l: nat)
  {
    l < |input| && exists j :: 0 <= j < l && KeyOf(input[j]) == KeyOf(input[l])
  }

  predicate NullNumber(row: Row)
  {
    row.quantity.None? || row.unitPrice.None?
  }

  /** What holds after the first k rules of the chain, `gone` being the labels dropped so far. */
  ghost predicate Inv(input: seq<Row>, k: nat, s: Stage, gone: set<nat>)
  {
    var removed := Concat(s.removedFrames);
    && k <= |Chain|
    && Drawn(s.clean, input)
    && (forall e :: e in s.clean ==> (if k < 7 then k else 7) <= ChargeRank(e.row))
    && (forall r :: r in removed ==> Charged(r, input) && ChargeRank(r.entry.row) < k)
    && (forall r :: r in removed && ChargeRank(r.entry.row) == 7 ==> EarlierTwin(input, r.entry.index))
    && RuleOrdered(removed)
    && FramesShape(s.removedFrames)
    && Labels(s.clean) !! RemovedLabels(removed)
    && Labels(s.clean) !! gone
    && RemovedLabels(removed) !! gone
    && Labels(s.clean) + RemovedLabels(removed) + gone == Range(|input|)
    && (forall l :: l in gone ==> l < |input| && NullNumber(input[l]))
    && (k == |Chain| ==> KeysDistinct(s.clean))
  }

  // ---------------------------------------------------------------------------------------
  // The chain invariant

  /** `pd.concat` keeps every frame whole and in list order: frame i sits between the
      concatenation of the frames before it and that of the frames after it. */
  lemma ConcatSplit(frames: seq<seq<Rejection>>, i: nat)
    requires i < |frames|
    ensures Concat(frames) == Concat(frames[..i]) + frames[i] + Concat(frames[i + 1..])
  {
    SplitAround(frames, i);
    ConcatAround(frames[..i], frames[i], frames[i + 1..]);
  }

  lemma SplitAround<T>(s: seq<T>, i: nat)
    requires i < |s|
    ensures s[..i] + [s[i]] + s[i + 1..] == s
  {
  }

  lemma ConcatAround(a: seq<seq<Rejection>>, f: seq<Rejection>, b: seq<seq<Rejection>>)
    ensures Concat(a + [f] + b) == Concat(a) + f + Concat(b)
  {
    ConcatJoin(a + [f], b);
    ConcatAppend(a, f);
  }

  lemma {:induction false} ConcatJoin(a: seq<seq<Rejection>>, b: seq<seq<Rejection>>)
    ensures Concat(a + b) == Concat(a) + Concat(b)
    decreases |b|
  {
    if b == [] {
      assert a + b == a;
    } else {
      var front, last := b[..|b| - 1], b[|b| - 1];
      assert b == front + [last];
      assert a + b == (a + front) + [last];
      ConcatAppend(a + front, last);
      ConcatAppend(front, last);
      ConcatJoin(a, front);
    }
  }

  lemma ConcatAppend(frames: seq<seq<Rejection>>, f: seq<Rejection>)
    ensures Concat(frames + [f]) == Concat(frames) + f
  {
    assert (frames + [f])[..|frames|] == frames;
  }

  lemma RemovedLabelsAppend(a: seq<Rejection>, g: seq<Entry>, code: int)
    ensures RemovedLabels(a + Tag(g, code)) == RemovedLabels(a) + Labels(g)
  {
    assert Entries(a + Tag(g, code)) == Entries(a) + g;
    var x, y := Entries(a), g;
    forall l: nat ensures l in Labels(x + y) <==> l in Labels(x) || l in Labels(y) {
      if l in Labels(x + y) {
        var e: Entry :| e in x + y && e.index == l;
      }
      if l in Labels(x) {
        var e :| e in x && e.index == l;
        assert e in x + y;
      }
      if l in Labels(y) {
        var e :| e in y && e.index == l;
        assert e in x + y;
      }
    }
  }

  lemma StartInv(input: seq<Row>)
    ensures Inv(input, 0, Start(input), {})
  {
    LabelsOfDefaultIndex(input);
    var s := Start(input);
    assert Concat(s.removedFrames) == [] by {
      assert s.removedFrames[..0] == [];
    }
    assert RemovedLabels([]) == {};
  }

  /** Appending a frame whose rows are all charged to rule k keeps removed rows in order. */
  lemma AppendOrdered(old_removed: seq<Rejection>, g: seq<Entry>, code: int, k: nat)
    requires RuleOrdered(old_removed)
    requires forall r :: r in old_removed ==> ChargeRank(r.entry.row) < k
    requires Increasing(g)
    requires forall e :: e in g ==> ChargeRank(e.row) == k
    ensures RuleOrdered(old_removed + Tag(g, code))
  {
    var removed := old_removed + Tag(g, code);
    var n := |old_removed|;
    forall i, j | 0 <= i < j < |removed| ensures Precedes(removed[i].entry, removed[j].entry) {
      if j < n {
        assert removed[i] == old_removed[i] && removed[j] == old_removed[j];
      } else if i < n {
        assert removed[i] == old_removed[i] && removed[i] in old_removed;
        assert removed[j].entry == g[j - n] && g[j - n] in g;
      } else {
        assert removed[i].entry == g[i - n] && g[i - n] in g;
        assert removed[j].entry == g[j - n] && g[j - n] in g;
      }
    }
  }

  /** The label accounting after a rule splits `clean` into kept, removed and lost rows. */
  lemma AppendAccounting(input: seq<Row>, clean: seq<Entry>, old_removed: seq<Rejection>, gone: set<nat>,
                         kept: seq<Entry>, g: seq<Entry>, lost: set<nat>, code: int)
    requires Labels(clean) !! RemovedLabels(old_removed)
    requires Labels(clean) !! gone
    requires RemovedLabels(old_removed) !! gone
    requires Labels(clean) + RemovedLabels(old_removed) + gone == Range(|input|)
    requires Labels(clean) == Labels(kept) + Labels(g) + lost
    requires Labels(kept) !! Labels(g) && Labels(kept) !! lost && Labels(g) !! lost
    ensures var removed := old_removed + Tag(g, code);
      && Labels(kept) !! RemovedLabels(removed)
      && Labels(kept) !! (gone + lost)
      && RemovedLabels(removed) !! (gone + lost)
      && Labels(kept) + RemovedLabels(removed) + (gone + lost) == Range(|input|)
  {
    RemovedLabelsAppend(old_removed, g, code);
  }

  /** A rule that fired: `kept` becomes the working frame and `g` is appended, tagged. */
  lemma FiredStepInv(input: seq<Row>, k: nat, s: Stage, gone: set<nat>,
                     kept: seq<Entry>, g: seq<Entry>, lost: set<nat>, code: int)
    requires k < |Chain|
    requires Inv(input, k, s, gone)
    requires Drawn(kept, input) && Drawn(g, input) && |g| > 0
    requires forall e :: e in kept ==> (if k + 1 < 7 then k + 1 else 7) <= ChargeRank(e.row)
    requires forall e :: e in g ==> ChargeRank(e.row) == k && code == ErrorCode(Charge(e.row))
    requires forall e :: e in g && ChargeRank(e.row) == 7 ==> EarlierTwin(input, e.index)
    requires Labels(s.clean) == Labels(kept) + Labels(g) + lost
    requires Labels(kept) !! Labels(g) && Labels(kept) !! lost && Labels(g) !! lost
    requires forall l :: l in lost ==> l < |input| && NullNumber(input[l])
    requires k + 1 == |Chain| ==> KeysDistinct(kept)
    ensures Inv(input, k + 1, Stage(kept, s.removedFrames + [Tag(g, code)]), gone + lost)
  {
    var frame := Tag(g, code);
    var old_removed := Concat(s.removedFrames);
    var removed := old_removed + frame;
    var s' := Stage(kept, s.removedFrames + [frame]);
    ConcatAppend(s.removedFrames, frame);
    assert Concat(s'.removedFrames) == removed;
    forall r | r in removed
      ensures Charged(r, input) && ChargeRank(r.entry.row) < k + 1
      ensures ChargeRank(r.entry.row) == 7 ==> EarlierTwin(input, r.entry.index)
    {
      if r !in old_removed {
        var j :| 0 <= j < |frame| && frame[j] == r;
        assert g[j] in g;
      }
    }
    AppendOrdered(old_removed, g, code, k);
    assert FramesShape(s'.removedFrames);
    AppendAccounting(input, s.clean, old_removed, gone, kept, g, lost, code);
  }

  /** A rule that did not fire leaves the stage as it was. */
  lemma QuietStepInv(input: seq<Row>, k: nat, s: Stage, gone: set<nat>)
    requires k < |Chain|
    requires Inv(input, k, s, gone)
    requires forall e :: e in s.clean ==> (if k + 1 < 7 then k + 1 else 7) <= ChargeRank(e.row)
    requires k + 1 == |Chain| ==> KeysDistinct(s.clean)
    ensures Inv(input, k + 1, s, gone)
  {
  }

  /** What the masks of row-level rule k say about a frame whose rows survived rules 0 .. k-1. */
  lemma FilterMasks(t: seq<Entry>, k: nat)
    requires k < 7
    requires forall e :: e in t ==> k <= ChargeRank(e.row)
    ensures forall i :: 0 <= i < |t| ==>
      && (RejectMask(Chain[k], t)[i] <==> ChargeRank(t[i].row) == k)
      && !(RejectMask(Chain[k], t)[i] && KeepMask(Chain[k], t)[i])
      && (NeitherMask(Chain[k], t)[i] ==> NullNumber(t[i].row))
      && (KeepMask(Chain[k], t)[i] ==> k + 1 <= ChargeRank(t[i].row))
      && (!RejectMask(Chain[k], t)[i] ==> k + 1 <= ChargeRank(t[i].row))
  {
    ChainLayout();
    var rule := Chain[k];
    assert !rule.DuplicateKey?;
    forall i | 0 <= i < |t|
      ensures RejectMask(rule, t)[i] <==> ChargeRank(t[i].row) == k
      ensures !(RejectMask(rule, t)[i] && KeepMask(rule, t)[i])
      ensures NeitherMask(rule, t)[i] ==> NullNumber(t[i].row)
    {
      assert t[i] in t;
      ChargeStep(t[i].row, k);
    }
  }

  /** A row-level rule (quantity, price, one mandatory column) keeps the invariant. */
  lemma FilterStepInv(input: seq<Row>, k: nat, s: Stage, gone: set<nat>)
    requires k < 7
    requires Inv(input, k, s, gone)
    ensures Inv(input, k + 1, ApplyRule(Chain[k], s), gone + Lost(Chain[k], s))
  {
    var rule := Chain[k];
    var t := s.clean;
    var bad, keep, neither := RejectMask(rule, t), KeepMask(rule, t), NeitherMask(rule, t);
    var g := Where(t, bad);
    FilterMasks(t, k);
    if |g| > 0 {
      FilterSplit(t, k, input);
      FiredStepInv(input, k, s, gone, Where(t, keep), g, Labels(Where(t, neither)), ErrorCode(rule));
    } else {
      forall e | e in t ensures k + 1 <= ChargeRank(e.row) {
        var i :| 0 <= i < |t| && t[i] == e;
        assert !bad[i];
      }
      QuietStepInv(input, k, s, gone);
    }
  }

  /** How row-level rule k splits a frame whose rows survived rules 0 .. k-1. */
  lemma FilterSplit(t: seq<Entry>, k: nat, input: seq<Row>)
    requires k < 7
    requires Drawn(t, input)
    requires forall e :: e in t ==> k <= ChargeRank(e.row)
    ensures var rule := Chain[k];
      var kept := Where(t, KeepMask(rule, t));
      var g := Where(t, RejectMask(rule, t));
      var lost := Labels(Where(t, NeitherMask(rule, t)));
      && Drawn(kept, input) && Drawn(g, input)
      && (forall e :: e in kept ==> k + 1 <= ChargeRank(e.row))
      && (forall e :: e in g ==> ChargeRank(e.row) == k && ErrorCode(rule) == ErrorCode(Charge(e.row)))
      && Labels(t) == Labels(kept) + Labels(g) + lost
      && Labels(kept) !! Labels(g) && Labels(kept) !! lost && Labels(g) !! lost
      && (forall l :: l in lost ==> l < |input| && NullNumber(input[l]))
  {
    var rule := Chain[k];
    var bad, keep, neither := RejectMask(rule, t), KeepMask(rule, t), NeitherMask(rule, t);
    var g := Where(t, bad);
    var kept := Where(t, keep);
    var lost := Labels(Where(t, neither));
    FilterMasks(t, k);
    WhereDrawn(t, keep, input);
    WhereDrawn(t, bad, input);
    forall e | e in kept ensures k + 1 <= ChargeRank(e.row) {
      var i :| 0 <= i < |t| && keep[i] && t[i] == e;
    }
    forall e | e in g ensures ChargeRank(e.row) == k && ErrorCode(rule) == ErrorCode(Charge(e.row)) {
      var i :| 0 <= i < |t| && bad[i] && t[i] == e;
    }
    WhereSplit(t, bad, keep, neither);
    forall l | l in lost ensures l < |input| && NullNumber(input[l]) {
      WhereLabels(t, neither, l);
      var i :| 0 <= i < |t| && neither[i] && t[i].index == l;
      assert t[i] in t;
    }
  }

  /** What the masks of the duplicate rule say about a frame of rows charged to it. */
  lemma DuplicateMasks(t: seq<Entry>)
    requires forall e :: e in t ==> 7 <= ChargeRank(e.row)
    ensures forall i :: 0 <= i < |t| ==>
      && ChargeRank(t[i].row) == 7
      && Charge(t[i].row) == DuplicateKey
      && KeepMask(Chain[7], t)[i] == !RejectMask(Chain[7], t)[i]
      && !NeitherMask(Chain[7], t)[i]
      && RejectMask(Chain[7], t)[i] == Duplicated(t)[i]
    ensures RejectMask(Chain[7], t) == Duplicated(t)
    ensures KeepMask(Chain[7], t) == Not(Duplicated(t))
    ensures Chain[7] == DuplicateKey
    ensures forall e :: e in t ==> ChargeRank(e.row) == 7 && Charge(e.row) == DuplicateKey
  {
    ChainLayout();
    forall i | 0 <= i < |t| ensures ChargeRank(t[i].row) == 7 {
      assert t[i] in t;
    }
  }

  /** The duplicate rule keeps the invariant and leaves one row per key. */
  lemma DuplicateStepInv(input: seq<Row>, s: Stage, gone: set<nat>)
    requires Inv(input, 7, s, gone)
    ensures Inv(input, 8, ApplyRule(Chain[7], s), gone + Lost(Chain[7], s))
  {
    var t := s.clean;
    DuplicateMasks(t);
    var dup := Duplicated(t);
    var g := Where(t, dup);
    if |g| > 0 {
      DuplicateFired(input, s, gone);
    } else {
      assert forall i :: 0 <= i < |t| ==> !dup[i];
      QuietStepInv(input, 7, s, gone);
    }
  }

  lemma DuplicateFired(input: seq<Row>, s: Stage, gone: set<nat>)
    requires Inv(input, 7, s, gone)
    requires |Where(s.clean, Duplicated(s.clean))| > 0
    ensures Inv(input, 8, ApplyRule(Chain[7], s), gone + Lost(Chain[7], s))
  {
    var t := s.clean;
    DuplicateMasks(t);
    DuplicateSplit(t, input);
    var dup := Duplicated(t);
    var g := Where(t, dup);
    var kept := Where(t, Not(dup));
    var lost := Labels(Where(t, NeitherMask(Chain[7], t)));
    assert ApplyRule(Chain[7], s) == Stage(kept, s.removedFrames + [Tag(g, 3)]);
    assert Lost(Chain[7], s) == lost;
    FiredStepInv(input, 7, s, gone, kept, g, lost, 3);
  }

  /** How the duplicate rule splits a frame of rows that passed every row-level rule. */
  lemma DuplicateSplit(t: seq<Entry>, input: seq<Row>)
    requires Drawn(t, input)
    requires forall e :: e in t ==> 7 <= ChargeRank(e.row)
    ensures var dup := Duplicated(t);
      var kept := Where(t, Not(dup));
      var g := Where(t, dup);
      var lost := Labels(Where(t, NeitherMask(Chain[7], t)));
      && Drawn(kept, input) && Drawn(g, input)
      && (forall e :: e in kept ==> 7 <= ChargeRank(e.row))
      && (forall e :: e in g ==> ChargeRank(e.row) == 7 && 3 == ErrorCode(Charge(e.row)))
      && Labels(t) == Labels(kept) + Labels(g) + lost
      && Labels(kept) !! Labels(g) && Labels(kept) !! lost && Labels(g) !! lost
      && lost == {}
      && KeysDistinct(kept)
      && (forall e :: e in g ==> EarlierTwin(input, e.index))
  {
    DuplicateMasks(t);
    var dup := Duplicated(t);
    WhereDrawn(t, Not(dup), input);
    WhereDrawn(t, dup, input);
    DuplicateTwins(t, input);
    FirstOccurrencesDistinct(t);
    DuplicateLabels(t, dup, NeitherMask(Chain[7], t));
  }

  /** A row the duplicate rule removes has an earlier input row with its key. */
  lemma DuplicateTwins(t: seq<Entry>, input: seq<Row>)
    requires Drawn(t, input)
    ensures forall e :: e in Where(t, Duplicated(t)) ==> EarlierTwin(input, e.index)
  {
    var dup := Duplicated(t);
    forall e | e in Where(t, dup) ensures EarlierTwin(input, e.index) {
      var i :| 0 <= i < |t| && dup[i] && t[i] == e;
      var j :| 0 <= j < i && KeyOf(t[j].row) == KeyOf(t[i].row);
      var w := t[j].index;
      assert t[j] in t && t[i] in t;
      assert w < e.index;
      assert KeyOf(input[w]) == KeyOf(input[e.index]);
    }
  }

  lemma DuplicateLabels(t: seq<Entry>, dup: seq<bool>, neither: seq<bool>)
    requires |dup| == |t| && |neither| == |t|
    requires Increasing(t)
    requires forall i :: 0 <= i < |t| ==> !neither[i]
    ensures var kept := Where(t, Not(dup));
      var g := Where(t, dup);
      var lost := Labels(Where(t, neither));
      && Labels(t) == Labels(kept) + Labels(g) + lost
      && Labels(kept) !! Labels(g) && Labels(kept) !! lost && Labels(g) !! lost
      && lost == {}
  {
    var lost := Labels(Where(t, neither));
    WhereSplit(t, dup, Not(dup), neither);
    forall l | l in lost ensures false {
      WhereLabels(t, neither, l);
    }
  }

  lemma {:induction false} RunInv(input: seq<Row>, k: nat, s: Stage, gone: set<nat>)
    requires k <= |Chain|
    requires Inv(input, k, s, gone)
    ensures Inv(input, |Chain|, Run(Chain[k..], s), gone + LostRun(Chain[k..], s))
    decreases |Chain| - k
  {
    ChainLayout();
    if k < |Chain| {
      if k < 7 {
        FilterStepInv(input, k, s, gone);
      } else {
        DuplicateStepInv(input, s, gone);
      }
      RunInv(input, k + 1, ApplyRule(Chain[k], s), gone + Lost(Chain[k], s));
      RunUnfold(k, s, gone);
    } else {
      assert Chain[k..] == [];
    }
  }

  /** One step of the fold over the chain's suffix starting at rule `k`. */
  lemma RunUnfold(k: nat, s: Stage, gone: set<nat>)
    requires k < |Chain|
    ensures Run(Chain[k..], s) == Run(Chain[k + 1..], ApplyRule(Chain[k], s))
    ensures gone + LostRun(Chain[k..], s)
         == (gone + Lost(Chain[k], s)) + LostRun(Chain[k + 1..], ApplyRule(Chain[k], s))
  {
    assert Chain[k..][0] == Chain[k];
    assert Chain[k..][1..] == Chain[k + 1..];
  }

  lemma PartitionInv(input: seq<Row>)
    ensures Inv(input, |Chain|, Partition(input), LostRun(Chain, Start(input)))
  {
    StartInv(input);
    RunInv(input, 0, Start(input), {});
    assert Chain[0..] == Chain;
  }
}
