/** The per-frame greedy matcher of Recall.py `calculate_recall` (lines
    132-164) as specification functions: ground-truth boxes are visited in
    input order; each takes the first unused same-class prediction of highest
    IoU, if that IoU is positive and reaches the threshold. */
module Matcher {
  import opened Geometry
  import opened Labels

  function Overlap(g: Label, p: Label): real { Iou(g.box, p.box) }

  /** Prediction k may be matched to g: it is unused and its integer class is g's. */
  predicate Candidate(g: Label, preds: seq<Label>, used: seq<bool>, k: int)
    requires |used| == |preds|
  {
    0 <= k < |preds| && !used[k] && ClassId(preds[k]) == ClassId(g)
  }

  /** `best_iou` and `best_pred_idx` of the inner loop. */
  datatype Best = Best(iou: real, idx: int)

  /** The inner loop after scanning the first n predictions: the first
      candidate whose IoU is larger than every earlier one and than 0. */
  function Scan(g: Label, preds: seq<Label>, used: seq<bool>, n: nat): (b: Best)
    requires |used| == |preds| && n <= |preds|
    ensures -1 <= b.idx < n
    ensures b.idx == -1 ==> b.iou == 0.0
    ensures b.idx >= 0 ==> Candidate(g, preds, used, b.idx) && b.iou == Overlap(g, preds[b.idx]) && b.iou > 0.0
    ensures forall k :: 0 <= k < n && Candidate(g, preds, used, k) ==> Overlap(g, preds[k]) <= b.iou
    ensures forall k :: 0 <= k < b.idx && Candidate(g, preds, used, k) ==> Overlap(g, preds[k]) < b.iou
  {
    if n == 0 then Best(0.0, -1)
    else
      var b := Scan(g, preds, used, n - 1);
      if Candidate(g, preds, used, n - 1) && Overlap(g, preds[n - 1]) > b.iou
      then Best(Overlap(g, preds[n - 1]), n - 1)
      else b
  }

  /** The best candidate over all predictions. */
  function BestOf(g: Label, preds: seq<Label>, used: seq<bool>): Best
    requires |used| == |preds|
  {
    Scan(g, preds, used, |preds|)
  }

  /** The threshold test of line 156, together with "a candidate was found". */
  predicate Accept(b: Best, threshold: real) {
    b.idx >= 0 && b.iou >= threshold
  }

  /** `pred_used`, `gt_matched` and, for each matched ground truth, the index
      of the prediction it consumed (-1 when unmatched). */
  datatype FrameState = FrameState(used: seq<bool>, matched: seq<bool>, chosen: seq<int>)

  function NoneUsed(n: nat): (s: seq<bool>)
    ensures |s| == n && forall p :: 0 <= p < n ==> !s[p]
  {
    seq(n, _ => false)
  }

  /** The state after the first k ground-truth boxes. */
  function MatchPrefix(gts: seq<Label>, preds: seq<Label>, threshold: real, k: nat): (st: FrameState)
    requires k <= |gts|
    ensures |st.used| == |preds| && |st.matched| == k && |st.chosen| == k
  {
    if k == 0 then FrameState(NoneUsed(|preds|), [], [])
    else
      var st := MatchPrefix(gts, preds, threshold, k - 1);
      var b := BestOf(gts[k - 1], preds, st.used);
      if Accept(b, threshold)
      then FrameState(st.used[b.idx := true], st.matched + [true], st.chosen + [b.idx])
      else FrameState(st.used, st.matched + [false], st.chosen + [-1])
  }

  function Match(gts: seq<Label>, preds: seq<Label>, threshold: real): FrameState {
    MatchPrefix(gts, preds, threshold, |gts|)
  }

  /** A matched ground truth consumed a real prediction of its own class. */
  ghost predicate ChosenValid(gts: seq<Label>, preds: seq<Label>, st: FrameState, k: nat)
    requires k <= |gts| && |st.matched| == k && |st.chosen| == k
  {
    forall i :: 0 <= i < k ==>
      && (st.matched[i] <==> st.chosen[i] >= 0)
      && (st.matched[i] ==> st.chosen[i] < |preds| && ClassId(preds[st.chosen[i]]) == ClassId(gts[i]))
  }

  /** A prediction is used exactly when some ground truth consumed it. */
  ghost predicate UsedIsChosen(preds: seq<Label>, st: FrameState, k: nat)
    requires |st.used| == |preds| && |st.chosen| == k
  {
    forall p :: 0 <= p < |preds| ==> (st.used[p] <==> exists i :: 0 <= i < k && st.chosen[i] == p)
  }

  /** No prediction is consumed twice. */
  ghost predicate ChosenDistinct(st: FrameState, k: nat)
    requires |st.matched| == k && |st.chosen| == k
  {
    forall i, j :: 0 <= i < j < k && st.matched[i] ==> st.chosen[i] != st.chosen[j]
  }

  ghost predicate OneToOne(gts: seq<Label>, preds: seq<Label>, st: FrameState, k: nat)
    requires k <= |gts| && |st.used| == |preds| && |st.matched| == k && |st.chosen| == k
  {
    ChosenValid(gts, preds, st, k) && UsedIsChosen(preds, st, k) && ChosenDistinct(st, k)
  }

  lemma {:induction false} MatchPrefixOneToOne(gts: seq<Label>, preds: seq<Label>, threshold: real, k: nat)
    requires k <= |gts|
    ensures OneToOne(gts, preds, MatchPrefix(gts, preds, threshold, k), k)
  {
    if k > 0 {
      MatchPrefixOneToOne(gts, preds, threshold, k - 1);
      var prev := MatchPrefix(gts, preds, threshold, k - 1);
      var b := BestOf(gts[k - 1], preds, prev.used);
      var st := MatchPrefix(gts, preds, threshold, k);
      if Accept(b, threshold) {
        assert st == FrameState(prev.used[b.idx := true], prev.matched + [true], prev.chosen + [b.idx]);
        AcceptKeepsUsedIsChosen(preds, prev, k - 1, b.idx);
        AcceptKeepsDistinct(preds, prev, k - 1, b.idx);
        StepKeepsChosenValid(gts, preds, prev, k - 1, prev.used[b.idx := true], true, b.idx);
      } else {
        assert st == FrameState(prev.used, prev.matched + [false], prev.chosen + [-1]);
        RejectKeepsUsedIsChosen(preds, prev, k - 1);
        StepKeepsChosenValid(gts, preds, prev, k - 1, prev.used, false, -1);
        RejectKeepsDistinct(prev, k - 1);
      }
    }
  }

  lemma StepKeepsChosenValid(gts: seq<Label>, preds: seq<Label>, prev: FrameState, k: nat, used: seq<bool>, matched: bool, c: int)
    requires k < |gts| && |prev.matched| == k && |prev.chosen| == k
    requires ChosenValid(gts, preds, prev, k)
    requires matched <==> c >= 0
    requires matched ==> c < |preds| && ClassId(preds[c]) == ClassId(gts[k])
    ensures ChosenValid(gts, preds, FrameState(used, prev.matched + [matched], prev.chosen + [c]), k + 1)
  {
    var st := FrameState(used, prev.matched + [matched], prev.chosen + [c]);
    forall i | 0 <= i < k + 1
      ensures && (st.matched[i] <==> st.chosen[i] >= 0)
              && (st.matched[i] ==> st.chosen[i] < |preds| && ClassId(preds[st.chosen[i]]) == ClassId(gts[i]))
    {
      if i < k {
        assert st.matched[i] == prev.matched[i] && st.chosen[i] == prev.chosen[i];
      }
    }
  }

  lemma AcceptKeepsUsedIsChosen(preds: seq<Label>, prev: FrameState, k: nat, c: int)
    requires |prev.used| == |preds| && |prev.chosen| == k && 0 <= c < |preds|
    requires UsedIsChosen(preds, prev, k)
    ensures UsedIsChosen(preds, FrameState(prev.used[c := true], prev.matched + [true], prev.chosen + [c]), k + 1)
  {
    var st := FrameState(prev.used[c := true], prev.matched + [true], prev.chosen + [c]);
    forall p | 0 <= p < |preds| ensures st.used[p] <==> exists i :: 0 <= i < k + 1 && st.chosen[i] == p {
      if p == c {
        assert st.chosen[k] == p;
      } else if st.used[p] {
        var i :| 0 <= i < k && prev.chosen[i] == p;
        assert st.chosen[i] == p;
      } else {
        forall i | 0 <= i < k + 1 ensures st.chosen[i] != p {
          if i < k {
            assert st.chosen[i] == prev.chosen[i];
          }
        }
      }
    }
  }

  lemma AcceptKeepsDistinct(preds: seq<Label>, prev: FrameState, k: nat, c: int)
    requires |prev.used| == |preds| && |prev.chosen| == k && |prev.matched| == k && 0 <= c < |preds|
    requires UsedIsChosen(preds, prev, k) && ChosenDistinct(prev, k) && !prev.used[c]
    ensures ChosenDistinct(FrameState(prev.used[c := true], prev.matched + [true], prev.chosen + [c]), k + 1)
  {
    var st := FrameState(prev.used[c := true], prev.matched + [true], prev.chosen + [c]);
    forall i, j | 0 <= i < j < k + 1 && st.matched[i] ensures st.chosen[i] != st.chosen[j] {
      assert st.chosen[i] == prev.chosen[i];
      if j < k {
        assert prev.matched[i] && st.chosen[j] == prev.chosen[j];
      }
    }
  }

  lemma RejectKeepsDistinct(prev: FrameState, k: nat)
    requires |prev.chosen| == k && |prev.matched| == k
    requires ChosenDistinct(prev, k)
    requires forall i :: 0 <= i < k && prev.matched[i] ==> prev.chosen[i] >= 0
    ensures ChosenDistinct(FrameState(prev.used, prev.matched + [false], prev.chosen + [-1]), k + 1)
  {
    var st := FrameState(prev.used, prev.matched + [false], prev.chosen + [-1]);
    forall i, j | 0 <= i < j < k + 1 && st.matched[i] ensures st.chosen[i] != st.chosen[j] {
      assert st.matched[i] == prev.matched[i] && st.chosen[i] == prev.chosen[i];
      if j < k {
        assert st.chosen[j] == prev.chosen[j];
      } else {
        assert st.chosen[j] == -1;
      }
    }
  }

  lemma RejectKeepsUsedIsChosen(preds: seq<Label>, prev: FrameState, k: nat)
    requires |prev.used| == |preds| && |prev.chosen| == k
    requires UsedIsChosen(preds, prev, k)
    ensures UsedIsChosen(preds, FrameState(prev.used, prev.matched + [false], prev.chosen + [-1]), k + 1)
  {
    var st := FrameState(prev.used, prev.matched + [false], prev.chosen + [-1]);
    forall p | 0 <= p < |preds| ensures st.used[p] <==> exists i :: 0 <= i < k + 1 && st.chosen[i] == p {
      if st.used[p] {
        var i :| 0 <= i < k && prev.chosen[i] == p;
        assert st.chosen[i] == p;
      } else {
        forall i | 0 <= i < k + 1 ensures st.chosen[i] != p {
          if i < k {
            assert st.chosen[i] == prev.chosen[i];
          }
        }
      }
    }
  }

  /** Later ground truths never revise an earlier decision. */
  lemma {:induction false} MatchPrefixStable(gts: seq<Label>, preds: seq<Label>, threshold: real, j: nat, k: nat)
    requires j <= k <= |gts|
    ensures MatchPrefix(gts, preds, threshold, k).matched[..j] == MatchPrefix(gts, preds, threshold, j).matched
    ensures MatchPrefix(gts, preds, threshold, k).chosen[..j] == MatchPrefix(gts, preds, threshold, j).chosen
    decreases k
  {
    if j < k {
      MatchPrefixStable(gts, preds, threshold, j, k - 1);
      var prev := MatchPrefix(gts, preds, threshold, k - 1);
      var st := MatchPrefix(gts, preds, threshold, k);
      assert st.matched[..j] == prev.matched[..j];
      assert st.chosen[..j] == prev.chosen[..j];
    }
  }

  /** Ground truth i is a true positive exactly when, among the predictions
      still unused when its turn comes, some prediction of its class has a
      positive IoU with it that reaches the threshold. */
  lemma MatchedIff(gts: seq<Label>, preds: seq<Label>, threshold: real, i: nat)
    requires i < |gts|
    ensures var before := MatchPrefix(gts, preds, threshold, i).used;
            Match(gts, preds, threshold).matched[i] <==>
              exists p :: Candidate(gts[i], preds, before, p)
                          && Overlap(gts[i], preds[p]) > 0.0 && Overlap(gts[i], preds[p]) >= threshold
  {
    MatchPrefixStable(gts, preds, threshold, i + 1, |gts|);
    var m := Match(gts, preds, threshold).matched;
    assert m[i] == m[..i + 1][i];
    var before := MatchPrefix(gts, preds, threshold, i).used;
    var b := BestOf(gts[i], preds, before);
    if !m[i] {
      forall p | Candidate(gts[i], preds, before, p) && Overlap(gts[i], preds[p]) > 0.0
        ensures Overlap(gts[i], preds[p]) < threshold
      {
        assert Overlap(gts[i], preds[p]) <= b.iou;
      }
    }
  }

  /** A true positive consumed the first unused same-class prediction of
      maximal IoU (ties go to the earliest), and that IoU reaches the
      threshold and is positive. */
  lemma ChosenIsFirstBest(gts: seq<Label>, preds: seq<Label>, threshold: real, i: nat)
    requires i < |gts| && Match(gts, preds, threshold).matched[i]
    ensures var before := MatchPrefix(gts, preds, threshold, i).used;
            var c := Match(gts, preds, threshold).chosen[i];
            && Candidate(gts[i], preds, before, c)
            && Overlap(gts[i], preds[c]) >= threshold && Overlap(gts[i], preds[c]) > 0.0
            && (forall p :: Candidate(gts[i], preds, before, p) ==> Overlap(gts[i], preds[p]) <= Overlap(gts[i], preds[c]))
            && (forall p :: 0 <= p < c && Candidate(gts[i], preds, before, p) ==> Overlap(gts[i], preds[p]) < Overlap(gts[i], preds[c]))
  {
    MatchPrefixStable(gts, preds, threshold, i + 1, |gts|);
    var st := Match(gts, preds, threshold);
    assert st.matched[i] == st.matched[..i + 1][i];
    assert st.chosen[i] == st.chosen[..i + 1][i];
  }

  /** Each ground-truth box of the frame is a true positive or a false
      negative, never both and never neither, and no prediction serves two
      ground truths. */
  lemma MatchOneToOne(gts: seq<Label>, preds: seq<Label>, threshold: real)
    ensures var st := Match(gts, preds, threshold);
            && |st.matched| == |gts|
            && (forall i, j :: 0 <= i < j < |gts| && st.matched[i] && st.matched[j] ==> st.chosen[i] != st.chosen[j])
            && (forall i :: 0 <= i < |gts| && st.matched[i] ==>
                  0 <= st.chosen[i] < |preds| && ClassId(preds[st.chosen[i]]) == ClassId(gts[i]))
  {
    MatchPrefixOneToOne(gts, preds, threshold, |gts|);
  }

  /** Number of entries equal to b. */
  function Count(s: seq<bool>, b: bool): nat
  {
    if s == [] then 0 else Count(s[..|s| - 1], b) + (if s[|s| - 1] == b then 1 else 0)
  }

  /** Every outcome is counted once, as a true positive or as a false negative. */
  lemma {:induction false} CountSplit(s: seq<bool>)
    ensures Count(s, true) + Count(s, false) == |s|
  {
    if s != [] {
      CountSplit(s[..|s| - 1]);
    }
  }

  // ---------------------------------------------------------------------
  // The decision exactly as line 156 writes it. With `iou_threshold <= 0` a
  // ground truth that found no candidate (`best_pred_idx == -1`) still passes
  // `best_iou >= iou_threshold`; line 160 then marks `pred_used[-1]`, which in
  // Python is the LAST prediction, or raises IndexError when there is none.

  datatype Outcome = Done(st: FrameState) | IndexError

  function MatchPrefixAsWritten(gts: seq<Label>, preds: seq<Label>, threshold: real, k: nat): (r: Outcome)
    requires k <= |gts|
    ensures r.Done? ==> |r.st.used| == |preds| && |r.st.matched| == k && |r.st.chosen| == k
  {
    if k == 0 then Done(FrameState(NoneUsed(|preds|), [], []))
    else
      match MatchPrefixAsWritten(gts, preds, threshold, k - 1)
      case IndexError => IndexError
      case Done(st) =>
        var b := BestOf(gts[k - 1], preds, st.used);
        if b.iou >= threshold then
          // Python's negative index: -1 names the last element
          var slot := if b.idx >= 0 then b.idx else |preds| - 1;
          if slot < 0 then IndexError
          else Done(FrameState(st.used[slot := true], st.matched + [true], st.chosen + [b.idx]))
        else Done(FrameState(st.used, st.matched + [false], st.chosen + [-1]))
  }

  /** For every positive threshold the code as written and the model agree. */
  lemma {:induction false} AsWrittenAgreesForPositiveThreshold(gts: seq<Label>, preds: seq<Label>, threshold: real, k: nat)
    requires threshold > 0.0 && k <= |gts|
    ensures MatchPrefixAsWritten(gts, preds, threshold, k) == Done(MatchPrefix(gts, preds, threshold, k))
  {
    if k > 0 {
      AsWrittenAgreesForPositiveThreshold(gts, preds, threshold, k - 1);
    }
  }

  /** With threshold 0 the code as written counts a ground truth whose only
      prediction has another class as a true positive and marks that
      prediction used; the model counts a false negative. */
  lemma AsWrittenZeroThresholdMiscounts()
    ensures var r := Rect(0.1, 0.1, 0.1, 0.1);
            var gts, preds := [Label(0.0, r)], [Label(1.0, r)];
            && MatchPrefixAsWritten(gts, preds, 0.0, 1) == Done(FrameState([true], [true], [-1]))
            && Match(gts, preds, 0.0) == FrameState([false], [false], [-1])
  {
    var r := Rect(0.1, 0.1, 0.1, 0.1);
    var gts, preds := [Label(0.0, r)], [Label(1.0, r)];
    assert ClassId(preds[0]) != ClassId(gts[0]);
    assert !Candidate(gts[0], preds, NoneUsed(1), 0);
    assert NoneUsed(1)[0 := true] == [true];
  }

  /** With threshold 0 and no predictions at all the code as written raises. */
  lemma AsWrittenZeroThresholdRaises()
    ensures MatchPrefixAsWritten([Label(0.0, Rect(0.5, 0.5, 0.2, 0.2))], [], 0.0, 1) == IndexError
    ensures Match([Label(0.0, Rect(0.5, 0.5, 0.2, 0.2))], [], 0.0).matched == [false]
  {}

  // ---------------------------------------------------------------------
  // Worked examples.

  /** An identical same-class prediction is a true positive at threshold 0.3. */
  lemma ExampleIdenticalBoxMatches()
    ensures var l := Label(0.0, Rect(0.5, 0.5, 0.2, 0.2));
            Match([l], [l], 0.3) == FrameState([true], [true], [0])
  {
    var l := Label(0.0, Rect(0.5, 0.5, 0.2, 0.2));
    IouSelf(l.box);
    assert NoneUsed(1)[0 := true] == [true];
  }

  /** A class mismatch is a false negative however well the boxes overlap. */
  lemma ExampleClassMismatchMisses()
    ensures var r := Rect(0.1, 0.1, 0.1, 0.1);
            Match([Label(0.0, r)], [Label(1.0, r)], 0.3).matched == [false]
  {
    var r := Rect(0.1, 0.1, 0.1, 0.1);
    assert !Candidate(Label(0.0, r), [Label(1.0, r)], NoneUsed(1), 0);
  }

  /** Two ground truths competing for one prediction: the first in input
      order takes it, the second is a false negative. */
  lemma ExampleFirstGroundTruthWins()
    ensures var l := Label(0.0, Rect(0.5, 0.5, 0.2, 0.2));
            Match([l, l], [l], 0.3) == FrameState([true], [true, false], [0, -1])
  {
    var l := Label(0.0, Rect(0.5, 0.5, 0.2, 0.2));
    IouSelf(l.box);
    assert NoneUsed(1)[0 := true] == [true];
    assert BestOf(l, [l], NoneUsed(1)) == Best(1.0, 0);
    var gts := [l, l];
    assert gts[0] == l && gts[1] == l;
    var st1 := MatchPrefix(gts, [l], 0.3, 1);
    assert MatchPrefix(gts, [l], 0.3, 0) == FrameState(NoneUsed(1), [], []);
    assert st1 == FrameState([true], [true], [0]);
    assert !Candidate(l, [l], st1.used, 0);
  }
}
