/** The evaluation driver of Recall.py: the running TP/FN counters and the
    nested matching loops of `calculate_recall`, the reduction to overall and
    per-class recall, the walk over prediction folders, and the numeric-key
    ordering of a class-name table given as a JSON object. */
module Recall {
  import opened Text
  import opened Sorting
  import opened Geometry
  import opened Labels
  import opened Matcher
  import opened Counters
  import opened OrderedDict

  /** The per-class counter after recording outcomes: one increment at the
      class of every ground truth whose outcome is `want`. */
  function Tally(gts: seq<Label>, outcomes: seq<bool>, want: bool): map<int, nat>
    requires |gts| == |outcomes|
  {
    if gts == [] then map[]
    else
      var m := Tally(gts[..|gts| - 1], outcomes[..|gts| - 1], want);
      if outcomes[|gts| - 1] == want then Inc(m, ClassId(gts[|gts| - 1])) else m
  }

  /** Number of ground truths of class c. */
  function ClassTotal(gts: seq<Label>, c: int): nat {
    if gts == [] then 0
    else ClassTotal(gts[..|gts| - 1], c) + (if ClassId(gts[|gts| - 1]) == c then 1 else 0)
  }

  /** Per class, true positives plus false negatives is the number of ground
      truths of that class. */
  lemma {:induction false} TallyPerClass(gts: seq<Label>, outcomes: seq<bool>, c: int)
    requires |gts| == |outcomes|
    ensures Get(Tally(gts, outcomes, true), c) + Get(Tally(gts, outcomes, false), c) == ClassTotal(gts, c)
  {
    if gts != [] {
      TallyPerClass(gts[..|gts| - 1], outcomes[..|gts| - 1], c);
    }
  }

  /** A class has a counter entry exactly when some ground truth of that class
      had the counted outcome, and then its count is positive. */
  lemma {:induction false} TallyKeys(gts: seq<Label>, outcomes: seq<bool>, want: bool, c: int)
    requires |gts| == |outcomes|
    ensures c in Tally(gts, outcomes, want) <==>
              exists i :: 0 <= i < |gts| && ClassId(gts[i]) == c && outcomes[i] == want
    ensures c in Tally(gts, outcomes, want) ==> Tally(gts, outcomes, want)[c] > 0
  {
    if gts != [] {
      var n := |gts| - 1;
      TallyKeys(gts[..n], outcomes[..n], want, c);
      if c in Tally(gts[..n], outcomes[..n], want) {
        var i :| 0 <= i < n && ClassId(gts[..n][i]) == c && outcomes[..n][i] == want;
        assert ClassId(gts[i]) == c && outcomes[i] == want;
      }
      if exists i :: 0 <= i < |gts| && ClassId(gts[i]) == c && outcomes[i] == want {
        var i :| 0 <= i < |gts| && ClassId(gts[i]) == c && outcomes[i] == want;
        if i < n {
          assert ClassId(gts[..n][i]) == c && outcomes[..n][i] == want;
        }
      }
    }
  }

  /** `total / (tp + fn)`, or 0 when there is nothing to divide by. */
  function RecallOf(tp: nat, fn: nat): (r: real)
    ensures 0.0 <= r <= 1.0
    ensures tp + fn == 0 ==> r == 0.0
    ensures tp + fn > 0 ==> r * (tp + fn) as real == tp as real
    ensures r == 1.0 <==> tp > 0 && fn == 0
  {
    if tp + fn > 0 then
      var q := tp as real / (tp + fn) as real;
      assert q * (tp + fn) as real == tp as real;
      q
    else 0.0
  }

  /** Lines 137-150: the unused prediction of the ground truth's class with
      the highest IoU, the first one on ties; (0.0, -1) when none overlaps. */
  method BestPrediction(g: Label, preds: seq<Label>, predUsed: array<bool>) returns (bestIou: real, bestIdx: int)
    requires predUsed.Length == |preds|
    ensures Best(bestIou, bestIdx) == BestOf(g, preds, predUsed[..])
  {
    var gtClass := ClassId(g);
    ghost var used := predUsed[..];
    bestIou, bestIdx := 0.0, -1;
    for j := 0 to |preds|
      invariant Best(bestIou, bestIdx) == Scan(g, preds, used, j)
    {
      assert predUsed[j] == used[j];
      if predUsed[j] {
        continue;
      }
      var predClass := ClassId(preds[j]);
      if gtClass == predClass {
        var iou := Iou(g.box, preds[j].box);
        if iou > bestIou {
          bestIou, bestIdx := iou, j;
        }
      }
    }
  }

  lemma MatchPrefixNext(gts: seq<Label>, preds: seq<Label>, threshold: real, i: nat)
    requires i < |gts|
    ensures var st := MatchPrefix(gts, preds, threshold, i);
            var b := BestOf(gts[i], preds, st.used);
            MatchPrefix(gts, preds, threshold, i + 1) ==
              if Accept(b, threshold)
              then FrameState(st.used[b.idx := true], st.matched + [true], st.chosen + [b.idx])
              else FrameState(st.used, st.matched + [false], st.chosen + [-1])
  {}

  /** Lines 134-161 for ground truth i: find its best prediction and, when
      the threshold is met, mark both as matched. */
  method MatchGroundTruth(gts: seq<Label>, preds: seq<Label>, threshold: real, i: nat,
                          predUsed: array<bool>, gtMatched: array<bool>) returns (matched: bool)
    requires i < |gts| == gtMatched.Length && predUsed.Length == |preds| && predUsed != gtMatched
    requires predUsed[..] == MatchPrefix(gts, preds, threshold, i).used
    modifies predUsed, gtMatched
    ensures MatchPrefix(gts, preds, threshold, i + 1).matched == MatchPrefix(gts, preds, threshold, i).matched + [matched]
    ensures predUsed[..] == MatchPrefix(gts, preds, threshold, i + 1).used
    ensures gtMatched[..] == if matched then old(gtMatched[..])[i := true] else old(gtMatched[..])
  {
    var bestIou, bestIdx := BestPrediction(gts[i], preds, predUsed);
    matched := bestIdx >= 0 && bestIou >= threshold;
    ghost var used := predUsed[..];
    MatchPrefixNext(gts, preds, threshold, i);
    if matched {
      gtMatched[i] := true;
      predUsed[bestIdx] := true;
      assert predUsed[..] == used[bestIdx := true];
    }
  }

  /** The running counters of one evaluation (Recall.py lines 99-102), with
      the ground truths seen so far and their outcomes as ghost history. */
  class RecallCounter {
    var tp: nat
    var fn: nat
    var classTp: map<int, nat>
    var classFn: map<int, nat>
    ghost var gtsSeen: seq<Label>
    ghost var outcomes: seq<bool>

    ghost predicate Valid()
      reads this
    {
      && |outcomes| == |gtsSeen|
      && tp == Count(outcomes, true)
      && fn == Count(outcomes, false)
      && classTp == Tally(gtsSeen, outcomes, true)
      && classFn == Tally(gtsSeen, outcomes, false)
    }

    constructor ()
      ensures Valid() && gtsSeen == [] && outcomes == []
      ensures tp == 0 && fn == 0 && classTp == map[] && classFn == map[]
    {
      tp, fn := 0, 0;
      classTp, classFn := map[], map[];
      gtsSeen, outcomes := [], [];
    }

    /** One ground truth's outcome folded into the counters (lines 157-164). */
    method Record(g: Label, matched: bool)
      requires Valid()
      modifies this
      ensures Valid()
      ensures gtsSeen == old(gtsSeen) + [g] && outcomes == old(outcomes) + [matched]
    {
      var gtClass := ClassId(g);
      if matched {
        tp := tp + 1;
        classTp := Inc(classTp, gtClass);
      } else {
        fn := fn + 1;
        classFn := Inc(classFn, gtClass);
      }
      gtsSeen := gtsSeen + [g];
      outcomes := outcomes + [matched];
      assert gtsSeen[..|gtsSeen| - 1] == old(gtsSeen);
      assert outcomes[..|outcomes| - 1] == old(outcomes);
    }

    /** Lines 132-164: match one frame and fold its outcomes into the counters. */
    method ObserveFrame(gts: seq<Label>, preds: seq<Label>, threshold: real)
      requires Valid()
      modifies this
      ensures Valid()
      ensures gtsSeen == old(gtsSeen) + gts
      ensures outcomes == old(outcomes) + Match(gts, preds, threshold).matched
    {
      var gtMatched := new bool[|gts|](_ => false);
      var predUsed := new bool[|preds|](_ => false);
      assert predUsed[..] == NoneUsed(|preds|);
      for i := 0 to |gts|
        invariant Valid()
        invariant predUsed[..] == MatchPrefix(gts, preds, threshold, i).used
        invariant gtsSeen == old(gtsSeen) + gts[..i]
        invariant outcomes == old(outcomes) + MatchPrefix(gts, preds, threshold, i).matched
      {
        ghost var before := MatchPrefix(gts, preds, threshold, i).matched;
        var matched := MatchGroundTruth(gts, preds, threshold, i, predUsed, gtMatched);
        ghost var seen, done := gtsSeen, outcomes;
        Record(gts[i], matched);
        assert gtsSeen == seen + [gts[i]] && outcomes == done + [matched];
        SliceSnoc(gts, i);
        ConcatAssoc(old(gtsSeen), gts[..i], [gts[i]]);
        ConcatAssoc(old(outcomes), before, [matched]);
      }
      assert gts[..|gts|] == gts;
    }

    /** Overall recall (line 167). */
    function Overall(): (r: real)
      reads this
      requires Valid()
      ensures 0.0 <= r <= 1.0
      ensures |gtsSeen| == 0 ==> r == 0.0
      ensures |gtsSeen| > 0 ==> r * |gtsSeen| as real == tp as real
    {
      CountSplit(outcomes);
      RecallOf(tp, fn)
    }

    /** Lines 167-187: overall recall and the recall of every class that has
        a counter entry, visited in ascending id order. */
    method Report(classNames: seq<string>) returns (r: Option<RecallReport>)
      requires Valid()
      ensures r == ReportOf(gtsSeen, outcomes, classNames)
    {
      var overall := RecallOf(tp, fn);
      var results := ClassRecalls(classNames, classTp, classFn);
      if results.None? {
        return None;
      }
      r := Some(RecallReport(overall, results.value));
    }
  }

  /** `sorted(set(...))` on a set of class ids. */
  method SortedIds(ids: set<int>) returns (order: seq<int>)
    ensures order == Ascending(ids)
  {
    var rest := ids;
    order := [];
    while rest != {}
      invariant order + Ascending(rest) == Ascending(ids)
      decreases |rest|
    {
      MinExists(rest);
      var classId :| classId in rest && IsMin(classId, rest);
      AscendingFirst(rest, classId);
      ConcatAssoc(order, [classId], Ascending(rest - {classId}));
      order := order + [classId];
      rest := rest - {classId};
    }
    assert Ascending(rest) == [];
  }

  /** Lines 175-184: `class_recall_results` built over the class ids of both
      counters in ascending order; None is the IndexError of a class id below
      -len(class_names). */
  method ClassRecalls(classNames: seq<string>, classTp: map<int, nat>, classFn: map<int, nat>)
    returns (r: Option<Dict<string, real>>)
    ensures r == PerClass(classNames, Ascending(classTp.Keys + classFn.Keys), classTp, classFn)
  {
    var order := SortedIds(classTp.Keys + classFn.Keys);
    var results: Dict<string, real> := [];
    for k := 0 to |order|
      invariant PerClass(classNames, order[..k], classTp, classFn) == Some(results)
    {
      var classId := order[k];
      var classRecall := RecallOf(Get(classTp, classId), Get(classFn, classId));
      var name := ClassName(classNames, classId);
      assert order[..k + 1] == order[..k] + [classId];
      PerClassAppend(classNames, order[..k], classId, classTp, classFn);
      if name.None? {
        PerClassNoneSticky(classNames, order[..k + 1], order[k + 1..], classTp, classFn);
        assert order[..k + 1] + order[k + 1..] == order;
        return None;
      }
      results := Assign(results, name.value, classRecall);
    }
    assert order[..|order|] == order;
    r := Some(results);
  }

  /** The pair `calculate_recall` returns; the per-class dict keeps its
      insertion order. */
  datatype RecallReport = RecallReport(overall: real, perClass: Dict<string, real>)

  lemma ConcatAssoc<T>(a: seq<T>, b: seq<T>, c: seq<T>)
    ensures (a + b) + c == a + (b + c)
  {}

  predicate IsMin(m: int, s: set<int>) {
    forall x :: x in s ==> m <= x
  }

  lemma MinExists(s: set<int>)
    requires s != {}
    ensures exists m :: m in s && IsMin(m, s)
    decreases |s|
  {
    if forall x :: x !in s {
      assert false;
    }
    var x :| x in s;
    var s' := s - {x};
    if s' == {} {
      forall y | y in s ensures x <= y {
        assert y !in s';
      }
    } else {
      MinExists(s');
      var m' :| m' in s' && IsMin(m', s');
      var m := if x <= m' then x else m';
      forall y | y in s ensures m <= y {
        if y != x {
          assert y in s';
        }
      }
      assert m in s && IsMin(m, s);
    }
  }

  /** The elements of s in ascending order (Python `sorted` on a set of
      ints); AscendingSpec states what it holds. */
  ghost function Ascending(s: set<int>): (r: seq<int>)
    ensures |r| == |s|
    decreases |s|
  {
    if s == {} then []
    else
      MinExists(s);
      var m :| m in s && IsMin(m, s);
      [m] + Ascending(s - {m})
  }

  lemma AscendingUnfold(s: set<int>) returns (m: int)
    requires s != {}
    ensures m in s && IsMin(m, s) && Ascending(s) == [m] + Ascending(s - {m})
  {
    MinExists(s);
    m :| m in s && IsMin(m, s) && Ascending(s) == [m] + Ascending(s - {m});
  }

  /** The sorted list holds exactly the elements of the set, strictly ascending. */
  lemma {:induction false} AscendingSpec(s: set<int>)
    ensures forall x :: x in Ascending(s) <==> x in s
    ensures forall i, j :: 0 <= i < j < |Ascending(s)| ==> Ascending(s)[i] < Ascending(s)[j]
    decreases |s|
  {
    if s != {} {
      var m := AscendingUnfold(s);
      AscendingSpec(s - {m});
      var rest := Ascending(s - {m});
      assert forall x :: x in rest ==> m < x;
      assert Ascending(s) == [m] + rest;
      forall i, j | 0 <= i < j < |Ascending(s)| ensures Ascending(s)[i] < Ascending(s)[j] {
        if i > 0 {
          assert Ascending(s)[i] == rest[i - 1] && Ascending(s)[j] == rest[j - 1];
        } else {
          assert Ascending(s)[j] == rest[j - 1];
          assert rest[j - 1] in rest;
        }
      }
    }
  }

  lemma AscendingFirst(s: set<int>, m: int)
    requires m in s && IsMin(m, s)
    ensures Ascending(s) == [m] + Ascending(s - {m})
  {
    var m' := AscendingUnfold(s);
    assert m <= m' && m' <= m;
  }

  /** Python `class_names[class_id]` guarded by `class_id < len(class_names)`,
      with Python's negative indexing; None stands for the IndexError raised
      when `class_id < -len(class_names)`. */
  function ClassName(classNames: seq<string>, classId: int): (r: Option<string>)
    ensures r.None? <==> classId < -|classNames|
    ensures 0 <= classId < |classNames| ==> r == Some(classNames[classId])
    ensures classId >= |classNames| ==> r == Some("Class " + IntString(classId))
  {
    if classId < |classNames| then
      if classId >= 0 then Some(classNames[classId])
      else if classId >= -|classNames| then Some(classNames[|classNames| + classId])
      else None
    else Some("Class " + IntString(classId))
  }

  /** `class_recall_results` after visiting `ids` in order; a later class with
      the same name overwrites the value of an earlier one and keeps its
      place, as in a Python dict. */
  function PerClass(classNames: seq<string>, ids: seq<int>, tpm: map<int, nat>, fnm: map<int, nat>): Option<Dict<string, real>>
  {
    if ids == [] then Some([])
    else
      match PerClass(classNames, ids[..|ids| - 1], tpm, fnm)
      case None => None
      case Some(m) =>
        var c := ids[|ids| - 1];
        match ClassName(classNames, c)
        case None => None
        case Some(name) => Some(Assign(m, name, RecallOf(Get(tpm, c), Get(fnm, c))))
  }

  /** One more visited class: IndexError stays, otherwise its recall is
      stored under its name. */
  lemma PerClassAppend(classNames: seq<string>, ids: seq<int>, c: int, tpm: map<int, nat>, fnm: map<int, nat>)
    ensures PerClass(classNames, ids + [c], tpm, fnm) ==
              match PerClass(classNames, ids, tpm, fnm)
              case None => None
              case Some(m) =>
                match ClassName(classNames, c)
                case None => None
                case Some(name) => Some(Assign(m, name, RecallOf(Get(tpm, c), Get(fnm, c))))
  {
    assert (ids + [c])[..|ids|] == ids;
  }

  lemma {:induction false} PerClassNoneSticky(classNames: seq<string>, ids: seq<int>, more: seq<int>, tpm: map<int, nat>, fnm: map<int, nat>)
    requires PerClass(classNames, ids, tpm, fnm) == None
    ensures PerClass(classNames, ids + more, tpm, fnm) == None
    decreases |more|
  {
    if more != [] {
      var init := more[..|more| - 1];
      PerClassNoneSticky(classNames, ids, init, tpm, fnm);
      assert ids + more == (ids + init) + [more[|more| - 1]];
      PerClassAppend(classNames, ids + init, more[|more| - 1], tpm, fnm);
    } else {
      assert ids + more == ids;
    }
  }

  /** The report fails (IndexError) exactly when some visited class id is
      below -len(class_names). */
  lemma {:induction false} PerClassFails(classNames: seq<string>, ids: seq<int>, tpm: map<int, nat>, fnm: map<int, nat>)
    ensures PerClass(classNames, ids, tpm, fnm).None? <==> exists i :: 0 <= i < |ids| && ids[i] < -|classNames|
  {
    if ids != [] {
      var n := |ids| - 1;
      PerClassFails(classNames, ids[..n], tpm, fnm);
      if exists i :: 0 <= i < n && ids[..n][i] < -|classNames| {
        var i :| 0 <= i < n && ids[..n][i] < -|classNames|;
        assert ids[i] < -|classNames|;
      }
      if exists i :: 0 <= i < |ids| && ids[i] < -|classNames| {
        var i :| 0 <= i < |ids| && ids[i] < -|classNames|;
        if i < n {
          assert ids[..n][i] < -|classNames|;
        }
      }
    }
  }

  /** The entry of a class name holds the recall of the last visited class
      with that name. */
  lemma {:induction false} PerClassEntry(classNames: seq<string>, ids: seq<int>, tpm: map<int, nat>, fnm: map<int, nat>, k: nat)
    requires k < |ids| && PerClass(classNames, ids, tpm, fnm).Some?
    requires forall j :: k < j < |ids| ==> ClassName(classNames, ids[j]) != ClassName(classNames, ids[k])
    ensures ClassName(classNames, ids[k]).Some?
    ensures var name := ClassName(classNames, ids[k]).value;
            var m := PerClass(classNames, ids, tpm, fnm).value;
            Lookup(m, name) == Some(RecallOf(Get(tpm, ids[k]), Get(fnm, ids[k])))
  {
    var n := |ids| - 1;
    var m0 := PerClass(classNames, ids[..n], tpm, fnm);
    assert m0.Some?;
    var name := ClassName(classNames, ids[n]).value;
    var v := RecallOf(Get(tpm, ids[n]), Get(fnm, ids[n]));
    if k < n {
      assert forall j :: k < j < n ==> ids[..n][j] == ids[j];
      PerClassEntry(classNames, ids[..n], tpm, fnm, k);
      assert ids[..n][k] == ids[k];
    }
    AssignLookup(m0.value, name, v, ClassName(classNames, ids[k]).value);
  }

  /** The names of the visited classes, in visiting order. */
  function VisitedNames(classNames: seq<string>, ids: seq<int>): (r: seq<string>)
    requires forall i :: 0 <= i < |ids| ==> ids[i] >= -|classNames|
    ensures |r| == |ids|
    ensures forall i :: 0 <= i < |ids| ==> ClassName(classNames, ids[i]) == Some(r[i])
  {
    if ids == [] then []
    else VisitedNames(classNames, ids[..|ids| - 1]) + [ClassName(classNames, ids[|ids| - 1]).value]
  }

  /** The dict's keys are the names of the visited classes, each once, in the
      order in which a class of that name was first visited: over ids in
      ascending order, the names of the smaller ids come first. */
  lemma {:induction false} PerClassKeys(classNames: seq<string>, ids: seq<int>, tpm: map<int, nat>, fnm: map<int, nat>)
    requires PerClass(classNames, ids, tpm, fnm).Some?
    ensures forall i :: 0 <= i < |ids| ==> ids[i] >= -|classNames|
    ensures ItemKeys(PerClass(classNames, ids, tpm, fnm).value) == Dedup(VisitedNames(classNames, ids))
    decreases |ids|
  {
    PerClassFails(classNames, ids, tpm, fnm);
    if ids != [] {
      var n := |ids| - 1;
      var m0 := PerClass(classNames, ids[..n], tpm, fnm);
      assert m0.Some?;
      PerClassKeys(classNames, ids[..n], tpm, fnm);
      var name := ClassName(classNames, ids[n]).value;
      AssignKeys(m0.value, name, RecallOf(Get(tpm, ids[n]), Get(fnm, ids[n])));
      var names := VisitedNames(classNames, ids);
      assert names[..n] == VisitedNames(classNames, ids[..n]);
      DedupMembers(names[..n]);
    }
  }

  /** The whole report of `calculate_recall` for the ground truths seen and
      their outcomes. */
  ghost function ReportOf(gts: seq<Label>, outcomes: seq<bool>, classNames: seq<string>): Option<RecallReport>
    requires |gts| == |outcomes|
  {
    var tpm, fnm := Tally(gts, outcomes, true), Tally(gts, outcomes, false);
    match PerClass(classNames, Ascending(tpm.Keys + fnm.Keys), tpm, fnm)
    case None => None
    case Some(m) => Some(RecallReport(RecallOf(Count(outcomes, true), Count(outcomes, false)), m))
  }

  /** Every class in the per-class report has at least one ground truth, and
      every class with a ground truth is visited. */
  lemma ReportedClassesHaveGroundTruth(gts: seq<Label>, outcomes: seq<bool>, c: int)
    requires |gts| == |outcomes|
    ensures var tpm, fnm := Tally(gts, outcomes, true), Tally(gts, outcomes, false);
            c in Ascending(tpm.Keys + fnm.Keys) <==> ClassTotal(gts, c) > 0
  {
    TallyKeys(gts, outcomes, true, c);
    TallyKeys(gts, outcomes, false, c);
    TallyPerClass(gts, outcomes, c);
    AscendingSpec(Tally(gts, outcomes, true).Keys + Tally(gts, outcomes, false).Keys);
  }

  /** No ground truth at all: overall recall 0 and an empty per-class table. */
  lemma ReportOfNothing(classNames: seq<string>)
    ensures ReportOf([], [], classNames) == Some(RecallReport(0.0, []))
  {
    assert Ascending({}) == [];
  }
}
