/** The greedy choice of validation videos (balanced_split.py:49-72).
    `random.shuffle` is outside the model: the shuffled video order is an
    input, any arrangement of the videos. */
module SplitGreedy {
  import opened Text
  import opened Sorting
  import opened SplitIndex
  import opened Counters

  /** Every video named is one the tables know. */
  ghost predicate InTables(t: Tables, videos: seq<string>) {
    forall j :: 0 <= j < |videos| ==> videos[j] in t.videoImages
  }

  /** The number of the given images that carry category c. */
  function Hits(ic: map<int, set<int>>, ids: seq<int>, c: int): (r: nat)
    ensures r <= |ids|
  {
    if ids == [] then 0
    else Hits(ic, ids[..|ids| - 1], c) + if c in CatsAt(ic, ids[|ids| - 1]) then 1 else 0
  }

  /** `val_category_count[c]` once the videos `val` are chosen: one for each
      image of theirs that carries c, however many boxes of c it has. */
  function ValCount(t: Tables, val: seq<string>, c: int): nat
    requires InTables(t, val)
  {
    if val == [] then 0
    else ValCount(t, val[..|val| - 1], c) + Hits(t.imageCats, t.videoImages[val[|val| - 1]], c)
  }

  /** `val_img_count`: the number of images of the videos `val`. */
  function ImageTotal(t: Tables, val: seq<string>): nat
    requires InTables(t, val)
  {
    if val == [] then 0
    else ImageTotal(t, val[..|val| - 1]) + |t.videoImages[val[|val| - 1]]|
  }

  /** `is_helpful` (lines 58-60): some category of the video is still below
      its target. */
  predicate Helpful(t: Tables, val: seq<string>, v: string)
    requires Consistent(t) && InTables(t, val) && v in t.videoImages
  {
    exists c :: c in t.videoCats[v] && ValCount(t, val, c) < t.targets[c]
  }

  /** The videos chosen so far, in the order they were added, and whether
      the loop has stopped. */
  datatype Selection = Selection(val: seq<string>, stopped: bool)

  /** One turn of the loop (lines 62-72) for video v: after the stop, or
      when v is not helpful, nothing changes; otherwise v is added and the
      loop stops once the chosen videos hold a fifth of all images. */
  function Step(t: Tables, s: Selection, v: string): (r: Selection)
    requires Consistent(t) && InTables(t, s.val) && v in t.videoImages
    ensures InTables(t, r.val)
  {
    if s.stopped || !Helpful(t, s.val, v) then s
    else
      var val := s.val + [v];
      assert InTables(t, val) by {
        assert forall j :: 0 <= j < |s.val| ==> val[j] == s.val[j];
      }
      Selection(val, 5 * ImageTotal(t, val) >= t.imageCount)
  }

  /** The state after the loop has considered the first k videos of `order`. */
  function Greedy(t: Tables, order: seq<string>, k: nat): (r: Selection)
    requires Consistent(t) && InTables(t, order) && k <= |order|
    ensures InTables(t, r.val)
  {
    if k == 0 then Selection([], false) else Step(t, Greedy(t, order, k - 1), order[k - 1])
  }

  lemma ValCountSnoc(t: Tables, val: seq<string>, v: string, c: int)
    requires InTables(t, val) && v in t.videoImages
    ensures InTables(t, val + [v])
    ensures ValCount(t, val + [v], c) == ValCount(t, val, c) + Hits(t.imageCats, t.videoImages[v], c)
    ensures ImageTotal(t, val + [v]) == ImageTotal(t, val) + |t.videoImages[v]|
  {
    assert (val + [v])[..|val|] == val;
  }

  lemma HitsSnoc(ic: map<int, set<int>>, ids: seq<int>, i: nat, c: int)
    requires i < |ids|
    ensures Hits(ic, ids[..i + 1], c) == Hits(ic, ids[..i], c) + if c in CatsAt(ic, ids[i]) then 1 else 0
  {
    assert ids[..i + 1][..i] == ids[..i];
  }

  /** Lines 67-68 for one image: every category of the set counts once. */
  method AddCategories(counts: map<int, nat>, cats: set<int>) returns (r: map<int, nat>)
    ensures forall c :: Get(r, c) == Get(counts, c) + if c in cats then 1 else 0
  {
    r := counts;
    var rest := cats;
    while rest != {}
      invariant rest <= cats
      invariant forall c :: Get(r, c) == Get(counts, c) + if c in cats - rest then 1 else 0
      decreases rest
    {
      if forall x :: x !in rest {
        assert false;
      }
      var c :| c in rest;
      r := r[c := Get(r, c) + 1];
      rest := rest - {c};
    }
  }

  /** Lines 66-68: the counts of a newly chosen video's images are added. */
  method AddVideo(t: Tables, counts: map<int, nat>, vid: string) returns (r: map<int, nat>)
    requires vid in t.videoImages
    ensures forall c :: Get(r, c) == Get(counts, c) + Hits(t.imageCats, t.videoImages[vid], c)
  {
    var ids := t.videoImages[vid];
    r := counts;
    for i := 0 to |ids|
      invariant forall c :: Get(r, c) == Get(counts, c) + Hits(t.imageCats, ids[..i], c)
    {
      forall c ensures Hits(t.imageCats, ids[..i + 1], c) == Hits(t.imageCats, ids[..i], c) + if c in CatsAt(t.imageCats, ids[i]) then 1 else 0 {
        HitsSnoc(t.imageCats, ids, i, c);
      }
      r := AddCategories(r, CatsAt(t.imageCats, ids[i]));
    }
    assert ids[..|ids|] == ids;
  }

  /** `is_helpful` (lines 58-60) over the current counts. */
  method IsHelpful(t: Tables, counts: map<int, nat>, vid: string) returns (b: bool)
    requires Consistent(t) && vid in t.videoImages
    ensures b <==> exists c :: c in t.videoCats[vid] && Get(counts, c) < t.targets[c]
  {
    var cats := t.videoCats[vid];
    var rest := cats;
    while rest != {}
      invariant rest <= cats
      invariant forall c :: c in cats - rest ==> t.targets[c] <= Get(counts, c)
      decreases rest
    {
      if forall x :: x !in rest {
        assert false;
      }
      var c :| c in rest;
      if Get(counts, c) < t.targets[c] {
        return true;
      }
      rest := rest - {c};
    }
    return false;
  }

  /** The loop of lines 62-72: `val_videos` and `val_category_count` when it
      ends. The image count of line 70 is kept as a running sum: every video
      is added at most once, so it equals the sum over `val_videos`. */
  method ChooseValidation(t: Tables, order: seq<string>) returns (valVideos: set<string>, counts: map<int, nat>)
    requires Consistent(t) && InTables(t, order)
    ensures forall v :: v in valVideos <==> v in Greedy(t, order, |order|).val
    ensures forall c :: Get(counts, c) == ValCount(t, Greedy(t, order, |order|).val, c)
  {
    valVideos, counts := {}, map[];
    ghost var val: seq<string> := [];
    var valImages := 0;
    for i := 0 to |order|
      invariant Greedy(t, order, i) == Selection(val, false)
      invariant forall v :: v in valVideos <==> v in val
      invariant forall c :: Get(counts, c) == ValCount(t, val, c)
      invariant valImages == ImageTotal(t, val)
    {
      var vid := order[i];
      var helpful := IsHelpful(t, counts, vid);
      if !helpful {
        continue;
      }
      valVideos, counts, valImages := AddChosen(t, valVideos, counts, valImages, vid, val);
      val := val + [vid];
      if 5 * valImages >= t.imageCount {
        GreedyStays(t, order, i + 1, |order|);
        return;
      }
    }
  }

  /** Lines 65-68 and the running image count of line 70, for a chosen video. */
  method AddChosen(t: Tables, valVideos: set<string>, counts: map<int, nat>, valImages: nat, vid: string, ghost val: seq<string>)
    returns (valVideos': set<string>, counts': map<int, nat>, valImages': nat)
    requires InTables(t, val) && vid in t.videoImages
    requires forall v :: v in valVideos <==> v in val
    requires forall c :: Get(counts, c) == ValCount(t, val, c)
    requires valImages == ImageTotal(t, val)
    ensures InTables(t, val + [vid])
    ensures forall v :: v in valVideos' <==> v in val + [vid]
    ensures forall c :: Get(counts', c) == ValCount(t, val + [vid], c)
    ensures valImages' == ImageTotal(t, val + [vid])
  {
    forall c ensures ValCount(t, val + [vid], c) == ValCount(t, val, c) + Hits(t.imageCats, t.videoImages[vid], c) {
      ValCountSnoc(t, val, vid, c);
    }
    ValCountSnoc(t, val, vid, 0);
    valVideos' := valVideos + {vid};
    counts' := AddVideo(t, counts, vid);
    valImages' := valImages + |t.videoImages[vid]|;
  }

  /** Once stopped, the loop adds nothing more. */
  lemma {:induction false} GreedyStays(t: Tables, order: seq<string>, i: nat, k: nat)
    requires Consistent(t) && InTables(t, order) && i <= k <= |order|
    requires Greedy(t, order, i).stopped
    ensures Greedy(t, order, k) == Greedy(t, order, i)
    decreases k
  {
    if i < k {
      GreedyStays(t, order, i, k - 1);
    }
  }

  /** The stopping rule (lines 69-72): the loop has stopped exactly after the
      first addition that brought the chosen images to a fifth of all images;
      while it runs, the chosen videos hold fewer. */
  lemma {:induction false} GreedyStopRule(t: Tables, order: seq<string>, k: nat)
    requires Consistent(t) && InTables(t, order) && k <= |order|
    ensures var s := Greedy(t, order, k);
      s.stopped ==>
        && |s.val| > 0
        && 5 * ImageTotal(t, s.val) >= t.imageCount
        && (|s.val| == 1 || 5 * ImageTotal(t, s.val[..|s.val| - 1]) < t.imageCount)
    ensures var s := Greedy(t, order, k);
      !s.stopped ==> s.val == [] || 5 * ImageTotal(t, s.val) < t.imageCount
  {
    if k > 0 {
      GreedyStopRule(t, order, k - 1);
      var s := Greedy(t, order, k - 1);
      if !s.stopped && Helpful(t, s.val, order[k - 1]) {
        assert (s.val + [order[k - 1]])[..|s.val|] == s.val;
      }
    }
  }

  /** Every chosen video comes from the first k of the order. */
  lemma {:induction false} GreedyFromOrder(t: Tables, order: seq<string>, k: nat)
    requires Consistent(t) && InTables(t, order) && k <= |order|
    ensures forall j :: 0 <= j < |Greedy(t, order, k).val| ==>
      exists p :: 0 <= p < k && order[p] == Greedy(t, order, k).val[j]
  {
    if k > 0 {
      GreedyFromOrder(t, order, k - 1);
      var s := Greedy(t, order, k - 1);
      var val := Greedy(t, order, k).val;
      assert val == s.val || val == s.val + [order[k - 1]];
      forall j | 0 <= j < |val| ensures exists p :: 0 <= p < k && order[p] == val[j] {
        if j < |s.val| {
          assert val[j] == s.val[j];
          var p :| 0 <= p < k - 1 && order[p] == s.val[j];
        } else {
          assert order[k - 1] == val[j];
        }
      }
    } else {
      assert Greedy(t, order, k).val == [];
    }
  }

  /** Every chosen video was helpful when it was added (lines 63-65), and so
      has at least one category. */
  lemma {:induction false} GreedyHelpful(t: Tables, order: seq<string>, k: nat)
    requires Consistent(t) && InTables(t, order) && k <= |order|
    ensures forall j :: 0 <= j < |Greedy(t, order, k).val| ==>
      && Helpful(t, Greedy(t, order, k).val[..j], Greedy(t, order, k).val[j])
      && t.videoCats[Greedy(t, order, k).val[j]] != {}
  {
    if k > 0 {
      GreedyHelpful(t, order, k - 1);
      var s := Greedy(t, order, k - 1);
      var val := Greedy(t, order, k).val;
      if val != s.val {
        assert val == s.val + [order[k - 1]];
        forall j | 0 <= j < |val|
          ensures Helpful(t, val[..j], val[j]) && t.videoCats[val[j]] != {}
        {
          if j < |s.val| {
            assert val[..j] == s.val[..j];
            assert val[j] == s.val[j];
          } else {
            assert val[..j] == s.val;
          }
        }
      }
    }
  }

  /** Over an order without repeats, no video is chosen twice, so the set of
      line 70 counts each chosen video once. */
  lemma {:induction false} GreedyDistinct(t: Tables, order: seq<string>, k: nat)
    requires Consistent(t) && InTables(t, order) && k <= |order| && Distinct(order)
    ensures Distinct(Greedy(t, order, k).val)
  {
    if k > 0 {
      GreedyDistinct(t, order, k - 1);
      GreedyFromOrder(t, order, k - 1);
      var s := Greedy(t, order, k - 1);
      var val := Greedy(t, order, k).val;
      if val != s.val {
        assert val == s.val + [order[k - 1]];
        forall j | 0 <= j < |s.val| ensures s.val[j] != order[k - 1] {
          var p :| 0 <= p < k - 1 && order[p] == s.val[j];
        }
      }
    }
  }

  /** The chosen list only grows as the loop goes on. */
  lemma {:induction false} GreedyGrows(t: Tables, order: seq<string>, i: nat, k: nat)
    requires Consistent(t) && InTables(t, order) && i <= k <= |order|
    ensures Greedy(t, order, i).val <= Greedy(t, order, k).val
    decreases k
  {
    if i < k {
      GreedyGrows(t, order, i, k - 1);
    }
  }

  /** A video that was not chosen was either unhelpful when its turn came or
      came after the loop had stopped (lines 63-64, 72). */
  lemma GreedySkips(t: Tables, order: seq<string>, i: nat)
    requires Consistent(t) && InTables(t, order) && i < |order|
    requires order[i] !in Greedy(t, order, |order|).val
    ensures Greedy(t, order, i).stopped || !Helpful(t, Greedy(t, order, i).val, order[i])
  {
    assert order[i] !in Greedy(t, order, i + 1).val by {
      GreedyKeeps(t, order, i + 1, |order|, order[i]);
    }
    GreedyTakes(t, order, i);
  }

  /** A chosen video stays chosen. */
  lemma {:induction false} GreedyKeeps(t: Tables, order: seq<string>, i: nat, k: nat, v: string)
    requires Consistent(t) && InTables(t, order) && i <= k <= |order|
    ensures v in Greedy(t, order, i).val ==> v in Greedy(t, order, k).val
    decreases k
  {
    if i < k {
      GreedyKeeps(t, order, i, k - 1, v);
      var s := Greedy(t, order, k - 1).val;
      assert Greedy(t, order, k).val == s || Greedy(t, order, k).val == s + [order[k - 1]];
    }
  }

  /** A helpful video met before the stop is chosen. */
  lemma GreedyTakes(t: Tables, order: seq<string>, i: nat)
    requires Consistent(t) && InTables(t, order) && i < |order|
    ensures order[i] !in Greedy(t, order, i + 1).val ==>
      Greedy(t, order, i).stopped || !Helpful(t, Greedy(t, order, i).val, order[i])
  {
    var s := Greedy(t, order, i);
    if !s.stopped && Helpful(t, s.val, order[i]) {
      assert Greedy(t, order, i + 1).val == s.val + [order[i]];
    }
  }
}
