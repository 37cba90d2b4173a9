/** The directory walk of `calculate_recall` (Recall.py lines 104-164): which
    frames are evaluated, in which order, and which label file each one is
    compared with. A directory listing is a value: a sequence of entries in
    the order `os.listdir` returns them. */
module Evaluation {
  import opened Text
  import opened Sorting
  import opened Labels
  import opened Matcher
  import opened Recall

  /** A directory entry: a sub-directory with its own listing, or a file
      given as its lines (see Labels). */
  datatype Entry = Dir(name: string, children: seq<Entry>) | File(name: string, lines: seq<Line>)

  /** The entry of that name in a listing, if any (names in one directory are unique). */
  function Find(listing: seq<Entry>, name: string): (r: Option<Entry>)
    ensures r.Some? ==> r.value in listing && r.value.name == name
    ensures r.None? ==> forall e :: e in listing ==> e.name != name
  {
    if listing == [] then None
    else if listing[0].name == name then Some(listing[0])
    else Find(listing[1..], name)
  }

  /** What `load_labels_from_yolo_txt` reads at a path: a missing path gives
      no lines, and so does a directory, whose `open` fails inside the `try`. */
  function Content(e: Option<Entry>): Option<seq<Line>> {
    match e
    case Some(File(_, lines)) => Some(lines)
    case _ => None
  }

  /** The listing of `root/name`; an absent or non-directory path has no files. */
  function SubListing(root: seq<Entry>, name: string): seq<Entry> {
    match Find(root, name)
    case Some(Dir(_, children)) => children
    case _ => []
  }

  ghost predicate NameLe(a: Entry, b: Entry) { LexLe(a.name, b.name) }

  lemma NameLeIsTotalPreorder()
    ensures TotalPreorder((a: Entry, b: Entry) => LexLe(a.name, b.name))
  {
    forall a: Entry, b: Entry ensures LexLe(a.name, b.name) || LexLe(b.name, a.name) {
      LexLeTotal(a.name, b.name);
    }
    forall a: Entry, b: Entry, c: Entry | LexLe(a.name, b.name) && LexLe(b.name, c.name)
      ensures LexLe(a.name, c.name)
    {
      LexLeTransitive(a.name, b.name, c.name);
    }
  }

  /** Entries sorted by name, as `list.sort()` orders their names. */
  function SortByName(es: seq<Entry>): (r: seq<Entry>)
    ensures multiset(r) == multiset(es)
    ensures forall i, j :: 0 <= i < j < |r| ==> LexLe(r[i].name, r[j].name)
  {
    var le := (a: Entry, b: Entry) => LexLe(a.name, b.name);
    NameLeIsTotalPreorder();
    SortBySorted(es, le);
    SortBy(es, le)
  }

  predicate IsVideoFolder(e: Entry) { e.Dir? && StartsWith(e.name, "video") }

  predicate IsPredictionFile(e: Entry) { EndsWith(LowerStr(e.name), ".txt") }

  function Filter(es: seq<Entry>, keep: Entry -> bool): (r: seq<Entry>)
    ensures forall e :: e in r <==> e in es && keep(e)
  {
    if es == [] then []
    else (if keep(es[0]) then [es[0]] else []) + Filter(es[1..], keep)
  }

  /** Lines 107-108: the `video*` sub-directories of the prediction root, sorted. */
  function VideoFolders(predRoot: seq<Entry>): (r: seq<Entry>)
    ensures forall e :: e in r <==> e in predRoot && IsVideoFolder(e)
    ensures forall i :: 0 <= i < |r| ==> r[i].Dir?
  {
    var r := SortByName(Filter(predRoot, IsVideoFolder));
    assert forall e :: e in r <==> e in multiset(r);
    assert forall i :: 0 <= i < |r| ==> r[i] in r;
    r
  }

  /** Lines 119-120: entries whose lower-cased name ends in ".txt", sorted.
      Directories are not excluded: such an entry reads as an empty file. */
  function PredictionFiles(video: seq<Entry>): (r: seq<Entry>)
    ensures forall e :: e in r <==> e in video && IsPredictionFile(e)
  {
    var r := SortByName(Filter(video, IsPredictionFile));
    assert forall e :: e in r <==> e in multiset(r);
    r
  }

  /** The two box lists compared for one prediction file. */
  datatype Frame = Frame(gts: seq<Label>, preds: seq<Label>)

  /** Lines 122-130: the prediction file itself, and `<base>.txt` in the
      video's folder under the label root. */
  function FrameOf(labelRoot: seq<Entry>, video: string, predFile: Entry): Frame {
    var base := Splitext(predFile.name).0;
    var gtFile := Find(SubListing(labelRoot, video), base + ".txt");
    Frame(Load(Content(gtFile)), Load(Content(Some(predFile))))
  }

  function VideoFrames(labelRoot: seq<Entry>, video: Entry): (r: seq<Frame>)
    requires video.Dir?
    ensures |r| == |PredictionFiles(video.children)|
  {
    var files := PredictionFiles(video.children);
    seq(|files|, k requires 0 <= k < |files| => FrameOf(labelRoot, video.name, files[k]))
  }

  /** Every frame of the given videos, video by video. */
  function FramesOf(labelRoot: seq<Entry>, videos: seq<Entry>): seq<Frame>
    requires forall e :: e in videos ==> e.Dir?
  {
    if videos == [] then []
    else FramesOf(labelRoot, videos[..|videos| - 1]) + VideoFrames(labelRoot, videos[|videos| - 1])
  }

  /** The frames `calculate_recall` evaluates, in order. */
  function Frames(predRoot: seq<Entry>, labelRoot: seq<Entry>): seq<Frame> {
    FramesOf(labelRoot, VideoFolders(predRoot))
  }

  function AllGts(frames: seq<Frame>): seq<Label> {
    if frames == [] then [] else AllGts(frames[..|frames| - 1]) + frames[|frames| - 1].gts
  }

  function AllOutcomes(frames: seq<Frame>, threshold: real): (r: seq<bool>)
    ensures |r| == |AllGts(frames)|
  {
    if frames == [] then []
    else
      var last := frames[|frames| - 1];
      AllOutcomes(frames[..|frames| - 1], threshold) + Match(last.gts, last.preds, threshold).matched
  }

  /** What `calculate_recall` returns for these two directory trees; None is
      the IndexError of a class id below -len(class_names). */
  ghost function Evaluate(predRoot: seq<Entry>, labelRoot: seq<Entry>, threshold: real, classNames: seq<string>): Option<RecallReport> {
    var frames := Frames(predRoot, labelRoot);
    ReportOf(AllGts(frames), AllOutcomes(frames, threshold), classNames)
  }

  lemma AppendFrame(frames: seq<Frame>, f: Frame, threshold: real)
    ensures AllGts(frames + [f]) == AllGts(frames) + f.gts
    ensures AllOutcomes(frames + [f], threshold) == AllOutcomes(frames, threshold) + Match(f.gts, f.preds, threshold).matched
  {
    assert (frames + [f])[..|frames|] == frames;
  }

  lemma {:induction false} AppendFrames(frames: seq<Frame>, more: seq<Frame>, threshold: real)
    ensures AllGts(frames + more) == AllGts(frames) + AllGts(more)
    ensures AllOutcomes(frames + more, threshold) == AllOutcomes(frames, threshold) + AllOutcomes(more, threshold)
    decreases |more|
  {
    if more == [] {
      assert frames + more == frames;
    } else {
      var init, last := more[..|more| - 1], more[|more| - 1];
      assert init + [last] == more;
      ConcatAssoc(frames, init, [last]);
      AppendFrames(frames, init, threshold);
      AppendFrame(frames + init, last, threshold);
      AppendFrame(init, last, threshold);
      ConcatAssoc(AllGts(frames), AllGts(init), last.gts);
      var m := Match(last.gts, last.preds, threshold).matched;
      ConcatAssoc(AllOutcomes(frames, threshold), AllOutcomes(init, threshold), m);
    }
  }

  /** Lines 115-164 for one video folder: every prediction file in sorted
      order, matched against its label file. */
  method ObserveVideo(counter: RecallCounter, labelRoot: seq<Entry>, video: Entry, threshold: real)
    requires video.Dir? && counter.Valid()
    modifies counter
    ensures counter.Valid()
    ensures counter.gtsSeen == old(counter.gtsSeen) + AllGts(VideoFrames(labelRoot, video))
    ensures counter.outcomes == old(counter.outcomes) + AllOutcomes(VideoFrames(labelRoot, video), threshold)
  {
    var labelDir := SubListing(labelRoot, video.name);
    var predFiles := PredictionFiles(video.children);
    ghost var frames := VideoFrames(labelRoot, video);
    for fi := 0 to |predFiles|
      invariant counter.Valid()
      invariant counter.gtsSeen == old(counter.gtsSeen) + AllGts(frames[..fi])
      invariant counter.outcomes == old(counter.outcomes) + AllOutcomes(frames[..fi], threshold)
    {
      var predFile := predFiles[fi];
      var baseName := Splitext(predFile.name).0;
      var preds := LoadLabels(Content(Some(predFile)));
      var gts := LoadLabels(Content(Find(labelDir, baseName + ".txt")));
      assert frames[fi] == FrameOf(labelRoot, video.name, predFile);
      assert Frame(gts, preds) == frames[fi];
      SliceSnoc(frames, fi);
      counter.ObserveFrame(gts, preds, threshold);
      AppendFrame(frames[..fi], frames[fi], threshold);
      ConcatAssoc(old(counter.gtsSeen), AllGts(frames[..fi]), gts);
      ConcatAssoc(old(counter.outcomes), AllOutcomes(frames[..fi], threshold), Match(gts, preds, threshold).matched);
    }
    assert frames[..|predFiles|] == frames;
  }

  /** Lines 87-187 without the printing: walk the prediction tree, match
      every frame, and report overall and per-class recall. */
  method CalculateRecall(predRoot: seq<Entry>, labelRoot: seq<Entry>, threshold: real, classNames: seq<string>)
    returns (r: Option<RecallReport>)
    ensures r == Evaluate(predRoot, labelRoot, threshold, classNames)
  {
    var counter := new RecallCounter();
    var videoFolders := VideoFolders(predRoot);
    if |videoFolders| == 0 {
      ReportOfNothing(classNames);
      return Some(RecallReport(0.0, []));
    }
    ObserveVideos(counter, labelRoot, videoFolders, threshold);
    r := counter.Report(classNames);
  }

  /** Lines 114-164 over every video folder: the counter receives the frames
      of the videos in order. */
  method ObserveVideos(counter: RecallCounter, labelRoot: seq<Entry>, videos: seq<Entry>, threshold: real)
    requires forall i :: 0 <= i < |videos| ==> videos[i].Dir?
    requires counter.Valid() && counter.gtsSeen == [] && counter.outcomes == []
    modifies counter
    ensures counter.Valid()
    ensures counter.gtsSeen == AllGts(FramesOf(labelRoot, videos))
    ensures counter.outcomes == AllOutcomes(FramesOf(labelRoot, videos), threshold)
  {
    for vi := 0 to |videos|
      invariant counter.Valid()
      invariant counter.gtsSeen == AllGts(FramesOf(labelRoot, videos[..vi]))
      invariant counter.outcomes == AllOutcomes(FramesOf(labelRoot, videos[..vi]), threshold)
    {
      ghost var done := FramesOf(labelRoot, videos[..vi]);
      ghost var more := VideoFrames(labelRoot, videos[vi]);
      ObserveVideo(counter, labelRoot, videos[vi], threshold);
      FramesOfSnoc(labelRoot, videos, vi);
      AppendFrames(done, more, threshold);
    }
    assert videos[..|videos|] == videos;
  }

  /** One more video folder adds its frames at the end. */
  lemma FramesOfSnoc(labelRoot: seq<Entry>, videos: seq<Entry>, vi: nat)
    requires vi < |videos| && forall i :: 0 <= i < |videos| ==> videos[i].Dir?
    ensures FramesOf(labelRoot, videos[..vi + 1]) == FramesOf(labelRoot, videos[..vi]) + VideoFrames(labelRoot, videos[vi])
  {
    assert videos[..vi + 1][..vi] == videos[..vi];
  }

  /** Frames come from prediction files only: the label tree decides the
      ground truths of each frame but neither the number of frames nor their
      predictions. */
  lemma {:induction false} FramesIgnoreLabelTree(labelRoot: seq<Entry>, otherLabelRoot: seq<Entry>, videos: seq<Entry>)
    requires forall e :: e in videos ==> e.Dir?
    ensures SamePreds(FramesOf(labelRoot, videos), FramesOf(otherLabelRoot, videos))
  {
    if videos != [] {
      var init, last := videos[..|videos| - 1], videos[|videos| - 1];
      FramesIgnoreLabelTree(labelRoot, otherLabelRoot, init);
      var a: seq<Frame>, b: seq<Frame> := FramesOf(labelRoot, init), FramesOf(otherLabelRoot, init);
      var x: seq<Frame>, y: seq<Frame> := VideoFrames(labelRoot, last), VideoFrames(otherLabelRoot, last);
      assert FramesOf(labelRoot, videos) == a + x && FramesOf(otherLabelRoot, videos) == b + y;
      VideoFramesIgnoreLabelTree(labelRoot, otherLabelRoot, last);
      SamePredsConcat(a, x, b, y);
    }
  }

  /** The frames of one video have the same predictions whatever the label tree. */
  lemma VideoFramesIgnoreLabelTree(labelRoot: seq<Entry>, otherLabelRoot: seq<Entry>, video: Entry)
    requires video.Dir?
    ensures SamePreds(VideoFrames(labelRoot, video), VideoFrames(otherLabelRoot, video))
  {}

  /** Two frame lists of equal length whose predictions agree position by position. */
  predicate SamePreds(a: seq<Frame>, b: seq<Frame>) {
    |a| == |b| && forall k :: 0 <= k < |a| ==> a[k].preds == b[k].preds
  }

  lemma SamePredsConcat(a: seq<Frame>, x: seq<Frame>, b: seq<Frame>, y: seq<Frame>)
    requires SamePreds(a, b) && SamePreds(x, y)
    ensures SamePreds(a + x, b + y)
  {
    forall k | 0 <= k < |a| + |x| ensures (a + x)[k].preds == (b + y)[k].preds {
      if k >= |a| {
        IndexInSecond(a, x, k);
        IndexInSecond(b, y, k);
      }
    }
  }

  /** The number of frames is the number of prediction files in the video folders. */
  function PredictionFileCount(videos: seq<Entry>): nat
    requires forall e :: e in videos ==> e.Dir?
  {
    if videos == [] then 0
    else PredictionFileCount(videos[..|videos| - 1]) + |PredictionFiles(videos[|videos| - 1].children)|
  }

  lemma {:induction false} FrameCount(labelRoot: seq<Entry>, videos: seq<Entry>)
    requires forall e :: e in videos ==> e.Dir?
    ensures |FramesOf(labelRoot, videos)| == PredictionFileCount(videos)
  {
    if videos != [] {
      FrameCount(labelRoot, videos[..|videos| - 1]);
    }
  }

  /** Without prediction files nothing is counted, whatever the label tree
      holds: overall recall 0 and no per-class entry. */
  lemma NoPredictionFilesNoCount(predRoot: seq<Entry>, labelRoot: seq<Entry>, threshold: real, classNames: seq<string>)
    requires forall i :: 0 <= i < |VideoFolders(predRoot)| ==> PredictionFiles(VideoFolders(predRoot)[i].children) == []
    ensures Evaluate(predRoot, labelRoot, threshold, classNames) == Some(RecallReport(0.0, []))
  {
    var videos := VideoFolders(predRoot);
    NoFramesWithoutFiles(labelRoot, videos);
    ReportOfNothing(classNames);
  }

  lemma {:induction false} NoFramesWithoutFiles(labelRoot: seq<Entry>, videos: seq<Entry>)
    requires forall i :: 0 <= i < |videos| ==> videos[i].Dir? && PredictionFiles(videos[i].children) == []
    ensures forall e :: e in videos ==> e.Dir?
    ensures FramesOf(labelRoot, videos) == []
  {
    if videos != [] {
      NoFramesWithoutFiles(labelRoot, videos[..|videos| - 1]);
    }
  }
}
