/** The train/validation partition (balanced_split.py:74-93): the videos not
    chosen go to train, and images and annotations follow their videos.
    Python iterates the two video sets in an order of its own; the model
    iterates them in the shuffled order, which changes only the order of the
    output lists. */
module SplitOutput {
  import opened Text
  import opened Sorting
  import opened SplitIndex
  import opened Counters
  import opened SplitGreedy

  /** `order` is `list(video_to_image_ids.keys())` after `random.shuffle`:
      every video once, in any order. */
  ghost predicate IsShuffle(coco: Coco, order: seq<string>) {
    Distinct(order) && forall v :: v in order <==> v in VideoNames(coco.images)
  }

  /** No two images share an id, as COCO files promise. */
  ghost predicate UniqueIds(images: seq<Image>) {
    forall i, j :: 0 <= i < j < |images| ==> images[i].id != images[j].id
  }

  /** The videos of `order` that are (`inVal`) or are not (`!inVal`) in `chosen`. */
  function VideosOn(order: seq<string>, chosen: set<string>, inVal: bool): (r: seq<string>)
    ensures forall v :: v in r <==> v in order && (v in chosen <==> inVal)
  {
    if order == [] then []
    else
      var init := VideosOn(order[..|order| - 1], chosen, inVal);
      var last := order[|order| - 1];
      assert order == order[..|order| - 1] + [last];
      if (last in chosen) == inVal then init + [last] else init
  }

  /** `[img_id for vid in videos for img_id in video_to_image_ids[vid]]` (lines 77-78). */
  function Flatten(vi: map<string, seq<int>>, videos: seq<string>): (r: seq<int>)
    requires forall j :: 0 <= j < |videos| ==> videos[j] in vi
    ensures forall id :: id in r <==> exists j :: 0 <= j < |videos| && id in vi[videos[j]]
  {
    if videos == [] then []
    else
      var init := Flatten(vi, videos[..|videos| - 1]);
      assert forall j :: 0 <= j < |videos| - 1 ==> videos[..|videos| - 1][j] == videos[j];
      init + vi[videos[|videos| - 1]]
  }

  /** `id_to_image` (line 80): a later image with the same id replaces an
      earlier one. */
  function ImageById(images: seq<Image>): (r: map<int, Image>)
    ensures forall id :: id in r <==> exists k :: 0 <= k < |images| && images[k].id == id
    ensures forall id :: id in r ==> r[id].id == id && r[id] in images
  {
    if images == [] then map[]
    else
      var init := ImageById(images[..|images| - 1]);
      var last := images[|images| - 1];
      assert images == images[..|images| - 1] + [last];
      init[last.id := last]
  }

  /** With unique ids, the entry for an image's id is that image. */
  lemma ImageByIdUnique(images: seq<Image>, k: nat)
    requires UniqueIds(images) && k < |images|
    ensures images[k].id in ImageById(images) && ImageById(images)[images[k].id] == images[k]
  {
    var img := ImageById(images)[images[k].id];
    var p :| 0 <= p < |images| && images[p] == img;
  }

  /** `[id_to_image[iid] for iid in ids]` (lines 81-82). */
  function LookupImages(byId: map<int, Image>, ids: seq<int>): (r: seq<Image>)
    requires forall p :: 0 <= p < |ids| ==> ids[p] in byId
    ensures |r| == |ids| && forall p :: 0 <= p < |ids| ==> r[p] == byId[ids[p]]
  {
    seq(|ids|, p requires 0 <= p < |ids| => byId[ids[p]])
  }

  /** `[ann for ann in annotations if ann["image_id"] in ids]` (lines 83-84). */
  function AnnotationsOf(anns: seq<Annotation>, ids: seq<int>): (r: seq<Annotation>)
    ensures forall a :: a in r <==> a in anns && a.imageId in ids
  {
    if anns == [] then []
    else
      var init := AnnotationsOf(anns[..|anns| - 1], ids);
      var last := anns[|anns| - 1];
      assert anns == anns[..|anns| - 1] + [last];
      if last.imageId in ids then init + [last] else init
  }

  /** The two video sets and the two files written (lines 74-97). */
  datatype Split = Split(trainVideos: seq<string>, valVideos: seq<string>, train: Coco, val: Coco)

  /** Every image id listed for a video is the id of an image. */
  lemma ListedIdsExist(coco: Coco, videos: seq<string>)
    requires forall j :: 0 <= j < |videos| ==> videos[j] in VideoImages(coco.images)
    ensures forall p :: 0 <= p < |Flatten(VideoImages(coco.images), videos)| ==>
      Flatten(VideoImages(coco.images), videos)[p] in ImageById(coco.images)
  {
    var ids := Flatten(VideoImages(coco.images), videos);
    forall p | 0 <= p < |ids| ensures ids[p] in ImageById(coco.images) {
      var id := ids[p];
      assert id in ids;
      var j :| 0 <= j < |videos| && id in VideoImages(coco.images)[videos[j]];
      ImagesOfVideoMembers(coco.images, videos[j]);
    }
  }

  /** One output file (lines 77-93): the images of `videos`, looked up by id,
      the annotations of those ids, and the input's categories. */
  function SideOf(coco: Coco, videos: seq<string>): Coco
    requires forall j :: 0 <= j < |videos| ==> videos[j] in VideoImages(coco.images)
  {
    var ids := Flatten(VideoImages(coco.images), videos);
    ListedIdsExist(coco, videos);
    Coco(LookupImages(ImageById(coco.images), ids), AnnotationsOf(coco.annotations, ids), coco.categories)
  }

  /** Lines 74-93 for a given set of validation videos. */
  function SplitBy(coco: Coco, order: seq<string>, chosen: set<string>): Split
    requires forall v :: v in order ==> v in VideoImages(coco.images)
  {
    var trainVideos, valVideos := VideosOn(order, chosen, false), VideosOn(order, chosen, true);
    Split(trainVideos, valVideos, SideOf(coco, trainVideos), SideOf(coco, valVideos))
  }

  /** The two files the script writes, given the shuffled order. */
  function SplitOf(coco: Coco, order: seq<string>): Split
    requires IsShuffle(coco, order)
  {
    SplitBy(coco, order, set v | v in Greedy(TablesOf(coco), order, |order|).val)
  }

  /** balanced_split.py:14-97 without the file I/O: build the tables, choose
      the validation videos, and assemble the two outputs. */
  method BalancedSplit(coco: Coco, order: seq<string>) returns (split: Split)
    requires IsShuffle(coco, order)
    ensures split == SplitOf(coco, order)
  {
    var t := BuildTables(coco);
    TablesConsistent(coco);
    var valSet, _ := ChooseValidation(t, order);
    assert valSet == set v | v in Greedy(t, order, |order|).val;
    split := SplitBy(coco, order, valSet);
  }

  /** Line 74: the validation videos are those the loop chose; train gets
      every other video; the two are disjoint and together hold every video. */
  lemma SplitVideos(coco: Coco, order: seq<string>)
    requires IsShuffle(coco, order)
    ensures var r := SplitOf(coco, order);
      forall v :: v in r.valVideos <==> v in Greedy(TablesOf(coco), order, |order|).val
    ensures var r := SplitOf(coco, order);
      forall v :: v in VideoNames(coco.images) <==> v in r.trainVideos || v in r.valVideos
    ensures var r := SplitOf(coco, order);
      forall v :: !(v in r.trainVideos && v in r.valVideos)
  {
    TablesConsistent(coco);
    var t := TablesOf(coco);
    GreedyFromOrder(t, order, |order|);
    var val := Greedy(t, order, |order|).val;
    forall v | v in val ensures v in order {
      var j :| 0 <= j < |val| && val[j] == v;
      var p :| 0 <= p < |order| && order[p] == val[j];
    }
  }

  /** The image ids sent to one side are those of the images whose video is
      on that side. */
  lemma SideIds(coco: Coco, videos: seq<string>, id: int)
    requires forall j :: 0 <= j < |videos| ==> videos[j] in VideoImages(coco.images)
    ensures id in Flatten(VideoImages(coco.images), videos) <==>
      exists k :: 0 <= k < |coco.images| && coco.images[k].id == id && VideoOf(coco.images[k].fileName) in videos
  {
    var vi := VideoImages(coco.images);
    if id in Flatten(vi, videos) {
      var j :| 0 <= j < |videos| && id in vi[videos[j]];
      ImagesOfVideoMembers(coco.images, videos[j]);
    }
    if exists k :: 0 <= k < |coco.images| && coco.images[k].id == id && VideoOf(coco.images[k].fileName) in videos {
      var k :| 0 <= k < |coco.images| && coco.images[k].id == id && VideoOf(coco.images[k].fileName) in videos;
      var j :| 0 <= j < |videos| && videos[j] == VideoOf(coco.images[k].fileName);
      ImagesOfVideoMembers(coco.images, videos[j]);
    }
  }

  /** Lines 83-84: an annotation goes to validation exactly when some image
      with its `image_id` lies in a validation video, and to train exactly
      when some such image lies in a train video. */
  lemma SplitAnnotations(coco: Coco, order: seq<string>, a: Annotation)
    requires IsShuffle(coco, order)
    ensures var r := SplitOf(coco, order);
      a in r.val.annotations <==> (a in coco.annotations &&
        exists k :: 0 <= k < |coco.images| && coco.images[k].id == a.imageId && VideoOf(coco.images[k].fileName) in r.valVideos)
    ensures var r := SplitOf(coco, order);
      a in r.train.annotations <==> (a in coco.annotations &&
        exists k :: 0 <= k < |coco.images| && coco.images[k].id == a.imageId && VideoOf(coco.images[k].fileName) in r.trainVideos)
  {
    var r := SplitOf(coco, order);
    SplitVideos(coco, order);
    SideIds(coco, r.valVideos, a.imageId);
    SideIds(coco, r.trainVideos, a.imageId);
  }

  /** Lines 77-82: with unique ids, an image is in the validation file exactly
      when its video is a validation video, and in the train file exactly when
      its video is a train video; both files hold only input images. */
  lemma SplitImages(coco: Coco, order: seq<string>, img: Image)
    requires IsShuffle(coco, order) && UniqueIds(coco.images)
    ensures var r := SplitOf(coco, order);
      img in r.val.images <==> img in coco.images && VideoOf(img.fileName) in r.valVideos
    ensures var r := SplitOf(coco, order);
      img in r.train.images <==> img in coco.images && VideoOf(img.fileName) in r.trainVideos
  {
    var r := SplitOf(coco, order);
    SplitVideos(coco, order);
    SideImages(coco, r.valVideos, img);
    SideImages(coco, r.trainVideos, img);
  }

  lemma SideImages(coco: Coco, videos: seq<string>, img: Image)
    requires UniqueIds(coco.images)
    requires forall j :: 0 <= j < |videos| ==> videos[j] in VideoImages(coco.images)
    ensures img in SideOf(coco, videos).images <==> img in coco.images && VideoOf(img.fileName) in videos
  {
    ListedIdsExist(coco, videos);
    var ids := Flatten(VideoImages(coco.images), videos);
    var out := LookupImages(ImageById(coco.images), ids);
    assert SideOf(coco, videos).images == out;
    if img in out {
      SideImageFrom(coco, videos, ids, out, img);
    }
    if img in coco.images && VideoOf(img.fileName) in videos {
      SideImageTo(coco, videos, ids, out, img);
    }
  }

  /** An image on one side is an input image of a video on that side. */
  lemma SideImageFrom(coco: Coco, videos: seq<string>, ids: seq<int>, out: seq<Image>, img: Image)
    requires UniqueIds(coco.images)
    requires forall j :: 0 <= j < |videos| ==> videos[j] in VideoImages(coco.images)
    requires ids == Flatten(VideoImages(coco.images), videos)
    requires forall p :: 0 <= p < |ids| ==> ids[p] in ImageById(coco.images)
    requires out == LookupImages(ImageById(coco.images), ids) && img in out
    ensures img in coco.images && VideoOf(img.fileName) in videos
  {
    var p :| 0 <= p < |out| && out[p] == img;
    SideIds(coco, videos, ids[p]);
    var k :| 0 <= k < |coco.images| && coco.images[k].id == ids[p] && VideoOf(coco.images[k].fileName) in videos;
    ImageByIdUnique(coco.images, k);
  }

  /** An input image of a video on one side is on that side. */
  lemma SideImageTo(coco: Coco, videos: seq<string>, ids: seq<int>, out: seq<Image>, img: Image)
    requires UniqueIds(coco.images)
    requires forall j :: 0 <= j < |videos| ==> videos[j] in VideoImages(coco.images)
    requires ids == Flatten(VideoImages(coco.images), videos)
    requires forall p :: 0 <= p < |ids| ==> ids[p] in ImageById(coco.images)
    requires out == LookupImages(ImageById(coco.images), ids)
    requires img in coco.images && VideoOf(img.fileName) in videos
    ensures img in out
  {
    var k :| 0 <= k < |coco.images| && coco.images[k] == img;
    SideIds(coco, videos, img.id);
    ImageByIdUnique(coco.images, k);
    var p :| 0 <= p < |ids| && ids[p] == img.id;
    assert out[p] == img;
  }

  /** With unique ids, an annotation of an existing image lands in exactly
      one of the two files. */
  lemma AnnotationInOneFile(coco: Coco, order: seq<string>, a: Annotation)
    requires IsShuffle(coco, order) && UniqueIds(coco.images)
    requires a in coco.annotations && exists k :: 0 <= k < |coco.images| && coco.images[k].id == a.imageId
    ensures var r := SplitOf(coco, order);
      a in r.train.annotations <==> a !in r.val.annotations
  {
    var r := SplitOf(coco, order);
    SplitAnnotations(coco, order, a);
    SplitVideos(coco, order);
    var k :| 0 <= k < |coco.images| && coco.images[k].id == a.imageId;
    var v := VideoOf(coco.images[k].fileName);
    assert v in VideoNames(coco.images);
    forall k' | 0 <= k' < |coco.images| && coco.images[k'].id == a.imageId ensures k' == k { }
  }

  /** Lines 87-93: both files carry the input's category list unchanged. */
  lemma SplitCategories(coco: Coco, order: seq<string>)
    requires IsShuffle(coco, order)
    ensures SplitOf(coco, order).train.categories == coco.categories
    ensures SplitOf(coco, order).val.categories == coco.categories
  {
  }
}
