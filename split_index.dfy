/** The tables balanced_split.py builds from a COCO annotation file before it
    chooses the validation videos (balanced_split.py:17-56). Reading and
    writing the JSON files are outside the model: the file arrives as a
    `Coco` value. */
module SplitIndex {
  import opened Text
  import opened Sorting
  import opened Counters

  datatype Image = Image(id: int, fileName: string)
  datatype Annotation = Annotation(imageId: int, categoryId: int)
  datatype Category = Category(id: int, name: string)
  datatype Coco = Coco(images: seq<Image>, annotations: seq<Annotation>, categories: seq<Category>)

  /** `file_name.split("/")[0]`: the file name up to its first '/'. */
  function VideoOf(fileName: string): (r: string)
    ensures '/' !in r
    ensures r == fileName || (|r| < |fileName| && fileName[..|r| + 1] == r + "/")
  {
    if fileName == [] || fileName[0] == '/' then []
    else
      var rest := VideoOf(fileName[1..]);
      assert fileName == [fileName[0]] + fileName[1..];
      assert rest != fileName[1..] ==> fileName[..|rest| + 2] == [fileName[0]] + fileName[1..][..|rest| + 1];
      [fileName[0]] + rest
  }

  /** A `defaultdict(set)` read: a missing key gives the empty set. */
  function CatsAt(m: map<int, set<int>>, id: int): set<int> {
    if id in m then m[id] else {}
  }

  function AnnotatedImages(anns: seq<Annotation>): set<int> {
    set a | a in anns :: a.imageId
  }

  function CategoriesOf(anns: seq<Annotation>, id: int): set<int> {
    set a | a in anns && a.imageId == id :: a.categoryId
  }

  /** `image_id_to_categories` (lines 22-24): for each annotated image, the
      set of categories annotated on it. */
  function ImageCategories(anns: seq<Annotation>): map<int, set<int>> {
    map id | id in AnnotatedImages(anns) :: CategoriesOf(anns, id)
  }

  /** An image has an entry exactly when it is annotated, and its entry holds
      exactly the categories annotated on it. */
  lemma ImageCategoriesMeaning(anns: seq<Annotation>, id: int, c: int)
    ensures id in ImageCategories(anns) <==> exists c' :: Annotation(id, c') in anns
    ensures c in CatsAt(ImageCategories(anns), id) <==> Annotation(id, c) in anns
  {
    if exists c' :: Annotation(id, c') in anns {
      var c' :| Annotation(id, c') in anns;
      assert id in AnnotatedImages(anns);
    }
    if Annotation(id, c) in anns {
      assert id in AnnotatedImages(anns);
    }
  }

  lemma ImageCategoriesSnoc(anns: seq<Annotation>, a: Annotation)
    ensures ImageCategories(anns + [a])
      == ImageCategories(anns)[a.imageId := CatsAt(ImageCategories(anns), a.imageId) + {a.categoryId}]
  {
    var all := anns + [a];
    var l, r := ImageCategories(all), ImageCategories(anns)[a.imageId := CatsAt(ImageCategories(anns), a.imageId) + {a.categoryId}];
    assert AnnotatedImages(all) == AnnotatedImages(anns) + {a.imageId} by {
      forall x | x in all ensures x in anns || x == a { }
    }
    forall id | id in l ensures l[id] == r[id] {
      forall c ensures c in CategoriesOf(all, id) <==> c in r[id] {
        if c in CategoriesOf(all, id) {
          var x :| x in all && x.imageId == id && x.categoryId == c;
          if x != a {
            assert x in anns;
          }
        }
      }
    }
  }

  /** Lines 22-24. */
  method IndexImageCategories(anns: seq<Annotation>) returns (m: map<int, set<int>>)
    ensures m == ImageCategories(anns)
  {
    m := map[];
    for i := 0 to |anns|
      invariant m == ImageCategories(anns[..i])
    {
      ImageCategoriesSnoc(anns[..i], anns[i]);
      assert anns[..i + 1] == anns[..i] + [anns[i]];
      m := m[anns[i].imageId := CatsAt(m, anns[i].imageId) + {anns[i].categoryId}];
    }
    assert anns[..|anns|] == anns;
  }

  /** `video_to_image_ids[v]`: the ids of the images of video v, in file order. */
  function ImagesOfVideo(images: seq<Image>, v: string): seq<int> {
    if images == [] then []
    else
      var init := ImagesOfVideo(images[..|images| - 1], v);
      var last := images[|images| - 1];
      if VideoOf(last.fileName) == v then init + [last.id] else init
  }

  /** The ids listed for video v are those of its images. */
  lemma {:induction false} ImagesOfVideoMembers(images: seq<Image>, v: string)
    ensures forall id :: id in ImagesOfVideo(images, v) <==>
      exists k :: 0 <= k < |images| && images[k].id == id && VideoOf(images[k].fileName) == v
    decreases |images|
  {
    if images != [] {
      var init := images[..|images| - 1];
      ImagesOfVideoMembers(init, v);
      assert forall k :: 0 <= k < |images| - 1 ==> init[k] == images[k];
    }
  }

  function VideoNames(images: seq<Image>): set<string> {
    set img | img in images :: VideoOf(img.fileName)
  }

  /** `video_to_image_ids` (lines 27-33): the videos that have images, each
      with its image ids. */
  function VideoImages(images: seq<Image>): map<string, seq<int>> {
    map v | v in VideoNames(images) :: ImagesOfVideo(images, v)
  }

  /** A video has an entry exactly when one of the images lies in it. */
  lemma VideoImagesKeys(images: seq<Image>, v: string)
    ensures v in VideoImages(images) <==> exists k :: 0 <= k < |images| && VideoOf(images[k].fileName) == v
  {
    if v in VideoImages(images) {
      var img :| img in images && VideoOf(img.fileName) == v;
      var k :| 0 <= k < |images| && images[k] == img;
    }
    if exists k :: 0 <= k < |images| && VideoOf(images[k].fileName) == v {
      var k :| 0 <= k < |images| && VideoOf(images[k].fileName) == v;
      assert images[k] in images;
    }
  }

  /** A read of `video_to_image_ids` with its default. */
  function ImagesAt(m: map<string, seq<int>>, v: string): seq<int> {
    if v in m then m[v] else []
  }

  lemma VideoImagesSnoc(images: seq<Image>, img: Image)
    ensures VideoImages(images + [img])
      == VideoImages(images)[VideoOf(img.fileName) := ImagesAt(VideoImages(images), VideoOf(img.fileName)) + [img.id]]
  {
    var all := images + [img];
    assert all[..|all| - 1] == images;
    var l, r := VideoImages(all), VideoImages(images)[VideoOf(img.fileName) := ImagesAt(VideoImages(images), VideoOf(img.fileName)) + [img.id]];
    assert VideoNames(all) == VideoNames(images) + {VideoOf(img.fileName)} by {
      forall x | x in all ensures x in images || x == img { }
    }
    forall v | v in l ensures l[v] == r[v] {
      if v != VideoOf(img.fileName) {
        assert ImagesOfVideo(all, v) == ImagesOfVideo(images, v);
      } else if v !in VideoNames(images) {
        ImagesOfVideoNone(images, v);
      }
    }
  }

  lemma {:induction false} ImagesOfVideoNone(images: seq<Image>, v: string)
    requires v !in VideoNames(images)
    ensures ImagesOfVideo(images, v) == []
    decreases |images|
  {
    if images != [] {
      var init := images[..|images| - 1];
      assert images[|images| - 1] in images;
      assert VideoNames(init) <= VideoNames(images) by {
        forall x | x in init ensures x in images { }
      }
      ImagesOfVideoNone(init, v);
    }
  }

  /** Lines 27-33; `image_id_to_video` is built there but never read. */
  method IndexVideos(images: seq<Image>) returns (m: map<string, seq<int>>)
    ensures m == VideoImages(images)
  {
    m := map[];
    for i := 0 to |images|
      invariant m == VideoImages(images[..i])
    {
      VideoImagesSnoc(images[..i], images[i]);
      assert images[..i + 1] == images[..i] + [images[i]];
      var video := VideoOf(images[i].fileName);
      m := m[video := ImagesAt(m, video) + [images[i].id]];
    }
    assert images[..|images|] == images;
  }

  /** The union of the category sets of the given images. */
  function CatsOfIds(ids: seq<int>, ic: map<int, set<int>>): (r: set<int>)
    ensures forall c :: c in r <==> exists i :: 0 <= i < |ids| && c in CatsAt(ic, ids[i])
  {
    if ids == [] then {}
    else
      var init := CatsOfIds(ids[..|ids| - 1], ic);
      assert forall i :: 0 <= i < |ids| - 1 ==> ids[..|ids| - 1][i] == ids[i];
      init + CatsAt(ic, ids[|ids| - 1])
  }

  /** `video_to_categories` (lines 36-41). */
  function VideoCategories(vi: map<string, seq<int>>, ic: map<int, set<int>>): (r: map<string, set<int>>)
    ensures r.Keys == vi.Keys
  {
    map v | v in vi :: CatsOfIds(vi[v], ic)
  }

  /** Lines 38-40: the union for one video. */
  method UnionOfImages(ids: seq<int>, ic: map<int, set<int>>) returns (cats: set<int>)
    ensures cats == CatsOfIds(ids, ic)
  {
    cats := {};
    for i := 0 to |ids|
      invariant cats == CatsOfIds(ids[..i], ic)
    {
      assert ids[..i + 1][..i] == ids[..i];
      cats := cats + CatsAt(ic, ids[i]);
    }
    assert ids[..|ids|] == ids;
  }

  /** Lines 36-41: the videos are visited in whatever order; each gets the
      union of its images' categories. */
  method IndexVideoCategories(vi: map<string, seq<int>>, ic: map<int, set<int>>) returns (m: map<string, set<int>>)
    ensures m == VideoCategories(vi, ic)
  {
    m := map[];
    var rest := vi.Keys;
    while rest != {}
      invariant rest <= vi.Keys
      invariant m == map v | v in vi.Keys - rest :: CatsOfIds(vi[v], ic)
      decreases rest
    {
      var video :| video in rest;
      var cats := UnionOfImages(vi[video], ic);
      m := m[video := cats];
      rest := rest - {video};
    }
  }

  /** The number of annotations of category c. */
  function CountOf(anns: seq<Annotation>, c: int): (r: nat)
    ensures r <= |anns|
    ensures r > 0 <==> exists k :: 0 <= k < |anns| && anns[k].categoryId == c
  {
    if anns == [] then 0
    else
      var init := CountOf(anns[..|anns| - 1], c);
      assert forall k :: 0 <= k < |anns| - 1 ==> anns[..|anns| - 1][k] == anns[k];
      init + if anns[|anns| - 1].categoryId == c then 1 else 0
  }

  function AnnotatedCategories(anns: seq<Annotation>): set<int> {
    set a | a in anns :: a.categoryId
  }

  /** `total_category_count` (lines 44-46): each annotated category with its
      number of annotations. */
  function Totals(anns: seq<Annotation>): (r: map<int, nat>)
    ensures forall c :: c in r <==> exists k :: 0 <= k < |anns| && anns[k].categoryId == c
    ensures forall c :: Get(r, c) == CountOf(anns, c)
  {
    var r := map c | c in AnnotatedCategories(anns) :: CountOf(anns, c);
    assert forall k :: 0 <= k < |anns| ==> anns[k].categoryId in AnnotatedCategories(anns);
    r
  }

  lemma TotalsSnoc(anns: seq<Annotation>, a: Annotation)
    ensures Totals(anns + [a]) == Totals(anns)[a.categoryId := Get(Totals(anns), a.categoryId) + 1]
  {
    var all := anns + [a];
    assert all[..|all| - 1] == anns;
    var l, r := Totals(all), Totals(anns)[a.categoryId := Get(Totals(anns), a.categoryId) + 1];
    forall c ensures c in l <==> c in r {
      if c in r && c != a.categoryId {
        var k :| 0 <= k < |anns| && anns[k].categoryId == c;
        assert all[k] == anns[k];
      }
    }
    forall c | c in l ensures l[c] == r[c] {
      assert Get(l, c) == CountOf(all, c);
    }
  }

  /** Lines 44-46. */
  method CountCategories(anns: seq<Annotation>) returns (m: map<int, nat>)
    ensures m == Totals(anns)
  {
    m := map[];
    for i := 0 to |anns|
      invariant m == Totals(anns[..i])
    {
      TotalsSnoc(anns[..i], anns[i]);
      assert anns[..i + 1] == anns[..i] + [anns[i]];
      m := m[anns[i].categoryId := Get(m, anns[i].categoryId) + 1];
    }
    assert anns[..|anns|] == anns;
  }

  /** `target_count_per_class` (lines 54-56): `int(v * 0.2)` of each total,
      with 0.2 taken as exactly one fifth. */
  function Targets(totals: map<int, nat>): (r: map<int, int>)
    ensures r.Keys == totals.Keys
    ensures forall c :: c in r ==> 0 <= r[c] && 5 * r[c] <= totals[c] < 5 * r[c] + 5
  {
    map c | c in totals :: totals[c] / 5
  }

  /** Everything the selection loop reads. */
  datatype Tables = Tables(
    videoImages: map<string, seq<int>>,
    imageCats: map<int, set<int>>,
    videoCats: map<string, set<int>>,
    targets: map<int, int>,
    imageCount: nat)

  function TablesOf(coco: Coco): Tables {
    var ic := ImageCategories(coco.annotations);
    var vi := VideoImages(coco.images);
    Tables(vi, ic, VideoCategories(vi, ic), Targets(Totals(coco.annotations)), |coco.images|)
  }

  /** Lines 17-56. */
  method BuildTables(coco: Coco) returns (t: Tables)
    ensures t == TablesOf(coco)
  {
    var ic := IndexImageCategories(coco.annotations);
    var vi := IndexVideos(coco.images);
    var vc := IndexVideoCategories(vi, ic);
    var totals := CountCategories(coco.annotations);
    t := Tables(vi, ic, vc, Targets(totals), |coco.images|);
  }

  /** Every video has a category set, and every category in it has a target,
      so `is_helpful` never raises a KeyError. */
  ghost predicate Consistent(t: Tables) {
    && t.videoCats.Keys == t.videoImages.Keys
    && forall v, c :: v in t.videoCats && c in t.videoCats[v] ==> c in t.targets
  }

  /** A video's categories are exactly those annotated on one of its images. */
  lemma VideoCategoriesOfData(coco: Coco, v: string, c: int)
    requires v in TablesOf(coco).videoCats
    ensures c in TablesOf(coco).videoCats[v] <==>
      exists k :: 0 <= k < |coco.images| && VideoOf(coco.images[k].fileName) == v
        && Annotation(coco.images[k].id, c) in coco.annotations
  {
    var images, anns := coco.images, coco.annotations;
    var ic := ImageCategories(anns);
    var ids := VideoImages(images)[v];
    assert ids == ImagesOfVideo(images, v);
    assert TablesOf(coco).videoCats[v] == CatsOfIds(ids, ic);
    ImagesOfVideoMembers(images, v);
    if c in CatsOfIds(ids, ic) {
      var i :| 0 <= i < |ids| && c in CatsAt(ic, ids[i]);
      assert ids[i] in ids;
      var k :| 0 <= k < |images| && images[k].id == ids[i] && VideoOf(images[k].fileName) == v;
      ImageCategoriesMeaning(anns, ids[i], c);
    }
    if exists k :: 0 <= k < |images| && VideoOf(images[k].fileName) == v && Annotation(images[k].id, c) in anns {
      var k :| 0 <= k < |images| && VideoOf(images[k].fileName) == v && Annotation(images[k].id, c) in anns;
      assert images[k].id in ids;
      var i :| 0 <= i < |ids| && ids[i] == images[k].id;
      ImageCategoriesMeaning(anns, ids[i], c);
    }
  }

  /** The tables built from any file are consistent. */
  lemma TablesConsistent(coco: Coco)
    ensures Consistent(TablesOf(coco))
  {
    var t := TablesOf(coco);
    forall v, c | v in t.videoCats && c in t.videoCats[v] ensures c in t.targets {
      VideoCategoriesOfData(coco, v, c);
      var k :| 0 <= k < |coco.images| && VideoOf(coco.images[k].fileName) == v
        && Annotation(coco.images[k].id, c) in coco.annotations;
      var j :| 0 <= j < |coco.annotations| && coco.annotations[j] == Annotation(coco.images[k].id, c);
      assert coco.annotations[j].categoryId == c;
    }
  }
}
