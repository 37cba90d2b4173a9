# Recall evaluation, balanced video split and frame renaming — a Dafny model

This project models the computational core of a small object-detection toolkit written in Python:

- **`Recall.py`** evaluates detector output against YOLO ground-truth labels. It has four parts:
  - the IoU of two centre-form boxes;
  - a YOLO label-file reader;
  - a per-frame greedy matcher. Each ground-truth box takes the first unused, same-class prediction with the strictly best IoU, if that IoU reaches the threshold;
  - the reduction of the TP/FN counters to an overall recall and per-class recalls, with class names read from a numbered JSON object.
- **`balanced_split.py`** splits a COCO annotation file into train and validation files at the level of whole videos:
  - it indexes categories per image and per video, counts annotations per category and sets the validation target of each category to a fifth of its count;
  - it walks the shuffled videos and adds a video only if it still helps some category reach its target;
  - it stops once the validation images reach a fifth of all images;
  - images and annotations follow their video.
- **`rename_labels.py`** and **`yolo2coco.py`** rename the dataset on disk:
  - `dataNN` folders become `videoN`;
  - within each `videoN` folder, the label files (or images) are taken in natural-key order and renamed `frame<zero-padded index>.txt` (or `.jpg`).

The Python source is pure where it computes values (IoU, the name formulas, `natural_key`). It is imperative where it changes things step by step: counters and `pred_used` flags in nested loops, `defaultdict`/`Counter` tables, a selection loop with `break`, and `os.rename` calls. The model follows the same split:

- **Pure code** becomes datatypes, functions and lemmas.
- **`calculate_recall`'s counters** become a class, `Recall.RecallCounter`, whose methods update its fields.
- **The prediction flags** are an `array<bool>` updated in place by `Recall.MatchGroundTruth`.
- **The table-building, selection and renaming loops** are methods with loop invariants. Each is proved equal to a specification function, and the properties the scripts rely on are proved about those functions.

Conventions of the model:

- **Files and JSON** are values. A directory is a listing of entries or a map from names to contents; a COCO file is a `Coco` value; a label file is its lines of parsed fields.
- **`os.listdir`** is an input that lists every entry exactly once, in any order.
- **A dict the code returns** is its list of items in insertion order (module `OrderedDict`). Assigning to a present key replaces its value in place, so key order is part of the result.
- **`random.shuffle`** is replaced by its outcome, the shuffled order, which is an input.
- **Float arithmetic** is modelled over `real`. `VAL_RATIO = 0.2` is the exact ratio 1/5:
  - `int(v * 0.2)` is `v / 5`;
  - `n >= len(images) * 0.2` is `5 * n >= len(images)`.

## Model

| member | source | states |
|---|---|---|
| Text.Lower | Recall.py:119 | lower-casing keeps digits digits and leaves no upper-case ASCII letter |
| Text.LowerStr | rename_labels.py:21 | `str.lower()` maps every character and keeps the length |
| Text.DigitOf | rename_labels.py:5 | a digit character has a value below 10 that prints back as the same character |
| Text.DecimalSpec | rename_labels.py:26 | `str(n)` of a natural number is a non-empty digit string with no leading zero whose value is n |
| Text.DecimalLengthMonotone | rename_labels.py:23 | a larger number never has a shorter decimal representation |
| Text.Zeros | rename_labels.py:26 | the padding is k '0' characters |
| Text.ZFill | rename_labels.py:26 | `zfill(width)` pads on the left to the width, or leaves the string when it is already as long, and keeps the original as suffix |
| Text.ZerosPrefixValue | rename_labels.py:26 | leading zeros do not change the value of a digit string |
| Text.ZerosValue | rename_labels.py:26 | a string of zeros has value 0 |
| Text.ZFillDecimalValue | rename_labels.py:26 | the zero-padded index still reads as the index |
| Text.ParseInt | Recall.py:72 | `int(k)` succeeds only on a non-empty string; what it accepts and the value it gives are stated by the two lemmas below |
| Text.ParseIntAccepts | Recall.py:72 | `int(k)` accepts every base-10 literal (optional sign, digit groups joined by single underscores, leading zeros allowed) with any white space around it, and gives the literal's value |
| Text.ParseIntOnlyLiterals | Recall.py:72 | conversely, whatever `int(k)` accepts is such a literal of the value returned, with only white space around it |
| Text.StripSpec | Recall.py:72 | stripping removes white space from both ends and nothing else, and leaves no white space at either end |
| Text.DigitsAreGroups | Recall.py:72 | a plain digit string is a single digit group whose value is its decimal value |
| Text.GroupsEnds | Recall.py:72 | a digit-group literal starts and ends with a digit |
| Text.ParseIntString | Recall.py:72 | `int(str(n)) == n` for every integer, negative ones included |
| ClassNames.PaddedKeyExample | Recall.py:72 | the object {"0": "a", " 1": "b", "1": "c"} gives ["a", "c", "c"]: " 1" and "1" both convert to 1, and both lookups read the value under "1" |
| Text.LastIndexOf | Recall.py:123 | the last position of a character, or -1 when it does not occur |
| Text.Splitext | yolo2coco.py:22 | `os.path.splitext` cuts the name into root and extension that concatenate back to it; the extension is empty or a single dot-led suffix, and a root of only dots never has an extension |
| Sorting.Insert | rename_labels.py:20 | inserting keeps every element |
| Sorting.SortBy | rename_labels.py:20 | `sorted` returns a permutation of its input |
| Sorting.InsertSorted | rename_labels.py:20 | insertion into a sorted list keeps it sorted under a total preorder |
| Sorting.SortBySorted | rename_labels.py:20 | `sorted` with a key yields a sorted permutation |
| Sorting.InsertTies | rename_labels.py:20 | inserting into a sorted list places the new element after every element that ranks equal to it |
| Sorting.SortByStable | rename_labels.py:20 | `sorted` is stable: for every x, the elements ranking equal to x appear in the result in their input order |
| Sorting.LexLeTotal | Recall.py:108 | Python string comparison is total |
| Sorting.LexLeTransitive | Recall.py:108 | Python string comparison is transitive |
| Sorting.LexLeAntisymmetric | Recall.py:108 | two strings each at most the other are equal |
| Sorting.LexLeIsTotalPreorder | Recall.py:108 | string comparison is a total preorder, so sorting by it is well defined |
| Sorting.SortStrings | Recall.py:108 | `list.sort()` on names yields a sorted permutation |
| Sorting.SortInts | Recall.py:72 | `sorted` on the parsed keys yields a non-decreasing permutation |
| Geometry.InterWidth | Recall.py:18-24 | the clamped intersection width is at least 0 and at most either box's width |
| Geometry.InterHeight | Recall.py:19-25 | the clamped intersection height is at least 0 and at most either box's height |
| Geometry.Iou | Recall.py:6-37 | IoU is non-negative; it is 0 without dividing when the union area is at most 0; it is positive only when the boxes overlap |
| Geometry.IouSymmetric | Recall.py:12-36 | IoU does not depend on the order of the two boxes |
| Geometry.IouDisjoint | Recall.py:18-26 | boxes separated along either axis have IoU 0 |
| Geometry.IouSelf | Recall.py:12-36 | a box with positive width and height has IoU 1 with itself |
| Geometry.IouBounded | Recall.py:12-36 | for boxes with non-negative sizes the IoU lies in [0, 1] |
| Labels.Trunc | Recall.py:137 | `int()` on a float truncates toward zero |
| Labels.FirstFive | Recall.py:52-53 | a line with at least five numeric fields contributes exactly its first five, as class and box |
| Labels.LoadLabels | Recall.py:39-56 | the reading loop returns the specified labels: nothing for a missing file, and the first five fields of each long line until the first non-numeric line |
| Labels.ParseStopsAtBadLine | Recall.py:48-55 | a non-numeric token ends the reading: the lines after it contribute nothing and the labels before it are kept |
| Labels.ParseNumericPrefix | Recall.py:50-53 | over a numeric prefix the lines are read independently, one after the other |
| Labels.ParseSound | Recall.py:50-53 | every label read is the first five fields of some long numeric line preceded only by numeric lines |
| Labels.ParseCount | Recall.py:52 | in a fully numeric file, the number of labels is the number of lines with at least five fields |
| Matcher.Scan | Recall.py:138-153 | the scan returns -1 with IoU 0, or an unused same-class prediction with positive IoU that no candidate beats and that every earlier candidate falls short of |
| Matcher.NoneUsed | Recall.py:133 | every prediction starts unused |
| Matcher.MatchPrefix | Recall.py:136-164 | after k ground truths there is one matched flag and one chosen index per ground truth |
| Matcher.MatchPrefixOneToOne | Recall.py:141-160 | chosen predictions are same-class and in range, no prediction is chosen twice, and a prediction is used exactly when some earlier ground truth chose it |
| Matcher.MatchPrefixStable | Recall.py:136-164 | later ground truths do not change the decisions already taken for earlier ones |
| Matcher.MatchedIff | Recall.py:138-156 | a ground truth is a TP exactly when some prediction still unused at that point has the same class and an IoU that is positive and reaches the threshold |
| Matcher.ChosenIsFirstBest | Recall.py:141-160 | a TP consumes an unused same-class prediction whose IoU reaches the threshold, is maximal, and is strictly above that of every earlier candidate (ties go to the first) |
| Matcher.MatchOneToOne | Recall.py:136-164 | over a whole frame, each ground truth is decided once, matched ones consume distinct same-class predictions |
| Matcher.CountSplit | Recall.py:156-164 | each ground truth is exactly one of TP or FN, so TP + FN is the number of ground truths |
| Matcher.MatchPrefixAsWritten | Recall.py:136-164 | the loop as written, with Python's negative index for `best_pred_idx = -1`, keeps one flag per ground truth when it does not raise |
| Matcher.AsWrittenAgreesForPositiveThreshold | Recall.py:156-160 | for a positive threshold the code as written and the guarded model take the same decisions |
| Matcher.AsWrittenZeroThresholdMiscounts | Recall.py:138-160 | with threshold 0 a ground truth with no same-class prediction is counted as a TP and marks the last prediction used |
| Matcher.AsWrittenZeroThresholdRaises | Recall.py:160 | with threshold 0 and no predictions the code as written raises IndexError |
| Matcher.ExampleIdenticalBoxMatches | Recall.py:141-160 | an identical same-class prediction is matched |
| Matcher.ExampleClassMismatchMisses | Recall.py:148 | a prediction of another class is never matched, however it overlaps |
| Matcher.ExampleFirstGroundTruthWins | Recall.py:142-160 | a prediction consumed by an earlier ground truth is not available to a later one |
| Counters.Inc | Recall.py:158 | incrementing a defaultdict entry adds that key |
| Recall.TallyPerClass | Recall.py:156-164 | in every class, TP + FN equals the number of ground truths of that class |
| Recall.TallyKeys | Recall.py:176 | a class appears in a counter exactly when some ground truth of that class had that outcome, and then its count is positive |
| Recall.RecallOf | Recall.py:167 | recall lies in [0, 1], is 0 with no ground truth, is TP/(TP+FN) otherwise, and is 1 exactly when there are TPs and no FN |
| Recall.BestPrediction | Recall.py:138-153 | the inner loop over the prediction array computes the specified best candidate |
| Recall.MatchPrefixNext | Recall.py:156-164 | one more ground truth either consumes its best candidate or records an FN |
| Recall.MatchGroundTruth | Recall.py:136-164 | one outer-loop step updates `pred_used` and `gt_matched` in place as specified |
| Recall.RecallCounter.constructor | Recall.py:99-102 | the counters start at zero and the per-class tables empty |
| Recall.RecallCounter.Record | Recall.py:156-164 | recording one outcome keeps the counters equal to the tallies of the ground truths seen |
| Recall.RecallCounter.ObserveFrame | Recall.py:132-164 | a frame adds its ground truths and its match outcomes to the history, keeping every counter consistent with it |
| Recall.RecallCounter.Overall | Recall.py:167 | the overall recall lies in [0, 1], is 0 with no ground truth and TP/(TP+FN) otherwise |
| Recall.RecallCounter.Report | Recall.py:167-187 | the final report equals the specified report of all ground truths seen |
| Recall.SortedIds | Recall.py:176 | the class ids are visited in ascending order |
| Recall.ClassRecalls | Recall.py:175-183 | the per-class loop builds the specified name-to-recall dict, in insertion order |
| Recall.AscendingSpec | Recall.py:176 | `sorted(set)` holds exactly the ids, strictly increasing |
| Recall.ClassName | Recall.py:182 | an id below the list length names `class_names[id]`, with Python's negative indexing, and raises when below minus the length; a larger id gives "Class <id>" |
| Recall.PerClassAppend | Recall.py:183 | each visited class sets its name's entry to its recall |
| Recall.PerClassNoneSticky | Recall.py:176-183 | once a lookup has raised, the report is not produced |
| Recall.PerClassFails | Recall.py:182 | the per-class table fails exactly when some id is below minus the number of class names |
| Recall.PerClassEntry | Recall.py:183 | the entry under a class's name holds that class's recall unless a later class has the same name |
| Recall.VisitedNames | Recall.py:182 | the names of the visited classes, one per id, each the name `class_names` gives that id |
| Recall.PerClassKeys | Recall.py:175-183 | the dict's keys are the visited names, each once, in the order a class of that name was first visited; with ids in ascending order, a name reached through a smaller id comes first, and a repeated name keeps its first place |
| OrderedDict.ItemKeys | Recall.py:183 | the keys of a dict, one per item, in item order |
| OrderedDict.AssignLookup | Recall.py:183 | after `d[k] = v`, k holds v and every other key keeps its value |
| OrderedDict.AssignKeys | Recall.py:183 | `d[k] = v` keeps the order of the existing keys and appends k only when it is new |
| OrderedDict.DedupMembers | Recall.py:176-183 | removing repeats keeps every value and adds none |
| OrderedDict.DedupSpec | Recall.py:176-183 | removing repeats leaves each value once, and the values of any prefix of the input come first |
| Recall.ReportedClassesHaveGroundTruth | Recall.py:176 | a class is reported exactly when it has at least one ground truth |
| Recall.ReportOfNothing | Recall.py:167 | with no ground truth the report is recall 0 and no classes |
| Evaluation.Find | Recall.py:46-47 | a name lookup in a directory finds an entry of that name, or none exists |
| Evaluation.NameLeIsTotalPreorder | Recall.py:108 | ordering entries by name is a total preorder |
| Evaluation.SortByName | Recall.py:120 | the sorted listing is a permutation ordered by name |
| Evaluation.Filter | Recall.py:119 | a list comprehension with a condition keeps exactly the entries that satisfy it |
| Evaluation.VideoFolders | Recall.py:107-108 | the video folders are exactly the sub-directories whose name starts with "video" |
| Evaluation.PredictionFiles | Recall.py:119-120 | the frames of a video are exactly its entries whose lower-cased name ends in ".txt" |
| Evaluation.VideoFrames | Recall.py:122-129 | a video yields one frame per prediction file |
| Evaluation.AllOutcomes | Recall.py:136-164 | there is one outcome per ground truth over all frames |
| Evaluation.AppendFrame | Recall.py:122-164 | evaluating one more frame appends its ground truths and their match outcomes |
| Evaluation.AppendFrames | Recall.py:114-164 | frame evaluation distributes over concatenation |
| Evaluation.ObserveVideo | Recall.py:114-164 | the loop over one video's prediction files feeds the counter every frame's ground truths and outcomes in order |
| Evaluation.CalculateRecall | Recall.py:87-187 | the whole evaluation returns the specified report of the frames found under the prediction root |
| Evaluation.ObserveVideos | Recall.py:114-164 | the loop over the video folders feeds the counter the frames of every video, video by video |
| Evaluation.FramesIgnoreLabelTree | Recall.py:119-129 | which frames are evaluated, and their predictions, depend only on the prediction tree |
| Evaluation.FrameCount | Recall.py:119-122 | there is exactly one frame per prediction file, so a label file without a prediction file is never read |
| Evaluation.NoPredictionFilesNoCount | Recall.py:110-112 | without any prediction file the result is recall 0 and no classes |
| Evaluation.NoFramesWithoutFiles | Recall.py:119-122 | video folders without prediction files produce no frames |
| ClassNames.GetSpec | Recall.py:72 | `data[key]` finds a value exactly when the key occurs, and the value is the one given last for it |
| ClassNames.Keys | Recall.py:72 | `data.keys()` lists each key once |
| ClassNames.ParseAll | Recall.py:72 | `[int(k) for k in keys]` parses each key in place, and fails exactly when one key does not parse |
| ClassNames.LookupAllSpec | Recall.py:72 | `[data[str(i)] ...]` reads each id's name in order, and fails exactly when one is missing |
| ClassNames.LoadFromObject | Recall.py:81-85 | a failing conversion leaves the class names empty |
| ClassNames.NamesOfNumberedObject | Recall.py:72 | an object keyed "0".."n-1" yields n names, the i-th being the value under "i" |
| Naming.Runs | rename_labels.py:5 | `re.split(r'(\d+)', s)` returns at least one piece |
| Naming.RunsShape | rename_labels.py:5 | the pieces alternate between digit-free text (even positions, possibly empty) and maximal non-empty digit runs (odd positions), there is an odd number of them, and they concatenate back to the string |
| Naming.NaturalKeyShape | rename_labels.py:5 | `natural_key` has odd length, with lower-cased text at even positions and the integer value of a digit run at odd positions |
| Naming.NaturalKeysAligned | rename_labels.py:20 | two natural keys hold the same token type at each common index, so sorting never compares an int with a str |
| Naming.TokenTrichotomy | rename_labels.py:20 | two tokens of the same type are ordered or equal |
| Naming.KeyLtAsymmetric | rename_labels.py:20 | list comparison of natural keys is asymmetric |
| Naming.NaturalLeIsTotalPreorder | rename_labels.py:20 | ordering by natural key is a total preorder, so `sorted(..., key=natural_key)` is well defined |
| Naming.SortNatural | rename_labels.py:20 | the sorted listing is a permutation ordered by natural key |
| Naming.SortNaturalStable | rename_labels.py:20 | names with equal natural keys ("a1.txt" and "a01.txt", "A.txt" and "a.txt") keep their listing order, which decides which of them becomes the lower frame number |
| Naming.FrameNameKey | rename_labels.py:26 | the natural key of `frame<padded idx><ext>` is ["frame", idx, ext] |
| Naming.FrameNameOrder | rename_labels.py:20-26 | frame names compare by natural key exactly as their indices do |
| Naming.FrameNameLength | rename_labels.py:23-26 | `digits` is the length of `str(n-1)`, and every name with index below n has the same length |
| Naming.FrameNamesDistinct | rename_labels.py:26 | different indices give different frame names |
| Naming.OldFolderNameLength | rename_labels.py:9 | `data` + `zfill(str(i), 2)` has 6 characters for i in 1..26 |
| Naming.FolderNamesDistinct | rename_labels.py:9-10 | the 26 old names are pairwise distinct, the 26 new names too, and no old name equals a new one |
| Naming.OldFolderNamesDiffer | rename_labels.py:9 | two different folder numbers give two different `dataNN` names |
| Naming.NewFolderNamesDiffer | rename_labels.py:10 | two different folder numbers give two different `videoN` names |
| Renames.SelectCount | rename_labels.py:21 | the filter keeps exactly the selected names, each as often as in the input |
| Renames.SelectSorted | rename_labels.py:20-21 | filtering a sorted list keeps it sorted |
| Renames.FrameNames | rename_labels.py:25-26 | there is one new name per selected file |
| Renames.FilesOfListing | rename_labels.py:20-21 | the files renamed are the directory's selected entries, each once |
| Renames.Applied | rename_labels.py:25-32 | the files not yet renamed are still in place |
| Renames.RenameFilesInDir | rename_labels.py:19-32 | the per-directory pass yields the specified directory |
| Renames.RenameInOrder | rename_labels.py:25-32 | the loop of `os.rename` calls, in order and skipping a file that already has its name, yields the specified directory |
| Renames.AppliedKeys | rename_labels.py:25-32 | after k renames the names present are the original ones minus the first k files plus the first k new names, unless an earlier rename clobbered a later file |
| Renames.AppliedContents | rename_labels.py:25-32 | after k renames each of the first k new names holds its file's content, the remaining files are untouched, and unselected entries keep theirs |
| Renames.RenamedFilesContents | rename_labels.py:19-32 | without clobbering, file number i's content ends up under frame name i, unselected entries are unchanged, and nothing else exists |
| Renames.NamesFitFiles | rename_labels.py:23-26 | the new names are distinct, and a new name already present in the directory is itself a selected file |
| Renames.AppliedFinalKeys | rename_labels.py:25-32 | without clobbering, the final names are the unselected ones plus the new names |
| Renames.FrameNameSelected | yolo2coco.py:21-28 | a frame name is itself selected by the pass that produced it |
| Renames.ExtensionPlain | yolo2coco.py:27 | the new extensions ".txt" and ".jpg" are lower-case and digit-free |
| Renames.FilesSorted | rename_labels.py:20-21 | the files are renamed in natural-key order |
| Renames.AppliedSameNames | rename_labels.py:30-32 | a rename to the same name changes nothing |
| Renames.FrameNumbersIncrease | rename_labels.py:20-26 | of two different frame names in natural order, the first has the smaller index |
| Renames.SortedFramesInOrder | rename_labels.py:20-26 | a directory holding exactly frames 0..n-1 lists them in index order |
| Renames.SecondRunRenamesNothing | rename_labels.py:19-32 | running the pass on a directory already named frame0..frame(n-1) changes nothing |
| Renames.OverwriteLosesLabel | rename_labels.py:25-32 | in a directory holding `b.txt` and `frame0.txt`, the first rename overwrites `frame0.txt` and one label file is lost |
| Folders.RenameEntry | rename_labels.py:13-15 | `os.rename` of a folder entry succeeds exactly when the target is absent, both are files, or the source is a folder and the target an empty folder; the target then holds the source, the source name is gone, and the other names are unchanged |
| Folders.RenameSubdirs | rename_labels.py:7-17 | the loop over i = 1..26 yields the specified root, stopping at the first failing rename |
| Folders.SubdirsInvariant | rename_labels.py:7-17 | when no target name is taken, after k steps every existing `dataNN` with N ≤ k has become `videoN` and the rest is untouched |
| Folders.SubdirsRenamedContents | rename_labels.py:7-17 | when no target name is taken, every `dataNN` is gone, `videoN` exists exactly when `dataNN` did and holds its content, and the other entries are unchanged |
| Folders.SubdirsFailurePersists | rename_labels.py:15 | an exception ends the script |
| Folders.SubdirsClash | rename_labels.py:13-15 | a `dataNN` whose `videoN` is already taken by an incompatible entry makes the script fail |
| Folders.RenameAll | yolo2coco.py:36-44 | `main` renames the folders, then runs the per-folder pass on each existing `video1`..`video26`, as specified |
| Folders.VisitedFailurePersists | yolo2coco.py:40-44 | an exception in one folder ends the script |
| Folders.VisitedFails | yolo2coco.py:40-44 | the folder pass fails exactly when some `videoN` is a plain file |
| Folders.VisitedFrame | yolo2coco.py:40-44 | the folder pass keeps the root's names, and every entry other than `video1`..`videoN` is unchanged |
| Folders.VisitedFolders | yolo2coco.py:40-44 | each existing `videoN` is a folder whose entries are renamed by the per-directory pass |
| Folders.ProcessedContents | rename_labels.py:34-42 | with free targets and folder sources, each `dataNN` ends up as `videoN` with its files renamed, and every other entry is unchanged |
| SplitIndex.VideoOf | balanced_split.py:31 | a video name is the part of `file_name` before the first '/', or the whole name when it has none |
| SplitIndex.ImageCategoriesMeaning | balanced_split.py:22-24 | an image has an entry exactly when it is annotated, and its set holds exactly its annotated categories |
| SplitIndex.IndexImageCategories | balanced_split.py:22-24 | the loop builds the specified image-to-categories table |
| SplitIndex.ImagesOfVideoMembers | balanced_split.py:28-33 | a video's id list holds exactly the ids of the images in that video |
| SplitIndex.VideoImagesKeys | balanced_split.py:28-33 | a video has an entry exactly when one of the images lies in it |
| SplitIndex.IndexVideos | balanced_split.py:27-33 | the loop builds the specified video-to-image-ids table |
| SplitIndex.CatsOfIds | balanced_split.py:38-40 | a video's categories are the union of its images' categories |
| SplitIndex.VideoCategories | balanced_split.py:36-41 | every video gets a category set |
| SplitIndex.UnionOfImages | balanced_split.py:38-40 | the inner loop computes the union |
| SplitIndex.IndexVideoCategories | balanced_split.py:36-41 | the loop builds the specified video-to-categories table |
| SplitIndex.CountOf | balanced_split.py:44-46 | a category's count is at most the number of annotations, and positive exactly when it is used |
| SplitIndex.Totals | balanced_split.py:44-46 | the Counter has exactly the annotated categories, each with its number of annotations |
| SplitIndex.CountCategories | balanced_split.py:44-46 | the loop builds the specified Counter |
| SplitIndex.Targets | balanced_split.py:54-56 | each category's target is the floor of a fifth of its annotation count |
| SplitIndex.BuildTables | balanced_split.py:17-56 | the indexing phase builds the specified tables |
| SplitIndex.VideoCategoriesOfData | balanced_split.py:22-41 | a category belongs to a video exactly when some image of that video has an annotation of it |
| SplitIndex.TablesConsistent | balanced_split.py:36-56 | every indexed video has a category set, and every category of a video has a target |
| SplitGreedy.Hits | balanced_split.py:66-68 | one video adds at most one count per image to a category |
| SplitGreedy.Step | balanced_split.py:62-72 | one iteration only ever adds an indexed video |
| SplitGreedy.Greedy | balanced_split.py:62-72 | the selection holds only indexed videos |
| SplitGreedy.ValCountSnoc | balanced_split.py:66-70 | adding a video raises each category's count by the number of its images showing that category, and the image count by its number of images |
| SplitGreedy.AddCategories | balanced_split.py:67-68 | the inner loop adds one to each of an image's distinct categories |
| SplitGreedy.AddVideo | balanced_split.py:66-68 | adding a video increments a category once per image of the video that shows it, not once per annotation |
| SplitGreedy.IsHelpful | balanced_split.py:58-60 | `is_helpful` holds exactly when some category of the video is below its target |
| SplitGreedy.ChooseValidation | balanced_split.py:52-72 | the loop chooses exactly the specified validation videos, and its counters hold their per-category counts |
| SplitGreedy.AddChosen | balanced_split.py:65-70 | adding a chosen video keeps the set, the counters and the image count equal to their specification |
| SplitGreedy.GreedyStays | balanced_split.py:71-72 | after the `break` nothing more is chosen |
| SplitGreedy.GreedyStopRule | balanced_split.py:69-72 | the loop stops right after the first addition that brings the validation images to a fifth of all images, and while it runs it is below that |
| SplitGreedy.GreedyFromOrder | balanced_split.py:62 | every chosen video comes from the shuffled order |
| SplitGreedy.GreedyHelpful | balanced_split.py:58-65 | every chosen video was helpful when it was taken, so a video without annotated categories is never chosen |
| SplitGreedy.GreedyDistinct | balanced_split.py:65 | no video is chosen twice |
| SplitGreedy.GreedyGrows | balanced_split.py:65 | the selection only grows, at its end |
| SplitGreedy.GreedySkips | balanced_split.py:62-64 | a video left out came after the stop or was not helpful when its turn came |
| SplitGreedy.GreedyKeeps | balanced_split.py:65 | a video chosen stays chosen |
| SplitGreedy.GreedyTakes | balanced_split.py:62-65 | a video not taken at its turn was skipped by the stop or by `is_helpful` |
| SplitOutput.VideosOn | balanced_split.py:74 | the videos on one side are exactly those of the order that are (or are not) chosen |
| SplitOutput.Flatten | balanced_split.py:77-78 | the id list holds exactly the ids listed for the side's videos |
| SplitOutput.ImageById | balanced_split.py:80 | `id_to_image` has exactly the image ids, each mapped to an image with that id |
| SplitOutput.ImageByIdUnique | balanced_split.py:80 | with unique ids, each image is found under its own id |
| SplitOutput.LookupImages | balanced_split.py:81-82 | the image list has one looked-up image per id, in order |
| SplitOutput.AnnotationsOf | balanced_split.py:83-84 | the filter keeps exactly the annotations whose image id is listed |
| SplitOutput.BalancedSplit | balanced_split.py:14-97 | the whole script yields the specified videos and train and validation files |
| SplitOutput.SplitVideos | balanced_split.py:74 | the validation videos are those the loop chose; train and validation are disjoint and together are all the videos |
| SplitOutput.SideIds | balanced_split.py:77-78 | an id is on a side exactly when an image with that id lies in one of its videos |
| SplitOutput.SplitAnnotations | balanced_split.py:83-84 | an annotation is in the validation file exactly when an image with its id lies in a validation video, and likewise for train |
| SplitOutput.SplitImages | balanced_split.py:77-82 | with unique ids, an image is in the validation file exactly when its video is a validation video, and likewise for train |
| SplitOutput.SideImages | balanced_split.py:81-82 | with unique ids, a side's images are exactly the input images of its videos |
| SplitOutput.AnnotationInOneFile | balanced_split.py:83-84 | with unique ids, an annotation of an existing image lands in exactly one of the two files |
| SplitOutput.SplitCategories | balanced_split.py:87-93 | both files carry the input's categories unchanged |

## Left out

- Printing and all console output are not modelled. The early `return 0, {}` of `calculate_recall` is modelled; its message is not.
- File and JSON I/O is not modelled:
  - opening and reading label files;
  - `json.load` and `json.dump`;
  - `os.makedirs`;
  - `os.path.exists` and `os.path.isdir` (a lookup in a listing value).

  Files are values, and the JSON objects keep only the fields the code reads.
- `load_class_names`:
  - only the numbered-object branch (Recall.py line 72) is modelled, from the object's key/value pairs;
  - the `.txt` and JSON-list formats, the file-extension dispatch and the JSON decoding are not modelled;
  - any failure while converting yields an empty list.
- Floating point is modelled over `real`:
  - IoU is computed exactly, not bit-for-bit as IEEE doubles;
  - `float(token)` is given as its outcome (a number or an error) rather than modelled on text;
  - `VAL_RATIO = 0.2` is the exact fraction 1/5. The double 0.2 is slightly above 1/5, but for counts of this size neither `int(v * 0.2)` nor the comparison with `len(images) * 0.2` comes out differently.
- Characters are ASCII. `str.lower()`, `str.isdigit()` and `\d` are modelled on ASCII; Unicode case mapping and Unicode digits are not.
- Text.ParseInt: strips the full `str.isspace()` set, but reads only the ASCII digits '0'..'9'. `int()` also accepts other Unicode decimal digits (Arabic-Indic, full-width), which the model rejects as a ValueError.
- Labels.Field: holds only finite numbers. `float()` also accepts "nan", "inf", "infinity" and their signed and upper-case forms. On such a class field, `int(box[0])` at Recall.py lines 137 and 145 raises outside any handler and ends the script; on a coordinate, the IoU would follow IEEE comparison rules. Label files with such tokens are outside the model.
- `os.listdir` returns entries in an unspecified order; it is a parameter listing every entry once.
- `random.seed` and `random.shuffle` are not modelled: the shuffled video order is a parameter holding every video once.
- Python iterates `train_videos` and `val_videos` (sets) in an order of its own. The model lists them in the shuffled order. This changes the order of the output image lists, not their contents.
- `image_id_to_video` (balanced_split.py lines 27, 32) is built but never read, so it is not modelled.
- SplitGreedy.ChooseValidation keeps a running image count where the script recomputes `sum(len(video_to_image_ids[v]) for v in val_videos)` each time. The two agree because a video is added at most once (SplitGreedy.GreedyDistinct).
- The statistics printed at the end of balanced_split.py (lines 99-108) are output only.
- `os.rename` follows POSIX semantics:
  - it silently replaces an existing file;
  - it replaces an empty directory;
  - it fails otherwise.

  Windows, where renaming onto an existing name always fails, is not modelled. Exceptions are a `None` result that ends the script.
- Sub-directories inside a video folder are treated by the renaming passes like any other entry with that name. Their own contents are not looked at.
- draw_boxes.py, id2real.py and labels2json.py are not part of this model. They handle drawing, file copying and size-based scaling, with no logic beyond library calls.
- The unused `torch` import has no behaviour to model.
- Recall.MatchGroundTruth: takes the corrected decision (Matcher.Accept: a same-class prediction was found and its IoU reaches the threshold) at every threshold. With a threshold of 0 or below, Recall.py lines 156-160 instead count a TP through `pred_used[-1]`, or raise IndexError when there are no predictions (see Findings). For thresholds above 0, which include the script's 0.3, the two agree by Matcher.AsWrittenAgreesForPositiveThreshold.
- Recall.RecallCounter.ObserveFrame: follows the corrected decision at thresholds of 0 or below, as Recall.MatchGroundTruth does.
- Evaluation.ObserveVideo: follows the corrected decision at thresholds of 0 or below, as Recall.MatchGroundTruth does.
- Evaluation.ObserveVideos: follows the corrected decision at thresholds of 0 or below, as Recall.MatchGroundTruth does.
- Evaluation.CalculateRecall: follows the corrected decision at thresholds of 0 or below, as Recall.MatchGroundTruth does; the counts it reports can then differ from the script's, which may also end with IndexError.
- Renames.Applied: its own contract states only that the files still to be renamed remain present. Its contents are stated by Renames.AppliedContents and Renames.AppliedKeys, which need the no-clobbering condition.

## Findings

| source | as written | input that shows it | evidently intended | confidence | as-written member | corrected member |
|---|---|---|---|---|---|---|
| Recall.py:138-160 | with `iou_threshold <= 0`, `best_iou >= iou_threshold` holds even when no prediction was found, so `pred_used[-1]` marks the last prediction used and the ground truth counts as a TP (or `IndexError` is raised when there are no predictions) | threshold 0.0, one ground truth of class 0, one prediction of class 1 with the same box: counted as TP, and the class-1 prediction is consumed | a ground truth is a TP only when a real same-class prediction was found (`best_pred_idx >= 0`), so TP means a one-to-one same-class match | high for the mechanism; not executed | Matcher.AsWrittenZeroThresholdMiscounts | Matcher.MatchOneToOne |
