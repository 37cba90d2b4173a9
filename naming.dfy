/** The naming rules of the two renaming scripts (rename_labels.py and
    yolo2coco.py): the natural sort key, the ordering it induces on names,
    which directory entries are renamed, the zero-padded frame names and the
    `dataNN` -> `videoN` folder names. */
module Naming {
  import opened Text
  import opened Sorting

  predicate NoDigits(s: string) { forall i :: 0 <= i < |s| ==> !IsDigit(s[i]) }

  function Concat(runs: seq<string>): string {
    if runs == [] then [] else runs[0] + Concat(runs[1..])
  }

  /** `re.split(r'(\d+)', s)`: the pieces between maximal runs of digits,
      with the runs themselves kept (RunsShape). */
  function Runs(s: string): (r: seq<string>)
    ensures |r| >= 1
  {
    if s == [] then [""]
    else
      var t := Runs(s[1..]);
      if IsDigit(s[0]) then
        if t[0] == [] && |t| > 1 then ["", [s[0]] + t[1]] + t[2..]
        else ["", [s[0]]] + t
      else [[s[0]] + t[0]] + t[1..]
  }

  /** The pieces of a split, in the shape `re.split` with one capturing group
      gives them: odd in number, joining back to s, a (possibly empty) piece
      without digits at every even position and a non-empty digit run at
      every odd position. A digit-free piece strictly inside the list is never
      empty, because two digit runs that touch are one run. */
  ghost predicate SplitShape(r: seq<string>, s: string) {
    && |r| % 2 == 1
    && Concat(r) == s
    && (forall i :: 0 <= i < |r| && i % 2 == 0 ==> NoDigits(r[i]))
    && (forall i :: 0 <= i < |r| && i % 2 == 1 ==> r[i] != [] && AllDigits(r[i]))
    && (forall i :: 0 < i < |r| - 1 && i % 2 == 0 ==> r[i] != [])
  }

  lemma {:induction false} RunsShape(s: string)
    ensures SplitShape(Runs(s), s)
    decreases |s|
  {
    if s != [] {
      var t := Runs(s[1..]);
      RunsShape(s[1..]);
      assert Concat(t) == t[0] + Concat(t[1..]);
      var r := Runs(s);
      if IsDigit(s[0]) {
        if t[0] == [] && |t| > 1 {
          DigitStep(s[0], t, s[1..]);
        } else {
          DigitPush(s[0], t, s[1..]);
        }
      } else {
        NonDigitStep(s[0], t, s[1..]);
      }
      assert [s[0]] + s[1..] == s;
    }
  }

  lemma DigitStep(c: char, t: seq<string>, s: string)
    requires IsDigit(c) && SplitShape(t, s) && t[0] == [] && |t| > 1
    ensures SplitShape(["", [c] + t[1]] + t[2..], [c] + s)
  {
    var r := ["", [c] + t[1]] + t[2..];
    assert Concat(t) == t[0] + Concat(t[1..]);
    assert Concat(t[1..]) == t[1] + Concat(t[2..]);
    assert Concat(r) == "" + Concat(r[1..]);
    assert r[1..] == [[c] + t[1]] + t[2..];
    assert Concat(r[1..]) == [c] + t[1] + Concat(t[2..]);
    assert forall i :: 2 <= i < |r| ==> r[i] == t[i];
  }

  lemma DigitPush(c: char, t: seq<string>, s: string)
    requires IsDigit(c) && SplitShape(t, s) && (t[0] != [] || |t| == 1)
    ensures SplitShape(["", [c]] + t, [c] + s)
  {
    var r := ["", [c]] + t;
    assert Concat(r) == "" + Concat(r[1..]);
    assert r[1..] == [[c]] + t;
    assert Concat(r[1..]) == [c] + Concat(t);
    assert forall i :: 2 <= i < |r| ==> r[i] == t[i - 2];
  }

  lemma NonDigitStep(c: char, t: seq<string>, s: string)
    requires !IsDigit(c) && SplitShape(t, s)
    ensures SplitShape([[c] + t[0]] + t[1..], [c] + s)
  {
    var r := [[c] + t[0]] + t[1..];
    assert Concat(t) == t[0] + Concat(t[1..]);
    assert Concat(r) == [c] + t[0] + Concat(t[1..]);
    assert forall i :: 1 <= i < |r| ==> r[i] == t[i];
  }

  /** One element of the key: an `int` or a lower-cased `str`. */
  datatype Token = Word(text: string) | Number(value: nat)

  /** `int(t) if t.isdigit() else t.lower()`. */
  function TokenOf(t: string): Token {
    if t != [] && AllDigits(t) then Number(DigitsValue(t)) else Word(LowerStr(t))
  }

  /** `natural_key(s)`. */
  function NaturalKey(s: string): seq<Token> {
    var runs := Runs(s);
    seq(|runs|, i requires 0 <= i < |runs| => TokenOf(runs[i]))
  }

  /** The key has odd length; an even position holds the lower-cased text
      between digit runs, an odd position the value of a maximal digit run. */
  lemma NaturalKeyShape(s: string)
    ensures |NaturalKey(s)| % 2 == 1
    ensures forall i :: 0 <= i < |NaturalKey(s)| && i % 2 == 0 ==>
      NaturalKey(s)[i] == Word(LowerStr(Runs(s)[i])) && NoDigits(Runs(s)[i])
    ensures forall i :: 0 <= i < |NaturalKey(s)| && i % 2 == 1 ==>
      Runs(s)[i] != [] && AllDigits(Runs(s)[i]) && NaturalKey(s)[i] == Number(DigitsValue(Runs(s)[i]))
    ensures forall i :: 0 <= i < |NaturalKey(s)| ==> (NaturalKey(s)[i].Number? <==> i % 2 == 1)
  {
    var runs := Runs(s);
    RunsShape(s);
    forall i | 0 <= i < |runs| && i % 2 == 0
      ensures NaturalKey(s)[i] == Word(LowerStr(runs[i]))
    {
      if runs[i] != [] {
        assert !IsDigit(runs[i][0]);
      }
    }
  }

  /** Python's `<` between two ints or two strs; an int is never compared with
      a str (NaturalKeysAligned), so the mixed case is never consulted. */
  predicate TokenLt(x: Token, y: Token) {
    match (x, y)
    case (Number(m), Number(n)) => m < n
    case (Word(a), Word(b)) => LexLe(a, b) && a != b
    case _ => false
  }

  /** Python's `<` on lists: the first unequal elements decide, a proper
      prefix comes first. */
  predicate KeyLt(a: seq<Token>, b: seq<Token>) {
    b != [] && (a == [] || TokenLt(a[0], b[0]) || (a[0] == b[0] && KeyLt(a[1..], b[1..])))
  }

  /** Both keys hold the same kind of token wherever both have one. */
  predicate Aligned(a: seq<Token>, b: seq<Token>) {
    forall i :: 0 <= i < |a| && i < |b| ==> (a[i].Number? <==> b[i].Number?)
  }

  /** Sorting by `natural_key` only ever compares an int with an int and a str
      with a str. */
  lemma NaturalKeysAligned(s: string, t: string)
    ensures Aligned(NaturalKey(s), NaturalKey(t))
  {
    NaturalKeyShape(s);
    NaturalKeyShape(t);
  }

  lemma TokenLtAsymmetric(x: Token, y: Token)
    requires TokenLt(x, y)
    ensures !TokenLt(y, x)
  {
    if x.Word? && y.Word? && TokenLt(y, x) {
      LexLeAntisymmetric(x.text, y.text);
    }
  }

  lemma TokenLtTransitive(x: Token, y: Token, z: Token)
    requires TokenLt(x, y) && TokenLt(y, z)
    ensures TokenLt(x, z)
  {
    if x.Word? {
      LexLeTransitive(x.text, y.text, z.text);
      if x.text == z.text {
        LexLeAntisymmetric(x.text, y.text);
      }
    }
  }

  /** Two tokens of the same kind are equal or one is smaller. */
  lemma TokenTrichotomy(x: Token, y: Token)
    requires x.Number? <==> y.Number?
    ensures TokenLt(x, y) || x == y || TokenLt(y, x)
  {
    if x.Word? {
      LexLeTotal(x.text, y.text);
    }
  }

  lemma {:induction false} KeyLtAsymmetric(a: seq<Token>, b: seq<Token>)
    requires KeyLt(a, b)
    ensures !KeyLt(b, a)
    decreases |a|
  {
    if a != [] {
      if TokenLt(a[0], b[0]) {
        TokenLtAsymmetric(a[0], b[0]);
      } else {
        KeyLtAsymmetric(a[1..], b[1..]);
      }
    }
  }

  /** If c < a then c < b or b < a, for pairwise aligned keys. */
  lemma {:induction false} KeyLtSplit(a: seq<Token>, b: seq<Token>, c: seq<Token>)
    requires Aligned(a, b) && Aligned(b, c) && Aligned(c, a)
    requires KeyLt(c, a)
    ensures KeyLt(c, b) || KeyLt(b, a)
    decreases |a|
  {
    if b != [] && c != [] {
      TokenTrichotomy(c[0], b[0]);
      TokenTrichotomy(b[0], a[0]);
      if TokenLt(c[0], a[0]) {
        if !TokenLt(c[0], b[0]) && TokenLt(b[0], c[0]) {
          TokenLtTransitive(b[0], c[0], a[0]);
        }
      } else if b[0] == c[0] {
        assert Aligned(a[1..], b[1..]) && Aligned(b[1..], c[1..]) && Aligned(c[1..], a[1..]);
        KeyLtSplit(a[1..], b[1..], c[1..]);
      }
    }
  }

  /** The order `sorted(..., key=natural_key)` establishes: x may precede y
      when `natural_key(y) < natural_key(x)` is false. */
  predicate NaturalLe(x: string, y: string) {
    !KeyLt(NaturalKey(y), NaturalKey(x))
  }

  lemma NaturalLeIsTotalPreorder()
    ensures TotalPreorder(NaturalLe)
  {
    forall x, y ensures NaturalLe(x, y) || NaturalLe(y, x) {
      if KeyLt(NaturalKey(y), NaturalKey(x)) {
        KeyLtAsymmetric(NaturalKey(y), NaturalKey(x));
      }
    }
    forall x, y, z | NaturalLe(x, y) && NaturalLe(y, z) ensures NaturalLe(x, z) {
      if KeyLt(NaturalKey(z), NaturalKey(x)) {
        NaturalKeysAligned(x, y);
        NaturalKeysAligned(y, z);
        NaturalKeysAligned(z, x);
        KeyLtSplit(NaturalKey(x), NaturalKey(y), NaturalKey(z));
      }
    }
  }

  /** `sorted(names, key=natural_key)`: a stable sort by NaturalLe. */
  function SortNatural(names: seq<string>): (r: seq<string>)
    ensures SortedBy(r, NaturalLe) && multiset(r) == multiset(names)
  {
    NaturalLeIsTotalPreorder();
    SortBySorted(names, NaturalLe);
    SortBy(names, NaturalLe)
  }

  /** Names with equal natural keys keep their listing order, as Python's
      stable `sorted` guarantees ("a1.txt" before "a01.txt" exactly when the
      listing has them so). */
  lemma SortNaturalStable(names: seq<string>, x: string)
    ensures Ties(SortNatural(names), x, NaturalLe) == Ties(names, x, NaturalLe)
  {
    NaturalLeIsTotalPreorder();
    SortByStable(names, x, NaturalLe);
  }

  /** Text without digits at the front joins the first piece of the split. */
  lemma {:induction false} RunsNoDigitPrefix(p: string, s: string)
    requires NoDigits(p)
    ensures Runs(p + s) == [p + Runs(s)[0]] + Runs(s)[1..]
    decreases |p|
  {
    var u := Runs(s);
    if p == [] {
      assert p + s == s;
      assert p + u[0] == u[0];
      assert [u[0]] + u[1..] == u;
    } else {
      RunsNoDigitPrefix(p[1..], s);
      var t := Runs(p[1..] + s);
      assert (p + s)[1..] == p[1..] + s;
      assert !IsDigit((p + s)[0]);
      assert Runs(p + s) == [[p[0]] + t[0]] + t[1..];
      assert t[0] == p[1..] + u[0] && t[1..] == u[1..];
      assert [p[0]] + (p[1..] + u[0]) == p + u[0];
    }
  }

  /** A digit run followed by text that does not start with a digit is a
      piece of its own, after an empty first piece. */
  lemma {:induction false} RunsDigitPrefix(d: string, s: string)
    requires d != [] && AllDigits(d)
    requires s == [] || !IsDigit(s[0])
    ensures Runs(d + s) == ["", d] + Runs(s)
    decreases |d|
  {
    var t := Runs(d[1..] + s);
    assert (d + s)[1..] == d[1..] + s;
    assert IsDigit((d + s)[0]);
    assert Runs(d + s) == if t[0] == [] && |t| > 1 then ["", [d[0]] + t[1]] + t[2..] else ["", [d[0]]] + t;
    if |d| == 1 {
      assert d[1..] + s == s;
      assert d == [d[0]];
      if s != [] {
        assert Runs(s)[0] == [s[0]] + Runs(s[1..])[0];
      } else {
        assert Runs(s) == [""];
      }
    } else {
      RunsDigitPrefix(d[1..], s);
      assert [d[0]] + d[1..] == d;
    }
  }

  /** The key of a frame name: the word "frame", the frame number and the
      extension. */
  lemma FrameNameKey(idx: nat, digits: nat, ext: string)
    requires NoDigits(ext) && LowerStr(ext) == ext
    ensures NaturalKey(FrameName(idx, digits, ext)) == [Word("frame"), Number(idx), Word(ext)]
  {
    ZFillDecimalValue(idx, digits);
    var z := ZFill(Decimal(idx), digits);
    FrameNameRuns(idx, digits, ext);
    KeyOfThree(FrameName(idx, digits, ext), "frame", z, ext);
    assert TokenOf(z) == Number(idx);
    WordHasNoDigits();
    assert TokenOf("frame") == Word("frame");
    if ext != [] {
      assert !IsDigit(ext[0]);
    }
    assert TokenOf(ext) == Word(ext);
  }

  lemma KeyOfThree(s: string, a: string, b: string, c: string)
    requires Runs(s) == [a, b, c]
    ensures NaturalKey(s) == [TokenOf(a), TokenOf(b), TokenOf(c)]
  {
    var k := NaturalKey(s);
    assert |k| == 3 && k[0] == TokenOf(a) && k[1] == TokenOf(b) && k[2] == TokenOf(c);
  }

  lemma FrameNameRuns(idx: nat, digits: nat, ext: string)
    requires NoDigits(ext)
    ensures AllDigits(Decimal(idx))
    ensures Runs(FrameName(idx, digits, ext)) == ["frame", ZFill(Decimal(idx), digits), ext]
  {
    DecimalSpec(idx);
    var z := ZFill(Decimal(idx), digits);
    WordHasNoDigits();
    ThreePieces("frame", z, ext);
    assert FrameName(idx, digits, ext) == "frame" + z + ext;
  }

  lemma WordHasNoDigits()
    ensures NoDigits("frame") && !AllDigits("frame") && LowerStr("frame") == "frame"
  {
    assert !IsDigit("frame"[0]);
  }

  /** Text, a digit run and text without digits split into those three pieces. */
  lemma ThreePieces(p: string, z: string, e: string)
    requires NoDigits(p) && NoDigits(e) && z != [] && AllDigits(z)
    ensures Runs(p + z + e) == [p, z, e]
  {
    RunsNoDigitPrefix(e, "");
    assert e + "" == e;
    if e != [] {
      assert !IsDigit(e[0]);
    }
    RunsDigitPrefix(z, e);
    RunsNoDigitPrefix(p, z + e);
    assert p + z + e == p + (z + e);
    assert p + "" == p;
  }

  /** Frame names sort by their numbers. */
  lemma FrameNameOrder(i: nat, j: nat, digits: nat, ext: string)
    requires NoDigits(ext) && LowerStr(ext) == ext
    ensures NaturalLe(FrameName(i, digits, ext), FrameName(j, digits, ext)) <==> i <= j
  {
    FrameNameKey(i, digits, ext);
    FrameNameKey(j, digits, ext);
    KeyLtMiddle("frame", ext, i, j);
  }

  /** Keys that differ only in their number compare as the numbers do. */
  lemma KeyLtMiddle(w: string, e: string, i: nat, j: nat)
    ensures KeyLt([Word(w), Number(j), Word(e)], [Word(w), Number(i), Word(e)]) <==> j < i
  {
    var ki: seq<Token> := [Word(w), Number(i), Word(e)];
    var kj: seq<Token> := [Word(w), Number(j), Word(e)];
    var tail: seq<Token> := [Word(e)];
    assert tail[1..] == [];
    assert !KeyLt(tail, tail);
    assert kj[1..] == [Number(j)] + tail && ki[1..] == [Number(i)] + tail;
    assert KeyLt(kj[1..], ki[1..]) <==> j < i;
    assert !TokenLt(Word(w), Word(w));
  }

  /** `f.lower().endswith('.txt')`. */
  predicate IsLabelFile(name: string) { EndsWith(LowerStr(name), ".txt") }

  const ImageExtensions: seq<string> := [".bmp", ".jpg", ".jpeg", ".png"]

  /** `os.path.splitext(f)[1].lower() in img_exts`. */
  predicate IsImageFile(name: string) { LowerStr(Splitext(name).1) in ImageExtensions }

  /** `len(str(n - 1))`: the width of the largest index, and 2 (the width of
      "-1") when there is nothing to number. */
  function Digits(n: nat): nat { |IntString(n - 1)| }

  /** `f"frame{str(idx).zfill(digits)}{ext}"`. */
  function FrameName(idx: nat, digits: nat, ext: string): string {
    DecimalSpec(idx);
    "frame" + ZFill(Decimal(idx), digits) + ext
  }

  /** Every index below n is padded to exactly `Digits(n)` characters, so all
      frame names of one directory have the same length. */
  lemma FrameNameLength(idx: nat, n: nat, ext: string)
    requires idx < n
    ensures Digits(n) == |Decimal(n - 1)|
    ensures |FrameName(idx, Digits(n), ext)| == 5 + Digits(n) + |ext|
  {
    DecimalSpec(idx);
    DecimalLengthMonotone(idx, n - 1);
  }

  /** Different indices give different names, whatever the width. */
  lemma FrameNamesDistinct(i: nat, j: nat, digits: nat, ext: string)
    requires i != j
    ensures FrameName(i, digits, ext) != FrameName(j, digits, ext)
  {
    ZFillDecimalValue(i, digits);
    ZFillDecimalValue(j, digits);
    var zi, zj := ZFill(Decimal(i), digits), ZFill(Decimal(j), digits);
    var fi, fj := FrameName(i, digits, ext), FrameName(j, digits, ext);
    assert zi != zj;
    if |zi| == |zj| {
      assert fi[5..5 + |zi|] == zi;
      assert fj[5..5 + |zj|] == zj;
    } else {
      assert |fi| != |fj|;
    }
  }

  /** `f"data{str(i).zfill(2)}"`. */
  function OldFolderName(i: nat): string {
    DecimalSpec(i);
    "data" + ZFill(Decimal(i), 2)
  }

  /** `f"video{i}"`. */
  function NewFolderName(i: nat): string { "video" + Decimal(i) }

  /** For the folders 1..26 the old names are `data01` .. `data26`. */
  lemma OldFolderNameLength(i: nat)
    requires 1 <= i <= 26
    ensures |OldFolderName(i)| == 6
  {
    DecimalLengthMonotone(i, 99);
    assert Decimal(99) == Decimal(9) + [DigitChar(9)];
  }

  /** Each old and each new name belongs to one folder only, and no new name
      is an old one, so the renames of `rename_subdirs` never meet. */
  lemma FolderNamesDistinct(i: nat, j: nat)
    requires 1 <= i <= 26 && 1 <= j <= 26
    ensures i != j ==> OldFolderName(i) != OldFolderName(j) && NewFolderName(i) != NewFolderName(j)
    ensures OldFolderName(i) != NewFolderName(j)
  {
    assert OldFolderName(i)[0] == 'd' && NewFolderName(j)[0] == 'v';
    if i != j {
      OldFolderNamesDiffer(i, j);
      NewFolderNamesDiffer(i, j);
    }
  }

  lemma OldFolderNamesDiffer(i: nat, j: nat)
    requires 1 <= i <= 26 && 1 <= j <= 26 && i != j
    ensures OldFolderName(i) != OldFolderName(j)
  {
    OldFolderNameLength(i);
    OldFolderNameLength(j);
    ZFillDecimalValue(i, 2);
    ZFillDecimalValue(j, 2);
    assert ZFill(Decimal(i), 2) == OldFolderName(i)[4..];
    assert ZFill(Decimal(j), 2) == OldFolderName(j)[4..];
  }

  lemma NewFolderNamesDiffer(i: nat, j: nat)
    requires i != j
    ensures NewFolderName(i) != NewFolderName(j)
  {
    DecimalSpec(i);
    DecimalSpec(j);
    assert Decimal(i) == NewFolderName(i)[5..];
    assert Decimal(j) == NewFolderName(j)[5..];
  }
}
