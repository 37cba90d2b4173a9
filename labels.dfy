/** Reading YOLO label files (Recall.py `load_labels_from_yolo_txt`). Opening
    the file, splitting a line into whitespace-separated tokens and the text
    syntax accepted by `float()` are outside the model: a file arrives as its
    lines, each line as the outcome of `float()` on each of its tokens. */
module Labels {
  import opened Text
  import opened Geometry

  /** The outcome of `float(token)`: a number, or the ValueError it raises. */
  datatype Field = Num(v: real) | NotANumber

  type Line = seq<Field>

  /** One box: [class_id, x_center, y_center, width, height]. */
  datatype Label = Label(cls: real, box: Rect)

  /** Python `int(x)` on a float: truncation toward zero. */
  function Trunc(x: real): (n: int)
    ensures x >= 0.0 ==> 0 <= n && n as real <= x < n as real + 1.0
    ensures x < 0.0 ==> n <= 0 && n as real - 1.0 < x <= n as real
  {
    if x >= 0.0 then x.Floor else -((-x).Floor)
  }

  /** The integer class the matcher compares (`int(box[0])`). */
  function ClassId(l: Label): int { Trunc(l.cls) }

  /** True when `list(map(float, line.split()))` raises no ValueError. */
  predicate Numeric(line: Line) {
    forall i :: 0 <= i < |line| ==> line[i].Num?
  }

  /** `parts[:5]`, with the last four fields read as the box. */
  function FirstFive(line: Line): (l: Label)
    requires |line| >= 5 && Numeric(line)
    ensures l.cls == line[0].v
    ensures l.box == Rect(line[1].v, line[2].v, line[3].v, line[4].v)
  {
    Label(line[0].v, Rect(line[1].v, line[2].v, line[3].v, line[4].v))
  }

  /** What the loop leaves in `labels`: numeric lines with at least five
      fields contribute their first five; the first line with a
      non-numeric token raises, the handler outside the loop keeps what was
      read so far and drops the rest of the file. */
  function Parse(lines: seq<Line>): seq<Label>
  {
    if lines == [] then []
    else if !Numeric(lines[0]) then []
    else if |lines[0]| >= 5 then [FirstFive(lines[0])] + Parse(lines[1..])
    else Parse(lines[1..])
  }

  /** A missing file yields the empty list. */
  function Load(file: Option<seq<Line>>): seq<Label> {
    match file
    case None => []
    case Some(lines) => Parse(lines)
  }

  method LoadLabels(file: Option<seq<Line>>) returns (labels: seq<Label>)
    ensures labels == Load(file)
  {
    labels := [];
    if file.None? {
      return;
    }
    var lines := file.value;
    var i := 0;
    while i < |lines|
      invariant 0 <= i <= |lines|
      invariant forall k :: 0 <= k < i ==> Numeric(lines[k])
      invariant labels + Parse(lines[i..]) == Parse(lines)
    {
      var parts := lines[i];
      if !Numeric(parts) {
        // the ValueError leaves the loop; the except clause returns `labels`
        ParseStopsAtBadLine(lines, i);
        ParseNumericPrefix(lines, i);
        return;
      }
      if |parts| >= 5 {
        labels := labels + [FirstFive(parts)];
      }
      assert lines[i..][1..] == lines[i + 1..];
      i := i + 1;
    }
  }

  /** Everything after the first line with a non-numeric token is ignored. */
  lemma {:induction false} ParseStopsAtBadLine(lines: seq<Line>, k: nat)
    requires k < |lines| && !Numeric(lines[k])
    ensures Parse(lines) == Parse(lines[..k])
    ensures Parse(lines[k..]) == []
  {
    if k > 0 {
      assert lines[1..][k - 1..] == lines[k..];
      ParseStopsAtBadLine(lines[1..], k - 1);
      assert lines[1..][..k - 1] == lines[..k][1..];
    }
  }

  /** Over lines that all parse, the labels of a prefix come first. */
  lemma {:induction false} ParseNumericPrefix(lines: seq<Line>, k: nat)
    requires k <= |lines|
    requires forall i :: 0 <= i < k ==> Numeric(lines[i])
    ensures Parse(lines) == Parse(lines[..k]) + Parse(lines[k..])
  {
    if k > 0 {
      ParseNumericPrefix(lines[1..], k - 1);
      assert lines[1..][..k - 1] == lines[..k][1..];
      assert lines[1..][k - 1..] == lines[k..];
    } else {
      assert lines[k..] == lines;
    }
  }

  /** Every label is the first five fields of some numeric line with at least
      five fields, and all lines before it are numeric. */
  lemma {:induction false} ParseSound(lines: seq<Line>, n: nat)
    requires n < |Parse(lines)|
    ensures exists j :: 0 <= j < |lines| && |lines[j]| >= 5 && Numeric(lines[j])
                        && Parse(lines)[n] == FirstFive(lines[j])
                        && forall i :: 0 <= i < j ==> Numeric(lines[i])
  {
    var rest := Parse(lines[1..]);
    if |lines[0]| >= 5 && n == 0 {
      assert Parse(lines)[0] == FirstFive(lines[0]);
    } else {
      var m := if |lines[0]| >= 5 then n - 1 else n;
      assert Parse(lines)[n] == rest[m];
      ParseSound(lines[1..], m);
      var j :| 0 <= j < |lines[1..]| && |lines[1..][j]| >= 5 && Numeric(lines[1..][j])
               && rest[m] == FirstFive(lines[1..][j])
               && forall i :: 0 <= i < j ==> Numeric(lines[1..][i]);
      assert forall i :: 1 <= i < j + 1 ==> Numeric(lines[i]) by {
        forall i | 1 <= i < j + 1 ensures Numeric(lines[i]) {
          assert lines[i] == lines[1..][i - 1];
        }
      }
      assert lines[j + 1] == lines[1..][j];
    }
  }

  /** Number of lines with at least five fields. */
  function LongLines(lines: seq<Line>): nat {
    if lines == [] then 0 else (if |lines[0]| >= 5 then 1 else 0) + LongLines(lines[1..])
  }

  /** A file in which every line parses yields one label per line with at
      least five fields: extra trailing fields never drop a line. */
  lemma {:induction false} ParseCount(lines: seq<Line>)
    requires forall i :: 0 <= i < |lines| ==> Numeric(lines[i])
    ensures |Parse(lines)| == LongLines(lines)
  {
    if lines != [] {
      ParseCount(lines[1..]);
    }
  }
}
