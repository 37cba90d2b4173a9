/** String helpers shared by the evaluator and the renaming scripts: ASCII case
    folding, Python's `str(int)`, `str.zfill`, `int(str)` in base 10, `str.strip`,
    `str.endswith` and `os.path.splitext` on a bare file name. */
module Text {

  datatype Option<T> = None | Some(value: T)

  predicate IsDigit(c: char) { '0' <= c <= '9' }

  predicate AllDigits(s: string) { forall i :: 0 <= i < |s| ==> IsDigit(s[i]) }

  /** `str.lower()` restricted to ASCII: only 'A'..'Z' change. */
  function Lower(c: char): (r: char)
    ensures IsDigit(r) <==> IsDigit(c)
    ensures !('A' <= r <= 'Z')
  {
    if 'A' <= c <= 'Z' then (c as int + 32) as char else c
  }

  function LowerStr(s: string): (r: string)
    ensures |r| == |s|
    ensures forall i :: 0 <= i < |s| ==> r[i] == Lower(s[i])
  {
    if s == [] then [] else [Lower(s[0])] + LowerStr(s[1..])
  }

  predicate EndsWith(s: string, suffix: string) {
    |suffix| <= |s| && s[|s| - |suffix|..] == suffix
  }

  predicate StartsWith(s: string, prefix: string) {
    |prefix| <= |s| && s[..|prefix|] == prefix
  }

  function DigitChar(d: nat): (c: char)
    requires d < 10
    ensures IsDigit(c)
  {
    ('0' as int + d) as char
  }

  function DigitOf(c: char): (d: nat)
    requires IsDigit(c)
    ensures d < 10 && DigitChar(d) == c
  {
    c as int - '0' as int
  }

  /** Python `str(n)` for n >= 0: decimal digits, no leading zero. */
  function Decimal(n: nat): (r: string)
    decreases n
  {
    if n < 10 then [DigitChar(n)] else Decimal(n / 10) + [DigitChar(n % 10)]
  }

  /** Python `str(n)` for any integer. */
  function IntString(n: int): string {
    if n < 0 then "-" + Decimal(-n) else Decimal(n)
  }

  /** The value of a string of decimal digits (leading zeros allowed). */
  function DigitsValue(s: string): nat
    requires AllDigits(s)
  {
    if s == [] then 0 else DigitsValue(s[..|s| - 1]) * 10 + DigitOf(s[|s| - 1])
  }

  /** `str(n)` is a non-empty digit string without a leading zero whose value is n. */
  lemma {:induction false} DecimalSpec(n: nat)
    ensures |Decimal(n)| >= 1 && AllDigits(Decimal(n))
    ensures DigitsValue(Decimal(n)) == n
    ensures |Decimal(n)| > 1 ==> Decimal(n)[0] != '0'
    decreases n
  {
    if n >= 10 {
      DecimalSpec(n / 10);
      var s := Decimal(n);
      assert s[..|s| - 1] == Decimal(n / 10);
      assert s[0] == Decimal(n / 10)[0];
    }
  }

  /** A larger number never has a shorter decimal form. */
  lemma {:induction false} DecimalLengthMonotone(m: nat, n: nat)
    requires m <= n
    ensures |Decimal(m)| <= |Decimal(n)|
    decreases n
  {
    if m >= 10 {
      DecimalLengthMonotone(m / 10, n / 10);
    }
  }

  function Zeros(k: nat): (r: string)
    ensures |r| == k && AllDigits(r)
    ensures forall i :: 0 <= i < k ==> r[i] == '0'
  {
    if k == 0 then [] else Zeros(k - 1) + ['0']
  }

  /** Python `s.zfill(width)` for an unsigned digit string: pad with '0' on the left. */
  function ZFill(s: string, width: int): (r: string)
    requires AllDigits(s)
    ensures AllDigits(r)
    ensures |r| == if width > |s| then width else |s|
    ensures r[|r| - |s|..] == s
  {
    if width > |s| then Zeros(width - |s|) + s else s
  }

  /** Leading zeros do not change the value of a digit string. */
  lemma {:induction false} ZerosPrefixValue(k: nat, s: string)
    requires AllDigits(s)
    ensures DigitsValue(Zeros(k) + s) == DigitsValue(s)
    decreases |s|
  {
    if s == [] {
      ZerosValue(k);
      assert Zeros(k) + s == Zeros(k);
    } else {
      var t := Zeros(k) + s;
      assert t[..|t| - 1] == Zeros(k) + s[..|s| - 1];
      ZerosPrefixValue(k, s[..|s| - 1]);
    }
  }

  lemma {:induction false} ZerosValue(k: nat)
    ensures DigitsValue(Zeros(k)) == 0
  {
    if k > 0 {
      assert Zeros(k)[..k - 1] == Zeros(k - 1);
      ZerosValue(k - 1);
    }
  }

  /** `str(n).zfill(w)` still denotes n, so distinct numbers give distinct strings. */
  lemma ZFillDecimalValue(n: nat, width: int)
    ensures AllDigits(Decimal(n)) && DigitsValue(ZFill(Decimal(n), width)) == n
  {
    DecimalSpec(n);
    if width > |Decimal(n)| {
      ZerosPrefixValue(width - |Decimal(n)|, Decimal(n));
    }
  }

  /** `str.isspace()`: the characters `int()` strips from both ends of its argument. */
  predicate IsSpace(c: char) {
    || '\t' <= c <= '\r' || '\U{1c}' <= c <= ' ' || c == '\U{85}' || c == '\U{a0}'
    || c == '\U{1680}' || '\U{2000}' <= c <= '\U{200a}' || c == '\U{2028}' || c == '\U{2029}'
    || c == '\U{202f}' || c == '\U{205f}' || c == '\U{3000}'
  }

  predicate AllSpace(s: string) { forall i :: 0 <= i < |s| ==> IsSpace(s[i]) }

  function StripLeft(s: string): string {
    if s != [] && IsSpace(s[0]) then StripLeft(s[1..]) else s
  }

  function StripRight(s: string): string {
    if s != [] && IsSpace(s[|s| - 1]) then StripRight(s[..|s| - 1]) else s
  }

  /** `s.strip()`. */
  function Strip(s: string): string { StripRight(StripLeft(s)) }

  /** Decimal digits in groups separated by single underscores ("1_000"): no
      underscore at either end and never two in a row. */
  predicate DigitGroups(s: string)
    decreases |s|
  {
    && |s| >= 1 && IsDigit(s[|s| - 1])
    && (|s| == 1 || DigitGroups(s[..|s| - 1])
        || (|s| >= 3 && s[|s| - 2] == '_' && DigitGroups(s[..|s| - 2])))
  }

  /** The number a digit-group string denotes; the underscores carry no value. */
  function GroupsValue(s: string): nat
    requires DigitGroups(s)
    decreases |s|
  {
    if |s| == 1 then DigitOf(s[0])
    else if DigitGroups(s[..|s| - 1]) then GroupsValue(s[..|s| - 1]) * 10 + DigitOf(s[|s| - 1])
    else GroupsValue(s[..|s| - 2]) * 10 + DigitOf(s[|s| - 1])
  }

  /** Python `int(s)` on a str, base 10: surrounding white space is ignored, an
      optional sign, then digit groups; leading zeros are allowed. None is the
      ValueError of any other string. */
  function ParseInt(s: string): (r: Option<int>)
    ensures r.Some? ==> |s| >= 1
  {
    ParseStripped(Strip(s))
  }

  /** `int()` on a string whose white space has been stripped. */
  function ParseStripped(t: string): Option<int> {
    if |t| >= 2 && (t[0] == '-' || t[0] == '+') && DigitGroups(t[1..]) then
      var v: int := GroupsValue(t[1..]);
      Some(if t[0] == '-' then -v else v)
    else if DigitGroups(t) then Some(GroupsValue(t))
    else None
  }

  /** t is an integer literal of value n: digit groups, possibly behind a sign. */
  predicate SignedLiteral(t: string, n: int) {
    || (DigitGroups(t) && n == GroupsValue(t))
    || (|t| >= 2 && t[0] == '+' && DigitGroups(t[1..]) && n == GroupsValue(t[1..]))
    || (|t| >= 2 && t[0] == '-' && DigitGroups(t[1..]) && -n == GroupsValue(t[1..]))
  }

  /** A plain digit string is a single digit group with the same value. */
  lemma {:induction false} DigitsAreGroups(s: string)
    requires |s| >= 1 && AllDigits(s)
    ensures DigitGroups(s) && GroupsValue(s) == DigitsValue(s)
    decreases |s|
  {
    if |s| > 1 {
      DigitsAreGroups(s[..|s| - 1]);
      assert IsDigit(s[|s| - 2]);
    }
  }

  lemma {:induction false} StripLeftSpaces(lead: string, t: string)
    requires AllSpace(lead) && t != [] && !IsSpace(t[0])
    ensures StripLeft(lead + t) == t
    decreases |lead|
  {
    if lead != [] {
      assert (lead + t)[1..] == lead[1..] + t;
      StripLeftSpaces(lead[1..], t);
    } else {
      assert lead + t == t;
    }
  }

  lemma {:induction false} StripRightSpaces(t: string, trail: string)
    requires AllSpace(trail) && t != [] && !IsSpace(t[|t| - 1])
    ensures StripRight(t + trail) == t
    decreases |trail|
  {
    if trail != [] {
      assert (t + trail)[..|t + trail| - 1] == t + trail[..|trail| - 1];
      StripRightSpaces(t, trail[..|trail| - 1]);
    } else {
      assert t + trail == t;
    }
  }

  /** `s.strip()` removes white space from both ends and nothing else. */
  lemma {:induction false} StripSpec(s: string)
    ensures exists i, j :: 0 <= i <= j <= |s| && Strip(s) == s[i..j] && AllSpace(s[..i]) && AllSpace(s[j..])
    ensures Strip(s) != [] ==> !IsSpace(Strip(s)[0]) && !IsSpace(Strip(s)[|Strip(s)| - 1])
  {
    var i := StripLeftAt(s);
    var j := StripRightAt(s[i..]);
    assert s[i..][..j] == s[i..i + j];
    assert s[i..][j..] == s[i + j..];
  }

  lemma {:induction false} StripLeftAt(s: string) returns (i: nat)
    ensures i <= |s| && StripLeft(s) == s[i..] && AllSpace(s[..i])
    ensures StripLeft(s) != [] ==> !IsSpace(StripLeft(s)[0])
    decreases |s|
  {
    if s != [] && IsSpace(s[0]) {
      var k := StripLeftAt(s[1..]);
      i := k + 1;
      assert s[1..][k..] == s[i..];
      assert forall m :: 1 <= m < i ==> s[..i][m] == s[1..][..k][m - 1];
    } else {
      i := 0;
    }
  }

  lemma {:induction false} StripRightAt(s: string) returns (j: nat)
    ensures j <= |s| && StripRight(s) == s[..j] && AllSpace(s[j..])
    ensures StripRight(s) != [] ==> !IsSpace(StripRight(s)[|StripRight(s)| - 1])
    decreases |s|
  {
    if s != [] && IsSpace(s[|s| - 1]) {
      j := StripRightAt(s[..|s| - 1]);
      assert s[..|s| - 1][..j] == s[..j];
    } else {
      j := |s|;
    }
  }

  /** Every integer literal, with any white space around it, is accepted by
      `int()` and gives its value ("1_000", " -7\n", "+007"). */
  lemma ParseIntAccepts(lead: string, lit: string, trail: string, n: int)
    requires AllSpace(lead) && AllSpace(trail) && SignedLiteral(lit, n)
    ensures ParseInt(lead + lit + trail) == Some(n)
  {
    LiteralEnds(lit, n);
    StripLeftSpaces(lead, lit + trail);
    assert lead + lit + trail == lead + (lit + trail);
    StripRightSpaces(lit, trail);
    LiteralParses(lit, n);
  }

  lemma LiteralEnds(lit: string, n: int)
    requires SignedLiteral(lit, n)
    ensures lit != [] && !IsSpace(lit[0]) && !IsSpace(lit[|lit| - 1])
  {
    if DigitGroups(lit) {
      GroupsEnds(lit);
    } else {
      GroupsEnds(lit[1..]);
      assert lit[|lit| - 1] == lit[1..][|lit| - 2];
    }
  }

  lemma LiteralParses(lit: string, n: int)
    requires SignedLiteral(lit, n)
    ensures ParseStripped(lit) == Some(n)
  {
    if DigitGroups(lit) {
      GroupsEnds(lit);
    }
  }

  /** Digit groups start and end with a digit. */
  lemma {:induction false} GroupsEnds(s: string)
    requires DigitGroups(s)
    ensures IsDigit(s[0]) && IsDigit(s[|s| - 1])
    decreases |s|
  {
    if |s| > 1 {
      if DigitGroups(s[..|s| - 1]) {
        GroupsEnds(s[..|s| - 1]);
      } else {
        GroupsEnds(s[..|s| - 2]);
      }
    }
  }

  /** Conversely, `int()` accepts nothing else: a string it converts is a
      literal of that value with only white space around it. */
  lemma ParseIntOnlyLiterals(s: string, n: int)
    requires ParseInt(s) == Some(n)
    ensures exists i, j :: 0 <= i <= j <= |s| && AllSpace(s[..i]) && AllSpace(s[j..]) && SignedLiteral(s[i..j], n)
  {
    StripSpec(s);
    assert SignedLiteral(Strip(s), n);
  }

  /** `int(str(n)) == n`. */
  lemma ParseIntString(n: int)
    ensures ParseInt(IntString(n)) == Some(n)
  {
    var t := IntString(n);
    if n < 0 {
      DecimalSpec(-n);
      DigitsAreGroups(Decimal(-n));
      assert t[1..] == Decimal(-n);
    } else {
      DecimalSpec(n);
      DigitsAreGroups(Decimal(n));
    }
    assert SignedLiteral(t, n);
    LiteralEnds(t, n);
    LiteralParses(t, n);
  }

  /** Index of the last occurrence of c, or -1. */
  function LastIndexOf(s: string, c: char): (k: int)
    ensures -1 <= k < |s|
    ensures k >= 0 ==> s[k] == c
    ensures forall i :: k < i < |s| ==> s[i] != c
  {
    if s == [] then -1
    else if s[|s| - 1] == c then |s| - 1
    else LastIndexOf(s[..|s| - 1], c)
  }

  predicate AllDots(s: string) { forall i :: 0 <= i < |s| ==> s[i] == '.' }

  /** `os.path.splitext(name)` for a name without a directory part: the
      extension starts at the last '.', unless every character before that dot
      is itself a dot (a hidden file such as ".txt" has no extension). */
  function Splitext(name: string): (r: (string, string))
    ensures r.0 + r.1 == name
    ensures r.1 != [] ==> r.1[0] == '.' && forall i :: 1 <= i < |r.1| ==> r.1[i] != '.'
    ensures r.1 != [] ==> !AllDots(r.0)
  {
    var d := LastIndexOf(name, '.');
    if d >= 0 && !AllDots(name[..d]) then (name[..d], name[d..]) else (name, "")
  }

  /** A name made of a stem that does not start with a dot and a single
      dot-led suffix splits into exactly those two parts. */
  lemma SplitextAt(stem: string, ext: string)
    requires stem != [] && stem[0] != '.'
    requires |ext| >= 1 && ext[0] == '.' && forall i :: 1 <= i < |ext| ==> ext[i] != '.'
    ensures Splitext(stem + ext) == (stem, ext)
  {
    var name := stem + ext;
    var d := LastIndexOf(name, '.');
    assert name[|stem|] == '.';
    assert forall i :: |stem| < i < |name| ==> name[i] == ext[i - |stem|];
    assert d == |stem|;
    assert name[..d] == stem;
    assert !AllDots(stem);
  }

  /** Lower-casing a name keeps a suffix that is already lower-case. */
  lemma EndsWithLower(stem: string, ext: string)
    requires LowerStr(ext) == ext
    ensures EndsWith(LowerStr(stem + ext), ext)
  {
    var s := LowerStr(stem + ext);
    assert forall i :: 0 <= i < |ext| ==> s[|stem| + i] == Lower(ext[i]) == LowerStr(ext)[i];
    assert s[|stem|..] == ext;
  }
}
