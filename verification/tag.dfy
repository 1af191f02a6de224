/** The end-of-command tag: how the shell prints it and how the session handler scans it. */
module Tag {
  import opened Text

  const EOC_TAG: string := "<SU_SRV_EOC>"
  const EOC_CMD: string := "echo \"<SU_SRV_EOC>\"$?\n"

  predicate IsDigit(c: char) {
    '0' <= c <= '9'
  }

  /** `isspace` in the C locale. */
  predicate IsSpace(c: char) {
    c == ' ' || c == '\t' || c == '\n' || c == '\r' || c == '\U{000B}' || c == '\U{000C}'
  }

  predicate AllDigits(s: string) {
    forall i | 0 <= i < |s| :: IsDigit(s[i])
  }

  predicate AllSpaces(s: string) {
    forall i | 0 <= i < |s| :: IsSpace(s[i])
  }

  function DigitOf(n: nat): (c: char)
    requires n < 10
    ensures IsDigit(c) && c as int == '0' as int + n
  {
    ('0' as int + n) as char
  }

  /** Decimal digits of a natural number, without leading zeros. */
  function Digits(n: nat): (s: string)
    ensures |s| > 0 && AllDigits(s)
  {
    if n < 10 then [DigitOf(n)] else Digits(n / 10) + [DigitOf(n % 10)]
  }

  /** Decimal text of an integer, as the shell expands `$?` and as `%d` prints. */
  function Decimal(n: int): (s: string) {
    if n < 0 then "-" + Digits(-n) else Digits(n)
  }

  /** The number a run of decimal digits denotes. */
  function DigitsValue(s: string): nat
    requires AllDigits(s)
  {
    if s == "" then 0
    else 10 * DigitsValue(s[..|s| - 1]) + (s[|s| - 1] as int - '0' as int)
  }

  /** The line printed by `echo "<SU_SRV_EOC>"$?` when `$?` is `n`. */
  function TagLine(n: int): string {
    EOC_TAG + Decimal(n) + [LF]
  }

  /** Outcome of `sscanf` with one `%d` conversion: input failure, matching failure, or one value stored. */
  datatype Scan = Eof | NoMatch | Value(n: int)

  /** Length of the leading run of white space. */
  function SpaceRun(s: string): (k: nat)
    ensures k <= |s| && AllSpaces(s[..k])
    ensures k < |s| ==> !IsSpace(s[k])
  {
    if s == "" || !IsSpace(s[0]) then 0
    else
      var k := SpaceRun(s[1..]);
      assert forall i | 0 < i < 1 + k :: s[i] == s[1..][..k][i - 1];
      1 + k
  }

  /** Length of the leading run of digits. */
  function DigitRun(s: string): (k: nat)
    ensures k <= |s| && AllDigits(s[..k])
    ensures k < |s| ==> !IsDigit(s[k])
  {
    if s == "" || !IsDigit(s[0]) then 0
    else
      var k := DigitRun(s[1..]);
      assert forall i | 0 < i < 1 + k :: s[i] == s[1..][..k][i - 1];
      1 + k
  }

  predicate IsSign(s: string) {
    s == "" || s == "+" || s == "-"
  }

  /** The optional sign of an integer. */
  function SignOf(s: string): (g: string)
    ensures IsSign(g) && g <= s
  {
    if s != "" && (s[0] == '+' || s[0] == '-') then s[..1] else ""
  }

  function Signed(sign: string, n: nat): int {
    if sign == "-" then -(n as int) else n
  }

  /** The `%d` conversion. */
  function ScanInt(s: string): Scan {
    var t := s[SpaceRun(s)..];
    if t == "" then Eof
    else
      var sign := SignOf(t);
      var u := t[|sign|..];
      var k := DigitRun(u);
      if k == 0 then NoMatch else Value(Signed(sign, DigitsValue(u[..k])))
  }

  /** `sscanf(s, "<SU_SRV_EOC>%d\n", &n)`: the literal must match from the first byte. */
  function ScanTag(s: string): Scan {
    if EOC_TAG <= s then ScanInt(s[|EOC_TAG|..])
    else if s <= EOC_TAG then Eof
    else NoMatch
  }

  /** What the handler does with one line: keep it as output, or treat it as a tag line. */
  datatype LineKind = Output | TagMark(signals: bool, stores: bool, code: int)

  /** The handler's decision on the C string of one line. */
  function Classify(line: string): LineKind {
    var s := CStr(line);
    if !Contains(s, EOC_TAG) then Output
    else
      match ScanTag(s)
      case Eof => TagMark(false, false, 0)
      case NoMatch => TagMark(true, false, 0)
      case Value(n) => TagMark(true, true, n)
  }

  // ---- digits ----

  /** The two character classes, by their codes. */
  lemma CharacterClasses(c: char)
    ensures IsDigit(c) <==> 48 <= c as int <= 57
    ensures IsSpace(c) <==> c as int == 32 || 9 <= c as int <= 13
  {
  }

  function Pow10(k: nat): nat {
    if k == 0 then 1 else 10 * Pow10(k - 1)
  }

  lemma Regroup(a: int, b: int, p: int, v: int)
    ensures 10 * (a * p + b) + v == a * (10 * p) + (10 * b + v)
  {
  }

  /** Digits denote a number in base ten: cut anywhere, the left part counts powers of ten. */
  lemma {:induction false} PlaceValue(d: string, i: nat)
    requires AllDigits(d) && i <= |d|
    ensures DigitsValue(d) == DigitsValue(d[..i]) * Pow10(|d| - i) + DigitsValue(d[i..])
    ensures i == 1 ==> DigitsValue(d[..i]) == d[0] as int - 48
    decreases |d|
  {
    if i < |d| {
      var n := |d| - 1;
      assert d[..n][..i] == d[..i] && d[i..][..n - i] == d[..n][i..];
      PlaceValue(d[..n], i);
      Regroup(DigitsValue(d[..i]), DigitsValue(d[..n][i..]), Pow10(n - i), d[n] as int - 48);
    } else {
      assert d[..i] == d;
    }
    if i == 1 {
      assert d[..1][..0] == "" && d[..1][0] == d[0];
    }
  }

  lemma {:induction false} DigitsRoundTrip(n: nat)
    ensures DigitsValue(Digits(n)) == n
  {
    var s := Digits(n);
    if n >= 10 {
      DigitsRoundTrip(n / 10);
      assert s[..|s| - 1] == Digits(n / 10);
    } else {
      assert s[..0] == "";
    }
  }

  lemma {:induction false} DigitRunOf(d: string, r: string)
    requires AllDigits(d) && (r == "" || !IsDigit(r[0]))
    ensures DigitRun(d + r) == |d|
  {
    if d == "" {
      assert d + r == r;
    } else {
      assert (d + r)[1..] == d[1..] + r;
      DigitRunOf(d[1..], r);
    }
  }

  lemma {:induction false} SpaceRunOf(w: string, r: string)
    requires AllSpaces(w) && (r == "" || !IsSpace(r[0]))
    ensures SpaceRun(w + r) == |w|
  {
    if w == "" {
      assert w + r == r;
    } else {
      assert (w + r)[1..] == w[1..] + r;
      SpaceRunOf(w[1..], r);
    }
  }

  /** `%d` on white space, a sign and digits stores exactly the signed value of the digits. */
  lemma {:induction false} ScanIntOf(w: string, g: string, d: string, r: string)
    requires AllSpaces(w) && IsSign(g) && AllDigits(d) && d != "" && (r == "" || !IsDigit(r[0]))
    ensures ScanInt(w + (g + (d + r))) == Value(Signed(g, DigitsValue(d)))
  {
    var u := d + r;
    var t := g + u;
    assert u[0] == d[0];
    assert t[0] == if g == "" then d[0] else g[0];
    SpaceRunOf(w, t);
    assert (w + t)[|w|..] == t;
    assert SignOf(t) == g && t[|g|..] == u;
    DigitRunOf(d, r);
    assert u[..|d|] == d;
  }

  /** `%d` reads back every printed integer, behind white space and before anything but a digit; an explicit plus sign
      changes nothing. */
  lemma {:induction false} ScanDecimal(w: string, n: int, r: string)
    requires AllSpaces(w) && (r == "" || !IsDigit(r[0]))
    ensures ScanInt(w + (Decimal(n) + r)) == Value(n)
    ensures n >= 0 ==> ScanInt(w + ("+" + (Decimal(n) + r))) == Value(n)
  {
    var m: nat := if n < 0 then -n else n;
    var d := Digits(m);
    DigitsRoundTrip(m);
    assert Decimal(n) + r == (if n < 0 then "-" else "") + (d + r);
    ScanIntOf(w, if n < 0 then "-" else "", d, r);
    ScanIntOf(w, "+", d, r);
  }

  /** Round trip: scanning a printed tag line stores the printed status, for every integer. */
  lemma {:induction false} TagRoundTrip(n: int)
    ensures ScanTag(TagLine(n)) == Value(n)
  {
    ScanDecimal("", n, [LF]);
    assert TagLine(n)[|EOC_TAG|..] == "" + (Decimal(n) + [LF]);
  }

  // ---- what the handler signals and stores ----

  /** White space `w`, sign `g`, a maximal non-empty run of digits `d`, then `r`. */
  predicate IntShape(t: string, w: string, g: string, d: string, r: string) {
    && t == w + (g + (d + r))
    && AllSpaces(w) && IsSign(g) && AllDigits(d) && d != ""
    && (r == "" || !IsDigit(r[0]))
  }

  /** The text starts with optional white space, an optional sign and digits denoting `n`. */
  ghost predicate StartsWithInt(t: string, n: int) {
    exists w, g, d, r :: IntShape(t, w, g, d, r) && n == Signed(g, DigitsValue(d))
  }

  /** The line starts with the tag, and an integer denoting `n` follows. */
  ghost predicate CarriesCode(line: string, n: int) {
    EOC_TAG <= CStr(line) && StartsWithInt(CStr(line)[|EOC_TAG|..], n)
  }

  /** The line holds the tag, and not at its start with nothing but white space behind it. */
  predicate CallsForSignal(line: string) {
    var s := CStr(line);
    Contains(s, EOC_TAG) && !(EOC_TAG <= s && AllSpaces(s[|EOC_TAG|..]))
  }

  lemma {:induction false} ScanIntEof(t: string)
    ensures ScanInt(t) == Eof <==> AllSpaces(t)
  {
    var k := SpaceRun(t);
    if k < |t| {
      assert t[k..] != "" && !IsSpace(t[k]);
    } else {
      assert t[..k] == t && t[k..] == "";
    }
  }

  lemma Parts(t: string, k: nat, j: nat, m: nat)
    requires k + j + m <= |t|
    ensures t == t[..k] + (t[k..][..j] + (t[k..][j..][..m] + t[k..][j..][m..]))
  {
    TakeDrop(t, k);
    TakeDrop(t[k..], j);
    TakeDrop(t[k..][j..], m);
  }

  lemma ShapeOfParts(t: string, k: nat, g: string, m: nat, n: int)
    requires k <= |t| && AllSpaces(t[..k]) && IsSign(g) && g <= t[k..]
    requires m == DigitRun(t[k..][|g|..]) && m > 0
    requires n == Signed(g, DigitsValue(t[k..][|g|..][..m]))
    ensures StartsWithInt(t, n)
  {
    assert t[k..][..|g|] == g;
    Parts(t, k, |g|, m);
    assert IntShape(t, t[..k], g, t[k..][|g|..][..m], t[k..][|g|..][m..]);
  }

  lemma {:induction false} ScanIntShape(t: string)
    requires ScanInt(t).Value?
    ensures StartsWithInt(t, ScanInt(t).n)
  {
    var k := SpaceRun(t);
    var g := SignOf(t[k..]);
    ShapeOfParts(t, k, g, DigitRun(t[k..][|g|..]), ScanInt(t).n);
  }

  /** `%d` stores `n` exactly when the text starts with an integer denoting `n`. */
  lemma {:induction false} ScanIntIff(t: string, n: int)
    ensures ScanInt(t) == Value(n) <==> StartsWithInt(t, n)
  {
    if StartsWithInt(t, n) {
      var w, g, d, r :| IntShape(t, w, g, d, r) && n == Signed(g, DigitsValue(d));
      ScanIntOf(w, g, d, r);
    }
    if ScanInt(t) == Value(n) {
      ScanIntShape(t);
    }
  }

  /** The handler signals for a line if and only if the tag occurs in it and is not at the start with nothing but
      white space behind it. */
  lemma {:induction false} SignalsIff(line: string)
    ensures Classify(line).TagMark? && Classify(line).signals <==> CallsForSignal(line)
  {
    var s := CStr(line);
    if EOC_TAG <= s {
      ScanIntEof(s[|EOC_TAG|..]);
    } else if Contains(s, EOC_TAG) {
      assert |EOC_TAG| <= |s|;
    }
  }

  /** The handler stores `n` for a line if and only if the tag is at its start and an integer `n` follows. */
  lemma {:induction false} StoresIff(line: string, n: int)
    ensures Classify(line).TagMark? && Classify(line).stores && Classify(line).code == n <==> CarriesCode(line, n)
  {
    hide StartsWithInt;
    var s := CStr(line);
    if EOC_TAG <= s {
      assert OccursAt(s, EOC_TAG, 0);
      ScanIntIff(s[|EOC_TAG|..], n);
    }
  }

  /** The tag overlaps itself nowhere, so text that ends in the tag and starts with it holds it twice. */
  lemma {:induction false} GluedTagNotAtStart(x: string, rest: string)
    requires x != "" && !Contains(x, EOC_TAG)
    ensures !(EOC_TAG <= x + EOC_TAG + rest)
  {
    var s := x + EOC_TAG + rest;
    if |x| < |EOC_TAG| {
      assert s[|x|] == EOC_TAG[0];
    } else {
      assert s[..|EOC_TAG|] == x[0..|EOC_TAG|];
      assert !OccursAt(x, EOC_TAG, 0);
    }
  }

  /** A tag glued behind unterminated output signals the waiter but leaves the stored code alone. */
  lemma {:induction false} GluedTagStoresNothing(x: string, rest: string)
    requires x != "" && Clean(x, EOC_TAG) && NulFree(rest)
    ensures Classify(x + EOC_TAG + rest) == TagMark(true, false, 0)
  {
    var s := x + EOC_TAG + rest;
    CStrOfNulFree(s);
    assert OccursAt(EOC_TAG, EOC_TAG, 0);
    ContainsInfix(x, EOC_TAG, rest, EOC_TAG);
    GluedTagNotAtStart(x, rest);
  }

  // ---- the lines the shell produces ----

  lemma {:induction false} TagLineShape(n: int)
    ensures IsLine(TagLine(n)) && NulFree(TagLine(n)) && Contains(TagLine(n), EOC_TAG)
  {
    var t := Decimal(n);
    assert forall i | 0 <= i < |t| :: IsDigit(t[i]) || t[i] == '-';
    assert OccursAt(TagLine(n), EOC_TAG, 0);
  }

  /** A printed tag line signals and stores the printed status. */
  lemma {:induction false} ClassifyTagLine(n: int)
    ensures Classify(TagLine(n)) == TagMark(true, true, n)
  {
    TagLineShape(n);
    CStrOfNulFree(TagLine(n));
    TagRoundTrip(n);
  }

  /** The line a printed tag ends signals in any case, and stores the status unless unterminated output precedes
      the tag. */
  lemma {:induction false} ClassifyTagEnd(x: string, n: int)
    requires Clean(x, EOC_TAG)
    ensures Classify(x + TagLine(n)) == if x == "" then TagMark(true, true, n) else TagMark(true, false, 0)
  {
    if x == "" {
      assert x + TagLine(n) == TagLine(n);
      ClassifyTagLine(n);
    } else {
      TagLineShape(n);
      assert TagLine(n) == EOC_TAG + (Decimal(n) + [LF]);
      assert x + TagLine(n) == x + EOC_TAG + (Decimal(n) + [LF]);
      assert forall i | 0 <= i < |Decimal(n) + [LF]| :: (Decimal(n) + [LF])[i] == TagLine(n)[|EOC_TAG| + i];
      GluedTagStoresNothing(x, Decimal(n) + [LF]);
    }
  }

  /** A clean line is output. */
  lemma {:induction false} ClassifyClean(line: string)
    requires Clean(line, EOC_TAG)
    ensures Classify(line) == Output
  {
    CStrOfNulFree(line);
  }
}
