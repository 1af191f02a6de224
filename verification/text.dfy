/** Byte streams, LF-terminated lines and C strings. A byte is a `char`. */
module Text {
  datatype Option<+T> = None | Some(value: T)

  const LF: char := '\n'
  const NUL: char := '\0'

  /** True when no LF occurs in `s`. */
  predicate LfFree(s: string) {
    forall i | 0 <= i < |s| :: s[i] != LF
  }

  /** A complete line: one LF, at its end. */
  predicate IsLine(s: string) {
    |s| > 0 && s[|s| - 1] == LF && forall i | 0 <= i < |s| - 1 :: s[i] != LF
  }

  predicate AllLines(lines: seq<string>) {
    forall k | 0 <= k < |lines| :: IsLine(lines[k])
  }

  /** Position of the first LF, or the length when there is none. */
  function FirstLf(s: string): (i: nat)
    ensures i <= |s|
    ensures forall k | 0 <= k < i :: s[k] != LF
    ensures i < |s| ==> s[i] == LF
  {
    if s == [] then 0
    else if s[0] == LF then 0
    else
      var k := FirstLf(s[1..]);
      assert forall j | 0 < j < 1 + k :: s[j] == s[1..][j - 1];
      1 + k
  }

  /** The complete lines of a byte stream, each with its LF. */
  function Lines(s: string): seq<string>
    decreases |s|
  {
    var i := FirstLf(s);
    if i == |s| then []
    else
      [s[..i + 1]] + Lines(s[i + 1..])
  }

  /** What follows the last LF of a byte stream. */
  function Fragment(s: string): (t: string)
    ensures LfFree(t) && |t| <= |s|
    decreases |s|
  {
    var i := FirstLf(s);
    if i == |s| then s
    else Fragment(s[i + 1..])
  }

  /** Concatenation of a list of byte strings. */
  function Flatten(parts: seq<string>): string {
    if parts == [] then "" else parts[0] + Flatten(parts[1..])
  }

  /** The bytes a C function sees: everything before the first NUL. */
  function CStr(s: string): (t: string)
    ensures t <= s
    ensures forall i | 0 <= i < |t| :: t[i] != NUL
    ensures |t| < |s| ==> s[|t|] == NUL
  {
    if s == [] || s[0] == NUL then "" else [s[0]] + CStr(s[1..])
  }

  predicate NulFree(s: string) {
    forall i | 0 <= i < |s| :: s[i] != NUL
  }

  /** `pat` occurs in `s` at position `i`. */
  predicate OccursAt(s: string, pat: string, i: nat) {
    i + |pat| <= |s| && s[i..i + |pat|] == pat
  }

  /** `strstr`: does `pat` occur in `s`? */
  predicate Contains(s: string, pat: string) {
    exists i | 0 <= i <= |s| :: OccursAt(s, pat, i)
  }

  lemma CStrOfNulFree(s: string)
    requires NulFree(s)
    ensures CStr(s) == s
  {
  }

  lemma {:induction false} FirstLfOfLine(l: string, t: string)
    requires IsLine(l)
    ensures FirstLf(l + t) == |l| - 1
  {
    var n := |l| - 1;
    var i := FirstLf(l + t);
    assert (l + t)[n] == LF;
    assert i <= n;
    assert (l + t)[i] == l[i];
  }

  lemma {:induction false} FirstLfSnoc(s: string, b: char)
    ensures FirstLf(s + [b]) ==
            if FirstLf(s) < |s| || b == LF then FirstLf(s) else |s| + 1
  {
    var i, j := FirstLf(s), FirstLf(s + [b]);
    assert (s + [b])[|s|] == b;
    assert j < |s| ==> (s + [b])[j] == s[j];
    assert i < |s| ==> (s + [b])[i] == s[i];
  }

  /** A leading complete line is the first line. */
  lemma {:induction false} LinesCons(l: string, t: string)
    requires IsLine(l)
    ensures Lines(l + t) == [l] + Lines(t)
    ensures Fragment(l + t) == Fragment(t)
  {
    FirstLfOfLine(l, t);
    assert (l + t)[..|l|] == l;
    assert (l + t)[|l|..] == t;
  }

  lemma {:induction false} LinesOfFragment(s: string)
    requires LfFree(s)
    ensures Lines(s) == [] && Fragment(s) == s
  {
    assert FirstLf(s) == |s|;
  }

  lemma {:induction false} LinesAreLines(s: string)
    ensures AllLines(Lines(s))
    decreases |s|
  {
    var i := FirstLf(s);
    if i < |s| {
      LinesAreLines(s[i + 1..]);
    }
  }

  lemma Assoc(a: string, b: string, c: string)
    ensures a + b + c == a + (b + c)
  {
  }

  lemma TakeDrop<T>(s: seq<T>, i: nat)
    requires i <= |s|
    ensures s[..i] + s[i..] == s
  {
  }

  lemma SnocInjective<T>(a: seq<T>, b: seq<T>, x: T)
    requires a + [x] == b + [x]
    ensures a == b
  {
    assert a == (a + [x])[..|a|];
    assert b == (b + [x])[..|b|];
  }

  lemma HeadTailConcat<T>(s: seq<T>, r: seq<T>)
    requires s != []
    ensures [s[0]] + (s[1..] + r) == s + r
  {
  }

  lemma {:induction false} FlattenCons(l: string, ls: seq<string>)
    ensures Flatten([l] + ls) == l + Flatten(ls)
  {
    assert ([l] + ls)[1..] == ls;
  }

  /** Splitting loses no byte. */
  lemma {:induction false} SplitRebuilds(s: string)
    ensures Flatten(Lines(s)) + Fragment(s) == s
    decreases |s|
  {
    var i := FirstLf(s);
    if i < |s| {
      var l, t := s[..i + 1], s[i + 1..];
      SplitRebuilds(t);
      TakeDrop(s, i + 1);
      FlattenCons(l, Lines(t));
      Assoc(l, Flatten(Lines(t)), Fragment(t));
    }
  }

  /** Splitting is unique: any list of lines followed by a fragment is what `Lines` and `Fragment` return. */
  lemma {:induction false} SplitUnique(lines: seq<string>, t: string)
    requires AllLines(lines)
    ensures Lines(Flatten(lines) + t) == lines + Lines(t)
    ensures Fragment(Flatten(lines) + t) == Fragment(t)
  {
    if lines == [] {
      assert Flatten(lines) + t == t;
    } else {
      var l, ls := lines[0], lines[1..];
      var u := Flatten(ls) + t;
      assert Flatten(lines) + t == l + u by {
        Assoc(l, Flatten(ls), t);
      }
      SplitUnique(ls, t);
      LinesCons(l, u);
      HeadTailConcat(lines, Lines(t));
    }
  }

  /** The lines of a concatenation whose first part has no pending fragment. */
  lemma {:induction false} LinesConcat(a: string, b: string)
    requires Fragment(a) == ""
    ensures Lines(a + b) == Lines(a) + Lines(b)
    ensures Fragment(a + b) == Fragment(b)
  {
    SplitRebuilds(a);
    LinesAreLines(a);
    assert a == Flatten(Lines(a));
    SplitUnique(Lines(a), b);
  }

  /** One more byte either completes the pending fragment or extends it. */
  lemma {:induction false} LinesSnoc(s: string, b: char)
    ensures b == LF ==> Lines(s + [b]) == Lines(s) + [Fragment(s) + [b]] && Fragment(s + [b]) == ""
    ensures b != LF ==> Lines(s + [b]) == Lines(s) && Fragment(s + [b]) == Fragment(s) + [b]
  {
    hide Lines, Flatten, FirstLf;
    var lines, f := Lines(s), Fragment(s);
    SplitRebuilds(s);
    LinesAreLines(s);
    Assoc(Flatten(lines), f, [b]);
    SplitUnique(lines, f + [b]);
    hide Fragment;
    if b == LF {
      LinesCons(f + [b], "");
      LinesOfFragment("");
      assert f + [b] + "" == f + [b];
    } else {
      LinesOfFragment(f + [b]);
    }
  }

  /** The lines of a prefix are a prefix of the lines. */
  lemma {:induction false} LinesPrefix(a: string, b: string)
    requires a <= b
    ensures Lines(a) <= Lines(b)
    decreases |b| - |a|
  {
    if |a| < |b| {
      var c := a + [b[|a|]];
      LinesSnoc(a, b[|a|]);
      LinesPrefix(c, b);
    } else {
      assert a == b;
    }
  }

  lemma {:induction false} FlattenConcat(a: seq<string>, b: seq<string>)
    ensures Flatten(a + b) == Flatten(a) + Flatten(b)
  {
    if a == [] {
      assert a + b == b;
    } else {
      assert (a + b)[1..] == a[1..] + b;
      FlattenConcat(a[1..], b);
    }
  }

  lemma {:induction false} FlattenSnoc(a: seq<string>, x: string)
    ensures Flatten(a + [x]) == Flatten(a) + x
  {
    FlattenConcat(a, [x]);
    assert Flatten([x]) == x;
  }

  /** A pattern found in a part is found in the whole. */
  lemma {:induction false} ContainsInfix(a: string, m: string, b: string, pat: string)
    requires Contains(m, pat)
    ensures Contains(a + m + b, pat)
  {
    var i :| 0 <= i <= |m| && OccursAt(m, pat, i);
    var j := |a| + i;
    assert (a + m + b)[j..j + |pat|] == m[i..i + |pat|];
    assert OccursAt(a + m + b, pat, j);
  }

  /** Neither `pat` nor NUL occurs. */
  predicate Clean(s: string, pat: string) {
    !Contains(s, pat) && NulFree(s)
  }

  lemma {:induction false} CleanParts(s: string, i: nat, pat: string)
    requires i <= |s| && Clean(s, pat)
    ensures Clean(s[..i], pat) && Clean(s[i..], pat)
  {
    assert s == "" + s[..i] + s[i..] && s == s[..i] + s[i..] + "";
    if Contains(s[..i], pat) { ContainsInfix("", s[..i], s[i..], pat); }
    if Contains(s[i..], pat) { ContainsInfix(s[..i], s[i..], "", pat); }
  }

  /** Every line of a clean stream is clean, and so is its fragment. */
  lemma {:induction false} LinesClean(s: string, pat: string)
    requires Clean(s, pat)
    ensures forall k | 0 <= k < |Lines(s)| :: Clean(Lines(s)[k], pat)
    ensures Clean(Fragment(s), pat)
    decreases |s|
  {
    hide Clean;
    var i := FirstLf(s);
    if i < |s| {
      CleanParts(s, i + 1, pat);
      LinesClean(s[i + 1..], pat);
    }
  }

  /** The C string of a line held in a buffer stops at the NUL stored behind the line. */
  lemma {:induction false} CStrInBuffer(line: string, rest: string)
    ensures CStr(line + [NUL] + rest) == CStr(line)
  {
    if line == "" {
      assert (line + [NUL] + rest)[0] == NUL;
    } else {
      assert (line + [NUL] + rest)[1..] == line[1..] + [NUL] + rest;
      CStrInBuffer(line[1..], rest);
    }
  }
}
