/** What the session handler makes of the bytes it reads, as pure functions of the byte stream. */
module Arrivals {
  import opened Tag
  import opened Text

  /** What became of one line: written to the log, dropped from the log because echo was off, or a tag line. */
  datatype Arrival = Logged(line: string) | Silenced(line: string) | Tagged(line: string)

  /** A byte read from the socket, with the value of `tty_echo` when it was handled. */
  datatype ReadByte = ReadByte(b: char, echo: bool)

  function Arrive(line: string, echo: bool): Arrival {
    if Classify(line).TagMark? then Tagged(line)
    else if echo then Logged(line)
    else Silenced(line)
  }

  function Bytes(input: seq<ReadByte>): (s: string)
    ensures |s| == |input|
    ensures forall i | 0 <= i < |s| :: s[i] == input[i].b
  {
    seq(|input|, i requires 0 <= i < |input| => input[i].b)
  }

  /** The echo flag in force when each complete line ended. */
  function Echoes(input: seq<ReadByte>): seq<bool>
    decreases |input|
  {
    var i := FirstLf(Bytes(input));
    if i == |input| then [] else [input[i].echo] + Echoes(input[i + 1..])
  }

  /** The fate of each line, line by line. */
  function ArriveAll(lines: seq<string>, echoes: seq<bool>): seq<Arrival>
    requires |lines| == |echoes|
  {
    seq(|lines|, i requires 0 <= i < |lines| => Arrive(lines[i], echoes[i]))
  }

  /** Reference meaning of a stream: split at LF, then classify each line. */
  function Meaning(input: seq<ReadByte>): seq<Arrival> {
    EchoPerLine(input);
    ArriveAll(Lines(Bytes(input)), Echoes(input))
  }

  /** The raw lines, in arrival order. */
  function RawLines(arrivals: seq<Arrival>): (lines: seq<string>)
    ensures |lines| == |arrivals|
    ensures forall i | 0 <= i < |lines| :: lines[i] == arrivals[i].line
  {
    seq(|arrivals|, i requires 0 <= i < |arrivals| => arrivals[i].line)
  }

  /** The text appended to the log. */
  function LogText(arrivals: seq<Arrival>): string {
    if arrivals == [] then ""
    else
      LogText(arrivals[..|arrivals| - 1]) + LogPiece(arrivals[|arrivals| - 1])
  }

  function LogPiece(a: Arrival): string {
    if a.Logged? then CStr(a.line) else ""
  }

  /** The exit codes stored by raw lines, in order. */
  function Codes(lines: seq<string>): seq<int> {
    if lines == [] then [] else Codes(lines[..|lines| - 1]) + StoredBy(lines[|lines| - 1])
  }

  function StoredBy(line: string): seq<int> {
    var k := Classify(line);
    if k.TagMark? && k.stores then [k.code] else []
  }

  /** The number of signals raw lines cause. */
  function Signals(lines: seq<string>): nat {
    if lines == [] then 0 else Signals(lines[..|lines| - 1]) + SignalsOf(lines[|lines| - 1])
  }

  function SignalsOf(line: string): nat {
    var k := Classify(line);
    if k.TagMark? && k.signals then 1 else 0
  }

  /** The last output line, logged or not. */
  function LastOutput(arrivals: seq<Arrival>): Option<string> {
    if arrivals == [] then None
    else
      var a := arrivals[|arrivals| - 1];
      if a.Tagged? then LastOutput(arrivals[..|arrivals| - 1]) else Some(CStr(a.line))
  }

  /** All visible effects of a stream. */
  datatype Effects = Effects(log: string, signals: nat, codes: seq<int>, last: Option<string>)

  /** The effects of arrivals, taken together. */
  function EffectsOf(m: seq<Arrival>): Effects {
    Effects(LogText(m), Signals(RawLines(m)), Codes(RawLines(m)), LastOutput(m))
  }

  /** The effects of one more arrival. */
  function AddArrival(e: Effects, a: Arrival): Effects {
    Effects(e.log + LogPiece(a), e.signals + SignalsOf(a.line), e.codes + StoredBy(a.line),
            if a.Tagged? then e.last else Some(CStr(a.line)))
  }

  /** The exit code field: the last stored code, or what it held before. */
  function CodeField(initial: int, codes: seq<int>): int {
    if codes == [] then initial else codes[|codes| - 1]
  }

  /** One more arrival adds its code, and the field takes it. */
  lemma CodesAdd(initial: int, e: Effects, line: string, echo: bool)
    ensures AddArrival(e, Arrive(line, echo)).codes == e.codes + StoredBy(line)
    ensures CodeField(CodeField(initial, e.codes), StoredBy(line)) == CodeField(initial, e.codes + StoredBy(line))
  {
    hide StoredBy, Classify;
  }

  function Max(a: nat, b: nat): (m: nat)
    ensures a <= m && b <= m && (m == a || m == b)
  {
    if a < b then b else a
  }

  function MaxLength(lines: seq<string>): nat {
    if lines == [] then 0 else Max(MaxLength(lines[..|lines| - 1]), |lines[|lines| - 1]|)
  }

  /** Length of the longest line of a stream, the unterminated one included. */
  function Longest(s: string): nat {
    Max(MaxLength(Lines(s)), |Fragment(s)|)
  }

  // ---- the effect of a line, told by the line ----

  /** What one line changes: text without the tag is logged if echo is on, and becomes the last line; a line that calls
      for a signal causes one; a line that carries a code stores it; nothing else changes. */
  ghost predicate LineEffect(line: string, echo: bool, e: Effects, e': Effects, code: int, code': int) {
    var s, tagged := CStr(line), Contains(CStr(line), EOC_TAG);
    && e'.log == (if !tagged && echo then e.log + s else e.log)
    && e'.last == (if !tagged then Some(s) else e.last)
    && e'.signals == e.signals + (if CallsForSignal(line) then 1 else 0)
    && (forall n | CarriesCode(line, n) :: code' == n && e'.codes == e.codes + [n])
    && (!Carries(line) ==> code' == code && e'.codes == e.codes)
  }

  ghost predicate Carries(line: string) {
    exists n :: CarriesCode(line, n)
  }

  /** No line from the k-th on carries a code. */
  ghost predicate NoCodeFrom(lines: seq<string>, k: nat) {
    forall j | k <= j < |lines| :: !Carries(lines[j])
  }

  /** The field holds the code of the last line that carries one, or what it held before. */
  ghost predicate HoldsLastCode(lines: seq<string>, initial: int, code: int) {
    && (forall k, n | 0 <= k < |lines| && CarriesCode(lines[k], n) && NoCodeFrom(lines, k + 1) :: code == n)
    && (NoCodeFrom(lines, 0) ==> code == initial)
  }

  lemma StoredByIff(line: string)
    ensures forall n :: CarriesCode(line, n) <==> StoredBy(line) == [n]
    ensures !Carries(line) <==> StoredBy(line) == []
  {
    forall n ensures CarriesCode(line, n) <==> StoredBy(line) == [n] {
      StoresIff(line, n);
    }
    hide Classify, CarriesCode;
    if StoredBy(line) != [] {
      assert StoredBy(line) == [Classify(line).code];
      assert CarriesCode(line, Classify(line).code);
    }
  }

  lemma TaggedIff(line: string)
    ensures Classify(line).TagMark? <==> Contains(CStr(line), EOC_TAG)
  {
    hide Contains, CStr, ScanTag;
  }

  /** One more arrival has the effect of its line. */
  lemma {:induction false} ArrivalIsEffect(line: string, echo: bool, e: Effects, code: int)
    ensures LineEffect(line, echo, e, AddArrival(e, Arrive(line, echo)), code, CodeField(code, StoredBy(line)))
  {
    TaggedIff(line);
    SignalsIff(line);
    StoredByIff(line);
    hide Classify, CStr, Contains, CarriesCode, CallsForSignal, StoredBy, Carries;
    var a := Arrive(line, echo);
    assert a.line == line && (a.Tagged? <==> Classify(line).TagMark?) && (a.Logged? ==> echo);
    assert e.log + "" == e.log && e.codes + [] == e.codes;
  }

  /** The exit code field after raw lines. */
  lemma {:induction false} FieldHoldsLast(lines: seq<string>, initial: int)
    ensures HoldsLastCode(lines, initial, CodeField(initial, Codes(lines)))
  {
    hide StoredBy, CarriesCode, Carries;
    if lines != [] {
      var init, l := lines[..|lines| - 1], lines[|lines| - 1];
      FieldHoldsLast(init, initial);
      StoredByIff(l);
      forall k, n | 0 <= k < |lines| && CarriesCode(lines[k], n) && NoCodeFrom(lines, k + 1)
        ensures CodeField(initial, Codes(lines)) == n
      {
        if k < |init| {
          assert !Carries(lines[|init|]);
          assert init[k] == lines[k] && NoCodeFrom(init, k + 1);
        }
      }
      if NoCodeFrom(lines, 0) {
        assert !Carries(lines[|init|]) && NoCodeFrom(init, 0);
      }
    }
  }

  // ---- facts ----

  lemma {:induction false} BytesSlice(input: seq<ReadByte>, i: nat)
    requires i <= |input|
    ensures Bytes(input[i..]) == Bytes(input)[i..]
  {
  }

  lemma {:induction false} EchoesCons(input: seq<ReadByte>, i: nat)
    requires i == FirstLf(Bytes(input))
    ensures Echoes(input) == if i == |input| then [] else [input[i].echo] + Echoes(input[i + 1..])
  {
    hide FirstLf, Bytes;
  }

  lemma {:induction false} LinesUnfold(s: string, i: nat)
    requires i == FirstLf(s)
    ensures Lines(s) == if i == |s| then [] else [s[..i + 1]] + Lines(s[i + 1..])
  {
    hide FirstLf;
    if i < |s| {
      assert Lines(s) == [s[..i + 1]] + Lines(s[i + 1..]);
    }
  }

  lemma {:induction false} EchoPerLine(input: seq<ReadByte>)
    ensures |Echoes(input)| == |Lines(Bytes(input))|
    decreases |input|
  {
    hide *;
    var i := FirstLf(Bytes(input));
    LinesUnfold(Bytes(input), i);
    EchoesCons(input, i);
    if i < |input| {
      BytesSlice(input, i + 1);
      EchoPerLine(input[i + 1..]);
    }
  }

  lemma {:induction false} BytesSnoc(input: seq<ReadByte>, r: ReadByte)
    ensures Bytes(input + [r]) == Bytes(input) + [r.b]
  {
  }

  lemma {:induction false} EchoesSnoc(input: seq<ReadByte>, r: ReadByte)
    ensures Echoes(input + [r]) == Echoes(input) + if r.b == LF then [r.echo] else []
    decreases |input|
  {
    hide *;
    var s, i, j := Bytes(input), FirstLf(Bytes(input)), FirstLf(Bytes(input + [r]));
    BytesSnoc(input, r);
    FirstLfSnoc(s, r.b);
    EchoesCons(input, i);
    EchoesCons(input + [r], j);
    if i < |input| {
      assert (input + [r])[i + 1..] == input[i + 1..] + [r];
      EchoesSnoc(input[i + 1..], r);
    } else if r.b == LF {
      assert (input + [r])[|input| + 1..] == [];
      EchoesCons([], FirstLf(Bytes([])));
    }
  }

  /** One more byte: an LF turns the pending fragment into one more arrival, any other byte changes nothing. */
  lemma {:induction false} MeaningSnoc(input: seq<ReadByte>, r: ReadByte)
    ensures r.b == LF ==>
              Meaning(input + [r]) == Meaning(input) + [Arrive(Fragment(Bytes(input)) + [LF], r.echo)]
    ensures r.b != LF ==> Meaning(input + [r]) == Meaning(input)
  {
    hide Lines, Fragment, Bytes, Echoes, Arrive;
    BytesSnoc(input, r);
    EchoesSnoc(input, r);
    LinesSnoc(Bytes(input), r.b);
    EchoPerLine(input);
    EchoPerLine(input + [r]);
  }

  lemma {:induction false} LongestSnoc(s: string, b: char)
    ensures Longest(s + [b]) == Max(Longest(s), |Fragment(s)| + 1)
  {
    LinesSnoc(s, b);
    var lines := Lines(s);
    if b == LF {
      assert (lines + [Fragment(s) + [b]])[..|lines|] == lines;
    }
  }

  /** The longest line is one of the lines, or the fragment, and none is longer. */
  lemma {:induction false} LongestIsMax(s: string)
    ensures |Fragment(s)| <= Longest(s) && forall k | 0 <= k < |Lines(s)| :: |Lines(s)[k]| <= Longest(s)
    ensures Longest(s) == |Fragment(s)| || exists k | 0 <= k < |Lines(s)| :: |Lines(s)[k]| == Longest(s)
  {
    hide Lines, Fragment;
    MaxLengthIsMax(Lines(s));
  }

  lemma {:induction false} MaxLengthIsMax(lines: seq<string>)
    ensures forall k | 0 <= k < |lines| :: |lines[k]| <= MaxLength(lines)
    ensures lines != [] ==> exists k | 0 <= k < |lines| :: |lines[k]| == MaxLength(lines)
    ensures lines == [] ==> MaxLength(lines) == 0
  {
    if lines != [] {
      var n := |lines| - 1;
      MaxLengthIsMax(lines[..n]);
      if MaxLength(lines) == |lines[n]| {
        assert |lines[n]| == MaxLength(lines);
      } else {
        var k :| 0 <= k < n && |lines[..n][k]| == MaxLength(lines[..n]);
        assert |lines[k]| == MaxLength(lines);
      }
    }
  }

  lemma FieldOfMeaning(input: seq<ReadByte>)
    ensures EffectsOf(Meaning(input)).codes == Codes(Lines(Bytes(input)))
  {
    hide Codes, Lines, Meaning, RawLines;
    RawMeaning(input);
  }

  /** The raw lines of the meaning are the lines of the stream. */
  lemma RawMeaning(input: seq<ReadByte>)
    ensures RawLines(Meaning(input)) == Lines(Bytes(input))
  {
    hide Lines, Bytes, Echoes, Classify;
    EchoPerLine(input);
  }

  /** Conservation: logged, silenced and tag lines in arrival order, then the pending fragment, are the bytes read. */
  lemma {:induction false} Conservation(input: seq<ReadByte>)
    ensures Flatten(RawLines(Meaning(input))) + Fragment(Bytes(input)) == Bytes(input)
  {
    RawMeaning(input);
    SplitRebuilds(Bytes(input));
  }

  /** Effects add up arrival by arrival. */
  lemma {:induction false} ArrivalSnoc(m: seq<Arrival>, a: Arrival)
    ensures EffectsOf(m + [a]) == AddArrival(EffectsOf(m), a)
  {
    assert (m + [a])[..|m|] == m;
    assert RawLines(m + [a]) == RawLines(m) + [a.line];
    LinesEffectSnoc(RawLines(m), a.line);
  }

  lemma {:induction false} LinesEffectSnoc(lines: seq<string>, l: string)
    ensures Codes(lines + [l]) == Codes(lines) + StoredBy(l)
    ensures Signals(lines + [l]) == Signals(lines) + SignalsOf(l)
  {
    assert (lines + [l])[..|lines|] == lines;
  }

  /** One more byte: an LF adds the effects of the line it ends, any other byte has none. */
  lemma {:induction false} EffectsSnoc(input: seq<ReadByte>, r: ReadByte)
    ensures r.b == LF ==>
              EffectsOf(Meaning(input + [r]))
              == AddArrival(EffectsOf(Meaning(input)), Arrive(Fragment(Bytes(input)) + [LF], r.echo))
    ensures r.b != LF ==> EffectsOf(Meaning(input + [r])) == EffectsOf(Meaning(input))
  {
    MeaningSnoc(input, r);
    ArrivalSnoc(Meaning(input), Arrive(Fragment(Bytes(input)) + [LF], r.echo));
  }

  lemma NoLines()
    ensures Codes([]) == [] && Signals([]) == 0
  {
  }

  lemma {:induction false} LinesEffectConcat(a: seq<string>, b: seq<string>)
    ensures Codes(a + b) == Codes(a) + Codes(b)
    ensures Signals(a + b) == Signals(a) + Signals(b)
  {
    hide *;
    NoLines();
    if b == [] {
      assert a + b == a;
    } else {
      var c, l := b[..|b| - 1], b[|b| - 1];
      LinesEffectConcat(a, c);
      LinesEffectSnoc(a + c, l);
      LinesEffectSnoc(c, l);
      assert a + b == a + c + [l] && b == c + [l];
    }
  }

  lemma {:induction false} LinesEffectPrefix(a: seq<string>, b: seq<string>)
    requires a <= b
    ensures Codes(a) <= Codes(b) && Signals(a) <= Signals(b)
  {
    LinesEffectConcat(a, b[|a|..]);
    assert a + b[|a|..] == b;
  }

  /** Clean lines neither store nor signal. */
  lemma {:induction false} CleanLinesEffect(lines: seq<string>)
    requires forall k | 0 <= k < |lines| :: Clean(lines[k], EOC_TAG)
    ensures Codes(lines) == [] && Signals(lines) == 0
  {
    if lines != [] {
      CleanLinesEffect(lines[..|lines| - 1]);
      ClassifyClean(lines[|lines| - 1]);
    }
  }
}

/** The handler thread's loop: a buffer grown in place, one byte at a time. */
module Handler {
  import opened Arrivals
  import opened Tag
  import opened Text

  const BUF_INITIAL_SIZE: nat := 32

  /** The part of the session the handler thread owns while it reads. */
  class LineHandler {
    const pointerSize: nat
    const initialCode: int
    var handlerBuf: array<char>
    var currLineOffset: nat
    var ttyEcho: bool
    var lastTtyRead: Option<string>
    var shellCmdExitCode: int
    var signalled: nat
    var log: string
    ghost var received: seq<ReadByte>
    ghost var stored: seq<int>

    ghost predicate Valid()
      reads this, handlerBuf
    {
      && InBounds()
      && handlerBuf[..currLineOffset] == Fragment(Bytes(received))
      && Seen() == EffectsOf(Meaning(received))
      && shellCmdExitCode == CodeField(initialCode, stored)
    }

    /** The buffer is never smaller than its first allocation and never more than 31 bytes beyond the longest line. */
    ghost predicate InBounds()
      reads this
    {
      && 2 <= pointerSize <= BUF_INITIAL_SIZE
      && BUF_INITIAL_SIZE <= handlerBuf.Length
      && handlerBuf.Length <= Max(BUF_INITIAL_SIZE, Longest(Bytes(received)) + 31)
      && currLineOffset < handlerBuf.Length
    }

    /** The effects so far. */
    ghost function Seen(): Effects
      reads this
    {
      Effects(log, signalled, stored, lastTtyRead)
    }

    /** A session's handler state after `su_shell_session_new`. */
    constructor (pointerSize: nat, code: int)
      requires 2 <= pointerSize <= BUF_INITIAL_SIZE
      ensures Valid() && fresh(handlerBuf) && handlerBuf.Length == 32
      ensures received == [] && ttyEcho && lastTtyRead == None && log == "" && signalled == 0
      ensures initialCode == shellCmdExitCode == code && this.pointerSize == pointerSize
    {
      this.pointerSize, initialCode := pointerSize, code;
      handlerBuf := new char[BUF_INITIAL_SIZE];
      currLineOffset := 0;
      ttyEcho := true;
      lastTtyRead := None;
      shellCmdExitCode := code;
      signalled, log := 0, "";
      received, stored := [], [];
      new;
      assert Lines(Bytes(received)) == [];
      EchoPerLine(received);
    }

    method SetTtyEcho(echo: int)
      requires Valid()
      modifies this`ttyEcho
      ensures Valid() && ttyEcho == (echo != 0)
    {
      hide Lines, Fragment, Bytes, Meaning, EffectsOf, Longest;
      ttyEcho := if echo != 0 then true else false;
    }

    /** `realloc`: a new block of `size` bytes that keeps what both blocks can hold. */
    method Realloc(buf: array<char>, size: nat) returns (block: array<char>)
      ensures fresh(block) && block.Length == size
      ensures forall k | 0 <= k < size && k < buf.Length :: block[k] == buf[k]
    {
      block := new char[size];
      var k := 0;
      while k < size && k < buf.Length
        invariant 0 <= k <= size && k <= buf.Length
        invariant forall j | 0 <= j < k :: block[j] == buf[j]
      {
        block[k] := buf[k];
        k := k + 1;
      }
    }

    /** Grow the buffer if the test on the pointer size says so, then store the byte. */
    method StoreByte(b: char)
      requires 2 <= pointerSize <= BUF_INITIAL_SIZE <= handlerBuf.Length
      requires currLineOffset < handlerBuf.Length
      modifies this`handlerBuf, this`currLineOffset, handlerBuf
      ensures handlerBuf == old(handlerBuf) || fresh(handlerBuf)
      ensures currLineOffset == old(currLineOffset) + 1 < handlerBuf.Length
      ensures handlerBuf[..currLineOffset] == old(handlerBuf[..currLineOffset]) + [b]
      ensures BUF_INITIAL_SIZE <= handlerBuf.Length
      ensures handlerBuf.Length ==
              if old(currLineOffset) + 2 > pointerSize then old(currLineOffset) + 32 else old(handlerBuf.Length)
    {
      ghost var before := handlerBuf[..currLineOffset];
      if currLineOffset > pointerSize - 1 - 1 {
        handlerBuf := Realloc(handlerBuf, currLineOffset + 32);
      }
      assert handlerBuf[..currLineOffset] == before;
      handlerBuf[currLineOffset] := b;
      currLineOffset := currLineOffset + 1;
    }

    /** Store the NUL that ends the C string. */
    method Terminate(ghost line: string)
      requires currLineOffset < handlerBuf.Length && handlerBuf[..currLineOffset] == line
      modifies handlerBuf
      ensures CStr(handlerBuf[..]) == CStr(line)
    {
      handlerBuf[currLineOffset] := NUL;
      ghost var rest := handlerBuf[currLineOffset + 1..];
      assert handlerBuf[..] == line + [NUL] + rest;
      CStrInBuffer(line, rest);
    }

    /** End of line: terminate the C string, then signal and store, or log and remember. */
    method FinishLine(ghost line: string)
      requires currLineOffset < handlerBuf.Length && handlerBuf[..currLineOffset] == line
      modifies this`currLineOffset, this`log, this`lastTtyRead, this`shellCmdExitCode, this`signalled, this`stored
      modifies handlerBuf
      ensures currLineOffset == 0
      ensures Seen() == AddArrival(old(Seen()), Arrive(line, ttyEcho))
      ensures shellCmdExitCode == CodeField(old(shellCmdExitCode), StoredBy(line))
      ensures LineEffect(line, ttyEcho, old(Seen()), Seen(), old(shellCmdExitCode), shellCmdExitCode)
    {
      hide CStr, Contains, ScanTag, LineEffect;
      ArrivalIsEffect(line, ttyEcho, Seen(), shellCmdExitCode);
      Terminate(line);
      var text := CStr(handlerBuf[..]);
      currLineOffset := 0;
      if Contains(text, EOC_TAG) {
        var scan := ScanTag(text);
        if scan.Value? {
          shellCmdExitCode := scan.n;
          stored := stored + [scan.n];
        }
        if scan != Eof {
          signalled := signalled + 1;
        }
      } else {
        if ttyEcho {
          log := log + text;
        }
        lastTtyRead := Some(text);
      }
    }

    /** One turn of the read loop. */
    method Receive(b: char)
      requires Valid()
      modifies this, handlerBuf
      ensures Valid() && (handlerBuf == old(handlerBuf) || fresh(handlerBuf))
      ensures received == old(received) + [ReadByte(b, ttyEcho)]
      ensures ttyEcho == old(ttyEcho)
      ensures b != LF ==> Seen() == old(Seen()) && shellCmdExitCode == old(shellCmdExitCode)
      ensures b == LF ==>
                LineEffect(old(Fragment(Bytes(received))) + [LF], ttyEcho, old(Seen()), Seen(),
                           old(shellCmdExitCode), shellCmdExitCode)
    {
      hide LineEffect, Lines, Fragment, Bytes, Meaning, EffectsOf, Longest, Arrive, AddArrival, StoredBy, CodeField;
      ghost var s := Bytes(received);
      ghost var r := ReadByte(b, ttyEcho);
      BytesSnoc(received, r);
      LinesSnoc(s, b);
      LongestSnoc(s, b);
      EffectsSnoc(received, r);
      StoreByte(b);
      if b == LF {
        ghost var line := Fragment(s) + [b];
        CodesAdd(initialCode, Seen(), line, ttyEcho);
        FinishLine(line);
      }
      received := received + [r];
    }

    /** The whole loop: every byte of the stream, with the echo flag set from outside before each one. */
    method ReadLoop(input: seq<ReadByte>)
      requires Valid()
      modifies this, handlerBuf
      ensures Valid() && received == old(received) + input
      ensures Seen() == EffectsOf(Meaning(received))
      ensures handlerBuf[..currLineOffset] == Fragment(Bytes(received))
      ensures HoldsLastCode(Lines(Bytes(received)), initialCode, shellCmdExitCode)
      ensures 32 <= handlerBuf.Length <= Max(32, Longest(Bytes(received)) + 31)
    {
      hide HoldsLastCode, Codes, Signals, RawLines, LogText, LastOutput;
      hide Lines, Fragment, Bytes, Meaning, EffectsOf, Longest, CodeField;
      var k := 0;
      while k < |input|
        invariant 0 <= k <= |input|
        invariant Valid() && (handlerBuf == old(handlerBuf) || fresh(handlerBuf))
        invariant received == old(received) + input[..k]
      {
        SetTtyEcho(if input[k].echo then 1 else 0);
        Receive(input[k].b);
        assert input[..k + 1] == input[..k] + [input[k]];
        k := k + 1;
      }
      assert input[..k] == input;
      FieldHoldsLast(Lines(Bytes(received)), initialCode);
      FieldOfMeaning(received);
    }
  }
}
