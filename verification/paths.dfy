/** Socket and log path arithmetic: `%05d` printed into buffers of an exactly computed size. */
module Paths {
  import opened Tag
  import opened Text

  const AF_UNIX_PATH_MAX: nat := 108
  const SESSION_AFUN_FMT_WLEN: nat := 12 + 5
  const SU_SRV_LOG_WLEN: nat := 16 + 5
  const RUN_PREFIX: string := "/var/run/su-"
  const LOG_PREFIX: string := "/var/log/su-"
  const LOG_SUFFIX: string := ".log"

  function Zeros(n: nat): (z: string)
    ensures |z| == n && forall i | 0 <= i < n :: z[i] == '0'
  {
    seq(n, _ => '0')
  }

  function PadTo(width: nat, s: string): string {
    if |s| < width then Zeros(width - |s|) + s else s
  }

  /** `%05d`: at least five characters, zero padded after the sign. */
  function Format05(n: int): string {
    if n < 0 then "-" + PadTo(4, Digits(-n)) else PadTo(5, Digits(n))
  }

  /** What `snprintf` leaves in a buffer of `size` bytes, without the NUL. */
  function Truncated(text: string, size: nat): string
    requires size > 0
  {
    if |text| < size then text else text[..size - 1]
  }

  function SocketText(root: string, pid: int): string {
    root + RUN_PREFIX + Format05(pid)
  }

  function LogText(root: string, pid: int): string {
    root + LOG_PREFIX + Format05(pid) + LOG_SUFFIX
  }

  function SocketBuffer(root: string): nat {
    |root| + SESSION_AFUN_FMT_WLEN + 1
  }

  /** The roots `init_af_un_address` accepts. */
  predicate RootAccepted(root: string) {
    SocketBuffer(root) <= AF_UNIX_PATH_MAX
  }

  function SocketPath(root: string, pid: int): string {
    Truncated(SocketText(root, pid), SocketBuffer(root))
  }

  function LogPath(root: string, pid: int): string {
    Truncated(LogText(root, pid), |root| + SU_SRV_LOG_WLEN + 1)
  }

  // ---- digits ----

  lemma {:induction false} ZerosValue(k: nat, d: string)
    requires AllDigits(d)
    ensures AllDigits(Zeros(k) + d) && DigitsValue(Zeros(k) + d) == DigitsValue(d)
  {
    if d == "" {
      assert Zeros(k) + d == Zeros(k);
      ZerosAreZero(k);
    } else {
      assert (Zeros(k) + d)[..|Zeros(k) + d| - 1] == Zeros(k) + d[..|d| - 1];
      ZerosValue(k, d[..|d| - 1]);
    }
  }

  lemma {:induction false} ZerosAreZero(k: nat)
    ensures AllDigits(Zeros(k)) && DigitsValue(Zeros(k)) == 0
  {
    if k > 0 {
      assert Zeros(k)[..k - 1] == Zeros(k - 1);
      ZerosAreZero(k - 1);
    }
  }

  /** `%05d` of a non-negative number is digits denoting that number. */
  lemma {:induction false} Format05Value(n: nat)
    ensures AllDigits(Format05(n)) && DigitsValue(Format05(n)) == n && |Format05(n)| >= 5
  {
    var d := Digits(n);
    DigitsRoundTrip(n);
    if |d| < 5 {
      ZerosValue(5 - |d|, d);
    }
  }

  /** `n` has at most `k` digits exactly when it is below the k-th power of ten. */
  lemma {:induction false} DigitsLength(n: nat, k: nat)
    requires k > 0
    ensures |Digits(n)| <= k <==> n < Pow10(k)
  {
    if k == 1 {
      assert Pow10(1) == 10 * Pow10(0);
    } else if n >= 10 {
      DigitsLength(n / 10, k - 1);
    } else {
      PowAtLeast(k);
    }
  }

  lemma {:induction false} PowAtLeast(k: nat)
    requires k > 0
    ensures Pow10(k) >= 10
  {
    if k > 1 {
      PowAtLeast(k - 1);
    }
  }

  lemma Powers()
    ensures Pow10(4) == 10_000 && Pow10(5) == 100_000 && Pow10(9) == 1_000_000_000
  {
    assert Pow10(3) == 1_000;
    assert Pow10(6) == 1_000_000;
    assert Pow10(8) == 100_000_000;
  }

  /** `%05d` fills exactly five characters from -9999 to 99999 and more outside. */
  lemma {:induction false} Format05Length(pid: int)
    ensures |Format05(pid)| >= 5
    ensures |Format05(pid)| == 5 <==> -9_999 <= pid <= 99_999
  {
    Powers();
    if pid >= 0 {
      DigitsLength(pid, 5);
    } else {
      DigitsLength(-pid, 4);
    }
  }

  /** Zero padding leaves the number alone and fills the width. */
  lemma {:induction false} PaddedDigits(width: nat, n: nat)
    ensures var d := PadTo(width, Digits(n));
            && AllDigits(d) && DigitsValue(d) == n && d != ""
            && |d| == if |Digits(n)| < width then width else |Digits(n)|
  {
    DigitsRoundTrip(n);
    if |Digits(n)| < width {
      ZerosValue(width - |Digits(n)|, Digits(n));
    }
  }

  /** What `%05d` prints, exactly: digits, with a minus sign in front of a negative number, that read back as the number
      and fill at least five characters, more only if the number needs them. */
  lemma {:induction false} Format05Meaning(pid: int)
    ensures ScanInt(Format05(pid)) == Value(pid)
    ensures |Format05(pid)| == if |Decimal(pid)| < 5 then 5 else |Decimal(pid)|
    ensures forall i | 0 <= i < |Format05(pid)| ::
              IsDigit(Format05(pid)[i]) || (i == 0 && pid < 0 && Format05(pid)[i] == '-')
  {
    var m: nat := if pid < 0 then -pid else pid;
    var width := if pid < 0 then 4 else 5;
    var g, d := if pid < 0 then "-" else "", PadTo(width, Digits(m));
    PaddedDigits(width, m);
    hide Digits, PadTo, ScanInt, DigitsValue;
    assert d + "" == d && "" + (g + (d + "")) == Format05(pid);
    ScanIntOf("", g, d, "");
  }

  // ---- the socket path ----

  /** For every pid, the socket path is the root, the fixed part and the first five characters of `%05d`. */
  lemma {:induction false} SocketPathText(root: string, pid: int)
    ensures |Format05(pid)| >= 5
    ensures SocketPath(root, pid) == root + "/var/run/su-" + Format05(pid)[..5]
    ensures |SocketPath(root, pid)| == |root| + 17
  {
    Format05Length(pid);
    var head, f := root + RUN_PREFIX, Format05(pid);
    hide Format05;
    assert |head| == |root| + 12;
    if |f| == 5 {
      assert f[..5] == f;
    } else {
      assert (head + f)[..|head| + 5] == head + f[..5];
    }
  }

  /** An accepted root leaves room for the path and its NUL in `sun_path`, whatever the pid. */
  lemma {:induction false} SocketPathFits(root: string, pid: int)
    ensures RootAccepted(root) <==> |SocketPath(root, pid)| + 1 <= 108
  {
    SocketPathText(root, pid);
  }

  lemma SocketPathEqual(root: string, p: int, q: int)
    ensures |Format05(p)| >= 5 && |Format05(q)| >= 5
    ensures SocketPath(root, p) == SocketPath(root, q) <==> Format05(p)[..5] == Format05(q)[..5]
  {
    SocketPathText(root, p);
    SocketPathText(root, q);
    hide Format05, SocketPath;
    var head, f, g := root + RUN_PREFIX, Format05(p)[..5], Format05(q)[..5];
    if head + f == head + g {
      assert f == (head + f)[|head|..];
      assert g == (head + g)[|head|..];
    }
  }

  /** The socket path is the full text exactly for pids of at most five characters; among non-negative ones it then
      tells processes apart. */
  lemma {:induction false} SocketPathExact(root: string, p: int, q: int)
    ensures SocketPath(root, p) == root + "/var/run/su-" + Format05(p) <==> -9_999 <= p <= 99_999
    ensures 0 <= p <= 99_999 && 0 <= q <= 99_999 ==> (SocketPath(root, p) == SocketPath(root, q) <==> p == q)
  {
    SocketPathText(root, p);
    Format05Length(p);
    Format05Length(q);
    SocketPathEqual(root, p, q);
    if 0 <= p <= 99_999 && 0 <= q <= 99_999 {
      Format05Value(p);
      Format05Value(q);
      assert Format05(p)[..5] == Format05(p) && Format05(q)[..5] == Format05(q);
    }
    hide Format05, SocketPath, DigitsValue;
    assert |SocketText(root, p)| == |root| + 12 + |Format05(p)|;
    assert |Format05(p)| == 5 ==> Format05(p)[..5] == Format05(p);
  }

  /** From 100000 on, pids that differ only in the last digit share a socket path. */
  lemma {:induction false} SocketPathsCollide(root: string, n: nat, d: nat)
    requires n >= 10_000 && d < 10
    ensures SocketPath(root, 10 * n + d) == SocketPath(root, n)
  {
    Powers();
    DigitsLength(n, 4);
    assert Digits(10 * n + d) == Digits(n) + [DigitOf(d)];
    assert Format05(10 * n + d)[..5] == Format05(n)[..5];
    SocketPathEqual(root, 10 * n + d, n);
  }

  // ---- the log path ----

  /** What distinguishes log paths: the first nine characters of the number and the suffix. */
  function LogTail(pid: int): string
    requires |Format05(pid)| >= 5
  {
    (Format05(pid) + LOG_SUFFIX)[..9]
  }

  lemma {:induction false} LogPathText(root: string, pid: int)
    ensures |Format05(pid)| >= 5
    ensures LogPath(root, pid) == root + "/var/log/su-" + (Format05(pid) + ".log")[..9]
  {
    Format05Length(pid);
    var head, f := root + LOG_PREFIX, Format05(pid) + LOG_SUFFIX;
    hide Format05;
    assert |head| == |root| + 12 && |f| == |Format05(pid)| + 4;
    assert LogText(root, pid) == head + f;
    if |f| == 9 {
      assert f[..9] == f;
    } else {
      assert (head + f)[..|head| + 9] == head + f[..9];
    }
  }

  lemma LogPathEqual(root: string, p: int, q: int)
    ensures |Format05(p)| >= 5 && |Format05(q)| >= 5
    ensures LogPath(root, p) == LogPath(root, q) <==> LogTail(p) == LogTail(q)
  {
    LogPathText(root, p);
    LogPathText(root, q);
    hide Format05, LogPath;
    var head, f, g := root + LOG_PREFIX, LogTail(p), LogTail(q);
    if head + f == head + g {
      assert f == (head + f)[|head|..];
      assert g == (head + g)[|head|..];
    }
  }

  lemma TailDigits(a: string)
    requires AllDigits(a) && 5 <= |a| <= 9
    ensures var x := (a + LOG_SUFFIX)[..9];
            && x[..|a|] == a
            && (forall i | 0 <= i < |a| :: IsDigit(x[i]))
            && (|a| < 9 ==> !IsDigit(x[|a|]))
  {
  }

  /** Digits followed by the suffix determine the digits, also when the suffix is cut. */
  lemma {:induction false} TailDeterminesDigits(a: string, b: string)
    requires AllDigits(a) && AllDigits(b) && 5 <= |a| <= |b| <= 9
    requires (a + LOG_SUFFIX)[..9] == (b + LOG_SUFFIX)[..9]
    ensures a == b
  {
    TailDigits(a);
    TailDigits(b);
  }

  lemma {:induction false} Format05Range(n: nat)
    requires n < 1_000_000_000
    ensures |Format05(n)| <= 9
  {
    Powers();
    DigitsLength(n, 9);
  }

  /** The log path is the full text exactly for pids of at most five characters, but it tells all pids below
      a thousand million apart. */
  lemma {:induction false} LogPathExact(root: string, p: int, q: int)
    ensures LogPath(root, p) == root + "/var/log/su-" + Format05(p) + ".log" <==> -9_999 <= p <= 99_999
    ensures 0 <= p < 1_000_000_000 && 0 <= q < 1_000_000_000 ==> (LogPath(root, p) == LogPath(root, q) <==> p == q)
  {
    Format05Length(p);
    LogPathText(root, p);
    if 0 <= p < 1_000_000_000 && 0 <= q < 1_000_000_000 && LogPath(root, p) == LogPath(root, q) {
      LogPathSame(root, p, q);
    }
    hide Format05, DigitsValue;
    assert |LogText(root, p)| == |root| + 12 + |Format05(p)| + 4;
  }

  lemma {:induction false} LogPathSame(root: string, p: nat, q: nat)
    requires p < 1_000_000_000 && q < 1_000_000_000 && LogPath(root, p) == LogPath(root, q)
    ensures p == q
  {
    LogPathEqual(root, p, q);
    Format05Value(p);
    Format05Value(q);
    Format05Range(p);
    Format05Range(q);
    hide Format05, LogPath, DigitsValue;
    if |Format05(p)| <= |Format05(q)| {
      TailDeterminesDigits(Format05(p), Format05(q));
    } else {
      TailDeterminesDigits(Format05(q), Format05(p));
    }
  }

  /** From a thousand million on, pids that differ only in the last digit share a log path. */
  lemma {:induction false} LogPathsCollide(root: string, n: nat, d: nat)
    requires n >= 100_000_000 && d < 10
    ensures LogPath(root, 10 * n + d) == LogPath(root, n)
  {
    Powers();
    assert Pow10(8) == 100_000_000;
    DigitsLength(n, 8);
    assert Digits(10 * n + d) == Digits(n) + [DigitOf(d)];
    LogPathEqual(root, 10 * n + d, n);
    assert (Digits(10 * n + d) + LOG_SUFFIX)[..9] == (Digits(n) + LOG_SUFFIX)[..9];
  }

  /** Under one root no log is written to a socket's path, whatever the pids. */
  lemma {:induction false} PathsDiffer(root: string, p: int, q: int)
    ensures SocketPath(root, p) != LogPath(root, q)
  {
    SocketPathText(root, p);
    LogPathText(root, q);
    hide Format05, SocketPath, LogPath;
    assert SocketPath(root, p)[|root| + 5] == "/var/run/su-"[5];
    assert LogPath(root, q)[|root| + 5] == "/var/log/su-"[5];
  }

  // ---- writing the paths ----

  /** `snprintf` into a new block of `size` bytes. */
  method Snprintf(text: string, size: nat) returns (block: array<char>)
    requires size > 0 && NulFree(text)
    ensures fresh(block) && block.Length == size
    ensures CStr(block[..]) == Truncated(text, size)
  {
    var t := Truncated(text, size);
    block := new char[size];
    var k := 0;
    while k < |t|
      invariant 0 <= k <= |t| < size == block.Length
      invariant block[..k] == t[..k]
    {
      block[k] := t[k];
      k := k + 1;
    }
    block[k] := NUL;
    ghost var rest := block[k + 1..];
    assert block[..] == t + [NUL] + rest;
    CStrInBuffer(t, rest);
    CStrOfNulFree(t);
  }

  /** `strcpy` of the C string in `src`, which fits into `dst` with its NUL. */
  method StrCpy(dst: array<char>, src: array<char>)
    requires |CStr(src[..])| < src.Length && |CStr(src[..])| < dst.Length && dst != src
    modifies dst
    ensures CStr(dst[..]) == CStr(src[..])
    ensures dst[|CStr(src[..])| + 1..] == old(dst[|CStr(src[..])| + 1..])
  {
    ghost var t := CStr(src[..]);
    var k := 0;
    while src[k] != NUL
      invariant 0 <= k <= |t|
      invariant src[..] == old(src[..])
      invariant dst[..k] == t[..k]
      invariant dst[|t| + 1..] == old(dst[|t| + 1..])
      decreases |t| - k
    {
      dst[k] := src[k];
      k := k + 1;
    }
    dst[k] := NUL;
    ghost var rest := dst[k + 1..];
    assert dst[..] == t + [NUL] + rest;
    CStrInBuffer(t, rest);
    CStrOfNulFree(t);
  }

  /** `init_af_un_address`: refuse a root that is too long, else print the path and copy it into `sun_path`. */
  method InitAfUnAddress(root: string, pid: int, sunPath: array<char>) returns (err: int)
    requires NulFree(root) && sunPath.Length == AF_UNIX_PATH_MAX
    modifies sunPath
    ensures err == 0 || err == -1
    ensures err == 0 <==> |root| <= 90
    ensures err == 0 ==> CStr(sunPath[..]) == SocketPath(root, pid)
    ensures err != 0 ==> sunPath[..] == old(sunPath[..])
  {
    var len := |root| + SESSION_AFUN_FMT_WLEN + 1;
    if len > AF_UNIX_PATH_MAX {
      return -1;
    }
    SocketTextClean(root, pid);
    var block := Snprintf(root + RUN_PREFIX + Format05(pid), len);
    SocketPathFits(root, pid);
    hide Format05, Truncated;
    StrCpy(sunPath, block);
    err := 0;
  }

  lemma {:induction false} SocketTextClean(root: string, pid: int)
    requires NulFree(root)
    ensures NulFree(SocketText(root, pid)) && NulFree(LogText(root, pid))
  {
    var f := Format05(pid);
    assert forall i | 0 <= i < |f| :: IsDigit(f[i]) || f[i] == '-';
    hide Format05;
  }

  /** `su_srv_log_init`: the log path, before the file is opened. */
  method InitLogPath(root: string, pid: int) returns (block: array<char>)
    requires NulFree(root)
    ensures fresh(block) && block.Length == |root| + 22
    ensures CStr(block[..]) == LogPath(root, pid)
  {
    SocketTextClean(root, pid);
    block := Snprintf(root + LOG_PREFIX + Format05(pid) + LOG_SUFFIX, |root| + SU_SRV_LOG_WLEN + 1);
  }
}
