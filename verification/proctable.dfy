/** The process table read from /proc, and the lookup by name that must agree with it. */
module ProcTable {
  import opened Tag
  import opened Text

  const PROC_TABLE_SIZE: nat := 32
  const PROC_TABLE_INC: nat := 16
  const LINE_SIZE: nat := 255

  datatype Row = Row(pid: int, comm: string)

  /** What a scan of /proc finds: the entry names in directory order, and for each pid the bytes of its cmdline
      file, if it can be opened. A directory that cannot be opened has no names. `longMax` is the largest `long` of
      the target; the smallest is one further from 0. */
  datatype Snapshot = Snapshot(names: seq<string>, cmdline: int -> Option<string>, longMax: nat)

  // ---- one directory entry ----

  function Clamp(n: int, longMax: nat): int {
    var longMin := -(longMax as int) - 1;
    if n > longMax then longMax else if n < longMin then longMin else n
  }

  /** `strtol` in base 10, kept only when it consumes the whole text. */
  function WholeNumber(s: string, longMax: nat): Option<int> {
    var t := s[SpaceRun(s)..];
    var sign := SignOf(t);
    var u := t[|sign|..];
    var k := DigitRun(u);
    if s == "" then Some(0)
    else if k == 0 || k < |u| then None
    else Some(Clamp(Signed(sign, DigitsValue(u[..k])), longMax))
  }

  /** `fgets` into a buffer of `LINE_SIZE`: up to the first LF, at most `LINE_SIZE - 1` bytes, nothing at end of
      file. */
  function ReadLine(content: string): Option<string> {
    var n := FirstLf(content);
    var len := if n < |content| then n + 1 else n;
    if content == "" then None
    else Some(content[..if len < LINE_SIZE then len else LINE_SIZE - 1])
  }

  /** The C string of a line, without a trailing LF. */
  function ChopLine(line: string): string {
    var s := CStr(line);
    if s != "" && s[|s| - 1] == LF then s[..|s| - 1] else s
  }

  /** The row an entry contributes, if any. */
  function RowOf(p: Snapshot, name: string): Option<Row> {
    match WholeNumber(name, p.longMax)
    case None => None
    case Some(pid) =>
      match p.cmdline(pid)
      case None => None
      case Some(content) =>
        match ReadLine(content)
        case None => None
        case Some(line) => Some(Row(pid, ChopLine(line)))
  }

  /** The rows of the readable numeric entries, in directory order. */
  function Rows(p: Snapshot, names: seq<string>): seq<Row> {
    if names == [] then []
    else
      Rows(p, names[..|names| - 1]) +
      match RowOf(p, names[|names| - 1])
      case None => []
      case Some(r) => [r]
  }

  /** No cmdline file starts with NUL: the byte before the C string's end is then inside the buffer. */
  ghost predicate FirstStringsNonEmpty(p: Snapshot) {
    forall pid :: p.cmdline(pid).Some? && p.cmdline(pid).value != "" ==> p.cmdline(pid).value[0] != NUL
  }

  /** Numeric entry names are not negative. */
  predicate NamesNonNegative(names: seq<string>, longMax: nat) {
    forall i | 0 <= i < |names| :: WholeNumber(names[i], longMax).Some? ==> WholeNumber(names[i], longMax).value >= 0
  }

  // ---- what an entry means ----

  /** `pid` is the number n, or the largest or smallest `long` when n is above or below that range. */
  predicate InLong(n: int, pid: int, longMax: nat) {
    && (-(longMax as int) - 1 <= n <= longMax ==> pid == n)
    && (n > longMax ==> pid == longMax)
    && (n < -(longMax as int) - 1 ==> pid == -(longMax as int) - 1)
  }

  /** The name is white space, a sign and digits to its end, and `pid` is what the digits denote, clamped to a `long`;
      the empty name denotes 0. */
  ghost predicate Denotes(name: string, pid: int, longMax: nat) {
    || (name == "" && pid == 0)
    || exists w, g, d :: IntShape(name, w, g, d, "") && InLong(Signed(g, DigitsValue(d)), pid, longMax)
  }

  /** The bytes before the first LF or NUL, at most 254 of them. */
  predicate IsComm(content: string, comm: string) {
    && comm <= content && |comm| <= 254 && LfFree(comm) && NulFree(comm)
    && (|comm| < 254 && |comm| < |content| ==> content[|comm|] == LF || content[|comm|] == NUL)
  }

  /** The row an entry should give: the pid its name denotes, and the command its cmdline file starts with. */
  ghost predicate IsRow(p: Snapshot, name: string, r: Row) {
    && Denotes(name, r.pid, p.longMax)
    && p.cmdline(r.pid).Some? && p.cmdline(r.pid).value != "" && IsComm(p.cmdline(r.pid).value, r.comm)
  }

  lemma {:induction false} WholeNumberOf(w: string, g: string, d: string, longMax: nat)
    requires AllSpaces(w) && IsSign(g) && AllDigits(d) && d != ""
    ensures WholeNumber(w + (g + (d + "")), longMax) == Some(Clamp(Signed(g, DigitsValue(d)), longMax))
  {
    var u := d + "";
    var t := g + u;
    assert u == d;
    assert t[0] == if g == "" then d[0] else g[0];
    SpaceRunOf(w, t);
    assert (w + t)[|w|..] == t;
    assert SignOf(t) == g && t[|g|..] == u;
    DigitRunOf(d, "");
    assert u[..|d|] == d;
  }

  lemma TakeAll(s: string)
    ensures s[..|s|] == s && s + "" == s
  {
  }

  lemma ShapeDenotes(name: string, k: nat, g: string, d: string, pid: int, longMax: nat)
    requires k <= |name| && AllSpaces(name[..k]) && IsSign(g) && g <= name[k..] && d == name[k..][|g|..]
    requires AllDigits(d) && d != "" && InLong(Signed(g, DigitsValue(d)), pid, longMax)
    ensures Denotes(name, pid, longMax)
  {
    hide DigitsValue, InLong, Signed, AllSpaces, AllDigits;
    TakeDrop(name, k);
    TakeDrop(name[k..], |g|);
    TakeAll(d);
    assert name[k..][..|g|] == g;
    assert IntShape(name, name[..k], g, d, "");
  }

  lemma ClampInLong(n: int, pid: int, longMax: nat)
    ensures InLong(n, pid, longMax) <==> pid == Clamp(n, longMax)
  {
  }

  lemma EmptyName(pid: int, longMax: nat)
    ensures WholeNumber("", longMax) == Some(0)
    ensures Denotes("", pid, longMax) <==> pid == 0
  {
  }

  lemma WholeNumberShape(name: string, longMax: nat)
    requires name != "" && WholeNumber(name, longMax).Some?
    ensures Denotes(name, WholeNumber(name, longMax).value, longMax)
  {
    hide Clamp, DigitsValue, SpaceRun, SignOf, DigitRun, Signed, InLong, Denotes, AllDigits, AllSpaces, IsSign;
    var k := SpaceRun(name);
    var g := SignOf(name[k..]);
    var d := name[k..][|g|..];
    TakeAll(d);
    ClampInLong(Signed(g, DigitsValue(d)), WholeNumber(name, longMax).value, longMax);
    ShapeDenotes(name, k, g, d, WholeNumber(name, longMax).value, longMax);
  }

  /** `strtol` with its end check accepts exactly the names that denote a pid. */
  lemma {:induction false} WholeNumberIff(name: string, pid: int, longMax: nat)
    ensures WholeNumber(name, longMax) == Some(pid) <==> Denotes(name, pid, longMax)
  {
    hide WholeNumber, DigitsValue, Signed, InLong, Clamp, AllSpaces, AllDigits, IsSign;
    if name == "" {
      EmptyName(pid, longMax);
    } else {
      if WholeNumber(name, longMax) == Some(pid) {
        WholeNumberShape(name, longMax);
      }
      if Denotes(name, pid, longMax) {
        var w, g, d :| IntShape(name, w, g, d, "") && InLong(Signed(g, DigitsValue(d)), pid, longMax);
        WholeNumberOf(w, g, d, longMax);
        ClampInLong(Signed(g, DigitsValue(d)), pid, longMax);
      }
    }
  }

  /** In particular, an entry named by a number in decimal denotes that number. */
  lemma {:induction false} DecimalDenotes(p: Snapshot, n: nat, r: Row)
    requires n <= p.longMax
    ensures IsRow(p, Digits(n), r) <==>
            && r.pid == n
            && p.cmdline(n).Some? && p.cmdline(n).value != "" && IsComm(p.cmdline(n).value, r.comm)
  {
    var d := Digits(n);
    DigitsRoundTrip(n);
    assert "" + ("" + (d + "")) == d && IntShape(d, "", "", d, "") && InLong(Signed("", DigitsValue(d)), n, p.longMax);
    assert Denotes(d, n, p.longMax);
    WholeNumberIff(d, n, p.longMax);
    WholeNumberIff(d, r.pid, p.longMax);
  }

  lemma CommOnce(content: string, a: string, b: string)
    requires IsComm(content, a) && IsComm(content, b)
    ensures a == b
  {
    assert a == content[..|a|] && b == content[..|b|];
    assert forall i | 0 <= i < |a| :: content[i] == a[i];
    assert forall i | 0 <= i < |b| :: content[i] == b[i];
  }

  /** The C string that `fgets` leaves, without its LF, is the command the content starts with. */
  lemma {:induction false} ChopIsComm(content: string)
    requires content != ""
    ensures IsComm(content, ChopLine(ReadLine(content).value))
  {
    var n, line := FirstLf(content), ReadLine(content).value;
    var s := CStr(line);
    assert line <= content && s <= content;
    assert forall i | 0 <= i < |s| :: s[i] == content[i];
    if s != "" && s[|s| - 1] == LF {
      assert |s| - 1 == n;
    }
    hide CStr, FirstLf;
  }

  /** What reading one entry gives, exactly. */
  lemma {:induction false} RowOfIff(p: Snapshot, name: string, r: Row)
    ensures RowOf(p, name) == Some(r) <==> IsRow(p, name, r)
  {
    hide WholeNumber, ChopLine, ReadLine, Denotes, IsComm;
    WholeNumberIff(name, r.pid, p.longMax);
    if p.cmdline(r.pid).Some? {
      var content := p.cmdline(r.pid).value;
      ReadLineSome(content);
      if content != "" {
        ChopIsComm(content);
        if IsComm(content, r.comm) {
          CommOnce(content, r.comm, ChopLine(ReadLine(content).value));
        }
      }
    }
  }

  lemma ReadLineSome(content: string)
    ensures ReadLine(content).Some? <==> content != ""
  {
  }

  // ---- the growable table ----

  /** The capacity after `n` rows: 32, then as many blocks of 16 as the rows need. */
  function Capacity(n: nat): nat {
    if n <= PROC_TABLE_SIZE then PROC_TABLE_SIZE
    else PROC_TABLE_SIZE + (n - PROC_TABLE_SIZE + PROC_TABLE_INC - 1) / PROC_TABLE_INC * PROC_TABLE_INC
  }

  /** Capacity is 32 or 32 + 16k, never less than the rows, and less than 16 more once it has grown. */
  lemma CapacityBounds(n: nat)
    ensures n <= Capacity(n) && Capacity(n) >= 32
    ensures (Capacity(n) - 32) % 16 == 0
    ensures Capacity(n) == 32 || Capacity(n) < n + 16
    ensures Capacity(n + 1) == if n < Capacity(n) then Capacity(n) else Capacity(n) + 16
  {
  }

  /** Checks that the byte before the end of a C string is inside its buffer, as the code takes for granted. */
  method ChopInBuffer(line: string) returns (comm: string)
    requires line != "" && line[0] != NUL
    ensures comm == ChopLine(line)
  {
    var s := CStr(line);
    if s[|s| - 1] == LF {
      comm := s[..|s| - 1];
    } else {
      comm := s;
    }
  }

  /** `realloc` of the table: earlier rows are kept. */
  method GrowTable(table: array<Row>, size: nat) returns (bigger: array<Row>)
    requires table.Length <= size
    ensures fresh(bigger) && bigger.Length == size
    ensures bigger[..table.Length] == table[..]
  {
    bigger := new Row[size](_ => Row(0, ""));
    var k := 0;
    while k < table.Length
      invariant 0 <= k <= table.Length
      invariant bigger[..k] == table[..k]
    {
      bigger[k] := table[k];
      k := k + 1;
    }
  }

  lemma ReadLineStart(content: string)
    requires content != ""
    ensures ReadLine(content).Some? && ReadLine(content).value != "" && ReadLine(content).value[0] == content[0]
  {
  }

  /** Read one directory entry: the row it gives, if it is numeric and its cmdline file can be opened and read. */
  method ReadEntry(p: Snapshot, name: string) returns (row: Option<Row>)
    requires FirstStringsNonEmpty(p)
    ensures row == RowOf(p, name)
    ensures forall r :: row == Some(r) <==> IsRow(p, name, r)
  {
    forall r ensures RowOf(p, name) == Some(r) <==> IsRow(p, name, r) {
      RowOfIff(p, name, r);
    }
    hide IsRow;
    row := None;
    var lpid := WholeNumber(name, p.longMax);
    if lpid.Some? {
      var file := p.cmdline(lpid.value);
      if file.Some? {
        var line := ReadLine(file.value);
        if line.Some? {
          ReadLineStart(file.value);
          var comm := ChopInBuffer(line.value);
          row := Some(Row(lpid.value, comm));
        }
      }
    }
  }

  /** Rows, entry by entry. */
  lemma {:induction false} RowsSnoc(p: Snapshot, names: seq<string>, d: nat)
    requires d < |names|
    ensures Rows(p, names[..d + 1]) ==
            Rows(p, names[..d]) + if RowOf(p, names[d]).Some? then [RowOf(p, names[d]).value] else []
  {
    hide RowOf;
    assert names[..d + 1][..d] == names[..d];
  }

  /** The entries that give a row, as places in the directory. */
  function RowPlaces(p: Snapshot, names: seq<string>): seq<nat> {
    if names == [] then []
    else
      var n := |names| - 1;
      RowPlaces(p, names[..n]) + if RowOf(p, names[n]).Some? then [n] else []
  }

  /** Row by row the table holds what the places give: `at` lists exactly the entries that should give a row, in
      directory order. */
  ghost predicate HoldsRows(p: Snapshot, rows: seq<Row>, at: seq<nat>) {
    && |rows| == |at|
    && (forall k | 0 <= k < |at| :: at[k] < |p.names| && IsRow(p, p.names[at[k]], rows[k]))
    && (forall j, k | 0 <= j < k < |at| :: at[j] < at[k])
    && forall i: nat, r | i < |p.names| && IsRow(p, p.names[i], r) :: i in at
  }

  lemma {:induction false} RowsAtPlaces(p: Snapshot, names: seq<string>)
    ensures var rows, at := Rows(p, names), RowPlaces(p, names);
            && |rows| == |at|
            && (forall k | 0 <= k < |at| :: at[k] < |names| && RowOf(p, names[at[k]]) == Some(rows[k]))
            && (forall j, k | 0 <= j < k < |at| :: at[j] < at[k])
            && forall i: nat | i < |names| && RowOf(p, names[i]).Some? :: i in at
  {
    hide RowOf;
    if names != [] {
      var n := |names| - 1;
      RowsAtPlaces(p, names[..n]);
      assert forall i: nat | i < n :: names[i] == names[..n][i];
    }
  }

  /** The rows of a directory, exactly. */
  lemma {:induction false} RowsExact(p: Snapshot)
    ensures HoldsRows(p, Rows(p, p.names), RowPlaces(p, p.names))
  {
    hide RowOf, Rows, RowPlaces, IsRow;
    RowsAtPlaces(p, p.names);
    var rows, at := Rows(p, p.names), RowPlaces(p, p.names);
    forall k | 0 <= k < |at| ensures IsRow(p, p.names[at[k]], rows[k]) {
      RowOfIff(p, p.names[at[k]], rows[k]);
    }
    forall i: nat, r | i < |p.names| && IsRow(p, p.names[i], r) ensures i in at {
      RowOfIff(p, p.names[i], r);
    }
  }

  /** `su_srv_getproclist`: the table, grown in place while the directory is read. */
  method GetProcList(p: Snapshot) returns (table: array<Row>, nproc: nat)
    requires FirstStringsNonEmpty(p)
    ensures fresh(table) && nproc <= table.Length
    ensures table[..nproc] == Rows(p, p.names)
    ensures table.Length == Capacity(nproc)
    ensures exists at :: HoldsRows(p, table[..nproc], at)
  {
    hide RowOf, FirstStringsNonEmpty, HoldsRows;
    RowsExact(p);
    table := new Row[PROC_TABLE_SIZE](_ => Row(0, ""));
    nproc := 0;
    var d := 0;
    while d < |p.names|
      invariant 0 <= d <= |p.names|
      invariant fresh(table) && nproc <= table.Length == Capacity(nproc)
      invariant table[..nproc] == Rows(p, p.names[..d])
    {
      hide Rows, Capacity;
      RowsSnoc(p, p.names, d);
      var row := ReadEntry(p, p.names[d]);
      if row.Some? {
        table, nproc := AddRow(table, nproc, row.value);
      }
      d := d + 1;
    }
    assert p.names[..d] == p.names;
  }

  /** Store one more row, growing the table by 16 when it is full. */
  method AddRow(table: array<Row>, nproc: nat, row: Row) returns (table': array<Row>, nproc': nat)
    requires nproc <= table.Length == Capacity(nproc)
    modifies table
    ensures table' == table || fresh(table')
    ensures nproc' == nproc + 1 <= table'.Length == Capacity(nproc')
    ensures table'[..nproc'] == old(table[..nproc]) + [row]
  {
    CapacityBounds(nproc);
    table' := table;
    if !(nproc < table.Length) {
      table' := GrowTable(table, table.Length + PROC_TABLE_INC);
      assert table'[..nproc] == table[..nproc];
    }
    table'[nproc] := row;
    nproc' := nproc + 1;
  }

  // ---- the lookup ----

  /** The pid of the first row with the given name, or -1. */
  function FirstWith(rows: seq<Row>, name: string): int {
    if rows == [] then -1
    else if rows[0].comm == name then rows[0].pid
    else FirstWith(rows[1..], name)
  }

  /** Walking the rows as the lookup walks /proc: a match stops the walk only when its pid is not negative. */
  function Walk(rows: seq<Row>, name: string): int {
    if rows == [] then -1
    else
      var before, r := Walk(rows[..|rows| - 1], name), rows[|rows| - 1];
      if before < 0 && r.comm == name then r.pid else before
  }

  lemma WalkNothing(p: Snapshot, name: string)
    ensures Walk(Rows(p, []), name) == -1
  {
  }

  lemma {:induction false} WalkSnoc(rows: seq<Row>, r: Row, name: string)
    ensures Walk(rows + [r], name) ==
            if Walk(rows, name) < 0 && r.comm == name then r.pid else Walk(rows, name)
  {
    assert (rows + [r])[..|rows|] == rows;
  }

  /** One more directory entry. */
  lemma {:induction false} WalkEntry(p: Snapshot, names: seq<string>, d: nat, name: string)
    requires d < |names|
    ensures var found, row := Walk(Rows(p, names[..d]), name), RowOf(p, names[d]);
            Walk(Rows(p, names[..d + 1]), name) ==
            if found < 0 && row.Some? && row.value.comm == name then row.value.pid else found
  {
    hide RowOf, Walk, Rows;
    var rows, row := Rows(p, names[..d]), RowOf(p, names[d]);
    RowsSnoc(p, names, d);
    if row.Some? {
      WalkSnoc(rows, row.value, name);
    } else {
      assert rows + [] == rows;
    }
  }

  /** Once a row with a pid that is not negative is found, the rest of the directory does not matter. */
  lemma {:induction false} WalkStops(p: Snapshot, names: seq<string>, d: nat, m: nat, name: string)
    requires d <= m <= |names|
    requires Walk(Rows(p, names[..d]), name) >= 0 || d == m
    ensures Walk(Rows(p, names[..m]), name) == Walk(Rows(p, names[..d]), name)
    decreases m
  {
    hide Rows, RowOf, Walk;
    if d < m {
      WalkStops(p, names, d, m - 1, name);
      WalkEntry(p, names, m - 1, name);
    }
  }

  /** `su_srv_getpid`: a scan of /proc of its own, which stops at the first match, finds what walking the table
      finds. */
  method GetPid(p: Snapshot, procname: string) returns (procpid: int)
    requires FirstStringsNonEmpty(p)
    ensures procpid == Walk(Rows(p, p.names), procname)
    ensures exists rows, at :: HoldsRows(p, rows, at) && IsAnswer(rows, procname, procpid)
    ensures NamesNonNegative(p.names, p.longMax) ==> procpid == FirstWith(Rows(p, p.names), procname)
    ensures procpid == FirstWith(Rows(p, p.names), procname) <==> Agreeing(Rows(p, p.names), procname)
  {
    hide RowOf, NamesNonNegative, FirstStringsNonEmpty, FirstWith, Walk, Rows, Agreeing, HoldsRows, IsAnswer, RowPlaces;
    RowsExact(p);
    WalkIsAnswer(Rows(p, p.names), procname);
    AgreeIff(Rows(p, p.names), procname);
    procpid := -1;
    var d := 0;
    assert Walk(Rows(p, p.names[..0]), procname) == -1 by { WalkNothing(p, procname); }
    while procpid < 0 && d < |p.names|
      invariant 0 <= d <= |p.names|
      invariant procpid == Walk(Rows(p, p.names[..d]), procname)
      decreases |p.names| - d
    {
      WalkEntry(p, p.names, d, procname);
      var row := ReadEntry(p, p.names[d]);
      if row.Some? && procname == row.value.comm {
        procpid := row.value.pid;
      }
      d := d + 1;
    }
    WalkStops(p, p.names, d, |p.names|, procname);
    assert p.names[..|p.names|] == p.names;
    if NamesNonNegative(p.names, p.longMax) {
      WalkFindsFirst(p, procname);
    }
  }

  lemma RowPid(p: Snapshot, name: string)
    requires RowOf(p, name).Some?
    ensures WholeNumber(name, p.longMax) == Some(RowOf(p, name).value.pid)
  {
    hide WholeNumber, ReadLine, ChopLine;
  }

  lemma {:induction false} RowsNonNegative(p: Snapshot, names: seq<string>)
    requires NamesNonNegative(names, p.longMax)
    ensures forall i | 0 <= i < |Rows(p, names)| :: Rows(p, names)[i].pid >= 0
  {
    hide RowOf, WholeNumber;
    if names != [] {
      var n := |names| - 1;
      RowsNonNegative(p, names[..n]);
      if RowOf(p, names[n]).Some? {
        RowPid(p, names[n]);
      }
    }
  }

  predicate Named(rows: seq<Row>, name: string) {
    exists i | 0 <= i < |rows| :: rows[i].comm == name
  }

  /** Some row of the name has a pid that is not negative. */
  predicate NamedNonNegative(rows: seq<Row>, name: string) {
    exists i | 0 <= i < |rows| :: rows[i].comm == name && rows[i].pid >= 0
  }

  /** The pid of the last row with the given name, or -1. */
  function LastWith(rows: seq<Row>, name: string): int {
    if rows == [] then -1
    else if rows[|rows| - 1].comm == name then rows[|rows| - 1].pid
    else LastWith(rows[..|rows| - 1], name)
  }

  /** The first row of the name has a pid that is not negative, or none has and the last one has the same. */
  predicate Agreeing(rows: seq<Row>, name: string) {
    || FirstWith(rows, name) >= 0
    || (!NamedNonNegative(rows, name) && LastWith(rows, name) == FirstWith(rows, name))
  }

  lemma {:induction false} FirstWithSnoc(rows: seq<Row>, r: Row, name: string)
    ensures FirstWith(rows + [r], name) ==
            if Named(rows, name) then FirstWith(rows, name) else if r.comm == name then r.pid else -1
  {
    if rows == [] {
      assert [r][1..] == [];
    } else {
      assert (rows + [r])[1..] == rows[1..] + [r];
      FirstWithSnoc(rows[1..], r, name);
    }
  }

  lemma {:induction false} NotNamed(rows: seq<Row>, name: string)
    requires !Named(rows, name)
    ensures FirstWith(rows, name) == -1 && Walk(rows, name) == -1 && LastWith(rows, name) == -1
  {
    if rows != [] {
      var n := |rows| - 1;
      NotNamed(rows[..n], name);
      FirstWithSnoc(rows[..n], rows[n], name);
      assert rows == rows[..n] + [rows[n]];
    }
  }

  /** The walk takes the last row of the name as long as no pid that is not negative was seen. */
  lemma {:induction false} WalkIsLast(rows: seq<Row>, name: string)
    ensures if NamedNonNegative(rows, name) then Walk(rows, name) >= 0
            else Walk(rows, name) == LastWith(rows, name) < 0
  {
    if rows != [] {
      var init := rows[..|rows| - 1];
      WalkIsLast(init, name);
      assert forall i | 0 <= i < |init| :: init[i] == rows[i];
    }
  }

  lemma {:induction false} WalkIsFirst(rows: seq<Row>, name: string)
    requires FirstWith(rows, name) >= 0
    ensures Walk(rows, name) == FirstWith(rows, name)
  {
    if rows != [] {
      var n := |rows| - 1;
      FirstWithSnoc(rows[..n], rows[n], name);
      assert rows == rows[..n] + [rows[n]];
      if Named(rows[..n], name) {
        WalkIsFirst(rows[..n], name);
      } else {
        NotNamed(rows[..n], name);
      }
    }
  }

  /** The walk's result is the first pid of the name that is not negative, if there is one. */
  lemma {:induction false} WalkIsFirstNonNegative(rows: seq<Row>, name: string, i: nat)
    requires i < |rows| && rows[i].comm == name && rows[i].pid >= 0
    requires forall j | 0 <= j < i :: rows[j].comm == name ==> rows[j].pid < 0
    ensures Walk(rows, name) == rows[i].pid
  {
    var n := |rows| - 1;
    if i < n {
      WalkIsFirstNonNegative(rows[..n], name, i);
    } else {
      WalkIsLast(rows[..n], name);
    }
  }

  /** `LastWith` is what its name says. */
  lemma {:induction false} LastWithIsLast(rows: seq<Row>, name: string, i: nat)
    requires i <= |rows| && forall j | i <= j < |rows| :: rows[j].comm != name
    requires i > 0 ==> rows[i - 1].comm == name
    ensures LastWith(rows, name) == if i > 0 then rows[i - 1].pid else -1
    decreases |rows|
  {
    if i < |rows| {
      LastWithIsLast(rows[..|rows| - 1], name, i);
    }
  }

  /** What the lookup answers, told by the rows: the first pid of the name that is not negative; failing that the last
      of the name; failing that -1. */
  ghost predicate IsAnswer(rows: seq<Row>, name: string, pid: int) {
    && (forall i | IsFirstNonNegative(rows, name, i) :: pid == rows[i].pid)
    && (forall i | IsLastNegative(rows, name, i) :: pid == rows[i].pid)
    && ((forall r | r in rows :: r.comm != name) ==> pid == -1)
  }

  predicate IsFirstNonNegative(rows: seq<Row>, name: string, i: int) {
    && 0 <= i < |rows| && rows[i].comm == name && rows[i].pid >= 0
    && forall j | 0 <= j < i :: rows[j].comm == name ==> rows[j].pid < 0
  }

  /** Row i is the last of the name, and no row of the name has a pid that is not negative. */
  predicate IsLastNegative(rows: seq<Row>, name: string, i: int) {
    && 0 <= i < |rows| && rows[i].comm == name
    && (forall j | 0 <= j < |rows| :: rows[j].comm == name ==> rows[j].pid < 0)
    && forall j | i < j < |rows| :: rows[j].comm != name
  }

  lemma {:induction false} WalkIsAnswer(rows: seq<Row>, name: string)
    ensures IsAnswer(rows, name, Walk(rows, name))
  {
    hide Walk, LastWith;
    forall i | IsFirstNonNegative(rows, name, i) ensures Walk(rows, name) == rows[i].pid {
      WalkIsFirstNonNegative(rows, name, i);
    }
    forall i | IsLastNegative(rows, name, i) ensures Walk(rows, name) == rows[i].pid {
      WalkIsLast(rows, name);
      LastWithIsLast(rows, name, i + 1);
    }
    if forall r | r in rows :: r.comm != name {
      NotNamed(rows, name);
    }
  }

  /** When lookup and table agree, exactly. */
  lemma {:induction false} AgreeIff(rows: seq<Row>, name: string)
    ensures Walk(rows, name) == FirstWith(rows, name) <==> Agreeing(rows, name)
  {
    hide Walk, FirstWith, LastWith, NamedNonNegative;
    WalkIsLast(rows, name);
    if FirstWith(rows, name) >= 0 {
      WalkIsFirst(rows, name);
    }
  }

  lemma {:induction false} NonNegativeAgrees(rows: seq<Row>, name: string)
    requires forall i | 0 <= i < |rows| :: rows[i].pid >= 0
    ensures Agreeing(rows, name)
  {
    if Named(rows, name) {
      FirstNonNegative(rows, name);
    } else {
      NotNamed(rows, name);
    }
  }

  lemma {:induction false} FirstNonNegative(rows: seq<Row>, name: string)
    requires Named(rows, name) && forall i | 0 <= i < |rows| :: rows[i].pid >= 0
    ensures FirstWith(rows, name) >= 0
  {
    if rows[0].comm != name {
      FirstNonNegative(rows[1..], name);
    }
  }

  /** The lookup agrees with the table: the pid of the first row of that name, or -1 when there is none. */
  lemma {:induction false} WalkFindsFirst(p: Snapshot, name: string)
    requires NamesNonNegative(p.names, p.longMax)
    ensures Walk(Rows(p, p.names), name) == FirstWith(Rows(p, p.names), name)
  {
    RowsNonNegative(p, p.names);
    NonNegativeAgrees(Rows(p, p.names), name);
    AgreeIff(Rows(p, p.names), name);
  }

  /** `FirstWith` is what its name says: -1 exactly when no row has that name, else the first such row's pid. */
  lemma {:induction false} FirstWithIsFirst(rows: seq<Row>, name: string, i: nat)
    requires i <= |rows| && forall j | 0 <= j < i :: rows[j].comm != name
    requires i < |rows| ==> rows[i].comm == name
    ensures FirstWith(rows, name) == if i < |rows| then rows[i].pid else -1
  {
    if i > 0 {
      FirstWithIsFirst(rows[1..], name, i - 1);
    }
  }

  /** A directory with a negative entry name, and every command called "a". */
  function NegativeEntry(): Snapshot {
    Snapshot(["-5", "7"], _ => Some("a"), 0x7fff_ffff)
  }

  lemma EntryRow(name: string, g: string, d: string, pid: int)
    requires IsSign(g) && AllDigits(d) && d != "" && name == g + d && pid == Signed(g, DigitsValue(d))
    requires -5 <= pid <= 7
    ensures RowOf(NegativeEntry(), name) == Some(Row(pid, "a"))
  {
    hide RowOf, DigitsValue;
    assert d + "" == d && "" + (g + (d + "")) == name;
    assert IntShape(name, "", g, d, "");
    assert IsComm("a", "a");
    RowOfIff(NegativeEntry(), name, Row(pid, "a"));
  }

  lemma NoRows(p: Snapshot)
    ensures Rows(p, []) == []
  {
  }

  lemma TwoRows(p: Snapshot, a: string, b: string)
    requires RowOf(p, a).Some? && RowOf(p, b).Some?
    ensures Rows(p, [a, b]) == [] + [RowOf(p, a).value] + [RowOf(p, b).value]
  {
    hide RowOf, Rows;
    var names := [a, b];
    assert names[..2] == names;
    RowsSnoc(p, names, 0);
    RowsSnoc(p, names, 1);
    assert Rows(p, names[..0]) == [] by { NoRows(p); }
  }

  /** A negative entry name makes the lookup and the table's first row of a name differ. */
  lemma NegativeNameBreaksAgreement()
    ensures FirstStringsNonEmpty(NegativeEntry())
    ensures Walk(Rows(NegativeEntry(), ["-5", "7"]), "a") == 7
    ensures FirstWith(Rows(NegativeEntry(), ["-5", "7"]), "a") == -5
  {
    var r0, r1 := Row(-5, "a"), Row(7, "a");
    assert DigitsValue("5") == 5 && DigitsValue("7") == 7;
    EntryRow("-5", "-", "5", -5);
    EntryRow("7", "", "7", 7);
    hide RowOf, Rows, Walk, DigitsValue;
    TwoRows(NegativeEntry(), "-5", "7");
    NotNamed([], "a");
    WalkSnoc([], r0, "a");
    WalkSnoc([] + [r0], r1, "a");
  }
}
