/** Reading the tables that the controller's command line prints under a rule of dashes. */
module CliTable {

  import opened Strings

  ghost predicate Usual(ws: Spaces) {
    ws(' ') && !ws('-')
  }

  // ----- the rule and its columns

  predicate OnlyDashes(line: string) {
    forall c | c in line :: c == '-' || c == ' '
  }

  predicate IsSeparator(ws: Spaces, line: string) {
    || ("----" <= line && ' ' in line)
    || (Strip(ws, line) != "" && OnlyDashes(line) && ' ' in line)
  }

  /** A line with a space that begins with four dashes, or has dashes and spaces only and is not blank. */
  ghost predicate LooksLikeRule(ws: Spaces, line: string) {
    && (exists i :: 0 <= i < |line| && line[i] == ' ')
    && ((|line| >= 4 && forall i :: 0 <= i < 4 ==> line[i] == '-')
        || (!Blank(ws, line) && forall i :: 0 <= i < |line| ==> line[i] == '-' || line[i] == ' '))
  }

  lemma SeparatorExactly(ws: Spaces, line: string)
    ensures IsSeparator(ws, line) <==> LooksLikeRule(ws, line)
  {
    StripExactly(ws, line);
    assert |line| >= 4 && (forall i :: 0 <= i < 4 ==> line[i] == '-') ==> line[..4] == "----";
    assert "----" <= line ==> line[..4] == "----" && forall i :: 0 <= i < 4 ==> line[i] == "----"[i];
    assert forall i :: 0 <= i < |line| ==> line[i] in line;
  }

  /** The positions where a run of dashes begins. */
  ghost function DashStarts(line: string): (starts: seq<nat>) {
    if line == "" then []
    else
      var n := |line| - 1;
      DashStarts(line[..n]) + if line[n] == '-' && (n == 0 || line[n - 1] != '-') then [n] else []
  }

  ghost predicate BeginsRun(line: string, i: nat) {
    i < |line| && line[i] == '-' && (i == 0 || line[i - 1] != '-')
  }

  lemma {:induction false} DashStartsMembers(line: string)
    ensures forall i: nat {:trigger BeginsRun(line, i)} :: i in DashStarts(line) <==> BeginsRun(line, i)
    ensures forall k :: 0 <= k < |DashStarts(line)| ==> DashStarts(line)[k] < |line|
    ensures forall j, k :: 0 <= j < k < |DashStarts(line)| ==> DashStarts(line)[j] < DashStarts(line)[k]
  {
    if line != "" {
      var before, n := line[..|line| - 1], |line| - 1;
      DashStartsMembers(before);
      forall i: nat ensures i in DashStarts(line) <==> BeginsRun(line, i) {
        assert i in DashStarts(before) <==> BeginsRun(before, i);
        assert BeginsRun(before, i) <==> BeginsRun(line, i) && i < n;
      }
    }
  }

  /** Each column runs from the start of its dashes to the start of the next ones, the last to the end of the rule. */
  function Columns(starts: seq<nat>, end: nat): (columns: seq<(nat, nat)>) {
    seq(|starts|, k requires 0 <= k < |starts| => (starts[k], if k + 1 < |starts| then starts[k + 1] else end))
  }

  /** The columns are not empty, adjacent, and end at end. */
  ghost predicate Tiles(columns: seq<(nat, nat)>, end: nat) {
    && (forall k :: 0 <= k < |columns| ==> columns[k].0 < columns[k].1 <= end)
    && (forall j, k :: 0 <= j && k == j + 1 < |columns| ==> columns[j].1 == columns[k].0)
    && (columns != [] ==> columns[|columns| - 1].1 == end)
  }

  /** For any rule, the columns tile it from the first start to its end. */
  lemma {:induction false} ColumnsTile(line: string)
    ensures var starts, columns := DashStarts(line), Columns(DashStarts(line), |line|);
            && |columns| == |starts| && (forall k :: 0 <= k < |columns| ==> columns[k].0 == starts[k])
            && Tiles(columns, |line|)
  {
    DashStartsMembers(line);
    RisingTiles(DashStarts(line), |line|);
  }

  lemma RisingTiles(starts: seq<nat>, end: nat)
    requires forall k :: 0 <= k < |starts| ==> starts[k] < end
    requires forall j, k :: 0 <= j < k < |starts| ==> starts[j] < starts[k]
    ensures Tiles(Columns(starts, end), end)
  {
    var columns := Columns(starts, end);
    forall k | 0 <= k < |columns| ensures columns[k].0 < columns[k].1 <= end {
      if k + 1 < |columns| { assert starts[k] < starts[k + 1] < end; }
    }
  }

  /** The first start is the first dash of the line. */
  lemma {:induction false} FirstStartIsFirstDash(line: string, i: nat)
    requires i < |line| && line[i] == '-'
    ensures DashStarts(line) != [] && DashStarts(line)[0] <= i && line[DashStarts(line)[0]] == '-'
  {
    DashStartsMembers(line);
    var starts := DashStarts(line);
    if BeginsRun(line, i) {
      assert i in starts;
      var k :| 0 <= k < |starts| && starts[k] == i;
      assert k > 0 ==> starts[0] < starts[k];
      assert starts[0] in starts;
      assert BeginsRun(line, starts[0]);
    } else {
      FirstStartIsFirstDash(line, i - 1);
    }
  }

  // ----- what the parser computes

  predicate Skipped(ws: Spaces, line: string) {
    Strip(ws, line) == "" || "---" <= line || Contains(line, "Access Points")
  }

  /** A blank line, one that begins with three dashes, or one with the words Access Points in it. */
  ghost predicate SkippedLine(ws: Spaces, line: string) {
    || Blank(ws, line)
    || (|line| >= 3 && forall i :: 0 <= i < 3 ==> line[i] == '-')
    || (exists a, b :: line == a + "Access Points" + b)
  }

  lemma ContainsExactly(s: string, t: string)
    ensures Contains(s, t) <==> exists a, b :: s == a + t + b
  {
    if Contains(s, t) {
      var i: nat :| i <= |s| && OccursAt(s, t, i);
      assert s == s[..i] + t + s[i + |t|..];
    }
    if a, b :| s == a + t + b {
      assert OccursAt(s, t, |a|);
    }
  }

  lemma SkippedExactly(ws: Spaces, line: string)
    ensures Skipped(ws, line) <==> SkippedLine(ws, line)
  {
    StripExactly(ws, line);
    ContainsExactly(line, "Access Points");
    assert |line| >= 3 && (forall i :: 0 <= i < 3 ==> line[i] == '-') ==> line[..3] == "---";
    assert "---" <= line ==> line[..3] == "---" && forall i :: 0 <= i < 3 ==> line[i] == "---"[i];
  }

  /** The characters of the line between two positions, as far as there are any, without white space at either end. */
  ghost predicate IsCell(ws: Spaces, line: string, column: (nat, nat), cell: string) {
    && column.0 <= column.1
    && var m := |line|;
       IsStripped(ws, line[if column.0 < m then column.0 else m..if column.1 < m then column.1 else m], cell)
  }

  /** The cell of a line between two positions. */
  function Cell(ws: Spaces, line: string, column: (nat, nat)): (cell: string)
    requires column.0 <= column.1
  {
    if column.0 < |line| then Strip(ws, Slice(line, column.0, column.1)) else ""
  }

  lemma CellExactly(ws: Spaces, line: string, column: (nat, nat), cell: string)
    requires column.0 <= column.1
    ensures IsCell(ws, line, column, cell) <==> cell == Cell(ws, line, column)
    ensures Cell(ws, line, column) == Strip(ws, Slice(line, column.0, column.1))
  {
    var m := |line|;
    var part := line[if column.0 < m then column.0 else m..if column.1 < m then column.1 else m];
    assert part == Slice(line, column.0, column.1);
    StripExactly(ws, part);
    if IsStripped(ws, part, cell) { StrippedOnce(ws, part, cell); }
  }

  ghost predicate Ordered(columns: seq<(nat, nat)>) {
    forall k :: 0 <= k < |columns| ==> columns[k].0 <= columns[k].1
  }

  /** The dictionary of a line; a repeated header keeps its last cell. */
  ghost function RowOf(ws: Spaces, columns: seq<(nat, nat)>, headers: seq<string>,
                       line: string): (row: map<string, string>)
    requires Ordered(columns) && |headers| == |columns|
  {
    if columns == [] then map[]
    else
      var n := |columns| - 1;
      RowOf(ws, columns[..n], headers[..n], line)[headers[n] := Cell(ws, line, columns[n])]
  }

  predicate Filled(row: map<string, string>, key: string) {
    key in row && row[key] != ""
  }

  predicate HasKey(row: map<string, string>) {
    Filled(row, "Name") || Filled(row, "MAC Address") || Filled(row, "mac")
  }

  /** No later column has the same header. */
  ghost predicate LastHeader(headers: seq<string>, k: nat) {
    k < |headers| && forall j :: k < j < |headers| ==> headers[j] != headers[k]
  }

  /** The dictionary has the headers as keys, each with the cell of its last column. */
  ghost predicate IsRow(ws: Spaces, columns: seq<(nat, nat)>, headers: seq<string>, line: string,
                        row: map<string, string>) {
    && |headers| == |columns| && (forall h :: h in row <==> h in headers)
    && forall k: nat :: LastHeader(headers, k) ==> IsCell(ws, line, columns[k], row[headers[k]])
  }

  lemma {:induction false} RowExactly(ws: Spaces, columns: seq<(nat, nat)>, headers: seq<string>, line: string)
    requires Ordered(columns) && |headers| == |columns|
    ensures IsRow(ws, columns, headers, line, RowOf(ws, columns, headers, line))
  {
    if columns != [] {
      var n := |columns| - 1;
      var before := RowOf(ws, columns[..n], headers[..n], line);
      RowExactly(ws, columns[..n], headers[..n], line);
      CellExactly(ws, line, columns[n], Cell(ws, line, columns[n]));
      RowNext(ws, columns, headers, line, before, Cell(ws, line, columns[n]));
    }
  }

  lemma EarlierHeader(headers: seq<string>, k: nat)
    requires LastHeader(headers, k) && k < |headers| - 1
    ensures LastHeader(headers[..|headers| - 1], k) && headers[k] != headers[|headers| - 1]
  {
  }

  /** The cell of one column more. */
  lemma RowNext(ws: Spaces, columns: seq<(nat, nat)>, headers: seq<string>, line: string,
                before: map<string, string>, cell: string)
    requires |headers| == |columns| > 0 && IsRow(ws, columns[..|columns| - 1], headers[..|columns| - 1], line, before)
    requires IsCell(ws, line, columns[|columns| - 1], cell)
    ensures IsRow(ws, columns, headers, line, before[headers[|columns| - 1] := cell])
  {
    var n := |columns| - 1;
    var row := before[headers[n] := cell];
    assert headers == headers[..n] + [headers[n]];
    forall k: nat | LastHeader(headers, k) ensures IsCell(ws, line, columns[k], row[headers[k]]) {
      if k < n {
        EarlierHeader(headers, k);
        assert columns[..n][k] == columns[k];
      }
    }
  }

  /** Some column headed Name, MAC Address or mac, the last one of its header, has a cell that is not empty. */
  ghost predicate HasKeyCell(ws: Spaces, columns: seq<(nat, nat)>, headers: seq<string>, line: string) {
    |headers| == |columns| && exists k: nat, cell ::
      && LastHeader(headers, k) && (headers[k] == "Name" || headers[k] == "MAC Address" || headers[k] == "mac")
      && IsCell(ws, line, columns[k], cell) && cell != ""
  }

  lemma {:induction false} LastOfHeader(headers: seq<string>, h: string) returns (k: nat)
    requires h in headers
    ensures LastHeader(headers, k) && headers[k] == h
  {
    k := |headers| - 1;
    if headers[k] != h {
      assert headers == headers[..k] + [headers[k]];
      k := LastOfHeader(headers[..|headers| - 1], h);
      assert forall j :: 0 <= j < |headers| - 1 ==> headers[..|headers| - 1][j] == headers[j];
    }
  }

  lemma KeyExactly(ws: Spaces, columns: seq<(nat, nat)>, headers: seq<string>, line: string)
    requires Ordered(columns) && |headers| == |columns|
    ensures HasKey(RowOf(ws, columns, headers, line)) <==> HasKeyCell(ws, columns, headers, line)
  {
    var row := RowOf(ws, columns, headers, line);
    RowExactly(ws, columns, headers, line);
    forall h | Filled(row, h) && (h == "Name" || h == "MAC Address" || h == "mac")
      ensures HasKeyCell(ws, columns, headers, line)
    {
      var k := LastOfHeader(headers, h);
      assert IsCell(ws, line, columns[k], row[h]);
    }
    if HasKeyCell(ws, columns, headers, line) {
      var k: nat, cell :| LastHeader(headers, k)
        && (headers[k] == "Name" || headers[k] == "MAC Address" || headers[k] == "mac")
        && IsCell(ws, line, columns[k], cell) && cell != "";
      CellExactly(ws, line, columns[k], cell);
      CellExactly(ws, line, columns[k], row[headers[k]]);
      assert headers[k] in headers;
      assert Filled(row, headers[k]);
    }
  }

  /** What one line adds to the rows. */
  ghost function RowsAdded(ws: Spaces, columns: seq<(nat, nat)>, headers: seq<string>,
                           line: string): (added: seq<map<string, string>>)
    requires Ordered(columns) && |headers| == |columns|
  {
    if !Skipped(ws, line) && HasKey(RowOf(ws, columns, headers, line)) then [RowOf(ws, columns, headers, line)] else []
  }

  ghost function Rows(ws: Spaces, columns: seq<(nat, nat)>, headers: seq<string>,
                      lines: seq<string>): (rows: seq<map<string, string>>)
    requires Ordered(columns) && |headers| == |columns|
  {
    if lines == [] then []
    else Rows(ws, columns, headers, lines[..|lines| - 1]) + RowsAdded(ws, columns, headers, lines[|lines| - 1])
  }

  /** This line makes a row: it is not skipped and has a key. */
  ghost predicate MakesRow(ws: Spaces, columns: seq<(nat, nat)>, headers: seq<string>, line: string) {
    !SkippedLine(ws, line) && HasKeyCell(ws, columns, headers, line)
  }

  /** The lines that make a row, by number. */
  ghost function RowLines(ws: Spaces, columns: seq<(nat, nat)>, headers: seq<string>,
                          lines: seq<string>): (at: seq<nat>) {
    if lines == [] then []
    else
      var n := |lines| - 1;
      RowLines(ws, columns, headers, lines[..n]) + if MakesRow(ws, columns, headers, lines[n]) then [n] else []
  }

  lemma {:induction false} RowLinesMembers(ws: Spaces, columns: seq<(nat, nat)>, headers: seq<string>,
                                           lines: seq<string>)
    ensures var at := RowLines(ws, columns, headers, lines);
            && (forall i: nat :: i in at <==> i < |lines| && MakesRow(ws, columns, headers, lines[i]))
            && (forall k :: 0 <= k < |at| ==> at[k] < |lines|)
            && forall j, k :: 0 <= j < k < |at| ==> at[j] < at[k]
  {
    if lines != [] {
      var n := |lines| - 1;
      RowLinesMembers(ws, columns, headers, lines[..n]);
      assert forall i :: 0 <= i < n ==> lines[..n][i] == lines[i];
    }
  }

  /** The rows are those of the lines that make one, in order. */
  ghost predicate AreRows(ws: Spaces, columns: seq<(nat, nat)>, headers: seq<string>, lines: seq<string>,
                          rows: seq<map<string, string>>) {
    var at := RowLines(ws, columns, headers, lines);
    && |rows| == |at|
    && forall k :: 0 <= k < |at| ==> at[k] < |lines| && IsRow(ws, columns, headers, lines[at[k]], rows[k])
  }

  /** What one line adds is its row, if it makes one. */
  lemma AddedExactly(ws: Spaces, columns: seq<(nat, nat)>, headers: seq<string>, line: string)
    requires Ordered(columns) && |headers| == |columns|
    ensures var added := RowsAdded(ws, columns, headers, line);
            if MakesRow(ws, columns, headers, line) then |added| == 1 && IsRow(ws, columns, headers, line, added[0])
            else added == []
  {
    SkippedExactly(ws, line);
    KeyExactly(ws, columns, headers, line);
    RowExactly(ws, columns, headers, line);
  }

  lemma AreRowsNext(ws: Spaces, columns: seq<(nat, nat)>, headers: seq<string>, lines: seq<string>,
                    rows: seq<map<string, string>>, added: seq<map<string, string>>)
    requires lines != [] && AreRows(ws, columns, headers, lines[..|lines| - 1], rows)
    requires var line := lines[|lines| - 1];
             if MakesRow(ws, columns, headers, line) then |added| == 1 && IsRow(ws, columns, headers, line, added[0])
             else added == []
    ensures AreRows(ws, columns, headers, lines, rows + added)
  {
    var n := |lines| - 1;
    var before, at := RowLines(ws, columns, headers, lines[..n]), RowLines(ws, columns, headers, lines);
    forall k | 0 <= k < |at| ensures at[k] < |lines| && IsRow(ws, columns, headers, lines[at[k]], (rows + added)[k]) {
      if k < |before| {
        assert lines[..n][before[k]] == lines[before[k]];
      }
    }
  }

  lemma {:induction false} RowsExactly(ws: Spaces, columns: seq<(nat, nat)>, headers: seq<string>, lines: seq<string>)
    requires Ordered(columns) && |headers| == |columns|
    ensures AreRows(ws, columns, headers, lines, Rows(ws, columns, headers, lines))
  {
    if lines != [] {
      var n := |lines| - 1;
      RowsExactly(ws, columns, headers, lines[..n]);
      AddedExactly(ws, columns, headers, lines[n]);
      AreRowsNext(ws, columns, headers, lines, Rows(ws, columns, headers, lines[..n]),
        RowsAdded(ws, columns, headers, lines[n]));
    }
  }

  ghost function Headers(ws: Spaces, columns: seq<(nat, nat)>, headerLine: string): (headers: seq<string>)
    requires Ordered(columns)
  {
    seq(|columns|, k requires 0 <= k < |columns| => Strip(ws, Slice(headerLine, columns[k].0, columns[k].1)))
  }

  /** sep is the first line that looks like a rule, or the number of lines. */
  ghost predicate IsFirstSeparator(ws: Spaces, lines: seq<string>, sep: nat) {
    && sep <= |lines| && (sep < |lines| ==> LooksLikeRule(ws, lines[sep]))
    && forall i :: 0 <= i < sep ==> !LooksLikeRule(ws, lines[i])
  }

  /** The rows read below the rule at sep, with the line above it as header. */
  ghost function Parsed(ws: Spaces, lines: seq<string>, sep: nat): (rows: seq<map<string, string>>)
    requires sep <= |lines|
  {
    if sep == |lines| then []
    else
      var columns := Columns(DashStarts(lines[sep]), |lines[sep]|);
      ColumnsTile(lines[sep]);
      Rows(ws, columns, Headers(ws, columns, if sep > 0 then lines[sep - 1] else ""), lines[sep + 1..])
  }

  ghost predicate StartsColumn(columns: seq<(nat, nat)>, i: nat) {
    exists k :: 0 <= k < |columns| && columns[k].0 == i
  }

  /** One column for each run of dashes, from its start to the next one's. */
  ghost predicate AreColumns(rule: string, columns: seq<(nat, nat)>) {
    && Tiles(columns, |rule|)
    && forall i: nat :: BeginsRun(rule, i) <==> StartsColumn(columns, i)
  }

  ghost predicate AreHeaders(ws: Spaces, columns: seq<(nat, nat)>, line: string, headers: seq<string>) {
    |headers| == |columns| && forall k :: 0 <= k < |columns| ==> IsCell(ws, line, columns[k], headers[k])
  }

  /** The rule gives the columns, the line above it the headers, the lines below it the rows. */
  ghost predicate IsTable(ws: Spaces, headerLine: string, rule: string, body: seq<string>, columns: seq<(nat, nat)>,
                          headers: seq<string>, rows: seq<map<string, string>>) {
    AreColumns(rule, columns) && AreHeaders(ws, columns, headerLine, headers)
      && AreRows(ws, columns, headers, body, rows)
  }

  ghost predicate HasTable(ws: Spaces, headerLine: string, rule: string, body: seq<string>,
                           rows: seq<map<string, string>>) {
    exists columns, headers :: IsTable(ws, headerLine, rule, body, columns, headers, rows)
  }

  /** What the text says: the first line that looks like a rule, with the line above it and the lines below it. */
  ghost predicate IsReading(ws: Spaces, lines: seq<string>, sep: nat, rows: seq<map<string, string>>) {
    && IsFirstSeparator(ws, lines, sep)
    && if sep == |lines| then rows == []
       else HasTable(ws, if sep > 0 then lines[sep - 1] else "", lines[sep], lines[sep + 1..], rows)
  }

  lemma ColumnsExactly(rule: string)
    ensures AreColumns(rule, Columns(DashStarts(rule), |rule|))
  {
    var starts, columns := DashStarts(rule), Columns(DashStarts(rule), |rule|);
    ColumnsTile(rule);
    DashStartsMembers(rule);
    forall i: nat ensures BeginsRun(rule, i) <==> StartsColumn(columns, i) {
      if BeginsRun(rule, i) {
        var k :| 0 <= k < |starts| && starts[k] == i;
        assert columns[k].0 == i;
      }
      if k :| 0 <= k < |columns| && columns[k].0 == i {
        assert starts[k] in starts;
      }
    }
  }

  lemma HeadersExactly(ws: Spaces, columns: seq<(nat, nat)>, line: string)
    requires Ordered(columns)
    ensures AreHeaders(ws, columns, line, Headers(ws, columns, line))
  {
    forall k | 0 <= k < |columns| ensures IsCell(ws, line, columns[k], Headers(ws, columns, line)[k]) {
      CellExactly(ws, line, columns[k], Headers(ws, columns, line)[k]);
    }
  }

  lemma ParsedExactly(ws: Spaces, lines: seq<string>, sep: nat)
    requires IsFirstSeparator(ws, lines, sep)
    ensures IsReading(ws, lines, sep, Parsed(ws, lines, sep))
  {
    if sep < |lines| {
      var columns := Columns(DashStarts(lines[sep]), |lines[sep]|);
      var line := if sep > 0 then lines[sep - 1] else "";
      ColumnsTile(lines[sep]);
      ColumnsExactly(lines[sep]);
      HeadersExactly(ws, columns, line);
      RowsExactly(ws, columns, Headers(ws, columns, line), lines[sep + 1..]);
      assert IsTable(ws, line, lines[sep], lines[sep + 1..], columns, Headers(ws, columns, line),
        Parsed(ws, lines, sep));
    }
  }

  // ----- the parser

  method FindColumns(sepLine: string) returns (columns: seq<(nat, nat)>)
    ensures columns == Columns(DashStarts(sepLine), |sepLine|)
  {
    var colStarts: seq<nat> := [];
    var inDash := false;
    for i := 0 to |sepLine|
      invariant colStarts == DashStarts(sepLine[..i])
      invariant inDash <==> i > 0 && sepLine[i - 1] == '-'
    {
      assert sepLine[..i + 1][..i] == sepLine[..i];
      if sepLine[i] == '-' {
        if !inDash {
          colStarts := colStarts + [i];
          inDash := true;
        }
      } else {
        inDash := false;
      }
    }
    assert sepLine[..|sepLine|] == sepLine;
    columns := [];
    for idx := 0 to |colStarts|
      invariant |columns| == idx
      invariant forall k :: 0 <= k < idx ==>
          columns[k] == (colStarts[k], if k + 1 < |colStarts| then colStarts[k + 1] else |sepLine|)
    {
      var end := if idx + 1 < |colStarts| then colStarts[idx + 1] else |sepLine|;
      columns := columns + [(colStarts[idx], end)];
    }
  }

  method ReadRow(ws: Spaces, columns: seq<(nat, nat)>, headers: seq<string>, line: string)
    returns (row: map<string, string>)
    requires Ordered(columns) && |headers| == |columns|
    ensures row == RowOf(ws, columns, headers, line)
  {
    row := map[];
    for k := 0 to |columns|
      invariant row == RowOf(ws, columns[..k], headers[..k], line)
    {
      assert columns[..k + 1][..k] == columns[..k] && headers[..k + 1][..k] == headers[..k];
      row := row[headers[k] := Cell(ws, line, columns[k])];
    }
    assert columns[..|columns|] == columns && headers[..|columns|] == headers;
  }

  method ReadHeaders(ws: Spaces, columns: seq<(nat, nat)>, headerLine: string) returns (headers: seq<string>)
    requires Ordered(columns)
    ensures headers == Headers(ws, columns, headerLine)
  {
    headers := [];
    for k := 0 to |columns|
      invariant |headers| == k
      invariant forall j :: 0 <= j < k ==> headers[j] == Strip(ws, Slice(headerLine, columns[j].0, columns[j].1))
    {
      headers := headers + [Strip(ws, Slice(headerLine, columns[k].0, columns[k].1))];
    }
  }

  method ReadRows(ws: Spaces, columns: seq<(nat, nat)>, headers: seq<string>, body: seq<string>)
    returns (rows: seq<map<string, string>>)
    requires Ordered(columns) && |headers| == |columns|
    ensures rows == Rows(ws, columns, headers, body)
  {
    rows := [];
    for i := 0 to |body|
      invariant rows == Rows(ws, columns, headers, body[..i])
    {
      assert body[..i + 1][..i] == body[..i];
      var line := body[i];
      if Strip(ws, line) == "" {
        continue;
      }
      if "---" <= line || Contains(line, "Access Points") {
        continue;
      }
      var row := ReadRow(ws, columns, headers, line);
      if HasKey(row) {
        rows := rows + [row];
      }
    }
    assert body[..|body|] == body;
  }

  /** The lines are those of the stripped text. */
  method ParseTable(ws: Spaces, lines: seq<string>) returns (rows: seq<map<string, string>>, sep: nat)
    ensures IsFirstSeparator(ws, lines, sep) && rows == Parsed(ws, lines, sep)
    ensures IsReading(ws, lines, sep, rows)
  {
    sep := FindRule(ws, lines);
    ParsedExactly(ws, lines, sep);
    if sep == |lines| {
      return [], sep;
    }
    var columns := FindColumns(lines[sep]);
    ColumnsTile(lines[sep]);
    var headers := ReadHeaders(ws, columns, if sep > 0 then lines[sep - 1] else "");
    rows := ReadRows(ws, columns, headers, lines[sep + 1..]);
  }

  method FindRule(ws: Spaces, lines: seq<string>) returns (sep: nat)
    ensures IsFirstSeparator(ws, lines, sep)
  {
    sep := 0;
    while sep < |lines| && !IsSeparator(ws, lines[sep])
      invariant sep <= |lines| && forall i :: 0 <= i < sep ==> !LooksLikeRule(ws, lines[i])
    {
      SeparatorExactly(ws, lines[sep]);
      sep := sep + 1;
    }
    if sep < |lines| { SeparatorExactly(ws, lines[sep]); }
  }
}
