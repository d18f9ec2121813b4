/** Tables laid out under a rule of dashes are read back as they were laid out. */
module CliLayout {
  import opened CliTable
  import opened Collections
  import opened Strings

  /** A column of the rule: its dashes and the spaces behind them. */
  datatype Col = Col(dashes: nat, gap: nat)

  function Width(c: Col): (width: nat) {
    c.dashes + c.gap
  }

  /** Every column has a dash, and a space separates it from the next one. */
  ghost predicate Separated(cols: seq<Col>) {
    && (forall k :: 0 <= k < |cols| ==> cols[k].dashes > 0)
    && (forall k :: 0 <= k < |cols| - 1 ==> cols[k].gap > 0)
  }

  ghost function Rule(indent: nat, cols: seq<Col>): (line: string) {
    if cols == [] then Repeat(' ', indent)
    else
      var c := cols[|cols| - 1];
      Rule(indent, cols[..|cols| - 1]) + Repeat('-', c.dashes) + Repeat(' ', c.gap)
  }

  /** Trimmed cells, each starting where its column starts and fitting in it. */
  ghost predicate Fits(ws: Spaces, cols: seq<Col>, cells: seq<string>) {
    |cells| == |cols| && forall k :: 0 <= k < |cols| ==> Trimmed(ws, cells[k]) && |cells[k]| <= Width(cols[k])
  }

  ghost function Line(indent: nat, cols: seq<Col>, cells: seq<string>): (line: string)
    requires |cells| == |cols| && forall k :: 0 <= k < |cols| ==> |cells[k]| <= Width(cols[k])
  {
    if cols == [] then Repeat(' ', indent)
    else
      var n := |cols| - 1;
      Line(indent, cols[..n], cells[..n]) + (cells[n] + Repeat(' ', Width(cols[n]) - |cells[n]|))
  }

  /** The line as laid out, possibly without some of its trailing spaces. */
  ghost predicate Laid(ws: Spaces, indent: nat, cols: seq<Col>, cells: seq<string>, line: string) {
    && Fits(ws, cols, cells)
    && line <= Line(indent, cols, cells)
    && forall i :: |line| <= i < |Line(indent, cols, cells)| ==> Line(indent, cols, cells)[i] == ' '
  }

  // ----- the columns of a laid-out rule

  lemma {:induction false} AppendSpaces(p: string, n: nat)
    ensures DashStarts(p + Repeat(' ', n)) == DashStarts(p)
    decreases n
  {
    var line := p + Repeat(' ', n);
    if n == 0 {
      assert line == p;
    } else {
      assert line[..|line| - 1] == p + Repeat(' ', n - 1);
      AppendSpaces(p, n - 1);
    }
  }

  lemma {:induction false} AppendDashes(p: string, n: nat)
    requires n > 0 && (p != "" ==> p[|p| - 1] != '-')
    ensures DashStarts(p + Repeat('-', n)) == DashStarts(p) + [|p|]
    decreases n
  {
    var line := p + Repeat('-', n);
    assert line[..|line| - 1] == p + Repeat('-', n - 1);
    if n == 1 {
      assert p + Repeat('-', 0) == p;
    } else {
      AppendDashes(p, n - 1);
      assert line[|line| - 2] == '-';
    }
  }

  ghost function Offset(indent: nat, cols: seq<Col>, k: nat): (offset: nat)
    requires k <= |cols|
  {
    |Rule(indent, cols[..k])|
  }

  lemma RuleEnd(indent: nat, cols: seq<Col>)
    requires Separated(cols) && (cols != [] ==> cols[|cols| - 1].gap > 0)
    ensures var r := Rule(indent, cols); r != "" ==> r[|r| - 1] != '-'
  {
    if cols == [] {
      assert indent > 0 ==> Repeat(' ', indent)[indent - 1] == ' ';
    }
  }

  /** The offset of a column does not depend on the columns behind it. */
  lemma OffsetOfPrefix(indent: nat, cols: seq<Col>, k: nat)
    requires k < |cols|
    ensures Offset(indent, cols[..|cols| - 1], k) == Offset(indent, cols, k)
  {
    assert cols[..|cols| - 1][..k] == cols[..k];
  }

  /** The last column adds one start. */
  lemma StartsNext(indent: nat, cols: seq<Col>)
    requires Separated(cols) && cols != []
    ensures var p := Rule(indent, cols[..|cols| - 1]); DashStarts(Rule(indent, cols)) == DashStarts(p) + [|p|]
  {
    var rest, c := cols[..|cols| - 1], cols[|cols| - 1];
    var p := Rule(indent, rest);
    RuleEnd(indent, rest);
    AppendDashes(p, c.dashes);
    AppendSpaces(p + Repeat('-', c.dashes), c.gap);
  }

  /** The parser's columns are the columns of the layout. */
  lemma {:induction false} RuleStarts(indent: nat, cols: seq<Col>)
    requires Separated(cols)
    ensures var starts := DashStarts(Rule(indent, cols));
            |starts| == |cols| && forall k :: 0 <= k < |cols| ==> starts[k] == Offset(indent, cols, k)
  {
    if cols == [] {
      AppendSpaces("", indent);
      assert "" + Repeat(' ', indent) == Repeat(' ', indent);
    } else {
      RuleStarts(indent, cols[..|cols| - 1]);
      StartsNext(indent, cols);
      forall k: nat | k < |cols| ensures DashStarts(Rule(indent, cols))[k] == Offset(indent, cols, k) {
        OffsetOfPrefix(indent, cols, k);
      }
    }
  }

  lemma RuleColumns(indent: nat, cols: seq<Col>, k: nat)
    requires Separated(cols) && k < |cols|
    ensures var r := Rule(indent, cols);
            |Columns(DashStarts(r), |r|)| == |cols|
            && Columns(DashStarts(r), |r|)[k] == (Offset(indent, cols, k), Offset(indent, cols, k + 1))
  {
    RuleStarts(indent, cols);
    assert cols[..|cols|] == cols;
  }

  ghost function RuleColumnsOf(indent: nat, cols: seq<Col>): (columns: seq<(nat, nat)>) {
    Columns(DashStarts(Rule(indent, cols)), |Rule(indent, cols)|)
  }

  /** All of them: each column of the layout runs from its offset to the next one's. */
  lemma AllRuleColumns(indent: nat, cols: seq<Col>)
    requires Separated(cols)
    ensures |RuleColumnsOf(indent, cols)| == |cols| && Ordered(RuleColumnsOf(indent, cols))
    ensures forall k :: 0 <= k < |cols| ==>
              RuleColumnsOf(indent, cols)[k] == (Offset(indent, cols, k), Offset(indent, cols, k + 1))
  {
    RuleStarts(indent, cols);
    ColumnsTile(Rule(indent, cols));
    forall k | 0 <= k < |cols|
      ensures RuleColumnsOf(indent, cols)[k] == (Offset(indent, cols, k), Offset(indent, cols, k + 1))
    {
      RuleColumns(indent, cols, k);
    }
  }

  // ----- the cells of a laid-out line

  lemma {:induction false} LineLength(indent: nat, cols: seq<Col>, cells: seq<string>)
    requires |cells| == |cols| && forall k :: 0 <= k < |cols| ==> |cells[k]| <= Width(cols[k])
    ensures |Line(indent, cols, cells)| == |Rule(indent, cols)|
  {
    if cols != [] {
      LineLength(indent, cols[..|cols| - 1], cells[..|cols| - 1]);
    }
  }

  /** Characters a to b of the line are the cell and its padding. */
  ghost predicate CellAt(line: string, a: nat, b: nat, cell: string, width: nat) {
    |cell| <= width && a <= b <= |line| && line[a..b] == cell + Repeat(' ', width - |cell|)
  }

  lemma LineLengthIsOffset(indent: nat, cols: seq<Col>, cells: seq<string>)
    requires |cells| == |cols| && forall j :: 0 <= j < |cols| ==> |cells[j]| <= Width(cols[j])
    ensures |Line(indent, cols, cells)| == Offset(indent, cols, |cols|)
  {
    LineLength(indent, cols, cells);
    assert cols[..|cols|] == cols;
  }

  /** The last cell ends the line. */
  lemma LastCellAt(indent: nat, cols: seq<Col>, cells: seq<string>)
    requires |cells| == |cols| > 0 && forall j :: 0 <= j < |cols| ==> |cells[j]| <= Width(cols[j])
    ensures var n := |cols| - 1;
            CellAt(Line(indent, cols, cells), Offset(indent, cols, n), Offset(indent, cols, n + 1), cells[n],
              Width(cols[n]))
  {
    var n := |cols| - 1;
    LineLengthIsOffset(indent, cols, cells);
    LineLength(indent, cols[..n], cells[..n]);
    Joined(Line(indent, cols[..n], cells[..n]), cells[n] + Repeat(' ', Width(cols[n]) - |cells[n]|));
  }

  /** A longer line has the cells of a shorter one. */
  lemma CellKept(line: string, more: string, a: nat, b: nat, cell: string, width: nat)
    requires CellAt(line, a, b, cell, width)
    ensures CellAt(line + more, a, b, cell, width)
  {
    Joined(line, more);
  }

  /** Column k of the whole line is cell k and its padding. */
  lemma {:induction false} LineAt(indent: nat, cols: seq<Col>, cells: seq<string>, k: nat)
    requires |cells| == |cols| && forall j :: 0 <= j < |cols| ==> |cells[j]| <= Width(cols[j])
    requires k < |cols|
    ensures CellAt(Line(indent, cols, cells), Offset(indent, cols, k), Offset(indent, cols, k + 1), cells[k],
            Width(cols[k]))
  {
    var n := |cols| - 1;
    if k == n {
      LastCellAt(indent, cols, cells);
    } else {
      LineAt(indent, cols[..n], cells[..n], k);
      OffsetOfPrefix(indent, cols, k);
      OffsetOfPrefix(indent, cols, k + 1);
      CellKept(Line(indent, cols[..n], cells[..n]), cells[n] + Repeat(' ', Width(cols[n]) - |cells[n]|),
               Offset(indent, cols, k), Offset(indent, cols, k + 1), cells[k], Width(cols[k]));
    }
  }

  lemma Joined(x: string, y: string)
    ensures (x + y)[|x|..|x + y|] == y
    ensures forall a, b :: 0 <= a <= b <= |x| ==> (x + y)[a..b] == x[a..b]
  {
  }

  /** Leaving off trailing spaces of a padded cell leaves a padded cell. */
  lemma TruncatedCell(ws: Spaces, cell: string, n: nat, p: string, m: nat)
    requires ws(' ') && Trimmed(ws, cell) && p + Repeat(' ', m) == cell + Repeat(' ', n)
    ensures Strip(ws, p) == cell
  {
    var full := cell + Repeat(' ', n);
    assert |p| + m == |cell| + n;
    assert forall i :: |p| <= i < |full| ==> full[i] == (p + Repeat(' ', m))[i] == ' ';
    assert |cell| > 0 ==> full[|cell| - 1] == cell[|cell| - 1] != ' ';
    assert m <= n;
    assert p == cell + Repeat(' ', n - m) by {
      assert p == full[..|p|];
    }
    StripPadded(ws, cell, n - m);
  }

  /** Reading column k of a laid-out line gives cell k. */
  lemma CellRead(ws: Spaces, indent: nat, cols: seq<Col>, cells: seq<string>, line: string, k: nat)
    requires Usual(ws) && Laid(ws, indent, cols, cells, line) && k < |cols|
    ensures var a, b := Offset(indent, cols, k), Offset(indent, cols, k + 1);
            a <= b && Cell(ws, line, (a, b)) == cells[k] == Strip(ws, Slice(line, a, b))
  {
    LineAt(indent, cols, cells, k);
    var a, b, full := Offset(indent, cols, k), Offset(indent, cols, k + 1), Line(indent, cols, cells);
    var n := Width(cols[k]) - |cells[k]|;
    var m := SlicePadded(full, line, a, b);
    TruncatedCell(ws, cells[k], n, Slice(line, a, b), m);
    if |line| <= a { assert Strip(ws, "") == ""; }
  }

  /** Where trailing spaces are missing, a slice is short of spaces only. */
  lemma SlicePadded(full: string, line: string, a: nat, b: nat) returns (m: nat)
    requires line <= full && a <= b <= |full| && forall i :: |line| <= i < |full| ==> full[i] == ' '
    ensures Slice(line, a, b) + Repeat(' ', m) == full[a..b]
  {
    if |line| >= b {
      m := 0;
      assert Slice(line, a, b) == full[a..b];
    } else if |line| > a {
      m := b - |line|;
      assert full[a..b] == full[a..|line|] + full[|line|..b];
      assert full[|line|..b] == Repeat(' ', m);
      assert Slice(line, a, b) == full[a..|line|];
    } else {
      m := b - a;
      assert full[a..b] == Repeat(' ', m);
    }
  }

  // ----- whole tables

  /** The dictionary of a row of cells. */
  ghost function Dict(headers: seq<string>, cells: seq<string>): (row: map<string, string>)
    requires |headers| == |cells|
  {
    if headers == [] then map[]
    else
      var n := |headers| - 1;
      Dict(headers[..n], cells[..n])[headers[n] := cells[n]]
  }

  /** It maps each header to the cell of the last column of that header, and nothing else. */
  lemma {:induction false} DictLast(headers: seq<string>, cells: seq<string>)
    requires |headers| == |cells|
    ensures forall h :: h in Dict(headers, cells) <==> h in headers
    ensures forall k: nat :: LastHeader(headers, k) ==> Dict(headers, cells)[headers[k]] == cells[k]
  {
    if headers != [] {
      var n := |headers| - 1;
      DictLast(headers[..n], cells[..n]);
      assert headers == headers[..n] + [headers[n]];
      forall k: nat | LastHeader(headers, k) ensures Dict(headers, cells)[headers[k]] == cells[k] {
        if k < n { EarlierHeader(headers, k); }
      }
    }
  }

  /** With distinct headers it maps each header to its cell. */
  lemma DictAt(headers: seq<string>, cells: seq<string>)
    requires |headers| == |cells| && Distinct(headers)
    ensures forall h :: h in Dict(headers, cells) <==> h in headers
    ensures forall k :: 0 <= k < |headers| ==>
              headers[k] in Dict(headers, cells) && Dict(headers, cells)[headers[k]] == cells[k]
  {
    DictLast(headers, cells);
    forall k: nat | k < |headers| ensures LastHeader(headers, k) {
    }
  }

  /**
   Under the last column headed Name, MAC Address or mac, one of these at least, there is a cell that is not empty.
   */
  ghost predicate KeyGiven(headers: seq<string>, cells: seq<string>) {
    |headers| == |cells| && exists k: nat ::
      && LastHeader(headers, k) && (headers[k] == "Name" || headers[k] == "MAC Address" || headers[k] == "mac")
      && cells[k] != ""
  }

  lemma DictHasKey(headers: seq<string>, cells: seq<string>)
    requires |headers| == |cells|
    ensures HasKey(Dict(headers, cells)) <==> KeyGiven(headers, cells)
  {
    var row := Dict(headers, cells);
    DictLast(headers, cells);
    forall h | Filled(row, h) && (h == "Name" || h == "MAC Address" || h == "mac") ensures KeyGiven(headers, cells) {
      var k := LastOfHeader(headers, h);
    }
    if KeyGiven(headers, cells) {
      var k: nat :| LastHeader(headers, k)
        && (headers[k] == "Name" || headers[k] == "MAC Address" || headers[k] == "mac") && cells[k] != "";
      assert headers[k] in headers && Filled(row, headers[k]);
    }
  }

  lemma {:induction false} RowIsDict(ws: Spaces, columns: seq<(nat, nat)>, headers: seq<string>, cells: seq<string>,
                                     line: string)
    requires Ordered(columns) && |columns| == |headers| == |cells|
    requires forall k :: 0 <= k < |columns| ==> Cell(ws, line, columns[k]) == cells[k]
    ensures RowOf(ws, columns, headers, line) == Dict(headers, cells)
  {
    if columns != [] {
      var n := |columns| - 1;
      RowIsDict(ws, columns[..n], headers[..n], cells[..n], line);
    }
  }

  /** A body line is one to be skipped, or one with a row of cells laid out on it. */
  ghost predicate BodyLine(ws: Spaces, indent: nat, cols: seq<Col>, headers: seq<string>, cells: Option<seq<string>>,
                           line: string) {
    match cells
    case None => SkippedLine(ws, line)
    case Some(row) => !SkippedLine(ws, line) && Laid(ws, indent, cols, row, line) && |headers| == |row|
  }

  ghost predicate Body(ws: Spaces, indent: nat, cols: seq<Col>, headers: seq<string>, table: seq<Option<seq<string>>>,
                       lines: seq<string>) {
    |table| == |lines| && forall i {:trigger BodyLine(ws, indent, cols, headers, table[i], lines[i])} ::
      0 <= i < |lines| ==> BodyLine(ws, indent, cols, headers, table[i], lines[i])
  }

  ghost function DictsAdded(headers: seq<string>, cells: Option<seq<string>>): (added: seq<map<string, string>>) {
    if cells.Some? && KeyGiven(headers, cells.value) then [Dict(headers, cells.value)] else []
  }

  /** The rows of the table that have a key, as dictionaries, in order. */
  ghost function Dicts(headers: seq<string>, table: seq<Option<seq<string>>>): (rows: seq<map<string, string>>) {
    if table == [] then [] else Dicts(headers, table[..|table| - 1]) + DictsAdded(headers, table[|table| - 1])
  }

  lemma LineIsDict(ws: Spaces, indent: nat, cols: seq<Col>, headers: seq<string>, row: seq<string>, line: string)
    requires Usual(ws) && Separated(cols) && |headers| == |cols| && Laid(ws, indent, cols, row, line)
    ensures |RuleColumnsOf(indent, cols)| == |cols| && Ordered(RuleColumnsOf(indent, cols))
    ensures RowOf(ws, RuleColumnsOf(indent, cols), headers, line) == Dict(headers, row)
  {
    AllRuleColumns(indent, cols);
    var columns := RuleColumnsOf(indent, cols);
    forall k | 0 <= k < |columns| ensures Cell(ws, line, columns[k]) == row[k] {
      CellRead(ws, indent, cols, row, line, k);
    }
    RowIsDict(ws, columns, headers, row, line);
  }

  /** A body without its last line is a body. */
  lemma BodyPrefix(ws: Spaces, indent: nat, cols: seq<Col>, headers: seq<string>, table: seq<Option<seq<string>>>,
                   lines: seq<string>)
    requires lines != [] && Body(ws, indent, cols, headers, table, lines)
    ensures var n := |lines| - 1;
            Body(ws, indent, cols, headers, table[..n], lines[..n])
              && BodyLine(ws, indent, cols, headers, table[n], lines[n])
  {
    var n := |lines| - 1;
    forall i | 0 <= i < n ensures BodyLine(ws, indent, cols, headers, table[..n][i], lines[..n][i]) {
      assert BodyLine(ws, indent, cols, headers, table[i], lines[i]);
    }
  }

  /** The last line adds to the rows what its cells add to the dictionaries. */
  lemma LastLineRead(ws: Spaces, indent: nat, cols: seq<Col>, headers: seq<string>, cells: Option<seq<string>>,
                     line: string)
    requires Usual(ws) && Separated(cols) && |headers| == |cols| && BodyLine(ws, indent, cols, headers, cells, line)
    ensures |RuleColumnsOf(indent, cols)| == |cols| && Ordered(RuleColumnsOf(indent, cols))
    ensures RowsAdded(ws, RuleColumnsOf(indent, cols), headers, line) == DictsAdded(headers, cells)
  {
    AllRuleColumns(indent, cols);
    SkippedExactly(ws, line);
    if cells.Some? {
      LineIsDict(ws, indent, cols, headers, cells.value, line);
      DictHasKey(headers, cells.value);
    }
  }

  lemma {:induction false} BodyRead(ws: Spaces, indent: nat, cols: seq<Col>, headers: seq<string>,
                                    table: seq<Option<seq<string>>>, lines: seq<string>)
    requires Usual(ws) && Separated(cols) && |headers| == |cols| && Body(ws, indent, cols, headers, table, lines)
    ensures |RuleColumnsOf(indent, cols)| == |cols| && Ordered(RuleColumnsOf(indent, cols))
    ensures Rows(ws, RuleColumnsOf(indent, cols), headers, lines) == Dicts(headers, table)
    decreases |lines|
  {
    AllRuleColumns(indent, cols);
    if lines != [] {
      var n := |lines| - 1;
      BodyPrefix(ws, indent, cols, headers, table, lines);
      LastLineRead(ws, indent, cols, headers, table[n], lines[n]);
      BodyRead(ws, indent, cols, headers, table[..n], lines[..n]);
    }
  }

  lemma HeadersRead(ws: Spaces, indent: nat, cols: seq<Col>, headers: seq<string>, line: string)
    requires Usual(ws) && Separated(cols) && Laid(ws, indent, cols, headers, line)
    ensures Ordered(RuleColumnsOf(indent, cols)) && Headers(ws, RuleColumnsOf(indent, cols), line) == headers
  {
    AllRuleColumns(indent, cols);
    var columns := RuleColumnsOf(indent, cols);
    forall k | 0 <= k < |columns| ensures Headers(ws, columns, line)[k] == headers[k] {
      CellRead(ws, indent, cols, headers, line, k);
    }
  }

  /** The rule is recognised when it has a space in it. */
  lemma {:induction false} RuleIsSeparator(ws: Spaces, indent: nat, cols: seq<Col>)
    requires Usual(ws) && Separated(cols) && cols != [] && ' ' in Rule(indent, cols)
    ensures LooksLikeRule(ws, Rule(indent, cols))
  {
    var r := Rule(indent, cols);
    SeparatorExactly(ws, r);
    RuleCharacters(indent, cols);
    RuleStarts(indent, cols);
    DashStartsMembers(r);
    assert DashStarts(r)[0] in DashStarts(r);
    assert BeginsRun(r, DashStarts(r)[0]);
    NotBlank(ws, r, DashStarts(r)[0]);
  }

  lemma {:induction false} RuleCharacters(indent: nat, cols: seq<Col>)
    ensures OnlyDashes(Rule(indent, cols))
  {
    if cols != [] {
      RuleCharacters(indent, cols[..|cols| - 1]);
    }
  }

  lemma {:induction false} NotBlank(ws: Spaces, s: string, i: nat)
    requires i < |s| && !ws(s[i])
    ensures Strip(ws, s) != ""
    decreases |s|
  {
    if ws(s[0]) {
      assert s[1..][i - 1] == s[i];
      NotBlank(ws, s[1..], i - 1);
    } else {
      NotBlankRight(ws, s, 0);
    }
  }

  lemma {:induction false} NotBlankRight(ws: Spaces, s: string, i: nat)
    requires i < |s| && !ws(s[i])
    ensures StripRight(ws, s) != ""
    decreases |s|
  {
    if ws(s[|s| - 1]) {
      NotBlankRight(ws, s[..|s| - 1], i);
    }
  }

  /**
   Any table laid out under a rule, below lines that do not look like a rule, is read back row by row: the rows that
   have a name or an address are returned, in order; lines to be skipped may stand between them.
   */
  lemma LaidOutTableIsRead(ws: Spaces, above: seq<string>, indent: nat, cols: seq<Col>, headers: seq<string>,
                           headerLine: string, table: seq<Option<seq<string>>>, body: seq<string>)
    requires Usual(ws) && Separated(cols) && cols != [] && ' ' in Rule(indent, cols)
    requires Laid(ws, indent, cols, headers, headerLine) && Body(ws, indent, cols, headers, table, body)
    requires !LooksLikeRule(ws, headerLine) && forall i :: 0 <= i < |above| ==> !LooksLikeRule(ws, above[i])
    ensures var lines := above + [headerLine, Rule(indent, cols)] + body;
            && IsFirstSeparator(ws, lines, |above| + 1)
            && Parsed(ws, lines, |above| + 1) == Dicts(headers, table)
  {
    var lines, sep := above + [headerLine, Rule(indent, cols)] + body, |above| + 1;
    assert lines[sep] == Rule(indent, cols) && lines[sep - 1] == headerLine && lines[sep + 1..] == body;
    RuleIsSeparator(ws, indent, cols);
    HeadersRead(ws, indent, cols, headers, headerLine);
    BodyRead(ws, indent, cols, headers, table, body);
  }
}
