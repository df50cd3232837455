/**
 * UrlDocumentReader: turns a fetched page into one Document. Clinical-trial
 * report pages are read section by section from their report tables; any
 * other page is read from its main region (tables, definition lists,
 * headings with the siblings that follow them), falling back to the
 * region's whole text when that yields under 100 UTF-16 units.
 */
module Reader {
  import opened Wrappers
  import opened JString
  import opened Regex
  import opened Page
  import opened Documents

  // ---------------------------------------------------------------------------
  // The selectors the reader uses.

  predicate IsReportTable(e: Element) { TagWithClass(e, "table", "ctReportTable") }
  predicate IsSubHeading(e: Element) { TagWithClass(e, "h3", "ctSubHeading") }
  predicate IsBriefTitle(e: Element) { TagWithClass(e, "h2", "brief-title") }
  predicate IsSectionDiv(e: Element) { TagWithClass(e, "div", "dynamic-heading") }
  predicate IsLinkTypeHeading(e: Element) { TagWithClass(e, "h5", "link-type-heading") }
  predicate IsSidenav(e: Element) { HasClass(e, "sidenav") }
  predicate IsRow(e: Element) { e.tag == "tr" }
  predicate IsTd(e: Element) { e.tag == "td" }
  predicate IsCell(e: Element) { e.tag == "td" || e.tag == "th" }
  predicate IsListItem(e: Element) { e.tag == "li" }

  /** "script, style, iframe, noscript, nav, footer, .navbar, #messageVue, .chat-popup" */
  predicate IsJunk(e: Element) {
    e.tag == "script" || e.tag == "style" || e.tag == "iframe" || e.tag == "noscript" ||
    e.tag == "nav" || e.tag == "footer" || HasClass(e, "navbar") || e.id == "messageVue" ||
    HasClass(e, "chat-popup")
  }

  /** "#main, .main, .content, main, article, .container" */
  predicate IsMainRegion(e: Element) {
    e.id == "main" || HasClass(e, "main") || HasClass(e, "content") ||
    e.tag == "main" || e.tag == "article" || HasClass(e, "container")
  }

  // ---------------------------------------------------------------------------
  // Page classification.

  predicate IsClinicalTrialPage(root: Element, url: string) {
    |Select(root, IsReportTable)| > 0 ||
    |Select(root, IsSubHeading)| > 0 ||
    |Select(root, IsBriefTitle)| > 0 ||
    Contains(url, "/clinicalTrials/report/") ||
    Contains(url, "/report/clinicalTrials/")
  }

  /** A page is read as a clinical-trial report exactly when it holds a
      report table, a report sub-heading or a brief-title heading anywhere,
      or its URL names a report path. */
  lemma ClinicalTrialPageIff(root: Element, url: string)
    ensures IsClinicalTrialPage(root, url) <==>
      (exists i :: 0 <= i < |Descendants(root)| &&
         (IsReportTable(Descendants(root)[i]) || IsSubHeading(Descendants(root)[i]) || IsBriefTitle(Descendants(root)[i])))
      || Contains(url, "/clinicalTrials/report/")
      || Contains(url, "/report/clinicalTrials/")
  {
    SelectFindsAny(root, IsReportTable);
    SelectFindsAny(root, IsSubHeading);
    SelectFindsAny(root, IsBriefTitle);
  }

  // ---------------------------------------------------------------------------
  // Parenthesised groups: `\(.*?\)`, `\(View at.*?\)`, `\(Click here for.*?\)`.

  /** Index of the first ')' or line terminator (`.` stops at both), or |s|. */
  function GroupEnd(s: string): (k: nat)
    ensures k <= |s| && forall i :: 0 <= i < k ==> s[i] != ')' && !IsLineTerminator(s[i])
    ensures k < |s| ==> s[k] == ')' || IsLineTerminator(s[k])
  {
    if s == [] || s[0] == ')' || IsLineTerminator(s[0]) then 0 else 1 + GroupEnd(s[1..])
  }

  /** `open` (a literal starting with '('), the shortest run of non-terminators,
      then ')': the lazy `.*?` stops at the first ')'. */
  function MatchGroup(s: string, open: string): (m: Match)
    requires open != []
    ensures m.Matched? ==> m.replacement == [] && 0 < m.len <= |s|
  {
    if StartsWith(s, open) then
      var k := GroupEnd(s[|open|..]);
      if |open| + k < |s| && s[|open| + k] == ')' then Matched(|open| + k + 1, "") else NoMatch
    else NoMatch
  }

  function MatchParens(s: string): Match { MatchGroup(s, "(") }
  function MatchViewAt(s: string): Match { MatchGroup(s, "(View at") }
  function MatchClickHere(s: string): Match { MatchGroup(s, "(Click here for") }

  /** A deleting pass adds no line break. */
  lemma DeletingKeepsNoBreak(s: string, m: string -> Match)
    requires forall i :: 0 <= i < |s| ==> !IsLineBreak(s[i])
    requires OnlyDeletes(s, m)
    ensures forall i :: 0 <= i < |ReplaceAll(s, m)| ==> !IsLineBreak(ReplaceAll(s, m)[i])
  {
    ReplaceDeletes(s, m);
    var r := ReplaceAll(s, m);
    forall i | 0 <= i < |r| ensures !IsLineBreak(r[i]) {
      assert r[i] in r;
      assert r[i] in s;
    }
  }

  /** A group `(...)` with no ')' and no line terminator inside is removed. */
  lemma GroupRemoved(x: string, rest: string)
    requires forall i :: 0 <= i < |x| ==> x[i] != ')' && !IsLineTerminator(x[i])
    ensures ReplaceAll("(" + x + ")" + rest, MatchParens) == ReplaceAll(rest, MatchParens)
  {
    var s := "(" + x + ")" + rest;
    assert s[1..] == x + ")" + rest;
    assert GroupEnd(s[1..]) == |x| by { GroupEndOf(x, ")" + rest); assert s[1..] == x + (")" + rest); }
    assert MatchParens(s) == Matched(|x| + 2, "");
    ReplaceAtMatch(s, MatchParens);
    assert s[|x| + 2..] == rest;
  }

  lemma {:induction false} GroupEndOf(x: string, t: string)
    requires forall i :: 0 <= i < |x| ==> x[i] != ')' && !IsLineTerminator(x[i])
    requires t != [] && t[0] == ')'
    ensures GroupEnd(x + t) == |x|
  {
    if x != [] {
      assert (x + t)[1..] == x[1..] + t;
      GroupEndOf(x[1..], t);
    } else {
      assert x + t == t;
    }
  }

  // ---------------------------------------------------------------------------
  // extractNCTID

  /** "table.ctReportTable tr" */
  function ReportRows(root: Element): seq<Located> {
    SelectBelow(root, IsReportTable, IsRow)
  }

  /** A row with two or more `td` whose first cell reads "NCTID" in any case. */
  predicate IsNctRow(row: Element) {
    var cells := Select(row, IsTd);
    |cells| >= 2 && EqualsIgnoreCase(Trim(Text(cells[0].elem)), "NCTID")
  }

  /** The second cell's text with every `(...)` group removed, trimmed; read
      only from NCTID rows. */
  function NctValue(row: Element): string {
    var cells := Select(row, IsTd);
    if |cells| >= 2 then Trim(ReplaceAll(Text(cells[1].elem), MatchParens)) else ""
  }

  /** `value` of the first row `p` accepts, if any. */
  function FirstMatch(rows: seq<Located>, p: Element -> bool, value: Element -> string): Option<string> {
    if rows == [] then None
    else if p(rows[0].elem) then Some(value(rows[0].elem))
    else FirstMatch(rows[1..], p, value)
  }

  /** None exactly when `p` accepts no row; otherwise the value of the first
      row it accepts, rows after that one being ignored. */
  lemma {:induction false} FirstMatchIsFirst(rows: seq<Located>, p: Element -> bool, value: Element -> string)
    ensures FirstMatch(rows, p, value).None? <==> forall i :: 0 <= i < |rows| ==> !p(rows[i].elem)
    ensures FirstMatch(rows, p, value).Some? ==>
      exists i :: 0 <= i < |rows| && p(rows[i].elem) && FirstMatch(rows, p, value).value == value(rows[i].elem) &&
                  forall j :: 0 <= j < i ==> !p(rows[j].elem)
  {
    if rows != [] && !p(rows[0].elem) {
      var tail := rows[1..];
      FirstMatchIsFirst(tail, p, value);
      assert FirstMatch(rows, p, value) == FirstMatch(tail, p, value);
      if FirstMatch(tail, p, value).Some? {
        var i :| 0 <= i < |tail| && p(tail[i].elem) && FirstMatch(tail, p, value).value == value(tail[i].elem) &&
                 forall j :: 0 <= j < i ==> !p(tail[j].elem);
        forall j | 0 <= j < i + 1 ensures !p(rows[j].elem) {
          if j > 0 { assert rows[j] == tail[j - 1]; }
        }
        assert rows[i + 1] == tail[i];
      } else {
        forall i | 0 <= i < |rows| ensures !p(rows[i].elem) {
          if i > 0 { assert rows[i] == tail[i - 1]; }
        }
      }
    }
  }

  /** One step of the search: a hit at `n` ends it, a miss moves on. */
  lemma FirstMatchStep(rows: seq<Located>, n: int, p: Element -> bool, value: Element -> string, found: Option<string>)
    requires 0 <= n < |rows|
    requires found == if p(rows[n].elem) then Some(value(rows[n].elem)) else None
    ensures found.Some? ==> FirstMatch(rows[n..], p, value) == found
    ensures found.None? ==> FirstMatch(rows[n..], p, value) == FirstMatch(rows[n + 1..], p, value)
  {
    assert rows[n..][1..] == rows[n + 1..];
  }

  /** The NCTID of a report: the first NCTID row's value. */
  function FirstNctId(rows: seq<Located>): Option<string> {
    FirstMatch(rows, IsNctRow, NctValue)
  }

  method ExtractNCTID(root: Element) returns (r: Option<string>)
    ensures r == FirstNctId(ReportRows(root))
  {
    var rows := ReportRows(root);
    r := FindNctId(rows);
  }

  /** The loop over the report rows: it returns at the first NCTID row. */
  method FindNctId(rows: seq<Located>) returns (r: Option<string>)
    ensures r == FirstNctId(rows)
  {
    var n := 0;
    assert rows[n..] == rows;
    while n < |rows|
      invariant 0 <= n <= |rows|
      invariant FirstMatch(rows[n..], IsNctRow, NctValue) == FirstMatch(rows, IsNctRow, NctValue)
    {
      var found := ReadNctRow(rows[n].elem);
      FirstMatchStep(rows, n, IsNctRow, NctValue, found);
      if found.Some? {
        return found;
      }
      n := n + 1;
    }
    return None;
  }

  /** The body of the row loop: the row's NCTID value when it is an NCTID row. */
  method ReadNctRow(row: Element) returns (r: Option<string>)
    ensures r == if IsNctRow(row) then Some(NctValue(row)) else None
  {
    r := None;
    var cells := Select(row, IsTd);
    if |cells| >= 2 {
      var labelText := Trim(Text(cells[0].elem));
      if EqualsIgnoreCase(labelText, "NCTID") {
        var value := Text(cells[1].elem);
        r := Some(Trim(ReplaceAll(value, MatchParens)));
      }
    }
  }

  // ---------------------------------------------------------------------------
  // extractTableData

  /** A value with "(View at ...)" and then "(Click here for ...)" removed. */
  function CleanValue(v: string): string {
    Trim(ReplaceAll(Trim(ReplaceAll(v, MatchViewAt)), MatchClickHere))
  }

  /** What one report-table row contributes: "label: value\n" when it has
      two or more `td` and a non-empty labelText, whatever the value. */
  function RowData(row: Element): string {
    var cells := Select(row, IsTd);
    if |cells| >= 2 then
      var labelText := Trim(Text(cells[0].elem));
      var value := CleanValue(Trim(Text(cells[1].elem)));
      if labelText != [] then labelText + ": " + value + "\n" else ""
    else ""
  }

  function TableData(rows: seq<Located>): string {
    if rows == [] then "" else RowData(rows[0].elem) + TableData(rows[1..])
  }

  lemma TableDataStep(rows: seq<Located>, n: int)
    requires 0 <= n < |rows|
    ensures TableData(rows[n..]) == RowData(rows[n].elem) + TableData(rows[n + 1..])
  {
    assert rows[n..][1..] == rows[n + 1..];
  }


  method ExtractTableData(table: Element) returns (tableContent: string)
    ensures tableContent == TableData(Select(table, IsRow))
  {
    var rows := Select(table, IsRow);
    tableContent := "";
    var n := 0;
    assert rows[n..] == rows;
    while n < |rows|
      invariant 0 <= n <= |rows|
      invariant tableContent + TableData(rows[n..]) == TableData(rows)
    {
      TableDataStep(rows, n);
      var line := ExtractRowData(rows[n].elem);
      ConcatAssoc(tableContent, line, TableData(rows[n + 1..]));
      tableContent := tableContent + line;
      n := n + 1;
    }
  }

  /** The body of the row loop: the line one row contributes, or "". */
  method ExtractRowData(row: Element) returns (line: string)
    ensures line == RowData(row)
  {
    line := "";
    var cells := Select(row, IsTd);
    if |cells| >= 2 {
      var labelText := Trim(Text(cells[0].elem));
      var value := Trim(Text(cells[1].elem));
      value := Trim(ReplaceAll(value, MatchViewAt));
      value := Trim(ReplaceAll(value, MatchClickHere));
      if labelText != [] {
        line := labelText + ": " + value + "\n";
      }
    }
  }

  /** A row that yields a line. */
  predicate IsDataRow(row: Element) {
    var cells := Select(row, IsTd);
    |cells| >= 2 && Trim(Text(cells[0].elem)) != []
  }

  function CountDataRows(rows: seq<Located>): nat {
    if rows == [] then 0 else (if IsDataRow(rows[0].elem) then 1 else 0) + CountDataRows(rows[1..])
  }

  lemma CleanValueNoBreak(v: string)
    requires forall i :: 0 <= i < |v| ==> !IsLineBreak(v[i])
    ensures '\n' !in CleanValue(v)
  {
    assert OnlyDeletes(v, MatchViewAt);
    DeletingKeepsNoBreak(v, MatchViewAt);
    var a := ReplaceAll(v, MatchViewAt);
    TrimNoBreak(a);
    var b := Trim(a);
    assert OnlyDeletes(b, MatchClickHere);
    DeletingKeepsNoBreak(b, MatchClickHere);
    TrimNoBreak(ReplaceAll(b, MatchClickHere));
  }

  lemma TrimNoBreak(s: string)
    requires forall i :: 0 <= i < |s| ==> !IsLineBreak(s[i])
    ensures forall i :: 0 <= i < |Trim(s)| ==> !IsLineBreak(Trim(s)[i])
  {
    var t := Trim(s);
    var off := TrimOffset(s);
    TrimIsSlice(s);
    forall i | 0 <= i < |t| ensures !IsLineBreak(t[i]) {
      assert t[i] == s[off + i];
    }
  }

  /** Every row with two or more cells and a labelText gives exactly one line,
      even with an empty value; every other row gives none. */
  lemma {:induction false} TableDataLines(rows: seq<Located>)
    ensures CountChar(TableData(rows), '\n') == CountDataRows(rows)
  {
    if rows != [] {
      TableDataLines(rows[1..]);
      RowDataLines(rows[0].elem);
      CountCharAppend(RowData(rows[0].elem), TableData(rows[1..]), '\n');
    }
  }

  lemma RowDataLines(row: Element)
    ensures CountChar(RowData(row), '\n') == if IsDataRow(row) then 1 else 0
  {
    var cells := Select(row, IsTd);
    if |cells| >= 2 {
      var labelText := Trim(Text(cells[0].elem));
      if labelText != [] {
        var raw := Trim(Text(cells[1].elem));
        TrimNoBreak(Text(cells[1].elem));
        CleanValueNoBreak(raw);
        TrimNoBreak(Text(cells[0].elem));
        LabelLineCount(labelText, CleanValue(raw));
        assert RowData(row) == labelText + ": " + CleanValue(raw) + "\n";
      } else {
        assert RowData(row) == "";
      }
    } else {
      assert RowData(row) == "";
    }
  }

  /** `a + t` followed by a line break is one line. */
  lemma OneLine(a: string, t: string)
    requires '\n' !in a
    requires forall i :: 0 <= i < |t| ==> !IsLineBreak(t[i])
    ensures CountChar(a + t + "\n", '\n') == 1
  {
    assert '\n' !in a + t;
    CountCharNone(a + t, '\n');
    CountCharAppend(a + t, "\n", '\n');
  }

  lemma LabelLineCount(labelText: string, value: string)
    requires forall i :: 0 <= i < |labelText| ==> !IsLineBreak(labelText[i])
    requires '\n' !in value
    ensures CountChar(labelText + ": " + value + "\n", '\n') == 1
  {
    assert '\n' !in labelText + ": " + value;
    CountCharNone(labelText + ": " + value, '\n');
    CountCharAppend(labelText + ": " + value, "\n", '\n');
  }

  // ---------------------------------------------------------------------------
  // Assembling output: pieces appended in document order.

  /** The pieces `f` gives for `xs`, one after another. */
  function ConcatMap<T>(xs: seq<T>, f: T -> string): string {
    if xs == [] then "" else f(xs[0]) + ConcatMap(xs[1..], f)
  }

  function CountWhere<T>(xs: seq<T>, p: T -> bool): nat {
    if xs == [] then 0 else (if p(xs[0]) then 1 else 0) + CountWhere(xs[1..], p)
  }

  lemma ConcatMapStep<T>(xs: seq<T>, n: int, f: T -> string)
    requires 0 <= n < |xs|
    ensures ConcatMap(xs[n..], f) == f(xs[n]) + ConcatMap(xs[n + 1..], f)
  {
    assert xs[n..][1..] == xs[n + 1..];
  }

  /** One more piece appended keeps `s` a prefix of the whole, the rest to follow. */
  lemma ConcatMapAdvance<T>(xs: seq<T>, n: int, f: T -> string, s: string, piece: string)
    requires 0 <= n < |xs| && piece == f(xs[n])
    requires s + ConcatMap(xs[n..], f) == ConcatMap(xs, f)
    ensures (s + piece) + ConcatMap(xs[n + 1..], f) == ConcatMap(xs, f)
  {
    ConcatMapStep(xs, n, f);
    ConcatAssoc(s, piece, ConcatMap(xs[n + 1..], f));
  }

  /** When every piece holds one '\n' where `p` holds and none elsewhere, the
      whole holds one per element `p` accepts. */
  lemma {:induction false} ConcatMapLines<T>(xs: seq<T>, f: T -> string, p: T -> bool)
    requires forall i :: 0 <= i < |xs| ==> CountChar(f(xs[i]), '\n') == if p(xs[i]) then 1 else 0
    ensures CountChar(ConcatMap(xs, f), '\n') == CountWhere(xs, p)
  {
    if xs != [] {
      assert forall i :: 0 <= i < |xs[1..]| ==> xs[1..][i] == xs[i + 1];
      ConcatMapLines(xs[1..], f, p);
      CountCharAppend(f(xs[0]), ConcatMap(xs[1..], f), '\n');
    }
  }

  lemma {:induction false} ConcatMapNoChar<T>(xs: seq<T>, f: T -> string, c: char)
    requires forall i :: 0 <= i < |xs| ==> c !in f(xs[i])
    ensures c !in ConcatMap(xs, f)
  {
    if xs != [] {
      assert forall i :: 0 <= i < |xs[1..]| ==> xs[1..][i] == xs[i + 1];
      ConcatMapNoChar(xs[1..], f, c);
    }
  }

  lemma {:induction false} CountWhereAll<T>(xs: seq<T>, p: T -> bool)
    requires forall i :: 0 <= i < |xs| ==> p(xs[i])
    ensures CountWhere(xs, p) == |xs|
  {
    if xs != [] {
      assert forall i :: 0 <= i < |xs[1..]| ==> xs[1..][i] == xs[i + 1];
      CountWhereAll(xs[1..], p);
    }
  }

  /** `nextElementSibling()` repeated: the siblings in order up to the first
      one `stop` accepts, each contributing `f`. */
  function Walk(siblings: seq<Element>, stop: Element -> bool, f: Element -> string): string {
    if siblings == [] || stop(siblings[0]) then "" else f(siblings[0]) + Walk(siblings[1..], stop, f)
  }

  lemma WalkStep(siblings: seq<Element>, k: int, stop: Element -> bool, f: Element -> string)
    requires 0 <= k < |siblings|
    ensures Walk(siblings[k..], stop, f) ==
      if stop(siblings[k]) then "" else f(siblings[k]) + Walk(siblings[k + 1..], stop, f)
  {
    assert siblings[k..][1..] == siblings[k + 1..];
  }

  /** Every sibling before the first stopping one contributes, and nothing
      from that one on does. */
  lemma {:induction false} WalkStops(a: seq<Element>, x: Element, b: seq<Element>, stop: Element -> bool, f: Element -> string)
    requires forall i :: 0 <= i < |a| ==> !stop(a[i])
    requires stop(x)
    ensures Walk(a + [x] + b, stop, f) == ConcatMap(a, f)
  {
    if a == [] {
      assert a + [x] + b == [x] + b;
    } else {
      assert (a + [x] + b)[1..] == a[1..] + [x] + b;
      assert (a + [x] + b)[0] == a[0];
      assert forall i :: 0 <= i < |a[1..]| ==> a[1..][i] == a[i + 1];
      WalkStops(a[1..], x, b, stop, f);
    }
  }

  // ---------------------------------------------------------------------------
  // extractGenericTableData

  predicate IsTable(e: Element) { e.tag == "table" }

  /** A cell's contribution to a row of other than two cells. */
  function CellPiece(cell: Located): string {
    var t := Trim(Text(cell.elem));
    if t != [] then t + " | " else ""
  }

  /** Two cells give "label: value\n" (nothing when the label is empty); any
      other positive number gives the non-empty cell texts, each followed by
      " | ", and a line break; no cells give nothing. */
  function GenericRow(row: Element): string {
    var cells := Select(row, IsCell);
    if |cells| == 2 then
      var labelText := Trim(Text(cells[0].elem));
      if labelText != [] then labelText + ": " + Trim(Text(cells[1].elem)) + "\n" else ""
    else if |cells| > 0 then ConcatMap(cells, CellPiece) + "\n"
    else ""
  }

  function GenericRowOf(row: Located): string { GenericRow(row.elem) }

  function GenericTableData(table: Element): string {
    ConcatMap(Select(table, IsRow), GenericRowOf)
  }

  method ExtractGenericTableData(table: Element) returns (tableContent: string)
    ensures tableContent == GenericTableData(table)
  {
    var rows := Select(table, IsRow);
    tableContent := "";
    var n := 0;
    assert rows[n..] == rows;
    while n < |rows|
      invariant 0 <= n <= |rows|
      invariant tableContent + ConcatMap(rows[n..], GenericRowOf) == ConcatMap(rows, GenericRowOf)
    {
      ConcatMapStep(rows, n, GenericRowOf);
      var line := ExtractGenericRow(rows[n].elem);
      ConcatAssoc(tableContent, line, ConcatMap(rows[n + 1..], GenericRowOf));
      tableContent := tableContent + line;
      n := n + 1;
    }
  }

  /** The body of the row loop. */
  method ExtractGenericRow(row: Element) returns (line: string)
    ensures line == GenericRow(row)
  {
    line := "";
    var cells := Select(row, IsCell);
    if |cells| == 2 {
      var labelText := Trim(Text(cells[0].elem));
      var value := Trim(Text(cells[1].elem));
      if labelText != [] {
        line := labelText + ": " + value + "\n";
      }
    } else if |cells| > 0 {
      var joined := ExtractCells(cells);
      line := joined + "\n";
    }
  }

  /** The cell loop of a row of other than two cells. */
  method ExtractCells(cells: seq<Located>) returns (line: string)
    ensures line == ConcatMap(cells, CellPiece)
  {
    line := "";
    var k := 0;
    assert cells[k..] == cells;
    while k < |cells|
      invariant 0 <= k <= |cells|
      invariant line + ConcatMap(cells[k..], CellPiece) == ConcatMap(cells, CellPiece)
    {
      ConcatMapStep(cells, k, CellPiece);
      ghost var before := line;
      var text := Trim(Text(cells[k].elem));
      if text != [] {
        line := line + (text + " | ");
      } else {
        ConcatEmpty(line);
      }
      assert line == before + CellPiece(cells[k]);
      ConcatAssoc(before, CellPiece(cells[k]), ConcatMap(cells[k + 1..], CellPiece));
      k := k + 1;
    }
    ConcatEmpty(line);
  }

  /** A row that yields a line. */
  predicate IsGenericLine(row: Located) {
    var cells := Select(row.elem, IsCell);
    if |cells| == 2 then Trim(Text(cells[0].elem)) != [] else |cells| > 0
  }

  /** Every row with cells gives exactly one line, except a two-cell row with
      an empty label, which gives none. */
  lemma GenericTableLines(table: Element)
    ensures CountChar(GenericTableData(table), '\n') == CountWhere(Select(table, IsRow), IsGenericLine)
  {
    var rows := Select(table, IsRow);
    forall i | 0 <= i < |rows|
      ensures CountChar(GenericRowOf(rows[i]), '\n') == if IsGenericLine(rows[i]) then 1 else 0
    {
      GenericRowLines(rows[i].elem);
    }
    ConcatMapLines(rows, GenericRowOf, IsGenericLine);
  }

  lemma GenericRowLines(row: Element)
    ensures CountChar(GenericRow(row), '\n') == if IsGenericLine(Located(row, [])) then 1 else 0
  {
    var cells := Select(row, IsCell);
    if |cells| == 2 {
      var labelText := Trim(Text(cells[0].elem));
      if labelText != [] {
        var value := Trim(Text(cells[1].elem));
        TrimNoBreak(Text(cells[0].elem));
        TrimNoBreak(Text(cells[1].elem));
        LabelLineCount(labelText, value);
      }
    } else if |cells| > 0 {
      CellsLineCount(cells);
    }
  }

  lemma CellsLineCount(cells: seq<Located>)
    ensures CountChar(ConcatMap(cells, CellPiece) + "\n", '\n') == 1
  {
    forall i | 0 <= i < |cells| ensures '\n' !in CellPiece(cells[i]) {
      CellPieceNoBreak(cells[i]);
    }
    ConcatMapNoChar(cells, CellPiece, '\n');
    var joined := ConcatMap(cells, CellPiece);
    CountCharNone(joined, '\n');
    CountCharAppend(joined, "\n", '\n');
  }

  lemma CellPieceNoBreak(cell: Located)
    ensures '\n' !in CellPiece(cell)
  {
    TrimNoBreak(Text(cell.elem));
  }

  // ---------------------------------------------------------------------------
  // Definition lists (`dl`): the i-th `dt` goes with the i-th `dd`.

  predicate IsDl(e: Element) { e.tag == "dl" }
  predicate IsDt(e: Element) { e.tag == "dt" }
  predicate IsDd(e: Element) { e.tag == "dd" }

  function DefPair(term: Located, definition: Located): string {
    var t := Trim(Text(term.elem));
    var d := Trim(Text(definition.elem));
    if t != [] && d != [] then t + ": " + d + "\n" else ""
  }

  predicate IsCompletePair(term: Located, definition: Located) {
    Trim(Text(term.elem)) != [] && Trim(Text(definition.elem)) != []
  }

  /** `f` of the i-th elements of both lists, for every i below the shorter length. */
  function PairUp(xs: seq<Located>, ys: seq<Located>, f: (Located, Located) -> string): string {
    if xs == [] || ys == [] then "" else f(xs[0], ys[0]) + PairUp(xs[1..], ys[1..], f)
  }

  function CountPairs(xs: seq<Located>, ys: seq<Located>, p: (Located, Located) -> bool): nat {
    if xs == [] || ys == [] then 0 else (if p(xs[0], ys[0]) then 1 else 0) + CountPairs(xs[1..], ys[1..], p)
  }

  /** Terms and definitions paired by position, up to the shorter list. */
  function DefLines(terms: seq<Located>, defs: seq<Located>): string {
    PairUp(terms, defs, DefPair)
  }

  function DlData(dl: Located): string {
    DefLines(Select(dl.elem, IsDt), Select(dl.elem, IsDd))
  }

  lemma PairUpStep(xs: seq<Located>, ys: seq<Located>, i: int, f: (Located, Located) -> string)
    requires 0 <= i < |xs| && i < |ys|
    ensures PairUp(xs[i..], ys[i..], f) == f(xs[i], ys[i]) + PairUp(xs[i + 1..], ys[i + 1..], f)
  {
    assert xs[i..][1..] == xs[i + 1..];
    assert ys[i..][1..] == ys[i + 1..];
  }

  method ExtractDefinitionList(dl: Element) returns (s: string)
    ensures s == DefLines(Select(dl, IsDt), Select(dl, IsDd))
  {
    var terms := Select(dl, IsDt);
    var defs := Select(dl, IsDd);
    s := PairTerms(terms, defs);
  }

  /** The loop over positions below the shorter of the two lists. */
  method PairTerms(terms: seq<Located>, defs: seq<Located>) returns (s: string)
    ensures s == DefLines(terms, defs)
  {
    var m := if |terms| < |defs| then |terms| else |defs|;
    s := "";
    var i := 0;
    assert terms[i..] == terms && defs[i..] == defs;
    while i < m
      invariant 0 <= i <= m
      invariant s + PairUp(terms[i..], defs[i..], DefPair) == PairUp(terms, defs, DefPair)
    {
      PairUpStep(terms, defs, i, DefPair);
      var line := ExtractDefPair(terms[i], defs[i]);
      ghost var rest := PairUp(terms[i + 1..], defs[i + 1..], DefPair);
      assert PairUp(terms[i..], defs[i..], DefPair) == line + rest;
      ConcatAssoc(s, line, rest);
      s := s + line;
      i := i + 1;
    }
    assert PairUp(terms[i..], defs[i..], DefPair) == "" by {
      assert terms[i..] == [] || defs[i..] == [];
    }
    ConcatEmpty(s);
  }

  /** The body of the pair loop. */
  method ExtractDefPair(term: Located, definition: Located) returns (line: string)
    ensures line == DefPair(term, definition)
  {
    line := "";
    var t := Trim(Text(term.elem));
    var d := Trim(Text(definition.elem));
    if t != [] && d != [] {
      line := t + ": " + d + "\n";
    }
  }

  /** When every pair's piece holds one '\n' where `p` holds and none
      elsewhere, the whole holds one per such pair. */
  lemma {:induction false} PairUpLines(xs: seq<Located>, ys: seq<Located>, f: (Located, Located) -> string, p: (Located, Located) -> bool)
    requires forall i :: 0 <= i < |xs| && i < |ys| ==> CountChar(f(xs[i], ys[i]), '\n') == if p(xs[i], ys[i]) then 1 else 0
    ensures CountChar(PairUp(xs, ys, f), '\n') == CountPairs(xs, ys, p)
  {
    if xs != [] && ys != [] {
      assert forall i :: 0 <= i < |xs[1..]| ==> xs[1..][i] == xs[i + 1];
      assert forall i :: 0 <= i < |ys[1..]| ==> ys[1..][i] == ys[i + 1];
      PairUpLines(xs[1..], ys[1..], f, p);
      CountCharAppend(f(xs[0], ys[0]), PairUp(xs[1..], ys[1..], f), '\n');
    }
  }

  /** Elements past the length of the shorter list are dropped. */
  lemma {:induction false} PairUpShorter(xs: seq<Located>, ys: seq<Located>, f: (Located, Located) -> string)
    ensures var m := if |xs| < |ys| then |xs| else |ys|;
      PairUp(xs, ys, f) == PairUp(xs[..m], ys[..m], f)
  {
    var m := if |xs| < |ys| then |xs| else |ys|;
    if xs != [] && ys != [] {
      PairUpShorter(xs[1..], ys[1..], f);
      assert xs[..m][1..] == xs[1..][..m - 1];
      assert ys[..m][1..] == ys[1..][..m - 1];
      assert xs[..m][0] == xs[0] && ys[..m][0] == ys[0];
    } else {
      assert m == 0 && xs[..m] == [] && ys[..m] == [];
    }
  }

  lemma DefPairLines(term: Located, definition: Located)
    ensures CountChar(DefPair(term, definition), '\n') == if IsCompletePair(term, definition) then 1 else 0
  {
    var t := Trim(Text(term.elem));
    var d := Trim(Text(definition.elem));
    if t != [] && d != [] {
      TrimNoBreak(Text(term.elem));
      TrimNoBreak(Text(definition.elem));
      LabelLineCount(t, d);
    }
  }

  /** One line per pair whose term and definition both have text, none for
      the rest; terms or definitions without a partner at the same position
      are dropped. */
  lemma DefinitionListLines(terms: seq<Located>, defs: seq<Located>)
    ensures CountChar(DefLines(terms, defs), '\n') == CountPairs(terms, defs, IsCompletePair)
    ensures var m := if |terms| < |defs| then |terms| else |defs|;
      DefLines(terms, defs) == DefLines(terms[..m], defs[..m])
  {
    forall i | 0 <= i < |terms| && i < |defs|
      ensures CountChar(DefPair(terms[i], defs[i]), '\n') == if IsCompletePair(terms[i], defs[i]) then 1 else 0
    {
      DefPairLines(terms[i], defs[i]);
    }
    PairUpLines(terms, defs, DefPair, IsCompletePair);
    PairUpShorter(terms, defs, DefPair);
  }

  // ---------------------------------------------------------------------------
  // Headings with the siblings that follow them.

  predicate IsSectionHeader(e: Element) { e.tag == "h2" || e.tag == "h3" || e.tag == "h4" }
  predicate IsHeadingElement(e: Element) { IsHeadingTag(e.tag) }
  predicate IsList(e: Element) { e.tag == "ul" || e.tag == "ol" }
  predicate AnyItem(item: Located) { true }

  /** Every list item gives a line, even an empty one. */
  function ItemLine(item: Located): string {
    "- " + Trim(Text(item.elem)) + "\n"
  }

  /** A sibling's own text when non-empty and under 500 UTF-16 units, then,
      for a list, one line per item. */
  function SiblingText(e: Element): string {
    var t := Trim(Text(e));
    (if t != [] && JavaLength(t) < 500 then t + "\n" else "")
    + (if IsList(e) then ConcatMap(Select(e, IsListItem), ItemLine) else "")
  }

  function HeaderSection(header: Located): string {
    var t := Trim(Text(header.elem));
    if t != [] then "\n" + t + ":\n" + Walk(header.following, IsHeadingElement, SiblingText) else ""
  }

  function HeaderSections(main: Located): string {
    ConcatMap(SelectAt(main, IsSectionHeader), HeaderSection)
  }

  method ExtractItems(list: Element) returns (s: string)
    ensures s == ConcatMap(Select(list, IsListItem), ItemLine)
  {
    var items := Select(list, IsListItem);
    s := "";
    var n := 0;
    assert items[n..] == items;
    while n < |items|
      invariant 0 <= n <= |items|
      invariant s + ConcatMap(items[n..], ItemLine) == ConcatMap(items, ItemLine)
    {
      ConcatMapStep(items, n, ItemLine);
      ConcatAssoc(s, ItemLine(items[n]), ConcatMap(items[n + 1..], ItemLine));
      s := s + ("- " + Trim(Text(items[n].elem)) + "\n");
      n := n + 1;
    }
  }

  method ExtractSiblingText(e: Element) returns (s: string)
    ensures s == SiblingText(e)
  {
    var own := "";
    var text := Trim(Text(e));
    if text != [] && JavaLength(text) < 500 {
      own := text + "\n";
    }
    var items := "";
    if e.tag == "ul" || e.tag == "ol" {
      items := ExtractItems(e);
    }
    s := own + items;
  }

  method ExtractHeaderSection(header: Located) returns (s: string)
    ensures s == HeaderSection(header)
  {
    s := "";
    var headerText := Trim(Text(header.elem));
    if headerText != [] {
      var walked := WalkSiblings(header.following);
      s := "\n" + headerText + ":\n" + walked;
    }
  }

  /** The sibling loop under a heading: it runs until the next heading. */
  method WalkSiblings(siblings: seq<Element>) returns (walked: string)
    ensures walked == Walk(siblings, IsHeadingElement, SiblingText)
  {
    walked := "";
    var k := 0;
    assert siblings[k..] == siblings;
    while k < |siblings| && !IsHeadingTag(siblings[k].tag)
      invariant 0 <= k <= |siblings|
      invariant walked + Walk(siblings[k..], IsHeadingElement, SiblingText) == Walk(siblings, IsHeadingElement, SiblingText)
    {
      WalkStep(siblings, k, IsHeadingElement, SiblingText);
      var text := ExtractSiblingText(siblings[k]);
      ConcatAssoc(walked, text, Walk(siblings[k + 1..], IsHeadingElement, SiblingText));
      walked := walked + text;
      k := k + 1;
    }
    if k < |siblings| {
      WalkStep(siblings, k, IsHeadingElement, SiblingText);
    }
    ConcatEmpty(walked);
  }

  method ExtractHeaderSections(main: Located) returns (s: string)
    ensures s == HeaderSections(main)
  {
    var headers := SelectAt(main, IsSectionHeader);
    s := "";
    var n := 0;
    assert headers[n..] == headers;
    while n < |headers|
      invariant 0 <= n <= |headers|
      invariant s + ConcatMap(headers[n..], HeaderSection) == ConcatMap(headers, HeaderSection)
    {
      ConcatMapStep(headers, n, HeaderSection);
      var section := ExtractHeaderSection(headers[n]);
      ConcatAssoc(s, section, ConcatMap(headers[n + 1..], HeaderSection));
      s := s + section;
      n := n + 1;
    }
  }

  /** Under a heading come exactly the siblings before the next heading of
      any level; nothing after that heading is read. */
  lemma SiblingWalkStops(header: Element, a: seq<Element>, next: Element, b: seq<Element>)
    requires forall i :: 0 <= i < |a| ==> !IsHeadingTag(a[i].tag)
    requires IsHeadingTag(next.tag)
    ensures var t := Trim(Text(header));
      HeaderSection(Located(header, a + [next] + b)) ==
        if t != [] then "\n" + t + ":\n" + ConcatMap(a, SiblingText) else ""
  {
    WalkStops(a, next, b, IsHeadingElement, SiblingText);
  }

  /** A list under a heading gives one line per item, empty items included. */
  lemma ItemLinesCount(list: Element)
    ensures CountChar(ConcatMap(Select(list, IsListItem), ItemLine), '\n') == |Select(list, IsListItem)|
  {
    var items := Select(list, IsListItem);
    forall i | 0 <= i < |items|
      ensures CountChar(ItemLine(items[i]), '\n') == if AnyItem(items[i]) then 1 else 0
    {
      ItemLineCount(items[i]);
    }
    ConcatMapLines(items, ItemLine, AnyItem);
    CountWhereAll(items, AnyItem);
  }

  lemma ItemLineCount(item: Located)
    ensures CountChar(ItemLine(item), '\n') == 1
  {
    TrimNoBreak(Text(item.elem));
    OneLine("- ", Trim(Text(item.elem)));
  }

  // ---------------------------------------------------------------------------
  // Report sections: each `div.dynamic-heading` with the report tables among
  // the siblings after it, up to the next such div.

  predicate IsSectionBoundary(e: Element) { HasClass(e, "dynamic-heading") }

  /** A sibling contributes its data when it is a report table, else nothing. */
  function SectionSibling(e: Element): string {
    if IsReportTable(e) then TableData(Select(e, IsRow)) else ""
  }

  /** "\n=== title ===\n" from the section's first sub-heading, unless there
      is none, its text is empty, or it reads "Summary" in any case. */
  function SectionTitle(div: Element): string {
    var hs := Select(div, IsSubHeading);
    if hs == [] then ""
    else
      var t := Trim(Text(hs[0].elem));
      if t != [] && !EqualsIgnoreCase(t, "Summary") then "\n=== " + t + " ===\n" else ""
  }

  function SectionData(section: Located): string {
    SectionTitle(section.elem) + Walk(section.following, IsSectionBoundary, SectionSibling)
  }

  function Sections(root: Element): string {
    ConcatMap(Select(root, IsSectionDiv), SectionData)
  }

  method ExtractSectionTitle(div: Element) returns (s: string)
    ensures s == SectionTitle(div)
  {
    s := "";
    var hs := Select(div, IsSubHeading);
    if hs != [] {
      var sectionTitle := Trim(Text(hs[0].elem));
      if sectionTitle != [] && !EqualsIgnoreCase(sectionTitle, "Summary") {
        s := "\n=== " + sectionTitle + " ===\n";
      }
    }
  }

  /** The sibling loop after a section div: it breaks at the next section div. */
  method WalkSection(siblings: seq<Element>) returns (tables: string)
    ensures tables == Walk(siblings, IsSectionBoundary, SectionSibling)
  {
    tables := "";
    var k := 0;
    assert siblings[k..] == siblings;
    while k < |siblings|
      invariant 0 <= k <= |siblings|
      invariant tables + Walk(siblings[k..], IsSectionBoundary, SectionSibling) == Walk(siblings, IsSectionBoundary, SectionSibling)
    {
      WalkStep(siblings, k, IsSectionBoundary, SectionSibling);
      if HasClass(siblings[k], "dynamic-heading") {
        break;
      }
      var piece := "";
      if siblings[k].tag == "table" && HasClass(siblings[k], "ctReportTable") {
        piece := ExtractTableData(siblings[k]);
      }
      ConcatAssoc(tables, piece, Walk(siblings[k + 1..], IsSectionBoundary, SectionSibling));
      tables := tables + piece;
      k := k + 1;
    }
    ConcatEmpty(tables);
  }

  method ExtractSection(section: Located) returns (s: string)
    ensures s == SectionData(section)
  {
    var heading := ExtractSectionTitle(section.elem);
    var tables := WalkSection(section.following);
    s := heading + tables;
  }

  method ExtractSections(root: Element) returns (s: string)
    ensures s == Sections(root)
  {
    var sections := Select(root, IsSectionDiv);
    s := ExtractEachSection(sections);
  }

  method ExtractEachSection(sections: seq<Located>) returns (s: string)
    ensures s == ConcatMap(sections, SectionData)
  {
    s := "";
    var n := 0;
    assert sections[n..] == sections;
    while n < |sections|
      invariant 0 <= n <= |sections|
      invariant s + ConcatMap(sections[n..], SectionData) == ConcatMap(sections, SectionData)
    {
      ConcatMapStep(sections, n, SectionData);
      var piece := ExtractSection(sections[n]);
      ConcatAssoc(s, piece, ConcatMap(sections[n + 1..], SectionData));
      s := s + piece;
      n := n + 1;
    }
  }

  /** A section reads the report tables among the siblings before the next
      section div, and nothing from that div on. */
  lemma SectionStops(div: Element, a: seq<Element>, next: Element, b: seq<Element>)
    requires forall i :: 0 <= i < |a| ==> !IsSectionBoundary(a[i])
    requires IsSectionBoundary(next)
    ensures SectionData(Located(div, a + [next] + b)) == SectionTitle(div) + ConcatMap(a, SectionSibling)
  {
    WalkStops(a, next, b, IsSectionBoundary, SectionSibling);
  }

  // ---------------------------------------------------------------------------
  // External links: each `h5.link-type-heading` with the items of the
  // `ul.external-links-list` right after it.

  predicate IsLinkList(e: Element) { TagWithClass(e, "ul", "external-links-list") }

  /** An item gives "- text\n" when its text is non-empty. */
  function LinkItem(li: Located): string {
    var t := Trim(Text(li.elem));
    if t != [] then "- " + t + "\n" else ""
  }

  predicate HasText(li: Located) { Trim(Text(li.elem)) != [] }

  /** The items of the link list right after a heading, when there is one. */
  function LinkList(heading: Located): string {
    if heading.following != [] && IsLinkList(heading.following[0])
    then ConcatMap(Select(heading.following[0], IsListItem), LinkItem)
    else ""
  }

  function LinkGroup(heading: Located): string {
    var t := Trim(Text(heading.elem));
    if t != [] then "\n" + t + ":\n" + LinkList(heading) else ""
  }

  function ExternalLinks(root: Element): string {
    var hs := Select(root, IsLinkTypeHeading);
    if hs == [] then "" else "\n=== Resources/Links ===\n" + ConcatMap(hs, LinkGroup)
  }

  method ExtractLinkItems(list: Element) returns (s: string)
    ensures s == ConcatMap(Select(list, IsListItem), LinkItem)
  {
    var items := Select(list, IsListItem);
    s := "";
    var n := 0;
    assert items[n..] == items;
    while n < |items|
      invariant 0 <= n <= |items|
      invariant s + ConcatMap(items[n..], LinkItem) == ConcatMap(items, LinkItem)
    {
      var piece := ExtractLinkItem(items[n]);
      ConcatMapAdvance(items, n, LinkItem, s, piece);
      s := s + piece;
      n := n + 1;
    }
    assert items[n..] == [];
    ConcatEmpty(s);
  }

  /** The body of the link-item loop: one "- " line per non-blank item. */
  method ExtractLinkItem(item: Located) returns (piece: string)
    ensures piece == LinkItem(item)
  {
    var itemText := Trim(Text(item.elem));
    piece := "";
    if itemText != [] {
      piece := "- " + itemText + "\n";
    }
  }

  method ExtractLinkGroup(heading: Located) returns (s: string)
    ensures s == LinkGroup(heading)
  {
    s := "";
    var linkType := Trim(Text(heading.elem));
    if linkType != [] {
      var items := "";
      if heading.following != [] {
        var listElement := heading.following[0];
        if listElement.tag == "ul" && HasClass(listElement, "external-links-list") {
          items := ExtractLinkItems(listElement);
        }
      }
      s := "\n" + linkType + ":\n" + items;
    }
  }

  method ExtractExternalLinks(root: Element) returns (s: string)
    ensures s == ExternalLinks(root)
  {
    var linkHeadings := Select(root, IsLinkTypeHeading);
    if linkHeadings == [] {
      return "";
    }
    var groups := ExtractLinkGroups(linkHeadings);
    s := "\n=== Resources/Links ===\n" + groups;
  }

  method ExtractLinkGroups(headings: seq<Located>) returns (s: string)
    ensures s == ConcatMap(headings, LinkGroup)
  {
    s := "";
    var n := 0;
    assert headings[n..] == headings;
    while n < |headings|
      invariant 0 <= n <= |headings|
      invariant s + ConcatMap(headings[n..], LinkGroup) == ConcatMap(headings, LinkGroup)
    {
      ConcatMapStep(headings, n, LinkGroup);
      var piece := ExtractLinkGroup(headings[n]);
      ConcatAssoc(s, piece, ConcatMap(headings[n + 1..], LinkGroup));
      s := s + piece;
      n := n + 1;
    }
  }

  /** A link list gives one line per item with text; empty items are skipped. */
  lemma LinkItemsLines(list: Element)
    ensures CountChar(ConcatMap(Select(list, IsListItem), LinkItem), '\n')
         == CountWhere(Select(list, IsListItem), HasText)
  {
    var items := Select(list, IsListItem);
    forall i | 0 <= i < |items|
      ensures CountChar(LinkItem(items[i]), '\n') == if HasText(items[i]) then 1 else 0
    {
      LinkItemCount(items[i]);
    }
    ConcatMapLines(items, LinkItem, HasText);
  }

  lemma LinkItemCount(li: Located)
    ensures CountChar(LinkItem(li), '\n') == if HasText(li) then 1 else 0
  {
    var t := Trim(Text(li.elem));
    if t != [] {
      TrimNoBreak(Text(li.elem));
      OneLine("- ", t);
    }
  }

  /** The links part is empty exactly when the page has no link-type heading. */
  lemma ExternalLinksEmptyIff(root: Element)
    ensures ExternalLinks(root) == "" <==>
      !exists i :: 0 <= i < |Descendants(root)| && IsLinkTypeHeading(Descendants(root)[i])
  {
    SelectFindsAny(root, IsLinkTypeHeading);
    var hs := Select(root, IsLinkTypeHeading);
    if hs != [] {
      assert ExternalLinks(root)[0] == '\n';
    }
  }

  // ---------------------------------------------------------------------------
  // extractClinicalTrialContent

  /** "--- CLINICAL TRIAL: id ---\n\n" when a report row names the NCTID. */
  function NctLine(doc: Element): string {
    match FirstNctId(ReportRows(doc))
    case None => ""
    case Some(id) => "--- CLINICAL TRIAL: " + id + " ---\n\n"
  }

  /** "Title: t\n\n" from the first `h2.brief-title`, when its text is non-empty. */
  function TitleLine(doc: Element): string {
    var hs := Select(doc, IsBriefTitle);
    if hs == [] then ""
    else
      var t := Trim(Text(hs[0].elem));
      if t != [] then "Title: " + t + "\n\n" else ""
  }

  function ClinicalBody(doc: Element): string {
    NctLine(doc) + TitleLine(doc) + Sections(doc) + ExternalLinks(doc)
  }

  /** The report read from the page with every `.sidenav` removed, trimmed. */
  function ClinicalContent(root: Element): string {
    Trim(ClinicalBody(Prune(root, IsSidenav)))
  }

  method ExtractClinicalTrialContent(root: Element) returns (result: string)
    ensures result == ClinicalContent(root)
  {
    var doc := Prune(root, IsSidenav);
    var content := "";
    var nctId := ExtractNCTID(doc);
    if nctId.Some? {
      content := "--- CLINICAL TRIAL: " + nctId.value + " ---\n\n";
    }
    var title := ExtractTitleLine(doc);
    var sections := ExtractSections(doc);
    var links := ExtractExternalLinks(doc);
    content := content + title + sections + links;
    result := Trim(content);
  }

  method ExtractTitleLine(doc: Element) returns (s: string)
    ensures s == TitleLine(doc)
  {
    s := "";
    var hs := Select(doc, IsBriefTitle);
    if hs != [] {
      var title := Trim(Text(hs[0].elem));
      if title != [] {
        s := "Title: " + title + "\n\n";
      }
    }
  }

  /** Matching `.sidenav` looks only at the element's classes. */
  lemma SidenavIgnoresChildren()
    ensures IgnoresChildren(IsSidenav)
  {
    forall x: Element
      ensures IsSidenav(x) == IsSidenav(x.(children := []))
    {
      assert x.(children := []).classes == x.classes;
    }
  }

  /** No `.sidenav` is left below the document the report is read from, and
      reading an already cleaned page gives the same report. */
  lemma SidenavRemoved(root: Element)
    ensures var doc := Prune(root, IsSidenav);
      forall i :: 1 <= i < |Descendants(doc)| ==> !IsSidenav(Descendants(doc)[i])
    ensures ClinicalContent(Prune(root, IsSidenav)) == ClinicalContent(root)
  {
    SidenavIgnoresChildren();
    PruneRemovesAll(root, IsSidenav);
    PruneIdempotent(root, IsSidenav);
  }

  /** When a report row names the trial, the report opens with its banner. */
  lemma ClinicalContentLeadsWithId(root: Element, id: string)
    requires FirstNctId(ReportRows(Prune(root, IsSidenav))) == Some(id)
    ensures StartsWith(ClinicalContent(root), "--- CLINICAL TRIAL: " + id + " ---")
  {
    ClinicalBodyLeads(Prune(root, IsSidenav), id);
  }

  lemma ClinicalBodyLeads(doc: Element, id: string)
    requires FirstNctId(ReportRows(doc)) == Some(id)
    ensures StartsWith(Trim(ClinicalBody(doc)), "--- CLINICAL TRIAL: " + id + " ---")
  {
    assert NctLine(doc) == "--- CLINICAL TRIAL: " + id + " ---\n\n";
    BannerLeads(id, TitleLine(doc), Sections(doc), ExternalLinks(doc));
  }

  /** Trimming keeps the banner that opens a report. */
  lemma BannerLeads(id: string, a: string, b: string, c: string)
    ensures StartsWith(Trim("--- CLINICAL TRIAL: " + id + " ---\n\n" + a + b + c), "--- CLINICAL TRIAL: " + id + " ---")
  {
    var banner := "--- CLINICAL TRIAL: " + id + " ---";
    var rest := a + b + c;
    assert "--- CLINICAL TRIAL: " + id + " ---\n\n" + a + b + c == banner + ("\n\n" + rest) by {
      assert " ---\n\n" == " ---" + "\n\n";
      ConcatAssoc("--- CLINICAL TRIAL: " + id, " ---", "\n\n");
      ConcatAssoc(banner, "\n\n", rest);
      ConcatAssoc(banner + "\n\n", a, b);
      ConcatAssoc(banner + "\n\n", a + b, c);
    }
    assert banner[0] == '-' && banner[|banner| - 1] == '-';
    TrimKeepsPrefix(banner, "\n\n" + rest);
  }

  // ---------------------------------------------------------------------------
  // extractGenericContent

  predicate IsH1(e: Element) { e.tag == "h1" }

  /** The first element of the main-region selector list, else the body,
      each with the siblings that follow it. */
  function MainRegion(root: Element): Located {
    var ms := Select(root, IsMainRegion);
    if ms == [] then Body(root) else ms[0]
  }

  /** "=== t ===\n\n" from the first `h1`, even when its text is empty. */
  function HeadingLine(main: Element): string {
    var hs := Select(main, IsH1);
    if hs == [] then "" else "=== " + Trim(Text(hs[0].elem)) + " ===\n\n"
  }

  function TableOf(table: Located): string { GenericTableData(table.elem) }

  function GenericTables(main: Element): string {
    ConcatMap(Select(main, IsTable), TableOf)
  }

  function DefinitionLists(main: Element): string {
    ConcatMap(Select(main, IsDl), DlData)
  }

  function GenericBody(main: Located): string {
    HeadingLine(main.elem) + GenericTables(main.elem) + DefinitionLists(main.elem) + HeaderSections(main)
  }

  /** The assembled text, trimmed; under 100 UTF-16 units the main region's
      whole text replaces it. */
  function GenericContent(root: Element): (r: string)
    ensures IsTrimmed(r)
    ensures JavaLength(r) < 100 ==> r == Text(MainRegion(root).elem)
    ensures r == Trim(GenericBody(MainRegion(root))) || r == Text(MainRegion(root).elem)
  {
    var main := MainRegion(root);
    var result := Trim(GenericBody(main));
    if JavaLength(result) < 100 then Text(main.elem) else result
  }

  /** A main region that is itself an `h2`-`h4` heading is the first header
      selected, and its section walks the siblings that follow the region. */
  lemma RegionHeadingWalksOn(main: Located)
    requires IsSectionHeader(main.elem)
    ensures var hs := SelectAt(main, IsSectionHeader);
      && hs != [] && hs[0] == main
      && HeaderSections(main) == HeaderSection(main) + ConcatMap(hs[1..], HeaderSection)
  {
    var hs := SelectAt(main, IsSectionHeader);
    assert hs == [Located(main.elem, main.following)]
      + SelectNodes(main.elem.children, Everywhere, IsSectionHeader, true);
  }

  method ExtractGenericContent(root: Element) returns (result: string)
    ensures result == GenericContent(root)
  {
    var mains := Select(root, IsMainRegion);
    var main := if mains == [] then Body(root) else mains[0];
    var mainContent := main.elem;
    var content := "";
    var h1s := Select(mainContent, IsH1);
    if h1s != [] {
      content := "=== " + Trim(Text(h1s[0].elem)) + " ===\n\n";
    }
    var tables := ExtractGenericTables(Select(mainContent, IsTable));
    var dls := ExtractDefinitionLists(Select(mainContent, IsDl));
    var headers := ExtractHeaderSections(main);
    content := content + tables + dls + headers;
    result := Trim(content);
    if JavaLength(result) < 100 {
      result := Text(mainContent);
    }
  }

  method ExtractGenericTables(tables: seq<Located>) returns (s: string)
    ensures s == ConcatMap(tables, TableOf)
  {
    s := "";
    var n := 0;
    assert tables[n..] == tables;
    while n < |tables|
      invariant 0 <= n <= |tables|
      invariant s + ConcatMap(tables[n..], TableOf) == ConcatMap(tables, TableOf)
    {
      ConcatMapStep(tables, n, TableOf);
      var piece := ExtractGenericTableData(tables[n].elem);
      ConcatAssoc(s, piece, ConcatMap(tables[n + 1..], TableOf));
      s := s + piece;
      n := n + 1;
    }
  }

  method ExtractDefinitionLists(dls: seq<Located>) returns (s: string)
    ensures s == ConcatMap(dls, DlData)
  {
    s := "";
    var n := 0;
    assert dls[n..] == dls;
    while n < |dls|
      invariant 0 <= n <= |dls|
      invariant s + ConcatMap(dls[n..], DlData) == ConcatMap(dls, DlData)
    {
      ConcatMapStep(dls, n, DlData);
      var piece := ExtractDefinitionList(dls[n].elem);
      ConcatAssoc(s, piece, ConcatMap(dls[n + 1..], DlData));
      s := s + piece;
      n := n + 1;
    }
  }

  // ---------------------------------------------------------------------------
  // extractContent and get()

  /** The clinical-trial reader for report pages, the generic one otherwise. */
  function Content(root: Element, url: string): string {
    if IsClinicalTrialPage(root, url) then ClinicalContent(root) else GenericContent(root)
  }

  method ExtractContent(root: Element, url: string) returns (content: string)
    ensures content == Content(root, url)
  {
    if IsClinicalTrialPage(root, url) {
      content := ExtractClinicalTrialContent(root);
    } else {
      content := ExtractGenericContent(root);
    }
  }

  /** Matching the junk selector list looks only at the element itself. */
  lemma JunkIgnoresChildren()
    ensures IgnoresChildren(IsJunk)
  {
    forall x: Element
      ensures IsJunk(x) == IsJunk(x.(children := []))
    {
      var y := x.(children := []);
      assert y.tag == x.tag && y.classes == x.classes && y.id == x.id;
    }
  }

  /** The document `get()` builds: the content, with the URL as its source,
      the page title and "url" as its type. */
  function UrlDocument(content: string, url: string, title: string): Document {
    Document(content, map["source" := Str(url), "title" := Str(title), "type" := Str("url")])
  }

  /** What `get()` returns: `page` is the fetched page, None when fetching
      failed. */
  function Read(url: string, page: Option<Element>): seq<Document> {
    if page.None? then []
    else
      var doc := Prune(page.value, IsJunk);
      [UrlDocument(Content(doc, url), url, Title(doc))]
  }

  /** `get()`: a failed fetch gives no document; a page gives exactly one,
      read from the page with the junk elements removed. */
  method Get(url: string, page: Option<Element>) returns (docs: seq<Document>)
    ensures docs == Read(url, page)
    ensures page.None? ==> docs == []
    ensures page.Some? ==>
      var doc := Prune(page.value, IsJunk);
      docs == [UrlDocument(Content(doc, url), url, Title(doc))]
  {
    if page.None? {
      return [];
    }
    var doc := Prune(page.value, IsJunk);
    var content := ExtractContent(doc, url);
    var title := Title(doc);
    docs := [UrlDocument(content, url, title)];
  }

  /** No junk element is left below the document the reader works on. */
  lemma JunkRemoved(root: Element)
    ensures var doc := Prune(root, IsJunk);
      forall i :: 1 <= i < |Descendants(doc)| ==> !IsJunk(Descendants(doc)[i])
  {
    JunkIgnoresChildren();
    PruneRemovesAll(root, IsJunk);
  }

  /** The metadata carries exactly the source, the title and the type. */
  lemma UrlDocumentShape(content: string, url: string, title: string)
    ensures UrlDocument(content, url, title).content == content
    ensures UrlDocument(content, url, title).metadata.Keys == {"source", "title", "type"}
    ensures UrlDocument(content, url, title).metadata["source"] == Str(url)
    ensures UrlDocument(content, url, title).metadata["title"] == Str(title)
    ensures UrlDocument(content, url, title).metadata["type"] == Str("url")
  {
    var m := UrlDocument(content, url, title).metadata;
    assert m.Keys == {"source", "title", "type"};
  }
}
