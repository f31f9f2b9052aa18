/** The spreadsheet editor of a report submission. Each editing action
    either hands a new grid to the owner (`Some`) or does nothing (`None`):
    read-only grids and style actions without a selected cell do nothing. */
module Grid {
  import opened Types
  import opened Strings

  /** A stored cell: older data may hold a bare string instead of a cell. */
  datatype RawCell = Bare(text: string) | Structured(cell: TableCell)

  datatype Pos = Pos(r: nat, c: nat)

  const EmptyCell: TableCell := TableCell("", None)

  function NormalizeCell(x: RawCell): TableCell {
    match x
    case Bare(s) => TableCell(s, None)
    case Structured(cell) => cell
  }

  /** The canonical form every action works on: bare strings become cells
      holding that string and no style. */
  function Normalize(raw: seq<seq<RawCell>>): (g: Grid)
    ensures |g| == |raw|
    ensures forall i :: 0 <= i < |raw| ==> |g[i]| == |raw[i]|
    ensures forall i, j :: 0 <= i < |raw| && 0 <= j < |raw[i]| && raw[i][j].Bare? ==>
      g[i][j].value == raw[i][j].text && g[i][j].style.None?
    ensures forall i, j :: 0 <= i < |raw| && 0 <= j < |raw[i]| && raw[i][j].Structured? ==>
      g[i][j] == raw[i][j].cell
  {
    seq(|raw|, i requires 0 <= i < |raw| =>
      seq(|raw[i]|, j requires 0 <= j < |raw[i]| => NormalizeCell(raw[i][j])))
  }

  function Lift(g: Grid): seq<seq<RawCell>> {
    seq(|g|, i requires 0 <= i < |g| => seq(|g[i]|, j requires 0 <= j < |g[i]| => Structured(g[i][j])))
  }

  /** Normalizing a grid that is already made of cells gives it back. */
  lemma NormalizeLift(g: Grid)
    ensures Normalize(Lift(g)) == g
  {
    var n := Normalize(Lift(g));
    forall i | 0 <= i < |g| ensures n[i] == g[i] {
    }
  }

  ghost predicate SameShape(a: Grid, b: Grid) {
    |a| == |b| && forall i :: 0 <= i < |a| ==> |a[i]| == |b[i]|
  }

  ghost predicate Rectangular(g: Grid) {
    forall i :: 0 <= i < |g| ==> |g[i]| == |g[0]|
  }

  predicate InBounds(g: Grid, r: nat, c: nat) {
    r < |g| && c < |g[r]|
  }

  /** The part of a cell an action overwrites. */
  datatype CellPatch = SetValue(value: string) | SetStyle(style: CellStyle)

  function Merge(cell: TableCell, p: CellPatch): TableCell {
    match p
    case SetValue(v) => cell.(value := v)
    case SetStyle(s) => cell.(style := Some(s))
  }

  /** Editing one cell merges the patch into that cell only. */
  function UpdateCell(g: Grid, readOnly: bool, r: nat, c: nat, p: CellPatch): (res: Option<Grid>)
    requires readOnly || InBounds(g, r, c)
    ensures res.None? <==> readOnly
    ensures res.Some? ==> SameShape(res.value, g)
    ensures res.Some? ==> res.value[r][c] == Merge(g[r][c], p)
    ensures res.Some? ==> forall i: nat, j: nat :: InBounds(g, i, j) && (i != r || j != c) ==> res.value[i][j] == g[i][j]
  {
    if readOnly then None
    else Some(g[r := g[r][c := Merge(g[r][c], p)]])
  }

  // -----------------------------------------------------------------------
  // Style toggles

  datatype StyleFlag = Bold | Italic

  const NoStyle: CellStyle := CellStyle(None, None, None)

  function Flag(s: CellStyle, k: StyleFlag): Option<bool> {
    match k
    case Bold => s.bold
    case Italic => s.italic
  }

  /** JavaScript truthiness of an optional flag. */
  predicate Truthy(b: Option<bool>) {
    b == Some(true)
  }

  function StyleOf(cell: TableCell): CellStyle {
    if cell.style.Some? then cell.style.value else NoStyle
  }

  function Toggled(s: CellStyle, k: StyleFlag): (t: CellStyle)
    ensures Flag(t, k) == Some(!Truthy(Flag(s, k)))
    ensures forall other :: other != k ==> Flag(t, other) == Flag(s, other)
    ensures t.backgroundColor == s.backgroundColor
  {
    match k
    case Bold => s.(bold := Some(!Truthy(s.bold)))
    case Italic => s.(italic := Some(!Truthy(s.italic)))
  }

  /** Toggling a flag of the selected cell flips that flag's truthiness and
      keeps the cell's value, its other flag and its colour. */
  function ToggleStyle(g: Grid, readOnly: bool, selected: Option<Pos>, k: StyleFlag): (res: Option<Grid>)
    requires selected.Some? ==> InBounds(g, selected.value.r, selected.value.c)
    ensures res.None? <==> readOnly || selected.None?
    ensures res.Some? ==> SameShape(res.value, g)
    ensures res.Some? ==>
      var r, c := selected.value.r, selected.value.c;
      && res.value[r][c].value == g[r][c].value
      && res.value[r][c].style.Some?
      && Truthy(Flag(res.value[r][c].style.value, k)) == !Truthy(Flag(StyleOf(g[r][c]), k))
      && (forall other :: other != k ==> Flag(res.value[r][c].style.value, other) == Flag(StyleOf(g[r][c]), other))
      && res.value[r][c].style.value.backgroundColor == StyleOf(g[r][c]).backgroundColor
      && forall i: nat, j: nat :: InBounds(g, i, j) && (i != r || j != c) ==> res.value[i][j] == g[i][j]
  {
    if selected.None? || readOnly then None
    else
      var r, c := selected.value.r, selected.value.c;
      UpdateCell(g, readOnly, r, c, SetStyle(Toggled(StyleOf(g[r][c]), k)))
  }

  /** Toggling the same flag twice restores its truthiness and leaves every
      cell value in place. */
  lemma ToggleTwice(g: Grid, selected: Option<Pos>, k: StyleFlag)
    requires selected.Some? && InBounds(g, selected.value.r, selected.value.c)
    ensures var once := ToggleStyle(g, false, selected, k).value;
      var twice := ToggleStyle(once, false, selected, k).value;
      var r, c := selected.value.r, selected.value.c;
      && SameShape(twice, g)
      && Truthy(Flag(StyleOf(twice[r][c]), k)) == Truthy(Flag(StyleOf(g[r][c]), k))
      && twice[r][c].value == g[r][c].value
      && forall i: nat, j: nat :: InBounds(g, i, j) && (i != r || j != c) ==> twice[i][j] == g[i][j]
  {
  }

  /** Choosing a colour sets the selected cell's background and nothing else. */
  function SetColor(g: Grid, readOnly: bool, selected: Option<Pos>, color: string): (res: Option<Grid>)
    requires selected.Some? ==> InBounds(g, selected.value.r, selected.value.c)
    ensures res.None? <==> readOnly || selected.None?
    ensures res.Some? ==> SameShape(res.value, g)
    ensures res.Some? ==>
      var r, c := selected.value.r, selected.value.c;
      && res.value[r][c].value == g[r][c].value
      && res.value[r][c].style == Some(StyleOf(g[r][c]).(backgroundColor := Some(color)))
      && forall i: nat, j: nat :: InBounds(g, i, j) && (i != r || j != c) ==> res.value[i][j] == g[i][j]
  {
    if selected.None? || readOnly then None
    else
      var r, c := selected.value.r, selected.value.c;
      UpdateCell(g, readOnly, r, c, SetStyle(StyleOf(g[r][c]).(backgroundColor := Some(color))))
  }

  /** Choosing the same colour twice is choosing it once. */
  lemma SetColorIdempotent(g: Grid, selected: Option<Pos>, color: string)
    requires selected.Some? && InBounds(g, selected.value.r, selected.value.c)
    ensures var once := SetColor(g, false, selected, color).value;
      SetColor(once, false, selected, color) == Some(once)
  {
    var once: Grid := SetColor(g, false, selected, color).value;
    var r, c := selected.value.r, selected.value.c;
    assert once[r][c].style.Some?;
    assert Merge(once[r][c], SetStyle(StyleOf(once[r][c]).(backgroundColor := Some(color)))) == once[r][c];
    assert once[r][c := once[r][c]] == once[r];
    assert once[r := once[r]] == once;
  }

  /** Colour and the bold and italic flags are independent: colouring then
      toggling a flag gives the same grid as toggling then colouring. */
  lemma ColorCommutesWithToggle(g: Grid, selected: Option<Pos>, color: string, k: StyleFlag)
    requires selected.Some? && InBounds(g, selected.value.r, selected.value.c)
    ensures ToggleStyle(SetColor(g, false, selected, color).value, false, selected, k)
         == SetColor(ToggleStyle(g, false, selected, k).value, false, selected, color)
  {
    var r, c := selected.value.r, selected.value.c;
    var s := StyleOf(g[r][c]);
    var colored: Grid := SetColor(g, false, selected, color).value;
    var toggled: Grid := ToggleStyle(g, false, selected, k).value;
    assert colored == g[r := g[r][c := g[r][c].(style := Some(s.(backgroundColor := Some(color))))]];
    assert toggled == g[r := g[r][c := g[r][c].(style := Some(Toggled(s, k)))]];
    assert StyleOf(colored[r][c]) == s.(backgroundColor := Some(color));
    assert StyleOf(toggled[r][c]) == Toggled(s, k);
    var cell := g[r][c].(style := Some(Toggled(s, k).(backgroundColor := Some(color))));
    var both := g[r := g[r][c := cell]];
    assert colored[r][c := cell] == g[r][c := cell];
    assert toggled[r][c := cell] == g[r][c := cell];
    assert colored[r := g[r][c := cell]] == both;
    assert toggled[r := g[r][c := cell]] == both;
    assert Toggled(s.(backgroundColor := Some(color)), k) == Toggled(s, k).(backgroundColor := Some(color));
    assert ToggleStyle(colored, false, selected, k) == Some(both);
    assert SetColor(toggled, false, selected, color) == Some(both);
  }

  // -----------------------------------------------------------------------
  // Rows and columns

  /** A new row as wide as the first row. The first row is read
      unconditionally, so an editable grid must have one. */
  function AddRow(g: Grid, readOnly: bool): (res: Option<Grid>)
    requires readOnly || |g| > 0
    ensures res.None? <==> readOnly
    ensures res.Some? ==> |res.value| == |g| + 1 && res.value[..|g|] == g
    ensures res.Some? ==> (|res.value[|g|]| == |g[0]|
      && forall j :: 0 <= j < |g[0]| ==> res.value[|g|][j] == EmptyCell)
  {
    if readOnly then None
    else Some(g + [seq(|g[0]|, _ => EmptyCell)])
  }

  /** One empty cell appended to every row. */
  function AddColumn(g: Grid, readOnly: bool): (res: Option<Grid>)
    ensures res.None? <==> readOnly
    ensures res.Some? ==> |res.value| == |g|
    ensures res.Some? ==> forall i :: 0 <= i < |g| ==>
      |res.value[i]| == |g[i]| + 1 && res.value[i][..|g[i]|] == g[i] && res.value[i][|g[i]|] == EmptyCell
  {
    if readOnly then None
    else Some(seq(|g|, i requires 0 <= i < |g| => g[i] + [EmptyCell]))
  }

  /** Both growing actions keep a rectangular grid rectangular, one adding
      a row and the other a column. */
  lemma GrowKeepsRectangular(g: Grid)
    requires Rectangular(g) && |g| > 0
    ensures var rows := AddRow(g, false).value;
      Rectangular(rows) && |rows| == |g| + 1 && |rows[0]| == |g[0]|
    ensures var cols := AddColumn(g, false).value;
      Rectangular(cols) && |cols| == |g| && |cols[0]| == |g[0]| + 1
  {
  }

  /** Actions other than growing keep the shape, so they keep a rectangular
      grid rectangular. */
  lemma SameShapeKeepsRectangular(a: Grid, b: Grid)
    requires SameShape(a, b) && Rectangular(b)
    ensures Rectangular(a)
  {
  }

  /** Editing a cell's value or style keeps a rectangular sheet
      rectangular. */
  lemma EditsKeepRectangular(g: Grid, selected: Option<Pos>, k: StyleFlag, color: string)
    requires Rectangular(g)
    requires selected.Some? && InBounds(g, selected.value.r, selected.value.c)
    ensures Rectangular(ToggleStyle(g, false, selected, k).value)
    ensures Rectangular(SetColor(g, false, selected, color).value)
  {
    SameShapeKeepsRectangular(ToggleStyle(g, false, selected, k).value, g);
    SameShapeKeepsRectangular(SetColor(g, false, selected, color).value, g);
  }

  // -----------------------------------------------------------------------
  // Paste

  /** The value cell `c` of row `r` takes on, if any. */
  function WriteValue(g: Grid, r: nat, c: nat, v: string): (res: Grid)
    ensures SameShape(res, g)
  {
    if InBounds(g, r, c) then g[r := g[r][c := g[r][c].(value := v)]] else g
  }

  /** The fields of one pasted line from the `j`-th on, written into row `r`
      from column `c0 + j` onward; fields past the row's end are dropped. */
  function PasteRow(g: Grid, r: nat, fields: seq<string>, c0: nat, j: nat): (res: Grid)
    requires j <= |fields|
    ensures SameShape(res, g)
    ensures forall i: nat, c: nat :: InBounds(g, i, c) ==>
      res[i][c] == (if i == r && c0 + j <= c < c0 + |fields| then g[i][c].(value := Trim(fields[c - c0]))
                    else g[i][c])
    decreases |fields| - j
  {
    if j == |fields| then g
    else PasteRow(WriteValue(g, r, c0 + j, Trim(fields[j])), r, fields, c0, j + 1)
  }

  /** An empty last line is what a trailing newline leaves; it is skipped. */
  predicate Skipped(lines: seq<string>, i: nat) {
    i == |lines| - 1 && lines[i] == ""
  }

  /** The value a paste of `lines` at (`startR`, `startC`) gives cell
      (`r`, `c`), counting only lines from `from` on: field `c - startC` of
      line `r - startR`, trimmed, when that line and field exist. */
  function PastedAt(lines: seq<string>, from: nat, startR: nat, startC: nat, r: nat, c: nat): Option<string> {
    if r < startR + from || c < startC || r - startR >= |lines| then None
    else if Skipped(lines, r - startR) then None
    else
      var fields := Split(lines[r - startR], '\t');
      if c - startC < |fields| then Some(Trim(fields[c - startC])) else None
  }

  function Pasted(cell: TableCell, v: Option<string>): TableCell {
    if v.Some? then cell.(value := v.value) else cell
  }

  /** The lines from the `i`-th on, each written into its own row. */
  function PasteLines(g: Grid, lines: seq<string>, i: nat, startR: nat, startC: nat): (res: Grid)
    requires i <= |lines|
    ensures SameShape(res, g)
    ensures forall r: nat, c: nat :: InBounds(g, r, c) ==> res[r][c] == Pasted(g[r][c], PastedAt(lines, i, startR, startC, r, c))
    decreases |lines| - i
  {
    if i == |lines| then g
    else if Skipped(lines, i) then g
    else PasteLines(PasteRow(g, startR + i, Split(lines[i], '\t'), startC, 0), lines, i + 1, startR, startC)
  }

  /** Pasting tab- and newline-separated text at a cell: the grid never
      grows, out-of-range fields are dropped, and only values change. */
  function Paste(g: Grid, readOnly: bool, text: string, startR: nat, startC: nat): (res: Option<Grid>)
    ensures res.None? <==> readOnly
    ensures res.Some? ==> SameShape(res.value, g)
    ensures res.Some? ==> forall r: nat, c: nat :: InBounds(g, r, c) ==>
      res.value[r][c] == Pasted(g[r][c], PastedAt(Split(text, '\n'), 0, startR, startC, r, c))
  {
    if readOnly then None
    else Some(PasteLines(g, Split(text, '\n'), 0, startR, startC))
  }

  /** A paste keeps every cell's style. */
  lemma PasteKeepsStyles(g: Grid, text: string, startR: nat, startC: nat)
    ensures var res := Paste(g, false, text, startR, startC).value;
      forall r: nat, c: nat :: InBounds(g, r, c) ==> res[r][c].style == g[r][c].style
  {
  }

  lemma {:induction false} SplitNewlineSuffix(text: string)
    ensures Split(text + "\n", '\n') == Split(text, '\n') + [""]
  {
    if |text| == 0 {
      assert text + "\n" == "\n";
    } else {
      assert (text + "\n")[1..] == text[1..] + "\n";
      SplitNewlineSuffix(text[1..]);
    }
  }

  /** An extra empty last line only adds a skipped line. */
  lemma PastedAtEmptyLine(lines: seq<string>, startR: nat, startC: nat, r: nat, c: nat)
    requires |lines| > 0 && lines[|lines| - 1] != ""
    ensures PastedAt(lines + [""], 0, startR, startC, r, c) == PastedAt(lines, 0, startR, startC, r, c)
  {
    if startR <= r && r - startR < |lines| {
      assert (lines + [""])[r - startR] == lines[r - startR];
    }
  }

  lemma PasteLinesEmptyLast(g: Grid, lines: seq<string>, startR: nat, startC: nat)
    requires |lines| > 0 && lines[|lines| - 1] != ""
    ensures PasteLines(g, lines + [""], 0, startR, startC) == PasteLines(g, lines, 0, startR, startC)
  {
    var a := PasteLines(g, lines + [""], 0, startR, startC);
    var b := PasteLines(g, lines, 0, startR, startC);
    forall r: nat, c: nat | InBounds(g, r, c) ensures a[r][c] == b[r][c] {
      PastedAtEmptyLine(lines, startR, startC, r, c);
    }
    forall r | 0 <= r < |g| ensures a[r] == b[r] {
    }
  }

  /** One trailing newline after a non-empty last line changes nothing. */
  lemma PasteIgnoresTrailingNewline(g: Grid, text: string, startR: nat, startC: nat)
    requires |text| > 0 && text[|text| - 1] != '\n'
    ensures Paste(g, false, text + "\n", startR, startC) == Paste(g, false, text, startR, startC)
  {
    SplitNewlineSuffix(text);
    LastLineNonEmpty(text);
    PasteLinesEmptyLast(g, Split(text, '\n'), startR, startC);
  }

  lemma {:induction false} LastLineNonEmpty(text: string)
    requires |text| > 0 && text[|text| - 1] != '\n'
    ensures var lines := Split(text, '\n'); lines[|lines| - 1] != ""
  {
    if |text| > 1 {
      LastLineNonEmpty(text[1..]);
    }
  }

  /** Every cell whose line and field exist gets the trimmed field, and
      the rest are untouched. */
  lemma PasteBlock(g: Grid, text: string, startR: nat, startC: nat, i: nat, j: nat)
    requires var lines := Split(text, '\n'); i < |lines| && !Skipped(lines, i)
    requires j < |Split(Split(text, '\n')[i], '\t')|
    requires InBounds(g, startR + i, startC + j)
    ensures Paste(g, false, text, startR, startC).value[startR + i][startC + j].value
      == Trim(Split(Split(text, '\n')[i], '\t')[j])
  {
  }
}
