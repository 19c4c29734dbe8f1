/** `render`: the table body the picker writes for a page. Cells outside the
    month get the grey class; a row opens before every seventh cell and
    closes after the seventh. */
module Render {
  import opened Js
  import opened Calendar

  const GrayClass: string := " class=\"s-gray\""

  /** The test `render` makes per cell, on the lengths the page reports. */
  predicate IsGray(page: CalcResult, i: int)
  {
    !(i >= page.lenBefore && i <= PageSize - page.lenAfter - 1)
  }

  /** A `<td>` element with the given class attribute and text. */
  function TdText(classStr: string, text: string): string
  {
    "<td" + classStr + ">" + text + "</td>"
  }

  /** The `<td>` element of cell `i`. */
  function Td(page: CalcResult, i: int): string
    requires 0 <= i < |page.dateArr|
  {
    TdText(if IsGray(page, i) then GrayClass else "", IntToString(page.dateArr[i]))
  }

  /** The `<td>` elements of the first `n` cells, in order. */
  function CellsUpTo(page: CalcResult, n: nat): (tds: seq<string>)
    requires n <= |page.dateArr|
    ensures |tds| == n
  {
    if n == 0 then [] else CellsUpTo(page, n - 1) + [Td(page, n - 1)]
  }

  /** The `<td>` elements of the page, in order. */
  function Cells(page: CalcResult): (tds: seq<string>)
    ensures |tds| == |page.dateArr|
  {
    CellsUpTo(page, |page.dateArr|)
  }

  /** What the loop appends for the cell at position `i`: the first of a row
      opens it, the seventh closes it. */
  function CellMarkup(td: string, i: int): string
  {
    if i % 7 == 0 then "<tr>" + td
    else if i % 7 == 6 then td + "</tr>"
    else td
  }

  /** The markup of the first `n` cells, in order. */
  function Markup(tds: seq<string>, n: nat): string
    requires n <= |tds|
  {
    if n == 0 then "" else Markup(tds, n - 1) + CellMarkup(tds[n - 1], n - 1)
  }

  /** A row's opening `<tr>` followed by the cells from `b` up to `n`. */
  function RowPrefix(tds: seq<string>, b: nat, n: nat): string
    requires b <= n <= |tds|
    decreases n - b
  {
    if n == b then "<tr>" else RowPrefix(tds, b, n - 1) + tds[n - 1]
  }

  /** Row `r` of the table: `<tr>`, the seven cells from `7 * r`, `</tr>`. */
  function Row(tds: seq<string>, r: nat): string
    requires 7 * r + 7 <= |tds|
  {
    RowPrefix(tds, 7 * r, 7 * r + 7) + "</tr>"
  }

  /** The first `k` rows. */
  function Rows(tds: seq<string>, k: nat): string
    requires 7 * k <= |tds|
  {
    if k == 0 then "" else Rows(tds, k - 1) + Row(tds, k - 1)
  }

  /** The `for` loop of `render`: the html string it accumulates. */
  method RenderHtml(page: CalcResult) returns (html: string)
    ensures html == Markup(Cells(page), |page.dateArr|)
  {
    html := "";
    var lenBeforeNextMonth := PageSize - page.lenAfter - 1;
    var lenBeforeCurMonth := page.lenBefore;
    var i := 0;
    while i < |page.dateArr|
      invariant 0 <= i <= |page.dateArr|
      invariant html == Markup(Cells(page), i)
    {
      html := RenderCell(page, i, lenBeforeCurMonth, lenBeforeNextMonth, html);
      i := i + 1;
    }
  }

  /** One turn of the loop: the grey test on the two bounds, then the cell
      with the row opened or closed around it, appended to the html. */
  method RenderCell(page: CalcResult, i: int, lenBeforeCurMonth: int, lenBeforeNextMonth: int, html: string)
    returns (html': string)
    requires 0 <= i < |page.dateArr|
    requires lenBeforeCurMonth == page.lenBefore
    requires lenBeforeNextMonth == PageSize - page.lenAfter - 1
    requires html == Markup(Cells(page), i)
    ensures html' == Markup(Cells(page), i + 1)
  {
    var classStr := if i >= lenBeforeCurMonth && i <= lenBeforeNextMonth then "" else GrayClass;
    var td := TdText(classStr, IntToString(page.dateArr[i]));
    CellIs(page, i, classStr);
    var piece := CellMarkup(td, i);
    MarkupStep(Cells(page), i, html, piece);
    html' := html + piece;
  }

  // ---------------------------------------------------------------------
  // Properties

  /** The loop's cell is the page's cell. */
  lemma CellIs(page: CalcResult, i: int, classStr: string)
    requires 0 <= i < |page.dateArr|
    requires classStr == if IsGray(page, i) then GrayClass else ""
    ensures TdText(classStr, IntToString(page.dateArr[i])) == Cells(page)[i]
  {
    CellAt(page, |page.dateArr|, i);
  }

  /** Cell `i` of the first `n` is the `<td>` of cell `i`. */
  lemma {:induction false} CellAt(page: CalcResult, n: nat, i: int)
    requires n <= |page.dateArr| && 0 <= i < n
    ensures CellsUpTo(page, n)[i] == Td(page, i)
  {
    if i < n - 1 {
      CellAt(page, n - 1, i);
    }
  }

  /** One more cell appends its markup. */
  lemma MarkupStep(tds: seq<string>, n: nat, html: string, piece: string)
    requires n < |tds|
    requires html == Markup(tds, n)
    requires piece == CellMarkup(tds[n], n)
    ensures html + piece == Markup(tds, n + 1)
  {
  }

  lemma Column(n: int, r: int, j: int)
    requires n == 7 * r + j && 0 <= j < 7
    ensures n % 7 == j
  {
  }

  lemma AppendAssoc(a: string, b: string, c: string)
    ensures (a + b) + c == a + (b + c)
  {
  }

  /** Inside a row, the markup is the markup before the row followed by the
      row opened so far. */
  lemma {:induction false} MarkupInRow(tds: seq<string>, r: nat, b: nat, n: nat)
    requires b == 7 * r && b < n <= b + 6 && n <= |tds|
    ensures Markup(tds, n) == Markup(tds, b) + RowPrefix(tds, b, n)
  {
    Column(n - 1, r, n - 1 - b);
    if n - 1 > b {
      MarkupInRow(tds, r, b, n - 1);
      AppendAssoc(Markup(tds, b), RowPrefix(tds, b, n - 1), tds[n - 1]);
    }
  }

  /** Seven cells starting at a row boundary make one row. */
  lemma MarkupRow(tds: seq<string>, r: nat, b: nat, e: nat)
    requires b == 7 * r && e == b + 7 && e <= |tds|
    ensures Markup(tds, e) == Markup(tds, b) + Row(tds, r)
  {
    MarkupInRow(tds, r, b, e - 1);
    Column(e - 1, r, 6);
    var x := Markup(tds, b);
    var p := RowPrefix(tds, b, e - 1);
    AppendAssoc(x, p, tds[e - 1] + "</tr>");
    AppendAssoc(p, tds[e - 1], "</tr>");
  }

  /** The markup of whole rows of cells is a sequence of complete rows. */
  lemma {:induction false} MarkupIsRows(tds: seq<string>, k: nat)
    requires 7 * k <= |tds|
    ensures Markup(tds, 7 * k) == Rows(tds, k)
  {
    if k > 0 {
      MarkupIsRows(tds, k - 1);
      MarkupRow(tds, k - 1, 7 * (k - 1), 7 * k);
      assert Rows(tds, k) == Rows(tds, k - 1) + Row(tds, k - 1);
    }
  }

  /** A 42-cell page renders as exactly six complete rows. */
  lemma PageIsSixRows(page: CalcResult)
    requires |page.dateArr| == PageSize
    ensures Markup(Cells(page), |page.dateArr|) == Rows(Cells(page), 6)
  {
    MarkupIsRows(Cells(page), 6);
  }

  /** On a page built by `createDateArr`, the cells not greyed are exactly the
      days of the displayed month, and they read 1..n in order. */
  lemma GrayCellsOutsideMonth(year: int, month: int, firstWeekday: int, i: int)
    requires 0 <= month < 12
    requires 0 <= firstWeekday < 7
    requires 0 <= i < PageSize
    ensures var g := BuildGrid(year, month, firstWeekday);
      && (!IsGray(g, i) <==> g.lenBefore <= i < g.lenBefore + DaysInMonth(year, month))
      && (!IsGray(g, i) ==> g.dateArr[i] == i - g.lenBefore + 1)
  {
    GridComposition(year, month, firstWeekday);
    GridAt(year, month, firstWeekday, i);
  }

  /** The page of a month that starts on a Sunday opens with a whole grey
      row, and its 1st is the eighth cell, the first not greyed. */
  lemma SundayStartsWithGrayRow(year: int, month: int)
    requires 0 <= month < 12
    ensures forall i :: 0 <= i < 7 ==> IsGray(BuildGrid(year, month, 0), i)
    ensures !IsGray(BuildGrid(year, month, 0), 7)
    ensures |BuildGrid(year, month, 0).dateArr| == PageSize && BuildGrid(year, month, 0).dateArr[7] == 1
  {
    GridComposition(year, month, 0);
    GridAt(year, month, 0, 7);
  }
}
