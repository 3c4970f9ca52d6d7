/**
 * The extraction step of `scrapeGame`: from a fetched archive page to one
 * GameResult. The HTML document is abstracted to what the code looks up in
 * it: the text of elements found by id, the lists of category names, category
 * comments and correct responses in document order, and whether the
 * "no such game" error marker is present.
 */
module GameParser {
  import opened Wrappers
  import opened Strings
  import opened Dates
  import opened Games

  /**
   * `elements` maps an element id (`game_title`, `game_comments`,
   * `clue_J_x_y`, `clue_DJ_x_y`, `clue_FJ`) to its stripped text; an id that
   * is not a key is an element the page does not have.
   */
  datatype Page = Page(
    elements: map<string, string>,
    categoryNames: seq<string>,
    categoryComments: seq<string>,
    correctResponses: seq<string>,
    hasErrorMarker: bool)

  const TitleId := "game_title"
  const CommentsId := "game_comments"
  const FinalClueId := "clue_FJ"

  const TitleMissing := "Title not found"
  const CommentsMissing := "Comments not found"
  const FinalClueMissing := "Final Jeopardy clue not found"
  const FinalResponseMissing := "Final Jeopardy response not found"

  /** The separator before the date in a game title. */
  const DaySeparator := "day, "

  /** Text of an element, or the sentinel when the page lacks it. */
  function TextOr(page: Page, id: string, sentinel: string): (t: string)
    ensures id in page.elements ==> t == page.elements[id]
    ensures id !in page.elements ==> t == sentinel
  {
    if id in page.elements then page.elements[id] else sentinel
  }

  /* ---------------- the 6 x 5 clue grid ---------------- */

  const Columns := 6
  const Rows := 5
  const GridCells := Columns * Rows

  datatype RoundName = Jeopardy | DoubleJeopardy

  function RoundTag(r: RoundName): string {
    match r
    case Jeopardy => "J"
    case DoubleJeopardy => "DJ"
  }

  /** `f'J_{x}_{y}'` / `f'DJ_{x}_{y}'`. */
  function CellLabel(r: RoundName, x: int, y: int): string
    requires 1 <= x <= Columns && 1 <= y <= Rows
  {
    RoundTag(r) + "_" + NatToDecimal(x) + "_" + NatToDecimal(y)
  }

  /** The id of the `td` holding a cell's clue. */
  function ClueId(r: RoundName, x: int, y: int): string
    requires 1 <= x <= Columns && 1 <= y <= Rows
  {
    "clue_" + CellLabel(r, x, y)
  }

  /**
   * Scan position `p` (0-based): rows are the outer loop, columns the inner
   * one, so position `p` is column `p % 6 + 1` of row `p / 6 + 1`.
   */
  function Column(p: nat): int { p % Columns + 1 }

  function Row(p: nat): int { p / Columns + 1 }

  predicate InGrid(x: int, y: int) {
    1 <= x <= Columns && 1 <= y <= Rows
  }

  lemma PositionInGrid(p: nat)
    requires p < GridCells
    ensures InGrid(Column(p), Row(p))
  {
  }

  /** The scan position of the cell in column `x`, row `y`. */
  function PositionOf(x: int, y: int): (p: nat)
    requires InGrid(x, y)
    ensures p < GridCells && Column(p) == x && Row(p) == y
  {
    (y - 1) * Columns + (x - 1)
  }

  /** A later scan position is in a later row, or further right in the same row. */
  lemma ScanOrderIsRowMajor(p: nat, q: nat)
    requires p < q
    ensures Row(p) < Row(q) || (Row(p) == Row(q) && Column(p) < Column(q))
  {
  }

  function LabelAt(r: RoundName, p: nat): string
    requires p < GridCells
  {
    PositionInGrid(p);
    CellLabel(r, Column(p), Row(p))
  }

  function IdAt(r: RoundName, p: nat): string
    requires p < GridCells
  {
    PositionInGrid(p);
    ClueId(r, Column(p), Row(p))
  }

  /** Distinct cells have distinct labels, and labels of the two rounds never meet. */
  lemma CellLabelInjective(r1: RoundName, x1: int, y1: int, r2: RoundName, x2: int, y2: int)
    requires InGrid(x1, y1) && InGrid(x2, y2)
    ensures CellLabel(r1, x1, y1) == CellLabel(r2, x2, y2) <==> r1 == r2 && x1 == x2 && y1 == y2
  {
    var a := CellLabel(r1, x1, y1);
    var b := CellLabel(r2, x2, y2);
    assert a == RoundTag(r1) + "_" + [DigitChar(x1)] + "_" + [DigitChar(y1)];
    assert b == RoundTag(r2) + "_" + [DigitChar(x2)] + "_" + [DigitChar(y2)];
    if a == b {
      var t := |RoundTag(r1)|;
      assert |a| == t + 4 && |b| == |RoundTag(r2)| + 4;
      assert a[t + 1] == DigitChar(x1) && b[t + 1] == DigitChar(x2);
      assert a[t + 3] == DigitChar(y1) && b[t + 3] == DigitChar(y2);
    }
  }

  /** The clue-element ids of a round's 30 cells, in scan order. */
  function GridIds(r: RoundName): (ids: seq<string>)
    ensures |ids| == GridCells
    ensures forall p :: 0 <= p < GridCells ==> ids[p] == IdAt(r, p)
  {
    seq(GridCells, p requires 0 <= p < GridCells => IdAt(r, p))
  }

  /** The labels of a round's 30 cells, in scan order. */
  function GridLabels(r: RoundName): (labels: seq<string>)
    ensures |labels| == GridCells
    ensures forall p :: 0 <= p < GridCells ==> labels[p] == LabelAt(r, p)
  {
    seq(GridCells, p requires 0 <= p < GridCells => LabelAt(r, p))
  }

  /**
   * The positions below `n` whose clue element the page has, in scan order;
   * `ids[p]` is the element id looked up at position `p`.
   */
  function PresentPositions(els: map<string, string>, ids: seq<string>, n: nat): (ps: seq<nat>)
    requires n <= |ids|
    ensures |ps| <= n
    ensures forall i :: 0 <= i < |ps| ==> ps[i] < n && ids[ps[i]] in els
    ensures forall i, j :: 0 <= i < j < |ps| ==> ps[i] < ps[j]
    ensures forall p :: 0 <= p < n && ids[p] in els ==> p in ps
  {
    if n == 0 then []
    else
      var prev := PresentPositions(els, ids, n - 1);
      if ids[n - 1] in els then prev + [n - 1] else prev
  }

  /** The cells and clues a round's scan has collected. */
  datatype Scan = Scan(cells: seq<string>, clues: seq<string>)

  /**
   * The first `n` steps of the grid scan for one round: position `p` looks
   * up element `ids[p]` and, when the page has it, appends the clue text and
   * the cell label `labels[p]` under the same test.
   */
  function ScanRound(els: map<string, string>, ids: seq<string>, labels: seq<string>, n: nat): (sc: Scan)
    requires |labels| == |ids| && n <= |ids|
    ensures |sc.cells| == |sc.clues| <= n
  {
    if n == 0 then Scan([], [])
    else
      var prev := ScanRound(els, ids, labels, n - 1);
      var id := ids[n - 1];
      if id in els then Scan(prev.cells + [labels[n - 1]], prev.clues + [els[id]])
      else prev
  }

  /** Entry `i` of the cells and of the clues both belong to the `i`-th present position. */
  lemma {:induction false} ScanFollowsPresentPositions(els: map<string, string>, ids: seq<string>,
                                                       labels: seq<string>, n: nat)
    requires |labels| == |ids| && n <= |ids|
    ensures var sc := ScanRound(els, ids, labels, n);
      var ps := PresentPositions(els, ids, n);
      && |sc.cells| == |ps|
      && forall i :: 0 <= i < |ps| ==> sc.cells[i] == labels[ps[i]] && sc.clues[i] == els[ids[ps[i]]]
  {
    if n > 0 {
      ScanFollowsPresentPositions(els, ids, labels, n - 1);
      var prev := ScanRound(els, ids, labels, n - 1);
      var earlier := PresentPositions(els, ids, n - 1);
      var sc := ScanRound(els, ids, labels, n);
      var ps := PresentPositions(els, ids, n);
      if ids[n - 1] in els {
        assert ps == earlier + [n - 1];
        forall i | 0 <= i < |ps| ensures sc.cells[i] == labels[ps[i]] && sc.clues[i] == els[ids[ps[i]]] {
          if i < |earlier| {
            assert sc.cells[i] == prev.cells[i] && sc.clues[i] == prev.clues[i] && ps[i] == earlier[i];
          }
        }
      }
    }
  }

  /** With distinct labels, a position's label is collected exactly when its element is present. */
  lemma ScanLabelIffPresent(els: map<string, string>, ids: seq<string>, labels: seq<string>, p: nat)
    requires |labels| == |ids| && p < |ids|
    requires forall a, b :: 0 <= a < b < |labels| ==> labels[a] != labels[b]
    ensures labels[p] in ScanRound(els, ids, labels, |ids|).cells <==> ids[p] in els
  {
    var sc := ScanRound(els, ids, labels, |ids|);
    var ps := PresentPositions(els, ids, |ids|);
    ScanFollowsPresentPositions(els, ids, labels, |ids|);
    if ids[p] in els {
      var i :| 0 <= i < |ps| && ps[i] == p;
      assert sc.cells[i] == labels[p];
    }
    if labels[p] in sc.cells {
      var i :| 0 <= i < |sc.cells| && sc.cells[i] == labels[p];
      assert labels[ps[i]] == labels[p];
    }
  }

  /** With distinct labels, the scan never collects a label twice. */
  lemma ScanCellsDistinct(els: map<string, string>, ids: seq<string>, labels: seq<string>)
    requires |labels| == |ids|
    requires forall a, b :: 0 <= a < b < |labels| ==> labels[a] != labels[b]
    ensures var cells := ScanRound(els, ids, labels, |ids|).cells;
      forall i, j :: 0 <= i < j < |cells| ==> cells[i] != cells[j]
  {
    var cells := ScanRound(els, ids, labels, |ids|).cells;
    var ps := PresentPositions(els, ids, |ids|);
    ScanFollowsPresentPositions(els, ids, labels, |ids|);
    forall i, j | 0 <= i < j < |cells| ensures cells[i] != cells[j] {
      assert cells[i] == labels[ps[i]] && cells[j] == labels[ps[j]] && ps[i] < ps[j];
    }
  }

  /** Different grid positions of a round carry different labels. */
  lemma GridLabelsDistinct(r: RoundName)
    ensures var labels := GridLabels(r);
      forall a, b :: 0 <= a < b < |labels| ==> labels[a] != labels[b]
  {
    var labels := GridLabels(r);
    forall a, b | 0 <= a < b < |labels| ensures labels[a] != labels[b] {
      PositionInGrid(a);
      PositionInGrid(b);
      ScanOrderIsRowMajor(a, b);
      CellLabelInjective(r, Column(a), Row(a), r, Column(b), Row(b));
    }
  }

  /** The full 30-cell scan of one round. */
  function ScanGrid(els: map<string, string>, r: RoundName): (sc: Scan)
    ensures |sc.cells| == |sc.clues| <= GridCells
  {
    ScanRound(els, GridIds(r), GridLabels(r), GridCells)
  }

  /** The scanned cells of a round and the positions they came from. */
  lemma ScanGridPositions(els: map<string, string>, r: RoundName)
    ensures var sc := ScanGrid(els, r);
      var ps := PresentPositions(els, GridIds(r), GridCells);
      && |sc.cells| == |sc.clues| == |ps|
      && forall i :: 0 <= i < |ps| ==> sc.cells[i] == LabelAt(r, ps[i]) && sc.clues[i] == els[IdAt(r, ps[i])]
  {
    ScanFollowsPresentPositions(els, GridIds(r), GridLabels(r), GridCells);
  }

  /** `cell` is the label of a grid cell the page has, and `clue` is that cell's text. */
  predicate LabelsClue(els: map<string, string>, r: RoundName, cell: string, clue: string) {
    exists x, y | 1 <= x <= Columns && 1 <= y <= Rows ::
      cell == CellLabel(r, x, y) && ClueId(r, x, y) in els && clue == els[ClueId(r, x, y)]
  }

  /** Each collected cell labels a present grid element whose text is the clue beside it. */
  lemma RoundCellsMatchClues(els: map<string, string>, r: RoundName)
    ensures |ScanGrid(els, r).cells| == |ScanGrid(els, r).clues| <= GridCells
    ensures var sc := ScanGrid(els, r);
      forall i :: 0 <= i < |sc.cells| ==> LabelsClue(els, r, sc.cells[i], sc.clues[i])
  {
    var sc := ScanGrid(els, r);
    var ps := PresentPositions(els, GridIds(r), GridCells);
    ScanGridPositions(els, r);
    forall i | 0 <= i < |sc.cells| ensures LabelsClue(els, r, sc.cells[i], sc.clues[i]) {
      PositionInGrid(ps[i]);
      var x, y := Column(ps[i]), Row(ps[i]);
      assert sc.cells[i] == CellLabel(r, x, y);
      assert IdAt(r, ps[i]) == ClueId(r, x, y);
    }
  }

  /** A cell's label is collected exactly when the page has that cell's clue element. */
  lemma CellIncludedIffPresent(els: map<string, string>, r: RoundName, x: int, y: int)
    requires InGrid(x, y)
    ensures CellLabel(r, x, y) in ScanGrid(els, r).cells <==> ClueId(r, x, y) in els
  {
    var p := PositionOf(x, y);
    GridLabelsDistinct(r);
    ScanLabelIffPresent(els, GridIds(r), GridLabels(r), p);
    assert GridLabels(r)[p] == CellLabel(r, x, y);
    assert GridIds(r)[p] == ClueId(r, x, y);
  }

  /** A round holds at most 30 cells and never the same label twice. */
  lemma RoundCellsDistinct(els: map<string, string>, r: RoundName)
    ensures |ScanGrid(els, r).cells| <= GridCells
    ensures var cells := ScanGrid(els, r).cells;
      forall i, j :: 0 <= i < j < |cells| ==> cells[i] != cells[j]
  {
    var ids, labels := GridIds(r), GridLabels(r);
    GridLabelsDistinct(r);
    assert forall a, b :: 0 <= a < b < |labels| ==> labels[a] != labels[b];
    ScanCellsDistinct(els, ids, labels);
    assert ScanGrid(els, r) == ScanRound(els, ids, labels, |ids|);
    var cells := ScanGrid(els, r).cells;
    assert |cells| <= GridCells;
    forall i, j | 0 <= i < j < |cells| ensures cells[i] != cells[j] {
      assert ScanRound(els, ids, labels, |ids|).cells[i] != ScanRound(els, ids, labels, |ids|).cells[j];
    }
  }

  /** Cells appear in scan order: row by row, left to right within a row. */
  lemma RoundCellsInScanOrder(els: map<string, string>, r: RoundName)
    ensures var cells := ScanGrid(els, r).cells;
      forall i, j, x1, y1, x2, y2 ::
        0 <= i < j < |cells| && InGrid(x1, y1) && InGrid(x2, y2)
        && cells[i] == CellLabel(r, x1, y1) && cells[j] == CellLabel(r, x2, y2)
        ==> y1 < y2 || (y1 == y2 && x1 < x2)
  {
    var cells := ScanGrid(els, r).cells;
    var ps := PresentPositions(els, GridIds(r), GridCells);
    ScanGridPositions(els, r);
    forall i, j, x1, y1, x2, y2 |
      0 <= i < j < |cells| && InGrid(x1, y1) && InGrid(x2, y2)
      && cells[i] == CellLabel(r, x1, y1) && cells[j] == CellLabel(r, x2, y2)
      ensures y1 < y2 || (y1 == y2 && x1 < x2)
    {
      PositionInGrid(ps[i]);
      PositionInGrid(ps[j]);
      CellLabelInjective(r, Column(ps[i]), Row(ps[i]), r, x1, y1);
      CellLabelInjective(r, Column(ps[j]), Row(ps[j]), r, x2, y2);
      ScanOrderIsRowMajor(ps[i], ps[j]);
    }
  }

  /* ---------------- correct responses ---------------- */

  /** Where the correct responses went: round one, round two, final. */
  datatype ResponseSplit = ResponseSplit(jeopardy: seq<string>, doubleJeopardy: seq<string>, final: string)

  /**
   * The `enumerate(responses, start=1)` loop: response number `count` goes to
   * round one while `count <= nj`, to round two while `count <= nj + nd`, and
   * otherwise overwrites the final response.
   */
  function Redistribute(responses: seq<string>, nj: nat, nd: nat): (sp: ResponseSplit)
    ensures sp.jeopardy == responses[..Min(|responses|, nj)]
    ensures sp.doubleJeopardy == responses[Min(|responses|, nj)..Min(|responses|, nj + nd)]
    ensures sp.final == if |responses| > nj + nd then responses[|responses| - 1] else FinalResponseMissing
  {
    if |responses| == 0 then ResponseSplit([], [], FinalResponseMissing)
    else
      var count := |responses|;
      var earlier := responses[..count - 1];
      var sp := Redistribute(earlier, nj, nd);
      var text := responses[count - 1];
      assert responses[..count] == earlier + [text];
      assert forall a, b :: 0 <= a <= b <= count - 1 ==> earlier[a..b] == responses[a..b];
      if count <= nj then sp.(jeopardy := sp.jeopardy + [text])
      else if nj < count <= nj + nd then sp.(doubleJeopardy := sp.doubleJeopardy + [text])
      else sp.(final := text)
  }

  /** Neither round receives more responses than it has clues; round two gets what round one leaves. */
  lemma RoundResponsesBounded(responses: seq<string>, nj: nat, nd: nat)
    ensures var sp := Redistribute(responses, nj, nd);
      && |sp.jeopardy| == Min(|responses|, nj) <= nj
      && |sp.doubleJeopardy| == Min(Max(|responses| - nj, 0), nd) <= nd
  {
  }

  /** The two rounds' responses together are the leading responses, in document order. */
  lemma RoundResponsesArePrefix(responses: seq<string>, nj: nat, nd: nat)
    ensures var sp := Redistribute(responses, nj, nd);
      sp.jeopardy + sp.doubleJeopardy == responses[..Min(|responses|, nj + nd)]
  {
    var sp := Redistribute(responses, nj, nd);
    var a, b := Min(|responses|, nj), Min(|responses|, nj + nd);
    assert responses[..b] == responses[..a] + responses[a..b];
  }

  /** Thirty first-round clues and 28 responses: two clues stay without a response. */
  lemma FewerResponsesThanClues(responses: seq<string>, nd: nat)
    requires |responses| == 28
    ensures var sp := Redistribute(responses, 30, nd);
      && sp.jeopardy == responses && sp.doubleJeopardy == [] && sp.final == FinalResponseMissing
  {
  }

  /* ---------------- the whole page ---------------- */

  /** `extract_date_from_title`: parse what follows the last `"day, "`. */
  function ExtractDateFromTitle(title: string, parseLongDate: string -> Option<Date>): (d: Option<Date>)
    ensures exists k :: 0 <= k <= |title| && d == parseLongDate(title[k..])
                        && (k == 0 || SeparatorEndsAt(title, DaySeparator, k))
                        && forall j :: k <= j ==> !OccursAt(title, DaySeparator, j)
  {
    var piece := LastPiece(title, DaySeparator);
    var k := |title| - |piece|;
    assert title[k..] == piece;
    assert k == 0 || SeparatorEndsAt(title, DaySeparator, k) by {
      if k != 0 {
        assert k - |DaySeparator| == |title| - |piece| - |DaySeparator|;
      }
    }
    parseLongDate(piece)
  }

  /** Two occurrences of `"day, "` cannot overlap. */
  lemma DaySeparatorDoesNotOverlap(s: string, a: nat, b: nat)
    requires OccursAt(s, DaySeparator, a) && OccursAt(s, DaySeparator, b) && a < b
    ensures a + |DaySeparator| <= b
  {
    assert s[b] == 'd' by {
      assert s[b..b + 5][0] == s[b];
    }
    forall k | a < k < a + |DaySeparator| ensures s[k] != 'd' {
      assert s[k] == s[a..a + 5][k - a];
    }
  }

  /** When `k` holds the last `"day, "` of `s`, the date text is everything after it. */
  lemma LastPieceAfterFinalSeparator(s: string, k: nat)
    requires OccursAt(s, DaySeparator, k)
    requires forall j: nat :: k + |DaySeparator| <= j ==> !OccursAt(s, DaySeparator, j)
    ensures LastPiece(s, DaySeparator) == s[k + |DaySeparator|..]
  {
    var r := LastPiece(s, DaySeparator);
    var p := |s| - |r|;
    assert k < p;
    if p - 5 < k {
      DaySeparatorDoesNotOverlap(s, p - 5, k);
    } else if p - 5 > k {
      DaySeparatorDoesNotOverlap(s, k, p - 5);
    }
  }

  /**
   * A title of the form `prefix + "day, " + rest` whose `rest` holds no
   * further `"day, "` has `rest` parsed as its date; a title with no
   * `"day, "` at all is parsed whole.
   */
  lemma DateTextFollowsLastDaySeparator(prefix: string, rest: string, parseLongDate: string -> Option<Date>)
    requires forall j: nat :: !OccursAt(rest, DaySeparator, j)
    ensures ExtractDateFromTitle(prefix + DaySeparator + rest, parseLongDate) == parseLongDate(rest)
    ensures (forall j: nat :: !OccursAt(prefix, DaySeparator, j)) ==>
      ExtractDateFromTitle(prefix, parseLongDate) == parseLongDate(prefix)
  {
    var s := prefix + DaySeparator + rest;
    var k := |prefix|;
    assert s[k..k + 5] == DaySeparator;
    forall j: nat | k + 5 <= j ensures !OccursAt(s, DaySeparator, j) {
      if j + 5 <= |s| {
        assert s[j..j + 5] == rest[j - k - 5..j - k];
        assert !OccursAt(rest, DaySeparator, j - k - 5);
      }
    }
    LastPieceAfterFinalSeparator(s, k);
    assert s[k + 5..] == rest;
  }

  /**
   * `scrapeGame` from the parsed page on: the error marker short-circuits to
   * an error record; otherwise every field is extracted, absent elements
   * becoming their sentinel texts.
   */
  function ParseGame(gameId: int, page: Page, parseLongDate: string -> Option<Date>): (g: GameResult)
    ensures g.gameId == gameId
    ensures g.GameError? <==> page.hasErrorMarker
    ensures g.GameError? ==> g.error == NoGameMessage(gameId)
    ensures g.GameRecord? ==>
      && (TitleId in page.elements ==> g.title == page.elements[TitleId])
      && (TitleId !in page.elements ==> g.title == TitleMissing)
      && (CommentsId in page.elements ==> g.comments == page.elements[CommentsId])
      && (CommentsId !in page.elements ==> g.comments == CommentsMissing)
      && (FinalClueId in page.elements ==> g.finalJeopardy.clue == page.elements[FinalClueId])
      && (FinalClueId !in page.elements ==> g.finalJeopardy.clue == FinalClueMissing)
      && g.categories == page.categoryNames
      && g.categoryComments == page.categoryComments
      && (g.gameDate.Some? <==> ExtractDateFromTitle(g.title, parseLongDate).Some?)
      && (g.gameDate.Some? ==> g.gameDate.value == IsoFormat(ExtractDateFromTitle(g.title, parseLongDate).value))
    ensures g.GameRecord? ==>
      var n := |page.correctResponses|;
      var nj := |g.jeopardy.clues|;
      var nd := |g.doubleJeopardy.clues|;
      && g.jeopardy.cells == ScanGrid(page.elements, Jeopardy).cells
      && g.jeopardy.clues == ScanGrid(page.elements, Jeopardy).clues
      && g.doubleJeopardy.cells == ScanGrid(page.elements, DoubleJeopardy).cells
      && g.doubleJeopardy.clues == ScanGrid(page.elements, DoubleJeopardy).clues
      && |g.jeopardy.cells| == nj <= GridCells
      && |g.doubleJeopardy.cells| == nd <= GridCells
      && g.jeopardy.responses == Redistribute(page.correctResponses, nj, nd).jeopardy
      && g.doubleJeopardy.responses == Redistribute(page.correctResponses, nj, nd).doubleJeopardy
      && g.finalJeopardy.response == Redistribute(page.correctResponses, nj, nd).final
  {
    if page.hasErrorMarker then GameError(gameId, NoGameMessage(gameId))
    else
      var title := TextOr(page, TitleId, TitleMissing);
      var date := ExtractDateFromTitle(title, parseLongDate);
      var comments := TextOr(page, CommentsId, CommentsMissing);
      var j := ScanGrid(page.elements, Jeopardy);
      var dj := ScanGrid(page.elements, DoubleJeopardy);
      var finalClue := TextOr(page, FinalClueId, FinalClueMissing);
      var sp := Redistribute(page.correctResponses, |j.clues|, |dj.clues|);
      GameRecord(
        gameId,
        title,
        if date.Some? then Some(IsoFormat(date.value)) else None,
        comments,
        page.categoryNames,
        page.categoryComments,
        Round(j.clues, sp.jeopardy, j.cells),
        Round(dj.clues, sp.doubleJeopardy, dj.cells),
        FinalRound(finalClue, sp.final))
  }

  /** The archive's answer for an unknown identifier. */
  lemma MissingGameScenario(page: Page, parseLongDate: string -> Option<Date>)
    requires page.hasErrorMarker
    ensures ParseGame(9999999, page, parseLongDate) == GameError(9999999, "No game 9999999 in database")
  {
    MissingIdMessage();
  }
}
