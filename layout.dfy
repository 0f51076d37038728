/**
 * Export layout: millimetre-to-pixel conversion for the card surfaces, and
 * the placement of the cards on a 3 x 3 grid of print pages.
 */
module Layout {

  /** Print resolution of the rendered card surfaces, in dots per inch. */
  const Dpi: real := 300.0

  function MmToInches(mm: real): (r: real)
    ensures r * 25.4 == mm
  {
    mm / 25.4
  }

  /** `Math.ceil`: the least integer not below `x`. */
  function Ceil(x: real): (r: int)
    ensures x <= r as real < x + 1.0
  {
    -((-x).Floor)
  }

  /** `Math.round`: the nearest integer, halves rounded up. */
  function Round(x: real): (r: int)
    ensures r as real - 0.5 <= x < r as real + 0.5
  {
    (x + 0.5).Floor
  }

  /**
   * The margin of a card surface in pixels: rounded up, so that it is never
   * smaller than the requested margin, and by less than one pixel.
   */
  function MarginPixels(marginMm: real): (r: int)
    ensures r as real >= marginMm * Dpi / 25.4
    ensures (r - 1) as real < marginMm * Dpi / 25.4
  {
    Ceil(MmToInches(marginMm) * Dpi)
  }

  /** One inch, 25.4 mm, is 300 pixels. */
  lemma InchIsDpiPixels()
    ensures MmToInches(25.4) * Dpi == 300.0
  {
  }

  /** Card size in millimetres, and the margin the export asks for. */
  const CardWidthMm: real := 63.0
  const CardHeightMm: real := 88.0
  const ExportMarginMm: real := 0.0

  /** Width and height of a card surface: the rounded card size plus the margin on both sides. */
  function SurfaceSize(marginPx: int): (int, int)
  {
    (Round(MmToInches(CardWidthMm) * Dpi) + 2 * marginPx,
     Round(MmToInches(CardHeightMm) * Dpi) + 2 * marginPx)
  }

  /** The export renders every card on a 744 x 1039 pixel surface. */
  lemma ExportSurfaceSize()
    ensures MarginPixels(ExportMarginMm) == 0
    ensures SurfaceSize(MarginPixels(ExportMarginMm)) == (744, 1039)
  {
    var w := MmToInches(CardWidthMm) * Dpi;
    var h := MmToInches(CardHeightMm) * Dpi;
    assert w * 25.4 == 18900.0;
    assert 743.5 < w < 744.5;
    assert h * 25.4 == 26400.0;
    assert 1038.5 < h < 1039.5;
    assert Round(w) == 744;
    assert Round(h) == 1039;
  }

  /** Page geometry in tenths of a millimetre. */
  const PageMargin := 30
  const CellWidth := 635
  const CellHeight := 889
  const Columns := 3
  const CardsPerPage := 9

  /** Where one card image is drawn: its page (0 is the first) and top-left corner. */
  datatype Placement = Placement(page: nat, x: int, y: int)

  /** The place of the card at index `i` of the deck. */
  function PlacementOf(i: nat): Placement
  {
    var cell := i % CardsPerPage;
    Placement(i / CardsPerPage,
              PageMargin + (cell % Columns) * CellWidth,
              PageMargin + (cell / Columns) * CellHeight)
  }

  /**
   * What the export adds to the document: the pages added after the first
   * (the document starts with one page) and one placement per card.
   */
  datatype Document = Document(addedPages: nat, placements: seq<Placement>)

  function PageCount(doc: Document): nat
  {
    1 + doc.addedPages
  }

  lemma {:induction false} PageAdvance(i: nat)
    requires i > 0
    ensures i / CardsPerPage == (if i % CardsPerPage == 0 then (i - 1) / CardsPerPage + 1 else (i - 1) / CardsPerPage)
  {
  }

  /**
   * The document an export of `n` cards produces: card i at PlacementOf(i),
   * and one page added after the first for each further group of nine cards.
   */
  predicate Paginated(doc: Document, n: nat)
  {
    |doc.placements| == n &&
    (forall i :: 0 <= i < n ==> doc.placements[i] == PlacementOf(i)) &&
    doc.addedPages == if n == 0 then 0 else (n - 1) / CardsPerPage
  }

  /**
   * The export loop: a new page whenever the index is a positive multiple
   * of nine, and each card at the running position within its page.
   */
  method Paginate(n: nat) returns (doc: Document)
    ensures Paginated(doc, n)
  {
    var pages: nat := 0;
    var position := 0;
    var placed: seq<Placement> := [];
    for i := 0 to n
      invariant |placed| == i
      invariant forall k :: 0 <= k < i ==> placed[k] == PlacementOf(k)
      invariant pages == if i == 0 then 0 else (i - 1) / CardsPerPage
      invariant position == i - CardsPerPage * pages
    {
      if i % 9 == 0 && i / 9 > 0 {
        pages := pages + 1;
        position := 0;
      }
      if i > 0 {
        PageAdvance(i);
      }
      placed := placed + [Placement(pages, PageMargin + (position % 3) * CellWidth,
                                           PageMargin + (position / 3) * CellHeight)];
      position := position + 1;
    }
    doc := Document(pages, placed);
  }

  /** A non-empty export has ceil(n / 9) pages. */
  lemma PageCountIsCeiling(doc: Document, n: nat)
    requires Paginated(doc, n) && n > 0
    ensures PageCount(doc) == (n + CardsPerPage - 1) / CardsPerPage
  {
  }

  /** No page is left empty: page p of an export of n cards holds card 9p. */
  lemma EveryPageUsed(n: nat, p: nat)
    requires n > 0 && p <= (n - 1) / CardsPerPage
    ensures CardsPerPage * p < n && PlacementOf(CardsPerPage * p) == Placement(p, PageMargin, PageMargin)
  {
  }

  /** The placement in millimetres is the 3 mm margin plus whole cells of 63.5 x 88.9 mm. */
  lemma PlacementInMillimetres(i: nat)
    ensures PlacementOf(i).x as real / 10.0 == 3.0 + ((i % 9) % 3) as real * 63.5
    ensures PlacementOf(i).y as real / 10.0 == 3.0 + ((i % 9) / 3) as real * 88.9
  {
  }

  /** Every card image lies inside an A4 page (2100 x 2970 tenths of a millimetre). */
  lemma PlacementInsidePage(i: nat)
    ensures PageMargin <= PlacementOf(i).x && PlacementOf(i).x + CellWidth <= 2100
    ensures PageMargin <= PlacementOf(i).y && PlacementOf(i).y + CellHeight <= 2970
  {
  }

  /** Two different cards on the same page do not overlap. */
  lemma PlacementsDisjoint(i: nat, j: nat)
    requires i != j
    ensures PlacementOf(i).page == PlacementOf(j).page ==>
              PlacementOf(i).x + CellWidth <= PlacementOf(j).x ||
              PlacementOf(j).x + CellWidth <= PlacementOf(i).x ||
              PlacementOf(i).y + CellHeight <= PlacementOf(j).y ||
              PlacementOf(j).y + CellHeight <= PlacementOf(i).y
  {
    if PlacementOf(i).page == PlacementOf(j).page {
      assert i == 9 * (i / 9) + i % 9;
      assert j == 9 * (j / 9) + j % 9;
      assert i % 9 != j % 9;
      var ci, cj := i % 9, j % 9;
      assert ci == 3 * (ci / 3) + ci % 3;
      assert cj == 3 * (cj / 3) + cj % 3;
    }
  }

  /** Ten cards: nine fill the first page row by row, the tenth opens the second. */
  lemma TenCardExample(doc: Document)
    requires Paginated(doc, 10)
    ensures PageCount(doc) == 2
    ensures forall i :: 0 <= i < 9 ==>
              doc.placements[i] == Placement(0, 30 + (i % 3) * 635, 30 + (i / 3) * 889)
    ensures doc.placements[1] == Placement(0, 665, 30)
    ensures doc.placements[3] == Placement(0, 30, 919)
    ensures doc.placements[9] == Placement(1, 30, 30)
  {
  }
}
