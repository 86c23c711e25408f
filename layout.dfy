/**
 * The text section of `jpeg_to_pdf_with_text`: a ReportLab canvas and its
 * text objects, and the loop that writes the extracted text line by line,
 * breaking the page whenever the cursor has gone below the bottom margin.
 *
 * Vertical positions are integers in a unit fine enough for the page
 * geometry to be exact: tenths of a point for US Letter, where the 12-point
 * font's default leading is 14.4 points.
 */
module Layout {
  import opened PyStr

  /** Page height, the 50-point margin (top and bottom) and the line leading, in one unit. */
  datatype Geometry = Geometry(height: int, margin: int, leading: int)
  {
    /** A page on which at least two lines fit between the margins. */
    predicate Valid()
    {
      leading > 0 && margin >= 0 && height - 2 * margin >= leading
    }

    /** Where a text object starts: `height - 50`. */
    function Top(): int
    {
      height - margin
    }

    /** How many lines one page receives before the cursor falls below the margin. */
    function PerPage(): (n: nat)
      requires Valid()
      ensures n >= 2
      ensures Top() - (n - 1) * leading >= margin
      ensures Top() - n * leading < margin
    {
      (height - 2 * margin) / leading + 1
    }
  }

  /** US Letter (792 points high), a 50-point margin and 14.4-point leading, in tenths of a point. */
  const Letter: Geometry := Geometry(7920, 500, 144)

  /** The first text line written when text was found, followed by an empty line. */
  const Header: string := "EXTRACTED TEXT:"

  /** The only line written when no text was found. */
  const Placeholder: string := "No text was detected in the image."

  /** A text line and the height of its baseline. */
  datatype PlacedLine = PlacedLine(text: string, y: int)

  /** A finished page: whether the source image was drawn on it, and its text lines. */
  datatype Page = Page(image: bool, lines: seq<PlacedLine>)

  const Blank: Page := Page(false, [])

  /** A ReportLab text object: a cursor and the lines written so far. */
  class TextObject {
    var y: int
    var lines: seq<PlacedLine>
    const leading: int

    /** `canvas.beginText(50, y)` followed by `setFont("Helvetica", 12)`. */
    constructor (y: int, leading: int)
      ensures this.y == y && this.leading == leading && lines == []
    {
      this.y := y;
      this.leading := leading;
      lines := [];
    }

    /** `textLine(s)`: write `s` at the cursor, then move the cursor down one line. */
    method TextLine(s: string)
      modifies this
      ensures lines == old(lines) + [PlacedLine(s, old(y))]
      ensures y == old(y) - leading
    {
      lines := lines + [PlacedLine(s, y)];
      y := y - leading;
    }
  }

  /** A ReportLab canvas: the finished pages and the page being drawn. */
  class Canvas {
    var pages: seq<Page>
    var current: Page

    constructor ()
      ensures pages == [] && current == Blank
    {
      pages := [];
      current := Blank;
    }

    /** `drawImage`: the source image appears on the current page. */
    method DrawImage()
      modifies this
      ensures pages == old(pages)
      ensures current == Page(true, old(current).lines)
    {
      current := Page(true, current.lines);
    }

    /** `drawText(t)`: the text object's lines are added to the current page. */
    method DrawText(t: TextObject)
      modifies this
      ensures pages == old(pages)
      ensures current == Page(old(current).image, old(current).lines + t.lines)
    {
      current := Page(current.image, current.lines + t.lines);
    }

    /** `showPage()`: the current page is finished, even when blank, and a new one begun. */
    method ShowPage()
      modifies this
      ensures pages == old(pages) + [old(current)]
      ensures current == Blank
    {
      pages := pages + [current];
      current := Blank;
    }

    /** `save()`: a page with content still pending is finished first; the document is the pages. */
    method Save() returns (document: seq<Page>)
      modifies this
      ensures current == Blank
      ensures pages == document
      ensures document == if old(current) != Blank then old(pages) + [old(current)] else old(pages)
    {
      if current != Blank {
        ShowPage();
      }
      document := pages;
    }
  }

  /** The lines of the text section, in the order they are written. */
  function TextItems(text: string): (items: seq<string>)
  {
    if text != "" then [Header, ""] + Split(text, '\n') else [Placeholder]
  }

  /** Lines set one leading apart from the top of a page. */
  function Place(items: seq<string>, g: Geometry): (r: seq<PlacedLine>)
    ensures |r| == |items|
    ensures forall i :: 0 <= i < |items| ==> r[i] == PlacedLine(items[i], g.Top() - i * g.leading)
  {
    seq(|items|, i requires 0 <= i < |items| => PlacedLine(items[i], g.Top() - i * g.leading))
  }

  /**
   * Reference layout: the items cut into pages of `PerPage()` lines, each
   * page's lines placed from the top. The last page may be shorter.
   */
  function Paginate(items: seq<string>, g: Geometry): (pages: seq<Page>)
    requires g.Valid()
    ensures pages != []
    decreases |items|
  {
    var n := g.PerPage();
    if |items| <= n then [Page(false, Place(items, g))]
    else [Page(false, Place(items[..n], g))] + Paginate(items[n..], g)
  }

  /** Every line text, page after page. */
  function Texts(pages: seq<Page>): seq<string>
  {
    if pages == [] then [] else LineTexts(pages[0].lines) + Texts(pages[1..])
  }

  function LineTexts(lines: seq<PlacedLine>): (r: seq<string>)
    ensures |r| == |lines|
    ensures forall i :: 0 <= i < |lines| ==> r[i] == lines[i].text
  {
    seq(|lines|, i requires 0 <= i < |lines| => lines[i].text)
  }

  /** The cursor goes below the margin exactly once a page holds `PerPage()` lines. */
  lemma {:induction false} CursorBelowMargin(g: Geometry, k: int)
    requires g.Valid() && 0 <= k <= g.PerPage()
    ensures g.Top() - k * g.leading < g.margin <==> k == g.PerPage()
  {
    var n := g.PerPage();
    if k < n {
      var gap := n - 1 - k;
      assert gap * g.leading >= 0;
      assert k * g.leading == (n - 1) * g.leading - gap * g.leading;
    }
  }

  /** The last page of a layout, and how one more item extends the layout. */
  lemma {:induction false} PaginateSnoc(items: seq<string>, x: string, g: Geometry)
    requires g.Valid() && items != []
    ensures var pages := Paginate(items, g);
            var last := pages[|pages| - 1];
            1 <= |last.lines| <= g.PerPage()
            && !last.image
            && Paginate(items + [x], g) ==
                 if |last.lines| < g.PerPage()
                 then pages[..|pages| - 1] + [Page(false, last.lines + [PlacedLine(x, g.Top() - |last.lines| * g.leading)])]
                 else pages + [Page(false, [PlacedLine(x, g.Top())])]
    decreases |items|
  {
    var n := g.PerPage();
    var pages := Paginate(items, g);
    if |items| < n {
      var last := Page(false, Place(items, g));
      assert pages == [last];
      assert Paginate(items + [x], g) == [Page(false, last.lines + [PlacedLine(x, g.Top() - |last.lines| * g.leading)])] by {
        assert Place(items + [x], g) == Place(items, g) + [PlacedLine(x, g.Top() - |items| * g.leading)];
      }
    } else if |items| == n {
      assert pages == [Page(false, Place(items, g))];
      assert Paginate(items + [x], g) == pages + [Page(false, [PlacedLine(x, g.Top())])] by {
        assert (items + [x])[..n] == items;
        assert (items + [x])[n..] == [x];
        assert Place([x], g) == [PlacedLine(x, g.Top())];
      }
    } else {
      var first := Page(false, Place(items[..n], g));
      var rest := Paginate(items[n..], g);
      PaginateSnoc(items[n..], x, g);
      assert pages == [first] + rest;
      assert Paginate(items + [x], g) == [first] + Paginate(items[n..] + [x], g) by {
        assert (items + [x])[..n] == items[..n];
        assert (items + [x])[n..] == items[n..] + [x];
      }
      assert ([first] + rest)[..|rest|] == [first] + rest[..|rest| - 1];
    }
  }

  /**
   * The layout never drops, repeats, reorders, splits or merges a line:
   * reading the pages in order gives back the items.
   */
  lemma {:induction false} PaginateKeepsItems(items: seq<string>, g: Geometry)
    requires g.Valid()
    ensures Texts(Paginate(items, g)) == items
    decreases |items|
  {
    var n := g.PerPage();
    var pages := Paginate(items, g);
    if |items| <= n {
      assert LineTexts(Place(items, g)) == items;
      assert Texts(pages) == LineTexts(Place(items, g)) + Texts([]);
    } else {
      PaginateKeepsItems(items[n..], g);
      assert pages[1..] == Paginate(items[n..], g);
      assert LineTexts(pages[0].lines) == items[..n];
      assert items == items[..n] + items[n..];
    }
  }

  /**
   * Every line sits between the margins, one leading below the line before
   * it on the same page, and no page holds more than `PerPage()` lines.
   */
  lemma {:induction false} PaginateWithinMargins(items: seq<string>, g: Geometry)
    requires g.Valid()
    ensures forall p :: 0 <= p < |Paginate(items, g)| ==>
              var page := Paginate(items, g)[p];
              |page.lines| <= g.PerPage() && !page.image
              && forall i :: 0 <= i < |page.lines| ==>
                   page.lines[i].y == g.Top() - i * g.leading
                   && g.margin <= page.lines[i].y <= g.Top()
    decreases |items|
  {
    var n := g.PerPage();
    var pages := Paginate(items, g);
    forall i | 0 <= i < n
      ensures g.margin <= g.Top() - i * g.leading <= g.Top()
    {
      CursorBelowMargin(g, i);
    }
    if |items| > n {
      PaginateWithinMargins(items[n..], g);
      assert forall p :: 1 <= p < |pages| ==> pages[p] == Paginate(items[n..], g)[p - 1];
    }
  }

  /** A layout of `N >= 1` items takes `ceil(N / PerPage())` pages. */
  lemma {:induction false} PaginatePageCount(items: seq<string>, g: Geometry)
    requires g.Valid() && items != []
    ensures |Paginate(items, g)| == (|items| + g.PerPage() - 1) / g.PerPage()
    decreases |items|
  {
    var n := g.PerPage();
    if |items| <= n {
      DivisionIs(|items| + n - 1, n, 1, |items| - 1);
    } else {
      PaginatePageCount(items[n..], g);
      var m := |items| - n + n - 1;
      DivisionIs(m + n, n, m / n + 1, m % n);
    }
  }

  /**
   * One body line written by the loop of `AddTextSection` extends the
   * layout: on the same page while it has room, else on a fresh page.
   */
  lemma {:induction false} LayoutStep(base: seq<Page>, done: seq<Page>, last: seq<PlacedLine>, items: seq<string>, x: string, g: Geometry)
    requires g.Valid() && items != [] && 1 <= |last| <= g.PerPage()
    requires done + [Page(false, last)] == base + Paginate(items, g)
    ensures |last| == g.PerPage() ==>
              done + [Page(false, last)] + [Page(false, [PlacedLine(x, g.Top())])] == base + Paginate(items + [x], g)
    ensures |last| < g.PerPage() ==>
              done + [Page(false, last + [PlacedLine(x, g.Top() - |last| * g.leading)])] == base + Paginate(items + [x], g)
  {
    var pages := Paginate(items, g);
    PaginateSnoc(items, x, g);
    assert |done| == |base| + |pages| - 1;
    assert (done + [Page(false, last)])[|done|] == (base + pages)[|done|];
    assert (done + [Page(false, last)])[..|done|] == done;
    assert (base + pages)[..|base + pages| - 1] == base + pages[..|pages| - 1];
    assert done == base + pages[..|pages| - 1];
  }

  lemma {:induction false} MulSucc(a: int, b: int)
    ensures (a + 1) * b == a * b + b
  {
  }

  /** Integer division is determined by a quotient and a remainder in range. */
  lemma {:induction false} DivisionIs(x: int, d: int, q: int, r: int)
    requires d > 0 && 0 <= r < d && x == q * d + r
    ensures x / d == q
  {
    var q', r' := x / d, x % d;
    assert (q - q') * d == r' - r;
    if q - q' >= 1 {
      assert false;
    } else if q - q' <= -1 {
      assert false;
    }
  }

  /**
   * Lines 121-149 of `jpeg_to_pdf_with_text`: begin a new page, then write
   * the header, an empty line and each line of the text (or the placeholder
   * when there is no text), breaking the page before any line that would
   * start below the margin.
   */
  method AddTextSection(c: Canvas, text: string, g: Geometry)
    requires g.Valid()
    modifies c
    ensures c.pages + [c.current] == old(c.pages) + [old(c.current)] + Paginate(TextItems(text), g)
    ensures c.current.lines != []
  {
    c.ShowPage();
    ghost var base := c.pages;
    var t := new TextObject(g.Top(), g.leading);
    if text != "" {
      t.TextLine(Header);
      t.TextLine("");
      assert c.pages + [Page(false, t.lines)] == base + Paginate([Header, ""], g) by {
        assert Place([Header, ""], g) == t.lines;
      }
      t := WriteLines(c, t, Split(text, '\n'), g, base, [Header, ""]);
      c.DrawText(t);
      assert c.current == Page(false, t.lines);
    } else {
      t.TextLine(Placeholder);
      assert Place([Placeholder], g) == t.lines;
      c.DrawText(t);
      assert c.current == Page(false, t.lines);
      assert Paginate(TextItems(text), g) == [c.current];
    }
  }

  /**
   * The loop of `jpeg_to_pdf_with_text` over the lines of the text: before
   * each line, when the cursor has gone below the margin, the text object
   * is drawn, the page is finished and a new text object begins at the top.
   * The lines already written (`head`) were laid out from `base` on; the
   * text object returned holds the lines of the last page.
   */
  method WriteLines(c: Canvas, t0: TextObject, lines: seq<string>, g: Geometry, ghost base: seq<Page>, ghost head: seq<string>)
    returns (t: TextObject)
    requires g.Valid() && head != []
    requires c.current == Blank && t0.leading == g.leading
    requires 1 <= |t0.lines| <= g.PerPage() && t0.y == g.Top() - |t0.lines| * g.leading
    requires c.pages + [Page(false, t0.lines)] == base + Paginate(head, g)
    modifies c, t0
    ensures c.current == Blank && 1 <= |t.lines|
    ensures c.pages + [Page(false, t.lines)] == base + Paginate(head + lines, g)
  {
    t := t0;
    assert head + lines[..0] == head;
    for i := 0 to |lines|
      invariant t == t0 || fresh(t)
      invariant c.current == Blank
      invariant t.leading == g.leading
      invariant 1 <= |t.lines| <= g.PerPage()
      invariant t.y == g.Top() - |t.lines| * g.leading
      invariant c.pages + [Page(false, t.lines)] == base + Paginate(head + lines[..i], g)
    {
      ghost var last := t.lines;
      ghost var done := c.pages;
      CursorBelowMargin(g, |last|);
      if t.y < g.margin {
        c.DrawText(t);
        c.ShowPage();
        assert c.pages == done + [Page(false, last)] by {
          assert [] + last == last;
        }
        t := new TextObject(g.Top(), g.leading);
      }
      t.TextLine(lines[i]);
      MulSucc(|last|, g.leading);
      assert c.pages + [Page(false, t.lines)] == base + Paginate(head + lines[..i + 1], g) by {
        assert head + lines[..i + 1] == head + lines[..i] + [lines[i]];
        LayoutStep(base, done, last, head + lines[..i], lines[i], g);
        if |last| == g.PerPage() {
          assert t.lines == [PlacedLine(lines[i], g.Top())];
        } else {
          assert t.lines == last + [PlacedLine(lines[i], g.Top() - |last| * g.leading)];
        }
      }
    }
    assert lines[..|lines|] == lines;
  }
}
