/** The body of the PDF that `downloadPDF` in src/script.js writes: the list of lines
    and where each line is drawn. The drawing itself (jsPDF) is not modelled; a line is
    placed on a page at a vertical position, in points from the top of an A4 page. */
module PdfLayout {
  import opened Text
  import Wrap
  import LocalReport

  /** Where the first body line is drawn, below the title. */
  const FirstY: int := 90
  /** Where the first line of every later page is drawn. */
  const TopY: int := 60
  /** A line is drawn at a position no lower than this; past it a new page starts. */
  const BottomY: int := 750
  /** The distance between two lines. */
  const Step: int := 14
  /** The wrapping threshold, in characters, of the findings and the measurements. */
  const Width: nat := 90

  /** How many lines the first page holds, and how many every later page holds. */
  const FirstPageLines: nat := 48
  const PageLines: nat := 50

  /** A line drawn at height `y` of page `page` (pages numbered from 1). */
  datatype Placement = Placement(page: nat, y: int, text: string)

  /** The page of the line with index `i`. */
  function PageOf(i: nat): nat {
    if i < FirstPageLines then 1 else 2 + (i - FirstPageLines) / PageLines
  }

  /** The height of the line with index `i`. */
  function YOf(i: nat): int {
    if i < FirstPageLines then FirstY + Step * i
    else TopY + Step * ((i - FirstPageLines) % PageLines)
  }

  /** `report.x || '—'` for a text field. */
  function OrDash(s: string): (r: string)
    ensures r != []
    ensures s != [] ==> r == s
    ensures s == [] ==> r == LocalReport.Dash
  {
    if s == [] then LocalReport.Dash else s
  }

  /** The four lines in front of the findings. */
  function Head(name: string, age: string): seq<string> {
    ["Paciente: " + OrDash(name), "Idade: " + OrDash(age), "", "Achados:"]
  }

  /** The two lines between the findings and the measurements. */
  const Middle: seq<string> := ["", "Medi\U{E7}\U{F5}es:"]

  /** The lines of the PDF body: patient name and age, a blank line, the findings
      wrapped at 90 characters, a blank line and the measurements (their JSON text)
      wrapped at 90 characters; `Wrap.WrappedOfText` states what the two wrapped
      sections hold. */
  method PdfLines(name: string, age: string, findings: string, measurementsJson: string)
    returns (lines: seq<string>)
    ensures lines == Head(name, age) + Wrap.Wrapped(Words(OrDash(findings)), Width) + Middle
                     + Wrap.Wrapped(Words(measurementsJson), Width)
  {
    var f := Wrap.WrapText(OrDash(findings), Width);
    var m := Wrap.WrapText(measurementsJson, Width);
    lines := Head(name, age) + f + Middle + m;
  }

  /** The drawing loop: `y` starts at 90; before each line, a `y` past 750 starts a new
      page at 60; after each line `y` moves down by 14. */
  method Paginate(lines: seq<string>) returns (placed: seq<Placement>)
    ensures |placed| == |lines|
    ensures forall i :: 0 <= i < |lines| ==> placed[i] == Placement(PageOf(i), YOf(i), lines[i])
  {
    var y := FirstY;
    var page := 1;
    placed := [];
    for i := 0 to |lines|
      invariant |placed| == i
      invariant forall k :: 0 <= k < i ==> placed[k] == Placement(PageOf(k), YOf(k), lines[k])
      invariant i == 0 ==> y == FirstY && page == 1
      invariant i > 0 ==> y == YOf(i - 1) + Step && page == PageOf(i - 1)
    {
      if y > BottomY {
        page := page + 1;
        y := TopY;
      }
      if i > 0 {
        NextLine(i - 1);
      }
      placed := placed + [Placement(page, y, lines[i])];
      y := y + Step;
    }
  }

  // ---------------------------------------------------------------------------
  // Lemmas

  /** From one line to the next: the next line goes 14 points lower on the same page
      when that stays within 750, and otherwise to the top of the next page. */
  lemma NextLine(i: nat)
    ensures YOf(i) + Step <= BottomY ==> PageOf(i + 1) == PageOf(i) && YOf(i + 1) == YOf(i) + Step
    ensures YOf(i) + Step > BottomY ==> PageOf(i + 1) == PageOf(i) + 1 && YOf(i + 1) == TopY
  {
    if i + 1 < FirstPageLines {
    } else if i + 1 == FirstPageLines {
    } else {
      var k := i - FirstPageLines;
      if (k + 1) % PageLines == 0 {
        assert (k + 1) / PageLines == k / PageLines + 1;
      } else {
        assert (k + 1) / PageLines == k / PageLines;
        assert (k + 1) % PageLines == k % PageLines + 1;
      }
    }
  }

  /** Every line is drawn between 60 and 750. */
  lemma LineOnPage(i: nat)
    ensures TopY <= YOf(i) <= BottomY
  {
  }

  /** The first page holds the first 48 lines, and page `p` after it the next 50:
      lines `48 + 50 * (p - 2)` up to `48 + 50 * (p - 1)`. */
  lemma PageCapacity(i: nat, p: nat)
    ensures PageOf(i) == 1 <==> i < FirstPageLines
    ensures p >= 2 ==> (PageOf(i) == p <==>
      FirstPageLines + PageLines * (p - 2) <= i < FirstPageLines + PageLines * (p - 1))
  {
    if p >= 2 && i >= FirstPageLines {
      var k := i - FirstPageLines;
      var q := k / PageLines;
      assert k == PageLines * q + k % PageLines;
      if FirstPageLines + PageLines * (p - 2) <= i < FirstPageLines + PageLines * (p - 1) {
        DivInRange(k, p - 2);
      }
    }
  }

  /** `k / 50` is `q` exactly when `k` lies in `[50 * q, 50 * (q + 1))`. */
  lemma DivInRange(k: nat, q: nat)
    requires PageLines * q <= k < PageLines * (q + 1)
    ensures k / PageLines == q
  {
    var r := k - PageLines * q;
    assert k == PageLines * q + r && 0 <= r < PageLines;
  }
}
