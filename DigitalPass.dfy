/** The pass screen's export: the file name derived from the attendee name,
    the hand-drawn PDF layout, and the `isDownloading` flag around it. The
    PDF library is represented only by the draw commands issued to it. */
module DigitalPass {
  import opened Records
  import opened JsText

  // ---------------------------------------------------------------------
  // File name: `name.replace(/\s+/g, '-')` between a prefix and ".pdf"
  // ---------------------------------------------------------------------

  /** Replaces every maximal run of whitespace with a single hyphen, the
      effect of a global, greedy `\s+` replacement. */
  function CollapseWhitespace(s: string): (r: string)
    ensures |r| <= |s|
  {
    CollapseFrom(s, false)
  }

  /** The replacement as a left-to-right scan: `inRun` says whether the
      previous character was whitespace. The first character of a run
      emits the hyphen, the rest of the run emits nothing, and every other
      character is copied. */
  function CollapseFrom(s: string, inRun: bool): (r: string)
    ensures |r| <= |s|
    decreases |s|
  {
    if s == [] then []
    else if IsWhitespace(s[0]) then (if inRun then "" else "-") + CollapseFrom(s[1..], true)
    else [s[0]] + CollapseFrom(s[1..], false)
  }

  /** Whether the scan is inside a whitespace run after reading `s`. */
  function EndsInRun(s: string, inRun: bool): bool {
    if s == [] then inRun else IsWhitespace(s[|s| - 1])
  }

  /** What the scan emits for one character. */
  function ScanOutput(c: char, inRun: bool): string {
    if IsWhitespace(c) then (if inRun then "" else "-") else [c]
  }

  /** One step of the scan. */
  lemma CollapseFromStep(s: string, inRun: bool)
    requires s != []
    ensures CollapseFrom(s, inRun) == ScanOutput(s[0], inRun) + CollapseFrom(s[1..], IsWhitespace(s[0]))
  {
  }

  /** Dropping the first character of a concatenation whose left part is
      not empty. */
  lemma DropFirstOfAppend(a: string, b: string)
    requires a != []
    ensures (a + b)[0] == a[0] && (a + b)[1..] == a[1..] + b
  {
  }

  /** The scan splits across any cut: the second part is scanned in the
      state the first part leaves. */
  lemma {:induction false} CollapseFromAppend(a: string, b: string, inRun: bool)
    ensures CollapseFrom(a + b, inRun) == CollapseFrom(a, inRun) + CollapseFrom(b, EndsInRun(a, inRun))
    decreases |a|
  {
    if a == [] {
      assert a + b == b;
    } else {
      var next := IsWhitespace(a[0]);
      var h := ScanOutput(a[0], inRun);
      var x, y := CollapseFrom(a[1..], next), CollapseFrom(b, EndsInRun(a, inRun));
      CollapseFromStep(a, inRun);
      assert CollapseFrom(a + b, inRun) == h + CollapseFrom(a[1..] + b, next) by {
        DropFirstOfAppend(a, b);
        CollapseFromStep(a + b, inRun);
      }
      assert CollapseFrom(a[1..] + b, next) == x + y by {
        CollapseFromAppend(a[1..], b, next);
        assert EndsInRun(a[1..], next) == EndsInRun(a, inRun) by {
          if |a| > 1 {
            assert a[1..][|a| - 2] == a[|a| - 1];
          }
        }
      }
      assert h + (x + y) == (h + x) + y;
    }
  }

  /** Text that does not start with whitespace is scanned the same way
      whether or not a run precedes it. */
  lemma CollapseFromOutsideRun(s: string)
    requires s == [] || !IsWhitespace(s[0])
    ensures CollapseFrom(s, true) == CollapseFrom(s, false)
  {
  }

  /** The result never contains whitespace. */
  lemma {:induction false} CollapseNoWhitespace(s: string, inRun: bool)
    ensures NoWhitespace(CollapseFrom(s, inRun))
    decreases |s|
  {
    if s != [] {
      PrintableAsciiNotWhitespace('-');
      CollapseNoWhitespace(s[1..], IsWhitespace(s[0]));
    }
  }

  /** A name without whitespace is left as it is. */
  lemma {:induction false} CollapseIdentity(s: string)
    requires NoWhitespace(s)
    ensures CollapseWhitespace(s) == s
    decreases |s|
  {
    if s != [] {
      assert !IsWhitespace(s[0]);
      assert NoWhitespace(s[1..]) by {
        forall i | 0 <= i < |s[1..]| ensures !IsWhitespace(s[1..][i]) {
          assert s[1..][i] == s[i + 1];
        }
      }
      CollapseIdentity(s[1..]);
    }
  }

  /** Collapsing twice is collapsing once. */
  lemma CollapseIdempotent(s: string)
    ensures CollapseWhitespace(CollapseWhitespace(s)) == CollapseWhitespace(s)
  {
    CollapseNoWhitespace(s, false);
    CollapseIdentity(CollapseWhitespace(s));
  }

  /** A whole whitespace run becomes one hyphen, or nothing when it
      continues a run. */
  lemma {:induction false} CollapseRunFrom(w: string, inRun: bool)
    requires AllWhitespace(w)
    ensures CollapseFrom(w, inRun) == if w == [] || inRun then "" else "-"
    decreases |w|
  {
    if w != [] {
      assert AllWhitespace(w[1..]) by {
        forall i | 0 <= i < |w[1..]| ensures IsWhitespace(w[1..][i]) {
          assert w[1..][i] == w[i + 1];
        }
      }
      CollapseRunFrom(w[1..], true);
    }
  }

  /** A whole whitespace run becomes exactly one hyphen. */
  lemma CollapseRun(w: string)
    requires w != [] && AllWhitespace(w)
    ensures CollapseWhitespace(w) == "-"
  {
    CollapseRunFrom(w, false);
  }

  /** A whitespace run followed by text that does not start with whitespace
      becomes one hyphen followed by that text, collapsed. */
  lemma CollapseRunThen(w: string, b: string)
    requires w != [] && AllWhitespace(w)
    requires b == [] || !IsWhitespace(b[0])
    ensures CollapseWhitespace(w + b) == "-" + CollapseWhitespace(b)
  {
    CollapseFromAppend(w, b, false);
    CollapseRunFrom(w, false);
    CollapseFromOutsideRun(b);
  }

  /** Collapsing works piecewise across a cut that does not split a
      whitespace run. */
  lemma CollapseAppend(a: string, b: string)
    requires a == [] || b == [] || !IsWhitespace(a[|a| - 1]) || !IsWhitespace(b[0])
    ensures CollapseWhitespace(a + b) == CollapseWhitespace(a) + CollapseWhitespace(b)
  {
    CollapseFromAppend(a, b, false);
    if b != [] && EndsInRun(a, false) {
      CollapseFromOutsideRun(b);
    }
  }

  const FileNamePrefix := "TEDx-Pass-"
  const FileNameSuffix := ".pdf"

  /** The name under which the PDF is saved. */
  function FileName(name: string): string {
    FileNamePrefix + CollapseWhitespace(name) + FileNameSuffix
  }

  /** A saved file name has the fixed prefix and extension, contains no
      whitespace, and keeps a whitespace-free attendee name unchanged. */
  lemma FileNameShape(name: string)
    ensures var f := FileName(name);
      |f| >= |FileNamePrefix| + |FileNameSuffix| &&
      f[..|FileNamePrefix|] == FileNamePrefix &&
      f[|f| - |FileNameSuffix|..] == FileNameSuffix &&
      NoWhitespace(f)
    ensures NoWhitespace(name) ==> FileName(name) == FileNamePrefix + name + FileNameSuffix
  {
    var c := CollapseWhitespace(name);
    CollapseNoWhitespace(name, false);
    PrintableAsciiNoWhitespace(FileNamePrefix);
    PrintableAsciiNoWhitespace(FileNameSuffix);
    var f := FileNamePrefix + c + FileNameSuffix;
    forall i | 0 <= i < |f| ensures !IsWhitespace(f[i]) {
      if i < |FileNamePrefix| {
        assert f[i] == FileNamePrefix[i];
      } else if i < |FileNamePrefix| + |c| {
        assert f[i] == c[i - |FileNamePrefix|];
      } else {
        assert f[i] == FileNameSuffix[i - |FileNamePrefix| - |c|];
      }
    }
    if NoWhitespace(name) {
      CollapseIdentity(name);
    }
  }

  /** Two words separated by a whitespace run are joined by one hyphen. */
  lemma CollapseTwoWords(x: string, w: string, y: string)
    requires NoWhitespace(x) && NoWhitespace(y)
    requires w != [] && AllWhitespace(w)
    ensures CollapseWhitespace(x + w + y) == x + "-" + y
  {
    assert x + w + y == x + (w + y);
    assert CollapseWhitespace(x + (w + y)) == x + CollapseWhitespace(w + y) by {
      if x != [] {
        assert !IsWhitespace(x[|x| - 1]);
      }
      CollapseAppend(x, w + y);
      CollapseIdentity(x);
    }
    assert CollapseWhitespace(w + y) == "-" + y by {
      if y != [] {
        assert !IsWhitespace(y[0]);
      }
      CollapseRunThen(w, y);
      CollapseIdentity(y);
    }
  }

  /** A two-word name is saved with one hyphen between the words. */
  lemma FileNameTwoWords(x: string, w: string, y: string)
    requires NoWhitespace(x) && NoWhitespace(y)
    requires w != [] && AllWhitespace(w)
    ensures FileName(x + w + y) == FileNamePrefix + x + "-" + y + FileNameSuffix
  {
    CollapseTwoWords(x, w, y);
  }

  /** "Jane Doe" is saved as "TEDx-Pass-Jane-Doe.pdf". The name is a
      parameter so that the verifier does not evaluate the scan on the
      literal character by character. */
  lemma FileNameExample(name: string)
    requires name == "Jane Doe"
    ensures FileName(name) == "TEDx-Pass-Jane-Doe.pdf"
  {
    var x, w, y := "Jane", " ", "Doe";
    PrintableAsciiNoWhitespace(x);
    PrintableAsciiNoWhitespace(y);
    assert name == x + w + y;
    FileNameTwoWords(x, w, y);
  }

  // ---------------------------------------------------------------------
  // PDF layout (millimetres on an A4 page)
  // ---------------------------------------------------------------------

  datatype Align = AlignLeft | AlignRight

  datatype ImageSource = Logo | QrCode(dataUrl: string)

  /** The drawing calls made on the PDF document. Colour, alpha and font
      settings carry no geometry and are not recorded. */
  datatype DrawCmd =
    | FillRect(x: int, y: int, w: int, h: int)
    | DrawImage(src: ImageSource, x: int, y: int, w: int, h: int)
    | DrawText(text: string, x: int, y: int, align: Align)
    | DrawLine(x1: int, y1: int, x2: int, y2: int)

  const Margin := 20
  const PassWidth := 170
  const PassHeight := 180
  const QrSize := 40

  const EventTitle := "TEDx Community Talk"
  const PdfTagline := "Ideas Worth Spreading"
  const EventDate := "August 6, 2025 \U{2022} 6:00 PM"
  const EventVenue := "University Auditorium"
  const EventCategory := "Student Community Event"

  /** The vertical position of a command (for a line, its start). */
  function Top(c: DrawCmd): int {
    match c
    case FillRect(_, y, _, _) => y
    case DrawImage(_, _, y, _, _) => y
    case DrawText(_, _, y, _) => y
    case DrawLine(_, y1, _, _) => y1
  }

  /** A command lies inside the box `[left, right] x [top, bottom]`: a
      rectangle or image with its whole extent, a text with its anchor, a
      line with both ends. */
  predicate Within(c: DrawCmd, left: int, top: int, right: int, bottom: int) {
    match c
    case FillRect(x, y, w, h) => left <= x && x + w <= right && top <= y && y + h <= bottom
    case DrawImage(_, x, y, w, h) => left <= x && x + w <= right && top <= y && y + h <= bottom
    case DrawText(_, x, y, _) => left <= x <= right && top <= y <= bottom
    case DrawLine(x1, y1, x2, y2) =>
      left <= x1 <= right && left <= x2 <= right && top <= y1 <= bottom && top <= y2 <= bottom
  }

  /** Each command starts lower on the page than the one before it (the
      page's y axis points down). */
  predicate StepsDown(cmds: seq<DrawCmd>) {
    forall i :: 0 < i < |cmds| ==> Top(cmds[i - 1]) < Top(cmds[i])
  }

  /** Every command starts lower on the page than every earlier one. */
  predicate TopToBottom(cmds: seq<DrawCmd>) {
    forall i, j :: 0 <= i < j < |cmds| ==> Top(cmds[i]) < Top(cmds[j])
  }

  /** Each command below its predecessor places every command below all
      earlier ones. */
  lemma {:induction false} StepsDownIsTopToBottom(cmds: seq<DrawCmd>)
    requires StepsDown(cmds)
    ensures TopToBottom(cmds)
    decreases |cmds|
  {
    if |cmds| > 1 {
      var init := cmds[..|cmds| - 1];
      assert StepsDown(init) by {
        forall i | 0 < i < |init| ensures Top(init[i - 1]) < Top(init[i]) {
          assert init[i - 1] == cmds[i - 1] && init[i] == cmds[i];
        }
      }
      StepsDownIsTopToBottom(init);
      forall i, j | 0 <= i < j < |cmds| ensures Top(cmds[i]) < Top(cmds[j]) {
        if j < |cmds| - 1 {
          assert cmds[i] == init[i] && cmds[j] == init[j];
        } else if i < j - 1 {
          assert cmds[i] == init[i] && cmds[j - 1] == init[j - 1];
        }
      }
    }
  }

  /** The page as drawn, in absolute coordinates: the black background, the
      logo, the pass label and identifier, the title and tagline, the
      attendee name and email, a separator, the three event lines and the
      QR image. */
  function PassLayout(record: PassRecord, qrImage: string): seq<DrawCmd> {
    [ FillRect(20, 20, 170, 180),
      DrawImage(Logo, 28, 28, 20, 20),
      DrawText("EVENT PASS", 182, 32, AlignRight),
      DrawText(record.passId, 182, 38, AlignRight),
      DrawText(EventTitle, 28, 60, AlignLeft),
      DrawText(PdfTagline, 28, 66, AlignLeft),
      DrawText("ATTENDEE", 28, 84, AlignLeft),
      DrawText(record.name, 28, 90, AlignLeft),
      DrawText("EMAIL", 28, 98, AlignLeft),
      DrawText(record.email, 28, 104, AlignLeft),
      DrawLine(28, 118, 182, 118),
      DrawText(EventDate, 34, 126, AlignLeft),
      DrawText(EventVenue, 34, 134, AlignLeft),
      DrawText(EventCategory, 34, 142, AlignLeft),
      DrawImage(QrCode(qrImage), 85, 160, 40, 40) ]
  }

  /** The background rectangle comes first and every later command lies
      inside it; each command is drawn below the previous one; the QR image
      is horizontally centred in the pass and its bottom edge meets the
      background's bottom edge. */
  lemma LayoutGeometry(record: PassRecord, qrImage: string)
    ensures var l := PassLayout(record, qrImage);
      |l| == 15 && l[0] == FillRect(Margin, Margin, PassWidth, PassHeight) &&
      (forall i :: 0 <= i < |l| ==>
         Within(l[i], Margin, Margin, Margin + PassWidth, Margin + PassHeight)) &&
      TopToBottom(l) &&
      l[14] == DrawImage(QrCode(qrImage), l[14].x, l[14].y, QrSize, QrSize) &&
      l[14].x - Margin == (Margin + PassWidth) - (l[14].x + QrSize) &&
      l[14].y + QrSize == Margin + PassHeight
  {
    LayoutInside(record, qrImage);
    LayoutStepsDown(record, qrImage);
    StepsDownIsTopToBottom(PassLayout(record, qrImage));
  }

  lemma LayoutInside(record: PassRecord, qrImage: string)
    ensures var l := PassLayout(record, qrImage);
      forall i :: 0 <= i < |l| ==> Within(l[i], Margin, Margin, Margin + PassWidth, Margin + PassHeight)
  {
  }

  lemma LayoutStepsDown(record: PassRecord, qrImage: string)
    ensures StepsDown(PassLayout(record, qrImage))
  {
    var l := PassLayout(record, qrImage);
    forall i | 0 < i < |l| ensures Top(l[i - 1]) < Top(l[i]) {
    }
  }

  /** The attendee's data is drawn in the fixed order pass identifier, name,
      email, followed by the separator and the QR image last. */
  lemma LayoutOrder(record: PassRecord, qrImage: string)
    ensures var l := PassLayout(record, qrImage);
      l[3].DrawText? && l[3].text == record.passId &&
      l[7].DrawText? && l[7].text == record.name &&
      l[9].DrawText? && l[9].text == record.email &&
      l[10].DrawLine? &&
      l[|l| - 1].DrawImage? && l[|l| - 1].src == QrCode(qrImage) &&
      forall i :: 0 <= i < |l| - 1 ==> !l[i].DrawImage? || l[i].src == Logo
  {
  }

  /** Draws the pass the way the download handler does: a running `yPos`
      moved down section by section, every position derived from the
      margin and the pass width. */
  method DrawPass(record: PassRecord, qrImage: string) returns (cmds: seq<DrawCmd>)
    ensures cmds == PassLayout(record, qrImage)
  {
    var margin := Margin;
    var width := PassWidth;
    var yPos := margin;

    cmds := [FillRect(margin, yPos, width, PassHeight)];
    cmds := cmds + [DrawImage(Logo, margin + 8, yPos + 8, 20, 20)];
    cmds := cmds + [DrawText("EVENT PASS", margin + width - 8, yPos + 12, AlignRight)];
    cmds := cmds + [DrawText(record.passId, margin + width - 8, yPos + 18, AlignRight)];

    yPos := yPos + 40;
    cmds := cmds + [DrawText(EventTitle, margin + 8, yPos, AlignLeft)];
    cmds := cmds + [DrawText(PdfTagline, margin + 8, yPos + 6, AlignLeft)];

    yPos := yPos + 24;
    cmds := cmds + [DrawText("ATTENDEE", margin + 8, yPos, AlignLeft)];
    cmds := cmds + [DrawText(record.name, margin + 8, yPos + 6, AlignLeft)];

    yPos := yPos + 14;
    cmds := cmds + [DrawText("EMAIL", margin + 8, yPos, AlignLeft)];
    cmds := cmds + [DrawText(record.email, margin + 8, yPos + 6, AlignLeft)];

    yPos := yPos + 20;
    cmds := cmds + [DrawLine(margin + 8, yPos, margin + width - 8, yPos)];
    yPos := yPos + 8;

    cmds := cmds + [DrawText(EventDate, margin + 14, yPos, AlignLeft)];
    yPos := yPos + 8;
    cmds := cmds + [DrawText(EventVenue, margin + 14, yPos, AlignLeft)];
    yPos := yPos + 8;
    cmds := cmds + [DrawText(EventCategory, margin + 14, yPos, AlignLeft)];

    yPos := yPos + 18;
    var qrSize := QrSize;
    // (170 - 40) / 2 is exact, so integer division agrees with JavaScript's
    var qrX := margin + (width - qrSize) / 2;
    cmds := cmds + [DrawImage(QrCode(qrImage), qrX, yPos, qrSize, qrSize)];
  }

  // ---------------------------------------------------------------------
  // The download handler and its busy flag
  // ---------------------------------------------------------------------

  /** How rasterising the pass element and its QR region ended. */
  datatype Rasterization = Rasterized(qrImage: string) | RasterFailed

  /** What the handler does, in order. */
  datatype DownloadEffect =
    | SetDownloading(on: bool)
    | SavePdf(fileName: string, content: seq<DrawCmd>)
    | LogError

  /** The effects of one call, given whether the pass element is mounted
      and how rasterisation ended. */
  function DownloadEffects(mounted: bool, record: PassRecord, raster: Rasterization): seq<DownloadEffect> {
    if !mounted then []
    else
      [SetDownloading(true)] +
      (match raster
       case Rasterized(qr) => [SavePdf(FileName(record.name), PassLayout(record, qr))]
       case RasterFailed => [LogError]) +
      [SetDownloading(false)]
  }

  /** With no mounted element nothing happens; otherwise the flag is set
      first and cleared last, whether or not the export succeeded. */
  lemma DownloadFlagBracket(mounted: bool, record: PassRecord, raster: Rasterization)
    ensures var e := DownloadEffects(mounted, record, raster);
      (!mounted <==> e == []) &&
      (mounted ==> e[0] == SetDownloading(true) && e[|e| - 1] == SetDownloading(false) &&
                   forall i :: 0 < i < |e| - 1 ==> !e[i].SetDownloading?)
  {
  }

  /** A file is saved exactly when the element is mounted and rasterisation
      succeeded; it is named after the attendee and holds the pass layout. */
  lemma SavedIffRasterized(mounted: bool, record: PassRecord, raster: Rasterization, f: string, c: seq<DrawCmd>)
    ensures SavePdf(f, c) in DownloadEffects(mounted, record, raster) <==>
      mounted && raster.Rasterized? && f == FileName(record.name) && c == PassLayout(record, raster.qrImage)
  {
  }

  /** The pass component's export state. */
  class PassView {
    const record: PassRecord
    var isDownloading: bool
    var effects: seq<DownloadEffect>

    constructor (record: PassRecord)
      ensures this.record == record && !isDownloading && effects == []
    {
      this.record := record;
      isDownloading := false;
      effects := [];
    }

    /** `mounted` says whether the pass element is attached (the ref is not
        null); `raster` is how rasterisation ended. */
    method HandleDownload(mounted: bool, raster: Rasterization)
      modifies this`isDownloading, this`effects
      ensures effects == old(effects) + DownloadEffects(mounted, record, raster)
      ensures isDownloading == if mounted then false else old(isDownloading)
    {
      if mounted {
        ghost var before := effects;
        isDownloading := true;
        effects := effects + [SetDownloading(true)];
        match raster {
          case Rasterized(qr) =>
            var cmds := DrawPass(record, qr);
            effects := effects + [SavePdf(FileName(record.name), cmds)];
          case RasterFailed =>
            effects := effects + [LogError];
        }
        isDownloading := false;
        effects := effects + [SetDownloading(false)];
        assert effects == before + DownloadEffects(mounted, record, raster);
      }
    }
  }
}
