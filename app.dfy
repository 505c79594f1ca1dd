/**
 * The generator page's state and its three actions: rendering a code,
 * resetting the form from the Home button, and choosing a download name.
 * The page's environment (the origin, the clock, the canvas element and its
 * 2D context, and whether the QR encoder succeeds) enters as parameters.
 */
module App {
  import opened Wrappers
  import opened JsText
  import opened Payload
  import UsageStats
  import FileName
  import Layout

  datatype BorderStyle = NoBorder | Solid | Dashed | Gradient

  datatype QRStyle = QRStyle(
    fgColor: JsString,
    bgColor: JsString,
    logoSize: int,
    borderStyle: BorderStyle,
    borderColor: JsString)

  datatype DownloadFormat = Png | Svg

  /** How a press of the generate button ends. */
  datatype RenderOutcome =
    | IncompleteInput          // an early return: the required field is empty
    | NoCanvas                 // the canvas element is not mounted
    | NoContext                // the canvas has no 2D context
    | EncoderFailed            // the encoder threw; the page shows an alert
    | Rendered(payload: JsString)

  /** The form as the page opens and as the Home button leaves it: a url
      code with every field empty and WPA encryption preselected. */
  function InitialQRData(): QRData
  {
    QRData(Url, [],
      Some(MapsData([], [], [])),
      Some(VCardData([], [], [], [], [])),
      Some(WifiData([], [], Lit("WPA"))))
  }

  /** Black on white, a 20 percent logo and a solid blue border. */
  function InitialStyle(): QRStyle
  {
    QRStyle(Lit("#000000"), Lit("#FFFFFF"), 20, Solid, Lit("#3B82F6"))
  }

  function DefaultFileName(): JsString
  {
    Lit("qrcode")
  }

  /** How a render with this form and this environment ends. */
  function OutcomeOf(data: QRData, lang: Language, origin: JsString,
                     hasCanvas: bool, hasContext: bool, encoderSucceeds: bool): RenderOutcome
  {
    match BuildPayload(data, origin, lang)
    case None => IncompleteInput
    case Some(p) =>
      if !hasCanvas then NoCanvas
      else if !hasContext then NoContext
      else if !encoderSucceeds then EncoderFailed
      else Rendered(p)
  }

  /** The extension a download is saved with. */
  function Extension(format: DownloadFormat): JsString
  {
    match format
    case Png => Lit(".png")
    case Svg => Lit(".svg")
  }

  /** The form decides whether there is anything to draw, the alert is shown
      exactly when everything is in place but the encoder throws, and a drawn
      code carries the payload the builder makes. */
  lemma OutcomeOfCases(data: QRData, lang: Language, origin: JsString,
                       hasCanvas: bool, hasContext: bool, encoderSucceeds: bool)
    ensures var o := OutcomeOf(data, lang, origin, hasCanvas, hasContext, encoderSucceeds);
      && (o == IncompleteInput <==> Incomplete(data))
      && (o == EncoderFailed <==> !Incomplete(data) && hasCanvas && hasContext && !encoderSucceeds)
      && (o.Rendered? <==> !Incomplete(data) && hasCanvas && hasContext && encoderSucceeds)
      && (o.Rendered? ==> BuildPayload(data, origin, lang) == Some(o.payload) && |o.payload| > 0)
  {
    BuildPayloadDefined(data, origin, lang);
  }

  /** The form after a reset has nothing to encode, whatever the language. */
  lemma ResetFormIsIncomplete(origin: JsString, lang: Language)
    ensures Incomplete(InitialQRData())
    ensures OutcomeOf(InitialQRData(), lang, origin, true, true, true) == IncompleteInput
  {
    BuildPayloadDefined(InitialQRData(), origin, lang);
  }

  class Session {
    var lang: Language
    var qrData: QRData
    var qrStyle: QRStyle
    /** The uploaded logo as a data URL. */
    var logo: Option<JsString>
    var fileName: JsString
    var qrGenerated: bool
    var analytics: UsageStats.Analytics
    var canvasWidth: int
    var canvasHeight: int
    /** Every render that reached the counters, as (type, day), oldest first. */
    ghost var renders: seq<(QRType, JsString)>

    /** The counters are those of the renders so far, the canvas is the size
        both the markup and the renderer give it, and the logo size is a
        slider value. */
    ghost predicate Valid()
      reads this
    {
      && analytics == UsageStats.Replay(renders)
      && canvasWidth == canvasHeight == Layout.CanvasSize()
      && Layout.MinLogoSize <= qrStyle.logoSize <= Layout.MaxLogoSize
    }

    /** Both breakdowns of the counters add up to the total. */
    lemma AnalyticsConsistent()
      requires Valid()
      ensures UsageStats.Consistent(analytics)
    {
      UsageStats.ReplayConsistent(renders);
    }

    /** The page as it opens: Vietnamese, the initial form and style, no
        logo, the default file name, nothing rendered and all counters 0. */
    constructor ()
      ensures Valid()
      ensures lang == Vi && qrData == InitialQRData() && qrStyle == InitialStyle()
      ensures logo == None && fileName == DefaultFileName() && !qrGenerated
      ensures analytics == UsageStats.Initial() && renders == []
    {
      lang := Vi;
      qrData := InitialQRData();
      qrStyle := InitialStyle();
      logo := None;
      fileName := DefaultFileName();
      qrGenerated := false;
      analytics := UsageStats.Initial();
      canvasWidth := 480;
      canvasHeight := 480;
      renders := [];
    }

    /** The Home button: the form, the style, the logo, the file name and the
        rendered flag go back to their initial values; the language, the
        counters and the canvas size stay. */
    method HandleHomeClick()
      requires Valid()
      modifies this
      ensures Valid()
      ensures qrData == InitialQRData() && qrStyle == InitialStyle()
      ensures logo == None && fileName == DefaultFileName() && !qrGenerated
      ensures lang == old(lang) && analytics == old(analytics) && renders == old(renders)
      ensures canvasWidth == old(canvasWidth) && canvasHeight == old(canvasHeight)
    {
      qrData := InitialQRData();
      qrStyle := InitialStyle();
      logo := None;
      fileName := DefaultFileName();
      qrGenerated := false;
    }

    /** The generate button, with the page origin, the current ISO timestamp
        and the environment's answers as parameters. A render that draws a
        code counts it under its type and under the timestamp's date and
        sets the rendered flag; every other outcome leaves both alone. The
        canvas is resized once the context exists. */
    method GenerateQRCode(origin: JsString, nowIso: JsString,
                          hasCanvas: bool, hasContext: bool, encoderSucceeds: bool)
      returns (outcome: RenderOutcome)
      requires Valid()
      modifies this
      ensures Valid()
      ensures outcome == OutcomeOf(old(qrData), old(lang), origin, hasCanvas, hasContext, encoderSucceeds)
      ensures lang == old(lang) && qrData == old(qrData) && qrStyle == old(qrStyle)
      ensures logo == old(logo) && fileName == old(fileName)
      ensures outcome.Rendered? ==>
        && analytics == UsageStats.Record(old(analytics), old(qrData).qrType, UsageStats.DayKey(nowIso))
        && renders == old(renders) + [(old(qrData).qrType, UsageStats.DayKey(nowIso))]
        && qrGenerated
      ensures !outcome.Rendered? ==>
        analytics == old(analytics) && renders == old(renders) && qrGenerated == old(qrGenerated)
    {
      var payload := BuildPayload(qrData, origin, lang);
      if payload.None? {
        return IncompleteInput;
      }
      if !hasCanvas {
        return NoCanvas;
      }
      if !hasContext {
        return NoContext;
      }
      canvasWidth := Layout.CanvasSize();
      canvasHeight := Layout.CanvasSize();
      if !encoderSucceeds {
        return EncoderFailed;
      }
      RecordRender(qrData.qrType, UsageStats.DayKey(nowIso));
      qrGenerated := true;
      outcome := Rendered(payload.value);
    }

    /** The counters' update after a successful render of type `t` on day
        `today`; nothing else changes. */
    method RecordRender(t: QRType, today: JsString)
      requires Valid()
      modifies this
      ensures Valid()
      ensures analytics == UsageStats.Record(old(analytics), t, today)
      ensures renders == old(renders) + [(t, today)]
      ensures lang == old(lang) && qrData == old(qrData) && qrStyle == old(qrStyle)
      ensures logo == old(logo) && fileName == old(fileName) && qrGenerated == old(qrGenerated)
      ensures canvasWidth == old(canvasWidth) && canvasHeight == old(canvasHeight)
    {
      UsageStats.ReplaySnoc(renders, t, today);
      analytics := UsageStats.Record(analytics, t, today);
      renders := renders + [(t, today)];
    }

    /** The name a download is offered under, or `None` when there is no
        canvas: the cleaned file name and the format's extension. The name
        before the extension is never empty and holds only lower-case ASCII
        letters, digits and `_`. */
    method DownloadName(format: DownloadFormat, hasCanvas: bool) returns (name: Option<JsString>)
      ensures name.Some? <==> hasCanvas
      ensures name.Some? ==>
        && |name.value| > 4
        && name.value[..|name.value| - 4] == FileName.CleanFileName(fileName)
        && name.value[|name.value| - 4..] == Extension(format)
        && FileName.IsSafe(name.value[..|name.value| - 4])
    {
      if !hasCanvas {
        return None;
      }
      var clean := FileName.CleanFileName(fileName);
      FileName.CleanFileNameUnits(fileName);
      var ext := Extension(format);
      assert |ext| == 4;
      name := Some(clean + ext);
      assert name.value[..|name.value| - 4] == clean;
      assert name.value[|name.value| - 4..] == ext;
    }
  }
}
