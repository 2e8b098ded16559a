/**
 * The pure part of `convertPdfToImage` in app/lib/pdf2img.ts: which
 * `PdfConversionResult` each way out of the conversion produces, and the
 * name of the PNG file made from the PDF's name.
 *
 * The calls into pdf.js and the browser (loading the library, opening the
 * document, rendering page 1 onto a canvas, `canvas.toBlob`,
 * `URL.createObjectURL`) are not modelled; what they did is an input,
 * `Environment`, and the blob and object URL they made are opaque values.
 */
module PdfToImage {
  import opened Text

  datatype Option<T> = None | Some(value: T)

  /** The PNG bytes `canvas.toBlob` produced; never looked into. */
  datatype Blob = Blob(bytes: seq<bv8>)

  /** `new File([blob], name, { type })`. */
  datatype ImageFile = ImageFile(name: string, mimeType: string, blob: Blob)

  /** `PdfConversionResult`; an absent `error` field is `None`. */
  datatype ConversionResult = ConversionResult(imageUrl: string, file: Option<ImageFile>, error: Option<string>)

  /**
   * A step that either completes or throws. For a thrown value `err`,
   * `message` is `err?.message` when that is a non-empty string, and `None`
   * for any falsy one (`err` null or undefined, or its `message` absent,
   * null, 0, false or ""), so every thrown value has an image here;
   * `stringified` is `String(err)`.
   */
  datatype Step = Completes | Throws(message: Option<string>, stringified: string)

  /**
   * What the library and the browser do during one conversion, in the
   * order the source meets them.
   */
  datatype Environment = Environment(
    setup: Step,          // loadPdfJs, arrayBuffer, getDocument, getPage(1), getViewport,
                          // createElement, getContext, and the canvas width and height
    hasContext: bool,     // canvas.getContext('2d') returned a context
    render: Step,         // page.render(...).promise
    blob: Option<Blob>,   // the argument toBlob passes to its callback
    objectUrl: string)    // URL.createObjectURL(blob)

  /** How a conversion ended, as far as the result record depends on it. */
  datatype Outcome =
    | NoContext
    | NoBlob
    | Threw(message: Option<string>, stringified: string)
    | Rendered(blob: Blob, objectUrl: string)

  const NoContextError := "Canvas 2D context is not available in this environment"
  const NoBlobError := "Failed to create image blob from canvas"
  const ThrewErrorPrefix := "Failed to convert PDF: "
  const PngType := "image/png"

  // ---------------------------------------------------------------------
  // Output file name: `file.name.replace(/\.pdf$/i, '')` + ".png"
  // ---------------------------------------------------------------------

  /** The eight spellings of ".pdf" the case-insensitive pattern accepts. */
  predicate IsPdfSpelling(s: string) {
    |s| == 4 && s[0] == '.'
    && (s[1] == 'p' || s[1] == 'P')
    && (s[2] == 'd' || s[2] == 'D')
    && (s[3] == 'f' || s[3] == 'F')
  }

  /**
   * `/\.pdf$/i` matches: the last four characters are ".pdf" up to ASCII
   * case (without the `m` flag, `$` anchors only at the end of the input).
   * It accepts exactly the eight spellings and nothing else.
   */
  predicate HasPdfSuffix(name: string): (b: bool)
    ensures b <==> |name| >= 4 && IsPdfSpelling(name[|name| - 4..])
  {
    |name| >= 4 &&
    var s := name[|name| - 4..];
    var l := LowerAsciiString(s);
    LowerAsciiIs(s[1], 'p');
    LowerAsciiIs(s[2], 'd');
    LowerAsciiIs(s[3], 'f');
    assert l == ".pdf" <==> l[0] == '.' && l[1] == 'p' && l[2] == 'd' && l[3] == 'f';
    l == ".pdf"
  }

  /** `name.replace(/\.pdf$/i, '')`: drops a final ".pdf" in any case, once. */
  function StripPdfSuffix(name: string): (r: string)
    ensures HasPdfSuffix(name) ==> |name| >= 4 && r + name[|name| - 4..] == name
    ensures !HasPdfSuffix(name) ==> r == name
  {
    if HasPdfSuffix(name) then name[..|name| - 4] else name
  }

  /** The name of the PNG file made from a PDF named `name`. */
  function OutputName(name: string): (r: string)
    ensures EndsWith(r, ".png")
    ensures r[..|r| - 4] == name
            || (|name| >= 4 && r[..|r| - 4] == name[..|name| - 4] && HasPdfSuffix(name))
  {
    var r := StripPdfSuffix(name) + ".png";
    assert r[..|r| - 4] == StripPdfSuffix(name);
    r
  }

  lemma LowerAsciiIs(c: char, lower: char)
    requires 'a' <= lower <= 'z'
    ensures LowerAscii(c) == lower <==> c == lower || c as int == lower as int - 32
  {
  }

  /** A name ending in any spelling of ".pdf" loses exactly that suffix. */
  lemma OutputNameStrips(stem: string, ext: string)
    requires IsPdfSpelling(ext)
    ensures OutputName(stem + ext) == stem + ".png"
  {
    var name := stem + ext;
    assert name[|name| - 4..] == ext;
    assert name[..|name| - 4] == stem;
  }

  /** A name not ending in a spelling of ".pdf" is kept whole. */
  lemma OutputNameKeeps(name: string)
    requires |name| < 4 || !IsPdfSpelling(name[|name| - 4..])
    ensures OutputName(name) == name + ".png"
  {
  }

  /** The match ignores case: "REPORT.PDF" and "a.PdF" lose their suffix. */
  lemma OutputNameCaseExamples()
    ensures OutputName("REPORT.PDF") == "REPORT.png"
    ensures OutputName("a.PdF") == "a.png"
  {
    assert "REPORT.PDF" == "REPORT" + ".PDF";
    OutputNameStrips("REPORT", ".PDF");
    assert "a.PdF" == "a" + ".PdF";
    OutputNameStrips("a", ".PdF");
  }

  /** Only the final suffix is removed, and at most once. */
  lemma OutputNameOnceExample()
    ensures OutputName("a.pdf.pdf") == "a.pdf.png"
  {
    assert "a.pdf.pdf" == "a.pdf" + ".pdf";
    OutputNameStrips("a.pdf", ".pdf");
  }

  /** A name whose last four characters are not ".pdf" only gains ".png". */
  lemma OutputNameKeepExamples()
    ensures OutputName("a.pdfx") == "a.pdfx.png"
    ensures OutputName("report") == "report.png"
  {
    assert "a.pdfx"[2..] == "pdfx";
    OutputNameKeeps("a.pdfx");
    assert "report"[2..] == "port";
    OutputNameKeeps("report");
  }

  // ---------------------------------------------------------------------
  // Result records
  // ---------------------------------------------------------------------

  /**
   * `Failed to convert PDF: ${err?.message || String(err)}`: the prefix, then
   * the message when it is non-empty, else `String(err)`.
   */
  function ThrewError(message: Option<string>, stringified: string): (e: string)
    ensures |e| >= |ThrewErrorPrefix| && e[..|ThrewErrorPrefix|] == ThrewErrorPrefix
    ensures message.Some? && message.value != "" ==> e[|ThrewErrorPrefix|..] == message.value
    ensures message.None? || message.value == "" ==> e[|ThrewErrorPrefix|..] == stringified
  {
    ThrewErrorPrefix + (if message.Some? && message.value != "" then message.value else stringified)
  }

  /** A failure: no image, no file, a non-empty error. */
  predicate IsFailure(r: ConversionResult) {
    r.imageUrl == "" && r.file.None? && r.error.Some? && r.error.value != ""
  }

  /** A success: a PNG file named "<something>.png" and no error field. */
  predicate IsSuccess(r: ConversionResult) {
    r.file.Some? && r.file.value.mimeType == PngType && EndsWith(r.file.value.name, ".png")
    && r.error.None?
  }

  /** The `PdfConversionResult` every exit of `convertPdfToImage` resolves with. */
  function BuildResult(fileName: string, outcome: Outcome): (r: ConversionResult)
    ensures IsFailure(r) != IsSuccess(r)
    ensures IsSuccess(r) <==> outcome.Rendered?
    ensures outcome.Rendered? ==>
              r.imageUrl == outcome.objectUrl
              && r.file == Some(ImageFile(OutputName(fileName), PngType, outcome.blob))
    ensures outcome.NoContext? ==> r.error == Some(NoContextError)
    ensures outcome.NoBlob? ==> r.error == Some(NoBlobError)
    ensures outcome.Threw? ==> r.error == Some(ThrewError(outcome.message, outcome.stringified))
  {
    match outcome
    case NoContext => ConversionResult("", None, Some(NoContextError))
    case NoBlob => ConversionResult("", None, Some(NoBlobError))
    case Threw(message, stringified) => ConversionResult("", None, Some(ThrewError(message, stringified)))
    case Rendered(blob, url) => ConversionResult(url, Some(ImageFile(OutputName(fileName), PngType, blob)), None)
  }

  /**
   * Which exit a conversion takes: the first step that throws goes to the
   * outer `catch`; a missing context and a missing blob return their own
   * errors; otherwise the blob and its object URL are the result.
   */
  function RunPipeline(env: Environment): (o: Outcome)
    ensures o.Rendered? <==> env.setup.Completes? && env.hasContext && env.render.Completes? && env.blob.Some?
    ensures o.Rendered? ==> o.blob == env.blob.value && o.objectUrl == env.objectUrl
    ensures env.setup.Throws? ==> o == Threw(env.setup.message, env.setup.stringified)
    ensures env.setup.Completes? && !env.hasContext ==> o == NoContext
    ensures env.setup.Completes? && env.hasContext && env.render.Throws?
            ==> o == Threw(env.render.message, env.render.stringified)
    ensures env.setup.Completes? && env.hasContext && env.render.Completes? && env.blob.None?
            ==> o == NoBlob
  {
    if env.setup.Throws? then Threw(env.setup.message, env.setup.stringified)
    else if !env.hasContext then NoContext
    else if env.render.Throws? then Threw(env.render.message, env.render.stringified)
    else if env.blob.None? then NoBlob
    else Rendered(env.blob.value, env.objectUrl)
  }

  /**
   * `convertPdfToImage(file)`: every modelled exit resolves with a failure
   * record or a success record.
   */
  function ConvertPdfToImage(fileName: string, env: Environment): (r: ConversionResult)
    ensures IsFailure(r) || IsSuccess(r)
  {
    BuildResult(fileName, RunPipeline(env))
  }

  /**
   * A conversion succeeds exactly when every step does; its image is the
   * object URL, and the file is the blob as "image/png" under the derived
   * name. A failure is never also a success.
   */
  lemma ConvertSucceedsIffAllStepsDo(fileName: string, env: Environment)
    ensures var r := ConvertPdfToImage(fileName, env);
            (IsSuccess(r) <==> env.setup.Completes? && env.hasContext && env.render.Completes? && env.blob.Some?)
            && (IsSuccess(r) ==> r.imageUrl == env.objectUrl
                                 && r.file == Some(ImageFile(OutputName(fileName), PngType, env.blob.value)))
            && !(IsSuccess(r) && IsFailure(r))
  {
  }

  /** A library failure while setting up always surfaces as the caught-exception error. */
  lemma SetupFailureIsCaught(fileName: string, env: Environment)
    requires env.setup.Throws?
    ensures ConvertPdfToImage(fileName, env)
            == ConversionResult("", None, Some(ThrewError(env.setup.message, env.setup.stringified)))
  {
  }

  /** Without a 2D context the conversion reports the fixed message of that exit. */
  lemma NoContextIsReported(fileName: string, env: Environment)
    requires env.setup.Completes? && !env.hasContext
    ensures ConvertPdfToImage(fileName, env) == ConversionResult("", None, Some(NoContextError))
  {
  }

  /** A render failure surfaces as the caught-exception error, with the render's message. */
  lemma RenderFailureIsCaught(fileName: string, env: Environment)
    requires env.setup.Completes? && env.hasContext && env.render.Throws?
    ensures ConvertPdfToImage(fileName, env)
            == ConversionResult("", None, Some(ThrewError(env.render.message, env.render.stringified)))
  {
  }

  /** When `toBlob` yields no blob the conversion reports the fixed message of that exit. */
  lemma NoBlobIsReported(fileName: string, env: Environment)
    requires env.setup.Completes? && env.hasContext && env.render.Completes? && env.blob.None?
    ensures ConvertPdfToImage(fileName, env) == ConversionResult("", None, Some(NoBlobError))
  {
  }
}
