# Byte-size formatting and PDF-to-PNG result shaping, in Dafny

A model of two small pieces of a résumé-analyser web front end:

- `formatSize` (app/lib/utils.ts): a byte count becomes `"<number> <unit>"`.
  The unit is KB, MB or GB, on base 1024. The number is rounded to one
  decimal by `toFixed(1)`, and a trailing `.0` is trimmed. Anything below
  1 KB, including negative and non-finite input, reads `"0 KB"`.
- The pure part of `convertPdfToImage` (app/lib/pdf2img.ts). This covers the
  `PdfConversionResult` record that each exit resolves with, and the PNG
  file name derived from the PDF's name: one trailing `.pdf`, matched
  case-insensitively, is replaced by `.png`.

Files:

- `text.dfy` (module `Text`): decimal digits of a natural number and their
  parsing back, `endsWith`, and ASCII case folding.
- `size_format.dfy` (module `SizeFormat`): `formatSize`. `toFixed(1)` is
  modelled by the digit algorithm of section 21.1.3.3 of ECMA-262. The
  rounding is proved to be the choice that section prescribes: the nearest
  tenth, and the larger one on a tie.
- `pdf_to_image.dfy` (module `PdfToImage`): the output name and the result
  records. What pdf.js and the browser did is an input value,
  `Environment`. The blob and the object URL are opaque values.

Byte counts are integers. For an integer `n` below 2^53, `n / 1024^k` is
exact in a double, so the model uses integer arithmetic throughout.

## Model

| member | source | states |
|---|---|---|
| SizeFormat.FormatSize | app/lib/utils.ts:8-31 | below 1024 sanitised bytes the output is "0 KB"; from 1024 on it is the count written in the unit whose range holds it (KB on [1024, 1024^2), MB on [1024^2, 1024^3), GB from 1024^3) |
| SizeFormat.InUnit | app/lib/utils.ts:21-27 | `${trim(safeBytes / unit)} unit` is the count rounded half up to tenths of the unit, rendered without a trailing ".0", then a space and the unit |
| SizeFormat.RoundTenths | app/lib/utils.ts:15-16 | the rounded tenths r satisfy r/10 - 1/20 <= n/d < r/10 + 1/20: within half a tenth, a value exactly halfway rounding up |
| SizeFormat.Trim | app/lib/utils.ts:15-18 | `trim` removes a trailing ".0" and otherwise leaves the string unchanged |
| SizeFormat.RoundTenthsIsToFixed1 | app/lib/utils.ts:15-16 | the tenths count `(10n + d/2) / d` is the integer t for which t/10 is nearest to n/d, the larger one on a tie, as `toFixed(1)` prescribes |
| SizeFormat.ToFixed1ChoiceUnique | app/lib/utils.ts:16 | that choice is unique, so the displayed tenths are determined by n/d |
| SizeFormat.ToFixed1 | app/lib/utils.ts:16 | `toFixed(1)` writes the digits of the whole part, a point, and exactly one tenths digit (a "0" is padded in below 1.0) |
| SizeFormat.TrimToFixed1 | app/lib/utils.ts:15-18 | trimming `toFixed(1)` yields the whole part alone when the tenths digit is 0, else whole part, "." and the digit |
| SizeFormat.DisplayShape | app/lib/utils.ts:17 | the displayed number never ends in ".0"; a whole value is all digits; otherwise exactly one non-zero digit follows the point |
| SizeFormat.ParseDisplay | app/lib/utils.ts:15-18 | the displayed number reads back as exactly the rounded tenths count |
| SizeFormat.RangesPartition | app/lib/utils.ts:11-13 | the unit ranges [1024, 1024^2), [1024^2, 1024^3) and [1024^3, ∞) cover every count from 1024 on, without overlap |
| SizeFormat.FormatSizeUnsafe | app/lib/utils.ts:9 | negative and non-finite input formats exactly as 0 does, which is "0 KB" |
| SizeFormat.FormatSizeZeroKB | app/lib/utils.ts:26-30 | the output is "0 KB" if and only if the sanitised count is below 1024 |
| SizeFormat.FormatSizeUnitSuffix | app/lib/utils.ts:21-30 | every output ends in " KB", " MB" or " GB" |
| SizeFormat.TenthsLowerBound | app/lib/utils.ts:20-28 | in every unit the displayed number is at least 1 |
| SizeFormat.TenthsBounds | app/lib/utils.ts:23-28 | in the KB and MB ranges the displayed number lies in [1, 1024], 1024 included |
| SizeFormat.RoundTenthsMonotone | app/lib/utils.ts:15-16 | within one unit, a larger byte count never displays fewer tenths |
| SizeFormat.FormatSizeExamplesBelowKB | app/lib/utils.ts:5-6 | 0, 1023, -5 and a non-finite input all give "0 KB" |
| SizeFormat.FormatSizeExampleOneKB | app/lib/utils.ts:26-27 | 1024 bytes give "1 KB" |
| SizeFormat.FormatSizeExampleHalf | app/lib/utils.ts:26-27 | 1536 bytes give "1.5 KB" |
| SizeFormat.FormatSizeExampleRoundsUp | app/lib/utils.ts:26-27 | 1048575 bytes give "1024 KB": rounding happens after the unit is chosen |
| SizeFormat.FormatSizeExampleOneMB | app/lib/utils.ts:23-24 | 1048576 bytes give "1 MB" |
| SizeFormat.FormatSizeExampleOneGB | app/lib/utils.ts:20-21 | 1073741824 bytes give "1 GB" |
| SizeFormat.Sanitise | app/lib/utils.ts:9 | a finite non-negative count is kept; a negative or non-finite one becomes 0 |
| Text.NatToString | app/lib/utils.ts:16 | the digits of a whole number: at least one, all decimal digits, no leading zero except for 0 itself |
| Text.ParseNatToString | app/lib/utils.ts:16 | the digits written for a whole number read back as that number |
| Text.NatToStringInjective | app/lib/utils.ts:16 | different whole numbers are written with different digits |
| PdfToImage.OutputName | app/lib/pdf2img.ts:83-84 | the derived name ends in ".png", and what precedes it is the input name, or the input name minus its last 4 characters when those are ".pdf" in some case |
| PdfToImage.HasPdfSuffix | app/lib/pdf2img.ts:83 | the case-insensitive `/\.pdf$/` test accepts exactly the eight spellings of ".pdf" as the last 4 characters |
| PdfToImage.StripPdfSuffix | app/lib/pdf2img.ts:83 | the replace removes the final 4 characters when they are a spelling of ".pdf", once, and otherwise leaves the name unchanged |
| PdfToImage.OutputNameStrips | app/lib/pdf2img.ts:83-84 | a name `stem + ext`, with ext any spelling of ".pdf", becomes `stem + ".png"` |
| PdfToImage.OutputNameKeeps | app/lib/pdf2img.ts:83-84 | a name not ending in a spelling of ".pdf" becomes `name + ".png"` |
| PdfToImage.OutputNameCaseExamples | app/lib/pdf2img.ts:83 | "REPORT.PDF" gives "REPORT.png" and "a.PdF" gives "a.png" |
| PdfToImage.OutputNameOnceExample | app/lib/pdf2img.ts:83 | "a.pdf.pdf" gives "a.pdf.png": only the final suffix goes, once |
| PdfToImage.OutputNameKeepExamples | app/lib/pdf2img.ts:83 | "a.pdfx" gives "a.pdfx.png" and "report" gives "report.png" |
| PdfToImage.ThrewError | app/lib/pdf2img.ts:108 | the caught-exception error is "Failed to convert PDF: " then the message if non-empty, else `String(err)` |
| PdfToImage.BuildResult | app/lib/pdf2img.ts:66-71 | each exit gives exactly one of a failure (empty image URL, no file, non-empty error) or a success (PNG file under the derived name, the object URL, no error); missing context and missing blob carry their fixed messages (also lines 84-97 and 104-109) |
| PdfToImage.RunPipeline | app/lib/pdf2img.ts:51-103 | the first failing step decides the exit: a setup throw and a render throw go to the caught-exception exit with their own message, a missing context to its exit, a missing blob to its exit; the rendered exit is reached exactly when all succeed and carries that blob and URL |
| PdfToImage.ConvertPdfToImage | app/lib/pdf2img.ts:49-111 | every modelled exit resolves with a failure record or a success record |
| PdfToImage.ConvertSucceedsIffAllStepsDo | app/lib/pdf2img.ts:51-109 | success exactly when every step succeeds, with the object URL and a PNG file under the derived name; never both success and failure |
| PdfToImage.SetupFailureIsCaught | app/lib/pdf2img.ts:52-64 | a throw before the context check always becomes the caught-exception failure record (lines 104-109) |
| PdfToImage.NoContextIsReported | app/lib/pdf2img.ts:66-71 | without a 2D context the conversion resolves with the fixed "Canvas 2D context is not available in this environment" failure |
| PdfToImage.RenderFailureIsCaught | app/lib/pdf2img.ts:77 | a render throw becomes the caught-exception failure record with the render's message (lines 104-109) |
| PdfToImage.NoBlobIsReported | app/lib/pdf2img.ts:92-97 | when `toBlob` yields no blob the conversion resolves with the fixed "Failed to create image blob from canvas" failure |

## Left out

- Fractional byte counts, and integers a double cannot hold: the model's
  input is an integer, so these are outside it. `toFixed` itself rounds the
  exact value of its argument, and `bytes / 1024^k` is exact for every double
  of at least 1024, so the only rounding in the source is the caller's
  conversion of the count to a double; for every integer-valued double the
  model gives the source's answer. `toFixed`'s switch to exponent notation
  from 10^21 on is not modelled; it is only reached from about 10^30 bytes.
- `generateUUID` (app/lib/utils.ts:33) is a thin wrapper over `crypto.randomUUID`.
  Randomness is not modelled.
- `loadPdfJs` and its module-level memo `pdfjs` / `loadPromise`
  (app/lib/pdf2img.ts:7-46) are not modelled. This covers the dynamic
  imports, the worker-URL fallback and the shared in-flight initialisation.
  They are asynchronous coordination over foreign modules. Their failure is
  the `setup` step of `Environment`.
- The pdf.js calls, the canvas, `getContext`, the smoothing settings, the
  canvas size, `toBlob`, `URL.createObjectURL` and `File` are browser and
  library I/O. Only their outcomes appear, as `Environment` fields. The blob
  bytes and the object URL are opaque.
- PdfToImage.BuildResult: a success's `imageUrl` is whatever
  `URL.createObjectURL` returned. The model does not assume it is non-empty,
  so "success has a non-empty image URL" holds only when the browser's URL does.
- PdfToImage.ConvertPdfToImage: does not model a synchronous throw from
  `canvas.toBlob` (line 80), for example a SecurityError on a canvas that is
  not origin-clean. The promise of line 79 is returned from the `try` without
  `await`, so its rejection is adopted after the `try` is left: the `catch`
  of lines 104-109 does not run and `convertPdfToImage` rejects instead of
  resolving with a record. The model has no rejecting exit; its "always
  resolves with a record" covers the modelled exits only.
- An exception thrown inside the `toBlob` callback (by `new File` or
  `URL.createObjectURL`) is outside the `try` of line 51. It would leave the
  returned promise pending. The model has no such exit.
- A thrown value whose `message` is truthy but not a string is
  converted by the template literal. The model takes `message` as a string;
  a falsy `message` of any type (absent, null, 0, false, "") falls back to
  `String(err)`, which the model writes as `None` or "".
- Strings are sequences of Unicode scalar values, not UTF-16 code units. For
  the `.pdf` test this makes no difference, because a match needs four ASCII
  characters at the end.
