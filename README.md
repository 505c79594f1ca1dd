# QR code generator: a verified model of its core

The generator is a single-page React app (`src/App.tsx`). A form describes
what to encode: a URL, a phone number, a Google Maps location, a vCard or a
WiFi network. Pressing the generate button builds a text payload from the
form and hands it to a QR encoder. The encoder (`QRCode.toCanvas`) draws a
400-pixel bitmap on an offscreen canvas. The page then copies that bitmap
onto its 480×480 canvas at (40, 40), and draws the border and the optional
logo itself. Each successful render is counted in
session-only usage statistics. The Home button resets the form. A download
saves the canvas under a cleaned-up file name.

This Dafny project models the parts of that page that compute something:

- `payload.dfy` (module `Payload`): the payload builder, which is the
  `switch` in `generateQRCode` plus its final empty-payload check. It
  returns `Option`, and `None` is an early `return`.
  - A maps payload is a same-origin `/map-landing.html?…` link.
  - Its query is produced by `URLSearchParams`. The model covers that in
    full:
    - `utf16.dfy` (module `Utf16`): WebIDL's USVString conversion;
    - `utf8.dfy` (module `Utf8`): UTF-8;
    - `form_urlencoded.dfy` (module `FormUrlEncoded`): the
      application/x-www-form-urlencoded serializer of section 5.2 of the
      WHATWG URL Standard, and the parser of section 5.1, which is what
      `URLSearchParams` applies on the reading side. Parsing the
      serialization is proved to give back the appended pairs.
- `usage_stats.dfy` (module `UsageStats`): the analytics record and its
  update after a successful render.
  - A replay of a history of renders gives the counts of that history.
  - Both breakdowns (per type and per day) always add up to the total.
- `file_name.dfy` (module `FileName`): the download-name cleaner: every
  code unit other than an ASCII letter or digit becomes `_`, the result is
  lower-cased, and an empty result falls back to `qrcode`.
- `layout.dfy` (module `Layout`): the canvas, bitmap, border and logo
  geometry.
- `app.dfy` (module `App`): the page state as a class `Session`.
  - `GenerateQRCode` calls the builder, takes the early returns the source
    takes, resizes the canvas, and on success calls `RecordRender`.
  - `HandleHomeClick` resets the form and leaves the counters alone.
  - `DownloadName` gives the file name a download is offered under.
- `js_text.dfy` (module `JsText`): JavaScript strings as sequences of UTF-16
  code units, plus `indexOf`, a one-element `split`, and `join`.
- `wrappers.dfy` (module `Wrappers`): `Option`.

The environment becomes parameters: the page origin, the ISO timestamp of
the render, whether the canvas and its 2D context exist, and whether the QR
encoder succeeds.

A render is filed under its UTC date, the part of `toISOString()` before `T`
(src/App.tsx:376), not under the local calendar date (`UsageStats.DayKey`).

## Model

| member | source | states |
|---|---|---|
| Payload.BuildPayloadDefined | src/App.tsx:239-275 | There is no payload exactly when the active type's required field is empty (url/phone content, maps url, vcard name, wifi ssid). Every payload is non-empty, so the final `if (!dataToEncode) return` never fires. |
| Payload.UrlPayload | src/App.tsx:240-243 | Content that starts with `http` is kept as it is. Any other content gets `https://` in front. Every url payload starts with `http`, and feeding a payload back in returns it unchanged. |
| Payload.PhonePayload | src/App.tsx:244-247 | The payload is `tel:` followed by exactly the content. |
| Payload.MapsPayload | src/App.tsx:248-262 | The payload is origin + `/map-landing.html?` + the form-urlencoded serialization of the parameters. The standard's parser gives back exactly those parameters, in order. |
| Payload.MapsParamsShape | src/App.tsx:252-260 | `url` comes first, then `lang`. `title` is present iff the title is non-empty, and `note` iff the note is non-empty. There is no other parameter. Each of url, title and note converts back to itself iff it has no lone surrogate. |
| Payload.VCardTextLines | src/App.tsx:267 | The vCard template is its eight lines joined by `\n` (not CRLF): BEGIN, VERSION:3.0, FN, TITLE, TEL, EMAIL, ORG, END. |
| Payload.VCardPayload | src/App.tsx:263-268 | The payload is the eight lines joined by `\n`, with empty fields still written. Values are inserted without escaping, so splitting at `\n` gives back the eight lines iff no value contains a line break. |
| Payload.WifiTextFields | src/App.tsx:271 | The WiFi template is the fields `WIFI:T:`enc, `S:`ssid, `P:`password and two empty fields, joined by `;`. |
| Payload.WifiPayload | src/App.tsx:269-272 | The payload is exactly `WIFI:T:`enc`;S:`ssid`;P:`password`;;`, and the P field is written even when the password is empty. Splitting at `;` gives back the fields iff no value contains `;`. |
| FormUrlEncoded.ParseSerialize | src/App.tsx:252-261 | Parsing the serialized query gives back exactly the appended pairs, in order. |
| FormUrlEncoded.DecodeEncodeComponent | src/App.tsx:253-259 | Percent-decoding a name or value undoes its encoding (UTF-8, space as `+`, `%XX` for every byte outside the unreserved set). |
| FormUrlEncoded.SerializeIsAscii | src/App.tsx:261 | Every byte `toString()` writes is ASCII, so the query string is those bytes as code units. |
| FormUrlEncoded.EncodeComponentSeparatorFree | src/App.tsx:261 | An encoded name or value never contains `&` or `=`. |
| Utf8.DecodeEncode | src/App.tsx:253-259 | Decoding the UTF-8 encoding of scalar values gives them back. |
| Utf8.EncodeDecode | src/App.tsx:253-259 | Bytes that decode are exactly the encoding of what they decode to. |
| Utf16.ToScalarsFromScalars | src/App.tsx:253-259 | Converting a well-formed UTF-16 string to scalar values gives back the scalars it encodes. |
| Utf16.FromScalarsToScalars | src/App.tsx:253 | A string with no lone surrogates survives the USVString conversion unchanged. |
| Utf16.ConversionLosslessIff | src/App.tsx:253-259 | A string survives the USVString conversion unchanged iff it has no lone surrogate. |
| UsageStats.Initial | src/App.tsx:178-182 | The counters start at zero: the total, all five types, and an empty per-day map. |
| UsageStats.TypeCounts.Set | src/App.tsx:379-382 | The spread update sets one type's count and keeps the other four. |
| UsageStats.RecordPreservesConsistency | src/App.tsx:377-387 | An update adds one to the total and to the rendered type. Today's count becomes its old value, or 0 when absent, plus one. No other count changes. Both breakdowns still add up to the total. |
| UsageStats.ReplayCounts | src/App.tsx:376-387 | After a history of renders, the total is its length. Each type's count is the number of renders of that type. Each day's count is the number of renders on that day. A day has an entry iff some render fell on it. |
| UsageStats.ReplayConsistent | src/App.tsx:377-387 | For any history, the per-type counts and the per-day counts both add up to the total. |
| UsageStats.DayKeyOfTimestamp | src/App.tsx:376 | A timestamp `date`T`time` is filed under `date`. |
| UsageStats.DayKeyPrefix | src/App.tsx:376 | The day key is a prefix of the timestamp and contains no `T`. |
| FileName.ReplaceDisallowed | src/App.tsx:413 | Length is kept. A position becomes `_` iff its code unit is not an ASCII letter or digit, and letters and digits are kept. |
| FileName.ToLowerCase | src/App.tsx:413 | Length is kept, ASCII capitals are lowered, and the result contains only `[a-z0-9_]`. |
| FileName.CleanFileNameUnits | src/App.tsx:413 | The cleaned name is never empty and contains only `[a-z0-9_]`. An empty name gives `qrcode`. Any other name keeps its length, has `_` exactly where it had no ASCII letter or digit, and has that character in lower case elsewhere. |
| FileName.CleanFileNameFixedPoint | src/App.tsx:413 | A name is left unchanged iff it is non-empty and contains only `[a-z0-9_]`. |
| FileName.CleanFileNameIdempotent | src/App.tsx:413 | Cleaning twice is the same as cleaning once. |
| FileName.CleanFileNameExample | src/App.tsx:413 | `My QR!` becomes `my_qr_`. |
| Layout.LogoPixels | src/App.tsx:358 | The logo is exactly 4 pixels per percent: `400 * logoSize / 100` divides evenly. |
| Layout.LogoRect | src/App.tsx:358-360 | The logo is square and centred on the canvas. |
| Layout.CanvasLayout | src/App.tsx:284-286 | The canvas is 480 square. The bitmap sits at (40, 40), 400 wide, with 40 pixels of canvas on every side. |
| Layout.BorderStrokeOutsideQr | src/App.tsx:333-336 | The border path's sides lie at 36 and 444. The 8-pixel stroke on a straight side covers [32, 40] or [440, 448]: inside the canvas and outside the bitmap. |
| Layout.LogoFits | src/App.tsx:358-367 | For a slider value in 10..30, the logo is 40 to 120 pixels at 240 − 2·logoSize. Its background patch stays inside the bitmap, and so inside the canvas. |
| Layout.LogoArea | src/App.tsx:358 | The logo covers at most 9 percent of the bitmap's area. |
| Layout.LogoPatchArea | src/App.tsx:358-367 | The logo's opaque background patch is 4·logoSize + 16 pixels square and covers less than 12 percent of the bitmap's area. |
| App.OutcomeOfCases | src/App.tsx:236-395 | A render ends as incomplete input iff the required field is empty. It ends in the error alert iff the input is complete, the canvas and its context exist, and the encoder throws. It draws a code iff the input is complete and the canvas, the context and the encoder all succeed. A drawn code carries the builder's non-empty payload. |
| App.ResetFormIsIncomplete | src/App.tsx:190-210 | The form left by a reset has nothing to encode. |
| App.Session.constructor | src/App.tsx:146-182 | The page opens in Vietnamese with the initial form (url type, empty fields, WPA). The initial style is black on white, a 20 percent logo and a solid `#3B82F6` border. There is no logo, the file name is `qrcode`, nothing is rendered and all counters are zero. |
| App.Session.HandleHomeClick | src/App.tsx:188-220 | Form, style, logo, file name and the rendered flag return to their initial values. Language, counters and canvas size are unchanged. |
| App.Session.GenerateQRCode | src/App.tsx:236-395 | The outcome follows the early returns of the source. A drawn code records its type under the timestamp's date and sets the rendered flag. Every other outcome leaves counters and flag unchanged. The form is never touched. The counters stay equal to the replay of all successful renders. |
| App.Session.RecordRender | src/App.tsx:376-388 | The counters become the updated record, and nothing else changes. |
| App.Session.AnalyticsConsistent | src/App.tsx:178-182 | In every reachable page state, both breakdowns add up to the total. |
| App.Session.DownloadName | src/App.tsx:408-422 | With no canvas there is no download. Otherwise the name is the cleaned file name plus `.png` or `.svg`, and its stem is non-empty and contains only `[a-z0-9_]`. |

## Left out

- The QR encoder (`QRCode.toCanvas`) is external. It is represented only by whether it succeeds, which is a parameter.
- Canvas drawing is not modelled: fills, `drawImage`, the border stroke with its gradient and dash pattern, the shadow and `clearRect`. The model keeps only the geometry and the canvas size.
- Layout.BorderStrokeOutsideQr: covers the straight sides only. The rounded corners are quadratic curves, and their stroke does reach into the bitmap.
- The asynchronous logo load (`Image.onload`) and the `FileReader` upload are event-driven browser callbacks. The logo is a field that only the reset changes.
- Downloads are not modelled beyond the file name: `toDataURL`, the SVG wrapper, `Blob`, `URL.createObjectURL` and the anchor click.
- Other parts of the page are UI wiring and are not modelled:
  - translations, JSX and `window.scrollTo`;
  - the form's `onChange` setters, each of which replaces one field;
  - the language switch.
- `generate-cert.js` (OpenSSL through `execSync`) and `vite.config.ts` (dev-server configuration) are deployment tooling. They are not part of this model.
- Interleavings are not modelled. An `await` on the encoder could let other events run in between; the model runs each action to completion.
- `/map-landing.html` is not part of this model. It is assumed to read its query with the standard's parser, as `URLSearchParams` does. A reader that used `decodeURIComponent` instead would not turn `+` back into a space.
- Counters are unbounded naturals. JavaScript numbers are exact only up to 2^53.
- FormUrlEncoded.Parse: decodes UTF-8 strictly and returns `None` where the standard's decoder would insert U+FFFD. It is only used to state the round trip for encoder output, which is always valid UTF-8.
- FileName.ToLowerCase: is modelled on ASCII letters, digits and `_` only. These are the only code units the preceding `replace` leaves.
