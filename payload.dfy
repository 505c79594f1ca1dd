/**
 * The payload builder: the text that gets encoded into the QR code for each
 * content type (`generateQRCode`, the `switch` and the empty-payload check).
 */
module Payload {
  import opened Wrappers
  import opened JsText
  import Utf16
  import FormUrlEncoded

  datatype QRType = Url | Phone | Maps | VCard | Wifi

  datatype Language = Vi | En

  datatype MapsData = MapsData(url: JsString, title: JsString, note: JsString)

  datatype VCardData = VCardData(
    name: JsString,
    jobTitle: JsString,
    phone: JsString,
    email: JsString,
    organization: JsString)

  datatype WifiData = WifiData(ssid: JsString, password: JsString, encryption: JsString)

  /** The form state: the selected type, the text shared by url and phone,
      and the optional sub-records of the other three types. */
  datatype QRData = QRData(
    qrType: QRType,
    content: JsString,
    mapsData: Option<MapsData>,
    vcardData: Option<VCardData>,
    wifiData: Option<WifiData>)

  const NewLine: CodeUnit := 0x0A
  const Semicolon: CodeUnit := 0x3B

  /** The value of the `lang` query parameter. */
  function LangCode(lang: Language): string
  {
    match lang
    case Vi => "vi"
    case En => "en"
  }

  /** The parameters appended to the landing-page query, in order. Appending
      converts each JavaScript string to scalar values. */
  function MapsParams(m: MapsData, lang: Language): seq<(string, string)>
  {
    [("url", Utf16.ToScalars(m.url)), ("lang", LangCode(lang))]
    + (if m.title != [] then [("title", Utf16.ToScalars(m.title))] else [])
    + (if m.note != [] then [("note", Utf16.ToScalars(m.note))] else [])
  }

  /** The landing-page link for a maps payload. */
  function MapsLink(m: MapsData, origin: JsString, lang: Language): JsString
  {
    origin + Lit("/map-landing.html?") + FormUrlEncoded.Serialize(MapsParams(m, lang))
  }

  /** The vCard template, with the field values inserted as they are. */
  function VCardText(v: VCardData): JsString
  {
    Lit("BEGIN:VCARD\nVERSION:3.0\nFN:") + v.name + Lit("\nTITLE:") + v.jobTitle
    + Lit("\nTEL:") + v.phone + Lit("\nEMAIL:") + v.email
    + Lit("\nORG:") + v.organization + Lit("\nEND:VCARD")
  }

  /** The WiFi template, with the field values inserted as they are. */
  function WifiText(w: WifiData): JsString
  {
    Lit("WIFI:T:") + w.encryption + Lit(";S:") + w.ssid + Lit(";P:") + w.password + Lit(";;")
  }

  /** The `switch` on the content type: `None` is an early `return`. */
  function SwitchPayload(data: QRData, origin: JsString, lang: Language): Option<JsString>
  {
    match data.qrType
    case Url =>
      if data.content == [] then None
      else if StartsWith(data.content, Lit("http")) then Some(data.content)
      else Some(Lit("https://") + data.content)
    case Phone =>
      if data.content == [] then None else Some(Lit("tel:") + data.content)
    case Maps =>
      if data.mapsData.None? || data.mapsData.value.url == [] then None
      else Some(MapsLink(data.mapsData.value, origin, lang))
    case VCard =>
      if data.vcardData.None? || data.vcardData.value.name == [] then None
      else Some(VCardText(data.vcardData.value))
    case Wifi =>
      if data.wifiData.None? || data.wifiData.value.ssid == [] then None
      else Some(WifiText(data.wifiData.value))
  }

  /** The payload `generateQRCode` encodes, or `None` when it returns before
      rendering: the switch followed by the check that the text is not empty. */
  function BuildPayload(data: QRData, origin: JsString, lang: Language): Option<JsString>
  {
    match SwitchPayload(data, origin, lang)
    case None => None
    case Some(p) => if p == [] then None else Some(p)
  }

  /** The active type's required field is missing: the input is
      incomplete. */
  predicate Incomplete(data: QRData)
  {
    match data.qrType
    case Url => data.content == []
    case Phone => data.content == []
    case Maps => data.mapsData.None? || data.mapsData.value.url == []
    case VCard => data.vcardData.None? || data.vcardData.value.name == []
    case Wifi => data.wifiData.None? || data.wifiData.value.ssid == []
  }

  /** A payload is produced exactly when the required field is filled in, it
      is never empty, and the final emptiness check never fires. */
  lemma BuildPayloadDefined(data: QRData, origin: JsString, lang: Language)
    ensures BuildPayload(data, origin, lang).None? <==> Incomplete(data)
    ensures BuildPayload(data, origin, lang).Some? ==> |BuildPayload(data, origin, lang).value| > 0
    ensures BuildPayload(data, origin, lang) == SwitchPayload(data, origin, lang)
  {
  }

  /** url: content that starts with "http" is kept, anything else gets
      "https://" in front, so every url payload starts with "http"; a payload
      that is fed back in comes out unchanged. */
  lemma UrlPayload(data: QRData, origin: JsString, lang: Language)
    requires data.qrType == Url && data.content != []
    ensures BuildPayload(data, origin, lang).Some?
    ensures StartsWith(data.content, Lit("http")) ==> BuildPayload(data, origin, lang).value == data.content
    ensures !StartsWith(data.content, Lit("http")) ==>
              BuildPayload(data, origin, lang).value == Lit("https://") + data.content
    ensures StartsWith(BuildPayload(data, origin, lang).value, Lit("http"))
    ensures BuildPayload(data.(content := BuildPayload(data, origin, lang).value), origin, lang)
              == BuildPayload(data, origin, lang)
  {
  }

  /** phone: "tel:" followed by the content, which is recovered by dropping
      the scheme. */
  lemma PhonePayload(data: QRData, origin: JsString, lang: Language)
    requires data.qrType == Phone && data.content != []
    ensures BuildPayload(data, origin, lang).Some?
    ensures StartsWith(BuildPayload(data, origin, lang).value, Lit("tel:"))
    ensures BuildPayload(data, origin, lang).value[4..] == data.content
  {
  }

  lemma LitConcat(a: string, b: string)
    ensures Lit(a + b) == Lit(a) + Lit(b)
  {
  }

  /** A literal that starts with a line break or a semicolon. */
  lemma LitCons(c: char, s: string, t: string)
    requires t == [c] + s
    ensures Lit(t) == [Unit(c)] + Lit(s)
  {
    LitConcat([c], s);
  }

  /** The eight lines of the card, in the order the template writes them. */
  function VCardLines(v: VCardData): seq<JsString>
  {
    [Lit("BEGIN:VCARD"), Lit("VERSION:3.0"), Lit("FN:") + v.name, Lit("TITLE:") + v.jobTitle,
     Lit("TEL:") + v.phone, Lit("EMAIL:") + v.email, Lit("ORG:") + v.organization, Lit("END:VCARD")]
  }

  /** No field value of the card holds a line break. */
  predicate VCardSingleLine(v: VCardData)
  {
    && NewLine !in v.name && NewLine !in v.jobTitle && NewLine !in v.phone
    && NewLine !in v.email && NewLine !in v.organization
  }

  lemma VCardVersionLine()
    ensures Lit("BEGIN:VCARD\nVERSION:3.0") == Lit("BEGIN:VCARD") + ([NewLine] + Lit("VERSION:3.0"))
  {
    LitConcat("BEGIN:VCARD", "\nVERSION:3.0");
    LitCons('\n', "VERSION:3.0", "\nVERSION:3.0");
  }

  lemma VCardHead()
    ensures Lit("BEGIN:VCARD\nVERSION:3.0\nFN:")
            == Lit("BEGIN:VCARD") + ([NewLine] + Lit("VERSION:3.0")) + ([NewLine] + Lit("FN:"))
  {
    LitConcat("BEGIN:VCARD\nVERSION:3.0", "\nFN:");
    LitCons('\n', "FN:", "\nFN:");
    VCardVersionLine();
  }

  /** The template is the eight lines joined by "\n" (not CRLF). */
  lemma VCardTextLines(v: VCardData)
    ensures VCardText(v) == Join(VCardLines(v), NewLine)
  {
    var ls := VCardLines(v);
    VCardHead();
    LitCons('\n', "TITLE:", "\nTITLE:");
    LitCons('\n', "TEL:", "\nTEL:");
    LitCons('\n', "EMAIL:", "\nEMAIL:");
    LitCons('\n', "ORG:", "\nORG:");
    LitCons('\n', "END:VCARD", "\nEND:VCARD");
    // The template read left to right, one line at a time.
    var p := [ls[0]];
    JoinAppendBare(p, ls[0], NewLine, ls[1]);
    var acc := ls[0] + ([NewLine] + ls[1]);
    p := p + [ls[1]];
    JoinAppendLine(p, acc, NewLine, Lit("FN:"), v.name);
    acc, p := acc + ([NewLine] + Lit("FN:")) + v.name, p + [ls[2]];
    JoinAppendLine(p, acc, NewLine, Lit("TITLE:"), v.jobTitle);
    acc, p := acc + ([NewLine] + Lit("TITLE:")) + v.jobTitle, p + [ls[3]];
    JoinAppendLine(p, acc, NewLine, Lit("TEL:"), v.phone);
    acc, p := acc + ([NewLine] + Lit("TEL:")) + v.phone, p + [ls[4]];
    JoinAppendLine(p, acc, NewLine, Lit("EMAIL:"), v.email);
    acc, p := acc + ([NewLine] + Lit("EMAIL:")) + v.email, p + [ls[5]];
    JoinAppendLine(p, acc, NewLine, Lit("ORG:"), v.organization);
    acc, p := acc + ([NewLine] + Lit("ORG:")) + v.organization, p + [ls[6]];
    JoinAppendBare(p, acc, NewLine, ls[7]);
    acc, p := acc + ([NewLine] + ls[7]), p + [ls[7]];
    assert p == ls;
    assert acc == VCardText(v);
  }

  /** The lines are free of line breaks exactly when the field values are. */
  lemma VCardLinesSeparatorFree(v: VCardData)
    ensures SeparatorFree(VCardLines(v), NewLine) <==> VCardSingleLine(v)
  {
    var ls := VCardLines(v);
    if !VCardSingleLine(v) {
      if NewLine in v.name {
        assert NewLine in ls[2];
      } else if NewLine in v.jobTitle {
        assert NewLine in ls[3];
      } else if NewLine in v.phone {
        assert NewLine in ls[4];
      } else if NewLine in v.email {
        assert NewLine in ls[5];
      } else {
        assert NewLine in ls[6];
      }
    }
  }

  /** vcard: the payload is the eight lines BEGIN, VERSION:3.0, FN, TITLE,
      TEL, EMAIL, ORG, END joined by "\n", empty optional fields included;
      values are not escaped, so reading the lines back gives exactly those
      eight lines if and only if no value holds a line break. */
  lemma VCardPayload(data: QRData, origin: JsString, lang: Language)
    requires data.qrType == VCard && data.vcardData.Some? && data.vcardData.value.name != []
    ensures BuildPayload(data, origin, lang) == Some(Join(VCardLines(data.vcardData.value), NewLine))
    ensures Split(BuildPayload(data, origin, lang).value, NewLine) == VCardLines(data.vcardData.value)
            <==> VCardSingleLine(data.vcardData.value)
  {
    var v := data.vcardData.value;
    assert SwitchPayload(data, origin, lang) == Some(VCardText(v));
    assert |Lit("BEGIN:VCARD\nVERSION:3.0\nFN:")| == 27;
    VCardTextLines(v);
    VCardLinesSeparatorFree(v);
    SplitJoinIff(VCardLines(v), NewLine);
  }

  /** No WiFi field value holds a semicolon. */
  predicate WifiSemicolonFree(w: WifiData)
  {
    Semicolon !in w.ssid && Semicolon !in w.password && Semicolon !in w.encryption
  }

  /** The semicolon-separated fields of a WiFi payload. */
  function WifiFields(w: WifiData): seq<JsString>
  {
    [Lit("WIFI:T:") + w.encryption, Lit("S:") + w.ssid, Lit("P:") + w.password, [], []]
  }

  /** The template is its five fields joined by ";". */
  lemma WifiTextFields(w: WifiData)
    ensures WifiText(w) == Join(WifiFields(w), Semicolon)
  {
    var fs := WifiFields(w);
    LitCons(';', "S:", ";S:");
    LitCons(';', "P:", ";P:");
    LitCons(';', ";", ";;");
    var p := [fs[0]];
    JoinAppendLine(p, fs[0], Semicolon, Lit("S:"), w.ssid);
    var acc := fs[0] + ([Semicolon] + Lit("S:")) + w.ssid;
    p := p + [fs[1]];
    JoinAppendLine(p, acc, Semicolon, Lit("P:"), w.password);
    acc, p := acc + ([Semicolon] + Lit("P:")) + w.password, p + [fs[2]];
    JoinAppendBare(p, acc, Semicolon, []);
    acc, p := acc + ([Semicolon] + []), p + [[]];
    JoinAppendBare(p, acc, Semicolon, []);
    acc, p := acc + ([Semicolon] + []), p + [[]];
    assert p == fs;
    assert acc == WifiText(w);
  }

  lemma WifiFieldsSeparatorFree(w: WifiData)
    ensures SeparatorFree(WifiFields(w), Semicolon) <==> WifiSemicolonFree(w)
  {
    var fs := WifiFields(w);
    if !WifiSemicolonFree(w) {
      if Semicolon in w.encryption {
        assert Semicolon in fs[0];
      } else if Semicolon in w.ssid {
        assert Semicolon in fs[1];
      } else {
        assert Semicolon in fs[2];
      }
    }
  }

  /** wifi: the payload is "WIFI:T:" enc ";S:" ssid ";P:" password ";;",
      the P field written even when the password is empty or the encryption
      is "nopass"; values are not escaped, so the semicolon-separated fields
      are exactly T, S, P and two empty ones if and only if no value holds a
      semicolon. */
  lemma WifiPayload(data: QRData, origin: JsString, lang: Language)
    requires data.qrType == Wifi && data.wifiData.Some? && data.wifiData.value.ssid != []
    ensures BuildPayload(data, origin, lang)
            == Some(Lit("WIFI:T:") + data.wifiData.value.encryption + Lit(";S:") + data.wifiData.value.ssid
                    + Lit(";P:") + data.wifiData.value.password + Lit(";;"))
    ensures BuildPayload(data, origin, lang) == Some(Join(WifiFields(data.wifiData.value), Semicolon))
    ensures Split(BuildPayload(data, origin, lang).value, Semicolon) == WifiFields(data.wifiData.value)
            <==> WifiSemicolonFree(data.wifiData.value)
  {
    var w := data.wifiData.value;
    assert SwitchPayload(data, origin, lang) == Some(WifiText(w));
    assert |Lit("WIFI:T:")| == 7;
    WifiTextFields(w);
    WifiFieldsSeparatorFree(w);
    SplitJoinIff(WifiFields(w), Semicolon);
  }

  /** maps: the payload is the same-origin landing-page link whose query is
      the serialization of the parameters; the standard's parser (what
      `URLSearchParams` applies on the reading side) gives back exactly those
      parameters. */
  lemma MapsPayload(data: QRData, origin: JsString, lang: Language)
    requires data.qrType == Maps && data.mapsData.Some? && data.mapsData.value.url != []
    ensures BuildPayload(data, origin, lang)
            == Some(origin + Lit("/map-landing.html?")
                    + FormUrlEncoded.Widen(FormUrlEncoded.SerializeBytes(MapsParams(data.mapsData.value, lang))))
    ensures FormUrlEncoded.Parse(FormUrlEncoded.SerializeBytes(MapsParams(data.mapsData.value, lang)))
            == Some(MapsParams(data.mapsData.value, lang))
  {
    var m := data.mapsData.value;
    var link := MapsLink(m, origin, lang);
    assert SwitchPayload(data, origin, lang) == Some(link);
    assert |Lit("/map-landing.html?")| == 18;
    assert link != [];
    FormUrlEncoded.ParseSerialize(MapsParams(m, lang));
  }

  /** The list of parameters in each of the four cases of title and note. */
  lemma MapsParamsCases(m: MapsData, lang: Language)
    ensures var u, l := ("url", Utf16.ToScalars(m.url)), ("lang", LangCode(lang));
      var t, n := ("title", Utf16.ToScalars(m.title)), ("note", Utf16.ToScalars(m.note));
      && (m.title == [] && m.note == [] ==> MapsParams(m, lang) == [u, l])
      && (m.title != [] && m.note == [] ==> MapsParams(m, lang) == [u, l, t])
      && (m.title == [] && m.note != [] ==> MapsParams(m, lang) == [u, l, n])
      && (m.title != [] && m.note != [] ==> MapsParams(m, lang) == [u, l, t, n])
  {
  }

  /** Each text parameter converts back to its form field exactly when the
      field has no unpaired surrogate. */
  lemma MapsParamsLossless(m: MapsData)
    ensures Utf16.FromScalars(Utf16.ToScalars(m.url)) == m.url <==> Utf16.WellFormed(m.url)
    ensures Utf16.FromScalars(Utf16.ToScalars(m.title)) == m.title <==> Utf16.WellFormed(m.title)
    ensures Utf16.FromScalars(Utf16.ToScalars(m.note)) == m.note <==> Utf16.WellFormed(m.note)
  {
    Utf16.ConversionLosslessIff(m.url);
    Utf16.ConversionLosslessIff(m.title);
    Utf16.ConversionLosslessIff(m.note);
  }

  /** The parameters: `url` then `lang` always, then `title` exactly when the
      title is not empty, then `note` exactly when the note is not empty, and
      nothing else.
      Each text value converts back to itself exactly when it has no unpaired
      surrogate (an unpaired one is read back as U+FFFD). */
  lemma MapsParamsShape(m: MapsData, lang: Language)
    ensures var ps := MapsParams(m, lang);
      && |ps| == 2 + (if m.title != [] then 1 else 0) + (if m.note != [] then 1 else 0)
      && ps[0] == ("url", Utf16.ToScalars(m.url)) && ps[1] == ("lang", LangCode(lang))
      && ((exists k :: 0 <= k < |ps| && ps[k].0 == "title") <==> m.title != [])
      && ((exists k :: 0 <= k < |ps| && ps[k].0 == "note") <==> m.note != [])
      && (Utf16.FromScalars(ps[0].1) == m.url <==> Utf16.WellFormed(m.url))
      && (m.title != [] ==>
            && ps[2] == ("title", Utf16.ToScalars(m.title))
            && (Utf16.FromScalars(ps[2].1) == m.title <==> Utf16.WellFormed(m.title)))
      && (m.note != [] ==>
            && ps[|ps| - 1] == ("note", Utf16.ToScalars(m.note))
            && (Utf16.FromScalars(ps[|ps| - 1].1) == m.note <==> Utf16.WellFormed(m.note)))
  {
    MapsParamsCases(m, lang);
    MapsParamsLossless(m);
    var ps := MapsParams(m, lang);
    assert "url" != "title" && "lang" != "title" && "note" != "title";
    assert "url" != "note" && "lang" != "note";
    if m.title == [] && m.note == [] {
      assert |ps| == 2;
    } else if m.note == [] {
      assert |ps| == 3 && ps[2].0 == "title";
    } else if m.title == [] {
      assert |ps| == 3 && ps[2].0 == "note";
    } else {
      assert |ps| == 4 && ps[2].0 == "title" && ps[3].0 == "note";
    }
  }
}
