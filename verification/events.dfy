/**
 * Event preparation (`render_mjml_template`, its loop over the events) and
 * the image helpers it relies on (`process_image`, and the MIME subtype
 * rule shared with `load_logo_base64_uri`).
 *
 * The network and the image library are not modelled: fetching, decoding,
 * resizing and base64-encoding an image is a parameter `fetch` that either
 * fails or yields a `Picture` (the format the image library reports and
 * the base64 text of the saved bytes).
 */
module Events {
  import opened Common
  import opened TextCleaning
  import opened DateFormat

  /** One key of an event dictionary: missing, JSON `null`, or a string. */
  datatype Field = Absent | Null | Text(value: string)

  /**
   * The `image` key. `Falsy` is any value Python treats as false (`None`,
   * `False`, `""`, `0`, an empty list or dictionary); `Object` a non-empty
   * dictionary and its `url` key; `Scalar` any other truthy value, held
   * as its `str()` form.
   */
  datatype ImageField = NoImageKey | Falsy | Object(url: Field) | Scalar(text: string)

  /** An event as the events API returns it, restricted to the keys the mail uses. */
  datatype RawEvent = RawEvent(title: Field, description: Field, startDate: Field, url: Field, image: ImageField)

  /** What the template receives for one event; None stands for Python's `None`. */
  datatype TemplateEvent = TemplateEvent(
    title: string,
    description: string,
    startDateFormatted: Option<string>,
    url: Option<string>,
    imageBase64: string)

  /** A decoded image: the format the image library detected, if any, and its base64 text. */
  datatype Picture = Picture(format: Option<string>, base64: string)

  /** Download, decode, resize and encode an image; None where any step raises. */
  type Fetcher = string -> Option<Picture>

  /** `event.get(key, default)` for a string-valued key. */
  function Get(f: Field, default: string): (r: Option<string>)
    ensures f.Absent? ==> r == Some(default)
    ensures f.Null? ==> r == None
    ensures f.Text? ==> r == Some(f.value)
  {
    match f
    case Absent => Some(default)
    case Null => None
    case Text(s) => Some(s)
  }

  /** What a missing title shows as. */
  const DefaultTitle := "Événement sans titre"

  // ---------------------------------------------------------------------
  // MIME subtype and data URIs
  // ---------------------------------------------------------------------

  /** No ASCII capital letter in `s`. */
  predicate NoUpper(s: string) {
    forall i :: 0 <= i < |s| ==> !('A' <= s[i] <= 'Z')
  }

  /**
   * `fmt.lower() if fmt else fallback`, then "jpeg" renamed "jpg". The
   * fallback is "jpeg" for event images and "png" for the logo.
   */
  function MimeSubtype(format: Option<string>, fallback: string): (r: string)
    ensures r != "jpeg"
  {
    var t := if format == None || format == Some("") then fallback else AsciiLower(format.value);
    if t == "jpeg" then "jpg" else t
  }

  /**
   * Any spelling of "JPEG" becomes "jpg"; any other reported format is
   * lower-cased and kept; with no format the fallback is used (itself
   * renamed when it is "jpeg"). A subtype the rule produced is left as it
   * is by a second application.
   */
  lemma MimeSubtypeSpec(format: Option<string>, fallback: string)
    ensures format.Some? && format.value != "" && AsciiLower(format.value) == "jpeg" ==>
      MimeSubtype(format, fallback) == "jpg"
    ensures format.Some? && format.value != "" && AsciiLower(format.value) != "jpeg" ==>
      MimeSubtype(format, fallback) == AsciiLower(format.value)
    ensures format == None || format == Some("") ==>
      MimeSubtype(format, fallback) == (if fallback == "jpeg" then "jpg" else fallback)
    ensures NoUpper(fallback) ==> NoUpper(MimeSubtype(format, fallback))
  {
  }

  /** Normalising an already normalised, non-empty subtype changes nothing. */
  lemma {:induction false} MimeSubtypeIdempotent(format: Option<string>, fallback: string)
    requires MimeSubtype(format, fallback) != ""
    requires NoUpper(fallback)
    ensures MimeSubtype(Some(MimeSubtype(format, fallback)), fallback) == MimeSubtype(format, fallback)
  {
    var r := MimeSubtype(format, fallback);
    AsciiLowerIdentity(r);
    if format == None || format == Some("") {
      AsciiLowerIdentity(fallback);
    }
  }

  lemma {:induction false} AsciiLowerIdentity(s: string)
    requires NoUpper(s)
    ensures AsciiLower(s) == s
  {
    var l := AsciiLower(s);
    assert forall i :: 0 <= i < |s| ==> l[i] == s[i];
  }

  const DataUriPrefix := "data:image/"
  const Base64Marker := ";base64,"

  /** `f"data:image/{subtype};base64,{payload}"`. */
  function DataUri(subtype: string, payload: string): (r: string)
    ensures |r| == |DataUriPrefix| + |subtype| + |Base64Marker| + |payload|
    ensures r[..|DataUriPrefix|] == DataUriPrefix
    ensures r[|DataUriPrefix|..|DataUriPrefix| + |subtype|] == subtype
    ensures r[|r| - |payload|..] == payload
  {
    DataUriPrefix + subtype + Base64Marker + payload
  }

  /** `process_image`: a data URI for the fetched picture, or "" when anything fails. */
  function ProcessImage(fetch: Fetcher, url: string): (r: string)
    ensures r == "" <==> fetch(url).None?
    ensures fetch(url).Some? ==> r == DataUri(MimeSubtype(fetch(url).value.format, "jpeg"), fetch(url).value.base64)
  {
    match fetch(url)
    case None => ""
    case Some(p) => DataUri(MimeSubtype(p.format, "jpeg"), p.base64)
  }

  /** `load_logo_base64_uri`: None stands for a logo file that cannot be read or decoded. */
  function LogoDataUri(logo: Option<Picture>): (r: string)
    ensures r == "" <==> logo.None?
    ensures logo.Some? ==> r == DataUri(MimeSubtype(logo.value.format, "png"), logo.value.base64)
  {
    match logo
    case None => ""
    case Some(p) => DataUri(MimeSubtype(p.format, "png"), p.base64)
  }

  /** An event image whose format is not reported is labelled "jpg". */
  lemma ProcessImageNoFormat(fetch: Fetcher, url: string, payload: string)
    requires fetch(url) == Some(Picture(None, payload))
    ensures ProcessImage(fetch, url) == "data:image/jpg;base64," + payload
  {
    assert MimeSubtype(None, "jpeg") == "jpg";
    assert ProcessImage(fetch, url) == DataUri("jpg", payload);
  }

  /** A logo whose format is not reported is labelled "png". */
  lemma LogoNoFormat(payload: string)
    ensures LogoDataUri(Some(Picture(None, payload))) == "data:image/png;base64," + payload
  {
    assert MimeSubtype(None, "png") == "png";
  }

  /** A JPEG, however the library spells it, is labelled "jpg" in both places. */
  lemma JpegIsJpg(payload: string)
    ensures LogoDataUri(Some(Picture(Some("JPEG"), payload))) == "data:image/jpg;base64," + payload
  {
    var lower := AsciiLower("JPEG");
    assert lower[0] == 'j' && lower[1] == 'p' && lower[2] == 'e' && lower[3] == 'g';
    assert lower == "jpeg";
    assert MimeSubtype(Some("JPEG"), "png") == "jpg";
  }

  // ---------------------------------------------------------------------
  // One event
  // ---------------------------------------------------------------------

  /**
   * The URL the image is taken from: a dictionary's `url` (None when it is
   * `null`, "" when it is missing), the string form of any other truthy
   * value, and "" when the key is missing or its value is falsy.
   */
  function ImageUrl(image: ImageField): (r: Option<string>)
    ensures image.NoImageKey? || image.Falsy? ==> r == Some("")
    ensures image.Object? ==> r == Get(image.url, "")
    ensures image.Scalar? ==> r == Some(image.text)
  {
    match image
    case NoImageKey => Some("")
    case Falsy => Some("")
    case Object(u) => Get(u, "")
    case Scalar(t) => Some(t)
  }

  /** `if image_url`: only a non-empty URL is downloaded. */
  predicate WantsDownload(url: Option<string>) {
    url.Some? && url.value != ""
  }

  /**
   * The record's image: the data URI of the picture behind a non-empty
   * URL, and "" when there is no such URL or it cannot be fetched.
   */
  function ImageData(image: ImageField, fetch: Fetcher): (r: string)
    ensures r != "" <==> WantsDownload(ImageUrl(image)) && fetch(ImageUrl(image).value).Some?
    ensures r != "" ==>
      var p := fetch(ImageUrl(image).value).value;
      && |r| > |DataUriPrefix| + |p.base64|
      && r[..|DataUriPrefix|] == DataUriPrefix && r[|r| - |p.base64|..] == p.base64
  {
    var u := ImageUrl(image);
    if WantsDownload(u) then ProcessImage(fetch, u.value) else ""
  }

  /**
   * One template record. `format_date(None)` raises AttributeError inside
   * its own `try` and hands the `None` back, so a `null` start date stays
   * None.
   */
  function PrepareEvent(e: RawEvent, unescape: Unescaper, fetch: Fetcher): (r: TemplateEvent)
    ensures r.url == Get(e.url, "")
    ensures r.startDateFormatted.None? <==> e.startDate.Null?
  {
    TemplateEvent(
      CleanHtmlEntities(Get(e.title, DefaultTitle), unescape),
      TruncateDescription(Get(e.description, ""), unescape, MaxDescriptionLength),
      match Get(e.startDate, "") case None => None case Some(s) => Some(FormatDate(s)),
      Get(e.url, ""),
      ImageData(e.image, fetch))
  }

  /** A record's title: the decoded title, the default when it is missing, "" for a `null` or empty one. */
  lemma PrepareEventTitle(e: RawEvent, unescape: Unescaper, fetch: Fetcher)
    ensures var r := PrepareEvent(e, unescape, fetch);
      && (e.title.Absent? ==> r.title == unescape(DefaultTitle))
      && (e.title.Null? || e.title == Text("") ==> r.title == "")
      && (e.title.Text? && e.title.value != "" ==> r.title == unescape(e.title.value))
  {
  }

  /**
   * A record's description: the cleaned and truncated text of a non-empty
   * description, the placeholder when it is missing, `null` or empty, and
   * always normalized.
   */
  lemma PrepareEventDescription(e: RawEvent, unescape: Unescaper, fetch: Fetcher)
    ensures var r := PrepareEvent(e, unescape, fetch);
      && (e.description.Text? && e.description.value != "" ==>
            r.description == Truncate(CleanedText(e.description.value, unescape), MaxDescriptionLength))
      && (!(e.description.Text? && e.description.value != "") ==> r.description == Placeholder)
      && Normalized(r.description)
  {
    TruncateDescriptionNormalized(Get(e.description, ""), unescape, MaxDescriptionLength);
  }

  /**
   * A record's date and image: the French date, "" for a missing one; and
   * a data URI only when a non-empty image URL was fetched successfully,
   * namely `process_image` of that URL.
   */
  lemma PrepareEventDateAndImage(e: RawEvent, unescape: Unescaper, fetch: Fetcher)
    ensures var r := PrepareEvent(e, unescape, fetch);
      && (e.startDate.Absent? ==> r.startDateFormatted == Some(""))
      && (e.startDate.Text? ==> r.startDateFormatted == Some(FormatDate(e.startDate.value)))
      && (r.imageBase64 != "" <==> WantsDownload(ImageUrl(e.image)) && fetch(ImageUrl(e.image).value).Some?)
      && r.imageBase64 == (if WantsDownload(ImageUrl(e.image)) then ProcessImage(fetch, ImageUrl(e.image).value) else "")
  {
    assert FormatDate("") == "";
  }

  /** Without a non-empty image URL the fetcher is never consulted: any two give the same record. */
  lemma NoUrlNoDownload(e: RawEvent, unescape: Unescaper, fetch1: Fetcher, fetch2: Fetcher)
    requires !WantsDownload(ImageUrl(e.image))
    ensures PrepareEvent(e, unescape, fetch1) == PrepareEvent(e, unescape, fetch2)
    ensures PrepareEvent(e, unescape, fetch1).imageBase64 == ""
  {
  }

  // ---------------------------------------------------------------------
  // The loop over all events
  // ---------------------------------------------------------------------

  /** The image URLs the loop downloads, in event order. */
  function Downloads(events: seq<RawEvent>): seq<string> {
    if |events| == 0 then []
    else
      var u := ImageUrl(events[|events| - 1].image);
      Downloads(events[..|events| - 1]) + (if WantsDownload(u) then [u.value] else [])
  }

  /**
   * The loop of `render_mjml_template`: one record per event, appended in
   * event order, and a download for each event with a non-empty image URL.
   */
  method PrepareEvents(events: seq<RawEvent>, unescape: Unescaper, fetch: Fetcher)
    returns (records: seq<TemplateEvent>, downloads: seq<string>)
    ensures |records| == |events|
    ensures forall j :: 0 <= j < |events| ==> records[j] == PrepareEvent(events[j], unescape, fetch)
    ensures downloads == Downloads(events)
  {
    records := [];
    downloads := [];
    ghost var prepare := (e: RawEvent) => PrepareEvent(e, unescape, fetch);
    var i := 0;
    while i < |events|
      invariant 0 <= i <= |events|
      invariant |records| == i
      invariant forall j :: 0 <= j < i ==> records[j] == prepare(events[j])
      invariant downloads == Downloads(events[..i])
    {
      var e := events[i];
      var u := ImageUrl(e.image);
      if WantsDownload(u) {
        downloads := downloads + [u.value];
      }
      var record := PrepareEvent(e, unescape, fetch);
      MapStep(records, events, prepare);
      records := records + [record];
      DownloadsStep(events, i);
      i := i + 1;
    }
    assert events[..i] == events;
  }

  /** Appending `f` of the next element keeps `out` the image of `xs` under `f` so far. */
  lemma MapStep<A, B>(out: seq<B>, xs: seq<A>, f: A -> B)
    requires |out| < |xs|
    requires forall j :: 0 <= j < |out| ==> out[j] == f(xs[j])
    ensures forall j :: 0 <= j <= |out| ==> (out + [f(xs[|out|])])[j] == f(xs[j])
  {
  }

  /** One more event adds its image URL to the downloads when it is non-empty. */
  lemma DownloadsStep(events: seq<RawEvent>, i: int)
    requires 0 <= i < |events|
    ensures var u := ImageUrl(events[i].image);
      Downloads(events[..i + 1]) == Downloads(events[..i]) + (if WantsDownload(u) then [u.value] else [])
  {
    assert events[..i + 1][..i] == events[..i];
  }

  /**
   * Exactly the events with a non-empty image URL are downloaded, each
   * once, in event order: the downloads are those URLs, filtered.
   */
  lemma {:induction false} DownloadsSpec(events: seq<RawEvent>)
    ensures |Downloads(events)| <= |events|
    ensures forall k :: 0 <= k < |Downloads(events)| ==> Downloads(events)[k] != ""
    ensures (forall j :: 0 <= j < |events| ==> !WantsDownload(ImageUrl(events[j].image))) <==> Downloads(events) == []
    decreases |events|
  {
    if |events| > 0 {
      var init := events[..|events| - 1];
      DownloadsSpec(init);
      assert forall j :: 0 <= j < |init| ==> init[j] == events[j];
    }
  }

  /** Preparing events one batch after another appends the records and the downloads. */
  lemma {:induction false} DownloadsAppend(a: seq<RawEvent>, b: seq<RawEvent>)
    ensures Downloads(a + b) == Downloads(a) + Downloads(b)
    decreases |b|
  {
    if |b| == 0 {
      assert a + b == a;
    } else {
      var b' := b[..|b| - 1];
      assert (a + b)[..|a + b| - 1] == a + b';
      DownloadsAppend(a, b');
    }
  }
}
