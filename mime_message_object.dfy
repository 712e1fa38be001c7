/** `MimeMessageObject`: picks the body of a message from its part tree,
    collects the images it references by Content-ID and turns the body into an
    HTML document. */
module MimeMessage {
  import opened Wrappers
  import opened JavaStrings
  import opened Bytes
  import opened Base64
  import opened Mime
  import opened MimeWalk
  import opened Replacer

  /** The library calls the converter makes and this model does not look into. */
  datatype Platform = Platform(
    // `Charset.forName(name).name()`: the canonical name, `None` where forName throws
    charsetForName: string -> Option<string>,
    // `new String(bytes, UTF_8)`
    decodeUtf8: seq<byte> -> string,
    // `String.format(HTML_WRAPPER_TEMPLATE, charset, body)`
    formatWrapper: (string, string) -> string,
    // the patterns `IMG_CID_REGEX`, `IMG_CID_PLAIN_REGEX` and `HTML_META_CHARSET_REGEX`
    imgCidRegex: Matcher,
    imgCidPlainRegex: Matcher,
    metaCharsetRegex: Matcher)

  // ---------------------------------------------------------------- body selection

  /** The stream `getStringContent` reads: the content itself when it is a
      stream, the fallback of `getInputStream()` when `getContent()` throws. */
  function StreamOf(c: Content): Option<Stream> {
    match c
    case StreamContent(s, _) => Some(s)
    case ContentFails(fallback) => fallback
    case _ => None
  }

  /** `getStringContent`: a string content as it is, a stream (also the
      fallback stream) decoded as UTF-8, null for any other content. */
  function GetStringContent(decodeUtf8: seq<byte> -> string, p: Part): (r: Result<Option<string>, Error>)
    ensures r.Failure? <==>
      (p.content.ContentFails? || p.content.StreamContent?) && !(StreamOf(p.content).Some? && StreamOf(p.content).value.Readable?)
    ensures r.Success? && !p.content.StringContent? && !p.content.OtherContent? ==>
      r.value == Some(decodeUtf8(StreamOf(p.content).value.bytes))
    ensures p.content.StringContent? ==> r == Success(Some(p.content.text))
    ensures p.content.OtherContent? ==> r == Success(None)
  {
    match p.content
    case StringContent(text) => Success(Some(text))
    case OtherContent => Success(None)
    case StreamContent(Readable(bytes), _) => Success(Some(decodeUtf8(bytes)))
    case StreamContent(Unreadable, _) => Failure(StreamUnreadable)
    case ContentFails(None) => Failure(ContentUnreadable)
    case ContentFails(Some(Readable(bytes))) => Success(Some(decodeUtf8(bytes)))
    case ContentFails(Some(Unreadable)) => Failure(StreamUnreadable)
  }

  /** The fields `entry` and `contentType` as the body selector updates them. */
  datatype Selection = Selection(entry: Option<string>, contentType: ContentType)

  predicate IsText(p: Part) {
    IsTextPlain(p.contentType) || IsTextHtml(p.contentType)
  }

  /** The visitor of `setData` at one part. */
  function SelectStep(decodeUtf8: seq<byte> -> string, sel: Selection, p: Part): (r: Result<Selection, Error>)
    // parts of other types are passed over without reading them
    ensures !IsText(p) ==> r == Success(sel)
    // a text part is read before the disposition is looked at: a read failure
    // aborts even for an attachment
    ensures IsText(p) ==> (r.Failure? <==> GetStringContent(decodeUtf8, p).Failure?)
    // and the exception is the read's own: the visitor catches nothing
    ensures IsText(p) && r.Failure? ==> r.error == GetStringContent(decodeUtf8, p).error
    // blank text and attachments leave the selection as it was
    ensures (IsText(p) && GetStringContent(decodeUtf8, p).Success?
             && (IsBlank(GetStringContent(decodeUtf8, p).value) || IsAttachment(p))) ==> r == Success(sel)
    // an eligible part is taken: always for html, for plain text only while
    // entry is still blank
    ensures (IsText(p) && GetStringContent(decodeUtf8, p).Success?
             && !IsBlank(GetStringContent(decodeUtf8, p).value) && !IsAttachment(p)
             && (IsTextHtml(p.contentType) || IsBlank(sel.entry))) ==>
      r == Success(Selection(GetStringContent(decodeUtf8, p).value, p.contentType))
    // any change brings entry and contentType together from this part
    ensures r.Success? && r.value != sel ==>
      r.value == Selection(GetStringContent(decodeUtf8, p).value, p.contentType)
      && (IsTextHtml(p.contentType) || IsBlank(sel.entry))
  {
    if !IsTextPlain(p.contentType) && !IsTextHtml(p.contentType) then Success(sel)
    else
      match GetStringContent(decodeUtf8, p)
      case Failure(e) => Failure(e)
      case Success(text) =>
        if IsBlank(text) || IsAttachment(p) then Success(sel)
        else if IsBlank(sel.entry) || IsTextHtml(p.contentType) then Success(Selection(text, p.contentType))
        else Success(sel)
  }

  /** The lambda that `setData` hands to the walk. */
  function BodyVisitor(decodeUtf8: seq<byte> -> string): Visitor<Selection> {
    (sel, p, level) => SelectStep(decodeUtf8, sel, p)
  }

  /** A part the body selector may take: a text part that is not an attachment
      and whose text reads and is not blank. */
  predicate IsCandidate(decodeUtf8: seq<byte> -> string, p: Part) {
    && IsText(p)
    && GetStringContent(decodeUtf8, p).Success?
    && !IsBlank(GetStringContent(decodeUtf8, p).value)
    && !IsAttachment(p)
  }

  /** A candidate part with its text. */
  datatype Candidate = Candidate(text: string, part: Part)

  /** The candidates among the visited parts, in visiting order. */
  function Candidates(decodeUtf8: seq<byte> -> string, events: seq<Event>): (cs: seq<Candidate>)
    ensures forall i :: 0 <= i < |cs| ==>
      IsCandidate(decodeUtf8, cs[i].part) && GetStringContent(decodeUtf8, cs[i].part).value == Some(cs[i].text)
    decreases |events|
  {
    if events == [] then []
    else
      var rest := Candidates(decodeUtf8, events[1..]);
      if events[0].Visit? && IsCandidate(decodeUtf8, events[0].part) then
        [Candidate(GetStringContent(decodeUtf8, events[0].part).value.value, events[0].part)] + rest
      else rest
  }

  /** The last html candidate, if there is one. */
  function LastHtml(cs: seq<Candidate>): (r: Option<Candidate>)
    ensures r.None? <==> forall i :: 0 <= i < |cs| ==> !IsTextHtml(cs[i].part.contentType)
    ensures r.Some? ==> exists i :: && 0 <= i < |cs| && cs[i] == r.value && IsTextHtml(cs[i].part.contentType)
                                    && forall j :: i < j < |cs| ==> !IsTextHtml(cs[j].part.contentType)
    decreases |cs|
  {
    if cs == [] then None
    else
      var later := LastHtml(cs[1..]);
      if later.Some? then later
      else if IsTextHtml(cs[0].part.contentType) then Some(cs[0])
      else None
  }

  /** What the body selection comes to, starting from `sel0`: the last html
      candidate; failing that, `sel0` if its entry is not blank; failing that,
      the first (plain text) candidate; failing that, `sel0` unchanged. */
  function Chosen(sel0: Selection, cs: seq<Candidate>): (r: Selection)
    ensures r == sel0 || exists i :: 0 <= i < |cs| && r == Selection(Some(cs[i].text), cs[i].part.contentType)
  {
    match LastHtml(cs)
    case Some(c) => Selection(Some(c.text), c.part.contentType)
    case None =>
      if !IsBlank(sel0.entry) || cs == [] then sel0
      else Selection(Some(cs[0].text), cs[0].part.contentType)
  }

  /** A walk in which no multipart is broken and every text part can be read. */
  predicate TextReadable(decodeUtf8: seq<byte> -> string, events: seq<Event>) {
    forall i :: 0 <= i < |events| ==>
      events[i].Visit? && (IsText(events[i].part) ==> GetStringContent(decodeUtf8, events[i].part).Success?)
  }

  /** The body selector's walk completes and ends at `Chosen`: the last html
      part wins wherever it is, a plain part only when nothing was set before. */
  lemma {:induction false} SelectionChoosesLastHtml(decodeUtf8: seq<byte> -> string, sel0: Selection, events: seq<Event>)
    requires TextReadable(decodeUtf8, events)
    ensures Fold(BodyVisitor(decodeUtf8), sel0, events) == Done(Chosen(sel0, Candidates(decodeUtf8, events)))
    decreases |events|
  {
    if events != [] {
      var rest := events[1..];
      assert forall i :: 0 <= i < |rest| ==> rest[i] == events[i + 1];
      var p := events[0].part;
      var next := SelectStep(decodeUtf8, sel0, p).value;
      assert Fold(BodyVisitor(decodeUtf8), sel0, events) == Fold(BodyVisitor(decodeUtf8), next, rest);
      SelectionChoosesLastHtml(decodeUtf8, next, rest);
      var cs := Candidates(decodeUtf8, rest);
      if IsCandidate(decodeUtf8, p) {
        var c := Candidate(GetStringContent(decodeUtf8, p).value.value, p);
        assert Candidates(decodeUtf8, events) == [c] + cs;
        assert ([c] + cs)[1..] == cs;
        assert next == sel0 || next == Selection(Some(c.text), p.contentType);
      } else {
        assert next == sel0;
      }
    }
  }

  // ---------------------------------------------------------------- inline images

  /** An entry of the image map: `new MimeMessageObject(imageBase64, contentType)`. */
  datatype InlineImage = InlineImage(data: string, contentType: ContentType)

  /** An image part with a Content-ID header. */
  predicate IsInlineImage(p: Part) {
    IsImage(p.contentType) && |p.contentIds| > 0
  }

  /** `IOUtils.toByteArray((BASE64DecoderStream) p.getContent())`. */
  function ImageBytes(p: Part): (r: Result<seq<byte>, Error>)
    ensures r.Success? <==> p.content.StreamContent? && p.content.decodedBase64 && p.content.stream.Readable?
    ensures r.Success? ==> r.value == p.content.stream.bytes
  {
    match p.content
    case StreamContent(Readable(bytes), true) => Success(bytes)
    case StreamContent(Unreadable, true) => Failure(StreamUnreadable)
    case ContentFails(_) => Failure(ContentUnreadable)
    case _ => Failure(NotDecodedStream)
  }

  /** The entry of an image part: its bytes in base 64 and its content type. */
  function ImageEntry(p: Part): (img: InlineImage)
    requires ImageBytes(p).Success?
    ensures Decode(img.data) == Some(ImageBytes(p).value)
    ensures img.contentType == p.contentType
  {
    DecodeEncode(ImageBytes(p).value);
    InlineImage(Encode(ImageBytes(p).value), p.contentType)
  }

  /** The visitor of `getInlinedImage` at one part: `result.put(header[0], ...)`. */
  function ImageStep(images: map<string, InlineImage>, p: Part): (r: Result<map<string, InlineImage>, Error>)
    // parts that are not images with a Content-ID leave the map alone
    ensures !IsInlineImage(p) ==> r == Success(images)
    // reading an image throws exactly when its bytes cannot be had
    ensures IsInlineImage(p) ==> (r.Failure? <==> ImageBytes(p).Failure?)
    ensures IsInlineImage(p) && r.Failure? ==> r.error == ImageBytes(p).error
    // otherwise the first Content-ID now maps to the image, whose data decodes
    // to its bytes; every other key keeps its entry
    ensures IsInlineImage(p) && r.Success? ==>
      && r.value.Keys == images.Keys + {p.contentIds[0]}
      && Decode(r.value[p.contentIds[0]].data) == Some(ImageBytes(p).value)
      && r.value[p.contentIds[0]].contentType == p.contentType
      && forall key :: key in images && key != p.contentIds[0] ==> r.value[key] == images[key]
  {
    if IsInlineImage(p) then
      match ImageBytes(p)
      case Failure(e) => Failure(e)
      case Success(_) => Success(images[p.contentIds[0] := ImageEntry(p)])
    else Success(images)
  }

  function ImageVisitor(): Visitor<map<string, InlineImage>> {
    (images, p, level) => ImageStep(images, p)
  }

  /** What `getInlinedImage` returns or throws. */
  function InlinedImages(t: MimeTree): Result<map<string, InlineImage>, Error> {
    match Fold(ImageVisitor(), map[], Trace(t, 0))
    case Done(images) => Success(images)
    case Aborted(_, e) => Failure(e)
  }

  /** A visit of an image part whose first Content-ID is `key`. */
  predicate IsImageWithId(e: Event, key: string) {
    e.Visit? && IsInlineImage(e.part) && e.part.contentIds[0] == key
  }

  /** The last visited image part whose first Content-ID is `key`. */
  function LatestImage(events: seq<Event>, key: string): (r: Option<Part>)
    ensures r.None? <==> forall i :: 0 <= i < |events| ==> !IsImageWithId(events[i], key)
    ensures r.Some? ==> exists i :: && 0 <= i < |events| && IsImageWithId(events[i], key) && events[i].part == r.value
                                    && forall j :: i < j < |events| ==> !IsImageWithId(events[j], key)
    decreases |events|
  {
    if events == [] then None
    else
      match LatestImage(events[1..], key)
      case Some(p) => Some(p)
      case None => if IsImageWithId(events[0], key) then Some(events[0].part) else None
  }

  /** A walk in which no multipart is broken and every image part with a
      Content-ID can be read. */
  predicate ImagesReadable(events: seq<Event>) {
    forall i :: 0 <= i < |events| ==>
      events[i].Visit? && (IsInlineImage(events[i].part) ==> ImageBytes(events[i].part).Success?)
  }

  /** The image collector keys the map by the first Content-ID value exactly as
      the header has it; it holds exactly the image parts that carry one, and a
      repeated id holds the last such part. */
  lemma {:induction false} CollectsLatestImages(m0: map<string, InlineImage>, events: seq<Event>)
    requires ImagesReadable(events)
    ensures Fold(ImageVisitor(), m0, events).Done?
    ensures forall key :: key in Fold(ImageVisitor(), m0, events).state <==> key in m0 || LatestImage(events, key).Some?
    ensures forall key :: LatestImage(events, key).Some? ==>
      Fold(ImageVisitor(), m0, events).state[key] == ImageEntry(LatestImage(events, key).value)
    ensures forall key :: key in m0 && LatestImage(events, key).None? ==>
      Fold(ImageVisitor(), m0, events).state[key] == m0[key]
    decreases |events|
  {
    if events != [] {
      var rest := events[1..];
      assert ImagesReadable(rest) by {
        forall i | 0 <= i < |rest| ensures rest[i] == events[i + 1] { }
      }
      var p := events[0].part;
      var m1 := if IsInlineImage(p) then m0[p.contentIds[0] := ImageEntry(p)] else m0;
      assert ImageStep(m0, p) == Success(m1);
      assert Fold(ImageVisitor(), m0, events) == Fold(ImageVisitor(), m1, rest);
      CollectsLatestImages(m1, rest);
      var m := Fold(ImageVisitor(), m1, rest).state;
      forall key
        ensures key in m <==> key in m0 || LatestImage(events, key).Some?
      {
        LatestImageStep(events, key);
      }
      forall key | LatestImage(events, key).Some?
        ensures m[key] == ImageEntry(LatestImage(events, key).value)
      {
        LatestImageStep(events, key);
      }
      forall key | key in m0 && LatestImage(events, key).None?
        ensures m[key] == m0[key]
      {
        LatestImageStep(events, key);
      }
    }
  }

  /** One step of `LatestImage`: a later part with the id takes precedence. */
  lemma LatestImageStep(events: seq<Event>, key: string)
    requires events != []
    ensures LatestImage(events, key) ==
      if LatestImage(events[1..], key).Some? then LatestImage(events[1..], key)
      else if IsImageWithId(events[0], key) then Some(events[0].part) else None
  {
  }

  /** The replacement text for a `cid:` reference: the whole match when no image
      has the Content-ID `<group(1)>`, otherwise a data URI, wrapped in an
      `<img` tag for plain text. */
  function ImageText(images: map<string, InlineImage>, withSrcTag: bool, m: MatchResult): (r: string)
    ensures ("<" + m.group1 + ">") !in images ==> r == m.whole
    ensures ("<" + m.group1 + ">") in images ==>
      var data := DataUri(images["<" + m.group1 + ">"]);
      r == if withSrcTag then "<img src=\"" + data + " />" else data
  {
    var key := "<" + m.group1 + ">";
    if key !in images then m.whole
    else
      var data := DataUri(images[key]);
      if withSrcTag then "<img src=\"" + data + " />" else data
  }

  /** `"data:" + baseType + ";base64," + entry + "\""`. */
  function DataUri(img: InlineImage): string {
    "data:" + BaseType(img.contentType) + ";base64," + img.data + "\""
  }

  /** `appendImage(inlinedImages, withSrcTag)`: the callback never throws. */
  function AppendImage(images: map<string, InlineImage>, withSrcTag: bool): (replacer: MatchResult -> Result<string, Error>)
    ensures forall m :: replacer(m) == Success(ImageText(images, withSrcTag, m))
  {
    m => Success(ImageText(images, withSrcTag, m))
  }

  /** A `cid:` reference to an image the walk collected is replaced by a data URI
      of that image's type whose base 64 payload decodes to the image's bytes;
      on the plain-text path the URI sits in an `<img src="` ... ` />` tag. */
  lemma CidReferenceEmbedsImage(t: MimeTree, withSrcTag: bool, m: MatchResult)
    requires ImagesReadable(Trace(t, 0))
    requires LatestImage(Trace(t, 0), "<" + m.group1 + ">").Some?
    ensures InlinedImages(t).Success?
    ensures var p := LatestImage(Trace(t, 0), "<" + m.group1 + ">").value;
      exists data ::
        && Decode(data) == Some(ImageBytes(p).value)
        && var uri := "data:" + BaseType(p.contentType) + ";base64," + data + "\"";
           ImageText(InlinedImages(t).value, withSrcTag, m) == if withSrcTag then "<img src=\"" + uri + " />" else uri
  {
    CollectsLatestImages(map[], Trace(t, 0));
    var p := LatestImage(Trace(t, 0), "<" + m.group1 + ">").value;
    var img := ImageEntry(p);
    var uri := "data:" + BaseType(p.contentType) + ";base64," + img.data + "\"";
    assert ImageText(InlinedImages(t).value, withSrcTag, m) == if withSrcTag then "<img src=\"" + uri + " />" else uri;
  }

  // ---------------------------------------------------------------- charset and document

  /** `getCharset().name()`: the charset named by the `charset` parameter. There
      is no default: an absent parameter or a name the registry does not know
      throws. */
  function CharsetOf(charsetForName: string -> Option<string>, ct: ContentType): (r: Result<string, Error>)
    ensures ct.charset.None? ==> r == Failure(CharsetMissing)
    ensures ct.charset.Some? ==> (r.Success? <==> charsetForName(ct.charset.value).Some?)
    ensures r.Success? ==> Some(r.value) == charsetForName(ct.charset.value)
  {
    match ct.charset
    case None => Failure(CharsetMissing)
    case Some(name) =>
      match charsetForName(name)
      case None => Failure(CharsetUnsupported(name))
      case Some(canonical) => Success(canonical)
  }

  /** `matcher -> matcher.group(1) + charset`. */
  function CharsetText(charset: string, m: MatchResult): string {
    m.group1 + charset
  }

  /** `matcher -> matcher.group(1) + charset` as a callback that never throws. */
  function AppendCharset(charset: string): (replacer: MatchResult -> Result<string, Error>)
    ensures forall m :: replacer(m) == Success(m.group1 + charset)
  {
    m => Success(CharsetText(charset, m))
  }

  /** `s.replace("\n", "<br>")`. */
  function ReplaceNewlines(s: string): string
    decreases |s|
  {
    if s == [] then ""
    else (if s[0] == '\n' then "<br>" else [s[0]]) + ReplaceNewlines(s[1..])
  }

  /** `s.replace("\r", "")`. */
  function RemoveCarriageReturns(s: string): string
    decreases |s|
  {
    if s == [] then ""
    else (if s[0] == '\r' then "" else [s[0]]) + RemoveCarriageReturns(s[1..])
  }

  /** The line-terminator translation of the plain-text path. */
  function TranslateNewlines(s: string): string {
    RemoveCarriageReturns(ReplaceNewlines(s))
  }

  /** How the translation treats one character. */
  function TranslateChar(c: char): string {
    if c == '\n' then "<br>" else if c == '\r' then "" else [c]
  }

  /** The translation, one character at a time. */
  function TranslatePerChar(s: string): string
    decreases |s|
  {
    if s == [] then "" else TranslateChar(s[0]) + TranslatePerChar(s[1..])
  }

  lemma {:induction false} RemoveCarriageReturnsAppend(a: string, b: string)
    ensures RemoveCarriageReturns(a + b) == RemoveCarriageReturns(a) + RemoveCarriageReturns(b)
    decreases |a|
  {
    if a != [] {
      assert (a + b)[0] == a[0] && (a + b)[1..] == a[1..] + b;
      RemoveCarriageReturnsAppend(a[1..], b);
    } else {
      assert a + b == b;
    }
  }

  /** The two passes of the plain-text path map each character on its own:
      a newline to `<br>`, a carriage return to nothing, anything else to itself. */
  lemma {:induction false} TranslateNewlinesPerChar(s: string)
    ensures TranslateNewlines(s) == TranslatePerChar(s)
    decreases |s|
  {
    if s != [] {
      var head := if s[0] == '\n' then "<br>" else [s[0]];
      RemoveCarriageReturnsAppend(head, ReplaceNewlines(s[1..]));
      TranslateNewlinesPerChar(s[1..]);
      if s[0] == '\n' {
        assert RemoveCarriageReturns("<br>") == "<br>";
      } else {
        assert head[1..] == "";
      }
    }
  }

  /** No newline or carriage return survives the translation. */
  lemma {:induction false} TranslationRemovesLineTerminators(s: string)
    ensures forall i :: 0 <= i < |TranslatePerChar(s)| ==> TranslatePerChar(s)[i] != '\n' && TranslatePerChar(s)[i] != '\r'
    decreases |s|
  {
    if s != [] {
      TranslationRemovesLineTerminators(s[1..]);
      var r := TranslatePerChar(s);
      assert r == TranslateChar(s[0]) + TranslatePerChar(s[1..]);
      forall i | 0 <= i < |r| ensures r[i] != '\n' && r[i] != '\r' {
        if i >= |TranslateChar(s[0])| {
          assert r[i] == TranslatePerChar(s[1..])[i - |TranslateChar(s[0])|];
        }
      }
    }
  }

  /** Text without line terminators passes through the translation unchanged. */
  lemma {:induction false} TranslationKeepsOtherText(s: string)
    requires forall i :: 0 <= i < |s| ==> s[i] != '\n' && s[i] != '\r'
    ensures TranslatePerChar(s) == s
    decreases |s|
  {
    if s != [] {
      TranslationKeepsOtherText(s[1..]);
      assert s == [s[0]] + s[1..];
    }
  }

  /** The opening tag of the plain-text wrapper block. */
  const PreWrapOpen: string := "<div style=\"white-space: pre-wrap\">"

  /** The document `createHtmlBody` builds once the images and the charset are
      known: for html, cid references (only if there are images), then the
      charset of the meta declaration; for anything else, the translated text in
      a pre-wrap block inside the document template, then plain cid references
      (only if there are images). */
  function RenderHtml(platform: Platform, body: string, ct: ContentType, images: map<string, InlineImage>, charset: string): Result<string, Error> {
    if IsTextHtml(ct) then
      var withImages :-
        if |images| > 0 then Replace(platform.imgCidRegex(body), AppendImage(images, false)) else Success(body);
      Replace(platform.metaCharsetRegex(withImages), AppendCharset(charset))
    else
      var document := platform.formatWrapper(charset, PreWrapOpen + TranslateNewlines(body) + "</div>");
      if |images| > 0 then Replace(platform.imgCidPlainRegex(document), AppendImage(images, true)) else Success(document)
  }

  /** What `createHtmlBody` returns or throws, given the selected entry and
      content type: a null entry counts as "", the image walk runs first, then
      the charset is resolved. */
  function HtmlBody(platform: Platform, entry: Option<string>, ct: ContentType, t: MimeTree): Result<string, Error> {
    var images :- InlinedImages(t);
    var charset :- CharsetOf(platform.charsetForName, ct);
    RenderHtml(platform, entry.GetOr(""), ct, images, charset)
  }

  /** The html path: the cid substitution (a data URI for each reference to a
      known image) when there are images, then every meta charset declaration
      rewritten to its prefix followed by the resolved charset. */
  lemma HtmlPathRewritesCharset(platform: Platform, body: string, ct: ContentType, images: map<string, InlineImage>, charset: string)
    requires IsTextHtml(ct)
    ensures var withImages :=
        if |images| > 0 then Substitute(platform.imgCidRegex(body), m => ImageText(images, false, m)) else body;
      RenderHtml(platform, body, ct, images, charset)
        == Success(Substitute(platform.metaCharsetRegex(withImages), m => CharsetText(charset, m)))
  {
    ReplaceTotal(platform.imgCidRegex(body), AppendImage(images, false), m => ImageText(images, false, m));
    var withImages :=
        if |images| > 0 then Substitute(platform.imgCidRegex(body), m => ImageText(images, false, m)) else body;
    ReplaceTotal(platform.metaCharsetRegex(withImages), AppendCharset(charset), m => CharsetText(charset, m));
  }

  /** References to images the map does not hold leave an html body as it was
      before the charset rewrite. */
  lemma UnknownCidsLeaveHtmlBody(platform: Platform, body: string, ct: ContentType, images: map<string, InlineImage>, charset: string)
    requires IsTextHtml(ct)
    requires Cuts(platform.imgCidRegex)
    requires var segments := platform.imgCidRegex(body);
      forall i :: 0 <= i < |segments| && segments[i].Found? ==> ("<" + segments[i].found.group1 + ">") !in images
    ensures RenderHtml(platform, body, ct, images, charset)
         == Success(Substitute(platform.metaCharsetRegex(body), m => CharsetText(charset, m)))
  {
    HtmlPathRewritesCharset(platform, body, ct, images, charset);
    ReplaceUnchanged(platform.imgCidRegex(body), m => ImageText(images, false, m));
  }

  /** The plain-text path without images: the document template filled with the
      charset and a pre-wrap block holding the text with each newline turned
      into `<br>` and carriage returns dropped. */
  lemma PlainPathDocument(platform: Platform, body: string, ct: ContentType, images: map<string, InlineImage>, charset: string)
    requires !IsTextHtml(ct) && |images| == 0
    ensures RenderHtml(platform, body, ct, images, charset)
         == Success(platform.formatWrapper(charset, PreWrapOpen + TranslatePerChar(body) + "</div>"))
  {
    TranslateNewlinesPerChar(body);
  }

  /** The plain-text path with images: the same document, then every plain
      `cid:` match replaced (an `<img src="` ... ` />` tag for a known image,
      the match itself otherwise). */
  lemma PlainPathWithImages(platform: Platform, body: string, ct: ContentType, images: map<string, InlineImage>, charset: string)
    requires !IsTextHtml(ct) && |images| > 0
    ensures var document := platform.formatWrapper(charset, PreWrapOpen + TranslatePerChar(body) + "</div>");
      RenderHtml(platform, body, ct, images, charset)
        == Success(Substitute(platform.imgCidPlainRegex(document), m => ImageText(images, true, m)))
  {
    TranslateNewlinesPerChar(body);
    var document := platform.formatWrapper(charset, PreWrapOpen + TranslatePerChar(body) + "</div>");
    ReplaceTotal(platform.imgCidPlainRegex(document), AppendImage(images, true), m => ImageText(images, true, m));
  }

  /** Building the document itself never throws: every exception of
      `createHtmlBody` comes from the image walk or from the charset. */
  lemma RenderNeverFails(platform: Platform, body: string, ct: ContentType, images: map<string, InlineImage>, charset: string)
    ensures RenderHtml(platform, body, ct, images, charset).Success?
  {
    if IsTextHtml(ct) {
      HtmlPathRewritesCharset(platform, body, ct, images, charset);
    } else {
      var document := platform.formatWrapper(charset, PreWrapOpen + TranslateNewlines(body) + "</div>");
      ReplaceTotal(platform.imgCidPlainRegex(document), AppendImage(images, true), m => ImageText(images, true, m));
    }
  }

  /** `createHtmlBody` throws exactly when the image walk does, or when the
      content type names no known charset, with that exception. */
  lemma HtmlBodyFailures(platform: Platform, entry: Option<string>, ct: ContentType, t: MimeTree)
    ensures HtmlBody(platform, entry, ct, t).Failure? <==>
      InlinedImages(t).Failure? || CharsetOf(platform.charsetForName, ct).Failure?
    ensures InlinedImages(t).Failure? ==> HtmlBody(platform, entry, ct, t) == Failure(InlinedImages(t).error)
    ensures InlinedImages(t).Success? && CharsetOf(platform.charsetForName, ct).Failure? ==>
      HtmlBody(platform, entry, ct, t) == Failure(CharsetOf(platform.charsetForName, ct).error)
  {
    if InlinedImages(t).Success? && CharsetOf(platform.charsetForName, ct).Success? {
      RenderNeverFails(platform, entry.GetOr(""), ct, InlinedImages(t).value, CharsetOf(platform.charsetForName, ct).value);
    }
  }

  /** What the converting constructor produces: the selection and the document. */
  datatype Converted = Converted(selection: Selection, htmlBody: string)

  /** `new MimeMessageObject(contentType, part)`: `setData`, then `createHtmlBody`. */
  function Convert(platform: Platform, contentType: ContentType, t: MimeTree): Result<Converted, Error> {
    match Fold(BodyVisitor(platform.decodeUtf8), Selection(None, contentType), Trace(t, 0))
    case Aborted(_, e) => Failure(e)
    case Done(sel) =>
      var body :- HtmlBody(platform, sel.entry, sel.contentType, t);
      Success(Converted(sel, body))
  }

  /** A message whose text parts all read converts its chosen body: the last
      html candidate, else the first plain one, else nothing and the message's
      own content type. */
  lemma ConvertChoosesBody(platform: Platform, contentType: ContentType, t: MimeTree)
    requires TextReadable(platform.decodeUtf8, Trace(t, 0))
    ensures var sel := Chosen(Selection(None, contentType), Candidates(platform.decodeUtf8, Trace(t, 0)));
      && (Convert(platform, contentType, t).Success? <==> HtmlBody(platform, sel.entry, sel.contentType, t).Success?)
      && (Convert(platform, contentType, t).Success? ==>
            Convert(platform, contentType, t).value == Converted(sel, HtmlBody(platform, sel.entry, sel.contentType, t).value))
  {
    SelectionChoosesLastHtml(platform.decodeUtf8, Selection(None, contentType), Trace(t, 0));
  }

  // ---------------------------------------------------------------- the object

  class MimeMessageObject {
    var entry: Option<string>
    var contentType: ContentType
    var htmlBody: Option<string>

    /** `MimeMessageObject(String entry, ContentType contentType)`. */
    constructor (entry: Option<string>, contentType: ContentType)
      ensures this.entry == entry && this.contentType == contentType && htmlBody == None
    {
      this.entry := entry;
      this.contentType := contentType;
      htmlBody := None;
    }

    /** `MimeMessageObject(ContentType contentType, Part part)`. */
    static method FromPart(contentType: ContentType, part: MimeTree, platform: Platform) returns (r: Result<MimeMessageObject, Error>)
      ensures r.Failure? <==> Convert(platform, contentType, part).Failure?
      ensures r.Failure? ==> r.error == Convert(platform, contentType, part).error
      ensures r.Success? ==>
        && fresh(r.value)
        && Selection(r.value.entry, r.value.contentType) == Convert(platform, contentType, part).value.selection
        && r.value.htmlBody == Some(Convert(platform, contentType, part).value.htmlBody)
    {
      var m := new MimeMessageObject(None, contentType);
      var failure := m.SetData(part, platform.decodeUtf8);
      if failure.Some? {
        return Failure(failure.value);
      }
      var body := m.CreateHtmlBody(part, platform);
      if body.Failure? {
        return Failure(body.error);
      }
      m.htmlBody := Some(body.value);
      return Success(m);
    }

    function GetHtmlBody(): Option<string>
      reads this
    {
      htmlBody
    }

    method SetHtmlBody(htmlBody: Option<string>)
      modifies this`htmlBody
      ensures this.htmlBody == htmlBody
    {
      this.htmlBody := htmlBody;
    }

    /** `setData(part)`: walks the tree with the body visitor; an exception
      leaves the fields as far as the walk had got. */
    method SetData(part: MimeTree, decodeUtf8: seq<byte> -> string) returns (failure: Option<Error>)
      modifies this`entry, this`contentType
      ensures var walked := Fold(BodyVisitor(decodeUtf8), old(Selection(entry, contentType)), Trace(part, 0));
        && Selection(entry, contentType) == walked.state
        && failure == if walked.Aborted? then Some(walked.error) else None
    {
      var walked := WalkMimeStructure(part, 0, Selection(entry, contentType), BodyVisitor(decodeUtf8));
      entry, contentType := walked.state.entry, walked.state.contentType;
      failure := if walked.Aborted? then Some(walked.error) else None;
    }

    /** `getCharset().name()`. */
    function GetCharset(charsetForName: string -> Option<string>): (r: Result<string, Error>)
      reads this
      ensures contentType.charset.None? ==> r == Failure(CharsetMissing)
      ensures contentType.charset.Some? ==> (r.Success? <==> charsetForName(contentType.charset.value).Some?)
      ensures r.Success? ==> Some(r.value) == charsetForName(contentType.charset.value)
    {
      CharsetOf(charsetForName, contentType)
    }

    /** `getInlinedImage(part)`. */
    static method GetInlinedImage(part: MimeTree) returns (r: Result<map<string, InlineImage>, Error>)
      ensures r == InlinedImages(part)
    {
      var walked := WalkMimeStructure(part, 0, map[], ImageVisitor());
      r := if walked.Done? then Success(walked.state) else Failure(walked.error);
    }

    /** `createHtmlBody(part)`. */
    method CreateHtmlBody(part: MimeTree, platform: Platform) returns (r: Result<string, Error>)
      ensures r == HtmlBody(platform, entry, contentType, part)
    {
      var body := entry.GetOr("");
      var inlined := GetInlinedImage(part);
      if inlined.Failure? {
        return Failure(inlined.error);
      }
      var images := inlined.value;
      var resolved := GetCharset(platform.charsetForName);
      if resolved.Failure? {
        return Failure(resolved.error);
      }
      var charset := resolved.value;
      // neither substitution callback throws, so neither substitution does
      if IsTextHtml(contentType) {
        if |images| > 0 {
          var replaced := Replace(platform.imgCidRegex(body), AppendImage(images, false));
          body := replaced.value;
        }
        var rewritten := Replace(platform.metaCharsetRegex(body), AppendCharset(charset));
        body := rewritten.value;
      } else {
        body := PreWrapOpen + TranslateNewlines(body) + "</div>";
        body := platform.formatWrapper(charset, body);
        if |images| > 0 {
          var replaced := Replace(platform.imgCidPlainRegex(body), AppendImage(images, true));
          body := replaced.value;
        }
      }
      r := Success(body);
    }

    /** `appendToHtmlBody(str)`: Java's `+=` on strings, which writes "null" for
        a null side. */
    method AppendToHtmlBody(str: Option<string>)
      modifies this`htmlBody
      ensures htmlBody == Some(JavaString(old(htmlBody)) + JavaString(str))
    {
      htmlBody := Some(JavaString(htmlBody) + JavaString(str));
    }
  }
}
