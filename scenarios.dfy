/** The properties at work on small concrete messages, worked out as lemmas. */
module MimeScenarios {
  import opened Wrappers
  import opened Bytes
  import opened Base64
  import opened Mime
  import opened MimeWalk
  import opened MimeMessage

  const Utf8Html: ContentType := ContentType("text", "html", Some("UTF-8"))
  const Utf8Plain: ContentType := ContentType("text", "plain", Some("UTF-8"))
  const Alternative: ContentType := ContentType("multipart", "alternative", None)

  function TextPart(ct: ContentType, disposition: Option<string>, text: string): Part {
    Part(ct, disposition, [], StringContent(text))
  }

  /** multipart/alternative holding a plain and then an html version. */
  function AlternativeMessage(): MimeTree {
    Multipart(Part(Alternative, None, [], OtherContent), [
      Leaf(TextPart(Utf8Plain, None, "Hello")),
      Leaf(TextPart(Utf8Html, None, "<p>Hello</p>"))])
  }

  /** The walk of a multipart with two leaves. */
  lemma TwoChildTrace(p: Part, a: Part, b: Part)
    ensures Trace(Multipart(p, [Leaf(a), Leaf(b)]), 0) == [Visit(p, 0), Visit(a, 1), Visit(b, 1)]
  {
    var children := [Leaf(a), Leaf(b)];
    assert children[1..] == [Leaf(b)] && children[1..][1..] == [];
    assert TraceAll([Leaf(b)], 0) == Trace(Leaf(b), 1) + TraceAll([], 0);
    assert TraceAll(children, 0) == Trace(Leaf(a), 1) + TraceAll([Leaf(b)], 0);
  }

  /** How the content types of these messages classify. */
  lemma TypeFacts()
    ensures IsTextPlain(Utf8Plain) && !IsTextHtml(Utf8Plain) && IsTextHtml(Utf8Html)
    ensures !IsText(Part(Alternative, None, [], OtherContent))
    ensures !IsText(Part(ContentType("multipart", "mixed", None), None, [], OtherContent))
  {
  }

  /** The html version wins although the plain one comes first. */
  lemma HtmlVersionWins(decodeUtf8: seq<byte> -> string)
    ensures Fold(BodyVisitor(decodeUtf8), Selection(None, Alternative), Trace(AlternativeMessage(), 0))
         == Done(Selection(Some("<p>Hello</p>"), Utf8Html))
  {
    var plain := TextPart(Utf8Plain, None, "Hello");
    var html := TextPart(Utf8Html, None, "<p>Hello</p>");
    TwoChildTrace(Part(Alternative, None, [], OtherContent), plain, html);
    TypeFacts();
    assert "Hello"[0] == 'H' && "<p>Hello</p>"[0] == '<';
    assert SelectStep(decodeUtf8, Selection(None, Alternative), plain) == Success(Selection(Some("Hello"), Utf8Plain));
    assert SelectStep(decodeUtf8, Selection(Some("Hello"), Utf8Plain), html) == Success(Selection(Some("<p>Hello</p>"), Utf8Html));
  }

  /** A plain-text attachment ahead of the body is passed over. */
  lemma AttachmentIsPassedOver(decodeUtf8: seq<byte> -> string)
    ensures var message := Multipart(Part(ContentType("multipart", "mixed", None), None, [], OtherContent), [
        Leaf(TextPart(Utf8Plain, Some("Attachment"), "notes")),
        Leaf(TextPart(Utf8Plain, None, "Body"))]);
      Fold(BodyVisitor(decodeUtf8), Selection(None, ContentType("multipart", "mixed", None)), Trace(message, 0))
        == Done(Selection(Some("Body"), Utf8Plain))
  {
    var attached := TextPart(Utf8Plain, Some("Attachment"), "notes");
    var body := TextPart(Utf8Plain, None, "Body");
    TwoChildTrace(Part(ContentType("multipart", "mixed", None), None, [], OtherContent), attached, body);
    TypeFacts();
    assert "notes"[0] == 'n' && "Body"[0] == 'B';
    assert IsAttachment(attached) by {
      assert JavaStrings.FoldCase('A') == 'a';
    }
    var mixed := Part(ContentType("multipart", "mixed", None), None, [], OtherContent);
    var events := [Visit(mixed, 0), Visit(attached, 1), Visit(body, 1)];
    var v, start := BodyVisitor(decodeUtf8), Selection(None, mixed.contentType);
    assert SelectStep(decodeUtf8, start, mixed) == Success(start);
    assert SelectStep(decodeUtf8, start, attached) == Success(start);
    assert SelectStep(decodeUtf8, start, body) == Success(Selection(Some("Body"), Utf8Plain));
    assert events[1..][1..] == [Visit(body, 1)];
    assert Fold(v, start, [Visit(body, 1)]) == Done(Selection(Some("Body"), Utf8Plain));
    assert Fold(v, start, events) == Fold(v, start, events[1..]);
  }

  /** A body whose content type names no charset is not converted: there is no
      UTF-8 default. */
  lemma NoCharsetNoDocument(platform: Platform)
    ensures HtmlBody(platform, Some("<p>Hi</p>"), ContentType("text", "html", None), Leaf(TextPart(ContentType("text", "html", None), None, "<p>Hi</p>")))
         == Failure(CharsetMissing)
  {
    var t := Leaf(TextPart(ContentType("text", "html", None), None, "<p>Hi</p>"));
    assert Trace(t, 0) == [Visit(TextPart(ContentType("text", "html", None), None, "<p>Hi</p>"), 0)];
    assert InlinedImages(t) == Success(map[]);
  }

  /** An inline png referenced from html becomes a data URI carrying its bytes. */
  lemma InlinePngIsEmbedded()
    ensures var png := Part(ContentType("image", "png", None), None, ["<logo>"], StreamContent(Readable([137, 80, 78]), true));
      InlinedImages(Multipart(Part(Alternative, None, [], OtherContent), [Leaf(png)]))
        == Success(map["<logo>" := InlineImage("iVBO", png.contentType)])
  {
    var png := Part(ContentType("image", "png", None), None, ["<logo>"], StreamContent(Readable([137, 80, 78]), true));
    var t := Multipart(Part(Alternative, None, [], OtherContent), [Leaf(png)]);
    assert TraceAll([Leaf(png)], 0) == Trace(Leaf(png), 1) + TraceAll([], 0);
    assert Trace(t, 0) == [Visit(Part(Alternative, None, [], OtherContent), 0), Visit(png, 1)];
    assert IsInlineImage(png) && !IsInlineImage(Part(Alternative, None, [], OtherContent));
    assert Encode([137, 80, 78]) == "iVBO";
  }

  /** A message with no usable text part keeps the content type it was
      converted with; a multipart type carries no charset, so the conversion
      throws although the empty entry itself would render. */
  lemma ImageOnlyMessageThrows(platform: Platform)
    ensures var png := Part(ContentType("image", "png", None), None, ["<logo>"], StreamContent(Readable([137, 80, 78]), true));
      var mixed := ContentType("multipart", "mixed", None);
      Convert(platform, mixed, Multipart(Part(mixed, None, [], OtherContent), [Leaf(png)])) == Failure(CharsetMissing)
  {
    var png := Part(ContentType("image", "png", None), None, ["<logo>"], StreamContent(Readable([137, 80, 78]), true));
    var mixed := ContentType("multipart", "mixed", None);
    var root := Part(mixed, None, [], OtherContent);
    var t := Multipart(root, [Leaf(png)]);
    assert TraceAll([Leaf(png)], 0) == Trace(Leaf(png), 1) + TraceAll([], 0);
    var events := Trace(t, 0);
    assert events == [Visit(root, 0), Visit(png, 1)];
    assert !IsText(root) && !IsText(png);
    var start := Selection(None, mixed);
    assert events[1..][1..] == [];
    assert Fold(BodyVisitor(platform.decodeUtf8), start, events[1..]) == Done(start);
    assert Fold(BodyVisitor(platform.decodeUtf8), start, events) == Done(start);
    assert IsInlineImage(png) && !IsInlineImage(root);
    assert ImageStep(map[], root) == Success(map[]);
    assert ImageStep(map[], png).Success?;
    assert Fold(ImageVisitor(), map[], events[1..]) == Done(ImageStep(map[], png).value);
  }
}
