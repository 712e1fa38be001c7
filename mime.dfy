/** The parts of a parsed MIME message, as the converter reads them through
    javax.mail's `Part`: a parsed content type, a disposition, the Content-ID
    header values and what `getContent()` yields. Multipart containers are the
    inner nodes of the tree. */
module Mime {
  import opened Wrappers
  import opened JavaStrings
  import opened Bytes

  /** A parsed `ContentType`; `charset` is its `charset` parameter, if any. */
  datatype ContentType = ContentType(primaryType: string, subType: string, charset: Option<string>)

  /** `ContentType.getBaseType()`. */
  function BaseType(ct: ContentType): string {
    ct.primaryType + "/" + ct.subType
  }

  /** `ContentType.match` / `Part.isMimeType`: primary types equal ignoring case,
      and subtypes equal ignoring case unless either one starts with `*`.
      Parameters play no part. */
  predicate IsMimeType(ct: ContentType, primaryType: string, subType: string): (r: bool)
    ensures r ==> EqualsIgnoreCase(ct.primaryType, primaryType)
    ensures EqualsIgnoreCase(ct.primaryType, primaryType) && EqualsIgnoreCase(ct.subType, subType) ==> r
    ensures r && (|ct.subType| == 0 || ct.subType[0] != '*') && (|subType| == 0 || subType[0] != '*') ==>
      EqualsIgnoreCase(ct.subType, subType)
  {
    && EqualsIgnoreCase(ct.primaryType, primaryType)
    && (|| (|ct.subType| > 0 && ct.subType[0] == '*')
        || (|subType| > 0 && subType[0] == '*')
        || EqualsIgnoreCase(ct.subType, subType))
  }

  predicate IsTextPlain(ct: ContentType) {
    IsMimeType(ct, "text", "plain")
  }

  predicate IsTextHtml(ct: ContentType) {
    IsMimeType(ct, "text", "html")
  }

  /** The test for any image subtype that the image collector applies (`IMAGE_TYPE`). */
  predicate IsImage(ct: ContentType) {
    IsMimeType(ct, "image", "*")
  }

  /** An input stream: its bytes, or a stream whose reading throws. */
  datatype Stream = Readable(bytes: seq<byte>) | Unreadable

  /** What `Part.getContent()` does. */
  datatype Content =
    | StringContent(text: string)
      // an `InputStream`; `decodedBase64` when it is the `BASE64DecoderStream`
      // that javax.mail returns for base64-encoded content without a handler
    | StreamContent(stream: Stream, decodedBase64: bool)
      // an object of any other class
    | OtherContent
      // `getContent()` throws; `fallback` is what `getInputStream()` then
      // returns, `None` when that throws too
    | ContentFails(fallback: Option<Stream>)

  /** A message part. `contentIds` holds the values of its Content-ID header in
      order; it is empty where `getHeader` returns null. */
  datatype Part = Part(contentType: ContentType, disposition: Option<string>, contentIds: seq<string>, content: Content)

  /** The part tree. A `Multipart` node is a part of a multipart type whose
      content is a `Multipart` with the given body parts. A `BrokenMultipart`
      is one whose body parts cannot all be enumerated: `children` are those
      `getBodyPart` returned before `getContent()`, the cast to `Multipart`,
      `getCount()` or the next `getBodyPart` threw (none when it is the content
      itself that fails). A `Leaf` is any other part. */
  datatype MimeTree =
    | Leaf(part: Part)
    | Multipart(part: Part, children: seq<MimeTree>)
    | BrokenMultipart(part: Part, children: seq<MimeTree>)

  /** The exceptions of the converter's core. */
  datatype Error =
    | MultipartUnreadable       // the children of a multipart part cannot be enumerated
    | ContentUnreadable         // getContent() and its fallback throw
    | StreamUnreadable          // reading the bytes of a stream throws
    | NotDecodedStream          // an image's content is not a BASE64DecoderStream
    | CharsetMissing            // Charset.forName(null)
    | CharsetUnsupported(name: string)  // Charset.forName of an unknown or illegal name

  /** `Part.ATTACHMENT.equalsIgnoreCase(p.getDisposition())`. */
  predicate IsAttachment(p: Part) {
    p.disposition.Some? && EqualsIgnoreCase(p.disposition.value, "attachment")
  }

  /** Only a wildcard subtype passes both the plain and the html test. */
  lemma BothTextTestsOnlyByWildcard(ct: ContentType)
    requires IsTextPlain(ct) && IsTextHtml(ct)
    ensures |ct.subType| > 0 && ct.subType[0] == '*'
  {
  }

  /** A text part whose subtype is a wildcard passes both text tests. */
  lemma WildcardTextIsBoth(p: Part)
    requires EqualsIgnoreCase(p.contentType.primaryType, "text")
    requires |p.contentType.subType| > 0 && p.contentType.subType[0] == '*'
    ensures IsTextPlain(p.contentType) && IsTextHtml(p.contentType)
  {
  }
}
