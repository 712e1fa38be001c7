# emlToPdfConverter: the message body model

emlToPdfConverter turns a `.eml` e-mail into an HTML document and a PDF. This
project models the part that decides what goes into that HTML document. That part is
`MimeMessageObject`, with two small entity classes beside it:

- **The walk** (`walkMimeStructure`). It goes over the MIME part tree in
  pre-order and hands each part and its depth to a callback. A callback
  exception, or a multipart whose children cannot be read, stops the walk.
- **Body selection** (`setData`). It keeps the last usable `text/html` part.
  Failing that, it keeps the first usable `text/plain` part. A part is usable
  when its text is not blank and it is not an attachment.
- **Inline images** (`getInlinedImage`). A second walk collects the image
  parts that have a Content-ID. Each one is stored under that id as base 64
  data plus its content type.
- **The document** (`createHtmlBody`).
  - An html body has its `cid:` references replaced by data URIs, and its
    meta charset declaration rewritten.
  - A plain body has newlines turned into `<br>` and carriage returns
    dropped. It is then wrapped in a pre-wrap `<div>` and put into the
    document template, and its plain `cid:` references become `<img>` tags.
- **`HeaderPart`** and its builder. The builder ignores blank values for
  `data` and `subject`, and `subject` stores its value in bold.
- **`ConvertedFile`** holds the result files. Adding an attachment creates a
  new attachment list whenever the current one is null or empty.

Modules:

| module | file | |
|---|---|---|
| `Wrappers` | wrappers.dfy | `Option`, `Result` |
| `JavaStrings` | java_strings.dfy | `Character.isWhitespace`, `StringUtils.isBlank`, `equalsIgnoreCase`, string `+` on null |
| `Base64` | base64.dfy | the padded encoder of `java.util.Base64` (section 4 of RFC 4648) with a decoder and the round trip |
| `Mime` | mime.dfy | parts, content types, contents, the part tree, the exceptions |
| `MimeWalk` | mime_walk.dfy | the walk as a method, proved equal to a fold over the pre-order sequence of steps |
| `Replacer` | replacer.dfy | regex substitution through a callback, over a text already split into matches |
| `MimeMessage` | mime_message_object.dfy | body selection, images, charset, document, and the `MimeMessageObject` class |
| `HeaderParts` | header_part.dfy | `HeaderPart` and `HeaderPart.Builder` |
| `ConvertedFiles` | converted_file.dfy | `ConvertedFile` |
| `MimeScenarios` | scenarios.dfy | small concrete messages |

Each exception is a value of `Mime.Error`, and a walk that stops carries the
state it had reached. The walk is generic in its state. `setData` and
`getInlinedImage` pass it pure callbacks. The object's fields, or the map
that `getInlinedImage` builds locally and returns, are then set from the
walk's result. That gives the same final
state as the source's in-place updates, including when the walk stops part way.

Behaviour of the code that this model keeps:

- There is no UTF-8 fallback for the charset. `Charset.forName` gets the
  `charset` parameter, so a missing or unknown parameter throws before
  either path builds anything. The `orElse(UTF_8)` in
  `src/main/java/parser/ParserUtil.java:135` can never apply, because
  `getCharset` returns a charset or throws.
- `setData` reads a text part before it looks at the disposition. A text
  attachment whose content cannot be read therefore stops the selection.
- The image walk runs before the charset is resolved, so its exceptions come
  first.
- When no text part is usable, `entry` stays null and `contentType` stays the
  one the object was constructed with. `createHtmlBody` would render a null
  entry as an empty body, but it first resolves the charset of that content
  type. The message's own type is usually a multipart type without a
  `charset` parameter, so such a message throws `CharsetMissing` instead of
  converting (`MimeScenarios.ImageOnlyMessageThrows`).

## Model

| member | source | states |
|---|---|---|
| MimeWalk.WalkMimeStructure | src/main/java/parser/entity/MimeMessageObject.java:79-87 | the recursive walk with its loop over children gives exactly the fold of the callback over the pre-order step sequence; a failing child ends the loop, and a multipart whose children cannot all be enumerated stops after walking those that were |
| MimeWalk.WalkVisitsEveryNodeOnce | src/main/java/parser/entity/MimeMessageObject.java:79-87 | every node of the tree, broken multiparts and the children enumerated under them included, is visited exactly once, with the start level at the root and parent level + 1 for each child (multiset equality of visits and nodes) |
| MimeWalk.ChildWalkPosition | src/main/java/parser/entity/MimeMessageObject.java:80-85 | pre-order: a multipart is visited before its children, and child i's whole walk (one level deeper) sits between the walks of children 0..i-1 and i+1.. |
| MimeWalk.IntactTraceVisits | src/main/java/parser/entity/MimeMessageObject.java:80-84 | when no multipart is broken, every step is a visit and the first is the root at its level |
| MimeWalk.FoldAppend | src/main/java/parser/entity/MimeMessageObject.java:83-85 | walking two stretches one after the other continues into the second only if the first completed |
| MimeWalk.AbortedWalkIgnoresRest | src/main/java/parser/entity/MimeMessageObject.java:79-87 | once the walk has thrown, later steps change nothing: no later node is visited |
| MimeWalk.VisitorFailureAborts | src/main/java/parser/entity/MimeMessageObject.java:80 | a callback exception at some node ends the walk with that exception and the state reached just before that node, whatever follows |
| MimeMessage.GetStringContent | src/main/java/parser/entity/MimeMessageObject.java:89-104 | string content as it is; a stream (also the fallback stream when getContent throws) decoded as UTF-8; null for other content; it throws exactly when the stream it needs cannot be read or there is none |
| MimeMessage.SelectStep | src/main/java/parser/entity/MimeMessageObject.java:62-76 | non-text parts, blank text and attachments leave entry and content type unchanged; a read failure aborts with getStringContent's own exception, even for attachments; a readable, non-blank, non-attachment text part is taken (entry and content type both from it) when it is html or the entry so far is blank, and otherwise nothing changes |
| MimeMessage.Candidates | src/main/java/parser/entity/MimeMessageObject.java:64-70 | every collected candidate is a text part that is not an attachment, whose content reads to this non-blank text |
| MimeMessage.LastHtml | src/main/java/parser/entity/MimeMessageObject.java:72-75 | none exactly when no candidate is html; otherwise an html candidate with no html candidate after it |
| MimeMessage.Chosen | src/main/java/parser/entity/MimeMessageObject.java:72-75 | the outcome is the starting selection or the text and content type of one single candidate |
| MimeMessage.SelectionChoosesLastHtml | src/main/java/parser/entity/MimeMessageObject.java:61-77 | when every text part reads, selection completes with the last html candidate, else the starting entry if not blank, else the first plain candidate, else nothing changes |
| MimeMessage.MimeMessageObject.SetData | src/main/java/parser/entity/MimeMessageObject.java:61-77 | the fields end where the selection fold leaves them, also part way through when it throws; the method reports exactly the fold's exception |
| MimeMessage.ImageBytes | src/main/java/parser/entity/MimeMessageObject.java:137 | the image bytes are available exactly when the content is a readable base 64 decoder stream, and they are then that stream's bytes; any other content throws |
| MimeMessage.ImageEntry | src/main/java/parser/entity/MimeMessageObject.java:137-138 | the stored data decodes back to the image's bytes, and the stored type is the part's content type |
| MimeMessage.ImageStep | src/main/java/parser/entity/MimeMessageObject.java:134-139 | a part that is not an image with a Content-ID leaves the map alone; an image throws exactly when its bytes cannot be read, with that exception; otherwise its first Content-ID is added with data that decodes to its bytes and its content type, and every other key keeps its entry |
| MimeMessage.LatestImage | src/main/java/parser/entity/MimeMessageObject.java:134-139 | none exactly when no visited image part has this first Content-ID; otherwise the last such part |
| MimeMessage.CollectsLatestImages | src/main/java/parser/entity/MimeMessageObject.java:132-142 | for a readable tree the image walk completes; a key is present exactly when some image part has it as its first Content-ID (brackets included), and it maps to the entry of the last such part |
| MimeMessage.MimeMessageObject.GetInlinedImage | src/main/java/parser/entity/MimeMessageObject.java:132-142 | returns the map (or throws the exception) of the image fold from an empty map |
| MimeMessage.ImageText | src/main/java/parser/entity/MimeMessageObject.java:150-153 | a match whose `<group1>` names no collected image is given back whole; one that names an image becomes its data URI, wrapped as `<img src="` + uri + ` />` for the plain-text overload |
| MimeMessage.CidReferenceEmbedsImage | src/main/java/parser/entity/MimeMessageObject.java:150-155 | a reference to a collected image becomes `data:<base type>;base64,<payload>"` (inside `<img src="… />` for the plain-text overload), whose payload decodes to the bytes of the last image part with that id |
| MimeMessage.AppendImage | src/main/java/parser/entity/MimeMessageObject.java:144-156 | the callback never throws and gives every match its image text; the one-argument overload is the call with `withSrcTag` false |
| MimeMessage.CharsetOf | src/main/java/parser/entity/MimeMessageObject.java:106-108 | a missing charset parameter throws; a present one resolves exactly when the charset registry knows the name, to its canonical name |
| MimeMessage.AppendCharset | src/main/java/parser/entity/MimeMessageObject.java:120 | the callback never throws and replaces each match by its group 1 followed by the charset |
| MimeMessage.MimeMessageObject.GetCharset | src/main/java/parser/entity/MimeMessageObject.java:106-108 | on the object's content type: no charset parameter throws; a present one resolves exactly when the registry knows it, to the registry's name |
| MimeMessage.TranslateNewlinesPerChar | src/main/java/parser/entity/MimeMessageObject.java:122 | the two `replace` passes map each character on its own: `\n` to `<br>`, `\r` to nothing, others to themselves |
| MimeMessage.TranslationRemovesLineTerminators | src/main/java/parser/entity/MimeMessageObject.java:122 | no `\n` or `\r` is left in the translated text |
| MimeMessage.TranslationKeepsOtherText | src/main/java/parser/entity/MimeMessageObject.java:122 | text without line terminators is translated to itself |
| MimeMessage.HtmlPathRewritesCharset | src/main/java/parser/entity/MimeMessageObject.java:114-120 | for an html body: the cid substitution only when there are images, then each meta charset match replaced by its group 1 followed by the charset |
| MimeMessage.UnknownCidsLeaveHtmlBody | src/main/java/parser/entity/MimeMessageObject.java:115-120 | when no cid match names a collected image, the html body reaches the charset rewrite unchanged |
| MimeMessage.PlainPathDocument | src/main/java/parser/entity/MimeMessageObject.java:121-128 | without images, a plain body becomes the template filled with the charset and a pre-wrap div holding the translated text |
| MimeMessage.PlainPathWithImages | src/main/java/parser/entity/MimeMessageObject.java:121-128 | with images, a plain body becomes that same document with each plain cid match replaced by its `<img src=…>` image text |
| MimeMessage.RenderNeverFails | src/main/java/parser/entity/MimeMessageObject.java:114-129 | once the images and the charset are known, building the document never throws |
| MimeMessage.HtmlBodyFailures | src/main/java/parser/entity/MimeMessageObject.java:110-113 | createHtmlBody throws exactly when the image walk or the charset does, the image walk's exception taking precedence |
| MimeMessage.MimeMessageObject.CreateHtmlBody | src/main/java/parser/entity/MimeMessageObject.java:110-130 | the step-by-step body gives exactly the document (or exception) of the image map, charset and path for the current entry and content type, a null entry counting as "" |
| MimeMessage.ConvertChoosesBody | src/main/java/parser/entity/MimeMessageObject.java:42-46 | when every text part reads, converting a message renders the body that selection chooses, with that part's content type |
| MimeMessage.MimeMessageObject.FromPart | src/main/java/parser/entity/MimeMessageObject.java:42-46 | a new object with entry, content type and html body from selection and rendering, or exactly their exception |
| MimeMessage.MimeMessageObject.constructor | src/main/java/parser/entity/MimeMessageObject.java:48-51 | an object holding the given entry and content type, without html body |
| MimeMessage.MimeMessageObject.SetHtmlBody | src/main/java/parser/entity/MimeMessageObject.java:57-59 | the html body becomes the given value, and the getter returns it |
| MimeMessage.MimeMessageObject.AppendToHtmlBody | src/main/java/parser/entity/MimeMessageObject.java:159-161 | the html body becomes the concatenation of the old body and the string, each written as "null" when null |
| Mime.IsMimeType | src/main/java/parser/entity/MimeMessageObject.java:64-72 | a type matches only if its primary type equals the asked one ignoring case; equal primary and sub type ignoring case always match; without a wildcard a match means equal sub types |
| Mime.WildcardTextIsBoth | src/main/java/parser/entity/MimeMessageObject.java:64-72 | a `text` part with a wildcard subtype passes both the plain and the html test, so it counts as html |
| Mime.BothTextTestsOnlyByWildcard | src/main/java/parser/entity/MimeMessageObject.java:64-72 | a type that passes both the plain and the html test has a wildcard sub type |
| Replacer.Replace | src/main/java/parser/entity/MimeMessageObject.java:117-126 | a substitution that throws threw the callback's exception for some match; one that returns had the callback return for every match |
| Replacer.ReplaceTotal | src/main/java/parser/entity/MimeMessageObject.java:117-120 | a callback that never throws makes the substitution the text with each match replaced by the callback's string |
| Replacer.ReplaceUnchanged | src/main/java/parser/entity/MimeMessageObject.java:150-153 | a callback that gives every match back whole leaves the text unchanged |
| Replacer.ReplaceFailure | src/main/java/parser/entity/MimeMessageObject.java:117 | the substitution throws exactly when the callback throws on some match, and with the exception of the leftmost one |
| Base64.Encode | src/main/java/parser/entity/MimeMessageObject.java:137 | no bytes encode to the empty text, any byte gives at least one four-character group, and the length is always a multiple of four |
| Base64.DecodeEncode | src/main/java/parser/entity/MimeMessageObject.java:137 | decoding the encoder's output gives back the bytes |
| Base64.EncodedLength | src/main/java/parser/entity/MimeMessageObject.java:137 | the padded encoding of n bytes is 4 * ceil(n / 3) characters long |
| JavaStrings.IsBlank | src/main/java/parser/entity/MimeMessageObject.java:68 | null and the empty string are blank; a string with a character that is not whitespace is not |
| JavaStrings.IsBlankExamples | src/main/java/parser/entity/MimeMessageObject.java:68 | null, "", " " are blank and "bob", "  bob  " are not |
| JavaStrings.EqualsIgnoreCase | src/main/java/parser/entity/MimeMessageObject.java:68 | equal strings compare equal, and strings that compare equal have the same length |
| JavaStrings.AttachmentInAnyCase | src/main/java/parser/entity/MimeMessageObject.java:68 | `ATTACHMENT` and `Attachment` are attachment dispositions, `inline` is not |
| MimeScenarios.HtmlVersionWins | src/main/java/parser/entity/MimeMessageObject.java:61-77 | in a plain-then-html alternative, the html version is selected |
| MimeScenarios.AttachmentIsPassedOver | src/main/java/parser/entity/MimeMessageObject.java:67-70 | a plain attachment (disposition in any case) ahead of the body is not selected |
| MimeScenarios.NoCharsetNoDocument | src/main/java/parser/entity/MimeMessageObject.java:106-113 | an html body without a charset parameter does not convert |
| MimeScenarios.InlinePngIsEmbedded | src/main/java/parser/entity/MimeMessageObject.java:132-142 | an inline png is stored under its bracketed Content-ID with its base 64 data |
| MimeScenarios.ImageOnlyMessageThrows | src/main/java/parser/entity/MimeMessageObject.java:42-46 | a multipart/mixed message without charset whose only child is an inline png throws CharsetMissing: no text part is selected, so the message's own content type is kept |
| HeaderParts.Builder.constructor | src/main/java/parser/entity/HeaderPart.java:36-38 | a new builder starts with the shared header template, no name and no data |
| HeaderParts.Builder.Template | src/main/java/parser/entity/HeaderPart.java:40-43 | sets only the template, even to null, keeps the builder valid and returns the same builder |
| HeaderParts.Builder.Name | src/main/java/parser/entity/HeaderPart.java:45-48 | sets only the name, even to null, keeps the builder valid and returns the same builder |
| HeaderParts.Builder.Data | src/main/java/parser/entity/HeaderPart.java:50-55 | a value that is not blank replaces data; a null or blank one leaves it as it was; data never becomes blank |
| HeaderParts.Builder.Subject | src/main/java/parser/entity/HeaderPart.java:57-62 | a value that is not blank replaces data in bold; a null or blank one leaves it; data never becomes blank |
| HeaderParts.Bold | src/main/java/parser/entity/HeaderPart.java:59 | the bolded value is seven characters longer, starts with `<b>`, ends with `</b>` and holds the value between the tags |
| HeaderParts.BoldIsNeverBlank | src/main/java/parser/entity/HeaderPart.java:57-62 | a bolded value is never blank |
| HeaderParts.Builder.Build | src/main/java/parser/entity/HeaderPart.java:12-16 | the header part holds the builder's three fields as they are at that moment |
| HeaderParts.SubjectLine | src/main/java/parser/entity/HeaderPart.java:57-66 | chaining name and two subjects keeps the last subject that is not blank, and the data is never blank |
| ConvertedFiles.FileList.constructor | src/main/java/parser/entity/ConvertedFile.java:48 | a new list is empty |
| ConvertedFiles.FileList.Add | src/main/java/parser/entity/ConvertedFile.java:50 | appends at the end |
| ConvertedFiles.ConvertedFile.constructor | src/main/java/parser/entity/ConvertedFile.java:18-20 | all three fields start null |
| ConvertedFiles.ConvertedFile.SetPdf | src/main/java/parser/entity/ConvertedFile.java:22-28 | sets only the pdf, and the getter returns it |
| ConvertedFiles.ConvertedFile.SetEmailInHtml | src/main/java/parser/entity/ConvertedFile.java:30-36 | sets only the html file, and the getter returns it |
| ConvertedFiles.ConvertedFile.SetAttachments | src/main/java/parser/entity/ConvertedFile.java:38-44 | sets only the attachment list (the caller's list object), and the getter returns it |
| ConvertedFiles.ConvertedFile.AddAttachment | src/main/java/parser/entity/ConvertedFile.java:46-51 | afterwards the list is there and ends with the file; a null or empty list is replaced by a new one holding just the file, and the empty list itself is not changed; a list with elements gets the file appended in place; html and pdf are unchanged |
| ConvertedFiles.AddTwoAttachments | src/main/java/parser/entity/ConvertedFile.java:46-51 | two additions to a fresh file give both files in order |

## Left out

- javax.mail parsing is not modelled. A part is a record with a parsed
  content type, a disposition, its Content-ID values and what `getContent()`
  yields. `getInputStream()` is the fallback of `ContentFails`.
- Multipart detection is not modelled. The multipart nodes of the tree are
  the parts that `isMimeType(MULTIPART_TYPE)` accepts. A `BrokenMultipart`
  is such a part on which `getContent()`, the cast, `getCount()` or a
  `getBodyPart(i)` throws. Its children are the parts enumerated before that
  exception, which are walked in full before the walk stops. Which call
  threw is not recorded.
- The constants `IMAGE_TYPE`, `MULTIPART_TYPE`, `CONTENT_ID`, `CHARSET`, the
  three patterns, `HTML_WRAPPER_TEMPLATE` and `templateHeaderBody` live in
  `parser.util.ParserUtil`, which is not part of this model. `IMAGE_TYPE` is
  taken to be `image/*`. The patterns are `Platform` matchers that split a
  text into literal stretches and matches. The template is the
  `formatWrapper` function, and `templateHeaderBody` is a builder constructor
  argument.
- The `replace` helper is also in that unseen class. It is modelled as
  substitution over the split text. Any special treatment of `$` or `\` in
  replacement strings is not modelled.
- `Charset.forName`/`name()` and `new String(bytes, UTF_8)` are foreign calls,
  passed in as `Platform` functions.
- `new ContentType(p.getContentType())` reparses a part's content type. The
  model uses the parsed value directly, so a reparse exception is not
  modelled.
- Reading a stream (`IOUtils.toByteArray`) either gives all bytes or throws
  (`Unreadable`). Partial reads are not modelled.
- `equalsIgnoreCase` is modelled by folding ASCII letters plus the four
  non-ASCII letters that Java folds onto ASCII. This is exact whenever one
  side is ASCII, which holds for every comparison here.
- The depth counter is an unbounded integer. Java `int` overflow would need
  a tree 2^31 levels deep.
- `MimeMessageObject.getHtmlBody`, `HeaderPart`'s getters and
  `ConvertedFile`'s getters are plain field reads. They are functions or
  datatype fields with no contract of their own, and the setters' `ensures`
  state what they return.
- `HeaderPart.builder()` is the `Builder` constructor.
- `parser/ParserUtil.java` and `parser/entity/Parser.java` are not modelled.
  They do file and PDF I/O, with Jsoup, ITextRenderer, simplejavamail and
  Tika.
- `MimeMessageCallback` and `Replacer` are function types (`Visitor`,
  `MatchResult -> Result<string, Error>`).
- MimeMessage.SelectionChoosesLastHtml: assumes every text part reads and no
  multipart is broken. For other trees, `SetData` and `MimeWalk`'s
  abort lemmas give the outcome.
