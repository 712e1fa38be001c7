/** `ConvertedFile`: the files one conversion produced, the html rendering, the
    pdf and the extracted attachments. */
module ConvertedFiles {
  import opened Wrappers

  /** `java.io.File`, only its path. */
  datatype File = File(path: string)

  /** A `List<File>` object: lists are shared by reference, so a list passed to
      `setAttachments` and later appended to through `addAttachment` is the
      caller's list. */
  class FileList {
    var elements: seq<File>

    /** `new ArrayList<>()`. */
    constructor ()
      ensures elements == []
    {
      elements := [];
    }

    /** `List.add`. */
    method Add(f: File)
      modifies this
      ensures elements == old(elements) + [f]
    {
      elements := elements + [f];
    }
  }

  class ConvertedFile {
    var html: Option<File>
    var pdf: Option<File>
    var attachments: FileList?

    constructor ()
      ensures html == None && pdf == None && attachments == null
    {
      html := None;
      pdf := None;
      attachments := null;
    }

    function GetPdf(): Option<File>
      reads this
    {
      pdf
    }

    method SetPdf(pdf: Option<File>)
      modifies this`pdf
      ensures this.pdf == pdf && GetPdf() == pdf
    {
      this.pdf := pdf;
    }

    function GetEmailInHtml(): Option<File>
      reads this
    {
      html
    }

    method SetEmailInHtml(emailInHtml: Option<File>)
      modifies this`html
      ensures html == emailInHtml && GetEmailInHtml() == emailInHtml
    {
      html := emailInHtml;
    }

    function GetAttachments(): FileList?
      reads this
    {
      attachments
    }

    method SetAttachments(attachments: FileList?)
      modifies this`attachments
      ensures this.attachments == attachments && GetAttachments() == attachments
    {
      this.attachments := attachments;
    }

    /** `addAttachment(f)`: a missing or empty list is replaced by a new one
        (the empty list itself is left alone); a list with elements gets `f`
        appended in place. */
    method AddAttachment(f: File)
      modifies this`attachments, attachments
      ensures attachments != null
      ensures old(attachments) == null || old(attachments.elements) == [] ==>
        && fresh(attachments) && attachments.elements == [f]
        && (old(attachments) != null ==> old(attachments).elements == [])
      ensures old(attachments) != null && old(attachments.elements) != [] ==>
        attachments == old(attachments) && attachments.elements == old(attachments.elements) + [f]
      ensures html == old(html) && pdf == old(pdf)
    {
      if attachments == null || attachments.elements == [] {
        attachments := new FileList();
      }
      attachments.Add(f);
    }
  }

  /** Two additions to a file without attachments give both, in order. */
  method AddTwoAttachments(first: File, second: File) returns (c: ConvertedFile)
    ensures c.attachments != null && c.attachments.elements == [first, second]
    ensures c.html == None && c.pdf == None
  {
    c := new ConvertedFile();
    c.AddAttachment(first);
    c.AddAttachment(second);
  }
}
