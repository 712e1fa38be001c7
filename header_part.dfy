/** `HeaderPart`: one header line of the rendered message (a template, a label
    and a value), made through a builder whose value setters ignore blank input. */
module HeaderParts {
  import opened Wrappers
  import opened JavaStrings

  /** The immutable value the builder produces; a null field is `None`. */
  datatype HeaderPart = HeaderPart(template: Option<string>, name: Option<string>, data: Option<string>)

  /** The value `subject(d)` stores: `d` in bold. */
  function Bold(d: string): (r: string)
    ensures |r| == |d| + 7 && r[3..|r| - 4] == d
    ensures r[..3] == "<b>" && r[|r| - 4..] == "</b>"
  {
    "<b>" + d + "</b>"
  }

  /** A bolded value is never blank, even when the text it wraps is. */
  lemma BoldIsNeverBlank(d: string)
    ensures !IsBlankText(Bold(d))
  {
    assert Bold(d)[0] == '<';
  }

  /** The only values `data` can hold through the builder: unset, or a string
      that is not blank. */
  predicate DataIsUnsetOrNotBlank(data: Option<string>) {
    data.None? || !IsBlankText(data.value)
  }

  class Builder {
    var template: Option<string>
    var name: Option<string>
    var data: Option<string>

    predicate Valid()
      reads this
    {
      DataIsUnsetOrNotBlank(data)
    }

    /** `new Builder()`: the template starts as the shared `templateHeaderBody`
        constant, which is passed in. */
    constructor (templateHeaderBody: Option<string>)
      ensures template == templateHeaderBody && name == None && data == None
      ensures Valid()
    {
      template := templateHeaderBody;
      name := None;
      data := None;
    }

    /** `template(t)`: assigns even null. */
    method Template(template: Option<string>) returns (b: Builder)
      modifies this`template
      ensures this.template == template && b == this
      ensures old(Valid()) ==> Valid()
    {
      this.template := template;
      b := this;
    }

    /** `name(n)`: assigns even null. */
    method Name(name: Option<string>) returns (b: Builder)
      modifies this`name
      ensures this.name == name && b == this
      ensures old(Valid()) ==> Valid()
    {
      this.name := name;
      b := this;
    }

    /** `data(d)`: only a value that is not blank replaces the current one. */
    method Data(d: Option<string>) returns (b: Builder)
      modifies this`data
      ensures !IsBlank(d) ==> data == d
      ensures IsBlank(d) ==> data == old(data)
      ensures old(Valid()) ==> Valid()
      ensures b == this
    {
      if !IsBlank(d) {
        data := d;
      }
      b := this;
    }

    /** `subject(d)`: a value that is not blank replaces the current one, bolded. */
    method Subject(d: Option<string>) returns (b: Builder)
      modifies this`data
      ensures !IsBlank(d) ==> data == Some(Bold(d.value))
      ensures IsBlank(d) ==> data == old(data)
      ensures old(Valid()) ==> Valid()
      ensures b == this
    {
      if !IsBlank(d) {
        BoldIsNeverBlank(d.value);
        data := Some(Bold(d.value));
      }
      b := this;
    }

    /** `build()`: a snapshot of the three fields. */
    method Build() returns (h: HeaderPart)
      ensures h == HeaderPart(template, name, data)
    {
      h := HeaderPart(template, name, data);
    }
  }

  /** `HeaderPart.builder().name(n).subject(s).build()`: a later blank subject
      keeps the earlier one. */
  method SubjectLine(templateHeaderBody: Option<string>, n: Option<string>, first: Option<string>, second: Option<string>)
    returns (h: HeaderPart)
    ensures h.template == templateHeaderBody && h.name == n
    ensures DataIsUnsetOrNotBlank(h.data)
    ensures h.data == if !IsBlank(second) then Some(Bold(second.value))
                      else if !IsBlank(first) then Some(Bold(first.value))
                      else None
  {
    var b := new Builder(templateHeaderBody);
    b := b.Name(n);
    b := b.Subject(first);
    b := b.Subject(second);
    h := b.Build();
  }
}
