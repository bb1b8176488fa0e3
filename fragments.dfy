/**
 * The two reference classes, `Link` and `Label`. Each keeps the literal text
 * it was built from and the position computed once at construction; the
 * validity flag and status code start undefined and are set by the validator.
 */
module Fragments {
  import opened TextUtil
  import opened Positions

  /** What the constructor throws when its text argument (`"link"` or `"label"`) is empty. */
  function EmptyTextMessage(name: string): string
  {
    "\"" + name + "\" can't be empty or null"
  }

  const IndexMessage: string := "\"index\" has to be a number"
  const ContentMessage: string := "\"content\" can't be empty or null"

  /**
   * The error a constructor throws, if any: the text is checked first, then
   * that the index is a number (`None` stands for any non-number), then the
   * content; only when all three pass is an object built.
   */
  function ConstructorError(name: string, text: string, index: Option<int>, content: string): (e: Option<string>)
    ensures e == None <==> text != "" && index.Some? && content != ""
    ensures text == "" ==> e == Some(EmptyTextMessage(name))
    ensures text != "" && index == None ==> e == Some(IndexMessage)
    ensures text != "" && index != None && content == "" ==> e == Some(ContentMessage)
  {
    if text == "" then Some(EmptyTextMessage(name))
    else if index == None then Some(IndexMessage)
    else if content == "" then Some(ContentMessage)
    else None
  }

  class Link {
    const link: string
    const position: Position
    var isValid: Option<bool>
    var statusCode: Option<int>

    constructor (link: string, index: int, content: string)
      requires link != "" && content != ""
      ensures this.link == link && position == PositionOf(content, index)
      ensures isValid == None && statusCode == None
    {
      this.link := link;
      position := PositionOf(content, index);
      isValid := None;
      statusCode := None;
    }

    method SetIsValid(value: bool)
      modifies this`isValid
      ensures isValid == Some(value)
      ensures unchanged(this`statusCode)
    {
      isValid := Some(value);
    }

    method SetStatusCode(value: int)
      modifies this`statusCode
      ensures statusCode == Some(value)
      ensures unchanged(this`isValid)
    {
      statusCode := Some(value);
    }
  }

  /** `new Link(link, index, content)`, with the constructor's exceptions as `Failure`. */
  method NewLink(link: string, index: Option<int>, content: string) returns (r: Result<Link, string>)
    ensures var e := ConstructorError("link", link, index, content);
      e.Some? ==> r == Failure(e.value)
    ensures ConstructorError("link", link, index, content) == None ==>
      && r.Success? && fresh(r.value)
      && r.value.link == link && r.value.position == PositionOf(content, index.value)
      && r.value.isValid == None && r.value.statusCode == None
  {
    var e := ConstructorError("link", link, index, content);
    if e.Some? {
      return Failure(e.value);
    }
    var l := new Link(link, index.value, content);
    return Success(l);
  }

  class Label {
    const labelText: string  // the source's `label` getter (`label` is a Dafny keyword)
    const position: Position
    var isValid: Option<bool>
    var statusCode: Option<int>

    constructor (text: string, index: int, content: string)
      requires text != "" && content != ""
      ensures labelText == text && position == PositionOf(content, index)
      ensures isValid == None && statusCode == None
    {
      labelText := text;
      position := PositionOf(content, index);
      isValid := None;
      statusCode := None;
    }

    method SetIsValid(value: bool)
      modifies this`isValid
      ensures isValid == Some(value)
      ensures unchanged(this`statusCode)
    {
      isValid := Some(value);
    }

    method SetStatusCode(value: int)
      modifies this`statusCode
      ensures statusCode == Some(value)
      ensures unchanged(this`isValid)
    {
      statusCode := Some(value);
    }
  }

  /** `new Label(label, index, content)`, with the constructor's exceptions as `Failure`. */
  method NewLabel(text: string, index: Option<int>, content: string) returns (r: Result<Label, string>)
    ensures var e := ConstructorError("label", text, index, content);
      e.Some? ==> r == Failure(e.value)
    ensures ConstructorError("label", text, index, content) == None ==>
      && r.Success? && fresh(r.value)
      && r.value.labelText == text && r.value.position == PositionOf(content, index.value)
      && r.value.isValid == None && r.value.statusCode == None
  {
    var e := ConstructorError("label", text, index, content);
    if e.Some? {
      return Failure(e.value);
    }
    var l := new Label(text, index.value, content);
    return Success(l);
  }
}
