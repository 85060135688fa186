/**
 * The two host shapes the extension helpers work on: an Extension, a url-tagged value,
 * and an Element, which carries an optional ordered list of extensions.
 */
module ExtensionModel {
  import opened Wrappers

  /**
   * The populated value field of an extension. The wire form has one optional field per
   * shape (`valueString`, `valueBoolean`, ...); here exactly one of them is present, and
   * `Other` stands for any shape the helpers do not read, or no value at all.
   * A FHIR integer is a JavaScript number in the source; it is unbounded here.
   */
  datatype Value =
    | VString(valueString: string)
    | VBoolean(valueBoolean: bool)
    | VInteger(valueInteger: int)
    | VMarkdown(valueMarkdown: string)
    | VUri(valueUri: string)
    | Other

  datatype Extension = Extension(url: string, value: Value)

  /**
   * A host element. Only its `extension` field is read or written by the helpers; every
   * other field of the host schema is left out and is therefore untouched by construction.
   * `None` is a missing field; `Some([])` is an empty list, which the source can hold.
   */
  class Element {
    var extension: Option<seq<Extension>>

    constructor (extension: Option<seq<Extension>>)
      ensures this.extension == extension
    {
      this.extension := extension;
    }
  }

  /**
   * The list a mutator works on: the field's list, or the `[]` it creates when the field is
   * missing. An existing list, even an empty one, is kept as it is.
   */
  function Entries(field: Option<seq<Extension>>): (r: seq<Extension>)
    ensures field.Some? ==> r == field.value
    ensures r == [] <==> field.None? || field.value == []
  {
    if field.Some? then field.value else []
  }

  /** The extensions a query sees: none for a missing element or a missing field. */
  function ListOf(element: Element?): seq<Extension>
    reads element
  {
    if element == null then [] else Entries(element.extension)
  }
}
