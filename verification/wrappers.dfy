/** Attribute values of the element tree: free text, or a whitespace-separated
    list of numbers (a view-box string). The text of a number is not modelled:
    text is never read back as numbers, and numbers never equal a text. */
module Values {
  datatype AttrValue = Text(s: string) | Numbers(ns: seq<real>)
}

/** Failure-compatible Option and Result types, and the error conditions the
    modelled code raises (each variant names the Python exception it stands for). */
module Wrappers {
  import opened Values

  datatype Option<+T> = None | Some(value: T) {
    predicate IsFailure() { None? }

    function PropagateFailure<U>(): Option<U>
      requires None?
    {
      None
    }

    function Extract(): T
      requires Some?
    {
      value
    }
  }

  datatype Result<+T, +E> = Success(value: T) | Failure(error: E) {
    predicate IsFailure() { Failure? }

    function PropagateFailure<U>(): Result<U, E>
      requires Failure?
    {
      Failure(error)
    }

    function Extract(): T
      requires Success?
    {
      value
    }
  }

  /** The exceptions raised by the modelled code, one variant per distinct condition. */
  datatype Error =
    // ValueError: a box or dimensions with a negative width or height
    | NegativeExtent
    // ValueError: a namespace prefix that the nsmap does not bind to a non-empty URI
    | UnknownNamespace(namespace: Option<string>, known: set<Option<string>>)
    // KeyError: `nsmap.pop(None)` on an nsmap without a default namespace
    | MissingDefaultNamespace
    // ValueError: a shape-type literal outside the fixed set
    | UnknownTypeLiteral(literal: AttrValue, validOptions: seq<string>)
    // KeyError: a required attribute or dictionary key is absent
    | MissingKey(key: string)
    // TypeError: a constructor applied to the wrong number of numbers
    | ArityMismatch(expected: nat, got: nat)
    // ValueError: `float()` applied to text that is not a number
    | NotANumber
    // AttributeError: `getparent()` returned None and was used as an element
    | NoParentElement
    // KeyError: a lookup that matched nothing
    | NotFound
    // RuntimeError: a unique lookup that matched more than one shape
    | Ambiguous(count: nat)
    // ValueError: a document root without a viewBox attribute
    | NoViewBox
    // ValueError: a view box is needed, none is stored and no renderer was given
    | NoRenderer
    // ValueError: the renderer reported no bounding box
    | RenderFailed
    // ValueError: the shapes handed to batch resolution are not all on the page
    | NotASubset
    // ValueError: a file extension that does not start with a dot
    | BadExtension
    // TypeError: indexing a value that is not a dictionary
    | NotADictionary
    // TypeError: an unhashable value used as a dict key, or passed to a `functools.cache` wrapper
    | Unhashable
    // AttributeError: a class attribute that is not defined, looked up by name
    | UndefinedAttribute(name: string)
    // selenium's JavascriptException: a page script threw, as
    // `document.getElementById(id).getBBox()` does when no element has the id
    | ScriptFailed
}
