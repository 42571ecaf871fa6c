/** Option and Result, and the failure kinds of the page parser and the model resolver. */
module Wrappers {

  datatype Option<+T> = None | Some(value: T)

  datatype Result<+R, +E> = Success(value: R) | Failure(error: E)

  /** One kind per exception the parser or the resolver can raise. */
  datatype Error =
    | MalformedLine(line: string)           // attribute line without ':' (index out of range)
    | InvalidTemplateType(value: string)    // TemplateType value naming no enum member
    | UnknownNamespace(name: string)        // dotted name not under Custom or Model
    | UnknownAttribute(name: string)        // undotted name matching no fixed attribute
    | DuplicateKey(key: string)             // Add of a key already present in a node
    | MissingDataKey(key: string)           // data mapping lacks a path segment
    | NullPath                              // a model leaf that is not a string (null)
    | NullModel                             // the model tree is still null (no parse yet)
}
