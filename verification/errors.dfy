/** The errors the documentation server raises to its caller.  Each one is
    a `ValueError` in the server; the datatype keeps its kind and payload. */
module Errors {

  datatype Error =
    | InvalidScheme(uri: string)      // the identifier does not start with `docs://`
    | InvalidFormat(uri: string)      // fewer than two `/`-separated segments after the scheme
    | ResourceNotFound(uri: string)   // no indexed document has that category and name
    | FileNotFound(path: string)      // the indexed document's file is gone
    | UnknownTool(name: string)       // a tool other than `search_docs` was called

  /** The text the server puts in the raised error.  It always ends with
      the offending identifier, path or tool name. */
  function Message(e: Error): (m: string)
    ensures e.InvalidScheme? || e.InvalidFormat? || e.ResourceNotFound? ==>
              |e.uri| <= |m| && m[|m| - |e.uri|..] == e.uri
    ensures e.FileNotFound? ==> |e.path| <= |m| && m[|m| - |e.path|..] == e.path
    ensures e.UnknownTool? ==> |e.name| <= |m| && m[|m| - |e.name|..] == e.name
  {
    Prefix(e) + Payload(e)
  }

  /** The text a message starts with, which names its kind. */
  function Prefix(e: Error): string {
    match e
    case InvalidScheme(_) => "Invalid URI scheme: "
    case InvalidFormat(_) => "Invalid URI format: "
    case ResourceNotFound(_) => "Resource not found: "
    case FileNotFound(_) => "File not found: "
    case UnknownTool(_) => "Unknown tool: "
  }

  /** The payload a message ends with. */
  function Payload(e: Error): string {
    match e
    case InvalidScheme(uri) => uri
    case InvalidFormat(uri) => uri
    case ResourceNotFound(uri) => uri
    case FileNotFound(path) => path
    case UnknownTool(name) => name
  }

  /** Different errors never share a message: the text tells the caller
      both the kind of failure and the offending value. */
  lemma MessageInjective(e1: Error, e2: Error)
    requires Message(e1) == Message(e2)
    ensures e1 == e2
  {
    var m := Message(e1);
    var p1, p2 := Prefix(e1), Prefix(e2);
    assert p1[0] == m[0] == p2[0];
    assert p1[12] == m[12] == p2[12];
    assert p1 == p2;
    assert Payload(e1) == m[|p1|..] == Payload(e2);
  }
}
