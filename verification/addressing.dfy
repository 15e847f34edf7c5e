/** Resource identifiers `docs://{category}/{name}`: building them for the
    listing, parsing them on read, and finding the component they name
    (`list_resources` and `read_resource` in src/mcp_docs_server.py). */
module Addressing {
  import opened Results
  import opened Errors
  import opened Text
  import opened Indexer

  const Scheme := "docs://"

  datatype Address = Address(category: string, name: string)

  /** The identifier the listing gives a component. */
  function BuildUri(category: string, name: string): string {
    Scheme + (category + "/" + name)
  }

  /** Parses an identifier: the scheme must be present, the rest is split
      on `/`, and the first two pieces are the category and the name; any
      further pieces are ignored. */
  function ParseUri(uri: string): (r: Result<Address, Error>)
    ensures !StartsWith(uri, Scheme) ==> r == Err(InvalidScheme(uri))
    ensures StartsWith(uri, Scheme) ==> (r.Ok? <==> '/' in uri[|Scheme|..])
    ensures StartsWith(uri, Scheme) && r.Err? ==> r.error == InvalidFormat(uri)
    ensures r.Ok? ==> '/' !in r.value.category && '/' !in r.value.name
  {
    if !StartsWith(uri, Scheme) then Err(InvalidScheme(uri))
    else
      var parts := Split(uri[|Scheme|..], '/');
      if |parts| < 2 then Err(InvalidFormat(uri))
      else Ok(Address(parts[0], parts[1]))
  }

  /** A successfully parsed identifier starts with the identifier built
      from its result, and whatever follows begins with `/`. */
  lemma ParsedUriShape(uri: string)
    requires ParseUri(uri).Ok?
    ensures var a := ParseUri(uri).value;
      var built := BuildUri(a.category, a.name);
      StartsWith(uri, built) && (|uri| == |built| || uri[|built|] == '/')
  {
    var rest := uri[|Scheme|..];
    var parts := Split(rest, '/');
    assert ParseUri(uri).value == Address(parts[0], parts[1]);
    SplitFirstTwo(rest, '/');
    assert uri == Scheme + rest;
    PrefixedShape(Scheme, rest, parts[0] + "/" + parts[1], '/');
  }

  /** Putting the same text in front of a string and of its prefix keeps
      the prefix relation and the character that follows. */
  lemma PrefixedShape(p: string, rest: string, head: string, sep: char)
    requires StartsWith(rest, head) && (|rest| == |head| || rest[|head|] == sep)
    ensures StartsWith(p + rest, p + head)
    ensures |p + rest| == |p + head| || (p + rest)[|p + head|] == sep
  {
    assert (p + rest)[..|p + head|] == p + rest[..|head|];
  }

  /** An identifier is parsed from what follows its scheme. */
  lemma ParseAfterScheme(tail: string)
    ensures var parts := Split(tail, '/');
      ParseUri(Scheme + tail) ==
        if |parts| < 2 then Err(InvalidFormat(Scheme + tail)) else Ok(Address(parts[0], parts[1]))
  {
    var uri := Scheme + tail;
    assert uri[..|Scheme|] == Scheme;
    assert uri[|Scheme|..] == tail;
  }

  /** Parsing a built identifier gives back its category and name. */
  lemma ParseBuildRoundTrip(category: string, name: string)
    requires '/' !in category && '/' !in name
    ensures ParseUri(BuildUri(category, name)) == Ok(Address(category, name))
  {
    ParseAfterScheme(category + "/" + name);
    SplitAtFirst(category, '/', name);
  }

  /** Pieces after the second are ignored: a built identifier followed by
      more `/`-separated text addresses the same category and name. */
  lemma ParseIgnoresExtraSegments(category: string, name: string, extra: string)
    requires '/' !in category && '/' !in name
    ensures ParseUri(BuildUri(category, name) + "/" + extra) == Ok(Address(category, name))
  {
    var x := category + "/" + name;
    var more := name + "/" + extra;
    var tail := category + "/" + more;
    calc {
      BuildUri(category, name) + "/" + extra;
      Scheme + x + "/" + extra;
      { AppendAssoc(Scheme, x, "/"); }
      Scheme + (x + "/") + extra;
      { AppendAssoc(Scheme, x + "/", extra); }
      Scheme + (x + "/" + extra);
      { AppendAssoc(category + "/", name, "/"); }
      Scheme + ((category + "/") + (name + "/") + extra);
      { AppendAssoc(category + "/", name + "/", extra); }
      Scheme + tail;
    }
    ParseAfterScheme(tail);
    SplitAtFirst(category, '/', more);
    SplitAtFirst(name, '/', extra);
  }

  predicate Matches(c: Component, a: Address) {
    c.category == a.category && c.name == a.name
  }

  /** The position of the first component named by `a`, as the server's
      `next(...)` over its component list finds it. */
  function Lookup(components: seq<Component>, a: Address): (r: Option<nat>)
    ensures r.Some? ==> r.value < |components| && Matches(components[r.value], a)
    ensures r.Some? ==> forall j :: 0 <= j < r.value ==> !Matches(components[j], a)
    ensures r.None? <==> forall j :: 0 <= j < |components| ==> !Matches(components[j], a)
  {
    if |components| == 0 then None
    else if Matches(components[0], a) then Some(0)
    else match Lookup(components[1..], a)
      case None => None
      case Some(i) => Some(i + 1)
  }
}
