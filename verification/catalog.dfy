/** The documentation server's handlers over its cached component list
    (`DocsServer` in src/mcp_docs_server.py): listing and searching rebuild
    the list from the disk, reading uses the list as it is.  The transport
    is replaced by a closed set of requests dispatched by `Handle`. */
module Catalog {
  import opened Results
  import opened Errors
  import opened Text
  import opened Seqs
  import opened Indexer
  import opened Addressing
  import opened Search

  /** What the server sees of the filesystem at one request: the text of
      every file by full path, and the recursive walk of the documentation
      root (relative paths, in the walk's order).  A walked path whose full
      path is not in `files` is a file that vanished after the walk. */
  datatype Disk = Disk(files: map<string, string>, walk: seq<RelPath>)

  /** The server: its documentation root and the last indexed components. */
  datatype Server = Server(root: string, components: seq<Component>)

  /** A new server has indexed nothing yet. */
  function NewServer(root: string): Server {
    Server(root, [])
  }

  /** Re-indexes: the component list is replaced wholesale by a fresh scan. */
  function Refresh(s: Server, disk: Disk): (t: Server)
    ensures t.root == s.root
  {
    s.(components := Scan(s.root, disk.walk))
  }

  /** The initial discovery done when the server starts running. */
  function Start(root: string, disk: Disk): (s: Server)
    ensures s.root == root
  {
    Refresh(NewServer(root), disk)
  }

  const MimeType := "text/markdown"

  datatype Resource = Resource(uri: string, name: string, mimeType: string, description: string)

  /** The resource describing a component: its identifier is the scheme
      followed by its display name. */
  function ResourceOf(c: Component): (r: Resource)
    ensures r.uri == BuildUri(c.category, c.name) && r.uri == Scheme + r.name
    ensures r.mimeType == MimeType
    ensures StartsWith(r.description, "Documentation for " + c.name + " in ")
  {
    Resource(
      BuildUri(c.category, c.name),
      c.category + "/" + c.name,
      MimeType,
      "Documentation for " + c.name + " in " + c.category + " category")
  }

  /** `list_resources`: re-index, then describe every component as a
      resource, in component order. */
  function ListResources(s: Server, disk: Disk): (r: (Server, seq<Resource>))
    ensures r.0 == Refresh(s, disk)
    ensures |r.1| == |r.0.components|
    ensures forall i :: 0 <= i < |r.1| ==>
      r.1[i].uri == BuildUri(r.0.components[i].category, r.0.components[i].name) &&
      r.1[i].mimeType == MimeType
    ensures forall i :: 0 <= i < |r.1| ==> r.1[i] == ResourceOf(r.0.components[i])
  {
    var t := Refresh(s, disk);
    (t, seq(|t.components|, i requires 0 <= i < |t.components| => ResourceOf(t.components[i])))
  }

  /** `read_resource`: parse the identifier, find the first component it
      names, and return its file's text.  The component list is not
      refreshed, so the result has no server state. */
  function ReadResource(s: Server, files: map<string, string>, uri: string): (r: Result<string, Error>)
    ensures ParseUri(uri).Err? ==> r == Err(ParseUri(uri).error)
    ensures ParseUri(uri).Ok? &&
      (forall i :: 0 <= i < |s.components| ==> !Matches(s.components[i], ParseUri(uri).value))
      ==> r == Err(ResourceNotFound(uri))
    ensures r.Ok? ==>
      exists i :: 0 <= i < |s.components| && s.components[i].fullPath in files && r.value == files[s.components[i].fullPath]
    ensures ParseUri(uri).Ok? && Lookup(s.components, ParseUri(uri).value).Some? ==>
      var c := s.components[Lookup(s.components, ParseUri(uri).value).value];
      r == if c.fullPath in files then Ok(files[c.fullPath]) else Err(FileNotFound(c.fullPath))
  {
    match ParseUri(uri)
    case Err(e) => Err(e)
    case Ok(a) =>
      match Lookup(s.components, a)
      case None => Err(ResourceNotFound(uri))
      case Some(i) =>
        var path := s.components[i].fullPath;
        if path in files then Ok(files[path]) else Err(FileNotFound(path))
  }

  /** The arguments of a tool call; an argument the caller left out is `None`. */
  datatype Arguments = Arguments(query: Option<string>, category: Option<string>)

  /** `arguments.get("query", "")`. */
  function QueryOf(args: Arguments): string {
    match args.query
    case None => ""
    case Some(q) => q
  }

  /** The search proper: lower-case the query, re-index, and keep the
      results of the refreshed list. */
  function SearchHits(s: Server, disk: Disk, args: Arguments): (r: (Server, seq<Hit>))
    ensures r.0 == Refresh(s, disk)
    ensures Sorted(HitComponents(r.1))
    ensures forall i :: 0 <= i < |r.1| ==>
      Emits(r.1[i].component, disk.files, Lower(QueryOf(args)), args.category)
    ensures args.category.Some? && args.category.value != "" ==>
      forall i :: 0 <= i < |r.1| ==> r.1[i].component.category == args.category.value
    ensures forall c :: (multiset(HitComponents(r.1))[c] ==
      if Emits(c, disk.files, Lower(QueryOf(args)), args.category) then multiset(r.0.components)[c] else 0)
    ensures r.1 == Hits(r.0.components, disk.files, Lower(QueryOf(args)), args.category)
  {
    var q := Lower(QueryOf(args));
    var t := Refresh(s, disk);
    var hits := Hits(t.components, disk.files, q, args.category);
    ScanSortedPermutation(s.root, disk.walk);
    SortedSubsequence(HitComponents(hits), t.components);
    (t, hits)
  }

  /** The `search_docs` tool's reply text. */
  function SearchDocs(s: Server, disk: Disk, args: Arguments): (r: (Server, string))
    ensures r.0 == Refresh(s, disk)
  {
    var (t, hits) := SearchHits(s, disk, args);
    (t, Format(Lower(QueryOf(args)), Blocks(hits)))
  }

  const SearchTool := "search_docs"

  /** `call_tool`: only `search_docs` exists; any other name is an error
      raised before anything is re-indexed. */
  function CallTool(s: Server, disk: Disk, name: string, args: Arguments): (r: (Server, Result<string, Error>))
    ensures name != SearchTool ==> r == (s, Err(UnknownTool(name)))
    ensures name == SearchTool ==> r.0 == Refresh(s, disk) && r.1.Ok?
  {
    if name == SearchTool then
      var (t, text) := SearchDocs(s, disk, args);
      (t, Ok(text))
    else
      (s, Err(UnknownTool(name)))
  }

  /** The requests a client can make. */
  datatype Request = List | Read(uri: string) | Tool(name: string, arguments: Arguments)

  datatype Response = Listing(resources: seq<Resource>) | Contents(text: string) | ToolText(text: string)

  /** One request against the server: the new server state and the reply. */
  function Handle(s: Server, disk: Disk, req: Request): (r: (Server, Result<Response, Error>))
    ensures req.Read? ==> r.0 == s
    ensures req.List? || (req.Tool? && req.name == SearchTool) ==>
      r.0 == s.(components := Scan(s.root, disk.walk))
    ensures req.Tool? && req.name != SearchTool ==> r.0 == s && r.1 == Err(UnknownTool(req.name))
  {
    match req
    case List =>
      var (t, resources) := ListResources(s, disk);
      (t, Ok(Listing(resources)))
    case Read(uri) =>
      (s, match ReadResource(s, disk.files, uri)
          case Ok(text) => Ok(Contents(text))
          case Err(e) => Err(e))
    case Tool(name, args) =>
      var (t, out) := CallTool(s, disk, name, args);
      (t, match out
          case Ok(text) => Ok(ToolText(text))
          case Err(e) => Err(e))
  }

  /** A component indexed from well-formed paths whose files all exist
      has a `/`-free category and name and an existing file. */
  lemma IndexedComponent(root: string, disk: Disk, c: Component)
    requires forall p :: p in disk.walk ==> ValidRelPath(p)
    requires forall p :: p in disk.walk && IsMarkdown(p) ==> FullPath(root, p) in disk.files
    requires c in Scan(root, disk.walk)
    ensures '/' !in c.category && '/' !in c.name && c.fullPath in disk.files
  {
    ScanMembers(root, disk.walk, c);
    var m :| 0 <= m < |disk.walk| && IsMarkdown(disk.walk[m]) && c == Describe(root, disk.walk[m]);
    assert disk.walk[m] in disk.walk;
  }

  /** Every listed resource can be read back right after the listing: its
      identifier resolves to the first component `j` with the same category
      and name (the component itself when that key is unique), and the
      reply is that component's file text.  This holds when the walk yields
      well-formed paths whose files all exist. */
  lemma ListThenRead(s: Server, disk: Disk, k: nat) returns (j: nat)
    requires forall p :: p in disk.walk ==> ValidRelPath(p)
    requires forall p :: p in disk.walk && IsMarkdown(p) ==> FullPath(s.root, p) in disk.files
    requires k < |ListResources(s, disk).1|
    ensures var t := Refresh(s, disk);
      j <= k && Key(t.components[j]) == Key(t.components[k]) &&
      (forall i :: 0 <= i < j ==> Key(t.components[i]) != Key(t.components[k])) &&
      t.components[j].fullPath in disk.files &&
      ReadResource(t, disk.files, ListResources(s, disk).1[k].uri) == Ok(disk.files[t.components[j].fullPath])
  {
    var t := Refresh(s, disk);
    forall i | 0 <= i < |t.components|
      ensures WellIndexed(t.components[i], disk.files)
    {
      IndexedComponent(s.root, disk, t.components[i]);
    }
    j := ReadListed(t, disk.files, k);
  }

  /** A component whose category and name survive the identifier round
      trip and whose file exists. */
  predicate WellIndexed(c: Component, files: map<string, string>) {
    '/' !in c.category && '/' !in c.name && c.fullPath in files
  }

  /** Over a list of well-indexed components, the identifier built for
      component `k` reads the file of the first component with its key. */
  lemma ReadListed(t: Server, files: map<string, string>, k: nat) returns (j: nat)
    requires k < |t.components|
    requires forall i :: 0 <= i <= k ==> WellIndexed(t.components[i], files)
    ensures j <= k && Key(t.components[j]) == Key(t.components[k]) && t.components[j].fullPath in files
    ensures forall i :: 0 <= i < j ==> Key(t.components[i]) != Key(t.components[k])
    ensures ReadResource(t, files, BuildUri(t.components[k].category, t.components[k].name))
      == Ok(files[t.components[j].fullPath])
  {
    var c := t.components[k];
    var uri := BuildUri(c.category, c.name);
    ParseBuildRoundTrip(c.category, c.name);
    var a := Address(c.category, c.name);
    assert Matches(t.components[k], a);
    j := Lookup(t.components, a).value;
    assert WellIndexed(t.components[j], files);
  }

  /** A file that vanished after indexing: reading the component it backs
      fails with "File not found", while a search silently leaves it out. */
  lemma VanishedFile(s: Server, disk: Disk, args: Arguments, k: nat)
    requires k < |s.components|
    requires '/' !in s.components[k].category && '/' !in s.components[k].name
    requires forall i :: 0 <= i < k ==> Key(s.components[i]) != Key(s.components[k])
    requires s.components[k].fullPath !in disk.files
    ensures var c := s.components[k];
      ReadResource(s, disk.files, BuildUri(c.category, c.name)) == Err(FileNotFound(c.fullPath))
    ensures var c := s.components[k];
      var hits := SearchHits(s, disk, args).1;
      forall i :: 0 <= i < |hits| ==> hits[i].component.fullPath != c.fullPath
  {
    var c := s.components[k];
    ParseBuildRoundTrip(c.category, c.name);
    var a := Address(c.category, c.name);
    assert Matches(c, a);
    assert forall i :: 0 <= i < k ==> !Matches(s.components[i], a);
    assert Lookup(s.components, a) == Some(k);
  }

  /** The reply is the no-results message, echoing the lower-cased query,
      exactly when no refreshed component produces a result. */
  lemma SearchReportsNoResults(s: Server, disk: Disk, args: Arguments)
    ensures var q := Lower(QueryOf(args));
      SearchDocs(s, disk, args).1 == NoResults(q) <==>
      forall c :: c in Scan(s.root, disk.walk) ==> !Emits(c, disk.files, q, args.category)
  {
    var q := Lower(QueryOf(args));
    var comps := Scan(s.root, disk.walk);
    var hits := SearchHits(s, disk, args).1;
    assert hits == Hits(comps, disk.files, q, args.category);
    if |hits| > 0 {
      HitSelected(comps, disk.files, q, args.category, 0);
    }
    forall c | c in comps && Emits(c, disk.files, q, args.category)
      ensures |hits| > 0
    {
      var i := HitOf(comps, disk.files, q, args.category, c);
    }
  }

  /** An empty query (also an absent one) matches every document: each
      refreshed component that passes the filter and still exists is a
      result. */
  lemma EmptyQueryMatchesAll(s: Server, disk: Disk, args: Arguments, c: Component) returns (i: nat)
    requires QueryOf(args) == ""
    requires c in Scan(s.root, disk.walk) && PassesFilter(c, args.category) && c.fullPath in disk.files
    ensures i < |SearchHits(s, disk, args).1| && SearchHits(s, disk, args).1[i].component == c
  {
    var comps := Scan(s.root, disk.walk);
    ContainsEmpty(Lower(disk.files[c.fullPath]));
    assert Lower("") == "";
    i := HitOf(comps, disk.files, "", args.category, c);
  }

  /** With no markdown file under the root, the listing is empty. */
  lemma EmptyCorpusListsNothing(s: Server, disk: Disk)
    requires forall k :: 0 <= k < |disk.walk| ==> !IsMarkdown(disk.walk[k])
    ensures ListResources(s, disk).1 == []
  {
    ScanWithoutMarkdown(s.root, disk.walk);
  }
}
