/** The indexer: turns the markdown files found under the documentation
    root into component descriptors sorted by `(category, name)`
    (`_get_all_components` and `ComponentInfo` in src/mcp_docs_server.py). */
module Indexer {
  import opened Text
  import opened Order
  import opened Seqs

  /** A path relative to the documentation root, as its components. */
  type RelPath = seq<string>

  /** One documentation file.  `path` is the relative path as printed,
      `fullPath` the location the server reads the file from. */
  datatype Component = Component(name: string, category: string, path: string, fullPath: string)

  /** A path component as pathlib produces it when walking a directory. */
  predicate ValidSegment(c: string) {
    c != "" && c != "." && c != ".." && '/' !in c
  }

  predicate ValidRelPath(p: RelPath) {
    |p| >= 1 && forall k :: 0 <= k < |p| ==> ValidSegment(p[k])
  }

  const MarkdownSuffix := ".md"

  /** The file name matches the glob `*.md`. */
  predicate IsMarkdown(p: RelPath) {
    |p| >= 1 && EndsWith(p[|p| - 1], MarkdownSuffix)
  }

  /** Python's `str.rfind`: the last position of `c` in `s`, or -1. */
  function LastIndexOf(s: string, c: char): (i: int)
    ensures -1 <= i < |s|
    ensures i >= 0 ==> s[i] == c
    ensures forall j :: i < j < |s| ==> s[j] != c
    decreases |s|
  {
    if |s| == 0 then -1
    else if s[|s| - 1] == c then |s| - 1
    else LastIndexOf(s[..|s| - 1], c)
  }

  /** pathlib's `stem`: the file name without its last suffix, where a
      leading dot or a trailing dot does not start a suffix. */
  function Stem(fileName: string): (r: string)
    ensures StartsWith(fileName, r)
    ensures r == fileName || (0 < |r| < |fileName| - 1 && fileName[|r|] == '.' && '.' !in fileName[|r| + 1..])
    ensures r == fileName ==>
      forall i :: 0 < i < |fileName| - 1 && fileName[i] == '.' ==> '.' in fileName[i + 1..]
  {
    var i := LastIndexOf(fileName, '.');
    if 0 < i < |fileName| - 1 then fileName[..i] else fileName
  }

  /** pathlib's `parent.name` for a relative path: the directory holding
      the file, or `""` when the parent is `Path('.')`. */
  function ParentName(p: RelPath): string
    requires |p| >= 1
  {
    if |p| == 1 then "" else p[|p| - 2]
  }

  /** The category as the indexer computes it, comparing the parent's name
      with `"."` exactly as written. */
  function Category(p: RelPath): string
    requires |p| >= 1
  {
    var parent := ParentName(p);
    if parent != "." then parent else "general"
  }

  /** `str(relative_path)`. */
  function PathString(p: RelPath): string {
    Join(p, "/")
  }

  /** The printed relative path splits back into its components. */
  lemma PathStringSplits(p: RelPath)
    ensures ValidRelPath(p) ==> Split(PathString(p), '/') == p
  {
    if ValidRelPath(p) {
      SplitJoin(p, '/');
    }
  }

  /** `str(md_file)`: the root joined with the relative path. */
  function FullPath(root: string, p: RelPath): string {
    root + "/" + PathString(p)
  }

  /** The descriptor the indexer builds for one markdown file. */
  function Describe(root: string, p: RelPath): (c: Component)
    requires IsMarkdown(p)
    ensures p[|p| - 1] != MarkdownSuffix ==> c.name + MarkdownSuffix == p[|p| - 1]
    ensures p[|p| - 1] == MarkdownSuffix ==> c.name == MarkdownSuffix
    ensures |p| == 1 ==> c.category == ""
    ensures |p| >= 2 && ValidRelPath(p) ==> c.category == p[|p| - 2]
    ensures ValidRelPath(p) ==> '/' !in c.name && '/' !in c.category
    ensures c.fullPath == root + "/" + c.path
    ensures ValidRelPath(p) ==> Split(c.path, '/') == p
  {
    var fileName := p[|p| - 1];
    MarkdownStem(fileName);
    PathStringSplits(p);
    Component(Stem(fileName), Category(p), PathString(p), FullPath(root, p))
  }

  /** For a `*.md` file name, the stem strips exactly the `.md`, except for
      the name `.md` itself, whose dot is leading and so starts no suffix. */
  lemma MarkdownStem(fileName: string)
    requires EndsWith(fileName, MarkdownSuffix)
    ensures fileName != MarkdownSuffix ==> Stem(fileName) + MarkdownSuffix == fileName
    ensures fileName == MarkdownSuffix ==> Stem(fileName) == fileName
  {
    var n := |fileName|;
    assert fileName[n - 3] == '.' && fileName[n - 2] == 'm' && fileName[n - 1] == 'd';
    assert LastIndexOf(fileName, '.') == n - 3;
    if fileName != MarkdownSuffix {
      assert fileName == fileName[..n - 3] + MarkdownSuffix;
    }
  }

  /** The `"general"` fallback never fires: `parent.name` is never `"."`,
      so a file directly under the root gets the empty category, and the
      category `"general"` only comes from a directory of that name. */
  lemma {:induction false} CategoryIsParentName(p: RelPath)
    requires ValidRelPath(p)
    ensures Category(p) == ParentName(p)
    ensures |p| == 1 ==> Category(p) == ""
    ensures Category(p) == "general" <==> |p| >= 2 && p[|p| - 2] == "general"
  {
    if |p| >= 2 {
      assert ValidSegment(p[|p| - 2]);
    }
  }

  /** The `*.md` files of a directory walk, in walk order. */
  function Discover(walk: seq<RelPath>): (md: seq<RelPath>)
    ensures forall k :: 0 <= k < |md| ==> IsMarkdown(md[k])
    ensures forall p :: multiset(md)[p] == if IsMarkdown(p) then multiset(walk)[p] else 0
  {
    Filter(walk, IsMarkdown)
  }

  function DescribeAll(root: string, files: seq<RelPath>): (cs: seq<Component>)
    requires forall k :: 0 <= k < |files| ==> IsMarkdown(files[k])
    ensures |cs| == |files|
    ensures forall k :: 0 <= k < |files| ==> cs[k] == Describe(root, files[k])
  {
    seq(|files|, k requires 0 <= k < |files| => Describe(root, files[k]))
  }

  /** The sort key `(category, name)`. */
  function Key(c: Component): (string, string) {
    (c.category, c.name)
  }

  predicate InOrder(c: Component, d: Component) {
    KeyLe(Key(c), Key(d))
  }

  predicate Sorted(s: seq<Component>) {
    forall i, j :: 0 <= i < j < |s| ==> InOrder(s[i], s[j])
  }

  /** Inserts `c` after every element whose key is not greater, so equal
      keys keep their arrival order, as in Python's stable `sorted`. */
  function Insert(c: Component, s: seq<Component>): seq<Component> {
    if |s| == 0 then [c]
    else if !InOrder(s[0], c) then [c] + s
    else [s[0]] + Insert(c, s[1..])
  }

  /** `sorted(s, key=lambda x: (x["category"], x["name"]))`. */
  function SortByKey(s: seq<Component>): seq<Component>
    decreases |s|
  {
    if |s| == 0 then [] else Insert(s[|s| - 1], SortByKey(s[..|s| - 1]))
  }

  lemma {:induction false} InsertPermutes(c: Component, s: seq<Component>)
    ensures multiset(Insert(c, s)) == multiset(s) + multiset{c}
  {
    if |s| > 0 {
      assert s == [s[0]] + s[1..];
      if InOrder(s[0], c) {
        InsertPermutes(c, s[1..]);
      }
    }
  }

  /** Every element of `t` is an upper bound of `x`. */
  ghost predicate Below(x: Component, t: seq<Component>) {
    forall j :: 0 <= j < |t| ==> InOrder(x, t[j])
  }

  lemma SortedCons(x: Component, t: seq<Component>)
    requires Sorted(t) && Below(x, t)
    ensures Sorted([x] + t)
  {
    var r := [x] + t;
    forall i, j | 0 <= i < j < |r|
      ensures InOrder(r[i], r[j])
    {
      assert r[j] == t[j - 1];
      if i > 0 {
        assert r[i] == t[i - 1];
      }
    }
  }

  lemma {:induction false} InsertSorted(c: Component, s: seq<Component>)
    requires Sorted(s)
    ensures Sorted(Insert(c, s))
  {
    if |s| == 0 {
    } else if !InOrder(s[0], c) {
      KeyLeTotal(Key(s[0]), Key(c));
      forall j | 0 <= j < |s|
        ensures InOrder(c, s[j])
      {
        if j > 0 {
          KeyLeTransitive(Key(c), Key(s[0]), Key(s[j]));
        }
      }
      SortedCons(c, s);
    } else {
      var t := Insert(c, s[1..]);
      InsertSorted(c, s[1..]);
      InsertPermutes(c, s[1..]);
      forall j | 0 <= j < |t|
        ensures InOrder(s[0], t[j])
      {
        assert t[j] in multiset(t);
        if t[j] != c {
          assert t[j] in multiset(s[1..]);
          var k :| 0 <= k < |s[1..]| && s[1..][k] == t[j];
          assert s[k + 1] == t[j];
        }
      }
      SortedCons(s[0], t);
    }
  }

  /** Sorting rearranges: the result has exactly the input's elements. */
  lemma {:induction false} SortByKeyPermutes(s: seq<Component>)
    ensures multiset(SortByKey(s)) == multiset(s)
    decreases |s|
  {
    if |s| > 0 {
      var init := s[..|s| - 1];
      SortByKeyPermutes(init);
      InsertPermutes(s[|s| - 1], SortByKey(init));
      assert s == init + [s[|s| - 1]];
    }
  }

  /** Sorting orders by `(category, name)`. */
  lemma {:induction false} SortByKeySorted(s: seq<Component>)
    ensures Sorted(SortByKey(s))
    decreases |s|
  {
    if |s| > 0 {
      var init := s[..|s| - 1];
      SortByKeySorted(init);
      InsertSorted(s[|s| - 1], SortByKey(init));
    }
  }

  /** `_get_all_components`: one descriptor per markdown file of the walk,
      sorted by `(category, name)`. */
  function Scan(root: string, walk: seq<RelPath>): seq<Component> {
    SortByKey(DescribeAll(root, Discover(walk)))
  }

  /** The index is sorted by `(category, name)` and is a permutation of the
      descriptors of the walk's markdown files. */
  lemma ScanSortedPermutation(root: string, walk: seq<RelPath>)
    ensures Sorted(Scan(root, walk))
    ensures multiset(Scan(root, walk)) == multiset(DescribeAll(root, Discover(walk)))
    ensures |Scan(root, walk)| == |Discover(walk)|
  {
    var described := DescribeAll(root, Discover(walk));
    SortByKeySorted(described);
    SortByKeyPermutes(described);
    assert |multiset(SortByKey(described))| == |multiset(described)|;
  }

  /** A component is indexed exactly when it describes a markdown file of
      the walk. */
  lemma ScanMembers(root: string, walk: seq<RelPath>, c: Component)
    ensures c in Scan(root, walk) <==>
      exists k :: 0 <= k < |walk| && IsMarkdown(walk[k]) && c == Describe(root, walk[k])
  {
    if c in Scan(root, walk) {
      ScanMemberFromWalk(root, walk, c);
    }
    if exists k :: 0 <= k < |walk| && IsMarkdown(walk[k]) && c == Describe(root, walk[k]) {
      var k :| 0 <= k < |walk| && IsMarkdown(walk[k]) && c == Describe(root, walk[k]);
      WalkFileIndexed(root, walk, k);
    }
  }

  lemma ScanMemberFromWalk(root: string, walk: seq<RelPath>, c: Component)
    requires c in Scan(root, walk)
    ensures exists k :: 0 <= k < |walk| && IsMarkdown(walk[k]) && c == Describe(root, walk[k])
  {
    var md := Discover(walk);
    ScanSortedPermutation(root, walk);
    assert c in multiset(Scan(root, walk));
    var j := DescribedFrom(root, md, c);
    var k := DiscoveredFrom(walk, j);
  }

  /** An element of the descriptors of `files` describes one of them. */
  lemma DescribedFrom(root: string, files: seq<RelPath>, c: Component) returns (j: nat)
    requires forall k :: 0 <= k < |files| ==> IsMarkdown(files[k])
    requires c in multiset(DescribeAll(root, files))
    ensures j < |files| && c == Describe(root, files[j])
  {
    var described := DescribeAll(root, files);
    assert c in described;
    j :| 0 <= j < |described| && described[j] == c;
  }

  /** The `j`-th discovered file sits in the walk. */
  lemma DiscoveredFrom(walk: seq<RelPath>, j: nat) returns (k: nat)
    requires j < |Discover(walk)|
    ensures k < |walk| && walk[k] == Discover(walk)[j] && IsMarkdown(walk[k])
  {
    var md := Discover(walk);
    assert md[j] in multiset(md);
    assert md[j] in multiset(walk);
    k :| 0 <= k < |walk| && walk[k] == md[j];
  }

  lemma WalkFileIndexed(root: string, walk: seq<RelPath>, k: nat)
    requires k < |walk| && IsMarkdown(walk[k])
    ensures Describe(root, walk[k]) in Scan(root, walk)
  {
    var md := Discover(walk);
    var described := DescribeAll(root, md);
    assert walk[k] in multiset(walk);
    assert walk[k] in multiset(md);
    var j :| 0 <= j < |md| && md[j] == walk[k];
    ScanSortedPermutation(root, walk);
    assert described[j] == Describe(root, walk[k]);
    assert described[j] in multiset(described);
    assert described[j] in multiset(Scan(root, walk));
  }

  /** A walk with no markdown file (in particular an empty root) indexes
      to the empty list, not to an error. */
  lemma ScanWithoutMarkdown(root: string, walk: seq<RelPath>)
    requires forall k :: 0 <= k < |walk| ==> !IsMarkdown(walk[k])
    ensures Scan(root, walk) == []
  {
    var md := Discover(walk);
    forall p
      ensures multiset(md)[p] == 0
    {
      if IsMarkdown(p) {
        assert forall k :: 0 <= k < |walk| ==> walk[k] != p;
        assert p !in walk;
      }
    }
    assert multiset(md) == multiset{};
    ScanSortedPermutation(root, walk);
  }

  /** A subsequence of a sorted list is sorted, so anything that selects
      components in index order lists them by `(category, name)`. */
  lemma {:induction false} SortedSubsequence(a: seq<Component>, b: seq<Component>)
    requires IsSubsequence(a, b) && Sorted(b)
    ensures Sorted(a)
    decreases |b|
  {
    if |a| > 0 {
      if a[0] == b[0] && IsSubsequence(a[1..], b[1..]) {
        SortedSubsequence(a[1..], b[1..]);
        forall j | 0 < j < |a|
          ensures InOrder(a[0], a[j])
        {
          SubsequenceMembers(a[1..], b[1..], j - 1);
          var k :| 0 <= k < |b[1..]| && b[1..][k] == a[j];
          assert b[k + 1] == a[j];
        }
        forall i, j | 0 <= i < j < |a|
          ensures InOrder(a[i], a[j])
        {
          if i > 0 {
            assert a[i] == a[1..][i - 1] && a[j] == a[1..][j - 1];
          }
        }
      } else {
        SortedSubsequence(a, b[1..]);
      }
    }
  }
}
