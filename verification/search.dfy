/** The `search_docs` tool: which documents match a query, which of their
    lines are quoted as evidence, and the text the tool returns
    (`call_tool` in src/mcp_docs_server.py). */
module Search {
  import opened Results
  import opened Text
  import opened Decimal
  import opened Seqs
  import opened Indexer

  /** At most this many matching lines are quoted per document. */
  const MaxEvidence: nat := 5

  const LineBreak: char := '\n'

  /** A line (or a document) matches when the lower-cased query occurs in
      its lower-cased text. */
  predicate TextMatches(text: string, q: string) {
    Contains(Lower(text), q)
  }

  /** Matching ignores case on both sides: changing the case of letters in
      the text or in the query never changes whether they match. */
  lemma MatchCaseless(t: string, t': string, q: string, q': string)
    requires |t| == |t'| && forall i :: 0 <= i < |t| ==> SameUpToCase(t[i], t'[i])
    requires |q| == |q'| && forall i :: 0 <= i < |q| ==> SameUpToCase(q[i], q'[i])
    ensures TextMatches(t, Lower(q)) <==> TextMatches(t', Lower(q'))
  {
    LowerCaseless(t, t');
    LowerCaseless(q, q');
  }

  /** An instance: `INSTALL` finds `Install`. */
  lemma MatchIgnoresCase()
    ensures TextMatches("Install", Lower("INSTALL"))
  {
    assert Lower("Install") == "install" == Lower("INSTALL");
    assert OccursAt(Lower("Install"), Lower("INSTALL"), 0);
  }

  /** The positions, from `from` on, of the lines that match, ascending. */
  function MatchingFrom(lines: seq<string>, q: string, from: nat): (r: seq<nat>)
    requires from <= |lines|
    ensures forall k :: 0 <= k < |r| ==> from <= r[k] < |lines| && TextMatches(lines[r[k]], q)
    ensures forall i :: from <= i < |lines| && TextMatches(lines[i], q) ==> i in r
    ensures forall k, l :: 0 <= k < l < |r| ==> r[k] < r[l]
    decreases |lines| - from
  {
    if from == |lines| then []
    else if TextMatches(lines[from], q) then [from] + MatchingFrom(lines, q, from + 1)
    else MatchingFrom(lines, q, from + 1)
  }

  /** The 0-based positions of all matching lines, in document order. */
  function MatchingLines(lines: seq<string>, q: string): (r: seq<nat>)
    ensures forall k :: 0 <= k < |r| ==> r[k] < |lines| && TextMatches(lines[r[k]], q)
    ensures forall i :: 0 <= i < |lines| && TextMatches(lines[i], q) ==> i in r
    ensures forall k, l :: 0 <= k < l < |r| ==> r[k] < r[l]
  {
    MatchingFrom(lines, q, 0)
  }

  /** `f"Line {i+1}: {line}"` for the line at 0-based position `i`. */
  function EvidenceLine(i: nat, line: string): string {
    "Line " + NatToString(i + 1) + ": " + line
  }

  /** The evidence quoted for a document: the first `MaxEvidence` matching
      lines of `content.split("\n")`, numbered from 1, in document order. */
  function Evidence(content: string, q: string): (r: seq<string>)
    ensures |r| <= MaxEvidence
    ensures var lines := Split(content, LineBreak);
      var m := MatchingLines(lines, q);
      |r| == if |m| < MaxEvidence then |m| else MaxEvidence
    ensures var lines := Split(content, LineBreak);
      var m := MatchingLines(lines, q);
      forall k :: 0 <= k < |r| ==> r[k] == EvidenceLine(m[k], lines[m[k]])
  {
    var lines := Split(content, LineBreak);
    var m := MatchingLines(lines, q);
    var all := seq(|m|, k requires 0 <= k < |m| => EvidenceLine(m[k], lines[m[k]]));
    if |all| <= MaxEvidence then all else all[..MaxEvidence]
  }

  /** Every quoted evidence entry is a single line. */
  lemma EvidenceSingleLines(content: string, q: string)
    ensures forall k :: 0 <= k < |Evidence(content, q)| ==> LineBreak !in Evidence(content, q)[k]
  {
    var lines := Split(content, LineBreak);
    var m := MatchingLines(lines, q);
    var r := Evidence(content, q);
    forall k | 0 <= k < |r|
      ensures LineBreak !in r[k]
    {
      var digits := NatToString(m[k] + 1);
      assert forall i :: 0 <= i < |digits| ==> IsDigit(digits[i]);
      assert LineBreak !in digits;
      assert LineBreak !in lines[m[k]];
      assert r[k] == "Line " + digits + ": " + lines[m[k]];
    }
  }

  /** An occurrence of a query without a line break lies inside one line. */
  lemma OccurrenceAvoidsLineBreak(s: string, q: string, at: nat, i: nat)
    requires OccursAt(Lower(s), q, at) && i < |s| && s[i] == LineBreak && LineBreak !in q
    ensures i < at || at + |q| <= i
  {
    assert forall j :: at <= j < at + |q| ==> Lower(s)[j] == q[j - at];
    assert Lower(s)[i] == LineBreak;
  }

  /** A query occurring in the lower-cased text, without a line break of
      its own, matches one of the text's lines. */
  lemma {:induction false} MatchInSomeLine(s: string, q: string, at: nat) returns (k: nat)
    requires OccursAt(Lower(s), q, at) && LineBreak !in q
    ensures k < |Split(s, LineBreak)| && TextMatches(Split(s, LineBreak)[k], q)
    decreases |s|
  {
    if LineBreak !in s {
      assert Split(s, LineBreak) == [s];
      MatchAt(s, q, at);
      k := 0;
    } else if at + |q| <= IndexOf(s, LineBreak) {
      FirstLineMatch(s, q, at);
      k := 0;
    } else {
      var d := AfterFirstLine(s, q, at);
      var k' := MatchInSomeLine(s[d..], q, at - d);
      LaterLineMatch(s, q, k');
      k := k' + 1;
    }
  }

  /** An occurrence that does not end before the first line break starts
      after it, and is an occurrence in the rest of the text. */
  lemma AfterFirstLine(s: string, q: string, at: nat) returns (d: nat)
    requires LineBreak in s && OccursAt(Lower(s), q, at) && LineBreak !in q
    requires IndexOf(s, LineBreak) < at + |q|
    ensures d == IndexOf(s, LineBreak) + 1 && d <= at && d <= |s|
    ensures OccursAt(Lower(s[d..]), q, at - d)
  {
    OccurrenceAvoidsLineBreak(s, q, at, IndexOf(s, LineBreak));
    d := IndexOf(s, LineBreak) + 1;
    OccursInSuffix(s, q, at, d);
  }

  /** An occurrence before the first line break matches the first line. */
  lemma FirstLineMatch(s: string, q: string, at: nat)
    requires LineBreak in s && OccursAt(Lower(s), q, at) && at + |q| <= IndexOf(s, LineBreak)
    ensures 0 < |Split(s, LineBreak)| && TextMatches(Split(s, LineBreak)[0], q)
  {
    var i := IndexOf(s, LineBreak);
    OccursInPrefix(s, q, at, i);
    MatchAt(s[..i], q, at);
    SplitLineAfterFirst(s, LineBreak, 0);
  }

  /** A matching line after the first line break is a matching line of the
      whole text, one position further on. */
  lemma LaterLineMatch(s: string, q: string, k: nat)
    requires LineBreak in s
    requires k < |Split(s[IndexOf(s, LineBreak) + 1..], LineBreak)|
    requires TextMatches(Split(s[IndexOf(s, LineBreak) + 1..], LineBreak)[k], q)
    ensures k + 1 < |Split(s, LineBreak)| && TextMatches(Split(s, LineBreak)[k + 1], q)
  {
    SplitLineAfterFirst(s, LineBreak, k + 1);
  }

  /** An occurrence in the lower-cased text is a match. */
  lemma MatchAt(text: string, q: string, at: nat)
    requires OccursAt(Lower(text), q, at)
    ensures TextMatches(text, q)
  {
  }

  /** An occurrence ending by position `i` is an occurrence in `s[..i]`. */
  lemma OccursInPrefix(s: string, q: string, at: nat, i: nat)
    requires OccursAt(Lower(s), q, at) && at + |q| <= i <= |s|
    ensures OccursAt(Lower(s[..i]), q, at)
  {
    LowerSlice(s, 0, i);
    assert s[..i] == s[0..i];
    assert Lower(s[..i])[at..at + |q|] == Lower(s)[at..at + |q|];
  }

  /** An occurrence starting at or after position `d` is an occurrence in
      `s[d..]`. */
  lemma OccursInSuffix(s: string, q: string, at: nat, d: nat)
    requires OccursAt(Lower(s), q, at) && d <= at && d <= |s|
    ensures OccursAt(Lower(s[d..]), q, at - d)
  {
    LowerSlice(s, d, |s|);
    assert s[d..] == s[d..|s|];
    assert Lower(s[d..])[at - d..at - d + |q|] == Lower(s)[at..at + |q|];
  }

  /** A document matches when one of its lines does; conversely, a matching
      document has a matching line unless the query contains a line break. */
  lemma DocumentAndLineMatches(content: string, q: string)
    ensures (exists k :: 0 <= k < |Split(content, LineBreak)| && TextMatches(Split(content, LineBreak)[k], q))
              ==> TextMatches(content, q)
    ensures TextMatches(content, q) && LineBreak !in q ==>
              exists k :: 0 <= k < |Split(content, LineBreak)| && TextMatches(Split(content, LineBreak)[k], q)
  {
    var lines := Split(content, LineBreak);
    if exists k :: 0 <= k < |lines| && TextMatches(lines[k], q) {
      var k :| 0 <= k < |lines| && TextMatches(lines[k], q);
      var off := SplitPieceOffset(content, LineBreak, k);
      LowerSlice(content, off, off + |lines[k]|);
      assert OccursAt(Lower(content), Lower(lines[k]), off);
      ContainsThrough(Lower(content), Lower(lines[k]), off, q);
    }
    if TextMatches(content, q) && LineBreak !in q {
      var at: nat :| at <= |Lower(content)| && OccursAt(Lower(content), q, at);
      var k := MatchInSomeLine(content, q, at);
    }
  }

  /** The evidence is non-empty exactly when some line matches; so a
      matching document always has evidence unless the query spans a line
      break, and evidence never appears for a document that does not match. */
  lemma EvidencePresence(content: string, q: string)
    ensures |Evidence(content, q)| > 0 ==> TextMatches(content, q)
    ensures TextMatches(content, q) && LineBreak !in q ==> |Evidence(content, q)| > 0
  {
    var lines := Split(content, LineBreak);
    var m := MatchingLines(lines, q);
    DocumentAndLineMatches(content, q);
    if |m| > 0 {
      assert TextMatches(lines[m[0]], q);
    }
    if TextMatches(content, q) && LineBreak !in q {
      var k :| 0 <= k < |lines| && TextMatches(lines[k], q);
      assert k in m;
    }
  }

  /** A query that spans a line break can match a document while no single
      line matches, leaving the result with an empty evidence list. */
  lemma SpanningQueryHasNoEvidence()
    ensures TextMatches("a\nb", "a\nb") && Evidence("a\nb", "a\nb") == []
  {
    var content := "a\nb";
    assert Lower(content) == content;
    assert OccursAt(Lower(content), content, 0);
    assert content == "a" + [LineBreak] + "b";
    SplitAtFirst("a", LineBreak, "b");
    assert LineBreak !in "b";
    assert Split("b", LineBreak) == ["b"];
    assert Split(content, LineBreak) == ["a", "b"];
    assert !TextMatches("a", content);
    assert !TextMatches("b", content);
    assert MatchingLines(["a", "b"], content) == [];
  }

  /** The category filter: absent or empty means no filter. */
  predicate PassesFilter(c: Component, filter: Option<string>) {
    filter.None? || filter.value == "" || c.category == filter.value
  }

  /** The conditions under which the search emits a result for `c`: it
      passes the filter, its file exists, and the file's text matches. */
  predicate Emits(c: Component, files: map<string, string>, q: string, filter: Option<string>) {
    PassesFilter(c, filter) && c.fullPath in files && TextMatches(files[c.fullPath], q)
  }

  datatype Hit = Hit(component: Component, evidence: seq<string>)

  function HitComponents(hits: seq<Hit>): (cs: seq<Component>)
    ensures |cs| == |hits|
    ensures forall i :: 0 <= i < |hits| ==> cs[i] == hits[i].component
  {
    seq(|hits|, i requires 0 <= i < |hits| => hits[i].component)
  }

  /** The results of one search over a component list, in list order: the
      server's loop over its components, appending a result for each one
      that passes the filter, exists and matches. */
  function Hits(components: seq<Component>, files: map<string, string>, q: string, filter: Option<string>)
    : (hits: seq<Hit>)
    ensures forall i :: 0 <= i < |hits| ==>
      Emits(hits[i].component, files, q, filter) &&
      hits[i].evidence == Evidence(files[hits[i].component.fullPath], q)
    ensures IsSubsequence(HitComponents(hits), components)
    ensures forall c ::
      multiset(HitComponents(hits))[c] == (if Emits(c, files, q, filter) then multiset(components)[c] else 0)
    decreases |components|
  {
    if |components| == 0 then []
    else
      var c := components[0];
      var rest := Hits(components[1..], files, q, filter);
      assert components == [c] + components[1..];
      if Emits(c, files, q, filter) then
        var hits := [Hit(c, Evidence(files[c.fullPath], q))] + rest;
        assert HitComponents(hits) == [c] + HitComponents(rest);
        hits
      else
        rest
  }

  /** Every component of the list that passes the filter, exists and
      matches has a result. */
  lemma HitOf(components: seq<Component>, files: map<string, string>, q: string, filter: Option<string>, c: Component)
    returns (i: nat)
    requires c in components && Emits(c, files, q, filter)
    ensures i < |Hits(components, files, q, filter)| && Hits(components, files, q, filter)[i].component == c
  {
    var cs := HitComponents(Hits(components, files, q, filter));
    assert multiset(components)[c] > 0;
    assert multiset(cs)[c] == multiset(components)[c];
    assert c in multiset(cs);
    i :| 0 <= i < |cs| && cs[i] == c;
  }

  /** Every result belongs to a component of the list. */
  lemma HitSelected(components: seq<Component>, files: map<string, string>, q: string, filter: Option<string>, i: nat)
    requires i < |Hits(components, files, q, filter)|
    ensures Hits(components, files, q, filter)[i].component in components
  {
    var hits := Hits(components, files, q, filter);
    var cs := HitComponents(hits);
    assert cs[i] in multiset(cs);
  }

  /** The text block of one result. */
  function Block(h: Hit): string {
    "## " + h.component.category + "/" + h.component.name + "\n"
    + "**Path:** " + h.component.path + "\n\n"
    + "**Matches:**\n" + Join(h.evidence, "\n")
  }

  /** The four lines a block opens with. */
  function BlockHead(h: Hit): seq<string> {
    ["## " + h.component.category + "/" + h.component.name, "**Path:** " + h.component.path, "", "**Matches:**"]
  }

  /** A block read back line by line: its four head lines, then the
      evidence lines (one empty line when there is no evidence), as long as
      the component's fields and the evidence hold no line break. */
  lemma BlockLines(h: Hit)
    requires LineBreak !in h.component.category && LineBreak !in h.component.name
    requires LineBreak !in h.component.path
    requires forall k :: 0 <= k < |h.evidence| ==> LineBreak !in h.evidence[k]
    ensures Split(Block(h), LineBreak) == BlockHead(h) + (if |h.evidence| == 0 then [""] else h.evidence)
  {
    var tail := if |h.evidence| == 0 then [""] else h.evidence;
    var lines := BlockHead(h) + tail;
    BlockAsJoin(h);
    forall k | 0 <= k < |lines|
      ensures LineBreak !in lines[k]
    {
      if k >= 4 {
        assert lines[k] == tail[k - 4];
      }
    }
    SplitJoin(lines, LineBreak);
  }

  /** A block is its head lines and evidence lines joined by line breaks. */
  lemma BlockAsJoin(h: Hit)
    ensures Block(h) == Join(BlockHead(h) + (if |h.evidence| == 0 then [""] else h.evidence), "\n")
  {
    var head := BlockHead(h);
    var tail := if |h.evidence| == 0 then [""] else h.evidence;
    assert Join(tail, "\n") == Join(h.evidence, "\n");
    JoinAppend(head, tail, "\n");
    BlockHeadJoin(h);
    var l0 := "## " + h.component.category + "/" + h.component.name;
    var l1 := "**Path:** " + h.component.path;
    assert Block(h) == l0 + "\n" + (l1 + "\n" + ("" + "\n" + "**Matches:**")) + "\n" + Join(h.evidence, "\n");
  }

  /** The head lines joined by line breaks. */
  lemma BlockHeadJoin(h: Hit)
    ensures Join(BlockHead(h), "\n") ==
      "## " + h.component.category + "/" + h.component.name + "\n"
      + ("**Path:** " + h.component.path + "\n" + ("" + "\n" + "**Matches:**"))
  {
    var head := BlockHead(h);
    assert head[1..][1..][1..] == ["**Matches:**"];
    assert Join(head[1..][1..], "\n") == "" + "\n" + "**Matches:**";
  }

  function Blocks(hits: seq<Hit>): (bs: seq<string>)
    ensures |bs| == |hits|
    ensures forall i :: 0 <= i < |hits| ==> bs[i] == Block(hits[i])
  {
    seq(|hits|, i requires 0 <= i < |hits| => Block(hits[i]))
  }

  function NoResults(q: string): string {
    "No results found for query: '" + q + "'"
  }

  const ResultSeparator := "\n\n---\n\n"

  /** The first line of a reply with `n` results. */
  function Header(n: nat): string {
    "Found " + NatToString(n) + " result(s):\n\n"
  }

  /** The tool's reply for the lower-cased query `q` and the result blocks:
      the no-results message exactly when there are no blocks, otherwise a
      header counting them followed by the blocks. */
  function Format(q: string, blocks: seq<string>): (out: string)
    ensures |blocks| == 0 <==> out == NoResults(q)
    ensures |blocks| > 0 ==> StartsWith(out, Header(|blocks|))
  {
    if |blocks| == 0 then NoResults(q)
    else
      var out := Header(|blocks|) + Join(blocks, ResultSeparator);
      assert out[0] == 'F' && NoResults(q)[0] == 'N';
      assert out[..|Header(|blocks|)|] == Header(|blocks|);
      out
  }

  /** The layout of a reply with results: after the header, block `k`
      starts at `at`; a separator follows every block but the last, and
      the next block starts right after it; the last block ends the reply. */
  lemma FormatLayout(q: string, blocks: seq<string>, k: nat) returns (at: nat)
    requires k < |blocks|
    ensures at == |Header(|blocks|)| + JoinOffset(blocks, ResultSeparator, k)
    ensures OccursAt(Format(q, blocks), blocks[k], at)
    ensures k + 1 < |blocks| ==> OccursAt(Format(q, blocks), ResultSeparator, at + |blocks[k]|)
    ensures k + 1 < |blocks| ==>
      JoinOffset(blocks, ResultSeparator, k + 1) == JoinOffset(blocks, ResultSeparator, k) + |blocks[k]| + |ResultSeparator|
    ensures k + 1 == |blocks| ==> at + |blocks[k]| == |Format(q, blocks)|
  {
    var out := Format(q, blocks);
    var d := |Header(|blocks|)|;
    FormatBody(q, blocks);
    at := d + JoinOffset(blocks, ResultSeparator, k);
    JoinPieceAt(blocks, ResultSeparator, k);
    OccursShift(out, d, blocks[k], JoinOffset(blocks, ResultSeparator, k));
    if k + 1 < |blocks| {
      JoinSeparatorAfter(blocks, ResultSeparator, k);
      OccursShift(out, d, ResultSeparator, JoinOffset(blocks, ResultSeparator, k) + |blocks[k]|);
    } else {
      JoinLastEnds(blocks, ResultSeparator);
    }
  }

  /** After the header, a reply with results is the blocks joined by the
      separator. */
  lemma FormatBody(q: string, blocks: seq<string>)
    requires |blocks| > 0
    ensures |Header(|blocks|)| <= |Format(q, blocks)|
    ensures Format(q, blocks)[|Header(|blocks|)|..] == Join(blocks, ResultSeparator)
  {
    var header := Header(|blocks|);
    assert Format(q, blocks) == header + Join(blocks, ResultSeparator);
  }

  /** The number in the reply's header reads back as the number of results. */
  lemma FormatReportsCount(q: string, blocks: seq<string>) returns (digits: string)
    requires |blocks| > 0
    ensures IsDigits(digits) && DecimalValue(digits) == |blocks|
    ensures StartsWith(Format(q, blocks), "Found " + digits + " result(s):\n\n")
  {
    digits := NatToString(|blocks|);
    DecimalRoundTrip(|blocks|);
  }
}
