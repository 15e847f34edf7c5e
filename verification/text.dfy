/** String helpers shared by the indexer, the addressing scheme and the
    search: ASCII lower-casing, the substring test, prefix and suffix tests,
    and splitting on / joining with a separator, all with Python's meaning. */
module Text {

  /** Lower-cases an ASCII capital letter; every other character is kept. */
  function LowerChar(c: char): (d: char)
    ensures !('A' <= d <= 'Z')
    ensures 'A' <= c <= 'Z' ==> d as int == c as int + 32
    ensures d != c ==> 'A' <= c <= 'Z'
  {
    if 'A' <= c <= 'Z' then (c as int + 32) as char else c
  }

  /** `c` and `d` are the same character, or the same ASCII letter in the
      two cases. */
  predicate SameUpToCase(c: char, d: char) {
    c == d
    || ('A' <= c <= 'Z' && d as int == c as int + 32)
    || ('A' <= d <= 'Z' && c as int == d as int + 32)
  }

  /** Lower-casing identifies exactly the characters that differ in case
      only. */
  lemma LowerCharCaseless(c: char, d: char)
    ensures LowerChar(c) == LowerChar(d) <==> SameUpToCase(c, d)
  {
  }

  /** `str.lower`, restricted to ASCII. */
  function Lower(s: string): (r: string)
    ensures |r| == |s|
    ensures forall i :: 0 <= i < |s| ==> r[i] == LowerChar(s[i])
  {
    seq(|s|, i requires 0 <= i < |s| => LowerChar(s[i]))
  }

  /** Two strings lower-case alike exactly when they agree character by
      character up to case, so matching on lower-cased text ignores case. */
  lemma LowerCaseless(s: string, t: string)
    ensures Lower(s) == Lower(t) <==> |s| == |t| && forall i :: 0 <= i < |s| ==> SameUpToCase(s[i], t[i])
  {
    if |s| == |t| {
      forall i | 0 <= i < |s|
        ensures Lower(s)[i] == Lower(t)[i] <==> SameUpToCase(s[i], t[i])
      {
        LowerCharCaseless(s[i], t[i]);
      }
      if forall i :: 0 <= i < |s| ==> SameUpToCase(s[i], t[i]) {
        assert forall i :: 0 <= i < |s| ==> Lower(s)[i] == Lower(t)[i];
      }
    }
  }

  lemma LowerSlice(s: string, i: int, j: int)
    requires 0 <= i <= j <= |s|
    ensures Lower(s[i..j]) == Lower(s)[i..j]
  {
  }

  /** `q` occurs in `s` starting at position `i`. */
  predicate OccursAt(s: string, q: string, i: nat) {
    i + |q| <= |s| && s[i..i + |q|] == q
  }

  /** Python's `q in s` on strings: `q` is a (possibly empty) substring of `s`. */
  predicate Contains(s: string, q: string) {
    exists i: nat :: i <= |s| && OccursAt(s, q, i)
  }

  /** A substring of a substring is a substring. */
  lemma ContainsThrough(s: string, t: string, off: nat, q: string)
    requires OccursAt(s, t, off) && Contains(t, q)
    ensures Contains(s, q)
  {
    var j: nat :| j <= |t| && OccursAt(t, q, j);
    forall k | 0 <= k < |q|
      ensures s[off + j + k] == q[k]
    {
      assert q[k] == t[j + k];
      assert t[j + k] == s[off..off + |t|][j + k];
    }
    assert s[off + j..off + j + |q|] == q;
    assert OccursAt(s, q, off + j);
  }

  /** The empty string is a substring of every string. */
  lemma ContainsEmpty(s: string)
    ensures Contains(s, "")
  {
    assert OccursAt(s, "", 0);
  }

  lemma AppendAssoc(a: string, b: string, c: string)
    ensures a + b + c == a + (b + c)
  {
  }

  predicate StartsWith(s: string, prefix: string) {
    |prefix| <= |s| && s[..|prefix|] == prefix
  }

  predicate EndsWith(s: string, suffix: string) {
    |suffix| <= |s| && s[|s| - |suffix|..] == suffix
  }

  /** Position of the first occurrence of `c` in `s`. */
  function IndexOf(s: string, c: char): (i: nat)
    requires c in s
    ensures i < |s| && s[i] == c && c !in s[..i]
  {
    if s[0] == c then 0 else 1 + IndexOf(s[1..], c)
  }

  /** The first occurrence of `c` is the only position holding `c` with no
      `c` before it. */
  lemma IndexOfUnique(s: string, c: char, j: nat)
    requires j < |s| && s[j] == c && c !in s[..j]
    ensures IndexOf(s, c) == j
  {
    var i := IndexOf(s, c);
    assert forall k :: 0 <= k < j ==> s[k] == s[..j][k];
    assert forall k :: 0 <= k < i ==> s[k] == s[..i][k];
  }

  /** Python's `s.split(sep)` for a one-character separator: the pieces
      between consecutive separators, always at least one (`"".split("/")`
      is `[""]`). */
  function Split(s: string, sep: char): (parts: seq<string>)
    ensures |parts| >= 1
    ensures forall k :: 0 <= k < |parts| ==> sep !in parts[k]
    ensures |parts| >= 2 <==> sep in s
    decreases |s|
  {
    if sep in s then
      var i := IndexOf(s, sep);
      [s[..i]] + Split(s[i + 1..], sep)
    else
      [s]
  }

  /** Python's `sep.join(parts)`. */
  function Join(parts: seq<string>, sep: string): (r: string)
  {
    if |parts| == 0 then ""
    else if |parts| == 1 then parts[0]
    else parts[0] + sep + Join(parts[1..], sep)
  }

  /** Joining the pieces of a split with the separator gives the string back. */
  lemma {:induction false} JoinSplit(s: string, sep: char)
    ensures Join(Split(s, sep), [sep]) == s
    decreases |s|
  {
    if sep in s {
      var i := IndexOf(s, sep);
      var rest := Split(s[i + 1..], sep);
      assert Split(s, sep) == [s[..i]] + rest;
      assert ([s[..i]] + rest)[1..] == rest;
      JoinSplit(s[i + 1..], sep);
      SliceAround(s, i);
    }
  }

  /** Splitting a join of separator-free pieces gives the pieces back, so
      `Split` is the only way to cut a string into separator-free pieces. */
  lemma {:induction false} SplitJoin(parts: seq<string>, sep: char)
    requires |parts| >= 1
    requires forall k :: 0 <= k < |parts| ==> sep !in parts[k]
    ensures Split(Join(parts, [sep]), sep) == parts
  {
    if |parts| > 1 {
      var tail := Join(parts[1..], [sep]);
      assert Join(parts, [sep]) == parts[0] + [sep] + tail;
      SplitAtFirst(parts[0], sep, tail);
      SplitJoin(parts[1..], sep);
      assert parts == [parts[0]] + parts[1..];
    }
  }

  /** The pieces of a string holding the separator: the first is the text
      before the first separator, the others are the pieces of the rest. */
  lemma SplitLineAfterFirst(s: string, sep: char, k: nat)
    requires sep in s
    requires k <= |Split(s[IndexOf(s, sep) + 1..], sep)|
    ensures |Split(s, sep)| == 1 + |Split(s[IndexOf(s, sep) + 1..], sep)|
    ensures k == 0 ==> Split(s, sep)[k] == s[..IndexOf(s, sep)]
    ensures k > 0 ==> Split(s, sep)[k] == Split(s[IndexOf(s, sep) + 1..], sep)[k - 1]
  {
    var i := IndexOf(s, sep);
    SliceAround(s, i);
    SplitAtFirst(s[..i], sep, s[i + 1..]);
  }

  /** A string is the text before position `i`, the character there, and
      the text after it. */
  lemma SliceAround(s: string, i: nat)
    requires i < |s|
    ensures s == s[..i] + [s[i]] + s[i + 1..]
  {
    assert s[..i] + s[i..] == s;
    assert s[i..] == [s[i]] + s[i + 1..];
  }

  /** Splitting at a first separator: the piece before it, then the split
      of what follows. */
  lemma SplitAtFirst(a: string, sep: char, b: string)
    requires sep !in a
    ensures Split(a + [sep] + b, sep) == [a] + Split(b, sep)
  {
    var s := a + [sep] + b;
    assert s[..|a|] == a;
    IndexOfUnique(s, sep, |a|);
    assert s[|a| + 1..] == b;
  }

  /** When a split has at least two pieces, the string is the first two
      pieces around a separator, followed by nothing or by a separator. */
  lemma {:induction false} SplitFirstTwo(s: string, sep: char)
    requires |Split(s, sep)| >= 2
    ensures var parts := Split(s, sep);
      var head := parts[0] + [sep] + parts[1];
      StartsWith(s, head) && (|s| == |head| || s[|head|] == sep)
  {
    var i := IndexOf(s, sep);
    var rest := s[i + 1..];
    SplitLineAfterFirst(s, sep, 0);
    SplitLineAfterFirst(s, sep, 1);
    var p1 := Split(rest, sep)[0];
    var head := s[..i] + [sep] + p1;
    SliceAround(s, i);
    if sep in rest {
      var j := IndexOf(rest, sep);
      SplitLineAfterFirst(rest, sep, 0);
      SliceAround(rest, j);
      var tail := [sep] + rest[j + 1..];
      calc {
        s;
        s[..i] + [sep] + rest;
        { AppendAssoc(p1, [sep], rest[j + 1..]); }
        s[..i] + [sep] + (p1 + tail);
        { AppendAssoc(s[..i] + [sep], p1, tail); }
        head + tail;
      }
      PrefixOfAppend(head, tail);
    } else {
      assert Split(rest, sep) == [rest];
    }
  }

  /** The front of a concatenation is a prefix of it, and the back starts
      right after it. */
  lemma PrefixOfAppend(x: string, y: string)
    requires |y| > 0
    ensures StartsWith(x + y, x) && (x + y)[|x|] == y[0]
  {
    assert (x + y)[..|x|] == x;
  }

  /** Each piece of a split occurs in the string, at the returned offset. */
  lemma {:induction false} SplitPieceOffset(s: string, sep: char, k: nat) returns (off: nat)
    requires k < |Split(s, sep)|
    ensures OccursAt(s, Split(s, sep)[k], off)
    decreases |s|
  {
    if sep !in s {
      off := 0;
      assert Split(s, sep) == [s];
      assert s[0..|s|] == s;
    } else {
      var i := IndexOf(s, sep);
      var rest := s[i + 1..];
      assert Split(s, sep) == [s[..i]] + Split(rest, sep);
      if k == 0 {
        off := 0;
        assert s[0..|s[..i]|] == s[..i];
      } else {
        var o := SplitPieceOffset(rest, sep, k - 1);
        OccursShift(s, i + 1, Split(rest, sep)[k - 1], o);
        off := i + 1 + o;
      }
    }
  }

  /** An occurrence in a suffix is an occurrence in the whole string. */
  lemma OccursShift(s: string, d: nat, q: string, o: nat)
    requires d <= |s| && OccursAt(s[d..], q, o)
    ensures OccursAt(s, q, d + o)
  {
    assert s[d + o..d + o + |q|] == s[d..][o..o + |q|];
  }

  /** Where piece `k` starts in `Join(parts, sep)`. */
  function JoinOffset(parts: seq<string>, sep: string, k: nat): nat
    requires k < |parts|
  {
    if k == 0 then 0 else |parts[0]| + |sep| + JoinOffset(parts[1..], sep, k - 1)
  }

  /** Piece `k` of a join occurs at its offset. */
  lemma {:induction false} JoinPieceAt(parts: seq<string>, sep: string, k: nat)
    requires k < |parts|
    ensures OccursAt(Join(parts, sep), parts[k], JoinOffset(parts, sep, k))
  {
    var j := Join(parts, sep);
    if |parts| == 1 {
      assert j[0..|j|] == j;
    } else {
      var t := Join(parts[1..], sep);
      assert j == parts[0] + sep + t;
      if k == 0 {
        assert j[0..|parts[0]|] == parts[0];
      } else {
        JoinPieceAt(parts[1..], sep, k - 1);
        assert j[|parts[0]| + |sep|..] == t;
        OccursShift(j, |parts[0]| + |sep|, parts[k], JoinOffset(parts[1..], sep, k - 1));
      }
    }
  }

  /** A separator follows every piece but the last, and the next piece
      starts right after it. */
  lemma {:induction false} JoinSeparatorAfter(parts: seq<string>, sep: string, k: nat)
    requires k + 1 < |parts|
    ensures OccursAt(Join(parts, sep), sep, JoinOffset(parts, sep, k) + |parts[k]|)
    ensures JoinOffset(parts, sep, k + 1) == JoinOffset(parts, sep, k) + |parts[k]| + |sep|
  {
    var j := Join(parts, sep);
    var t := Join(parts[1..], sep);
    assert j == parts[0] + sep + t;
    if k == 0 {
      assert j[|parts[0]|..|parts[0]| + |sep|] == sep;
    } else {
      JoinSeparatorAfter(parts[1..], sep, k - 1);
      var d := |parts[0]| + |sep|;
      assert parts[1..][k - 1] == parts[k];
      assert JoinOffset(parts, sep, k) == d + JoinOffset(parts[1..], sep, k - 1);
      assert JoinOffset(parts, sep, k + 1) == d + JoinOffset(parts[1..], sep, k);
      assert j[d..] == t;
      OccursShift(j, d, sep, JoinOffset(parts[1..], sep, k - 1) + |parts[k]|);
    }
  }

  /** The last piece ends the join. */
  lemma {:induction false} JoinLastEnds(parts: seq<string>, sep: string)
    requires |parts| >= 1
    ensures JoinOffset(parts, sep, |parts| - 1) + |parts[|parts| - 1]| == |Join(parts, sep)|
  {
    if |parts| > 1 {
      var n := |parts| - 1;
      JoinLastEnds(parts[1..], sep);
      assert Join(parts, sep) == parts[0] + sep + Join(parts[1..], sep);
      assert JoinOffset(parts, sep, n) == |parts[0]| + |sep| + JoinOffset(parts[1..], sep, n - 1);
      assert parts[n] == parts[1..][n - 1];
    }
  }

  /** Joining two non-empty lists of pieces is joining each and putting a
      separator between. */
  lemma {:induction false} JoinAppend(a: seq<string>, b: seq<string>, sep: string)
    requires |a| >= 1 && |b| >= 1
    ensures Join(a + b, sep) == Join(a, sep) + sep + Join(b, sep)
  {
    if |a| == 1 {
      assert (a + b)[1..] == b;
    } else {
      assert (a + b)[1..] == a[1..] + b;
      JoinAppend(a[1..], b, sep);
      AppendAssoc(a[0] + sep, Join(a[1..], sep), sep + Join(b, sep));
      AppendAssoc(Join(a[1..], sep), sep, Join(b, sep));
    }
  }
}
