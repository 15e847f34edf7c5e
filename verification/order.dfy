/** The ordering Python's `sorted` uses on the indexer's `(category, name)`
    keys: strings compare code point by code point, a proper prefix first,
    and tuples compare their first components, then their second. */
module Order {

  /** Python's `a <= b` on strings. */
  predicate LexLe(a: string, b: string) {
    |a| == 0 || (|b| > 0 && (a[0] < b[0] || (a[0] == b[0] && LexLe(a[1..], b[1..]))))
  }

  lemma {:induction false} LexLeReflexive(a: string)
    ensures LexLe(a, a)
  {
    if |a| > 0 {
      LexLeReflexive(a[1..]);
    }
  }

  lemma {:induction false} LexLeTotal(a: string, b: string)
    ensures LexLe(a, b) || LexLe(b, a)
  {
    if |a| > 0 && |b| > 0 && a[0] == b[0] {
      LexLeTotal(a[1..], b[1..]);
    }
  }

  lemma {:induction false} LexLeAntisymmetric(a: string, b: string)
    requires LexLe(a, b) && LexLe(b, a)
    ensures a == b
  {
    if |a| > 0 {
      LexLeAntisymmetric(a[1..], b[1..]);
      assert a == [a[0]] + a[1..];
      assert b == [b[0]] + b[1..];
    }
  }

  lemma {:induction false} LexLeTransitive(a: string, b: string, c: string)
    requires LexLe(a, b) && LexLe(b, c)
    ensures LexLe(a, c)
  {
    if |a| > 0 && a[0] == b[0] && b[0] == c[0] {
      LexLeTransitive(a[1..], b[1..], c[1..]);
    }
  }

  /** Python's `x <= y` on pairs of strings. */
  predicate KeyLe(x: (string, string), y: (string, string)) {
    if x.0 == y.0 then LexLe(x.1, y.1) else LexLe(x.0, y.0)
  }

  lemma KeyLeTotal(x: (string, string), y: (string, string))
    ensures KeyLe(x, y) || KeyLe(y, x)
  {
    LexLeTotal(x.0, y.0);
    LexLeTotal(x.1, y.1);
  }

  lemma KeyLeTransitive(x: (string, string), y: (string, string), z: (string, string))
    requires KeyLe(x, y) && KeyLe(y, z)
    ensures KeyLe(x, z)
  {
    if x.0 == y.0 && y.0 == z.0 {
      LexLeTransitive(x.1, y.1, z.1);
    } else if x.0 != y.0 && y.0 != z.0 {
      LexLeTransitive(x.0, y.0, z.0);
      if x.0 == z.0 {
        LexLeAntisymmetric(x.0, y.0);
      }
    }
  }
}
