/** The order SQLite's `ORDER BY` puts TEXT values in: NULL before every
    string, and strings under the BINARY collation, which compares UTF-8
    bytes and therefore code points, lexicographically. */
module Collation {
  import opened Values

  /** Lexicographic order on strings: a proper prefix comes first. */
  predicate LexLe(a: string, b: string)
    decreases |a|
  {
    |a| == 0 || (|b| > 0 && (a[0] < b[0] || (a[0] == b[0] && LexLe(a[1..], b[1..]))))
  }

  /** The textbook definition: `a` is a prefix of `b`, or the two first
      differ at a position where `a` has the smaller character. */
  ghost predicate LexLeByIndex(a: string, b: string) {
    (|a| <= |b| && a == b[..|a|]) ||
    exists k :: 0 <= k < |a| && k < |b| && a[..k] == b[..k] && a[k] < b[k]
  }

  lemma {:induction false} LexLeMeaning(a: string, b: string)
    ensures LexLe(a, b) <==> LexLeByIndex(a, b)
    decreases |a|
  {
    if |a| == 0 {
      assert a == b[..0];
    } else if |b| == 0 {
    } else if a[0] < b[0] {
      assert a[..0] == b[..0];
    } else if a[0] > b[0] {
      assert forall k | 0 < k <= |a| && k <= |b| :: a[..k][0] != b[..k][0];
    } else {
      LexLeMeaning(a[1..], b[1..]);
      LexLeByIndexCons(a, b);
    }
  }

  /** Past an equal first character, the index definition looks at the rest. */
  lemma LexLeByIndexCons(a: string, b: string)
    requires |a| > 0 && |b| > 0 && a[0] == b[0]
    ensures LexLeByIndex(a, b) <==> LexLeByIndex(a[1..], b[1..])
  {
    if LexLeByIndex(a[1..], b[1..]) {
      LexLeByIndexGrow(a, b);
    }
    if LexLeByIndex(a, b) {
      LexLeByIndexShrink(a, b);
    }
  }

  lemma LexLeByIndexGrow(a: string, b: string)
    requires |a| > 0 && |b| > 0 && a[0] == b[0]
    requires LexLeByIndex(a[1..], b[1..])
    ensures LexLeByIndex(a, b)
  {
    var a', b' := a[1..], b[1..];
    if |a'| <= |b'| && a' == b'[..|a'|] {
      assert a == [a[0]] + a' && b[..|a|] == [b[0]] + b'[..|a'|];
    } else {
      var k :| 0 <= k < |a'| && k < |b'| && a'[..k] == b'[..k] && a'[k] < b'[k];
      assert a[..k+1] == [a[0]] + a'[..k] && b[..k+1] == [b[0]] + b'[..k];
      assert a[k+1] < b[k+1];
    }
  }

  lemma LexLeByIndexShrink(a: string, b: string)
    requires |a| > 0 && |b| > 0 && a[0] == b[0]
    requires LexLeByIndex(a, b)
    ensures LexLeByIndex(a[1..], b[1..])
  {
    var a', b' := a[1..], b[1..];
    if |a| <= |b| && a == b[..|a|] {
      assert a' == b'[..|a'|];
    } else {
      var k :| 0 <= k < |a| && k < |b| && a[..k] == b[..k] && a[k] < b[k];
      assert k > 0;
      assert a'[..k-1] == a[..k][1..] && b'[..k-1] == b[..k][1..];
      assert a'[k-1] < b'[k-1];
    }
  }

  lemma {:induction false} LexLeTotal(a: string, b: string)
    ensures LexLe(a, b) || LexLe(b, a)
    decreases |a|
  {
    if |a| > 0 && |b| > 0 && a[0] == b[0] {
      LexLeTotal(a[1..], b[1..]);
    }
  }

  lemma {:induction false} LexLeAntisymmetric(a: string, b: string)
    requires LexLe(a, b) && LexLe(b, a)
    ensures a == b
    decreases |a|
  {
    if |a| > 0 {
      LexLeAntisymmetric(a[1..], b[1..]);
      assert a == [a[0]] + a[1..] && b == [b[0]] + b[1..];
    }
  }

  lemma {:induction false} LexLeTransitive(a: string, b: string, c: string)
    requires LexLe(a, b) && LexLe(b, c)
    ensures LexLe(a, c)
    decreases |a|
  {
    if |a| > 0 && a[0] == b[0] && b[0] == c[0] {
      LexLeTransitive(a[1..], b[1..], c[1..]);
    }
  }

  /** Ascending order of a nullable TEXT column: NULLs first. */
  predicate TextLe(a: Text, b: Text) {
    a.None? || (b.Some? && LexLe(a.value, b.value))
  }

  lemma TextLeTotal(a: Text, b: Text)
    ensures TextLe(a, b) || TextLe(b, a)
  {
    if a.Some? && b.Some? {
      LexLeTotal(a.value, b.value);
    }
  }

  lemma TextLeAntisymmetric(a: Text, b: Text)
    requires TextLe(a, b) && TextLe(b, a)
    ensures a == b
  {
    if a.Some? {
      LexLeAntisymmetric(a.value, b.value);
    }
  }

  lemma TextLeTransitive(a: Text, b: Text, c: Text)
    requires TextLe(a, b) && TextLe(b, c)
    ensures TextLe(a, c)
  {
    if a.Some? {
      LexLeTransitive(a.value, b.value, c.value);
    }
  }

  /** The values of the `ORDER BY` columns of one row, most significant first. */
  type SortKey = seq<Text>

  /** `ORDER BY c1, c2, ...`: compare on the first column, and on the next
      one only when the first are equal. */
  predicate KeyLe(a: SortKey, b: SortKey)
    decreases |a|
  {
    |a| == 0 || (|b| > 0 && (!TextLe(b[0], a[0]) || (a[0] == b[0] && KeyLe(a[1..], b[1..]))))
  }

  lemma {:induction false} KeyLeTotal(a: SortKey, b: SortKey)
    ensures KeyLe(a, b) || KeyLe(b, a)
    decreases |a|
  {
    if |a| > 0 && |b| > 0 {
      if a[0] == b[0] {
        KeyLeTotal(a[1..], b[1..]);
      } else if TextLe(b[0], a[0]) && TextLe(a[0], b[0]) {
        TextLeAntisymmetric(a[0], b[0]);
      }
    }
  }

  lemma {:induction false} KeyLeTransitive(a: SortKey, b: SortKey, c: SortKey)
    requires KeyLe(a, b) && KeyLe(b, c)
    ensures KeyLe(a, c)
    decreases |a|
  {
    if |a| > 0 {
      if a[0] == b[0] && b[0] == c[0] {
        TextLeTotal(a[0], a[0]);
        KeyLeTransitive(a[1..], b[1..], c[1..]);
      } else if a[0] != b[0] && b[0] != c[0] {
        TextLeTotal(a[0], b[0]);
        TextLeTotal(b[0], c[0]);
        if TextLe(c[0], a[0]) {
          TextLeTransitive(b[0], c[0], a[0]);
        }
      }
    }
  }

  /** A one-column key orders exactly as the column does. */
  lemma KeyLeSingle(a: Text, b: Text)
    ensures KeyLe([a], [b]) <==> TextLe(a, b)
  {
    assert [a][1..] == [];
    TextLeTotal(a, b);
    if TextLe(a, b) && TextLe(b, a) {
      TextLeAntisymmetric(a, b);
    }
  }

  /** A two-column key orders on the first column, ties broken by the second. */
  lemma KeyLePair(a1: Text, a2: Text, b1: Text, b2: Text)
    ensures KeyLe([a1, a2], [b1, b2]) <==> !TextLe(b1, a1) || (a1 == b1 && TextLe(a2, b2))
  {
    assert [a1, a2][1..] == [a2] && [b1, b2][1..] == [b2];
    KeyLeSingle(a2, b2);
  }
}
