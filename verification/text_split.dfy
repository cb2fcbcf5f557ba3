/** Python's `str.split(sep)` with an explicit one-character separator,
    which keeps empty pieces, and the `sep.join(parts)` that undoes it. */
module TextSplit {

  function CountChar(s: string, c: char): nat
    decreases |s|
  {
    if |s| == 0 then 0 else (if s[0] == c then 1 else 0) + CountChar(s[1..], c)
  }

  /** `s.split(sep)`: the pieces between separators, one more piece than
      there are separators, none of them containing the separator. */
  function Split(s: string, sep: char): (parts: seq<string>)
    ensures |parts| == CountChar(s, sep) + 1
    ensures forall i :: 0 <= i < |parts| ==> sep !in parts[i]
    decreases |s|
  {
    if |s| == 0 then [""]
    else
      var rest := Split(s[1..], sep);
      if s[0] == sep then [""] + rest
      else [[s[0]] + rest[0]] + rest[1..]
  }

  /** `sep.join(parts)`. */
  function JoinWith(parts: seq<string>, sep: char): string
    requires |parts| >= 1
    decreases |parts|
  {
    if |parts| == 1 then parts[0] else parts[0] + [sep] + JoinWith(parts[1..], sep)
  }

  /** Splitting loses nothing: joining the pieces back gives the string. */
  lemma {:induction false} SplitJoin(s: string, sep: char)
    ensures JoinWith(Split(s, sep), sep) == s
    decreases |s|
  {
    if |s| > 0 {
      var rest := Split(s[1..], sep);
      SplitJoin(s[1..], sep);
      assert s == [s[0]] + s[1..];
      if s[0] == sep {
        SplitJoinSeparator(s[0], rest, sep);
      } else {
        SplitJoinOther(s[0], rest, sep);
      }
    }
  }

  /** A leading separator starts a new, empty first piece. */
  lemma SplitJoinSeparator(c: char, rest: seq<string>, sep: char)
    requires |rest| >= 1 && c == sep
    ensures JoinWith([""] + rest, sep) == [c] + JoinWith(rest, sep)
  {
    assert ([""] + rest)[1..] == rest;
  }

  /** Any other leading character joins the first piece. */
  lemma SplitJoinOther(c: char, rest: seq<string>, sep: char)
    requires |rest| >= 1
    ensures JoinWith([[c] + rest[0]] + rest[1..], sep) == [c] + JoinWith(rest, sep)
  {
    var parts := [[c] + rest[0]] + rest[1..];
    if |rest| > 1 {
      assert parts[1..] == rest[1..];
      calc {
        JoinWith(parts, sep);
        ([c] + rest[0]) + [sep] + JoinWith(rest[1..], sep);
        [c] + (rest[0] + [sep] + JoinWith(rest[1..], sep));
        [c] + JoinWith(rest, sep);
      }
    }
  }

  lemma CountCharAppend(a: string, b: string, c: char)
    ensures CountChar(a + b, c) == CountChar(a, c) + CountChar(b, c)
    decreases |a|
  {
    if |a| == 0 {
      assert a + b == b;
    } else {
      assert (a + b)[0] == a[0] && (a + b)[1..] == a[1..] + b;
      CountCharAppend(a[1..], b, c);
    }
  }

  lemma CountCharAbsent(s: string, c: char)
    requires c !in s
    ensures CountChar(s, c) == 0
    decreases |s|
  {
    if |s| > 0 {
      CountCharAbsent(s[1..], c);
    }
  }
}
