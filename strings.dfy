/** The java.lang.String operations the codec relies on, over `seq<char>`. */
module Strings {

  /** ASCIICharSequence.isAscii: every character is below 128. */
  predicate IsAscii(s: string) {
    forall i :: 0 <= i < |s| ==> s[i] as int < 128
  }

  lemma AsciiConcat(a: string, b: string)
    requires IsAscii(a) && IsAscii(b)
    ensures IsAscii(a + b)
  {
    forall i | 0 <= i < |a + b|
      ensures (a + b)[i] as int < 128
    {
      if i >= |a| {
        assert (a + b)[i] == b[i - |a|];
      }
    }
  }

  /** String.startsWith. */
  predicate StartsWith(prefix: string, s: string) {
    |prefix| <= |s| && s[..|prefix|] == prefix
  }

  /** String.contains. */
  predicate Contains(s: string, sub: string)
    decreases |s|
  {
    StartsWith(sub, s) || (|s| > 0 && Contains(s[1..], sub))
  }

  /** `sub` occurs in `s` exactly when some slice of `s` is `sub`. */
  lemma {:induction false} ContainsSlice(s: string, sub: string, k: nat)
    requires k + |sub| <= |s| && s[k..k + |sub|] == sub
    ensures Contains(s, sub)
    decreases k
  {
    if k > 0 {
      assert s[1..][k - 1..k - 1 + |sub|] == s[k..k + |sub|];
      ContainsSlice(s[1..], sub, k - 1);
    }
  }

  /** A text contains each of its infixes. */
  lemma ContainsInfix(a: string, b: string, c: string)
    ensures Contains(a + b + c, b)
  {
    assert (a + b + c)[|a|..|a| + |b|] == b;
    ContainsSlice(a + b + c, b, |a|);
  }

  /** A text contains its prefixes. */
  lemma ContainsPrefix(b: string, c: string)
    ensures Contains(b + c, b)
  {
    assert "" + b + c == b + c;
    ContainsInfix("", b, c);
  }

  /** Text appended after an occurrence keeps it. */
  lemma {:induction false} ContainsExtend(s: string, sub: string, x: string)
    requires Contains(s, sub)
    ensures Contains(s + x, sub)
    decreases |s|
  {
    if StartsWith(sub, s) {
      assert (s + x)[..|sub|] == s[..|sub|];
    } else {
      assert (s + x)[1..] == s[1..] + x;
      ContainsExtend(s[1..], sub, x);
    }
  }

  /**
   * String.compareTo: the difference of the first pair of differing
   * characters, or else the difference of the lengths. Characters are
   * compared as code points, not as UTF-16 code units.
   */
  function Compare(a: string, b: string): (r: int)
    ensures r == 0 <==> a == b
  {
    if a == [] || b == [] then |a| - |b|
    else if a[0] != b[0] then a[0] as int - b[0] as int
    else
      var r := Compare(a[1..], b[1..]);
      assert a == [a[0]] + a[1..] && b == [b[0]] + b[1..];
      r
  }

  /** Swapping the arguments negates the result. */
  lemma {:induction false} CompareAntisymmetric(a: string, b: string)
    ensures Compare(a, b) == -Compare(b, a)
  {
    if a != [] && b != [] && a[0] == b[0] {
      CompareAntisymmetric(a[1..], b[1..]);
    }
  }

  /** "At most" under Compare is transitive. */
  lemma {:induction false} CompareTransitive(a: string, b: string, c: string)
    requires Compare(a, b) <= 0 && Compare(b, c) <= 0
    ensures Compare(a, c) <= 0
  {
    if a != [] && b != [] && c != [] && a[0] == b[0] && b[0] == c[0] {
      CompareTransitive(a[1..], b[1..], c[1..]);
    }
  }

  /** A proper prefix sorts first. */
  lemma {:induction false} ComparePrefix(a: string, b: string)
    requires |a| < |b| && b[..|a|] == a
    ensures Compare(a, b) < 0
  {
    if a != [] {
      assert b[1..][..|a| - 1] == a[1..];
      ComparePrefix(a[1..], b[1..]);
    }
  }

  /**
   * `xs` joined with `sep` between consecutive elements (String.join),
   * built from the end as the StringBuilder loops build it.
   */
  function Join(xs: seq<string>, sep: string): string {
    if xs == [] then ""
    else if |xs| == 1 then xs[0]
    else Join(xs[..|xs| - 1], sep) + sep + xs[|xs| - 1]
  }

  /** Every element followed by `sep`: what a loop appending `x + sep` builds. */
  function Terminated(xs: seq<string>, sep: string): string {
    if xs == [] then "" else Terminated(xs[..|xs| - 1], sep) + xs[|xs| - 1] + sep
  }

  /** Appending the elements but the last with a separator, then the last, is the join. */
  lemma {:induction false} JoinByTerminated(xs: seq<string>, sep: string)
    requires xs != []
    ensures Join(xs, sep) == Terminated(xs[..|xs| - 1], sep) + xs[|xs| - 1]
  {
    if |xs| > 1 {
      var init := xs[..|xs| - 1];
      JoinByTerminated(init, sep);
      assert init[..|init| - 1] == xs[..|xs| - 2];
    }
  }

  lemma {:induction false} JoinAscii(xs: seq<string>, sep: string)
    requires IsAscii(sep) && forall i :: 0 <= i < |xs| ==> IsAscii(xs[i])
    ensures IsAscii(Join(xs, sep))
  {
    if |xs| > 1 {
      JoinAscii(xs[..|xs| - 1], sep);
      AsciiConcat(Join(xs[..|xs| - 1], sep), sep);
      AsciiConcat(Join(xs[..|xs| - 1], sep) + sep, xs[|xs| - 1]);
    }
  }

  /** The pieces of `s` between occurrences of `sep`: one more than there are separators. */
  function Pieces(s: string, sep: char): (r: seq<string>)
    ensures |r| >= 1
  {
    if s == [] then [""]
    else
      var rest := Pieces(s[1..], sep);
      if s[0] == sep then [""] + rest else [[s[0]] + rest[0]] + rest[1..]
  }

  /** Splitting and re-joining gives the text back. */
  lemma {:induction false} PiecesJoin(s: string, sep: char)
    ensures Join(Pieces(s, sep), [sep]) == s
  {
    if s != [] {
      PiecesJoin(s[1..], sep);
      PiecesJoinStep(s, sep);
      assert s == [s[0]] + s[1..];
    }
  }

  /** Re-joining the pieces of `s` is its first character before re-joining the rest's pieces. */
  lemma PiecesJoinStep(s: string, sep: char)
    requires s != []
    ensures Join(Pieces(s, sep), [sep]) == [s[0]] + Join(Pieces(s[1..], sep), [sep])
  {
    var rest := Pieces(s[1..], sep);
    if s[0] == sep {
      assert Pieces(s, sep) == [""] + rest;
      JoinAfterEmpty(rest, sep);
    } else {
      assert Pieces(s, sep) == [[s[0]] + rest[0]] + rest[1..];
      JoinOntoHead(s[0], rest, sep);
    }
  }

  lemma JoinAfterEmpty(rest: seq<string>, sep: char)
    requires rest != []
    ensures Join([""] + rest, [sep]) == [sep] + Join(rest, [sep])
  {
    JoinCons("", rest, [sep]);
    assert "" + [sep] == [sep];
  }

  lemma JoinOntoHead(ch: char, rest: seq<string>, sep: char)
    requires rest != []
    ensures Join([[ch] + rest[0]] + rest[1..], [sep]) == [ch] + Join(rest, [sep])
  {
    var head := [ch] + rest[0];
    if |rest| == 1 {
      assert [head] + rest[1..] == [head];
    } else {
      var tail := Join(rest[1..], [sep]);
      assert [rest[0]] + rest[1..] == rest;
      JoinCons(rest[0], rest[1..], [sep]);
      JoinCons(head, rest[1..], [sep]);
      assert head + [sep] + tail == [ch] + (rest[0] + [sep] + tail);
    }
  }

  /** No piece holds the separator. */
  lemma {:induction false} PiecesFree(s: string, sep: char)
    ensures forall i :: 0 <= i < |Pieces(s, sep)| ==> sep !in Pieces(s, sep)[i]
  {
    if s != [] {
      var rest := Pieces(s[1..], sep);
      PiecesFree(s[1..], sep);
      if s[0] != sep {
        var head := [s[0]] + rest[0];
        assert Pieces(s, sep) == [head] + rest[1..];
        forall i | 0 <= i < |Pieces(s, sep)|
          ensures sep !in Pieces(s, sep)[i]
        {
          if i > 0 {
            assert Pieces(s, sep)[i] == rest[i];
          }
        }
      }
    }
  }

  /** Join from the front: the first element, the separator, then the join of the rest. */
  lemma {:induction false} JoinCons(x: string, xs: seq<string>, sep: string)
    requires xs != []
    ensures Join([x] + xs, sep) == x + sep + Join(xs, sep)
    decreases |xs|
  {
    var ys := [x] + xs;
    if |xs| > 1 {
      assert ys[..|ys| - 1] == [x] + xs[..|xs| - 1];
      JoinCons(x, xs[..|xs| - 1], sep);
    } else {
      assert ys[..|ys| - 1] == [x];
    }
  }

  /** Text without the separator is a single piece. */
  lemma {:induction false} PiecesNoSeparator(s: string, sep: char)
    requires sep !in s
    ensures Pieces(s, sep) == [s]
  {
    if s != [] {
      PiecesNoSeparator(s[1..], sep);
      assert [s[0]] + s[1..] == s;
    }
  }

  /** A separator-free head followed by the separator splits off as the first piece. */
  lemma {:induction false} PiecesHead(a: string, sep: char, b: string)
    requires sep !in a
    ensures Pieces(a + [sep] + b, sep) == [a] + Pieces(b, sep)
  {
    if a != [] {
      assert (a + [sep] + b)[1..] == a[1..] + [sep] + b;
      PiecesHead(a[1..], sep, b);
      assert [a[0]] + a[1..] == a;
    } else {
      assert a + [sep] + b == [sep] + b;
      assert ([sep] + b)[1..] == b;
    }
  }

  /** Trailing empty strings removed, as String.split with limit 0 does. */
  function DropTrailingEmpty(xs: seq<string>): (r: seq<string>)
    ensures |r| <= |xs| && r == xs[..|r|]
    ensures r != [] ==> r[|r| - 1] != ""
  {
    if xs == [] then []
    else if xs[|xs| - 1] == "" then DropTrailingEmpty(xs[..|xs| - 1])
    else xs
  }

  /**
   * String.split around a single, non-special character: the text itself when
   * the separator does not occur, otherwise its pieces without trailing empty ones.
   */
  function Split(s: string, sep: char): (r: seq<string>)
  {
    if sep !in s then [s] else DropTrailingEmpty(Pieces(s, sep))
  }

  /** A separator-free head and a non-empty separator-free tail split into exactly those two. */
  lemma SplitTwo(a: string, sep: char, b: string)
    requires sep !in a && sep !in b && b != ""
    ensures Split(a + [sep] + b, sep) == [a, b]
  {
    assert (a + [sep] + b)[|a|] == sep;
    PiecesHead(a, sep, b);
    PiecesNoSeparator(b, sep);
  }

  /** A separator-free text splits into itself alone. */
  lemma SplitNone(a: string, sep: char)
    requires sep !in a
    ensures Split(a, sep) == [a]
  {
  }

  /** Java `int` arithmetic: the value modulo 2^32, read as a signed 32-bit number. */
  function Wrap32(x: int): (r: int)
    ensures -0x8000_0000 <= r < 0x8000_0000
  {
    (x + 0x8000_0000) % 0x1_0000_0000 - 0x8000_0000
  }

  /** String.hashCode: s[0]*31^(n-1) + ... + s[n-1], in `int` arithmetic. */
  function Hash(s: string): int {
    if s == [] then 0 else Wrap32(31 * Hash(s[..|s| - 1]) + s[|s| - 1] as int)
  }
}
