/**
 * Python's `str(int)`, `sep.join(parts)` and `s.split(sep)`, over sequences,
 * with the parsing and joining that undo them.
 */
module Text {

  predicate IsDigit(c: char) { '0' <= c <= '9' }

  function DigitChar(d: nat): (c: char)
    requires d < 10
    ensures IsDigit(c)
  {
    ('0' as int + d) as char
  }

  function DigitValue(c: char): nat { if IsDigit(c) then c as int - '0' as int else 0 }

  /** The decimal digits of a string read as a number. */
  function ParseNat(s: string): nat
  {
    if s == [] then 0 else 10 * ParseNat(s[..|s| - 1]) + DigitValue(s[|s| - 1])
  }

  /** `str(n)` for a non-negative `int`: never empty, only digits, and read back as `n`. */
  function NatToString(n: nat): (s: string)
    ensures |s| >= 1
    ensures forall i | 0 <= i < |s| :: IsDigit(s[i])
    ensures ParseNat(s) == n
    ensures n == 0 || s[0] != '0'
  {
    if n < 10 then [DigitChar(n)]
    else
      var h := NatToString(n / 10);
      assert (h + [DigitChar(n % 10)])[..|h|] == h;
      h + [DigitChar(n % 10)]
  }

  function ParseInt(s: string): int
  {
    if |s| > 0 && s[0] == '-' then var n: int := ParseNat(s[1..]); -n else ParseNat(s)
  }

  /** `str(i)` for any `int`: a minus sign before the digits of a negative value. */
  function IntToString(i: int): (s: string)
    ensures ParseInt(s) == i
  {
    if i < 0 then "-" + NatToString(-i) else NatToString(i)
  }

  /** Pieces that `Split` takes apart again: every one is free of the separator. */
  ghost predicate SeparatorFree<T>(parts: seq<seq<T>>, sep: T)
  {
    forall i | 0 <= i < |parts| :: sep !in parts[i]
  }

  /** `sep.join(parts)`. */
  function Join<T>(parts: seq<seq<T>>, sep: T): (r: seq<T>)
    ensures |parts| > 0 ==> |parts[0]| <= |r| && r[..|parts[0]|] == parts[0]
    ensures |parts| > 1 ==> |parts[0]| < |r| && r[|parts[0]|] == sep
  {
    if parts == [] then []
    else if |parts| == 1 then parts[0]
    else parts[0] + [sep] + Join(parts[1..], sep)
  }

  /** Joining four pieces puts the separator between each neighbouring pair. */
  lemma JoinFour<T>(a: seq<T>, b: seq<T>, c: seq<T>, d: seq<T>, sep: T)
    ensures Join([a, b, c, d], sep) == a + [sep] + b + [sep] + c + [sep] + d
  {
    assert [a, b, c, d][1..] == [b, c, d] && [b, c, d][1..] == [c, d] && [c, d][1..] == [d];
    assert Join([c, d], sep) == c + [sep] + d;
    assert Join([b, c, d], sep) == b + [sep] + (c + [sep] + d);
    assert Join([a, b, c, d], sep) == a + [sep] + (b + [sep] + (c + [sep] + d));
  }

  /** `s.split(sep)`: at least one piece, none holding `sep`, and more than one exactly when `sep` occurs in `s`. */
  function Split<T(==)>(s: seq<T>, sep: T): (parts: seq<seq<T>>)
    ensures |parts| >= 1
    ensures SeparatorFree(parts, sep)
    ensures |parts| >= 2 <==> sep in s
  {
    if s == [] then [[]]
    else
      var rest := Split(s[1..], sep);
      assert sep in s <==> s[0] == sep || sep in s[1..];
      if s[0] == sep then [[]] + rest
      else [[s[0]] + rest[0]] + rest[1..]
  }

  /** Joining the pieces of a split gives back the original. */
  lemma {:induction false} JoinSplit<T>(s: seq<T>, sep: T)
    ensures Join(Split(s, sep), sep) == s
  {
    if s != [] {
      var rest := Split(s[1..], sep);
      JoinSplit(s[1..], sep);
      if s[0] == sep {
        assert ([[]] + rest)[1..] == rest;
      } else if |rest| > 1 {
        var parts := [[s[0]] + rest[0]] + rest[1..];
        assert parts[1..] == rest[1..];
        assert Join(rest, sep) == rest[0] + [sep] + Join(rest[1..], sep);
      }
    }
  }

  lemma {:induction false} SplitNoSeparator<T>(t: seq<T>, sep: T)
    requires sep !in t
    ensures Split(t, sep) == [t]
  {
    if t != [] {
      SplitNoSeparator(t[1..], sep);
      assert t[0] != sep && [t[0]] + t[1..] == t;
    }
  }

  lemma {:induction false} SplitAtSeparator<T>(t: seq<T>, u: seq<T>, sep: T)
    requires sep !in t
    ensures Split(t + [sep] + u, sep) == [t] + Split(u, sep)
  {
    var s := t + [sep] + u;
    if t == [] {
      assert s[1..] == u;
    } else {
      assert s[1..] == t[1..] + [sep] + u;
      SplitAtSeparator(t[1..], u, sep);
      assert [t[0]] + t[1..] == t;
    }
  }

  /** Splitting separator-free pieces joined by the separator gives back the pieces. */
  lemma {:induction false} SplitJoin<T>(parts: seq<seq<T>>, sep: T)
    requires |parts| >= 1 && SeparatorFree(parts, sep)
    ensures Split(Join(parts, sep), sep) == parts
  {
    if |parts| == 1 {
      SplitNoSeparator(parts[0], sep);
    } else {
      assert SeparatorFree(parts[1..], sep) by {
        forall i | 0 <= i < |parts| - 1 ensures sep !in parts[1..][i] {
          assert parts[1..][i] == parts[i + 1];
        }
      }
      SplitJoin(parts[1..], sep);
      SplitAtSeparator(parts[0], Join(parts[1..], sep), sep);
      assert [parts[0]] + parts[1..] == parts;
    }
  }

  /**
   * `piece` is what lies between the first occurrence of `sep` in `s` and the
   * next one (or the end), as `s.split(sep)[1]` selects it.
   */
  ghost predicate IsSecondPiece<T>(s: seq<T>, sep: T, piece: seq<T>)
  {
    var first := Split(s, sep)[0]; var n := |first| + 1 + |piece|;
    n <= |s| && s[..n] == first + [sep] + piece && (n == |s| || s[n] == sep) &&
    sep !in first && sep !in piece
  }

  lemma SecondPiece<T>(s: seq<T>, sep: T)
    requires |Split(s, sep)| >= 2
    ensures IsSecondPiece(s, sep, Split(s, sep)[1])
  {
    var p := Split(s, sep);
    JoinSplit(s, sep);
    if |p| == 2 {
      assert Join(p, sep) == p[0] + [sep] + p[1];
    } else {
      assert p[1..][1..] == p[2..];
      assert Join(p[1..], sep) == p[1] + [sep] + Join(p[2..], sep);
      assert s == p[0] + [sep] + p[1] + ([sep] + Join(p[2..], sep));
    }
  }
}
