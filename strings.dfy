/**
 * What the identifier codec uses of Go strings: `strings.Index` (for a
 * one-character separator), `strings.Compare` and `len`. A Go string is the
 * UTF-8 encoding of its characters. Slicing at a separator found by `Index`
 * gives the same pieces whether positions count bytes or characters, and
 * UTF-8 orders byte strings as it orders their characters by code point, so
 * `Index` and `Compare` work on characters here; `len` counts bytes and is
 * `ByteLength`.
 */
module Strings {

  /** `strings.Index(s, string(c))`: the position of the first `c` in `s`, or -1 when there is none. */
  function Index(s: string, c: char): (r: int)
    ensures r == -1 <==> c !in s
    ensures r != -1 ==> 0 <= r < |s| && s[r] == c && c !in s[..r]
  {
    if s == [] then -1
    else if s[0] == c then 0
    else
      var i := Index(s[1..], c);
      if i == -1 then -1
      else
        assert s[..i + 1] == [s[0]] + s[1..][..i];
        i + 1
  }

  /** The number of bytes UTF-8 spends on `c`. */
  function Utf8Size(c: char): (n: nat)
    ensures 1 <= n <= 4
    ensures n == 1 <==> c as int < 0x80
  {
    if c as int < 0x80 then 1
    else if c as int < 0x800 then 2
    else if c as int < 0x1_0000 then 3
    else 4
  }

  /** `len(s)`: the length in bytes of the UTF-8 encoding of `s`. */
  function ByteLength(s: string): (n: nat)
    ensures |s| <= n <= 4 * |s|
  {
    if s == [] then 0 else ByteLength(s[..|s| - 1]) + Utf8Size(s[|s| - 1])
  }

  /** Every character of `s` is ASCII, so it takes one byte. */
  predicate Ascii(s: string)
  {
    forall i | 0 <= i < |s| :: s[i] as int < 0x80
  }

  /** Appending a character adds its UTF-8 size. */
  lemma ByteLengthSnoc(s: string, c: char)
    ensures ByteLength(s + [c]) == ByteLength(s) + Utf8Size(c)
  {
    assert (s + [c])[..|s|] == s;
  }

  /** A string has as many bytes as characters exactly when it is ASCII. */
  lemma {:induction false} ByteLengthAscii(s: string)
    ensures ByteLength(s) == |s| <==> Ascii(s)
  {
    if s != [] {
      var init := s[..|s| - 1];
      ByteLengthAscii(init);
      assert Ascii(s) <==> Ascii(init) && s[|s| - 1] as int < 0x80 by {
        assert forall i | 0 <= i < |init| :: init[i] == s[i];
      }
    }
  }

  /** The first `c` is at `k` when `s[k]` is `c` and no `c` comes before it. */
  lemma {:induction false} IndexAt(s: string, c: char, k: nat)
    requires k < |s| && s[k] == c && c !in s[..k]
    ensures Index(s, c) == k
  {
    if k > 0 {
      assert s[0] == s[..k][0];
      assert s[1..][..k - 1] == s[..k][1..];
      IndexAt(s[1..], c, k - 1);
    }
  }

  /**
   * `strings.Compare(a, b)`: -1, 0 or 1 as `a` sorts before, equal to or after
   * `b`, character by character, which for valid UTF-8 is Go's byte order.
   */
  function Compare(a: string, b: string): (r: int)
    ensures r == -1 || r == 0 || r == 1
    ensures r == 0 <==> a == b
  {
    if a == [] then (if b == [] then 0 else -1)
    else if b == [] then 1
    else if a[0] < b[0] then -1
    else if a[0] > b[0] then 1
    else
      assert a == [a[0]] + a[1..] && b == [b[0]] + b[1..];
      Compare(a[1..], b[1..])
  }

  /**
   * Lexicographic order: `a` comes before `b` when, after a common leading
   * part of length `k`, either `a` ends and `b` goes on, or `a`'s next
   * character is the smaller one.
   */
  predicate LexLess(a: string, b: string)
  {
    exists k :: 0 <= k <= |a| && k <= |b| && a[..k] == b[..k] &&
      ((k == |a| && k < |b|) || (k < |a| && k < |b| && a[k] < b[k]))
  }

  /** `Compare` says "before" exactly for the lexicographic order. */
  lemma {:induction false} CompareLex(a: string, b: string)
    ensures Compare(a, b) == -1 <==> LexLess(a, b)
  {
    if a == [] || b == [] {
      LexLessEmpty(a, b);
    } else if a[0] != b[0] {
      LexLessHead(a, b);
    } else {
      CompareLex(a[1..], b[1..]);
      if LexLess(a, b) {
        LexLessTail(a, b);
      }
      if LexLess(a[1..], b[1..]) {
        LexLessCons(a, b);
      }
    }
  }

  lemma LexLessEmpty(a: string, b: string)
    requires a == [] || b == []
    ensures LexLess(a, b) <==> a == [] && b != []
  {
    if a == [] && b != [] {
      assert a[..0] == b[..0];
    }
  }

  /** When the first characters differ, they decide. */
  lemma LexLessHead(a: string, b: string)
    requires a != [] && b != [] && a[0] != b[0]
    ensures LexLess(a, b) <==> a[0] < b[0]
  {
    if a[0] < b[0] {
      assert a[..0] == b[..0];
    }
    // A common leading part of positive length would share the first character.
    assert forall k | 0 < k <= |a| && k <= |b| :: a[..k][0] == a[0] && b[..k][0] == b[0];
  }

  /** With equal first characters, a witness for the strings gives one for their tails. */
  lemma LexLessTail(a: string, b: string)
    requires a != [] && b != [] && a[0] == b[0] && LexLess(a, b)
    ensures LexLess(a[1..], b[1..])
  {
    var k :| 0 <= k <= |a| && k <= |b| && a[..k] == b[..k] &&
      ((k == |a| && k < |b|) || (k < |a| && k < |b| && a[k] < b[k]));
    assert k > 0;
    assert a[1..][..k - 1] == a[..k][1..] && b[1..][..k - 1] == b[..k][1..];
  }

  /** With equal first characters, a witness for the tails gives one for the strings. */
  lemma LexLessCons(a: string, b: string)
    requires a != [] && b != [] && a[0] == b[0] && LexLess(a[1..], b[1..])
    ensures LexLess(a, b)
  {
    var x, y := a[1..], b[1..];
    var j :| 0 <= j <= |x| && j <= |y| && x[..j] == y[..j] &&
      ((j == |x| && j < |y|) || (j < |x| && j < |y| && x[j] < y[j]));
    assert a[..j + 1] == [a[0]] + x[..j];
    assert b[..j + 1] == [b[0]] + y[..j];
  }

  /** Swapping the operands negates the result. */
  lemma {:induction false} CompareAntisymmetric(a: string, b: string)
    ensures Compare(a, b) == -Compare(b, a)
  {
    if a != [] && b != [] && a[0] == b[0] {
      CompareAntisymmetric(a[1..], b[1..]);
    }
  }

  /** The order `Compare` defines is transitive. */
  lemma {:induction false} CompareTransitive(a: string, b: string, c: string)
    requires Compare(a, b) == -1 && Compare(b, c) == -1
    ensures Compare(a, c) == -1
  {
    if a != [] && b != [] && c != [] && a[0] == b[0] && b[0] == c[0] {
      CompareTransitive(a[1..], b[1..], c[1..]);
    }
  }

  /** A common leading part does not affect the comparison. */
  lemma {:induction false} CompareCommonPrefix(p: string, a: string, b: string)
    ensures Compare(p + a, p + b) == Compare(a, b)
  {
    if p == [] {
      assert p + a == a && p + b == b;
    } else {
      assert (p + a)[1..] == p[1..] + a;
      assert (p + b)[1..] == p[1..] + b;
      CompareCommonPrefix(p[1..], a, b);
    }
  }

  /**
   * Two strings of equal length, each followed by one more character, compare
   * as the strings do unless these are equal; then the last characters decide.
   */
  lemma {:induction false} CompareSnoc(x: string, y: string, c: char, d: char)
    requires |x| == |y|
    ensures Compare(x + [c], y + [d]) == if x != y then Compare(x, y) else Compare([c], [d])
  {
    if x == [] {
      assert x + [c] == [c] && y + [d] == [d];
    } else {
      assert (x + [c])[1..] == x[1..] + [c];
      assert (y + [d])[1..] == y[1..] + [d];
      if x[0] == y[0] {
        assert x != y <==> x[1..] != y[1..] by {
          assert x == [x[0]] + x[1..] && y == [y[0]] + y[1..];
        }
        CompareSnoc(x[1..], y[1..], c, d);
      }
    }
  }
}
