/**
 * The part of the ULID format that the identifier codec relies on, written
 * after the ULID specification ("Canonical String Representation" and
 * "Overflow Errors when Parsing Base32 Strings"): a ULID is a 128-bit number,
 * a 48-bit millisecond timestamp above 80 bits of entropy, written as 26
 * characters of Crockford's Base32, most significant first. 26 characters
 * carry 130 bits, so a text whose first character is above '7' does not fit.
 */
module Ulid {
  import opened Wrappers
  import Strings

  /** Length of the text form. */
  const EncodedSize := 26
  /** Crockford's Base32 alphabet as ULIDs are written: digits and upper-case letters without I, L, O and U. */
  const Encoding := "0123456789ABCDEFGHJKMNPQRSTVWXYZ"

  const TimeLimit := 0x1_0000_0000_0000                              // 2^48
  const EntropyLimit := 0x1_0000_0000_0000_0000_0000                 // 2^80
  const Limit := 0x1_0000_0000_0000_0000_0000_0000_0000_0000         // 2^128

  type ULID = n: nat | n < Limit
  type Timestamp = n: nat | n < TimeLimit
  type Entropy = n: nat | n < EntropyLimit

  /** The millisecond timestamp held in the high 48 bits. */
  function Time(u: ULID): Timestamp
  {
    u / EntropyLimit
  }

  /** The 80 entropy bits held in the low bits. */
  function EntropyOf(u: ULID): Entropy
  {
    u % EntropyLimit
  }

  /** `ulid.New(ms, entropy)` once the entropy reader has delivered its 80 bits. */
  function New(ms: Timestamp, entropy: Entropy): (u: ULID)
    ensures Time(u) == ms && EntropyOf(u) == entropy
  {
    ms * EntropyLimit + entropy
  }

  /** A ULID is determined by its timestamp and its entropy. */
  lemma NewOfParts(u: ULID)
    ensures New(Time(u), EntropyOf(u)) == u
  {
  }

  /** A ULID with an earlier timestamp is the smaller number, whatever the entropy. */
  lemma EarlierIsSmaller(u: ULID, v: ULID)
    requires Time(u) < Time(v)
    ensures u < v
  {
  }

  function Pow32(n: nat): (r: nat)
    ensures r > 0
  {
    if n == 0 then 1 else 32 * Pow32(n - 1)
  }

  /**
   * The library's decoding table: the 5-bit value of a character, or -1 where
   * the table holds its "invalid" sentinel. Letters count in either case;
   * I, L, O and U, in either case, are invalid.
   */
  function Digit(c: char): (d: int)
    ensures -1 <= d < 32
  {
    if '0' <= c <= '9' then c as int - '0' as int
    else if 'A' <= c <= 'H' then c as int - 'A' as int + 10
    else if 'J' <= c <= 'K' then c as int - 'J' as int + 18
    else if 'M' <= c <= 'N' then c as int - 'M' as int + 20
    else if 'P' <= c <= 'T' then c as int - 'P' as int + 22
    else if 'V' <= c <= 'Z' then c as int - 'V' as int + 27
    else if 'a' <= c <= 'h' then c as int - 'a' as int + 10
    else if 'j' <= c <= 'k' then c as int - 'j' as int + 18
    else if 'm' <= c <= 'n' then c as int - 'm' as int + 20
    else if 'p' <= c <= 't' then c as int - 'p' as int + 22
    else if 'v' <= c <= 'z' then c as int - 'v' as int + 27
    else -1
  }

  /**
   * The strict parser's character check: `c` is a digit or letter of the
   * Crockford Base32 alphabet, in either case (`Base32Alphabet`). Such a
   * character is ASCII, one byte.
   */
  predicate IsBase32(c: char)
    ensures IsBase32(c) ==> c as int < 0x80
  {
    Digit(c) != -1
  }

  predicate AllBase32(s: string)
  {
    forall i | 0 <= i < |s| :: IsBase32(s[i])
  }

  /** A Base32 text takes one byte per character. */
  lemma Base32Bytes(s: string)
    requires AllBase32(s)
    ensures Strings.Ascii(s) && Strings.ByteLength(s) == |s|
  {
    Strings.ByteLengthAscii(s);
  }

  function Upper(c: char): char
  {
    if 'a' <= c <= 'z' then (c as int - 'a' as int + 'A' as int) as char else c
  }

  function Upcase(s: string): (r: string)
  {
    seq(|s|, i requires 0 <= i < |s| => Upper(s[i]))
  }

  /** `s` is written as `String` writes: Base32 characters, upper case only. */
  predicate Canonical(s: string)
  {
    forall i | 0 <= i < |s| :: IsBase32(s[i]) && Upper(s[i]) == s[i]
  }

  /** The character written for a 5-bit value. */
  function Symbol(d: nat): char
    requires d < 32
  {
    if d < 10 then ('0' as int + d) as char
    else if d < 18 then ('A' as int + d - 10) as char
    else if d < 20 then ('J' as int + d - 18) as char
    else if d < 22 then ('M' as int + d - 20) as char
    else if d < 27 then ('P' as int + d - 22) as char
    else ('V' as int + d - 27) as char
  }

  /** `Symbol` spells out the alphabet: the symbol for `d` is the `d`-th letter of `Encoding`. */
  lemma SymbolIsEncoding(d: nat)
    requires d < 32
    ensures Symbol(d) == Encoding[d]
  {
  }

  /** Each symbol is an upper-case character whose value is the value it was written for. */
  lemma SymbolDigit(d: nat)
    requires d < 32
    ensures Digit(Symbol(d)) == d && Upper(Symbol(d)) == Symbol(d)
  {
  }

  /** Writing a character's value back gives the character, in upper case. */
  lemma SymbolOfDigit(c: char)
    requires IsBase32(c)
    ensures Symbol(Digit(c)) == Upper(c)
  {
    UpperKeepsDigit(c);
    SymbolDigit(Digit(c));
    DigitInjective(Symbol(Digit(c)), Upper(c));
  }

  lemma UpperKeepsDigit(c: char)
    ensures Digit(Upper(c)) == Digit(c) && Upper(Upper(c)) == Upper(c)
  {
  }

  /** Distinct upper-case Base32 characters have distinct values. */
  lemma DigitInjective(a: char, b: char)
    requires IsBase32(a) && IsBase32(b) && Upper(a) == a && Upper(b) == b
    requires Digit(a) == Digit(b)
    ensures a == b
  {
  }

  /** The characters the parser accepts are exactly those whose upper-case form is in the alphabet. */
  lemma Base32Alphabet(c: char)
    ensures IsBase32(c) <==> Upper(c) in Encoding
  {
    if IsBase32(c) {
      SymbolOfDigit(c);
      SymbolIsEncoding(Digit(c));
    }
    if Upper(c) in Encoding {
      var i :| 0 <= i < |Encoding| && Encoding[i] == Upper(c);
      SymbolIsEncoding(i);
      SymbolDigit(i);
      UpperKeepsDigit(c);
    }
  }

  /** The alphabet is in ascending character order, so the order of values is the order of symbols. */
  lemma SymbolOrdered(d: nat, e: nat)
    requires d < e < 32
    ensures Symbol(d) < Symbol(e)
  {
    SymbolDigit(d);
    SymbolDigit(e);
  }

  /** The number a string of Base32 digits stands for, most significant digit first. */
  function ValueOf(s: string): nat
    requires AllBase32(s)
  {
    if s == [] then 0 else ValueOf(s[..|s| - 1]) * 32 + Digit(s[|s| - 1])
  }

  /** `n` digits stand for a number below 32^n. */
  lemma {:induction false} ValueBound(s: string)
    requires AllBase32(s)
    ensures ValueOf(s) < Pow32(|s|)
  {
    if s != [] {
      ValueBound(s[..|s| - 1]);
    }
  }

  /** The last `n` Base32 digits of `v`, most significant first; higher digits are dropped. */
  function EncodeN(v: nat, n: nat): (s: string)
    ensures |s| == n
  {
    if n == 0 then [] else EncodeN(v / 32, n - 1) + [Symbol(v % 32)]
  }

  /** What `EncodeN` writes is canonical. */
  lemma {:induction false} EncodeNCanonical(v: nat, n: nat)
    ensures Canonical(EncodeN(v, n))
  {
    if n > 0 {
      EncodeNCanonical(v / 32, n - 1);
      SymbolDigit(v % 32);
    }
  }

  /** `ULID.String()`: the 26-character canonical text. */
  function Encode(u: ULID): (s: string)
    ensures |s| == EncodedSize && Canonical(s)
  {
    EncodeNCanonical(u, EncodedSize);
    EncodeN(u, EncodedSize)
  }

  /** Reading back the digits written for `v` gives `v`. */
  lemma {:induction false} DecodeEncode(v: nat, n: nat)
    requires v < Pow32(n)
    ensures AllBase32(EncodeN(v, n)) && ValueOf(EncodeN(v, n)) == v
  {
    EncodeNCanonical(v, n);
    if n > 0 {
      DecodeEncode(v / 32, n - 1);
      SymbolDigit(v % 32);
      assert EncodeN(v, n)[..n - 1] == EncodeN(v / 32, n - 1);
    }
  }

  /** Writing the value of a Base32 text gives the text back, in upper case. */
  lemma {:induction false} EncodeDecode(s: string)
    requires AllBase32(s)
    ensures EncodeN(ValueOf(s), |s|) == Upcase(s)
  {
    if s != [] {
      var init, last := s[..|s| - 1], s[|s| - 1];
      assert AllBase32(init) && IsBase32(last);
      var a, d := ValueOf(init), Digit(last);
      assert ValueOf(s) == a * 32 + d;
      EncodeDecode(init);
      EncodeStep(ValueOf(s), a, d, |init|);
      SymbolOfDigit(last);
      UpcaseSnoc(s);
    }
  }

  lemma UpcaseSnoc(s: string)
    requires s != []
    ensures Upcase(s) == Upcase(s[..|s| - 1]) + [Upper(s[|s| - 1])]
  {
  }

  lemma CanonicalUpcase(s: string)
    requires Canonical(s)
    ensures Upcase(s) == s
  {
  }

  /** The value of a concatenation: the digits of `y` below those of `x`. */
  lemma AllBase32Concat(x: string, y: string)
    requires AllBase32(x) && AllBase32(y)
    ensures AllBase32(x + y)
  {
    assert forall i | 0 <= i < |x + y| :: (x + y)[i] == if i < |x| then x[i] else y[i - |x|];
  }

  /** Writing one more digit: the text of `a * 32 + d` is the text of `a` followed by the symbol for `d`. */
  lemma EncodeStep(v: nat, a: nat, d: nat, n: nat)
    requires d < 32 && v == a * 32 + d
    ensures EncodeN(v, n + 1) == EncodeN(a, n) + [Symbol(d)]
  {
    DivMod32(a, d);
  }

  lemma DivMod32(a: nat, d: nat)
    requires d < 32
    ensures (a * 32 + d) / 32 == a && (a * 32 + d) % 32 == d
  {
  }

  lemma ShiftDigit(a: nat, p: nat, b: nat, d: int)
    ensures (a * p + b) * 32 + d == a * (32 * p) + (b * 32 + d)
  {
  }

  lemma {:induction false} ValueConcat(x: string, y: string)
    requires AllBase32(x) && AllBase32(y)
    ensures AllBase32(x + y) && ValueOf(x + y) == ValueOf(x) * Pow32(|y|) + ValueOf(y)
  {
    AllBase32Concat(x, y);
    if y == [] {
      assert x + y == x;
    } else {
      var init, last := y[..|y| - 1], y[|y| - 1];
      assert (x + y)[..|x + y| - 1] == x + init;
      ValueConcat(x, init);
      ShiftDigit(ValueOf(x), Pow32(|init|), ValueOf(init), Digit(last));
    }
  }

  /** Writing `v`, which is `a` above `m` digits of `b`, is writing each of them and concatenating. */
  lemma EncodeConcat(v: nat, a: nat, b: nat, n: nat, m: nat)
    requires a < Pow32(n) && b < Pow32(m) && v == a * Pow32(m) + b
    ensures EncodeN(v, n + m) == EncodeN(a, n) + EncodeN(b, m)
  {
    var x, y := EncodeN(a, n), EncodeN(b, m);
    assert Canonical(x) && Canonical(y) by {
      EncodeNCanonical(a, n);
      EncodeNCanonical(b, m);
    }
    assert AllBase32(x) && AllBase32(y) && ValueOf(x) == a && ValueOf(y) == b by {
      DecodeEncode(a, n);
      DecodeEncode(b, m);
    }
    assert ValueOf(x + y) == v by {
      ValueConcat(x, y);
    }
    assert Canonical(x + y) by {
      CanonicalConcat(x, y);
    }
    EncodeCanonical(x + y);
  }

  /** A canonical text is exactly what writing its value produces. */
  lemma EncodeCanonical(s: string)
    requires Canonical(s)
    ensures EncodeN(ValueOf(s), |s|) == s
  {
    EncodeDecode(s);
    CanonicalUpcase(s);
  }

  lemma CanonicalConcat(x: string, y: string)
    requires Canonical(x) && Canonical(y)
    ensures Canonical(x + y)
  {
    assert forall i | 0 <= i < |x + y| :: (x + y)[i] == if i < |x| then x[i] else y[i - |x|];
  }

  /** Fixed-width Base32 text preserves numeric order: a smaller number is written as a string that sorts first. */
  lemma {:induction false} EncodeMonotone(a: nat, b: nat, n: nat)
    requires a < b < Pow32(n)
    ensures Strings.Compare(EncodeN(a, n), EncodeN(b, n)) == -1
  {
    assert n > 0;
    var x, y := EncodeN(a / 32, n - 1), EncodeN(b / 32, n - 1);
    Strings.CompareSnoc(x, y, Symbol(a % 32), Symbol(b % 32));
    if a / 32 < b / 32 {
      EncodeMonotone(a / 32, b / 32, n - 1);
    } else {
      SymbolOrdered(a % 32, b % 32);
    }
  }

  lemma Pow32Facts()
    ensures Pow32(16) == EntropyLimit
    ensures Pow32(10) == 0x4_0000_0000_0000
    ensures Pow32(25) == 0x2000_0000_0000_0000_0000_0000_0000_0000
    ensures Pow32(25) * 8 == Limit
    ensures Pow32(EncodedSize) == Limit * 4
  {
    assert Pow32(4) == 0x10_0000;
    assert Pow32(8) == 0x100_0000_0000 by { PowAdd(4, 4); }
    assert Pow32(16) == EntropyLimit by { PowAdd(8, 8); }
    assert Pow32(24) == 0x100_0000_0000_0000_0000_0000_0000_0000 by { PowAdd(16, 8); }
    assert Pow32(25) == 32 * Pow32(24);
    assert Pow32(10) == 0x4_0000_0000_0000 by { PowAdd(8, 2); }
    assert Pow32(26) == 32 * Pow32(25);
  }

  lemma {:induction false} PowAdd(i: nat, j: nat)
    ensures Pow32(i + j) == Pow32(i) * Pow32(j)
  {
    if j > 0 {
      PowAdd(i, j - 1);
      assert Pow32(i) * Pow32(j) == Pow32(i) * Pow32(j - 1) * 32;
    }
  }

  /** Comparing the canonical texts of two ULIDs is comparing the numbers. */
  lemma EncodeOrder(u: ULID, v: ULID)
    ensures Strings.Compare(Encode(u), Encode(v)) == if u < v then -1 else if u == v then 0 else 1
  {
    Pow32Facts();
    if u < v {
      EncodeMonotone(u, v, EncodedSize);
    } else if v < u {
      EncodeMonotone(v, u, EncodedSize);
      Strings.CompareAntisymmetric(Encode(u), Encode(v));
    }
  }

  /** The canonical text is the timestamp's 10 characters followed by the entropy's 16. */
  lemma EncodeSplit(ms: Timestamp, entropy: Entropy)
    ensures Encode(New(ms, entropy)) == EncodeN(ms, 10) + EncodeN(entropy, 16)
  {
    assert ms < Pow32(10) && entropy < Pow32(16) && New(ms, entropy) == ms * Pow32(16) + entropy by {
      Pow32Facts();
    }
    EncodeConcat(New(ms, entropy), ms, entropy, 10, 16);
  }

  /** The first character of a canonical text is at most '7': the 128 bits leave the top two bits of 130 unused. */
  lemma EncodeFirst(u: ULID)
    ensures Encode(u)[0] <= '7'
  {
    var n := |Encode(u)| - 1;
    var p := Pow32(n);
    assert p == 0x2000_0000_0000_0000_0000_0000_0000_0000 by {
      Pow32Facts();
    }
    var d, r := u / 0x2000_0000_0000_0000_0000_0000_0000_0000, u % 0x2000_0000_0000_0000_0000_0000_0000_0000;
    assert d < 8;
    EncodeCons(u, d, r, n);
    SmallSymbol(d);
  }

  /** Writing a leading digit `d` above `m` digits of `b`. */
  lemma EncodeCons(v: nat, d: nat, b: nat, m: nat)
    requires d < 32 && b < Pow32(m) && v == d * Pow32(m) + b
    ensures EncodeN(v, m + 1) == [Symbol(d)] + EncodeN(b, m)
  {
    assert d < Pow32(1);
    EncodeConcat(v, d, b, 1, m);
    EncodeOne(d);
  }

  /** The values 0 to 7 are written '0' to '7'. */
  lemma SmallSymbol(d: nat)
    requires d < 8
    ensures Symbol(d) <= '7'
  {
  }

  /**
   * The overflow rule is exact: a 26-character Base32 text stands for a
   * value that fits in 128 bits if and only if its first character is at most '7'.
   */
  lemma OverflowExact(s: string)
    requires |s| == EncodedSize && AllBase32(s)
    ensures ValueOf(s) < Limit <==> s[0] <= '7'
  {
    var top, rest, p := Digit(s[0]), ValueOf(s[1..]), Pow32(|s| - 1);
    assert ValueOf(s) == top * p + rest by {
      assert s == [s[0]] + s[1..];
      ValueConcat([s[0]], s[1..]);
      assert [s[0]][..0] == [];
    }
    assert rest < p by {
      ValueBound(s[1..]);
    }
    assert 8 * p == Limit by {
      Pow32Facts();
    }
    TopDigit(top, p, rest);
    SmallDigit(s[0]);
  }

  /** The characters with values 0 to 7 are exactly the Base32 characters up to '7'. */
  lemma SmallDigit(c: char)
    requires IsBase32(c)
    ensures Digit(c) < 8 <==> c <= '7'
  {
  }

  /** Below `8 * p` exactly when the top digit is below 8. */
  lemma TopDigit(top: nat, p: nat, rest: nat)
    requires rest < p
    ensures top * p + rest < 8 * p <==> top < 8
  {
    if top < 8 {
      assert top * p <= 7 * p by { MulMonotone(top, 7, p); }
    } else {
      assert 8 * p <= top * p by { MulMonotone(8, top, p); }
    }
  }

  lemma MulMonotone(x: nat, y: nat, p: nat)
    requires x <= y
    ensures x * p <= y * p
  {
    assert y * p == x * p + (y - x) * p;
  }

  lemma EncodeOne(d: nat)
    requires d < 32
    ensures EncodeN(d, 1) == [Symbol(d)]
  {
    EncodeStep(d, 0, d, 0);
  }

  /** The ULID parser's errors. */
  datatype UlidError =
    | ErrDataSize           // the text is not 26 bytes long
    | ErrInvalidCharacters  // a character is outside the alphabet (strict parsing only)
    | ErrOverflow           // the first character is above '7': the value needs more than 128 bits

  /** What the lenient parser produces: a ULID, or a value the library leaves undefined. */
  datatype Decoded = Defined(value: ULID) | Undefined

  /** The value of a 26-character Base32 text whose first character is at most '7'. */
  function Decode(s: string): ULID
    requires |s| == EncodedSize && AllBase32(s) && s[0] <= '7'
  {
    OverflowExact(s);
    ValueOf(s)
  }

  /**
   * `ulid.Parse`: checks the length in bytes and the overflow but not the
   * characters; a text with a character outside the alphabet decodes to an
   * undefined ULID. The overflow check looks at the first byte; the first byte
   * of a character beyond ASCII is above '7' as the character is, so comparing
   * the first character gives the same answer.
   */
  function Parse(s: string): (r: Result<Decoded, UlidError>)
    ensures r.Failure? ==> r.error != ErrInvalidCharacters
    ensures r == Failure(ErrDataSize) <==> Strings.ByteLength(s) != EncodedSize
    ensures r.Success? <==> Strings.ByteLength(s) == EncodedSize && s[0] <= '7'
    ensures r == Success(Undefined) <==> r.Success? && !AllBase32(s)
  {
    if Strings.ByteLength(s) != EncodedSize then Failure(ErrDataSize)
    else if s[0] > '7' then Failure(ErrOverflow)
    else if AllBase32(s) then (Base32Bytes(s); Success(Defined(Decode(s))))
    else Success(Undefined)
  }

  /**
   * `ulid.ParseStrict`: as `Parse`, and each of the 26 bytes must be a
   * character of the alphabet, checked before the overflow.
   */
  function ParseStrict(s: string): (r: Result<ULID, UlidError>)
    ensures r == Failure(ErrDataSize) <==> Strings.ByteLength(s) != EncodedSize
    ensures r == Failure(ErrInvalidCharacters) <==> Strings.ByteLength(s) == EncodedSize && !AllBase32(s)
    ensures r.Success? <==> Strings.ByteLength(s) == EncodedSize && AllBase32(s) && s[0] <= '7'
    ensures r.Success? ==> Parse(s) == Success(Defined(r.value))
  {
    if Strings.ByteLength(s) != EncodedSize then Failure(ErrDataSize)
    else if !AllBase32(s) then Failure(ErrInvalidCharacters)
    else if s[0] > '7' then Failure(ErrOverflow)
    else (Base32Bytes(s); Success(Decode(s)))
  }

  /**
   * The length check counts bytes: 24 digits and an 'é' (two bytes in UTF-8)
   * are 25 characters but 26 bytes, so the lenient parser accepts the text as
   * an undefined ULID and the strict one rejects its last character.
   */
  lemma MultiByteText(head: string, s: string)
    requires head == "000000000000000000000000" && s == head + ['é']
    ensures |s| == EncodedSize - 1
    ensures Parse(s) == Success(Undefined)
    ensures ParseStrict(s) == Failure(ErrInvalidCharacters)
  {
    assert AllBase32(head);
    Base32Bytes(head);
    Strings.ByteLengthSnoc(head, 'é');
    assert !IsBase32(s[24]);
  }

  /** Both parsers read back what `String` writes. */
  lemma ParseEncode(u: ULID)
    ensures ParseStrict(Encode(u)) == Success(u)
    ensures Parse(Encode(u)) == Success(Defined(u))
  {
    Pow32Facts();
    EncodeFirst(u);
    DecodeEncode(u, EncodedSize);
    Base32Bytes(Encode(u));
  }

  /** A successful parse, strict or lenient, re-encodes to the upper-case form of its input. */
  lemma EncodeParse(s: string)
    ensures ParseStrict(s).Success? ==> Encode(ParseStrict(s).value) == Upcase(s)
    ensures Parse(s).Success? && Parse(s).value.Defined? ==> Encode(Parse(s).value.value) == Upcase(s)
  {
    if Strings.ByteLength(s) == EncodedSize && AllBase32(s) && s[0] <= '7' {
      Base32Bytes(s);
      EncodeDecode(s);
    }
  }
}
