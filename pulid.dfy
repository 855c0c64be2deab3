/**
 * Prefixed ULIDs (pulid.go). An ID is the text `prefix + ":" + ulid`: the
 * prefix names the kind of entity, the 26 characters after the colon are a
 * ULID in its canonical Base32 text. The module splits IDs into their parts,
 * orders them, parses them leniently or strictly, moves them in and out of
 * database and GraphQL values, and mints new ones with a replaceable
 * package-wide ULID generator.
 */
module Pulid {
  import opened Wrappers
  import Strings
  import Ulid
  import MockGenerator

  /** `type ID string`. */
  datatype ID = ID(text: string)

  /**
   * `id.Parts()`: the text before and after the first colon; with no colon
   * the prefix is empty and the whole text is the ULID part.
   */
  function Parts(id: ID): (r: (string, string))
    ensures ':' !in id.text ==> r == ("", id.text)
    ensures ':' in id.text ==> r.0 + ":" + r.1 == id.text && ':' !in r.0
  {
    var s := id.text;
    var index := Strings.Index(s, ':');
    if index == -1 then ("", s)
    else
      assert s == s[..index] + ":" + s[index + 1..];
      (s[..index], s[index + 1..])
  }

  /** A prefix without a colon is recovered whole, whatever follows the colon. */
  lemma PartsOfJoin(prefix: string, rest: string)
    requires ':' !in prefix
    ensures Parts(ID(prefix + ":" + rest)) == (prefix, rest)
  {
    var s := prefix + ":" + rest;
    assert s[|prefix|] == ':' && s[..|prefix|] == prefix && s[|prefix| + 1..] == rest;
    Strings.IndexAt(s, ':', |prefix|);
  }

  /** `id.Compare(other)`: plain string order. */
  function Compare(id: ID, other: ID): (r: int)
    ensures r == -1 || r == 0 || r == 1
    ensures r == 0 <==> id == other
  {
    Strings.Compare(id.text, other.text)
  }

  /** The order is the lexicographic order of the texts; it is antisymmetric and transitive. */
  lemma CompareOrder(a: ID, b: ID, c: ID)
    ensures Compare(a, b) == -1 <==> Strings.LexLess(a.text, b.text)
    ensures Compare(a, b) == -Compare(b, a)
    ensures Compare(a, b) == -1 && Compare(b, c) == -1 ==> Compare(a, c) == -1
  {
    Strings.CompareLex(a.text, b.text);
    Strings.CompareAntisymmetric(a.text, b.text);
    if Compare(a, b) == -1 && Compare(b, c) == -1 {
      Strings.CompareTransitive(a.text, b.text, c.text);
    }
  }

  /** `id.String()`: the text itself. */
  function String(id: ID): (s: string)
    ensures ID(s) == id
  {
    id.text
  }

  /** The dynamic values `Scan` and `UnmarshalGQL` receive and `Value` returns. */
  datatype Dynamic =
    | Nil                      // a nil interface
    | OfID(id: ID)             // an ID
    | OfString(s: string)      // a string
    | Other(typeName: string)  // a value of any other type, named as `%T` prints it

  /** `id.Value()`: the text as a string; its error result is always nil. */
  function Value(id: ID): (v: Dynamic)
    ensures v.OfString? && ID(v.s) == id
  {
    OfString(id.text)
  }

  /** The error `Scan` reports for a source of an unexpected type. */
  function ScanError(typeName: string): string
  {
    "pulid: scan error, unexpected type " + typeName
  }

  /**
   * What `Scan` leaves in the receiver, and the error it returns, given what
   * the receiver held before: a scan fails exactly for sources of another
   * type, and then leaves the receiver alone; nil leaves it alone too.
   */
  function Scanned(before: ID, src: Dynamic): (r: (ID, Option<string>))
    ensures r.1.Some? <==> src.Other?
    ensures src.Nil? || src.Other? ==> r.0 == before
    ensures src.OfID? ==> r.0 == src.id
    ensures src.OfString? ==> r.0.text == src.s
  {
    match src
    case Nil => (before, None)
    case OfID(v) => (v, None)
    case OfString(v) => (ID(v), None)
    case Other(t) => (before, Some(ScanError(t)))
  }

  /** Scanning what `Value` produced gives back the same ID, with no error. */
  lemma ScanValue(before: ID, id: ID)
    ensures Scanned(before, Value(id)) == (id, None)
  {
  }

  /** An `*ID`: a variable holding an ID that `Scan` and `UnmarshalGQL` overwrite. */
  class IDVar {
    var id: ID

    constructor (id: ID)
      ensures this.id == id
    {
      this.id := id;
    }

    /** `id.Scan(src)`. */
    method Scan(src: Dynamic) returns (err: Option<string>)
      modifies this
      ensures (id, err) == Scanned(old(id), src)
    {
      match src {
        case Nil =>
          return None;
        case OfID(v) =>
          id := v;
        case OfString(v) =>
          id := ID(v);
        case Other(t) =>
          return Some(ScanError(t));
      }
      return None;
    }

    /** `id.UnmarshalGQL(v)`: the same as `Scan`. */
    method UnmarshalGQL(v: Dynamic) returns (err: Option<string>)
      modifies this
      ensures (id, err) == Scanned(old(id), v)
    {
      err := Scan(v);
    }
  }

  /** The message of the "no prefix" error `Parse` returns. */
  const NoPrefixMessage := "pulid: id has no prefix"
  /** The message of the "no prefix" error `ParseStrict` returns, spelled as the source spells it. */
  const StrictNoPrefixMessage := "publid: id has no prefix"

  /** Why parsing an ID failed. */
  datatype ParseError =
    | NoPrefix(message: string)     // the text before the first colon is empty, or there is no colon
    | Invalid(cause: Ulid.UlidError) // the ULID parser's error for the part after the colon

  /** A parsed ID: its prefix and its ULID. */
  datatype Parsed<U> = Parsed(prefix: string, ulid: U)

  /**
   * `Parse(id)`: the prefix must be non-empty; the ULID part goes to the
   * lenient ULID parser. A result carries the colon-free text before the
   * first colon and the ULID parser's reading of the rest.
   */
  function Parse(id: string): (r: Result<Parsed<Ulid.Decoded>, ParseError>)
    ensures r.Success? ==> r.value.prefix != "" && ':' !in r.value.prefix && id == r.value.prefix + ":" + Parts(ID(id)).1
    ensures r.Success? ==> Ulid.Parse(Parts(ID(id)).1) == Success(r.value.ulid)
    ensures Parts(ID(id)).0 == "" ==> r == Failure(NoPrefix(NoPrefixMessage))
    ensures Parts(ID(id)).0 != "" && Ulid.Parse(Parts(ID(id)).1).Failure? ==> r == Failure(Invalid(Ulid.Parse(Parts(ID(id)).1).error))
    ensures Parts(ID(id)).0 != "" && Ulid.Parse(Parts(ID(id)).1).Success? ==> r == Success(Parsed(Parts(ID(id)).0, Ulid.Parse(Parts(ID(id)).1).value))
  {
    var (prefix, ul) := Parts(ID(id));
    if |prefix| == 0 then Failure(NoPrefix(NoPrefixMessage))
    else match Ulid.Parse(ul)
      case Success(u) => Success(Parsed(prefix, u))
      case Failure(e) => Failure(Invalid(e))
  }

  /** `ParseStrict(id)`: as `Parse`, with the strict ULID parser and its own no-prefix message. */
  function ParseStrict(id: string): (r: Result<Parsed<Ulid.ULID>, ParseError>)
    ensures r.Success? ==> r.value.prefix != "" && ':' !in r.value.prefix && id == r.value.prefix + ":" + Parts(ID(id)).1
    ensures r.Success? ==> Ulid.ParseStrict(Parts(ID(id)).1) == Success(r.value.ulid)
    ensures Parts(ID(id)).0 == "" ==> r == Failure(NoPrefix(StrictNoPrefixMessage))
    ensures Parts(ID(id)).0 != "" && Ulid.ParseStrict(Parts(ID(id)).1).Failure? ==> r == Failure(Invalid(Ulid.ParseStrict(Parts(ID(id)).1).error))
    ensures Parts(ID(id)).0 != "" && Ulid.ParseStrict(Parts(ID(id)).1).Success? ==> r == Success(Parsed(Parts(ID(id)).0, Ulid.ParseStrict(Parts(ID(id)).1).value))
  {
    var (prefix, ul) := Parts(ID(id));
    if |prefix| == 0 then Failure(NoPrefix(StrictNoPrefixMessage))
    else match Ulid.ParseStrict(ul)
      case Success(u) => Success(Parsed(prefix, u))
      case Failure(e) => Failure(Invalid(e))
  }

  /** Both parsers report a missing prefix exactly when the text before the first colon is empty, as it is when there is no colon. */
  lemma NoPrefixExactly(id: string)
    ensures Parse(id) == Failure(NoPrefix(NoPrefixMessage)) <==> Parts(ID(id)).0 == ""
    ensures ParseStrict(id) == Failure(NoPrefix(StrictNoPrefixMessage)) <==> Parts(ID(id)).0 == ""
    ensures ':' !in id ==> Parse(id).Failure? && ParseStrict(id).Failure?
  {
  }

  /** After a non-empty prefix, a ULID part that is not 26 bytes long fails both parsers with the size error. */
  lemma WrongLengthFails(id: string)
    requires Parts(ID(id)).0 != "" && Strings.ByteLength(Parts(ID(id)).1) != Ulid.EncodedSize
    ensures Parse(id) == Failure(Invalid(Ulid.ErrDataSize))
    ensures ParseStrict(id) == Failure(Invalid(Ulid.ErrDataSize))
  {
  }

  /**
   * After a non-empty prefix, a 26-byte ULID part whose first character
   * is above '7' fails both parsers: the lenient one with the overflow error,
   * the strict one with the overflow error unless a character outside the
   * alphabet is found first.
   */
  lemma OverflowFails(id: string)
    requires Parts(ID(id)).0 != "" && Strings.ByteLength(Parts(ID(id)).1) == Ulid.EncodedSize && Parts(ID(id)).1[0] > '7'
    ensures Parse(id) == Failure(Invalid(Ulid.ErrOverflow))
    ensures ParseStrict(id) == Failure(Invalid(if Ulid.AllBase32(Parts(ID(id)).1) then Ulid.ErrOverflow else Ulid.ErrInvalidCharacters))
  {
  }

  /** The strict parser rejects any character outside the alphabet in a 26-byte ULID part. */
  lemma StrictRejectsInvalid(id: string)
    requires Parts(ID(id)).0 != "" && Strings.ByteLength(Parts(ID(id)).1) == Ulid.EncodedSize && !Ulid.AllBase32(Parts(ID(id)).1)
    ensures ParseStrict(id) == Failure(Invalid(Ulid.ErrInvalidCharacters))
  {
  }

  /** When each parser succeeds, in terms of the parts of the ID. */
  lemma ParseSucceedsExactly(id: string)
    ensures Parse(id).Success? <==>
      Parts(ID(id)).0 != "" && Strings.ByteLength(Parts(ID(id)).1) == Ulid.EncodedSize && Parts(ID(id)).1[0] <= '7'
    ensures ParseStrict(id).Success? <==>
      Parts(ID(id)).0 != "" && Strings.ByteLength(Parts(ID(id)).1) == Ulid.EncodedSize && Ulid.AllBase32(Parts(ID(id)).1) && Parts(ID(id)).1[0] <= '7'
  {
  }

  /**
   * The strict parser accepts less: whenever it succeeds the lenient one
   * succeeds with the same prefix and ULID, and the lenient parser's undefined
   * results are exactly the strict parser's invalid-character errors.
   */
  lemma StrictAgreesWithLenient(id: string)
    ensures ParseStrict(id).Success? ==>
      Parse(id) == Success(Parsed(ParseStrict(id).value.prefix, Ulid.Defined(ParseStrict(id).value.ulid)))
    ensures Parse(id).Success? && Parse(id).value.ulid.Undefined? <==>
      ParseStrict(id) == Failure(Invalid(Ulid.ErrInvalidCharacters)) && Parse(id).Success?
    ensures Parse(id).Success? && Parse(id).value.ulid.Defined? ==>
      ParseStrict(id) == Success(Parsed(Parse(id).value.prefix, Parse(id).value.ulid.value))
  {
  }

  /**
   * On success the prefix is the one written before the first colon, and the
   * ULID re-encodes to the ULID part in upper case; the ID is that prefix, a
   * colon and that part.
   */
  lemma ParseResult(id: string)
    ensures ParseStrict(id).Success? ==>
      var r := ParseStrict(id).value;
      r.prefix != "" && ':' !in r.prefix && exists ul :: id == r.prefix + ":" + ul && Ulid.Encode(r.ulid) == Ulid.Upcase(ul)
    ensures Parse(id).Success? && Parse(id).value.ulid.Defined? ==>
      var r := Parse(id).value;
      r.prefix != "" && ':' !in r.prefix && exists ul :: id == r.prefix + ":" + ul && Ulid.Encode(r.ulid.value) == Ulid.Upcase(ul)
  {
    var (prefix, ul) := Parts(ID(id));
    Ulid.EncodeParse(ul);
  }

  /**
   * The ID `MustNew` builds from a prefix and a ULID. Built from a colon-free
   * prefix, it splits back into that prefix and the 26-character text of the ULID.
   */
  function Format(prefix: string, u: Ulid.ULID): (id: ID)
    ensures ':' !in prefix ==> Parts(id) == (prefix, Ulid.Encode(u))
  {
    if ':' !in prefix then
      PartsOfJoin(prefix, Ulid.Encode(u));
      ID(prefix + ":" + Ulid.Encode(u))
    else
      ID(prefix + ":" + Ulid.Encode(u))
  }

  /** An ID built from a non-empty, colon-free prefix parses back, strictly and leniently, to that prefix and ULID. */
  lemma FormatParse(prefix: string, u: Ulid.ULID)
    requires prefix != "" && ':' !in prefix
    ensures ParseStrict(Format(prefix, u).text) == Success(Parsed(prefix, u))
    ensures Parse(Format(prefix, u).text) == Success(Parsed(prefix, Ulid.Defined(u)))
  {
    Ulid.ParseEncode(u);
  }

  /**
   * A prefix containing a colon does not survive: the ID splits at the
   * prefix's own colon, and neither parser accepts it.
   */
  lemma ColonPrefixBreaks(prefix: string, u: Ulid.ULID)
    requires ':' in prefix
    ensures Parts(Format(prefix, u)).0 != prefix
    ensures Parse(Format(prefix, u).text).Failure? && ParseStrict(Format(prefix, u).text).Failure?
  {
    var i := Strings.Index(prefix, ':');
    var head, tail := prefix[..i], prefix[i + 1..];
    assert prefix == head + ":" + tail;
    var rest := tail + ":" + Ulid.Encode(u);
    assert Format(prefix, u).text == head + ":" + rest;
    PartsOfJoin(head, rest);
    assert |rest| > Ulid.EncodedSize;
  }

  /** IDs with the same prefix are ordered as their ULIDs are. */
  lemma CompareSamePrefix(prefix: string, u: Ulid.ULID, v: Ulid.ULID)
    ensures Compare(Format(prefix, u), Format(prefix, v)) == if u < v then -1 else if u == v then 0 else 1
  {
    Ulid.EncodeOrder(u, v);
    Strings.CompareCommonPrefix(prefix + ":", Ulid.Encode(u), Ulid.Encode(v));
    assert prefix + ":" + Ulid.Encode(u) == (prefix + ":") + Ulid.Encode(u);
    assert prefix + ":" + Ulid.Encode(v) == (prefix + ":") + Ulid.Encode(v);
  }

  /** The ULID generator `MustNew` uses: the production one or a mock. */
  datatype Generator =
    | Default                                 // `ulidGenerator{}`: the clock and the shared monotonic entropy
    | Mock(g: MockGenerator.MockULIDGenerator) // a `*MockULIDGenerator`

  /** The package-level state: the generator `MustNew` uses. */
  class Package {
    var defaultULIDGenerator: Generator

    /** At start-up the production generator is installed. */
    constructor ()
      ensures defaultULIDGenerator == Default
    {
      defaultULIDGenerator := Default;
    }

    /** The objects a call of `MustNew` may change: the installed mock, if any. */
    function Footprint(): set<object>
      reads this
    {
      if defaultULIDGenerator.Mock? then {defaultULIDGenerator.g} else {}
    }

    /** `SetULIDGenerator(g)`. */
    method SetULIDGenerator(g: Generator)
      modifies this
      ensures defaultULIDGenerator == g
    {
      defaultULIDGenerator := g;
    }

    /**
     * `MustNew(prefix)`: the prefix, a colon and the text of a ULID from the
     * installed generator. The production generator stamps the clock reading
     * `now` and the entropy value `entropy` it draws; a mock ignores both.
     */
    method MustNew(prefix: string, now: Ulid.Timestamp, entropy: Ulid.Entropy) returns (id: ID)
      modifies Footprint()
      ensures defaultULIDGenerator == old(defaultULIDGenerator)
      ensures defaultULIDGenerator.Default? ==> id == Format(prefix, Ulid.New(now, entropy))
      ensures defaultULIDGenerator.Mock? ==>
        id == Format(prefix, MockGenerator.NextULID(defaultULIDGenerator.g.seedZero, old(defaultULIDGenerator.g.entropy), prefix))
      ensures defaultULIDGenerator.Mock? ==>
        defaultULIDGenerator.g.entropy == Some(MockGenerator.AfterCall(old(defaultULIDGenerator.g.entropy), prefix))
    {
      var u: Ulid.ULID;
      match defaultULIDGenerator {
        case Default =>
          u := Ulid.New(now, entropy);
        case Mock(g) =>
          u := g.NewULID(prefix, now);
      }
      id := ID(prefix + ":" + Ulid.Encode(u));
    }
  }

  /** Calling `MustNew` for each prefix in turn, with a mock installed, returns the IDs of the ULIDs that mock's `Outputs` describes. */
  method MustNewEach(pkg: Package, prefixes: seq<string>) returns (ids: seq<ID>)
    requires pkg.defaultULIDGenerator.Mock?
    modifies pkg.Footprint()
    ensures pkg.defaultULIDGenerator == old(pkg.defaultULIDGenerator)
    ensures pkg.defaultULIDGenerator.g.entropy == MockGenerator.Replay(old(pkg.defaultULIDGenerator.g.entropy), prefixes)
    ensures |ids| == |prefixes|
    ensures forall i | 0 <= i < |prefixes| ::
      ids[i] == Format(prefixes[i], MockGenerator.Outputs(pkg.defaultULIDGenerator.g.seedZero, old(pkg.defaultULIDGenerator.g.entropy), prefixes)[i])
  {
    var g := pkg.defaultULIDGenerator.g;
    ghost var start := g.entropy;
    ghost var us: seq<Ulid.ULID> := [];
    ids := [];
    var i := 0;
    while i < |prefixes|
      invariant 0 <= i <= |prefixes|
      invariant pkg.defaultULIDGenerator == Mock(g)
      invariant g.entropy == MockGenerator.Replay(start, prefixes[..i])
      invariant us == MockGenerator.Outputs(g.seedZero, start, prefixes[..i])
      invariant |ids| == |us| == i
      invariant forall j | 0 <= j < i :: ids[j] == Format(prefixes[j], us[j])
    {
      MockGenerator.CallsSnoc(prefixes, i);
      MockGenerator.OutputsSnoc(g.seedZero, start, prefixes[..i], prefixes[i]);
      ghost var u := MockGenerator.NextULID(g.seedZero, g.entropy, prefixes[i]);
      var id := pkg.MustNew(prefixes[i], 0, 0);
      us := us + [u];
      ids := ids + [id];
      i := i + 1;
    }
    assert prefixes[..|prefixes|] == prefixes;
  }

  /** The calls the generator fixtures make, in order, and the ULID text each expects. */
  const FixturePrefixes: seq<string> := ["AA", "AA", "AA", "BB", "BB", "BB"]
  const FixtureTexts: seq<string> := [
    "01FD7SJ7J006AFVGQT5ZYC0GEK", "01FD7SJ7J0ZW908PVKS1Q4ZYAZ", "01FD7SJ7J0YSHABVQ85AYZ8JHD",
    "01FD7SJ7J006AFVGQT5ZYC0GEK", "01FD7SJ7J0ZW908PVKS1Q4ZYAZ", "01FD7SJ7J0YSHABVQ85AYZ8JHD"]

  /** The first three values of the seed-0 stream, as the fixtures write them: 16 Base32 characters each. */
  const SeedZeroEntropy: seq<string> := ["06AFVGQT5ZYC0GEK", "ZW908PVKS1Q4ZYAZ", "YSHABVQ85AYZ8JHD"]

  /** `seedZero` starts with the three values the fixtures expect. */
  predicate SeedZeroTexts(seedZero: nat -> Ulid.Entropy)
  {
    forall k | 0 <= k < |SeedZeroEntropy| :: Ulid.EncodeN(seedZero(k), 16) == SeedZeroEntropy[k]
  }

  /** Each expected text is the fixed time's ten characters followed by the entropy text of its rank. */
  lemma FixtureTextParts(i: nat)
    requires i < |FixtureTexts|
    ensures FixtureTexts[i] == "01FD7SJ7J0" + SeedZeroEntropy[i % 3]
  {
    var time, entropy, whole := "01FD7SJ7J0", SeedZeroEntropy[i % 3], FixtureTexts[i];
    if i % 3 == 0 {
      JoinFirst(time, entropy, whole);
    } else if i % 3 == 1 {
      JoinSecond(time, entropy, whole);
    } else {
      JoinThird(time, entropy, whole);
    }
  }

  lemma JoinFirst(time: string, entropy: string, whole: string)
    requires time == "01FD7SJ7J0" && entropy == "06AFVGQT5ZYC0GEK" && whole == "01FD7SJ7J006AFVGQT5ZYC0GEK"
    ensures time + entropy == whole
  {
  }

  lemma JoinSecond(time: string, entropy: string, whole: string)
    requires time == "01FD7SJ7J0" && entropy == "ZW908PVKS1Q4ZYAZ" && whole == "01FD7SJ7J0ZW908PVKS1Q4ZYAZ"
    ensures time + entropy == whole
  {
  }

  lemma JoinThird(time: string, entropy: string, whole: string)
    requires time == "01FD7SJ7J0" && entropy == "YSHABVQ85AYZ8JHD" && whole == "01FD7SJ7J0YSHABVQ85AYZ8JHD"
    ensures time + entropy == whole
  {
  }

  /** In the fixtures' call sequence, call `i` is the `i % 3`-th for its prefix. */
  lemma FixtureRank(i: nat)
    requires i < |FixturePrefixes|
    ensures multiset(FixturePrefixes[..i])[FixturePrefixes[i]] == i % 3
  {
    var ps := FixturePrefixes;
    if i == 0 {
      assert ps[..0] == [];
    } else if i == 1 {
      assert ps[..1] == ["AA"];
    } else if i == 2 {
      assert ps[..2] == ["AA", "AA"];
    } else if i == 3 {
      assert ps[..3] == ["AA", "AA", "AA"];
    } else if i == 4 {
      assert ps[..4] == ["AA", "AA", "AA", "BB"];
    } else {
      assert ps[..5] == ["AA", "AA", "AA", "BB", "BB"];
    }
  }

  /** The i-th ULID of the fixtures' call sequence is written as the i-th expected text, and parses back strictly. */
  lemma FixtureOutput(seedZero: nat -> Ulid.Entropy, i: nat)
    requires SeedZeroTexts(seedZero) && i < |FixturePrefixes|
    ensures Ulid.Encode(MockGenerator.Outputs(seedZero, None, FixturePrefixes)[i]) == FixtureTexts[i]
    ensures Ulid.ParseStrict(FixtureTexts[i]) == Success(MockGenerator.Outputs(seedZero, None, FixturePrefixes)[i])
  {
    var u := MockGenerator.Outputs(seedZero, None, FixturePrefixes)[i];
    MockGenerator.KthCall(seedZero, FixturePrefixes, i);
    FixtureRank(i);
    assert u == Ulid.New(MockGenerator.FixedTimestamp, seedZero(i % 3));
    MockGenerator.MockText(seedZero(i % 3));
    FixtureTextParts(i);
    Ulid.ParseEncode(u);
  }

  /** The fixtures' prefixes are non-empty and colon-free. */
  lemma FixturePrefixOk(i: nat)
    requires i < |FixturePrefixes|
    ensures FixturePrefixes[i] != "" && ':' !in FixturePrefixes[i]
  {
    assert FixturePrefixes[i] == "AA" || FixturePrefixes[i] == "BB";
  }

  /**
   * The generator fixtures: a fresh mock called directly for "AA" three times
   * and "BB" three times returns the expected ULIDs, and a second fresh mock
   * installed as the package generator makes `MustNew` return IDs carrying the same ULIDs.
   */
  method GeneratorFixtures(pkg: Package, seedZero: nat -> Ulid.Entropy) returns (direct: seq<Ulid.ULID>, ids: seq<ID>)
    requires SeedZeroTexts(seedZero)
    modifies pkg
    ensures |direct| == |ids| == |FixtureTexts|
    ensures forall i | 0 <= i < |FixtureTexts| :: Ulid.ParseStrict(FixtureTexts[i]) == Success(direct[i])
    ensures forall i | 0 <= i < |FixtureTexts| :: ids[i] == Format(FixturePrefixes[i], direct[i])
    ensures forall i | 0 <= i < |FixtureTexts| :: Parts(ids[i]) == (FixturePrefixes[i], FixtureTexts[i])
  {
    var g := new MockGenerator.MockULIDGenerator(seedZero);
    direct := MockGenerator.CallEach(g, FixturePrefixes);

    var m := new MockGenerator.MockULIDGenerator(seedZero);
    pkg.SetULIDGenerator(Mock(m));
    ids := MustNewEach(pkg, FixturePrefixes);
    forall i | 0 <= i < |FixtureTexts|
      ensures Ulid.ParseStrict(FixtureTexts[i]) == Success(direct[i])
      ensures Parts(ids[i]) == (FixturePrefixes[i], FixtureTexts[i])
    {
      FixtureOutput(seedZero, i);
      FixturePrefixOk(i);
    }
  }

  /** The fixture ULID text, a valid ULID: both parsers accept it after a prefix and give back the prefix and this text. */
  const FixtureULID := "01FD7SJ7J006AFVGQT5ZYC0GEK"

  lemma FixtureULIDCanonical(s: string)
    requires s == FixtureULID
    ensures Ulid.Canonical(s)
  {
  }

  /** Parse fixtures "AA" and "B": a non-empty prefix and a valid ULID text parse back to that prefix and text. */
  lemma ParseFixtureValid(prefix: string, s: string)
    requires prefix == "AA" || prefix == "B"
    requires s == FixtureULID
    ensures Parse(prefix + ":" + s).Success?
    ensures Parse(prefix + ":" + s).value.prefix == prefix
    ensures Parse(prefix + ":" + s).value.ulid.Defined?
    ensures Ulid.Encode(Parse(prefix + ":" + s).value.ulid.value) == s
    ensures ParseStrict(prefix + ":" + s).Success?
    ensures ParseStrict(prefix + ":" + s).value.prefix == prefix
    ensures Ulid.Encode(ParseStrict(prefix + ":" + s).value.ulid) == s
  {
    PartsOfJoin(prefix, s);
    FixtureULIDCanonical(s);
    Ulid.Base32Bytes(s);
    Ulid.CanonicalUpcase(s);
    Ulid.EncodeParse(s);
  }

  /** Parse fixture "Empty Prefix": both parsers report the missing prefix. */
  lemma ParseFixtureEmptyPrefix(s: string)
    requires s == FixtureULID
    ensures Parse(":" + s) == Failure(NoPrefix(NoPrefixMessage))
    ensures ParseStrict(":" + s) == Failure(NoPrefix(StrictNoPrefixMessage))
  {
    PartsOfJoin("", s);
  }

  /** Parse fixtures "Short (25)" and "Long (27)": both parsers report the size error. */
  lemma ParseFixtureWrongLength(prefix: string, ul: string)
    requires prefix == "CC" && (ul == "81FD7SJ7J006AFVGQT5ZYC0GE" || ul == "81FD7SJ7J006AFVGQT5ZYC0GEKK")
    ensures Parse(prefix + ":" + ul) == Failure(Invalid(Ulid.ErrDataSize))
    ensures ParseStrict(prefix + ":" + ul) == Failure(Invalid(Ulid.ErrDataSize))
  {
    PartsOfJoin(prefix, ul);
    if ul == "81FD7SJ7J006AFVGQT5ZYC0GE" {
      ShortTextBase32(ul);
    } else {
      LongTextBase32(ul);
    }
    Ulid.Base32Bytes(ul);
  }

  lemma ShortTextBase32(ul: string)
    requires ul == "81FD7SJ7J006AFVGQT5ZYC0GE"
    ensures |ul| == Ulid.EncodedSize - 1 && Ulid.AllBase32(ul)
  {
  }

  lemma LongTextBase32(ul: string)
    requires ul == "81FD7SJ7J006AFVGQT5ZYC0GEKK"
    ensures |ul| == Ulid.EncodedSize + 1 && Ulid.AllBase32(ul)
  {
  }

  lemma OverflowTextBase32(ul: string)
    requires ul == "81FD7SJ7J006AFVGQT5ZYC0GEK"
    ensures |ul| == Ulid.EncodedSize && ul[0] > '7' && Ulid.AllBase32(ul)
  {
  }

  /** Parse fixture "Overflow": a leading '8' overflows in both parsers. */
  lemma ParseFixtureOverflow(prefix: string, ul: string)
    requires prefix == "CC" && ul == "81FD7SJ7J006AFVGQT5ZYC0GEK"
    ensures Parse(prefix + ":" + ul) == Failure(Invalid(Ulid.ErrOverflow))
    ensures ParseStrict(prefix + ":" + ul) == Failure(Invalid(Ulid.ErrOverflow))
  {
    PartsOfJoin(prefix, ul);
    OverflowTextBase32(ul);
    Ulid.Base32Bytes(ul);
    OverflowFails(prefix + ":" + ul);
  }

  lemma InvalidCharText(ul: string)
    requires ul == "81FD7SJ7J006AFVGQT5ZYC0GEO"
    ensures Strings.ByteLength(ul) == Ulid.EncodedSize && ul[0] > '7' && !Ulid.AllBase32(ul)
  {
    ShortTextBase32("81FD7SJ7J006AFVGQT5ZYC0GE");
    AppendO("81FD7SJ7J006AFVGQT5ZYC0GE", ul);
  }

  /** A 25-character Base32 text followed by 'O' is 26 bytes long. */
  lemma AppendO(head: string, ul: string)
    requires |head| == Ulid.EncodedSize - 1 && Ulid.AllBase32(head) && ul == head + ['O']
    ensures Strings.ByteLength(ul) == Ulid.EncodedSize && ul[0] == head[0] && !Ulid.AllBase32(ul)
  {
    Ulid.Base32Bytes(head);
    Strings.ByteLengthSnoc(head, 'O');
    assert !Ulid.IsBase32(ul[25]);
  }

  /**
   * Parse fixture "Invalid Char 'O'": its text also starts with '8', so the
   * lenient parser reports the overflow, while the strict one finds the 'O' first.
   */
  lemma ParseFixtureInvalidChar(prefix: string, ul: string)
    requires prefix == "CC" && ul == "81FD7SJ7J006AFVGQT5ZYC0GEO"
    ensures Parse(prefix + ":" + ul) == Failure(Invalid(Ulid.ErrOverflow))
    ensures ParseStrict(prefix + ":" + ul) == Failure(Invalid(Ulid.ErrInvalidCharacters))
  {
    PartsOfJoin(prefix, ul);
    InvalidCharText(ul);
    OverflowFails(prefix + ":" + ul);
  }

  lemma UndefinedText(ul: string)
    requires ul == "01FD7SJ7J006AFVGQT5ZYC0GEO"
    ensures Strings.ByteLength(ul) == Ulid.EncodedSize && ul[0] <= '7' && !Ulid.AllBase32(ul)
  {
    LeadingZeroTextBase32("01FD7SJ7J006AFVGQT5ZYC0GE");
    AppendO("01FD7SJ7J006AFVGQT5ZYC0GE", ul);
  }

  lemma LeadingZeroTextBase32(ul: string)
    requires ul == "01FD7SJ7J006AFVGQT5ZYC0GE"
    ensures |ul| == Ulid.EncodedSize - 1 && Ulid.AllBase32(ul)
  {
  }

  /**
   * The same 'O' after a leading '0': the lenient parser accepts the text and
   * leaves the ULID undefined, while the strict parser rejects the character.
   */
  lemma LenientAcceptsInvalidChar(prefix: string, ul: string)
    requires prefix == "CC" && ul == "01FD7SJ7J006AFVGQT5ZYC0GEO"
    ensures Parse(prefix + ":" + ul) == Success(Parsed(prefix, Ulid.Undefined))
    ensures ParseStrict(prefix + ":" + ul) == Failure(Invalid(Ulid.ErrInvalidCharacters))
  {
    PartsOfJoin(prefix, ul);
    UndefinedText(ul);
  }
}
