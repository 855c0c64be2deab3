/**
 * The deterministic ULID generator used in tests (mock.go). It keeps, per
 * prefix, its own pseudo-random stream seeded with 0, created the first time
 * the prefix is seen, and stamps every ULID with one fixed time whatever time
 * the caller passes. The pseudo-random algorithm itself is not modelled: the
 * stream a seed-0 source delivers is the fixed sequence `seedZero` of 80-bit
 * values, and a stream is a count of the values it has delivered so far.
 */
module MockGenerator {
  import opened Wrappers
  import Ulid

  /** 2021-08-16 15:34:00 UTC, in Unix milliseconds. */
  const FixedTimestamp: Ulid.Timestamp := 1629128040000

  /** The prefixes that have a stream; a nil map has none. */
  function Keys(entropy: Option<map<string, nat>>): set<string>
  {
    if entropy.Some? then entropy.value.Keys else {}
  }

  /** How many values the stream for `prefix` has delivered: none while the map is nil or has no stream for it. */
  function Drawn(entropy: Option<map<string, nat>>, prefix: string): nat
  {
    if entropy.Some? && prefix in entropy.value then entropy.value[prefix] else 0
  }

  /**
   * The table of streams after one call for `prefix`: the map is created if
   * nil, a stream seeded with 0 is inserted on a miss, and the prefix's
   * stream moves past the value the call reads.
   */
  function AfterCall(entropy: Option<map<string, nat>>, prefix: string): (m: map<string, nat>)
    ensures m.Keys == Keys(entropy) + {prefix}
    ensures Drawn(Some(m), prefix) == Drawn(entropy, prefix) + 1
    ensures forall p :: p != prefix ==> Drawn(Some(m), p) == Drawn(entropy, p)
  {
    (if entropy.Some? then entropy.value else map[])[prefix := Drawn(entropy, prefix) + 1]
  }

  /** The ULID a call for `prefix` returns: the fixed time and the next value of the prefix's stream. */
  function NextULID(seedZero: nat -> Ulid.Entropy, entropy: Option<map<string, nat>>, prefix: string): (u: Ulid.ULID)
    ensures Ulid.Time(u) == FixedTimestamp
    ensures Ulid.EntropyOf(u) == seedZero(Drawn(entropy, prefix))
  {
    Ulid.New(FixedTimestamp, seedZero(Drawn(entropy, prefix)))
  }

  class MockULIDGenerator {
    /** Per prefix, how far its stream has been read; `None` is the nil map of a zero-valued generator. */
    var entropy: Option<map<string, nat>>
    /** The values a math/rand source seeded with 0 delivers, 80 bits at a time. */
    const seedZero: nat -> Ulid.Entropy

    /** `&MockULIDGenerator{}`: no map yet. */
    constructor (seedZero: nat -> Ulid.Entropy)
      ensures entropy == None && this.seedZero == seedZero
    {
      entropy := None;
      this.seedZero := seedZero;
    }

    /** `newULID(prefix, t)`: `t` is ignored. */
    method NewULID(prefix: string, t: Ulid.Timestamp) returns (u: Ulid.ULID)
      modifies this
      ensures entropy.Some? && prefix in entropy.value
      ensures entropy.value.Keys == Keys(old(entropy)) + {prefix}
      ensures entropy.value[prefix] == Drawn(old(entropy), prefix) + 1
      ensures forall p :: p in Keys(old(entropy)) && p != prefix ==> entropy.value[p] == old(entropy).value[p]
      ensures entropy == Some(AfterCall(old(entropy), prefix))
      ensures u == NextULID(seedZero, old(entropy), prefix)
    {
      if entropy.None? {
        entropy := Some(map[]);
      }
      var streams := entropy.value;
      if prefix !in streams {
        streams := streams[prefix := 0];
        entropy := Some(streams);
      }
      var drawn := streams[prefix];
      entropy := Some(streams[prefix := drawn + 1]);
      assert entropy.value == AfterCall(old(entropy), prefix);
      var ms := FixedTimestamp;
      u := Ulid.New(ms, seedZero(drawn));
    }
  }

  /** The first `i + 1` calls are the first `i` and then call `i`. */
  lemma CallsSnoc(prefixes: seq<string>, i: nat)
    requires i < |prefixes|
    ensures prefixes[..i + 1] == prefixes[..i] + [prefixes[i]]
  {
  }

  /** The table of streams after a sequence of calls, in order. */
  function Replay(entropy: Option<map<string, nat>>, prefixes: seq<string>): Option<map<string, nat>>
  {
    if prefixes == [] then entropy
    else Some(AfterCall(Replay(entropy, prefixes[..|prefixes| - 1]), prefixes[|prefixes| - 1]))
  }

  /** The ULIDs a sequence of calls returns, in order. */
  function Outputs(seedZero: nat -> Ulid.Entropy, entropy: Option<map<string, nat>>, prefixes: seq<string>): seq<Ulid.ULID>
  {
    seq(|prefixes|, i requires 0 <= i < |prefixes| => NextULID(seedZero, Replay(entropy, prefixes[..i]), prefixes[i]))
  }

  /** One more call extends the outputs by the ULID that call returns. */
  lemma OutputsSnoc(seedZero: nat -> Ulid.Entropy, entropy: Option<map<string, nat>>, prefixes: seq<string>, p: string)
    ensures Replay(entropy, prefixes + [p]) == Some(AfterCall(Replay(entropy, prefixes), p))
    ensures Outputs(seedZero, entropy, prefixes + [p])
         == Outputs(seedZero, entropy, prefixes) + [NextULID(seedZero, Replay(entropy, prefixes), p)]
  {
    var ps := prefixes + [p];
    assert ps[..|ps| - 1] == prefixes;
    forall i | 0 <= i < |prefixes|
      ensures Outputs(seedZero, entropy, ps)[i] == Outputs(seedZero, entropy, prefixes)[i]
    {
      assert ps[..i] == prefixes[..i];
    }
  }

  /** Starting from a zero-valued generator, each prefix's stream has delivered one value per call made for that prefix. */
  lemma {:induction false} DrawnCounts(prefixes: seq<string>, p: string)
    ensures Drawn(Replay(None, prefixes), p) == multiset(prefixes)[p]
  {
    if prefixes != [] {
      var init := prefixes[..|prefixes| - 1];
      DrawnCounts(init, p);
      assert prefixes == init + [prefixes[|prefixes| - 1]];
    }
  }

  /**
   * The k-th call for a prefix (counting from 0) returns the fixed time with
   * the k-th value of the seed-0 stream, whatever calls for other prefixes
   * came in between.
   */
  lemma KthCall(seedZero: nat -> Ulid.Entropy, prefixes: seq<string>, i: nat)
    requires i < |prefixes|
    ensures Outputs(seedZero, None, prefixes)[i] == Ulid.New(FixedTimestamp, seedZero(multiset(prefixes[..i])[prefixes[i]]))
  {
    DrawnCounts(prefixes[..i], prefixes[i]);
  }

  /**
   * Every prefix gets an identically seeded stream: two calls that are each
   * the k-th for their own prefix return the same ULID, even for different prefixes.
   */
  lemma SameRankSameULID(seedZero: nat -> Ulid.Entropy, prefixes: seq<string>, i: nat, j: nat)
    requires i < |prefixes| && j < |prefixes|
    requires multiset(prefixes[..i])[prefixes[i]] == multiset(prefixes[..j])[prefixes[j]]
    ensures Outputs(seedZero, None, prefixes)[i] == Outputs(seedZero, None, prefixes)[j]
  {
    KthCall(seedZero, prefixes, i);
    KthCall(seedZero, prefixes, j);
  }

  /** Calling `NewULID` for each prefix in turn returns `Outputs` and leaves the table `Replay` describes. */
  method CallEach(g: MockULIDGenerator, prefixes: seq<string>) returns (us: seq<Ulid.ULID>)
    modifies g
    ensures us == Outputs(g.seedZero, old(g.entropy), prefixes)
    ensures g.entropy == Replay(old(g.entropy), prefixes)
  {
    us := [];
    var i := 0;
    while i < |prefixes|
      invariant 0 <= i <= |prefixes|
      invariant g.entropy == Replay(old(g.entropy), prefixes[..i])
      invariant us == Outputs(g.seedZero, old(g.entropy), prefixes[..i])
    {
      CallsSnoc(prefixes, i);
      OutputsSnoc(g.seedZero, old(g.entropy), prefixes[..i], prefixes[i]);
      var u := g.NewULID(prefixes[i], 0);
      us := us + [u];
      i := i + 1;
    }
    assert prefixes[..|prefixes|] == prefixes;
  }

  /** The fixed time is written "01FD7SJ7J0": every ULID from this generator starts with these ten characters. */
  lemma FixedTimestampText()
    ensures Ulid.EncodeN(FixedTimestamp, 10) == "01FD7SJ7J0"
  {
    TimestampDigits(FixedTimestamp, 50910251250, 1590945351, 49717042, 1553657, 48551);
  }

  /** The five low digits of the fixed time, `v10` divided by 32 once for each. */
  lemma TimestampDigits(v10: nat, v9: nat, v8: nat, v7: nat, v6: nat, v5: nat)
    requires v10 == 1629128040000 && v9 == 50910251250 && v8 == 1590945351
    requires v7 == 49717042 && v6 == 1553657 && v5 == 48551
    ensures Ulid.EncodeN(v10, 10) == "01FD7SJ7J0"
  {
    Ulid.EncodeStep(v10, v9, 0, 9);
    Ulid.EncodeStep(v9, v8, 18, 8);
    Ulid.EncodeStep(v8, v7, 7, 7);
    Ulid.EncodeStep(v7, v6, 18, 6);
    Ulid.EncodeStep(v6, v5, 25, 5);
    TimestampLeadingDigits(v5, 1517, 47, 1, 0, 0);
  }

  /** The five high digits of the fixed time. */
  lemma TimestampLeadingDigits(v5: nat, v4: nat, v3: nat, v2: nat, v1: nat, v0: nat)
    requires v5 == 48551 && v4 == 1517 && v3 == 47 && v2 == 1 && v1 == 0 && v0 == 0
    ensures Ulid.EncodeN(v5, 5) == "01FD7"
  {
    Ulid.EncodeStep(v5, v4, 7, 4);
    Ulid.EncodeStep(v4, v3, 13, 3);
    Ulid.EncodeStep(v3, v2, 15, 2);
    Ulid.EncodeStep(v2, v1, 1, 1);
    Ulid.EncodeStep(v1, v0, 0, 0);
  }

  /** Every ULID this generator returns has the text "01FD7SJ7J0" followed by its 16 entropy characters. */
  lemma MockText(e: Ulid.Entropy)
    ensures Ulid.Encode(Ulid.New(FixedTimestamp, e)) == "01FD7SJ7J0" + Ulid.EncodeN(e, 16)
  {
    Ulid.EncodeSplit(FixedTimestamp, e);
    FixedTimestampText();
  }
}
