/** Object identifiers: the 64-bit FNV-1a hash of a name (section 2, "FNV Basics", of draft-eastlake-fnv). */
module Fnv {
  import opened Words
  import opened Memory

  const OFFSET_BASIS: nat := 0xcbf29ce484222325
  const PRIME: nat := 0x100000001b3
  /** The inverse of the odd prime modulo 2^64. */
  const INVERSE: nat := 0xce965057aff6957b

  /** Exclusive or with the byte, then a wrapping multiplication. */
  function Step(h: nat, b: Byte): (r: nat)
    ensures r < U64
  {
    Xor(h, b) * PRIME % U64
  }

  /** The hash of `name` from the state `h` on. */
  function Hash(h: nat, name: seq<Byte>): (r: nat)
    requires h < U64
    ensures r < U64
  {
    if name == [] then h else Step(Hash(h, name[..|name| - 1]), name[|name| - 1])
  }

  method GenerateObjectId(name: seq<Byte>) returns (hash: nat)
    ensures hash == Hash(OFFSET_BASIS, name)
  {
    hash := OFFSET_BASIS;
    for i := 0 to |name|
      invariant hash == Hash(OFFSET_BASIS, name[..i])
    {
      assert name[..i + 1][..i] == name[..i];
      hash := Xor(hash, name[i]);
      hash := hash * PRIME % U64;
    }
    assert name[..|name|] == name;
  }

  lemma LetterMixedIn()
    ensures Xor(0xcbf29ce484222325, 97) == 0xcbf29ce484222344
  {
    hide Xor;
    XorZero(0x197e539c9084446);
    XorBit(0x197e539c9084446, 0, 0, 1);
    XorBit(0x32fca739210888c, 1, 1, 1);
    XorBit(0x65f94e724211119, 3, 0, 0);
    XorBit(0xcbf29ce48422232, 6, 0, 0);
    XorBit(0x197e539c90844464, 12, 1, 0);
    XorBit(0x32fca739210888c9, 24, 0, 0);
    XorBit(0x65f94e7242111192, 48, 1, 1);
  }

  /** The empty name hashes to the offset basis of the 64-bit variant; and the known value of a one-letter name. */
  lemma KnownHashes()
    ensures Hash(OFFSET_BASIS, []) == 14695981039346656037
    ensures Hash(OFFSET_BASIS, ['a' as int]) == 12638187200555641996
  {
    hide Xor;
    LetterMixedIn();
    var name: seq<Byte> := ['a' as int];
    assert name[..0] == [];
    assert 0xcbf29ce484222344 * 0x100000001b3 % 0x1_0000_0000_0000_0000 == 12638187200555641996;
    assert Hash(OFFSET_BASIS, name) == Step(OFFSET_BASIS, 97);
  }

  /** Multiplication by the prime can be undone. */
  lemma TimesPrimeInvertible(x: nat)
    requires x < U64
    ensures x * PRIME % U64 * INVERSE % U64 == x
  {
    var y := x * PRIME % U64;
    var q := x * PRIME / U64;
    assert x * PRIME == q * U64 + y;
    var k := (PRIME * INVERSE - 1) / U64;
    assert PRIME * INVERSE == k * U64 + 1;
    calc {
      y * INVERSE;
      (x * PRIME - q * U64) * INVERSE;
      x * (PRIME * INVERSE) - q * INVERSE * U64;
      (x * k - q * INVERSE) * U64 + x;
    }
    DivModUnique(y * INVERSE, U64, x * k - q * INVERSE, x);
  }

  lemma ByteFits(h: nat, b: Byte)
    requires h < U64
    ensures Xor(h, b) < U64
  {
    Pow2Of64();
    XorFits(h, b, 64);
  }

  /** One step can be undone, so it maps different states to different states. */
  lemma StepInvertible(h: nat, b: Byte)
    requires h < U64
    ensures Xor(Step(h, b) * INVERSE % U64, b) == h
  {
    ByteFits(h, b);
    TimesPrimeInvertible(Xor(h, b));
    XorUndoes(h, b);
  }

  /** Different bytes take the same state to different states. */
  lemma StepSeparates(h: nat, a: Byte, b: Byte)
    requires h < U64 && Step(h, a) == Step(h, b)
    ensures a == b
  {
    ByteFits(h, a);
    ByteFits(h, b);
    TimesPrimeInvertible(Xor(h, a));
    TimesPrimeInvertible(Xor(h, b));
    XorSeparates(h, a, b);
  }

  lemma {:induction false} HashAppend(h: nat, p: seq<Byte>, q: seq<Byte>)
    requires h < U64
    ensures Hash(h, p + q) == Hash(Hash(h, p), q)
  {
    hide Step;
    if q == [] {
      assert p + q == p;
    } else {
      HashAppend(h, p, q[..|q| - 1]);
      assert (p + q)[..|p + q| - 1] == p + q[..|q| - 1];
    }
  }

  /** Hashing the same bytes keeps states apart that were apart. */
  lemma {:induction false} SameSuffix(h: nat, g: nat, q: seq<Byte>)
    requires h < U64 && g < U64
    ensures Hash(h, q) == Hash(g, q) <==> h == g
  {
    hide Step;
    if q != [] {
      var front, b := q[..|q| - 1], q[|q| - 1];
      SameSuffix(h, g, front);
      StepInvertible(Hash(h, front), b);
      StepInvertible(Hash(g, front), b);
    }
  }

  /** Two names with a common beginning and end collide exactly if they collide without the common end. */
  lemma CollisionIff(p: seq<Byte>, a: seq<Byte>, b: seq<Byte>, q: seq<Byte>)
    ensures Hash(OFFSET_BASIS, p + a + q) == Hash(OFFSET_BASIS, p + b + q) <==>
            Hash(Hash(OFFSET_BASIS, p), a) == Hash(Hash(OFFSET_BASIS, p), b)
  {
    HashAppend(OFFSET_BASIS, p + a, q);
    HashAppend(OFFSET_BASIS, p + b, q);
    HashAppend(OFFSET_BASIS, p, a);
    HashAppend(OFFSET_BASIS, p, b);
    SameSuffix(Hash(OFFSET_BASIS, p + a), Hash(OFFSET_BASIS, p + b), q);
  }

  /** Names of equal length that differ in exactly one byte have different identifiers. */
  lemma OneByteApart(s: seq<Byte>, t: seq<Byte>, i: nat)
    requires |s| == |t| && i < |s| && s[i] != t[i]
    requires forall j :: 0 <= j < |s| && j != i ==> s[j] == t[j]
    ensures Hash(OFFSET_BASIS, s) != Hash(OFFSET_BASIS, t)
  {
    hide Step;
    var p, q := s[..i], s[i + 1..];
    assert s == p + [s[i]] + q && t == p + [t[i]] + q;
    CollisionIff(p, [s[i]], [t[i]], q);
    var h := Hash(OFFSET_BASIS, p);
    assert [s[i]][..0] == [] && [t[i]][..0] == [];
    assert Hash(h, [s[i]]) == Step(h, s[i]) && Hash(h, [t[i]]) == Step(h, t[i]);
    if Step(h, s[i]) == Step(h, t[i]) { StepSeparates(h, s[i], t[i]); }
  }
}
