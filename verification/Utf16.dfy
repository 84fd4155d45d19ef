/**
  * UTF-16 as used by package mgr: definition D91 in section 3.9 of the Unicode Standard, with the
  * replacement of unpaired surrogates on decoding. A Go string is a sequence of Unicode scalar values.
  */
module Utf16 {
  import opened Wrappers

  type Scalar = c: int | 0 <= c < 0x11_0000 && !(0xD800 <= c < 0xE000)
  type Unit = u: int | 0 <= u < 0x1_0000
  type GoString = seq<Scalar>

  const REPLACEMENT: Scalar := 0xFFFD

  predicate IsHigh(u: Unit) {
    0xD800 <= u < 0xDC00
  }

  predicate IsLow(u: Unit) {
    0xDC00 <= u < 0xE000
  }

  predicate StartsPair(u: seq<Unit>) {
    |u| >= 2 && IsHigh(u[0]) && IsLow(u[1])
  }

  function EncodeRune(c: Scalar): (u: seq<Unit>)
    ensures if c < 0x1_0000 then u == [c] && !IsHigh(c) && !IsLow(c) else |u| == 2 && StartsPair(u) && PairValue(u) == c
    ensures 0 in u <==> c == 0
  {
    if c < 0x1_0000 then [c] else [0xD800 + (c - 0x1_0000) / 1024, 0xDC00 + (c - 0x1_0000) % 1024]
  }

  /** The scalar value of a surrogate pair. */
  function PairValue(u: seq<Unit>): (c: Scalar)
    requires StartsPair(u)
    ensures c >= 0x1_0000
  {
    (u[0] as int - 0xD800) * 1024 + (u[1] as int - 0xDC00) + 0x1_0000
  }

  function Encode(s: GoString): seq<Unit> {
    if s == [] then [] else EncodeRune(s[0]) + Encode(s[1..])
  }

  /** Decoding is total: a surrogate outside a pair becomes U+FFFD. */
  function Decode(u: seq<Unit>): GoString {
    if u == [] then []
    else if StartsPair(u) then [PairValue(u)] + Decode(u[2..])
    else if IsHigh(u[0]) || IsLow(u[0]) then [REPLACEMENT] + Decode(u[1..])
    else [u[0]] + Decode(u[1..])
  }

  /** Every surrogate is part of a pair. */
  predicate WellFormed(u: seq<Unit>) {
    u == []
    || (StartsPair(u) && WellFormed(u[2..]))
    || (!IsHigh(u[0]) && !IsLow(u[0]) && WellFormed(u[1..]))
  }

  lemma EncodeCons(c: Scalar, s: GoString)
    ensures Encode([c] + s) == EncodeRune(c) + Encode(s)
  {
    assert ([c] + s)[1..] == s;
  }

  lemma {:induction false} EncodeConcat(s: GoString, t: GoString)
    ensures Encode(s + t) == Encode(s) + Encode(t)
  {
    if s == [] {
      assert s + t == t;
    } else {
      EncodeConcat(s[1..], t);
      Assoc([s[0]], s[1..], t);
      assert s == [s[0]] + s[1..];
      EncodeCons(s[0], s[1..] + t);
      Assoc(EncodeRune(s[0]), Encode(s[1..]), Encode(t));
    }
  }

  /** A zero unit arises only from U+0000, across surrogate pairs too. */
  lemma {:induction false} ZeroUnits(s: GoString)
    ensures 0 in Encode(s) <==> 0 in s
  {
    if s != [] {
      ZeroUnits(s[1..]);
      assert s == [s[0]] + s[1..];
    }
  }

  lemma {:induction false} DecodeZero(u: seq<Unit>)
    ensures 0 in Decode(u) <==> 0 in u
  {
    if u == [] {
    } else if StartsPair(u) {
      DecodeZero(u[2..]);
      assert u == [u[0], u[1]] + u[2..];
    } else {
      DecodeZero(u[1..]);
      assert u == [u[0]] + u[1..];
    }
  }

  lemma DecodeRune(c: Scalar, rest: seq<Unit>)
    ensures Decode(EncodeRune(c) + rest) == [c] + Decode(rest)
  {
    var (r, u) := (EncodeRune(c), EncodeRune(c) + rest);
    assert u[|r|..] == rest && u[0] == r[0];
    if c >= 0x1_0000 {
      assert u[1] == r[1];
    }
  }

  /** Decoding an encoded string gives the string back, whatever follows it in memory. */
  lemma {:induction false} DecodeEncode(s: GoString, rest: seq<Unit>)
    ensures Decode(Encode(s) + rest) == s + Decode(rest)
  {
    if s == [] {
      assert Encode(s) + rest == rest;
    } else {
      DecodeEncode(s[1..], rest);
      DecodeRune(s[0], Encode(s[1..]) + rest);
      Assoc(EncodeRune(s[0]), Encode(s[1..]), rest);
      Assoc([s[0]], s[1..], Decode(rest));
      assert s == [s[0]] + s[1..];
    }
  }

  lemma {:induction false} EncodeWellFormed(s: GoString)
    ensures WellFormed(Encode(s))
  {
    if s != [] {
      EncodeWellFormed(s[1..]);
      var (r, u) := (EncodeRune(s[0]), Encode(s));
      assert u[|r|..] == Encode(s[1..]);
    }
  }

  /** Re-encoding keeps the length, and gives the units back exactly when they are well-formed. */
  lemma {:induction false} EncodeDecode(u: seq<Unit>)
    ensures |Encode(Decode(u))| == |u|
    ensures Encode(Decode(u)) == u <==> WellFormed(u)
  {
    if u != [] {
      var n := if StartsPair(u) then 2 else 1;
      EncodeDecode(u[n..]);
      var s := Decode(u);
      assert s[1..] == Decode(u[n..]);
      var r := EncodeRune(s[0]);
      assert Encode(s) == r + Encode(s[1..]) && |r| == n;
      assert u == u[..n] + u[n..];
      assert Encode(s)[n..] == Encode(s[1..]) && Encode(s)[..n] == r;
      if n == 2 {
        PairEncodes(u);
      }
    }
  }

  /**
    * Surrogate pairs in the order of their units are the scalar values from U+10000 to U+10FFFF in theirs:
    * an increasing map of the one onto the other, of which there is only one.
    */
  lemma PairsInOrder(u: seq<Unit>, v: seq<Unit>)
    requires StartsPair(u) && StartsPair(v)
    ensures PairValue(u) < PairValue(v) <==> u[0] < v[0] || (u[0] == v[0] && u[1] < v[1])
    ensures 0x1_0000 <= PairValue(u) < 0x11_0000
  {
    var (a, b) := (u[0] as int - v[0] as int, u[1] as int - v[1] as int);
    assert PairValue(u) as int - PairValue(v) as int == a * 1024 + b && -1024 < b < 1024;
  }

  lemma PairsReachAll(c: Scalar) returns (u: seq<Unit>)
    requires c >= 0x1_0000
    ensures |u| == 2 && StartsPair(u) && PairValue(u) == c && Encode([c]) == u && Decode(u) == [c]
  {
    u := EncodeRune(c);
    assert Encode([c]) == u + [] && u + [] == u;
    DecodeEncode([c], []);
    assert u + [] == u && [c] + Decode([]) == [c];
  }

  /** The well-formed unit sequences are exactly the encodings of strings. */
  lemma WellFormedIffEncoded(u: seq<Unit>)
    ensures WellFormed(u) <==> exists s :: Encode(s) == u
  {
    EncodeDecode(u);
    if s :| Encode(s) == u {
      EncodeWellFormed(s);
    }
  }

  lemma PairEncodes(u: seq<Unit>)
    requires StartsPair(u)
    ensures EncodeRune(PairValue(u)) == u[..2]
  {
    var v := PairValue(u) - 0x1_0000;
    assert v / 1024 == u[0] as int - 0xD800 && v % 1024 == u[1] as int - 0xDC00;
  }

  /** A zero unit is never part of a pair, so it separates well-formed parts. */
  lemma {:induction false} WellFormedAround(a: seq<Unit>, b: seq<Unit>)
    ensures WellFormed(a + [0] + b) <==> WellFormed(a) && WellFormed(b)
  {
    var u := a + [0] + b;
    if a == [] {
      assert u[1..] == b;
    } else if StartsPair(a) {
      WellFormedAround(a[2..], b);
      assert u[2..] == a[2..] + [0] + b;
    } else {
      WellFormedAround(a[1..], b);
      assert u[1..] == a[1..] + [0] + b;
    }
  }

  // ---- Cutting an encoded string ----

  /** How many scalar values of s fit entirely into its first n units. */
  function RunesWithin(s: GoString, n: nat): (k: nat)
    ensures k <= |s|
  {
    if s == [] || |EncodeRune(s[0])| > n then 0
    else 1 + RunesWithin(s[1..], n - |EncodeRune(s[0])|)
  }

  lemma CutCons<T>(a: seq<T>, b: seq<T>, n: nat)
    requires |a| <= n <= |a| + |b|
    ensures (a + b)[..n] == a + b[..n - |a|]
  {}

  /** Cutting behind the first rune cuts the encoding of the rest. */
  lemma CutBehindFirst(s: GoString, n: nat, k: nat)
    requires s != [] && |EncodeRune(s[0])| <= n <= |Encode(s)| && 1 <= k <= |s|
    ensures var m := n - |EncodeRune(s[0])|;
      && m <= |Encode(s[1..])|
      && Decode(Encode(s)[..n]) == [s[0]] + Decode(Encode(s[1..])[..m])
    ensures s[..k] == [s[0]] + s[1..][..k - 1]
    ensures Encode(s[..k]) == EncodeRune(s[0]) + Encode(s[1..][..k - 1])
  {
    var r := EncodeRune(s[0]);
    DecodeRune(s[0], Encode(s[1..])[..n - |r|]);
    CutCons(r, Encode(s[1..]), n);
    CutFirst(s, k);
    EncodeCons(s[0], s[1..][..k - 1]);
  }

  lemma CutFirst<T>(s: seq<T>, k: nat)
    requires 1 <= k <= |s|
    ensures s[..k] == [s[0]] + s[1..][..k - 1]
  {}

  /** The first n units decode to the scalar values that fit, and U+FFFD if a surrogate pair is split. */
  lemma {:induction false} DecodeCut(s: GoString, n: nat)
    requires n <= |Encode(s)|
    ensures var k := RunesWithin(s, n);
      Decode(Encode(s)[..n]) ==
        if |Encode(s[..k])| == n then s[..k] else s[..k] + [REPLACEMENT]
    ensures var k := RunesWithin(s, n);
      |Encode(s[..k])| == n || (|Encode(s[..k])| == n - 1 && k < |s| && s[k] >= 0x1_0000)
  {
    if s == [] || n == 0 {
      assert Encode(s)[..n] == [];
    } else {
      var (r, k) := (EncodeRune(s[0]), RunesWithin(s, n));
      if |r| > n {
        assert Encode(s)[..n] == [r[0]];
        assert s[..0] == [] && [r[0]][1..] == [];
      } else {
        CutBehindFirst(s, n, k);
        DecodeCut(s[1..], n - |r|);
        Assoc([s[0]], s[1..][..k - 1], [REPLACEMENT]);
      }
    }
  }
}
