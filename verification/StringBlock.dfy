/**
  * The string codecs of package mgr: toPtr and toString for single strings, toStringBlock and
  * toStringSlice for lists of strings as NUL-separated, double-NUL-terminated UTF-16. Memory behind a
  * pointer is a sequence of units that continues arbitrarily after what was allocated there.
  */
module StringBlock {
  import opened Wrappers
  import opened Utf16

  /** The views through which pointers are read: arrays of 4096 and of 1 << 24 units. */
  const STRING_WINDOW := 4096
  const BLOCK_WINDOW := 0x100_0000

  /** A *uint16: nil, or a pointer to newly allocated units. */
  datatype Ptr = Nil | To(block: seq<Unit>)

  /** A view of memory at a pointer agrees with what was allocated there, as far as both reach. */
  predicate Overlays(mem: seq<Unit>, block: seq<Unit>) {
    block <= mem || mem <= block
  }

  predicate NulFree(s: GoString) {
    0 !in s
  }

  predicate AllNulFree(ss: seq<GoString>) {
    forall s | s in ss :: NulFree(s)
  }

  function NonEmpty(ss: seq<GoString>): seq<GoString> {
    if ss == [] then [] else if ss[0] == [] then NonEmpty(ss[1..]) else [ss[0]] + NonEmpty(ss[1..])
  }

  // ---- toStringBlock ----

  function Terminated(s: GoString): GoString {
    if s == [] then [] else s + [0]
  }

  function Joined(ss: seq<GoString>): GoString {
    if ss == [] then [] else Terminated(ss[0]) + Joined(ss[1..])
  }

  function BlockUnits(ss: seq<GoString>): seq<Unit> {
    Encode(Joined(ss) + [0])
  }

  /** The block that toStringBlock allocates. */
  function Block(ss: seq<GoString>): Ptr {
    if Joined(ss) == [] then Nil else To(BlockUnits(ss))
  }

  method ToStringBlock(ss: seq<GoString>) returns (p: Ptr)
    ensures p == Block(ss)
  {
    if |ss| == 0 {
      return Nil;
    }
    var t: GoString := [];
    for i := 0 to |ss|
      invariant t + Joined(ss[i..]) == Joined(ss)
    {
      assert ss[i..][1..] == ss[i + 1..];
      if ss[i] != [] {
        t := t + (ss[i] + [0]);
      }
    }
    assert t == Joined(ss);
    if t == [] {
      return Nil;
    }
    t := t + [0];
    return To(Encode(t));
  }

  // ---- toStringSlice ----

  function FirstZero(u: seq<Unit>): (k: nat)
    ensures k <= |u|
    ensures k < |u| ==> u[k] == 0
    ensures forall j | 0 <= j < k :: u[j] != 0
  {
    if u == [] || u[0] == 0 then 0 else 1 + FirstZero(u[1..])
  }

  /** The strings before the first empty one; None when the view ends first and the index is out of range. */
  function Scan(u: seq<Unit>): Option<seq<GoString>>
    decreases |u|
  {
    var k := FirstZero(u);
    if k == |u| then None
    else if k == 0 then Some([])
    else Prepend([Decode(u[..k])], Scan(u[k + 1..]))
  }

  function Prepend(r: seq<GoString>, o: Option<seq<GoString>>): Option<seq<GoString>> {
    if o.None? then None else Some(r + o.value)
  }

  lemma PrependNothing(o: Option<seq<GoString>>)
    ensures Prepend([], o) == o
  {
    if o.Some? {
      assert [] + o.value == o.value;
    }
  }

  lemma PrependTwice(a: seq<GoString>, b: seq<GoString>, o: Option<seq<GoString>>)
    ensures Prepend(a, Prepend(b, o)) == Prepend(a + b, o)
  {
    if o.Some? {
      assert a + (b + o.value) == a + b + o.value;
    }
  }

  /** The number of units up to and including the terminator of the first empty string. */
  function Consumed(u: seq<Unit>): (n: nat)
    requires Scan(u).Some?
    ensures n <= |u|
    decreases |u|
  {
    var k := FirstZero(u);
    if k == 0 then 1 else k + 1 + Consumed(u[k + 1..])
  }

  /** A zero at i ends the string that starts at from, and an empty string ends the list. */
  lemma ScanAt(u: seq<Unit>, from: nat, i: nat)
    requires from <= i < |u| && u[i] == 0 && forall j | from <= j < i :: u[j] != 0
    ensures Scan(u[from..]) ==
      if i == from then Some([]) else Prepend([Decode(u[from..i])], Scan(u[i + 1..]))
  {
    FirstZeroAt(u[from..], i - from);
    assert u[from..][..i - from] == u[from..i] && u[from..][i - from + 1..] == u[i + 1..];
  }

  /** The index loop over the view at p; None is the panic of an index out of range. */
  method ToStringSlice(p: array?<Unit>) returns (r: Option<seq<GoString>>)
    requires p != null ==> p.Length == 0x100_0000
    ensures p == null ==> r == Some([])
    ensures p != null ==> r == Scan(p[..])
  {
    if p == null {
      return Some([]);
    }
    var ss: seq<GoString> := [];
    var from, i := 0, 0;
    ghost var u := p[..];
    assert u[from..] == u;
    PrependNothing(Scan(u));
    while i < p.Length
      invariant from <= i <= p.Length && u == p[..]
      invariant forall j | from <= j < i :: u[j] != 0
      invariant Scan(u) == Prepend(ss, Scan(u[from..]))
    {
      if p[i] == 0 {
        ScanAt(u, from, i);
        if i <= from {
          assert ss + [] == ss;
          return Some(ss);
        }
        assert p[from..i] == u[from..i];
        PrependTwice(ss, [Decode(u[from..i])], Scan(u[i + 1..]));
        ss := ss + [Decode(p[from..i])];
        from := i + 1;
      }
      i := i + 1;
    }
    assert FirstZero(u[from..]) == |u[from..]|;
    return None;
  }

  lemma FirstZeroAt(u: seq<Unit>, k: nat)
    requires k < |u| && u[k] == 0 && forall j | 0 <= j < k :: u[j] != 0
    ensures FirstZero(u) == k
  {}

  // ---- Printing, then scanning ----

  lemma {:induction false} ScanSegment(s: seq<Unit>, rest: seq<Unit>)
    requires s != [] && 0 !in s
    ensures Scan(s + [0] + rest) == Prepend([Decode(s)], Scan(rest))
    ensures Scan(rest).Some? ==> Consumed(s + [0] + rest) == |s| + 1 + Consumed(rest)
  {
    var u := s + [0] + rest;
    FirstZeroAt(u, |s|);
    assert u[..|s|] == s && u[|s| + 1..] == rest;
  }

  lemma ScanSegmentThen(s: seq<Unit>, tail: seq<Unit>, rest: seq<Unit>, ss: seq<GoString>)
    requires s != [] && 0 !in s
    requires Scan(tail + rest) == Some(ss) && Consumed(tail + rest) == |tail|
    ensures Scan(s + [0] + tail + rest) == Some([Decode(s)] + ss)
    ensures Consumed(s + [0] + tail + rest) == |s + [0] + tail|
  {
    Assoc(s + [0], tail, rest);
    ScanSegment(s, tail + rest);
  }

  lemma EncodeSegment(s: GoString, t: GoString)
    ensures Encode(s + [0] + t) == Encode(s) + [0] + Encode(t)
  {
    Assoc(s, [0], t);
    EncodeConcat(s, [0] + t);
    EncodeCons(0, t);
    Assoc(Encode(s), [0], Encode(t));
  }

  lemma BlockUnitsCons(ss: seq<GoString>)
    requires ss != []
    ensures BlockUnits(ss) ==
      if ss[0] == [] then BlockUnits(ss[1..]) else Encode(ss[0]) + [0] + BlockUnits(ss[1..])
  {
    var tail := Joined(ss[1..]) + [0];
    if ss[0] == [] {
      assert Joined(ss) == Joined(ss[1..]);
    } else {
      assert Joined(ss) + [0] == ss[0] + [0] + tail;
      EncodeSegment(ss[0], tail);
    }
  }

  lemma BlockUnitsNil()
    ensures BlockUnits([]) == [0]
  {
    assert Joined([]) + [0] == [0] && [0][1..] == [];
  }

  lemma Encoded(s: GoString)
    ensures Decode(Encode(s)) == s && (0 in Encode(s) <==> 0 in s)
    ensures s != [] ==> Encode(s) != []
  {
    ZeroUnits(s);
    DecodeEncode(s, []);
    assert Encode(s) + [] == Encode(s) && s + Decode([]) == s;
  }

  lemma {:induction false} ScanPrinted(ss: seq<GoString>, rest: seq<Unit>)
    requires AllNulFree(ss)
    ensures Scan(BlockUnits(ss) + rest) == Some(NonEmpty(ss))
    ensures Consumed(BlockUnits(ss) + rest) == |BlockUnits(ss)|
  {
    if ss == [] {
      BlockUnitsNil();
      FirstZeroAt([0] + rest, 0);
    } else {
      assert forall t | t in ss[1..] :: t in ss;
      ScanPrinted(ss[1..], rest);
      BlockUnitsCons(ss);
      if ss[0] != [] {
        assert NulFree(ss[0]);
        Encoded(ss[0]);
        ScanSegmentThen(Encode(ss[0]), BlockUnits(ss[1..]), rest, NonEmpty(ss[1..]));
      }
    }
  }

  /** More memory behind the view changes nothing once the scan has ended. */
  lemma {:induction false} ScanStable(u: seq<Unit>, v: seq<Unit>)
    requires Scan(u).Some?
    ensures Scan(u + v) == Scan(u) && Consumed(u + v) == Consumed(u)
    decreases |u|
  {
    var k := FirstZero(u);
    FirstZeroAt(u + v, k);
    if k > 0 {
      ScanStable(u[k + 1..], v);
      AppendParts(u, v, k);
    }
  }

  lemma AppendParts(u: seq<Unit>, v: seq<Unit>, k: nat)
    requires k < |u|
    ensures (u + v)[..k] == u[..k] && (u + v)[k + 1..] == u[k + 1..] + v
  {}

  lemma {:induction false} ScannedAreNulFree(u: seq<Unit>)
    requires Scan(u).Some?
    ensures AllNulFree(Scan(u).value) && [] !in Scan(u).value
    decreases |u|
  {
    var k := FirstZero(u);
    if k > 0 {
      ScannedAreNulFree(u[k + 1..]);
      DecodeZero(u[..k]);
    }
  }

  lemma {:induction false} NonEmptyMembers(ss: seq<GoString>, s: GoString)
    ensures s in NonEmpty(ss) <==> s in ss && s != []
  {
    if ss != [] {
      NonEmptyMembers(ss[1..], s);
      assert ss == [ss[0]] + ss[1..];
    }
  }

  lemma {:induction false} JoinedEmpty(ss: seq<GoString>)
    ensures Joined(ss) == [] <==> NonEmpty(ss) == []
  {
    if ss != [] {
      JoinedEmpty(ss[1..]);
    }
  }

  lemma NulFreeRoundTrip(ss: seq<GoString>, mem: seq<Unit>)
    requires AllNulFree(ss) && Overlays(mem, BlockUnits(ss))
    ensures Scan(mem) == if |BlockUnits(ss)| <= |mem| then Some(NonEmpty(ss)) else None
  {
    var block := BlockUnits(ss);
    if |block| <= |mem| {
      ScanPrinted(ss, mem[|block|..]);
      assert mem == block + mem[|block|..];
    } else {
      ScanPrinted(ss, []);
      assert block + [] == block && block == mem + block[|mem|..];
      if Scan(mem).Some? {
        ScanStable(mem, block[|mem|..]);
      }
    }
  }

  /**
    * Round trip of a list of strings: reading the block of ss back through the view gives ss without its
    * empty strings exactly when no string contains a NUL and the block fits into the view; a NUL-free
    * block that does not fit runs off its end. The nil block stands for the empty list.
    */
  lemma {:induction false} MultiStringRoundTrip(ss: seq<GoString>, mem: seq<Unit>)
    requires |mem| == 0x100_0000 && Overlays(mem, BlockUnits(ss))
    ensures Scan(mem) == Some(NonEmpty(ss)) <==> AllNulFree(ss) && |BlockUnits(ss)| <= 0x100_0000
    ensures AllNulFree(ss) && |BlockUnits(ss)| > 0x100_0000 ==> Scan(mem).None?
    ensures Block(ss) == Nil <==> NonEmpty(ss) == []
  {
    JoinedEmpty(ss);
    if AllNulFree(ss) {
      NulFreeRoundTrip(ss, mem);
    } else if Scan(mem) == Some(NonEmpty(ss)) {
      ScannedAreNulFree(mem);
      var s :| s in ss && !NulFree(s);
      NonEmptyMembers(ss, s);
    }
  }

  /** The list of one string U+0000 is such a list: its block scans, but to the empty list. */
  lemma NulStringIsLost(mem: seq<Unit>)
    requires |mem| == BLOCK_WINDOW && Overlays(mem, BlockUnits([[0]]))
    ensures Block([[0]]) == To([0, 0, 0]) && NonEmpty([[0]]) == [[0]]
    ensures Scan(mem) == Some([])
  {
    BlockUnitsNil();
    BlockUnitsCons([[0]]);
    assert Joined([[]]) == [] && Encode([0]) == [0];
    assert BlockUnits([[0]]) == [0, 0, 0];
    assert mem[0] == 0;
    FirstZeroAt(mem, 0);
  }

  // ---- Scanning, then printing ----

  /** Printing ss gives as many units as b has, and b itself exactly when b is well-formed. */
  predicate Reprints(ss: seq<GoString>, b: seq<Unit>) {
    |BlockUnits(ss)| == |b| && (BlockUnits(ss) == b <==> WellFormed(b))
  }

  lemma {:induction false} PrintSegment(a: seq<Unit>, ss: seq<GoString>, b: seq<Unit>)
    requires a != [] && Reprints(ss, b)
    ensures Reprints([Decode(a)] + ss, a + [0] + b)
  {
    WellFormedAround(a, b);
    EncodeDecode(a);
    assert ([Decode(a)] + ss)[1..] == ss && Decode(a) != [];
    BlockUnitsCons([Decode(a)] + ss);
    SameParts(Encode(Decode(a)), a, BlockUnits(ss), b);
  }

  lemma ScanTail(u: seq<Unit>) returns (a: seq<Unit>, rest: seq<Unit>)
    requires Scan(u).Some? && u[0] != 0
    ensures a != [] && |rest| < |u| && Scan(rest).Some?
    ensures Scan(u).value == [Decode(a)] + Scan(rest).value
    ensures u[..Consumed(u)] == a + [0] + rest[..Consumed(rest)]
  {
    var k := FirstZero(u);
    a, rest := u[..k], u[k + 1..];
    SliceParts(u, k, Consumed(rest));
  }

  lemma {:induction false} PrintScanned(u: seq<Unit>)
    requires Scan(u).Some?
    ensures Reprints(Scan(u).value, u[..Consumed(u)])
    decreases |u|
  {
    if u[0] == 0 {
      BlockUnitsNil();
      assert u[..1] == [0];
    } else {
      var a, rest := ScanTail(u);
      PrintScanned(rest);
      PrintSegment(a, Scan(rest).value, rest[..Consumed(rest)]);
    }
  }

  lemma SliceParts(u: seq<Unit>, k: nat, m: nat)
    requires k + 1 + m <= |u|
    ensures u[..k + 1 + m] == u[..k] + [u[k]] + u[k + 1..][..m]
  {}

  lemma SameParts(a: seq<Unit>, a': seq<Unit>, b: seq<Unit>, b': seq<Unit>)
    requires |a| == |a'|
    ensures a + [0] + b == a' + [0] + b' <==> a == a' && b == b'
  {
    var (x, y) := (a + [0] + b, a' + [0] + b');
    assert x[..|a|] == a && y[..|a|] == a' && x[|a| + 1..] == b && y[|a| + 1..] == b';
  }

  /**
    * Converse round trip: printing what was scanned from a terminated block reproduces exactly the units
    * up to and including the first empty string's terminator, or nil if the first string is empty,
    * precisely when those units are well-formed UTF-16.
    */
  lemma {:induction false} ScanThenPrint(u: seq<Unit>)
    requires Scan(u).Some?
    ensures var (ss, n) := (Scan(u).value, Consumed(u));
      && 1 <= n <= |u| && u[n - 1] == 0 && (n > 1 ==> u[n - 2] == 0)
      && (ss == [] <==> u[0] == 0)
      && (if u[0] == 0 then Block(ss) == Nil && n == 1 else (Block(ss) == To(u[..n]) <==> WellFormed(u[..n])))
  {
    var ss := Scan(u).value;
    ConsumedEnd(u);
    PrintScanned(u);
    ScannedAreNulFree(u);
    JoinedEmpty(ss);
    if ss != [] {
      NonEmptyMembers(ss, ss[0]);
    }
  }

  lemma {:induction false} ConsumedEnd(u: seq<Unit>)
    requires Scan(u).Some?
    ensures Consumed(u) >= 1 && u[Consumed(u) - 1] == 0
    ensures Consumed(u) == 1 <==> u[0] == 0
    ensures Consumed(u) > 1 ==> u[Consumed(u) - 2] == 0
    decreases |u|
  {
    var k := FirstZero(u);
    if k > 0 {
      ConsumedEnd(u[k + 1..]);
    }
  }

  // ---- Single strings ----

  /** toPtr; None is the panic of StringToUTF16Ptr on a string with a NUL. */
  function ToPtr(s: GoString): Option<Ptr> {
    if s == [] then Some(Nil)
    else if !NulFree(s) then None
    else Some(To(Encode(s) + [0]))
  }

  /** toString on nil, or on the 4096-unit view at a pointer. */
  function ToString(view: Option<seq<Unit>>): GoString {
    match view
    case None => []
    case Some(u) => Decode(u[..FirstZero(u)])
  }

  /** What a 4096-unit window leaves of a string. */
  function Windowed(s: GoString): GoString {
    if |Encode(s)| <= STRING_WINDOW then s
    else
      var k := RunesWithin(s, STRING_WINDOW);
      if |Encode(s[..k])| == STRING_WINDOW then s[..k] else s[..k] + [REPLACEMENT]
  }

  lemma UpToNul(u: seq<Unit>, rest: seq<Unit>)
    requires 0 !in u
    ensures FirstZero(u + [0] + rest) == |u| && FirstZero(u) == |u|
  {
    FirstZeroAt(u + [0] + rest, |u|);
  }

  /** What toString sees at a pointer: nothing at nil, and otherwise 4096 units that begin with its block. */
  predicate SeenAt(p: Ptr, view: Option<seq<Unit>>) {
    match p
    case Nil => view.None?
    case To(block) => view.Some? && |view.value| == STRING_WINDOW && Overlays(view.value, block)
  }

  /**
    * toPtr panics exactly on a NUL, and gives nil exactly for the empty string. A NUL-free string survives
    * toPtr and toString exactly when it has at most 4096 units; otherwise its first 4096 units are decoded,
    * and a surrogate pair split there becomes U+FFFD.
    */
  lemma {:induction false} SingleStringRoundTrip(s: GoString, view: Option<seq<Unit>>)
    requires ToPtr(s).Some? ==> SeenAt(ToPtr(s).value, view)
    ensures ToPtr(s).None? <==> !NulFree(s)
    ensures ToPtr(s) == Some(Nil) <==> s == []
    ensures NulFree(s) ==> ToString(view) == Windowed(s)
    ensures NulFree(s) ==> (ToString(view) == s <==> |Encode(s)| <= STRING_WINDOW)
  {
    if s != [] && NulFree(s) {
      WindowShows(s, view.value);
    }
  }

  lemma WindowShows(s: GoString, view: seq<Unit>)
    requires s != [] && NulFree(s)
    requires |view| == STRING_WINDOW && Overlays(view, Encode(s) + [0])
    ensures ToString(Some(view)) == Windowed(s)
    ensures ToString(Some(view)) == s <==> |Encode(s)| <= STRING_WINDOW
  {
    var u := Encode(s);
    Encoded(s);
    if |u| < STRING_WINDOW {
      UpToNul(u, view[|u| + 1..]);
      assert view == u + [0] + view[|u| + 1..];
      assert view[..|u|] == u;
    } else {
      assert view == u[..STRING_WINDOW];
      UpToNul(view, []);
      assert view[..STRING_WINDOW] == view;
      if |u| == STRING_WINDOW {
        assert u[..STRING_WINDOW] == u;
      } else {
        DecodeCut(s, STRING_WINDOW);
        EncodeDecode(view);
      }
    }
  }
}
