/**
  * Service.Config and Service.UpdateConfig (mgr/config.go) against one entry of the service control
  * manager's database, where a NULL string pointer and SERVICE_NO_CHANGE mean "keep", and the get/put
  * laws between them.
  */
module ServiceConfig {
  import opened Wrappers
  import opened ServiceStatus
  import opened Utf16
  import opened StringBlock

  const SERVICE_NO_CHANGE: uint32 := 0xFFFF_FFFF
  const ERROR_INSUFFICIENT_BUFFER: uint32 := 122

  datatype Config = Config(
    serviceType: uint32, startType: uint32, errorControl: uint32,
    binaryPathName: GoString, loadOrderGroup: GoString, tagId: uint32, dependencies: seq<GoString>,
    serviceStartName: GoString, displayName: GoString, password: GoString, description: GoString)

  /** What the SCM keeps for a service: its strings as units without their terminators. */
  datatype Entry = Entry(
    serviceType: uint32, startType: uint32, errorControl: uint32,
    path: seq<Unit>, group: seq<Unit>, tag: uint32, deps: seq<seq<Unit>>,
    startName: seq<Unit>, display: seq<Unit>, password: seq<Unit>, description: seq<Unit>)

  predicate IsCString(u: seq<Unit>) {
    0 !in u
  }

  /** Dependencies as the SCM lays them out. */
  function DepsUnits(deps: seq<seq<Unit>>): seq<Unit> {
    if deps == [] then [0] else deps[0] + [0] + DepsUnits(deps[1..])
  }

  predicate ValidDeps(deps: seq<seq<Unit>>) {
    (forall d | d in deps :: d != [] && IsCString(d)) && |DepsUnits(deps)| <= 0x100_0000
  }

  predicate ValidEntry(e: Entry) {
    && IsCString(e.path) && IsCString(e.group) && IsCString(e.startName) && IsCString(e.display)
    && IsCString(e.password) && IsCString(e.description) && ValidDeps(e.deps)
  }

  function EncodeAll(ss: seq<GoString>): seq<seq<Unit>> {
    seq(|ss|, i requires 0 <= i < |ss| => Encode(ss[i]))
  }

  function DecodeAll(us: seq<seq<Unit>>): seq<GoString> {
    seq(|us|, i requires 0 <= i < |us| => Decode(us[i]))
  }

  // ---- Reading and writing as functions of the entry ----

  /** The part of a stored string that toString's window shows. */
  function Shown(u: seq<Unit>): GoString {
    Decode(if |u| <= STRING_WINDOW then u else u[..STRING_WINDOW])
  }

  function Get(e: Entry): Config {
    Config(
      e.serviceType, e.startType, e.errorControl, Shown(e.path), Shown(e.group), e.tag, DecodeAll(e.deps),
      Shown(e.startName), Shown(e.display), [], Shown(e.description))
  }

  function KeepNumber(before: uint32, given: uint32): uint32 {
    if given == SERVICE_NO_CHANGE then before else given
  }

  function KeepString(before: seq<Unit>, given: GoString): seq<Unit> {
    if given == [] then before else Encode(given)
  }

  /** The units of a double-NUL-terminated block up to its first empty string. */
  function Split(u: seq<Unit>): seq<seq<Unit>>
    decreases |u|
  {
    var k := FirstZero(u);
    if k == 0 || k == |u| then [] else [u[..k]] + Split(u[k + 1..])
  }

  function KeepDeps(before: seq<seq<Unit>>, given: seq<GoString>): seq<seq<Unit>> {
    if NonEmpty(given) == [] then before else Split(BlockUnits(given))
  }

  /** The effect of ChangeServiceConfig, that is, of everything but the description. */
  function PutMain(e: Entry, c: Config): Entry {
    Entry(
      KeepNumber(e.serviceType, c.serviceType), KeepNumber(e.startType, c.startType),
      KeepNumber(e.errorControl, c.errorControl),
      KeepString(e.path, c.binaryPathName), KeepString(e.group, c.loadOrderGroup), e.tag,
      KeepDeps(e.deps, c.dependencies), KeepString(e.startName, c.serviceStartName),
      KeepString(e.display, c.displayName), KeepString(e.password, c.password), e.description)
  }

  function Put(e: Entry, c: Config): Entry {
    PutMain(e, c).(description := KeepString(e.description, c.description))
  }

  // ---- What an update stores and a query returns, field by field ----

  /** A given string is stored in full; the empty string keeps what was there. */
  predicate StoresString(before: seq<Unit>, given: GoString, after: seq<Unit>) {
    if given == [] then after == before else WellFormed(after) && Decode(after) == given
  }

  predicate StoresNumber(before: uint32, given: uint32, after: uint32) {
    if given == 0xFFFF_FFFF then after == before else after == given
  }

  /** The non-empty dependencies are stored in order, unless there are none; NULs make no promise here. */
  predicate StoresDeps(before: seq<seq<Unit>>, given: seq<GoString>, after: seq<seq<Unit>>) {
    && (NonEmpty(given) == [] ==> after == before)
    && (NonEmpty(given) != [] && AllNulFree(given) ==>
      && |after| == |NonEmpty(given)|
      && forall i | 0 <= i < |after| :: WellFormed(after[i]) && Decode(after[i]) == NonEmpty(given)[i])
  }

  /** Everything that UpdateConfig's first call stores: all but the description. */
  predicate StoresMain(before: Entry, c: Config, after: Entry) {
    && StoresNumber(before.serviceType, c.serviceType, after.serviceType)
    && StoresNumber(before.startType, c.startType, after.startType)
    && StoresNumber(before.errorControl, c.errorControl, after.errorControl)
    && StoresString(before.path, c.binaryPathName, after.path)
    && StoresString(before.group, c.loadOrderGroup, after.group)
    && StoresDeps(before.deps, c.dependencies, after.deps)
    && StoresString(before.startName, c.serviceStartName, after.startName)
    && StoresString(before.display, c.displayName, after.display)
    && StoresString(before.password, c.password, after.password)
    && after.tag == before.tag
  }

  /** A stored string is returned whole up to 4096 units, so that its units can be recovered if well-formed. */
  predicate ReturnsString(u: seq<Unit>, s: GoString) {
    && s == Decode(if |u| <= 4096 then u else u[..4096])
    && (|u| <= 4096 && WellFormed(u) ==> Encode(s) == u)
  }

  /** Every field of c is that of the entry; the password is not returned. */
  predicate Returns(e: Entry, c: Config) {
    && c.serviceType == e.serviceType && c.startType == e.startType && c.errorControl == e.errorControl
    && c.tagId == e.tag && c.password == []
    && ReturnsString(e.path, c.binaryPathName) && ReturnsString(e.group, c.loadOrderGroup)
    && ReturnsString(e.startName, c.serviceStartName) && ReturnsString(e.display, c.displayName)
    && ReturnsString(e.description, c.description)
    && |c.dependencies| == |e.deps|
    && forall i | 0 <= i < |e.deps| :: c.dependencies[i] == Decode(e.deps[i])
  }

  lemma ShownReturns(u: seq<Unit>)
    ensures ReturnsString(u, Shown(u))
  {
    EncodeDecode(u);
  }

  lemma GetReturns(e: Entry)
    ensures Returns(e, Get(e))
  {
    ShownReturns(e.path);
    ShownReturns(e.group);
    ShownReturns(e.startName);
    ShownReturns(e.display);
    ShownReturns(e.description);
  }

  lemma KeepStores(before: seq<Unit>, given: GoString)
    ensures StoresString(before, given, KeepString(before, given))
  {
    Encoded(given);
    EncodeWellFormed(given);
  }

  lemma KeepStoresDeps(before: seq<seq<Unit>>, given: seq<GoString>)
    ensures StoresDeps(before, given, KeepDeps(before, given))
  {
    if NonEmpty(given) != [] && AllNulFree(given) {
      SplitPrinted(given);
      forall i | 0 <= i < |NonEmpty(given)|
        ensures WellFormed(EncodeAll(NonEmpty(given))[i])
        ensures Decode(EncodeAll(NonEmpty(given))[i]) == NonEmpty(given)[i]
      {
        Encoded(NonEmpty(given)[i]);
        EncodeWellFormed(NonEmpty(given)[i]);
      }
    }
  }

  lemma PutStores(e: Entry, c: Config)
    ensures StoresMain(e, c, PutMain(e, c)) && StoresMain(e, c, Put(e, c))
    ensures PutMain(e, c).description == e.description
    ensures StoresString(e.description, c.description, Put(e, c).description)
  {
    KeepStores(e.path, c.binaryPathName);
    KeepStores(e.group, c.loadOrderGroup);
    KeepStores(e.startName, c.serviceStartName);
    KeepStores(e.display, c.displayName);
    KeepStores(e.password, c.password);
    KeepStores(e.description, c.description);
    KeepStoresDeps(e.deps, c.dependencies);
  }

  lemma UpdateStores(e: Entry, c: Config, whole: bool, after: Entry)
    requires after == if whole then Put(e, c) else PutMain(e, c)
    ensures StoresMain(e, c, after)
    ensures if whole then StoresString(e.description, c.description, after.description)
      else after.description == e.description
  {
    PutStores(e, c);
  }

  // ---- The SCM's side of the calls ----

  /** What follows a string in memory, and whether an empty string is returned as NULL. */
  datatype Memory = Memory(junk: seq<Unit>, nullIfEmpty: bool)

  predicate Reaches(m: Memory) {
    |m.junk| >= BLOCK_WINDOW
  }

  function StringView(u: seq<Unit>, m: Memory): Option<seq<Unit>>
    requires Reaches(m)
  {
    if u == [] && m.nullIfEmpty then None else Some((u + [0] + m.junk)[..STRING_WINDOW])
  }

  function DepsView(deps: seq<seq<Unit>>, m: Memory): Option<seq<Unit>>
    requires Reaches(m)
  {
    if deps == [] && m.nullIfEmpty then None else Some((DepsUnits(deps) + m.junk)[..BLOCK_WINDOW])
  }

  /** QUERY_SERVICE_CONFIG with the views at its pointers. */
  datatype Query = Query(
    serviceType: uint32, startType: uint32, errorControl: uint32,
    path: Option<seq<Unit>>, group: Option<seq<Unit>>, tag: uint32, deps: Option<seq<Unit>>,
    startName: Option<seq<Unit>>, display: Option<seq<Unit>>)

  function QueryViews(e: Entry, m: Memory): Query
    requires Reaches(m)
  {
    Query(
      e.serviceType, e.startType, e.errorControl, StringView(e.path, m), StringView(e.group, m), e.tag,
      DepsView(e.deps, m), StringView(e.startName, m), StringView(e.display, m))
  }

  const QUERY_HEADER_BYTES := 64
  const DESCRIPTION_HEADER_BYTES := 8

  function NeededForConfig(e: Entry): nat {
    QUERY_HEADER_BYTES + 2 * (|e.path| + |e.group| + |DepsUnits(e.deps)| + |e.startName| + |e.display| + 4)
  }

  function NeededForDescription(e: Entry): nat {
    DESCRIPTION_HEADER_BYTES + 2 * (|e.description| + 1)
  }

  /** The errno of a query: that of an injected fault, or ERROR_INSUFFICIENT_BUFFER, or 0. */
  function QueryErrno(bufSize: nat, needed: nat, fault: uint32): uint32 {
    if fault != 0 then fault else if bufSize < needed then ERROR_INSUFFICIENT_BUFFER else 0
  }

  function StoreString(before: seq<Unit>, p: Ptr): seq<Unit> {
    if p.Nil? then before else p.block[..FirstZero(p.block)]
  }

  function StoreDeps(before: seq<seq<Unit>>, p: Ptr): seq<seq<Unit>> {
    if p.Nil? then before else Split(p.block)
  }

  /** One entry of the SCM database. A fault is the errno of a failing call, 0 for none. */
  class Scm {
    var entry: Entry

    constructor (e: Entry)
      ensures entry == e
    {
      entry := e;
    }

    method ChangeServiceConfig(
      serviceType: uint32, startType: uint32, errorControl: uint32, path: Ptr, group: Ptr, deps: Ptr,
      startName: Ptr, password: Ptr, display: Ptr, fault: uint32) returns (err: uint32)
      modifies this
      ensures err == fault && (err != 0 ==> entry == old(entry))
      ensures err == 0 ==> entry == old(Entry(
        KeepNumber(entry.serviceType, serviceType), KeepNumber(entry.startType, startType),
        KeepNumber(entry.errorControl, errorControl), StoreString(entry.path, path),
        StoreString(entry.group, group), entry.tag, StoreDeps(entry.deps, deps),
        StoreString(entry.startName, startName), StoreString(entry.display, display),
        StoreString(entry.password, password), entry.description))
    {
      if fault == 0 {
        entry := Entry(
          KeepNumber(entry.serviceType, serviceType), KeepNumber(entry.startType, startType),
          KeepNumber(entry.errorControl, errorControl), StoreString(entry.path, path),
          StoreString(entry.group, group), entry.tag, StoreDeps(entry.deps, deps),
          StoreString(entry.startName, startName), StoreString(entry.display, display),
          StoreString(entry.password, password), entry.description);
      }
      return fault;
    }

    method ChangeServiceConfig2(description: Ptr, fault: uint32) returns (err: uint32)
      modifies this
      ensures err == fault && (err != 0 ==> entry == old(entry))
      ensures err == 0 ==> entry == old(entry).(description := StoreString(old(entry).description, description))
    {
      if fault == 0 {
        entry := entry.(description := StoreString(entry.description, description));
      }
      return fault;
    }

    method QueryServiceConfig(bufSize: nat, fault: uint32, m: Memory) returns (err: uint32, l: nat, q: Option<Query>)
      requires Reaches(m)
      ensures l == NeededForConfig(entry) && err == QueryErrno(bufSize, l, fault)
      ensures q == if err == 0 then Some(QueryViews(entry, m)) else None
    {
      l := NeededForConfig(entry);
      err := QueryErrno(bufSize, l, fault);
      q := if err == 0 then Some(QueryViews(entry, m)) else None;
    }

    method QueryServiceConfig2(bufSize: nat, fault: uint32, m: Memory)
      returns (err: uint32, l: nat, description: Option<seq<Unit>>)
      requires Reaches(m)
      ensures l == NeededForDescription(entry) && err == QueryErrno(bufSize, l, fault)
      ensures err == 0 ==> description == StringView(entry.description, m)
    {
      l := NeededForDescription(entry);
      err := QueryErrno(bufSize, l, fault);
      description := StringView(entry.description, m);
    }
  }

  // ---- UpdateConfig ----

  datatype UpdateResult = Updated | UpdateFailed(errno: uint32) | Panicked

  /** The strings whose conversion happens before the first call. */
  predicate MainNulFree(c: Config) {
    && NulFree(c.binaryPathName) && NulFree(c.loadOrderGroup) && NulFree(c.serviceStartName)
    && NulFree(c.password) && NulFree(c.displayName)
  }

  lemma StoredPtr(before: seq<Unit>, s: GoString)
    requires NulFree(s)
    ensures ToPtr(s).Some? && StoreString(before, ToPtr(s).value) == KeepString(before, s)
  {
    if s != [] {
      Encoded(s);
      UpToNul(Encode(s), []);
      assert Encode(s) + [0] + [] == Encode(s) + [0];
      assert (Encode(s) + [0])[..|Encode(s)|] == Encode(s);
    }
  }

  /** updateDescription */
  method UpdateDescription(scm: Scm, desc: GoString, fault: uint32) returns (r: UpdateResult)
    modifies scm
    ensures r == if !NulFree(desc) then Panicked else if fault != 0 then UpdateFailed(fault) else Updated
    ensures scm.entry == if r == Updated
      then old(scm.entry).(description := KeepString(old(scm.entry).description, desc))
      else old(scm.entry)
    ensures r == Updated ==> StoresString(old(scm.entry).description, desc, scm.entry.description)
  {
    var d := ToPtr(desc);
    if d.None? {
      return Panicked;
    }
    StoredPtr(scm.entry.description, desc);
    var err := scm.ChangeServiceConfig2(d.value, fault);
    if err != 0 {
      return UpdateFailed(err);
    }
    KeepStores(old(scm.entry).description, desc);
    return Updated;
  }

  /** The conversions of UpdateConfig and its first call: everything but the description. */
  method ChangeMain(scm: Scm, c: Config, fault: uint32) returns (r: UpdateResult)
    modifies scm
    ensures r == if !MainNulFree(c) then Panicked else if fault != 0 then UpdateFailed(fault) else Updated
    ensures scm.entry == if r == Updated then PutMain(old(scm.entry), c) else old(scm.entry)
  {
    var path, group := ToPtr(c.binaryPathName), ToPtr(c.loadOrderGroup);
    var deps := ToStringBlock(c.dependencies);
    var startName, password, display := ToPtr(c.serviceStartName), ToPtr(c.password), ToPtr(c.displayName);
    if path.None? || group.None? || startName.None? || password.None? || display.None? {
      return Panicked;
    }
    ghost var e := scm.entry;
    StoredPtr(e.path, c.binaryPathName);
    StoredPtr(e.group, c.loadOrderGroup);
    StoredPtr(e.startName, c.serviceStartName);
    StoredPtr(e.password, c.password);
    StoredPtr(e.display, c.displayName);
    JoinedEmpty(c.dependencies);
    var err := scm.ChangeServiceConfig(
      c.serviceType, c.startType, c.errorControl, path.value, group.value, deps, startName.value, password.value,
      display.value, fault);
    return if err != 0 then UpdateFailed(err) else Updated;
  }

  /**
    * Service.UpdateConfig. The two calls are not atomic: when the description fails, everything else has
    * already been changed.
    */
  method UpdateConfig(scm: Scm, c: Config, fault: uint32, fault2: uint32) returns (r: UpdateResult)
    modifies scm
    ensures !MainNulFree(c) ==> r == Panicked && scm.entry == old(scm.entry)
    ensures MainNulFree(c) && fault != 0 ==> r == UpdateFailed(fault) && scm.entry == old(scm.entry)
    ensures MainNulFree(c) && fault == 0 ==>
      && r == (if !NulFree(c.description) then Panicked else if fault2 != 0 then UpdateFailed(fault2) else Updated)
      && scm.entry == if r == Updated then Put(old(scm.entry), c) else PutMain(old(scm.entry), c)
    ensures r != Updated && scm.entry != old(scm.entry) <==>
      && MainNulFree(c) && fault == 0 && (!NulFree(c.description) || fault2 != 0)
      && PutMain(old(scm.entry), c) != old(scm.entry)
    ensures MainNulFree(c) && fault == 0 ==> StoresMain(old(scm.entry), c, scm.entry)
    ensures r == Updated ==> StoresString(old(scm.entry).description, c.description, scm.entry.description)
    ensures r != Updated ==> scm.entry.description == old(scm.entry).description
  {
    ghost var e := scm.entry;
    r := ChangeMain(scm, c, fault);
    if r == Updated {
      r := UpdateDescription(scm, c.description, fault2);
      UpdateStores(e, c, r == Updated, scm.entry);
    }
  }

  /** A description with a NUL leaves the update half done: the panic comes after the new path is in place. */
  method PanicsHalfway(before: Entry, path: GoString) returns (r: UpdateResult, after: Entry)
    requires path != [] && NulFree(path)
    ensures r == Panicked && after.path == Encode(path) && after.description == before.description
    ensures Encode(path) != before.path ==> after != before
  {
    var scm := new Scm(before);
    r := UpdateConfig(
      scm, Config(before.serviceType, before.startType, before.errorControl, path, [], 0, [], [], [], [], [0]), 0, 0);
    after := scm.entry;
  }

  // ---- Config ----

  datatype ConfigResult = Ok(c: Config) | ConfigFailed(errno: uint32)

  lemma ShownView(u: seq<Unit>, m: Memory)
    requires IsCString(u) && Reaches(m)
    ensures ToString(StringView(u, m)) == Shown(u)
  {
    var view := (u + [0] + m.junk)[..STRING_WINDOW];
    if |u| < STRING_WINDOW {
      FirstZeroAt(view, |u|);
      assert view[..|u|] == u;
    } else {
      assert view == u[..STRING_WINDOW];
      UpToNul(view, []);
      assert view[..STRING_WINDOW] == view && (|u| == STRING_WINDOW ==> view == u);
    }
  }

  function SliceOf(view: Option<seq<Unit>>): Option<seq<GoString>> {
    if view.None? then Some([]) else Scan(view.value)
  }

  lemma DecodeAllCons(us: seq<seq<Unit>>)
    requires us != []
    ensures DecodeAll(us) == [Decode(us[0])] + DecodeAll(us[1..])
  {}

  lemma ScanFirstDep(d: seq<Unit>, tail: seq<Unit>, rest: seq<Unit>, ss: seq<GoString>)
    requires d != [] && IsCString(d) && Scan(tail + rest) == Some(ss)
    ensures Scan(d + [0] + tail + rest) == Some([Decode(d)] + ss)
  {
    Assoc(d + [0], tail, rest);
    ScanSegment(d, tail + rest);
  }

  lemma {:induction false} ScanDeps(deps: seq<seq<Unit>>, rest: seq<Unit>)
    requires forall d | d in deps :: d != [] && IsCString(d)
    ensures Scan(DepsUnits(deps) + rest) == Some(DecodeAll(deps))
  {
    if deps == [] {
      FirstZeroAt([0] + rest, 0);
      assert DecodeAll(deps) == [];
    } else {
      assert deps[0] in deps && forall d | d in deps[1..] :: d in deps;
      ScanDeps(deps[1..], rest);
      ScanFirstDep(deps[0], DepsUnits(deps[1..]), rest, DecodeAll(deps[1..]));
      DecodeAllCons(deps);
    }
  }

  lemma ShownDeps(deps: seq<seq<Unit>>, m: Memory)
    requires ValidDeps(deps) && Reaches(m)
    ensures SliceOf(DepsView(deps, m)) == Some(DecodeAll(deps))
  {
    if deps == [] && m.nullIfEmpty {
      assert DecodeAll(deps) == [];
    } else {
      var u := DepsUnits(deps);
      var view := (u + m.junk)[..BLOCK_WINDOW];
      assert view == u + view[|u|..];
      ScanDeps(deps, view[|u|..]);
    }
  }

  /**
    * Service.Config. Each query is tried with a buffer of 1024 bytes and, when that is too small, once
    * more with the size the SCM asked for. Whichever path is taken, and whatever memory lies behind the
    * strings, a Config that is returned is Get of the entry; without faults one is always returned.
    */
  method ReadConfig(scm: Scm, faults: seq<uint32>, ms: seq<Memory>) returns (r: ConfigResult)
    requires ValidEntry(scm.entry)
    requires |faults| == 4 && |ms| == 4 && forall m | m in ms :: Reaches(m)
    ensures r.Ok? ==> r.c == Get(scm.entry) && Returns(scm.entry, r.c)
    ensures (forall f | f in faults :: f == 0) ==> r.Ok?
    ensures r.ConfigFailed? ==> r.errno != 0 && r.errno in faults
  {
    assert faults[0] in faults && faults[1] in faults && faults[2] in faults && faults[3] in faults;
    var m := ms[0];
    var err, l, p := scm.QueryServiceConfig(1024, faults[0], m);
    if err != 0 {
      if err != ERROR_INSUFFICIENT_BUFFER {
        return ConfigFailed(err);
      }
      m := ms[1];
      err, l, p := scm.QueryServiceConfig(l, faults[1], m);
      if err != 0 {
        return ConfigFailed(err);
      }
    }
    var m2 := ms[2];
    var description;
    err, l, description := scm.QueryServiceConfig2(1024, faults[2], m2);
    if err != 0 {
      if err != ERROR_INSUFFICIENT_BUFFER {
        return ConfigFailed(err);
      }
      m2 := ms[3];
      err, l, description := scm.QueryServiceConfig2(l, faults[3], m2);
      if err != 0 {
        return ConfigFailed(err);
      }
    }
    var q := p.value;
    ghost var e := scm.entry;
    ShownView(e.path, m);
    ShownView(e.group, m);
    ShownView(e.startName, m);
    ShownView(e.display, m);
    ShownView(e.description, m2);
    ShownDeps(e.deps, m);
    GetReturns(e);
    return Ok(Config(
      q.serviceType, q.startType, q.errorControl, ToString(q.path), ToString(q.group), q.tag,
      SliceOf(q.deps).value, ToString(q.startName), ToString(q.display), [], ToString(description)));
  }

  // ---- The laws ----

  predicate AllStringsNulFree(c: Config) {
    MainNulFree(c) && NulFree(c.description) && AllNulFree(c.dependencies)
  }

  lemma SplitSegment(u: seq<Unit>, tail: seq<Unit>)
    requires u != [] && IsCString(u)
    ensures Split(u + [0] + tail) == [u] + Split(tail)
  {
    FirstZeroAt(u + [0] + tail, |u|);
    assert (u + [0] + tail)[..|u|] == u && (u + [0] + tail)[|u| + 1..] == tail;
  }

  lemma EncodeAllCons(s: GoString, ss: seq<GoString>)
    ensures EncodeAll([s] + ss) == [Encode(s)] + EncodeAll(ss)
    ensures DepsUnits(EncodeAll([s] + ss)) == Encode(s) + [0] + DepsUnits(EncodeAll(ss))
  {
    assert ([Encode(s)] + EncodeAll(ss))[1..] == EncodeAll(ss);
    EncodeAllSeq(s, ss);
  }

  lemma EncodeAllSeq(s: GoString, ss: seq<GoString>)
    ensures EncodeAll([s] + ss) == [Encode(s)] + EncodeAll(ss)
  {}

  lemma {:induction false} SplitPrinted(ss: seq<GoString>)
    requires AllNulFree(ss)
    ensures Split(BlockUnits(ss)) == EncodeAll(NonEmpty(ss))
    ensures DepsUnits(EncodeAll(NonEmpty(ss))) == BlockUnits(ss)
    ensures forall d | d in EncodeAll(NonEmpty(ss)) :: d != [] && IsCString(d)
  {
    if ss == [] {
      BlockUnitsNil();
    } else {
      assert forall t | t in ss[1..] :: t in ss;
      SplitPrinted(ss[1..]);
      BlockUnitsCons(ss);
      if ss[0] != [] {
        assert NulFree(ss[0]);
        Encoded(ss[0]);
        SplitSegment(Encode(ss[0]), BlockUnits(ss[1..]));
        EncodeAllCons(ss[0], NonEmpty(ss[1..]));
      }
    }
  }

  lemma ShownKept(u: seq<Unit>, s: GoString)
    requires NulFree(s) && IsCString(u)
    ensures Shown(KeepString(u, s)) == (if s == [] then Shown(u) else Windowed(s)) && IsCString(KeepString(u, s))
  {
    if s != [] {
      Encoded(s);
      if |Encode(s)| > STRING_WINDOW {
        DecodeCut(s, STRING_WINDOW);
      }
    }
  }

  lemma DecodeAllEncoded(ss: seq<GoString>)
    ensures DecodeAll(EncodeAll(ss)) == ss
  {
    forall i | 0 <= i < |ss|
      ensures Decode(Encode(ss[i])) == ss[i]
    {
      Encoded(ss[i]);
    }
  }

  /** What Config returns after UpdateConfig(c) on an entry that read as before. */
  function Overlaid(before: Config, c: Config): Config {
    Config(
      KeepNumber(before.serviceType, c.serviceType), KeepNumber(before.startType, c.startType),
      KeepNumber(before.errorControl, c.errorControl),
      if c.binaryPathName == [] then before.binaryPathName else Windowed(c.binaryPathName),
      if c.loadOrderGroup == [] then before.loadOrderGroup else Windowed(c.loadOrderGroup),
      before.tagId,
      if NonEmpty(c.dependencies) == [] then before.dependencies else NonEmpty(c.dependencies),
      if c.serviceStartName == [] then before.serviceStartName else Windowed(c.serviceStartName),
      if c.displayName == [] then before.displayName else Windowed(c.displayName),
      [],
      if c.description == [] then before.description else Windowed(c.description))
  }

  /**
    * Put, then get: after a successful update with NUL-free strings, Config returns every non-empty
    * string of c as far as the 4096-unit window shows it (in full up to that length), the old value for
    * empty ones, the dependencies without empty strings, the old tag, and no password.
    */
  lemma UpdateThenConfig(e: Entry, c: Config)
    requires ValidEntry(e) && AllStringsNulFree(c) && |BlockUnits(c.dependencies)| <= 0x100_0000
    ensures ValidEntry(Put(e, c))
    ensures Get(Put(e, c)) == Overlaid(Get(e), c)
    ensures var after := Get(Put(e, c));
      && StoresNumber(e.serviceType, c.serviceType, after.serviceType)
      && StoresNumber(e.startType, c.startType, after.startType)
      && StoresNumber(e.errorControl, c.errorControl, after.errorControl)
      && after.tagId == e.tag && after.password == []
    ensures Returns(Put(e, c), Get(Put(e, c))) && StoresMain(e, c, Put(e, c))
  {
    GetReturns(Put(e, c));
    PutStores(e, c);
    ShownKept(e.path, c.binaryPathName);
    ShownKept(e.group, c.loadOrderGroup);
    ShownKept(e.startName, c.serviceStartName);
    ShownKept(e.display, c.displayName);
    ShownKept(e.password, c.password);
    ShownKept(e.description, c.description);
    if NonEmpty(c.dependencies) != [] {
      SplitPrinted(c.dependencies);
      DecodeAllEncoded(NonEmpty(c.dependencies));
    }
  }

  lemma {:induction false} SplitIsNulFree(u: seq<Unit>)
    ensures forall d | d in Split(u) :: d != [] && IsCString(d)
    decreases |u|
  {
    var k := FirstZero(u);
    if 0 < k < |u| {
      SplitIsNulFree(u[k + 1..]);
    }
  }

  /** Unlike the other strings, dependencies with a NUL do not panic; they survive an update exactly without one. */
  lemma DependenciesSurviveIff(e: Entry, c: Config)
    requires NonEmpty(c.dependencies) != []
    ensures Get(Put(e, c)).dependencies == NonEmpty(c.dependencies) <==> AllNulFree(c.dependencies)
  {
    var (ds, us) := (c.dependencies, Split(BlockUnits(c.dependencies)));
    if AllNulFree(ds) {
      SplitPrinted(ds);
      DecodeAllEncoded(NonEmpty(ds));
    } else {
      var d :| d in ds && !NulFree(d);
      NonEmptyMembers(ds, d);
      SplitIsNulFree(BlockUnits(ds));
      if DecodeAll(us) == NonEmpty(ds) {
        var i :| 0 <= i < |DecodeAll(us)| && DecodeAll(us)[i] == d;
        assert us[i] in us;
        DecodeZero(us[i]);
      }
    }
  }

  /** Every stored string can be shown in full and is well-formed UTF-16. */
  predicate Faithful(u: seq<Unit>) {
    |u| <= STRING_WINDOW && WellFormed(u)
  }

  predicate AllFaithful(e: Entry) {
    && Faithful(e.path) && Faithful(e.group) && Faithful(e.startName) && Faithful(e.display)
    && Faithful(e.description) && forall d | d in e.deps :: WellFormed(d)
  }

  lemma KeepShown(u: seq<Unit>)
    requires IsCString(u)
    ensures KeepString(u, Shown(u)) == u <==> Faithful(u)
    ensures NulFree(Shown(u))
  {
    var v := if |u| <= STRING_WINDOW then u else u[..STRING_WINDOW];
    DecodeZero(v);
    EncodeDecode(v);
  }

  lemma {:induction false} NonEmptyAll(ss: seq<GoString>)
    requires [] !in ss
    ensures NonEmpty(ss) == ss
  {
    if ss != [] {
      NonEmptyAll(ss[1..]);
    }
  }

  lemma KeepShownDeps(deps: seq<seq<Unit>>)
    requires ValidDeps(deps)
    ensures KeepDeps(deps, DecodeAll(deps)) == deps <==> forall d | d in deps :: WellFormed(d)
    ensures AllNulFree(DecodeAll(deps))
  {
    var ss := DecodeAll(deps);
    forall s | s in ss
      ensures s != [] && NulFree(s)
    {
      var i :| 0 <= i < |ss| && ss[i] == s;
      assert deps[i] in deps;
      DecodeZero(deps[i]);
    }
    NonEmptyAll(ss);
    SplitPrinted(ss);
    var again := EncodeAll(ss);
    assert KeepDeps(deps, ss) == again;
    forall i | 0 <= i < |deps|
      ensures again[i] == deps[i] <==> WellFormed(deps[i])
    {
      EncodeDecode(deps[i]);
    }
    if again == deps {
      assert forall d | d in deps :: WellFormed(d);
    } else {
      var i :| 0 <= i < |deps| && again[i] != deps[i];
      assert deps[i] in deps && !WellFormed(deps[i]);
    }
  }

  /**
    * Get, then put: writing back what Config returned never panics, and changes nothing exactly when every
    * stored string is well-formed UTF-16 and, the dependencies apart, at most 4096 units long.
    */
  lemma ConfigThenUpdate(e: Entry)
    requires ValidEntry(e)
    ensures AllStringsNulFree(Get(e))
    ensures Put(e, Get(e)) == e <==> AllFaithful(e)
  {
    KeepShown(e.path);
    KeepShown(e.group);
    KeepShown(e.startName);
    KeepShown(e.display);
    KeepShown(e.description);
    KeepShownDeps(e.deps);
  }

  /** A stored path that is one unpaired surrogate reads as U+FFFD, which is then what is written back. */
  lemma LoneSurrogateIsReplaced(e: Entry)
    requires ValidEntry(e) && e.path == [0xD800]
    ensures Get(e).binaryPathName == [REPLACEMENT]
    ensures Put(e, Get(e)).path == [0xFFFD] && Put(e, Get(e)) != e
  {
    assert Decode(e.path[1..]) == [];
    assert Decode(e.path) == [REPLACEMENT] + [];
    EncodeCons(REPLACEMENT, []);
    assert [REPLACEMENT] + [] == [REPLACEMENT];
  }
}
