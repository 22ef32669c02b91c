/** internal/audit/audit.go: the hash-chained audit log. */
module Audit {
  import opened Basics

  datatype Action = Init | Issue | Revoke | Other(name: bytes)

  datatype Entry = Entry(
    seqNo: nat,
    time: bytes,
    action: Action,
    user: bytes,
    serial: u64,
    keyID: bytes,
    fingerprint: bytes,
    principals: seq<bytes>,
    validBefore: bytes,
    reason: bytes,
    prev: bytes,
    hash: bytes)

  /** The value of Prev in the first entry: 64 zero digits. */
  const GENESIS: bytes := Zeros(64)

  function Zeros(n: nat): bytes {
    if n == 0 then [] else ['0' as int] + Zeros(n - 1)
  }

  /** SHA-256, in hex, of the canonical JSON of an entry; an uninterpreted function here. */
  type Digest = Entry -> bytes

  function Blank(e: Entry): Entry {
    e.(hash := [])
  }

  function ComputeHash(digest: Digest, e: Entry): bytes {
    digest(Blank(e))
  }

  // ---------------------------------------------------------------------
  // Verification
  // ---------------------------------------------------------------------

  /** The three checks, in the order in which they are reported. */
  datatype Fault = WrongSequence | BrokenChain | HashMismatch

  function FaultOf(digest: Digest, prev: bytes, i: nat, e: Entry): Option<Fault> {
    if e.seqNo != i + 1 then Some(WrongSequence)
    else if e.prev != prev then Some(BrokenChain)
    else if ComputeHash(digest, e) != e.hash then Some(HashMismatch)
    else None
  }

  function PrevOf(es: seq<Entry>, i: nat): bytes
    requires i <= |es|
  {
    if i == 0 then GENESIS else es[i - 1].hash
  }

  predicate Sound(digest: Digest, es: seq<Entry>, i: nat)
    requires i < |es|
  {
    FaultOf(digest, PrevOf(es, i), i, es[i]) == None
  }

  /** Every entry is at its place, points to its predecessor and matches its hash. */
  ghost predicate Chained(digest: Digest, es: seq<Entry>) {
    forall i :: 0 <= i < |es| ==> Sound(digest, es, i)
  }

  datatype Finding = Finding(index: nat, fault: Fault)

  /** What Verify reports: the first entry whose inclusive prefix is not a chain. */
  ghost predicate Reports(digest: Digest, es: seq<Entry>, r: Option<Finding>) {
    match r
    case None => Chained(digest, es)
    case Some(f) =>
      && f.index < |es|
      && Chained(digest, es[..f.index])
      && FaultOf(digest, PrevOf(es, f.index), f.index, es[f.index]) == Some(f.fault)
  }

  method Verify(digest: Digest, entries: seq<Entry>) returns (r: Option<Finding>)
    ensures Reports(digest, entries, r)
  {
    var prev := GENESIS;
    for i := 0 to |entries|
      invariant prev == PrevOf(entries, i)
      invariant Chained(digest, entries[..i])
    {
      var e := entries[i];
      assert PrevOf(entries[..i], i) == PrevOf(entries, i);
      assert entries[..i + 1] == entries[..i] + [e];
      ChainedSnoc(digest, entries[..i], e);
      if e.seqNo != i + 1 {
        return Some(Finding(i, WrongSequence));
      }
      if e.prev != prev {
        return Some(Finding(i, BrokenChain));
      }
      var got := ComputeHash(digest, e);
      if got != e.hash {
        return Some(Finding(i, HashMismatch));
      }
      prev := e.hash;
    }
    assert entries[..|entries|] == entries;
    return None;
  }

  lemma ChainedPrefix(digest: Digest, es: seq<Entry>, n: nat)
    requires Chained(digest, es) && n <= |es|
    ensures Chained(digest, es[..n])
  {
    forall i | 0 <= i < n ensures Sound(digest, es[..n], i) {
      assert Sound(digest, es, i);
      assert PrevOf(es[..n], i) == PrevOf(es, i);
    }
  }

  lemma ChainedSnoc(digest: Digest, es: seq<Entry>, e: Entry)
    ensures Chained(digest, es + [e]) <==>
            Chained(digest, es) && FaultOf(digest, PrevOf(es, |es|), |es|, e) == None
  {
    var all := es + [e];
    assert all[..|es|] == es;
    assert PrevOf(all, |es|) == PrevOf(es, |es|);
    if Chained(digest, all) {
      ChainedPrefix(digest, all, |es|);
      assert Sound(digest, all, |es|);
    }
    if Chained(digest, es) && FaultOf(digest, PrevOf(es, |es|), |es|, e) == None {
      forall i | 0 <= i < |all| ensures Sound(digest, all, i) {
        assert i < |es| ==> Sound(digest, es, i) && PrevOf(all, i) == PrevOf(es, i) && all[i] == es[i];
      }
    }
  }

  /**
   * Localisation: the entry reported is the least one whose inclusive prefix is not a chain, so
   * a log has one report.
   */
  lemma ReportIsLeast(digest: Digest, es: seq<Entry>, r: Option<Finding>)
    requires Reports(digest, es, r)
    ensures r == None <==> Chained(digest, es)
    ensures forall n :: 0 <= n <= |es| ==>
              (Chained(digest, es[..n]) <==> r == None || n <= r.value.index)
  {
    forall n | 0 <= n <= |es|
      ensures Chained(digest, es[..n]) <==> r == None || n <= r.value.index
    {
      if r == None {
        ChainedPrefix(digest, es, n);
      } else {
        var k := r.value.index;
        if n <= k {
          assert es[..n] == es[..k][..n];
          ChainedPrefix(digest, es[..k], n);
        } else {
          assert PrevOf(es[..n], k) == PrevOf(es, k) && es[..n][k] == es[k];
          assert !Sound(digest, es[..n], k);
        }
      }
    }
    assert es[..|es|] == es;
  }

  lemma ReportUnique(digest: Digest, es: seq<Entry>, r: Option<Finding>, s: Option<Finding>)
    requires Reports(digest, es, r) && Reports(digest, es, s)
    ensures r == s
  {
    ReportIsLeast(digest, es, r);
    ReportIsLeast(digest, es, s);
    if r.Some? && s.Some? {
      assert Chained(digest, es[..r.value.index]) && Chained(digest, es[..s.value.index]);
    }
  }

  /** What stands for the hash before the first entry: 64 digits 0. */
  predicate IsGenesis(prev: bytes) {
    |prev| == 64 && forall i :: 0 <= i < 64 ==> prev[i] == 0x30
  }

  lemma {:induction false} ZerosAre(n: nat)
    ensures |Zeros(n)| == n && forall i :: 0 <= i < n ==> Zeros(n)[i] == 0x30
  {
    if n > 0 {
      ZerosAre(n - 1);
    }
  }

  lemma GenesisIs(prev: bytes)
    ensures prev == GENESIS <==> IsGenesis(prev)
  {
    ZerosAre(64);
  }

  /** In a chain entries count from 1, repeat the hash of the one before and have the hash of all the rest of them. */
  predicate Linked(digest: Digest, es: seq<Entry>, i: nat)
    requires i < |es|
  {
    && es[i].seqNo == i + 1
    && (if i == 0 then IsGenesis(es[0].prev) else es[i].prev == es[i - 1].hash)
    && es[i].hash == digest(es[i].(hash := []))
  }

  lemma ChainMeans(digest: Digest, es: seq<Entry>)
    ensures Chained(digest, es) <==> forall i :: 0 <= i < |es| ==> Linked(digest, es, i)
  {
    hide IsGenesis;
    forall i | 0 <= i < |es| ensures Sound(digest, es, i) <==> Linked(digest, es, i) {
      GenesisIs(es[i].prev);
    }
  }

  /** A fault is the first of the three that an entry has: its number, its predecessor, its own hash. */
  lemma FaultMeans(digest: Digest, es: seq<Entry>, f: Finding)
    requires Reports(digest, es, Some(f))
    ensures forall k :: 0 <= k < f.index ==> Linked(digest, es, k)
    ensures var e, i := es[f.index], f.index;
            match f.fault
            case WrongSequence => e.seqNo != i + 1
            case BrokenChain =>
              e.seqNo == i + 1 && if i == 0 then !IsGenesis(e.prev) else e.prev != es[i - 1].hash
            case HashMismatch =>
              && e.seqNo == i + 1 && (if i == 0 then IsGenesis(e.prev) else e.prev == es[i - 1].hash)
              && e.hash != digest(e.(hash := []))
  {
    hide IsGenesis;
    GenesisIs(es[f.index].prev);
    var front := es[..f.index];
    ChainMeans(digest, front);
    forall k | 0 <= k < f.index ensures Linked(digest, es, k) {
      assert Linked(digest, front, k);
      assert front[k] == es[k] && (k > 0 ==> front[k - 1] == es[k - 1]);
    }
  }

  // ---------------------------------------------------------------------
  // Appending
  // ---------------------------------------------------------------------

  /** Append may fail before anything is written, or after: when closing the file fails. */
  datatype AppendFault = NoFault | ReadFails | WriteFails | CloseFails

  /** The entry as it is written. */
  function Sealed(digest: Digest, log: seq<Entry>, e: Entry, now: bytes): Entry {
    var placed := e.(
      seqNo := |log| + 1,
      time := if e.time == [] then now else e.time,
      prev := PrevOf(log, |log|));
    placed.(hash := ComputeHash(digest, placed))
  }

  /** Sealing fills in the number, the time unless there is one, the predecessor's hash and the own hash, nothing else. */
  lemma SealedMeans(digest: Digest, log: seq<Entry>, e: Entry, now: bytes)
    ensures var s := Sealed(digest, log, e, now);
            && s == e.(seqNo := s.seqNo, time := s.time, prev := s.prev, hash := s.hash)
            && s.time == (if e.time == [] then now else e.time)
            && Linked(digest, log + [s], |log|)
  {
    hide IsGenesis;
    GenesisIs(GENESIS);
    var s := Sealed(digest, log, e, now);
    assert Blank(s) == Blank(s.(hash := e.hash));
  }

  function LogAfter(digest: Digest, log: seq<Entry>, e: Entry, now: bytes, fault: AppendFault): seq<Entry> {
    match fault
    case NoFault | CloseFails => log + [Sealed(digest, log, e, now)]
    case ReadFails | WriteFails => log
  }

  /** The audit file. */
  class Log {
    var entries: seq<Entry>

    constructor (entries: seq<Entry>)
      ensures this.entries == entries
    {
      this.entries := entries;
    }

    method Append(digest: Digest, e: Entry, now: bytes, fault: AppendFault) returns (r: Option<Entry>)
      modifies this
      ensures entries == LogAfter(digest, old(entries), e, now, fault)
      ensures r == if fault == NoFault then Some(Sealed(digest, old(entries), e, now)) else None
    {
      if fault == ReadFails {
        return None;
      }
      var prior := entries;
      var entry := e.(seqNo := |prior| + 1);
      if |entry.time| == 0 {
        entry := entry.(time := now);
      }
      entry := entry.(prev := GENESIS);
      if |prior| > 0 {
        entry := entry.(prev := prior[|prior| - 1].hash);
      }
      entry := entry.(hash := ComputeHash(digest, entry));
      if fault == WriteFails {
        return None;
      }
      entries := entries + [entry];
      if fault == CloseFails {
        return None;
      }
      return Some(entry);
    }
  }

  /** Whatever is appended, and however the append ends, a chain stays a chain and keeps its entries. */
  lemma AppendKeepsChain(digest: Digest, log: seq<Entry>, e: Entry, now: bytes, fault: AppendFault)
    ensures Chained(digest, LogAfter(digest, log, e, now, fault)) <==> Chained(digest, log)
    ensures log <= LogAfter(digest, log, e, now, fault)
  {
    ChainedSnoc(digest, log, Sealed(digest, log, e, now));
  }

  // ---------------------------------------------------------------------
  // What a chain says about history
  // ---------------------------------------------------------------------

  /** No two of the entries concerned have one digest. */
  ghost predicate CollisionFree(digest: Digest, xs: seq<Entry>, ys: seq<Entry>) {
    forall i, j :: 0 <= i < |xs| && 0 <= j < |ys| && digest(Blank(xs[i])) == digest(Blank(ys[j])) ==>
      Blank(xs[i]) == Blank(ys[j])
  }

  lemma SameHashSameEntry(x: Entry, y: Entry)
    ensures Blank(x) == Blank(y) && x.hash == y.hash ==> x == y
  {
    assert x == Blank(x).(hash := x.hash) && y == Blank(y).(hash := y.hash);
  }

  /** One hash pins down the whole history before it. */
  lemma {:induction false} HashDeterminesHistory(digest: Digest, a: seq<Entry>, b: seq<Entry>, j: nat)
    requires Chained(digest, a) && Chained(digest, b) && CollisionFree(digest, a, b)
    requires a != [] && j < |b| && a[|a| - 1].hash == b[j].hash
    ensures a == b[..j + 1]
  {
    var n := |a| - 1;
    var x, y := a[n], b[j];
    assert Sound(digest, a, n) && Sound(digest, b, j);
    SameHashSameEntry(x, y);
    assert x == y && n == j;
    assert a == a[..n] + [x] && b[..j + 1] == b[..j] + [y];
    if n > 0 {
      ChainedPrefix(digest, a, n);
      HashDeterminesHistory(digest, a[..n], b, j - 1);
    } else {
      assert a[..n] == [] == b[..j];
    }
  }

  /**
   * Without any assumption on the hash: of all the logs that can be put together from the
   * entries of a verifying log, by deleting, reordering or repeating, exactly its prefixes verify.
   */
  lemma OnlyPrefixesVerify(digest: Digest, a: seq<Entry>, b: seq<Entry>)
    requires Chained(digest, b) && forall i :: 0 <= i < |a| ==> a[i] in b
    ensures Chained(digest, a) <==> a <= b
  {
    if Chained(digest, a) {
      forall i | 0 <= i < |a| ensures i < |b| && a[i] == b[i] {
        assert a[i] in b;
        var k :| 0 <= k < |b| && b[k] == a[i];
        assert Sound(digest, b, k) && Sound(digest, a, i);
      }
      assert a != [] ==> a[|a| - 1] in b && |a| - 1 < |b|;
    }
    if a <= b {
      assert a == b[..|a|];
      ChainedPrefix(digest, b, |a|);
    }
  }

  /**
   * Replacing one entry of a verifying log: it is reported where it stands, or, when the new entry
   * is consistent in itself, at its successor; only a consistent new last entry goes unnoticed.
   */
  lemma ReplacementReported(digest: Digest, a: seq<Entry>, i: nat, e: Entry, r: Option<Finding>)
    requires Chained(digest, a) && i < |a| && e != a[i] && CollisionFree(digest, [e], a)
    requires Reports(digest, a[i := e], r)
    ensures match FaultOf(digest, PrevOf(a, i), i, e)
            case Some(fault) => r == Some(Finding(i, fault))
            case None => r == if i == |a| - 1 then None else Some(Finding(i + 1, BrokenChain))
  {
    var b := a[i := e];
    assert PrevOf(b, i) == PrevOf(a, i);
    assert b[..i] == a[..i];
    ChainedPrefix(digest, a, i);
    match FaultOf(digest, PrevOf(a, i), i, e)
    case Some(fault) =>
      ReportUnique(digest, b, r, Some(Finding(i, fault)));
    case None =>
      assert b[..i + 1] == a[..i] + [e];
      assert PrevOf(a[..i], i) == PrevOf(a, i);
      ChainedSnoc(digest, a[..i], e);
      if i == |a| - 1 {
        assert b == b[..i + 1];
        ReportUnique(digest, b, r, None);
      } else {
        assert Sound(digest, a, i) && Sound(digest, a, i + 1);
        assert [e][0] == e;
        SameHashSameEntry(e, a[i]);
        ReportUnique(digest, b, r, Some(Finding(i + 1, BrokenChain)));
      }
  }

  // ---------------------------------------------------------------------
  // Entries that do not survive JSON
  // ---------------------------------------------------------------------

  /** What is read back from the file: strings that are not valid UTF-8 come back changed. */
  function ReadBack(reread: Entry -> Entry, es: seq<Entry>): (r: seq<Entry>)
    ensures |r| == |es|
  {
    seq(|es|, i requires 0 <= i < |es| => reread(es[i]))
  }

  /** Numbers and hex digits survive. */
  ghost predicate KeepsLinks(reread: Entry -> Entry, es: seq<Entry>) {
    forall i :: 0 <= i < |es| ==>
      reread(es[i]).seqNo == es[i].seqNo && reread(es[i]).prev == es[i].prev && reread(es[i]).hash == es[i].hash
  }

  /**
   * A log that was a chain when written verifies after reading exactly if every entry came back as it
   * was; otherwise the first entry that did not is reported, as tampered with.
   */
  lemma ReadBackVerifies(digest: Digest, reread: Entry -> Entry, es: seq<Entry>, r: Option<Finding>)
    requires Chained(digest, es) && KeepsLinks(reread, es) && CollisionFree(digest, es, ReadBack(reread, es))
    requires Reports(digest, ReadBack(reread, es), r)
    ensures match r
            case None => ReadBack(reread, es) == es
            case Some(f) =>
              && f.index < |es| && f.fault == HashMismatch
              && ReadBack(reread, es)[..f.index] == es[..f.index]
              && ReadBack(reread, es)[f.index] != es[f.index]
  {
    hide FaultOf, CollisionFree, KeepsLinks, ReadBack, Blank;
    var back := ReadBack(reread, es);
    var n := if r == None then |es| else r.value.index;
    assert r == None ==> back[..n] == back;
    forall i | 0 <= i < n ensures back[i] == es[i] {
      ReadBackFault(digest, reread, es, i);
      assert Sound(digest, back[..n], i);
      assert PrevOf(back[..n], i) == PrevOf(back, i) && back[..n][i] == back[i];
    }
    if r.Some? {
      ReadBackFault(digest, reread, es, n);
    }
  }

  lemma ReadBackFault(digest: Digest, reread: Entry -> Entry, es: seq<Entry>, i: nat)
    requires Chained(digest, es) && KeepsLinks(reread, es) && CollisionFree(digest, es, ReadBack(reread, es))
    requires i < |es|
    ensures var back := ReadBack(reread, es);
            FaultOf(digest, PrevOf(back, i), i, back[i]) == if back[i] == es[i] then None else Some(HashMismatch)
  {
    var back := ReadBack(reread, es);
    assert Sound(digest, es, i);
    assert i > 0 ==> back[i - 1].hash == es[i - 1].hash;
    SameHashSameEntry(es[i], back[i]);
  }
}
