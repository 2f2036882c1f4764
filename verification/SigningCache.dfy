/** The bounded signing-key cache, used by one thread at a time. */
module SigningCache {
  import opened Wrappers
  import opened ByteStrings
  import opened Crypto

  const CAPACITY: nat := 32

  datatype Entry = Entry(scope: Scope, key: Digest)

  /** Index of the first entry for `s`, or the number of entries. */
  function Position(entries: seq<Entry>, s: Scope): (i: nat)
    ensures i <= |entries|
    ensures i < |entries| ==> entries[i].scope == s
    ensures i == |entries| <==> forall k :: 0 <= k < |entries| ==> entries[k].scope != s
  {
    if entries == [] || entries[0].scope == s then 0 else 1 + Position(entries[1..], s)
  }

  predicate Cached(entries: seq<Entry>, s: Scope) { Position(entries, s) < |entries| }

  predicate Distinct(entries: seq<Entry>) {
    forall i, j :: 0 <= i < j < |entries| ==> entries[i].scope != entries[j].scope
  }

  predicate Derived(crypto: Primitives, seed: Bytes, entries: seq<Entry>) {
    forall i :: 0 <= i < |entries| ==> entries[i].key == DeriveKey(crypto, seed, entries[i].scope)
  }

  /** What holds of the cache whenever nobody is writing it. */
  predicate Good(crypto: Primitives, seed: Bytes, entries: seq<Entry>) {
    |entries| <= CAPACITY && Distinct(entries) && Derived(crypto, seed, entries)
  }

  function Bounded<T>(s: seq<T>): (r: seq<T>)
    ensures |r| <= CAPACITY && r <= s
  {
    if |s| <= CAPACITY then s else s[..CAPACITY]
  }

  function WithoutAt(entries: seq<Entry>, i: nat): seq<Entry>
    requires i < |entries|
  {
    entries[..i] + entries[i + 1..]
  }

  function NewEntry(crypto: Primitives, seed: Bytes, s: Scope): Entry { Entry(s, DeriveKey(crypto, seed, s)) }

  /** The effect of one whole write section. */
  function AfterWrite(crypto: Primitives, seed: Bytes, entries: seq<Entry>, s: Scope): seq<Entry> {
    var i := Position(entries, s);
    if i < |entries| then [entries[i]] + WithoutAt(entries, i)
    else Bounded([NewEntry(crypto, seed, s)] + entries)
  }

  /** The effect of one call that no other thread interrupts: a hit leaves the cache alone. */
  function AfterCall(crypto: Primitives, seed: Bytes, entries: seq<Entry>, s: Scope): seq<Entry> {
    if Cached(entries, s) then entries else AfterWrite(crypto, seed, entries, s)
  }

  lemma WriteKeepsGood(crypto: Primitives, seed: Bytes, entries: seq<Entry>, s: Scope)
    requires Good(crypto, seed, entries)
    ensures Good(crypto, seed, AfterWrite(crypto, seed, entries, s))
    ensures var e := AfterWrite(crypto, seed, entries, s); e != [] && e[0] == NewEntry(crypto, seed, s)
  {
    var i := Position(entries, s);
    if i < |entries| { MovedIsGood(crypto, seed, entries, i); } else { PushedIsGood(crypto, seed, entries, s); }
  }

  /** Moving an entry to the front keeps a good cache good. */
  lemma MovedIsGood(crypto: Primitives, seed: Bytes, entries: seq<Entry>, i: nat)
    requires Good(crypto, seed, entries) && i < |entries|
    ensures Good(crypto, seed, [entries[i]] + WithoutAt(entries, i))
  {
    var r := [entries[i]] + WithoutAt(entries, i);
    forall j | 0 <= j < |r|
      ensures r[j] == entries[if j == 0 then i else if j <= i then j - 1 else j]
    {
    }
  }

  lemma PushedIsGood(crypto: Primitives, seed: Bytes, entries: seq<Entry>, s: Scope)
    requires Good(crypto, seed, entries) && !Cached(entries, s)
    ensures Good(crypto, seed, Bounded([NewEntry(crypto, seed, s)] + entries))
  {
  }

  class SigningKeyCache {
    const crypto: Primitives
    const secretSeed: Bytes
    var entries: seq<Entry>

    ghost predicate Valid()
      reads this
    {
      Good(crypto, secretSeed, entries)
    }

    constructor (crypto: Primitives, secretSeed: Bytes)
      ensures Valid() && entries == [] && this.crypto == crypto && this.secretSeed == secretSeed
    {
      this.crypto, this.secretSeed, entries := crypto, secretSeed, [];
    }

    /** The section under the read lock. */
    method Find(s: Scope) returns (key: Option<Digest>)
      requires Valid()
      ensures key == if Cached(entries, s) then Some(DeriveKey(crypto, secretSeed, s)) else None
    {
      var i := Position(entries, s);
      return if i < |entries| then Some(entries[i].key) else None;
    }

    /** The section under the write lock: look again, and only then derive, insert and evict. */
    method FindOrInsert(s: Scope) returns (key: Digest)
      requires Valid()
      modifies this
      ensures Valid()
      ensures key == DeriveKey(crypto, secretSeed, s)
      ensures entries == AfterWrite(crypto, secretSeed, old(entries), s)
    {
      WriteKeepsGood(crypto, secretSeed, entries, s);
      var position := Position(entries, s);
      if position < |entries| {
        var cached := entries[position];
        entries := entries[..position] + entries[position + 1..];
        entries := [cached] + entries;
        return cached.key;
      }
      var kDate := crypto.hmac(secretSeed, s.date);
      var kRegion := crypto.hmac(kDate, s.region);
      var kService := crypto.hmac(kRegion, s.service);
      key := crypto.hmac(kService, TERMINAL);
      entries := [Entry(s, key)] + entries;
      ghost var pushed := entries;
      while |entries| > CAPACITY
        invariant entries <= pushed && |entries| >= |Bounded(pushed)|
      {
        entries := entries[..|entries| - 1];
      }
      assert entries == Bounded(pushed);
    }

    method SigningKey(date: Bytes, region: Bytes, service: Bytes) returns (key: Digest)
      requires Valid()
      modifies this
      ensures Valid()
      ensures key == DeriveKey(crypto, secretSeed, Scope(date, region, service))
      ensures entries == AfterCall(crypto, secretSeed, old(entries), Scope(date, region, service))
    {
      var s := Scope(date, region, service);
      var hit := Find(s);
      if hit.Some? {
        return hit.value;
      }
      key := FindOrInsert(s);
    }
  }

  // ---------- sequential histories ----------

  function Scopes(entries: seq<Entry>): (r: seq<Scope>)
    ensures |r| == |entries|
  {
    seq(|entries|, i requires 0 <= i < |entries| => entries[i].scope)
  }

  /** The cache after a sequence of calls, starting empty. */
  function AfterCalls(crypto: Primitives, seed: Bytes, calls: seq<Scope>): seq<Entry> {
    if calls == [] then []
    else AfterCall(crypto, seed, AfterCalls(crypto, seed, calls[..|calls| - 1]), calls[|calls| - 1])
  }

  /** The calls that had to derive a key, newest first: those not among the last 32 that did. */
  function Misses(calls: seq<Scope>): seq<Scope> {
    if calls == [] then []
    else
      var before := Misses(calls[..|calls| - 1]);
      var s := calls[|calls| - 1];
      if s in Bounded(before) then before else [s] + before
  }

  lemma CachedIffListed(entries: seq<Entry>, s: Scope)
    ensures Cached(entries, s) <==> s in Scopes(entries)
  {
    if Cached(entries, s) { assert Scopes(entries)[Position(entries, s)] == s; }
    if s in Scopes(entries) {
      var i :| 0 <= i < |Scopes(entries)| && Scopes(entries)[i] == s;
      assert entries[i].scope == s;
    }
  }

  /** One call on an intact cache: a hit changes nothing, a miss pushes its scope and drops the oldest beyond 32. */
  lemma OneCall(crypto: Primitives, seed: Bytes, before: seq<Entry>, s: Scope)
    requires Good(crypto, seed, before)
    ensures Good(crypto, seed, AfterCall(crypto, seed, before, s))
    ensures Scopes(AfterCall(crypto, seed, before, s))
            == if s in Scopes(before) then Scopes(before) else Bounded([s] + Scopes(before))
  {
    CachedIffListed(before, s);
    WriteKeepsGood(crypto, seed, before, s);
    if !Cached(before, s) {
      var pushed := [NewEntry(crypto, seed, s)] + before;
      assert AfterCall(crypto, seed, before, s) == Bounded(pushed);
      assert Scopes(pushed) == [s] + Scopes(before);
    }
  }

  lemma BoundedTwice<T>(x: T, s: seq<T>)
    ensures Bounded([x] + Bounded(s)) == Bounded([x] + s)
  {
  }

  /** Sequential use keeps exactly the last 32 missed scopes, newest first: insertion order, not recency of use. */
  lemma {:induction false} SequentialContents(crypto: Primitives, seed: Bytes, calls: seq<Scope>)
    ensures Good(crypto, seed, AfterCalls(crypto, seed, calls))
    ensures Scopes(AfterCalls(crypto, seed, calls)) == Bounded(Misses(calls))
    ensures Scopes(AfterCalls(crypto, seed, calls))
         == if |Misses(calls)| <= 32 then Misses(calls) else Misses(calls)[..32]
  {
    if calls == [] {
    } else {
      var front, s := calls[..|calls| - 1], calls[|calls| - 1];
      SequentialContents(crypto, seed, front);
      OneCall(crypto, seed, AfterCalls(crypto, seed, front), s);
      BoundedTwice(s, Misses(front));
    }
  }

  /** Not least-recently-used: in a full cache a hit does not save the oldest entry from the next miss. */
  lemma HitDoesNotRefresh(crypto: Primitives, seed: Bytes, entries: seq<Entry>, s: Scope)
    requires Good(crypto, seed, entries) && |entries| == CAPACITY && !Cached(entries, s)
    ensures var oldest := entries[CAPACITY - 1].scope;
            && Cached(entries, oldest)
            && !Cached(AfterCall(crypto, seed, AfterCall(crypto, seed, entries, oldest), s), oldest)
  {
    var oldest := entries[CAPACITY - 1].scope;
    assert Cached(entries, oldest);
    var after := AfterCall(crypto, seed, entries, s);
    assert after == [NewEntry(crypto, seed, s)] + entries[..CAPACITY - 1];
    assert oldest != s;
    forall k | 0 <= k < |after|
      ensures after[k].scope != oldest
    {
      if k > 0 { assert after[k] == entries[k - 1]; }
    }
  }

  // ---------- against least-recently-used ----------

  /** A least-recently-used cache: every access, hit or miss, leaves its entry in front. */
  function LruCall(crypto: Primitives, seed: Bytes, entries: seq<Entry>, s: Scope): seq<Entry> {
    var i := Position(entries, s);
    if i < |entries| then [entries[i]] + WithoutAt(entries, i)
    else Bounded([NewEntry(crypto, seed, s)] + entries)
  }

  function LruCalls(crypto: Primitives, seed: Bytes, calls: seq<Scope>): seq<Entry> {
    if calls == [] then []
    else LruCall(crypto, seed, LruCalls(crypto, seed, calls[..|calls| - 1]), calls[|calls| - 1])
  }

  /** One call agrees with least-recently-used exactly on a miss, or on a hit in front. */
  lemma LruStepIff(crypto: Primitives, seed: Bytes, entries: seq<Entry>, s: Scope)
    requires Good(crypto, seed, entries)
    ensures AfterCall(crypto, seed, entries, s) == LruCall(crypto, seed, entries, s)
       <==> !Cached(entries, s) || Position(entries, s) == 0
  {
    var i := Position(entries, s);
    if i == 0 && Cached(entries, s) {
      assert [entries[0]] + WithoutAt(entries, 0) == entries;
    } else if Cached(entries, s) {
      assert LruCall(crypto, seed, entries, s)[0] == entries[i];
    }
  }

  /** The next call is a miss, or asks again for the newest missed scope. */
  predicate MissOrNewest(calls: seq<Scope>, s: Scope) {
    var misses := Misses(calls);
    s !in Bounded(misses) || misses[0] == s
  }

  lemma MissOrNewestIff(crypto: Primitives, seed: Bytes, calls: seq<Scope>, s: Scope)
    ensures var entries := AfterCalls(crypto, seed, calls);
            MissOrNewest(calls, s) <==> !Cached(entries, s) || Position(entries, s) == 0
  {
    var entries := AfterCalls(crypto, seed, calls);
    SequentialContents(crypto, seed, calls);
    CachedIffListed(entries, s);
    if entries != [] {
      assert Scopes(entries)[0] == entries[0].scope;
      assert Bounded(Misses(calls))[0] == Misses(calls)[0];
    }
  }

  ghost predicate OnPrefixes<T>(p: seq<T> -> bool, s: seq<T>) { forall n :: 0 <= n <= |s| ==> p(s[..n]) }

  lemma OnPrefixesSnoc<T>(p: seq<T> -> bool, s: seq<T>)
    requires s != []
    ensures OnPrefixes(p, s) <==> OnPrefixes(p, s[..|s| - 1]) && p(s)
  {
    var m := |s| - 1;
    assert forall n :: 0 <= n <= m ==> s[..m][..n] == s[..n];
    assert s[..m + 1] == s;
    if OnPrefixes(p, s) {
      forall n | 0 <= n <= m ensures p(s[..m][..n]) { assert p(s[..n]); }
    }
  }

  ghost predicate LikeLru(crypto: Primitives, seed: Bytes, calls: seq<Scope>) {
    AfterCalls(crypto, seed, calls) == LruCalls(crypto, seed, calls)
  }

  predicate LastMissesOrNewest(calls: seq<Scope>) {
    calls == [] || MissOrNewest(calls[..|calls| - 1], calls[|calls| - 1])
  }

  /** The two caches agree after every prefix of the calls. */
  ghost predicate AgreesWithLru(crypto: Primitives, seed: Bytes, calls: seq<Scope>) {
    OnPrefixes((c: seq<Scope>) => LikeLru(crypto, seed, c), calls)
  }

  /** Every call misses, or asks again for the newest missed scope. */
  ghost predicate OnlyMissesOrNewest(calls: seq<Scope>) { OnPrefixes(LastMissesOrNewest, calls) }

  /** A run never departs from least-recently-used exactly when each call misses or repeats the newest miss. */
  lemma {:induction false} AgreesWithLruIff(crypto: Primitives, seed: Bytes, calls: seq<Scope>)
    ensures AgreesWithLru(crypto, seed, calls) <==> OnlyMissesOrNewest(calls)
    ensures AgreesWithLru(crypto, seed, calls) ==> LikeLru(crypto, seed, calls)
    decreases |calls|
  {
    if calls == [] {
      assert calls[..0] == [];
    } else {
      var front, s := calls[..|calls| - 1], calls[|calls| - 1];
      AgreesWithLruIff(crypto, seed, front);
      OnPrefixesSnoc((c: seq<Scope>) => LikeLru(crypto, seed, c), calls);
      OnPrefixesSnoc(LastMissesOrNewest, calls);
      SequentialContents(crypto, seed, front);
      LruStepIff(crypto, seed, AfterCalls(crypto, seed, front), s);
      MissOrNewestIff(crypto, seed, front, s);
    }
  }
}
