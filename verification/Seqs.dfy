/** Splitting and joining on a separator, multiset-respecting maps, and the bytewise order. */
module Seqs {
  import opened ByteStrings

  // ---------- split and join ----------

  /** Index of the first `c` at or after `from`, or `|s|`: Rust's `position(..).unwrap_or(len)`. */
  function IndexFrom(s: Bytes, c: byte, from: nat): (i: nat)
    requires from <= |s|
    ensures from <= i <= |s|
    ensures i < |s| ==> s[i] == c
    decreases |s| - from
  {
    if from == |s| || s[from] == c then from else IndexFrom(s, c, from + 1)
  }

  function IndexOf(s: Bytes, c: byte): (i: nat)
    ensures i <= |s|
    ensures i < |s| ==> s[i] == c
  {
    IndexFrom(s, c, 0)
  }

  lemma {:induction false} IndexFromIsFirst(s: Bytes, c: byte, from: nat)
    requires from <= |s|
    ensures c !in s[from..IndexFrom(s, c, from)]
    decreases |s| - from
  {
    if from == |s| || s[from] == c {
    } else {
      IndexFromIsFirst(s, c, from + 1);
      assert s[from..IndexFrom(s, c, from)] == [s[from]] + s[from + 1..IndexFrom(s, c, from)];
    }
  }

  lemma {:induction false} IndexFromUnique(s: Bytes, c: byte, from: nat, i: nat)
    requires from <= i <= |s| && c !in s[from..i] && (i < |s| ==> s[i] == c)
    ensures IndexFrom(s, c, from) == i
    decreases |s| - from
  {
    if from == i {
    } else {
      assert s[from..i][0] == s[from];
      assert s[from + 1..i] == s[from..i][1..];
      IndexFromUnique(s, c, from + 1, i);
    }
  }

  /** Rust's `split`: `n` separators give `n + 1` parts. */
  function Split(s: Bytes, c: byte): (parts: seq<Bytes>)
    ensures |parts| >= 1
    decreases |s|
  {
    var e := IndexOf(s, c);
    if e == |s| then [s] else [s[..e]] + Split(s[e + 1..], c)
  }

  function Join(parts: seq<Bytes>, c: byte): Bytes
  {
    if parts == [] then []
    else if |parts| == 1 then parts[0]
    else parts[0] + [c] + Join(parts[1..], c)
  }

  lemma IndexOfUnique(s: Bytes, c: byte, i: nat)
    requires i <= |s| && c !in s[..i] && (i < |s| ==> s[i] == c)
    ensures IndexOf(s, c) == i
  {
    assert s[0..i] == s[..i];
    IndexFromUnique(s, c, 0, i);
  }

  lemma IndexOfIsFirst(s: Bytes, c: byte)
    ensures c !in s[..IndexOf(s, c)]
  {
    IndexFromIsFirst(s, c, 0);
    assert s[0..IndexOf(s, c)] == s[..IndexOf(s, c)];
  }

  lemma SplitNone(s: Bytes, c: byte)
    requires c !in s
    ensures Split(s, c) == [s]
  {
    IndexOfUnique(s, c, |s|);
  }

  lemma SplitFirst(a: Bytes, c: byte, b: Bytes)
    requires c !in a
    ensures Split(a + [c] + b, c) == [a] + Split(b, c)
    ensures IndexOf(a + [c] + b, c) == |a|
  {
    var s := a + [c] + b;
    IndexOfUnique(s, c, |a|);
    assert s[..|a|] == a && s[|a| + 1..] == b;
  }

  lemma {:induction false} SplitConcat(a: Bytes, c: byte, b: Bytes)
    ensures Split(a + [c] + b, c) == Split(a, c) + Split(b, c)
    decreases |a|
  {
    var e := IndexOf(a, c);
    IndexOfIsFirst(a, c);
    if e == |a| {
      assert a[..e] == a;
      SplitFirst(a, c, b);
    } else {
      SplitConcat(a[e + 1..], c, b);
      assert a + [c] + b == a[..e] + [c] + (a[e + 1..] + [c] + b);
      SplitFirst(a[..e], c, a[e + 1..] + [c] + b);
    }
  }

  lemma {:induction false} JoinSplit(s: Bytes, c: byte)
    ensures Join(Split(s, c), c) == s
    decreases |s|
  {
    var e := IndexOf(s, c);
    if e == |s| {
    } else {
      JoinSplit(s[e + 1..], c);
      assert s == s[..e] + [c] + s[e + 1..];
      assert Split(s, c)[1..] == Split(s[e + 1..], c);
    }
  }

  lemma {:induction false} SplitJoin(parts: seq<Bytes>, c: byte)
    requires parts != []
    requires forall i :: 0 <= i < |parts| ==> c !in parts[i]
    ensures Split(Join(parts, c), c) == parts
  {
    if |parts| == 1 {
      SplitNone(parts[0], c);
    } else {
      SplitJoin(parts[1..], c);
      SplitFirst(parts[0], c, Join(parts[1..], c));
    }
  }

  lemma {:induction false} JoinConcat(a: seq<Bytes>, b: seq<Bytes>, c: byte)
    requires a != [] && b != []
    ensures Join(a + b, c) == Join(a, c) + [c] + Join(b, c)
  {
    if |a| == 1 {
      assert (a + b)[1..] == b;
    } else {
      JoinConcat(a[1..], b, c);
      assert (a + b)[1..] == a[1..] + b;
    }
  }

  /** A byte of a joined string is the separator or a byte of some part. */
  lemma {:induction false} JoinBytes(parts: seq<Bytes>, c: byte, x: byte)
    requires x in Join(parts, c)
    ensures x == c || exists i :: 0 <= i < |parts| && x in parts[i]
  {
    if |parts| == 1 {
      assert x in parts[0];
    } else if |parts| > 1 {
      if x in Join(parts[1..], c) {
        JoinBytes(parts[1..], c, x);
        if x != c {
          var i :| 0 <= i < |parts[1..]| && x in parts[1..][i];
          assert x in parts[i + 1];
        }
      } else if x != c {
        assert x in parts[0];
      }
    }
  }

  /** The parts a scan that stands at `from` has still to see. */
  function SplitFrom(s: Bytes, c: byte, from: nat): seq<Bytes>
    decreases |s| - from
  {
    if from > |s| then []
    else
      var e := IndexFrom(s, c, from);
      [s[from..e]] + SplitFrom(s, c, e + 1)
  }

  lemma SplitTail(part: Bytes, c: byte, tail: Bytes, s: Bytes)
    requires c !in part && s == part + [c] + tail
    ensures Split(s, c) == [part] + Split(tail, c)
  {
    SplitFirst(part, c, tail);
  }

  lemma SplitSuffix(s: Bytes, c: byte, from: nat)
    requires from <= |s|
    ensures var e := IndexFrom(s, c, from);
            Split(s[from..], c) == [s[from..e]] + if e == |s| then [] else Split(s[e + 1..], c)
  {
    var e := IndexFrom(s, c, from);
    IndexFromIsFirst(s, c, from);
    if e == |s| {
      assert s[from..e] == s[from..];
      SplitNone(s[from..], c);
    } else {
      SplitTail(s[from..e], c, s[e + 1..], s[from..]);
    }
  }

  lemma SplitFromStep(s: Bytes, c: byte, from: nat)
    requires from <= |s|
    ensures var e := IndexFrom(s, c, from); SplitFrom(s, c, from) == [s[from..e]] + SplitFrom(s, c, e + 1)
  {
  }

  lemma {:induction false} SplitFromIsSplit(s: Bytes, c: byte, from: nat)
    requires from <= |s|
    ensures SplitFrom(s, c, from) == Split(s[from..], c)
    decreases |s| - from
  {
    var e := IndexFrom(s, c, from);
    SplitSuffix(s, c, from);
    SplitFromStep(s, c, from);
    if e == |s| {
    } else {
      SplitFromIsSplit(s, c, e + 1);
    }
  }

  /** A scan that starts at the front sees exactly the parts. */
  lemma SplitFromStart(s: Bytes, c: byte)
    ensures SplitFrom(s, c, 0) == Split(s, c)
  {
    SplitFromIsSplit(s, c, 0);
    assert s[0..] == s;
  }

  lemma Associate<T>(a: seq<T>, b: seq<T>, c: seq<T>)
    ensures a + (b + c) == a + b + c
  {
  }

  lemma TailMultiset<T>(s: seq<T>, t: seq<T>)
    requires s != [] && t != [] && s[0] == t[0] && multiset(s) == multiset(t)
    ensures multiset(s[1..]) == multiset(t[1..])
  {
    assert s == [s[0]] + s[1..] && t == [t[0]] + t[1..];
    assert multiset(s[1..]) == multiset(s) - multiset{s[0]};
    assert multiset(t[1..]) == multiset(t) - multiset{t[0]};
  }

  // ---------- flat-map ----------

  function Collect<T, U>(f: T -> seq<U>, s: seq<T>): seq<U>
  {
    if s == [] then [] else f(s[0]) + Collect(f, s[1..])
  }

  lemma {:induction false} CollectConcat<T, U>(f: T -> seq<U>, a: seq<T>, b: seq<T>)
    ensures Collect(f, a + b) == Collect(f, a) + Collect(f, b)
  {
    if a == [] {
      assert a + b == b;
    } else {
      CollectConcat(f, a[1..], b);
      assert (a + b)[1..] == a[1..] + b;
    }
  }

  lemma CollectOne<T, U>(f: T -> seq<U>, s: seq<T>, x: T)
    ensures Collect(f, s + [x]) == Collect(f, s) + f(x)
  {
    CollectConcat(f, s, [x]);
    assert [x][1..] == [];
    assert Collect(f, [x]) == f(x);
  }

  lemma CollectCons<T, U>(f: T -> seq<U>, x: T, rest: seq<T>)
    ensures Collect(f, [x] + rest) == f(x) + Collect(f, rest)
  {
    assert ([x] + rest)[1..] == rest;
  }

  lemma {:induction false} CollectMember<T, U>(f: T -> seq<U>, s: seq<T>, y: U)
    ensures y in Collect(f, s) <==> exists i :: 0 <= i < |s| && y in f(s[i])
  {
    if s == [] {
    } else {
      CollectMember(f, s[1..], y);
      if y in Collect(f, s[1..]) {
        var i :| 0 <= i < |s[1..]| && y in f(s[1..][i]);
        assert s[i + 1] == s[1..][i];
      }
      if i :| 0 <= i < |s| && y in f(s[i]) {
        if i > 0 { assert s[1..][i - 1] == s[i]; }
      }
    }
  }

  lemma MemberSplits<T>(x: T, s: seq<T>) returns (a: seq<T>, b: seq<T>)
    requires x in s
    ensures s == a + [x] + b
    ensures multiset(s) == multiset{x} + multiset(a + b)
  {
    var i :| 0 <= i < |s| && s[i] == x;
    a, b := s[..i], s[i + 1..];
    assert s == a + [x] + b;
    assert multiset(s) == multiset(a) + multiset([x]) + multiset(b);
  }

  lemma CollectPulls<T, U>(f: T -> seq<U>, a: seq<T>, x: T, b: seq<T>)
    ensures multiset(Collect(f, a + [x] + b)) == multiset(f(x)) + multiset(Collect(f, a + b))
  {
    CollectConcat(f, a, b);
    CollectConcat(f, a + [x], b);
    CollectOne(f, a, x);
  }

  /** Flat-mapping permuted sequences gives permuted sequences. */
  lemma {:induction false} CollectPermutes<T, U>(f: T -> seq<U>, s: seq<T>, t: seq<T>)
    requires multiset(s) == multiset(t)
    ensures multiset(Collect(f, s)) == multiset(Collect(f, t))
    decreases |s|
  {
    if s == [] {
      assert |multiset(t)| == 0;
      assert t == [];
    } else {
      var x, rest := s[0], s[1..];
      assert s == [x] + rest;
      assert multiset(s) == multiset{x} + multiset(rest);
      assert x in multiset(t);
      var a, b := MemberSplits(x, t);
      assert multiset(rest) == multiset(s) - multiset{x} == multiset(t) - multiset{x} == multiset(a + b);
      CollectPermutes(f, rest, a + b);
      CollectPulls(f, a, x, b);
    }
  }

  lemma SingletonFromMultiset<T>(s: seq<T>, t: seq<T>)
    requires multiset(s) == multiset(t)
    ensures |s| == |t|
    ensures |s| == 1 ==> s == t
  {
    assert |multiset(s)| == |multiset(t)|;
    if |s| == 1 {
      assert s[0] in multiset(t);
    }
  }

  // ---------- bytewise lexicographic order ----------

  /** `<[u8] as Ord>::cmp(a, b) != Greater` */
  predicate LexLeq(a: Bytes, b: Bytes)
  {
    a == [] || (b != [] && (a[0] < b[0] || (a[0] == b[0] && LexLeq(a[1..], b[1..]))))
  }

  lemma {:induction false} LexTotal(a: Bytes, b: Bytes)
    ensures LexLeq(a, b) || LexLeq(b, a)
    ensures LexLeq(a, a)
  {
    if a == [] {
    } else {
      LexTotal(a[1..], if b == [] then [] else b[1..]);
    }
  }

  lemma {:induction false} LexAntisymmetric(a: Bytes, b: Bytes)
    requires LexLeq(a, b) && LexLeq(b, a)
    ensures a == b
  {
    if a == [] {
    } else {
      LexAntisymmetric(a[1..], b[1..]);
      assert a == [a[0]] + a[1..] && b == [b[0]] + b[1..];
    }
  }

  lemma {:induction false} LexTransitive(a: Bytes, b: Bytes, c: Bytes)
    requires LexLeq(a, b) && LexLeq(b, c)
    ensures LexLeq(a, c)
  {
    if a != [] && a[0] == b[0] == c[0] { LexTransitive(a[1..], b[1..], c[1..]); }
  }

  /** Comparing strings of equal-length blocks compares block by block. */
  lemma {:induction false} LexBlocks(a1: Bytes, a2: Bytes, b1: Bytes, b2: Bytes)
    requires |a1| == |b1|
    ensures LexLeq(a1 + a2, b1 + b2) <==> if a1 == b1 then LexLeq(a2, b2) else LexLeq(a1, b1)
  {
    if a1 == [] {
      assert a1 + a2 == a2 && b1 + b2 == b2;
    } else {
      LexBlocks(a1[1..], a2, b1[1..], b2);
      assert (a1 + a2)[1..] == a1[1..] + a2 && (b1 + b2)[1..] == b1[1..] + b2;
      assert a1 == [a1[0]] + a1[1..] && b1 == [b1[0]] + b1[1..];
    }
  }
}
