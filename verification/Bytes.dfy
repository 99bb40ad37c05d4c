/** Byte strings with their value semantics and the order that keys every std::map of the engine
    (adapter_interface.h, struct BYTES). */
module Bytes {
  type Byte = x: int | 0 <= x < 256
  type BYTES = seq<Byte>
  type Table = map<BYTES, BYTES>

  const TWO32 := 0x1_0000_0000
  const TWO64 := 0x1_0000_0000_0000_0000

  datatype Option<+T> = None | Some(value: T)
  datatype Result<+T> = Ok(value: T) | Thrown

  predicate Differ<T(==)>(s: seq<T>, i: nat, j: nat)
    requires i < |s| && j < |s|
  {
    s[i] != s[j]
  }

  ghost predicate Distinct<T>(s: seq<T>) {
    forall i: nat, j: nat :: i < j < |s| ==> Differ(s, i, j)
  }

  lemma DistinctAt<T>(s: seq<T>, i: nat, j: nat)
    requires Distinct(s) && i < |s| && j < |s| && i != j
    ensures s[i] != s[j]
  {
    assert if i < j then Differ(s, i, j) else Differ(s, j, i);
  }

  lemma InitLast<T>(s: seq<T>)
    requires s != []
    ensures s == s[..|s| - 1] + [s[|s| - 1]]
  {
  }

  lemma {:induction false} DistinctInit<T>(s: seq<T>)
    requires Distinct(s) && s != []
    ensures Distinct(s[..|s| - 1]) && s[|s| - 1] !in s[..|s| - 1]
  {
    var n := |s| - 1;
    forall i: nat, j: nat | i < j < n ensures Differ(s[..n], i, j) { DistinctAt(s, i, j); }
    forall i | 0 <= i < n ensures s[..n][i] != s[n] { DistinctAt(s, i, n); }
  }

  lemma {:induction false} DistinctAppend<T>(s: seq<T>, x: T)
    requires Distinct(s) && x !in s
    ensures Distinct(s + [x])
  {
    forall i: nat, j: nat | i < j < |s + [x]| ensures Differ(s + [x], i, j) {
      if j < |s| {
        DistinctAt(s, i, j);
      } else {
        assert s[i] in s;
      }
    }
  }

  /** The number that a byte array represents, most significant byte first. */
  function Num(b: BYTES): nat {
    if b == [] then 0 else Num(b[..|b| - 1]) * 256 + b[|b| - 1]
  }

  /** What operator< decides: fewer bytes first, then the smaller number. */
  predicate Less(lhs: BYTES, rhs: BYTES) {
    |lhs| < |rhs| || (|lhs| == |rhs| && Num(lhs) < Num(rhs))
  }

  lemma {:induction false} NumAppend(b: BYTES, x: Byte)
    ensures Num(b + [x]) == Num(b) * 256 + x
  {
    assert (b + [x])[..|b|] == b;
  }

  /** Once two arrays of equal length differ in the number they spell, no further bytes change the verdict. */
  lemma {:induction false} NumDominates(a: BYTES, b: BYTES, i: nat)
    requires |a| == |b| && i <= |a| && Num(a[..i]) < Num(b[..i])
    ensures Num(a) < Num(b)
    decreases |a| - i
  {
    if i == |a| {
      assert a[..i] == a && b[..i] == b;
    } else {
      assert a[..i + 1] == a[..i] + [a[i]] && b[..i + 1] == b[..i] + [b[i]];
      NumAppend(a[..i], a[i]);
      NumAppend(b[..i], b[i]);
      NumDominates(a, b, i + 1);
    }
  }

  lemma {:induction false} NumInjective(a: BYTES, b: BYTES)
    requires |a| == |b| && Num(a) == Num(b)
    ensures a == b
  {
    if a != [] {
      var n := |a| - 1;
      NumInjective(a[..n], b[..n]);
      assert a == a[..n] + [a[n]] && b == b[..n] + [b[n]];
    }
  }

  /** operator<: the byte loop with its early returns decides the size-first numeric order. */
  method LessThan(lhs: BYTES, rhs: BYTES) returns (less: bool)
    ensures less == Less(lhs, rhs)
  {
    if |lhs| < |rhs| {
      return true;
    }
    if |lhs| == |rhs| {
      var i := 0;
      while i < |lhs|
        invariant 0 <= i <= |lhs|
        invariant lhs[..i] == rhs[..i]
      {
        assert lhs[..i + 1] == lhs[..i] + [lhs[i]] && rhs[..i + 1] == rhs[..i] + [rhs[i]];
        NumAppend(lhs[..i], lhs[i]);
        NumAppend(rhs[..i], rhs[i]);
        if lhs[i] < rhs[i] {
          NumDominates(lhs, rhs, i + 1);
          return true;
        }
        if lhs[i] > rhs[i] {
          NumDominates(rhs, lhs, i + 1);
          return false;
        }
        i := i + 1;
      }
      assert lhs == lhs[..i] == rhs[..i] == rhs;
      return false;
    }
    return false;
  }

  /** operator==: equal sizes and an early-exit comparison of the bytes. */
  method Equal(lhs: BYTES, rhs: BYTES) returns (equal: bool)
    ensures equal <==> lhs == rhs
  {
    equal := |lhs| == |rhs|;
    if equal {
      var i := 0;
      while i < |lhs|
        invariant 0 <= i <= |lhs|
        invariant equal && lhs[..i] == rhs[..i]
      {
        equal := lhs[i] == rhs[i];
        if !equal {
          return equal;
        }
        i := i + 1;
      }
    }
  }

  /** What std::map needs of its comparator: a strict order in which neither-is-less means equal. */
  lemma {:induction false} LessIsStrictTotalOrder(a: BYTES, b: BYTES, c: BYTES)
    ensures !Less(a, a)
    ensures Less(a, b) && Less(b, c) ==> Less(a, c)
    ensures !Less(a, b) && !Less(b, a) <==> a == b
  {
    if !Less(a, b) && !Less(b, a) {
      NumInjective(a, b);
    }
  }

  lemma {:induction false} SubsetSize(a: set<BYTES>, b: set<BYTES>)
    requires a <= b
    ensures |a| <= |b|
  {
    assert b == a + (b - a);
  }

  ghost predicate Sorted(ks: seq<BYTES>) {
    forall i, j :: 0 <= i < j < |ks| ==> Less(ks[i], ks[j])
  }

  lemma {:induction false} SortedDistinct(ks: seq<BYTES>)
    requires Sorted(ks)
    ensures Distinct(ks)
  {
    forall i: nat, j: nat | i < j < |ks| ensures Differ(ks, i, j) {
      assert Less(ks[i], ks[j]);
      LessIsStrictTotalOrder(ks[i], ks[i], ks[i]);
    }
  }

  lemma {:induction false} DistinctCount<T>(ks: seq<T>, s: set<T>)
    requires Distinct(ks) && forall k :: k in ks <==> k in s
    ensures |ks| == |s|
  {
    if ks != [] {
      var n := |ks| - 1;
      assert ks == ks[..n] + [ks[n]];
      DistinctInit(ks);
      DistinctCount(ks[..n], s - {ks[n]});
    } else {
      assert s == {};
    }
  }

  ghost predicate IsLeast(k: BYTES, s: set<BYTES>) {
    k in s && forall x :: x in s ==> x == k || Less(k, x)
  }

  /** The keys of s, least first: the order in which a std::map keyed by BYTES is walked. */
  ghost predicate Ascending(ks: seq<BYTES>, s: set<BYTES>) {
    Sorted(ks) && forall k :: k in ks <==> k in s
  }

  lemma {:induction false} HeadIsLeast(ks: seq<BYTES>, s: set<BYTES>)
    requires ks != [] && Ascending(ks, s)
    ensures IsLeast(ks[0], s)
    ensures Ascending(ks[1..], s - {ks[0]})
  {
    var k := ks[0];
    assert ks == [k] + ks[1..];
    forall x | x in ks[1..] ensures Less(k, x) {
      var i :| 0 <= i < |ks| - 1 && ks[1..][i] == x;
      assert ks[i + 1] == x;
    }
    LessIsStrictTotalOrder(k, k, k);
  }

  lemma {:induction false} LeastUnique(a: BYTES, b: BYTES, s: set<BYTES>)
    requires IsLeast(a, s) && IsLeast(b, s)
    ensures a == b
  {
    LessIsStrictTotalOrder(a, b, a);
    LessIsStrictTotalOrder(a, a, a);
  }

  lemma {:induction false} EmptyListing(ks: seq<BYTES>, s: set<BYTES>)
    requires Ascending(ks, s)
    ensures ks == [] <==> s == {}
  {
    if ks != [] {
      assert ks[0] in s;
    }
  }

  /** There is only one such walk, and it has as many steps as there are keys. */
  lemma {:induction false} WalkIsUnique(ks: seq<BYTES>, other: seq<BYTES>, s: set<BYTES>)
    requires Ascending(ks, s) && Ascending(other, s)
    ensures ks == other && |ks| == |s|
    decreases |ks|
  {
    EmptyListing(ks, s);
    EmptyListing(other, s);
    if ks != [] {
      HeadIsLeast(ks, s);
      HeadIsLeast(other, s);
      LeastUnique(ks[0], other[0], s);
      WalkIsUnique(ks[1..], other[1..], s - {ks[0]});
      assert ks == [ks[0]] + ks[1..] && other == [other[0]] + other[1..];
    }
  }

  /** Walks a map's keys the way a range-for over a std::map does: least key first. */
  method Walk(s: set<BYTES>) returns (ks: seq<BYTES>)
    ensures Ascending(ks, s) && |ks| == |s|
  {
    ks := [];
    var rest := s;
    while rest != {}
      invariant rest <= s
      invariant Sorted(ks)
      invariant forall k :: k in ks <==> k in s - rest
      invariant forall k, x :: k in ks && x in rest ==> Less(k, x)
      decreases rest
    {
      var k := LeastOf(rest);
      ks := ks + [k];
      rest := rest - {k};
    }
    WalkIsUnique(ks, ks, s);
  }

  method LeastOf(s: set<BYTES>) returns (k: BYTES)
    requires s != {}
    ensures IsLeast(k, s)
  {
    k :| k in s;
    var seen := {k};
    while seen != s
      invariant seen <= s && IsLeast(k, seen)
      decreases s - seen
    {
      assert s == seen + (s - seen);
      var x :| x in s - seen;
      var less := LessThan(x, k);
      if less {
        forall y | y in seen ensures Less(x, y) { LessIsStrictTotalOrder(x, k, y); }
        k := x;
      } else {
        LessIsStrictTotalOrder(k, x, x);
      }
      seen := seen + {x};
    }
  }
}
