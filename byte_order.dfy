/** Byte-wise ordering of keys, as Go's `<` on strings and `sort.Strings` use it. */
module ByteOrder {
  import opened Records

  /** `a < b` on Go strings: lexicographic on unsigned bytes, a proper prefix first. */
  predicate Less(a: Text, b: Text)
    decreases |a|
  {
    if a == [] then b != []
    else if b == [] then false
    else a[0] < b[0] || (a[0] == b[0] && Less(a[1..], b[1..]))
  }

  lemma {:induction false} LessIrreflexive(a: Text)
    ensures !Less(a, a)
    decreases |a|
  {
    if a != [] {
      LessIrreflexive(a[1..]);
    }
  }

  lemma {:induction false} LessAsymmetric(a: Text, b: Text)
    ensures Less(a, b) ==> !Less(b, a)
    decreases |a|
  {
    if a != [] && b != [] {
      LessAsymmetric(a[1..], b[1..]);
    }
  }

  lemma {:induction false} LessTransitive(a: Text, b: Text, c: Text)
    ensures Less(a, b) && Less(b, c) ==> Less(a, c)
    decreases |a|
  {
    if a != [] && b != [] && c != [] {
      LessTransitive(a[1..], b[1..], c[1..]);
    }
  }

  /** Two different keys are always ordered one way or the other. */
  lemma {:induction false} LessTotal(a: Text, b: Text)
    ensures a != b ==> Less(a, b) || Less(b, a)
    decreases |a|
  {
    if a != [] && b != [] && a[0] == b[0] {
      LessTotal(a[1..], b[1..]);
      assert a == [a[0]] + a[1..] && b == [b[0]] + b[1..];
    }
  }

  /** Keys in strictly ascending byte-wise order, hence without duplicates. */
  predicate StrictlySorted(ks: seq<Text>) {
    forall i, j :: 0 <= i < j < |ks| ==> Less(ks[i], ks[j])
  }

  /** `m` is the least element of `s`. */
  predicate IsLeast(m: Text, s: set<Text>) {
    m in s && forall x :: x in s && x != m ==> Less(m, x)
  }

  lemma {:induction false} LeastExists(s: set<Text>)
    requires s != {}
    ensures exists m :: IsLeast(m, s)
    decreases |s|
  {
    var x :| x in s;
    if s != {x} {
      LeastExists(s - {x});
      var m :| IsLeast(m, s - {x});
      LessTotal(x, m);
      if Less(x, m) {
        forall y | y in s && y != x ensures Less(x, y) {
          LessTransitive(x, m, y);
        }
        assert IsLeast(x, s);
      } else {
        assert IsLeast(m, s);
      }
    } else {
      assert IsLeast(x, s);
    }
  }

  /** The elements of a finite set of keys in ascending order: the one list that
      `sort.Strings` can produce from any listing of the set. */
  ghost function SortedSeqOf(s: set<Text>): (ks: seq<Text>)
    ensures StrictlySorted(ks)
    ensures forall k :: k in ks <==> k in s
    ensures |ks| == |s|
    decreases |s|
  {
    if s == {} then []
    else
      LeastExists(s);
      var m :| IsLeast(m, s);
      var rest := SortedSeqOf(s - {m});
      LeastFirst(m, s, rest);
      [m] + rest
  }

  /** Putting the least element in front of the sorted rest of the set sorts the set. */
  lemma LeastFirst(m: Text, s: set<Text>, rest: seq<Text>)
    requires IsLeast(m, s) && StrictlySorted(rest)
    requires forall k :: k in rest <==> k in s - {m}
    requires |rest| == |s - {m}|
    ensures StrictlySorted([m] + rest)
    ensures forall k :: k in [m] + rest <==> k in s
    ensures |[m] + rest| == |s|
  {
    assert |s - {m}| == |s| - 1;
    assert forall k :: k in [m] + rest <==> k == m || k in rest;
    forall j | 0 <= j < |rest| ensures Less(m, rest[j]) {
      assert rest[j] in rest;
      assert rest[j] in s && rest[j] != m;
    }
    var r := [m] + rest;
    forall a, b | 0 <= a < b < |r| ensures Less(r[a], r[b]) {
      if a > 0 {
        assert r[a] == rest[a - 1] && r[b] == rest[b - 1];
      }
    }
  }

  /** Two strictly sorted lists with the same elements are the same list. */
  lemma {:induction false} SortedUnique(a: seq<Text>, b: seq<Text>)
    requires StrictlySorted(a) && StrictlySorted(b)
    requires forall k :: k in a <==> k in b
    ensures a == b
    decreases |a|
  {
    assert a != [] ==> a[0] in a && a[0] in b;
    assert b != [] ==> b[0] in b && b[0] in a;
    if a != [] {
      if a[0] != b[0] {
        var i :| 0 <= i < |b| && b[i] == a[0];
        var j :| 0 <= j < |a| && a[j] == b[0];
        assert Less(b[0], a[0]) && Less(a[0], b[0]);
        LessAsymmetric(a[0], b[0]);
        assert false;
      }
      forall k ensures k in a[1..] <==> k in b[1..] {
        if k in a[1..] {
          var i :| 1 <= i < |a| && a[i] == k;
          LessIrreflexive(k);
          assert a[i] in a;
          var j :| 0 <= j < |b| && b[j] == k;
          assert j != 0;
          assert b[1..][j - 1] == k;
        }
        if k in b[1..] {
          var i :| 1 <= i < |b| && b[i] == k;
          LessIrreflexive(k);
          assert b[i] in b;
          var j :| 0 <= j < |a| && a[j] == k;
          assert j != 0;
          assert a[1..][j - 1] == k;
        }
      }
      SortedUnique(a[1..], b[1..]);
      assert a == [a[0]] + a[1..] && b == [b[0]] + b[1..];
    }
  }

  /** A key greater than everything before position i and less than everything
      from i on keeps the list strictly sorted when placed at i. */
  lemma SortedPlacement(ks: seq<Text>, i: nat, k: Text)
    requires StrictlySorted(ks) && i <= |ks|
    requires forall j :: 0 <= j < i ==> Less(ks[j], k)
    requires forall j :: i <= j < |ks| ==> Less(k, ks[j])
    ensures StrictlySorted(ks[..i] + [k] + ks[i..])
  {
    var r := ks[..i] + [k] + ks[i..];
    forall a, b | 0 <= a < b < |r| ensures Less(r[a], r[b]) {
      if b < i || a > i {
        assert r[a] == ks[if a < i then a else a - 1] && r[b] == ks[if b < i then b else b - 1];
      }
    }
  }

  /** Insert a new key into a strictly sorted list at its place. */
  method Insert(ks: seq<Text>, k: Text) returns (r: seq<Text>)
    requires StrictlySorted(ks) && k !in ks
    ensures StrictlySorted(r)
    ensures forall x :: x in r <==> x in ks || x == k
    ensures |r| == |ks| + 1
  {
    var i := 0;
    while i < |ks| && Less(ks[i], k)
      invariant 0 <= i <= |ks|
      invariant forall j :: 0 <= j < i ==> Less(ks[j], k)
    {
      i := i + 1;
    }
    if i < |ks| {
      LessTotal(ks[i], k);
      forall j | i < j < |ks| ensures Less(k, ks[j]) {
        LessTransitive(k, ks[i], ks[j]);
      }
    }
    SortedPlacement(ks, i, k);
    r := ks[..i] + [k] + ks[i..];
    assert forall x :: x in r <==> x in ks[..i] || x == k || x in ks[i..];
    assert ks == ks[..i] + ks[i..];
  }

  /** Sort a duplicate-free list of keys (insertion sort). */
  method SortKeys(ks: seq<Text>) returns (r: seq<Text>)
    requires forall i, j :: 0 <= i < j < |ks| ==> ks[i] != ks[j]
    ensures StrictlySorted(r)
    ensures forall x :: x in r <==> x in ks
    ensures |r| == |ks|
  {
    r := [];
    var n := 0;
    while n < |ks|
      invariant 0 <= n <= |ks|
      invariant StrictlySorted(r)
      invariant forall x :: x in r <==> x in ks[..n]
      invariant |r| == n
    {
      assert ks[n] !in ks[..n];
      r := Insert(r, ks[n]);
      assert ks[..n + 1] == ks[..n] + [ks[n]];
      n := n + 1;
    }
    assert ks[..n] == ks;
  }
}
