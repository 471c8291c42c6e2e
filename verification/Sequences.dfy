/** Facts about sequences that several modules need. */
module Sequences {

  ghost predicate NoneTwice<T>(s: seq<T>) {
    forall i, j :: 0 <= i < j < |s| ==> s[i] != s[j]
  }

  lemma NoneTwiceAround<T>(a: seq<T>, x: T, b: seq<T>)
    ensures NoneTwice(a + [x] + b) <==> x !in a && x !in b && NoneTwice(a + b)
  {
    var s, r := a + [x] + b, a + b;
    assert s[|a|] == x;
    assert forall i :: 0 <= i < |r| ==> r[i] == if i < |a| then s[i] else s[i + 1];
    assert forall i :: 0 <= i < |s| ==> s[i] == if i < |a| then a[i] else if i == |a| then x else b[i - |a| - 1];
    assert forall i :: 0 <= i < |s| && i != |a| ==> s[i] == if i < |a| then r[i] else r[i - 1];
    if NoneTwice(s) {
      forall i, j | 0 <= i < j < |r| ensures r[i] != r[j] {
        assert s[if i < |a| then i else i + 1] != s[if j < |a| then j else j + 1];
      }
      forall i | 0 <= i < |b| ensures b[i] != x {
        assert s[i + |a| + 1] == b[i];
      }
    } else {
      var i, j :| 0 <= i < j < |s| && s[i] == s[j];
      if i != |a| && j != |a| {
        assert r[if i < |a| then i else i - 1] == r[if j < |a| then j else j - 1];
      }
    }
  }

  lemma NoneTwiceFirst<T>(x: T, s: seq<T>)
    requires NoneTwice(s) && x !in s
    ensures NoneTwice([x] + s)
  {
  }

  lemma NoneShared<T>(a: seq<T>, b: seq<T>)
    requires NoneTwice(a + b)
    ensures (forall x :: x in a ==> x !in b) && NoneTwice(b)
  {
    assert forall i :: 0 <= i < |b| ==> b[i] == (a + b)[|a| + i];
    forall i, j | 0 <= i < |a| && 0 <= j < |b| ensures a[i] != b[j] {
      assert (a + b)[i] == a[i] && (a + b)[|a| + j] == b[j];
    }
  }

  lemma LeftOver<T>(s: seq<T>, k: nat)
    requires NoneTwice(s) && k < |s|
    ensures forall x :: x in s[..k] + s[k + 1..] <==> x in s && x != s[k]
  {
    assert s == s[..k] + [s[k]] + s[k + 1..];
    NoneTwiceAround(s[..k], s[k], s[k + 1..]);
  }

  lemma Parted<T>(s: seq<T>, x: T) returns (a: seq<T>, b: seq<T>)
    requires x in s
    ensures s == a + [x] + b
  {
    var k :| 0 <= k < |s| && s[k] == x;
    a, b := s[..k], s[k + 1..];
  }

  lemma Reassociate<T>(a: seq<T>, b: seq<T>, c: seq<T>)
    ensures a + (b + c) == (a + b) + c
  {
  }
}
