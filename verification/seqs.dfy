/**
 * Erasing the first occurrence of a value from a list, as `std::list::erase` does at the
 * position `std::find` reaches, and as unlinking one node from a singly linked list does.
 */
module Seqs {
  /** `s` with its first occurrence of `x` erased; `s` itself when `x` does not occur. */
  function EraseFirst<T(==)>(s: seq<T>, x: T): (r: seq<T>)
    ensures x in s ==> |r| == |s| - 1
    ensures x !in s ==> r == s
  {
    if s == [] then []
    else if s[0] == x then s[1..]
    else
      assert s == [s[0]] + s[1..];
      [s[0]] + EraseFirst(s[1..], x)
  }

  /** Erasing takes exactly one `x` out of the multiset of elements when there is one. */
  lemma {:induction false} EraseFirstMultiset<T>(s: seq<T>, x: T)
    requires x in s
    ensures multiset(EraseFirst(s, x)) == multiset(s) - multiset{x}
  {
    assert s == [s[0]] + s[1..];
    if s[0] != x {
      EraseFirstMultiset(s[1..], x);
    }
  }

  /** When `i` is the first position holding `x`, erasing removes position `i`. */
  lemma {:induction false} EraseFirstAt<T>(s: seq<T>, x: T, i: nat)
    requires i < |s| && s[i] == x && x !in s[..i]
    ensures EraseFirst(s, x) == s[..i] + s[i + 1..]
  {
    if i > 0 {
      var t := s[1..];
      assert s[0] == s[..i][0];
      assert t[..i - 1] == s[..i][1..];
      EraseFirstAt(t, x, i - 1);
      assert s[..i] == [s[0]] + t[..i - 1];
      assert s[i + 1..] == t[i..];
    }
  }

  /** Erasing from a concatenation whose first part holds `x` erases from that part. */
  lemma {:induction false} EraseFirstInFront<T>(a: seq<T>, b: seq<T>, x: T)
    requires x in a
    ensures EraseFirst(a + b, x) == EraseFirst(a, x) + b
  {
    var ab := a + b;
    assert ab[0] == a[0];
    if a[0] != x {
      assert a == [a[0]] + a[1..];
      assert ab[1..] == a[1..] + b;
      EraseFirstInFront(a[1..], b, x);
    } else {
      assert ab[1..] == a[1..] + b;
    }
  }

  /** Erasing from a concatenation whose first part lacks `x` erases from the second part. */
  lemma {:induction false} EraseFirstBehind<T>(a: seq<T>, b: seq<T>, x: T)
    requires x !in a
    ensures EraseFirst(a + b, x) == a + EraseFirst(b, x)
  {
    if a == [] {
      assert a + b == b;
    } else {
      var ab := a + b;
      assert ab[0] == a[0] && a[0] != x;
      assert ab[1..] == a[1..] + b;
      assert x !in a[1..] by {
        assert forall k :: 0 <= k < |a[1..]| ==> a[1..][k] == a[k + 1];
      }
      EraseFirstBehind(a[1..], b, x);
      assert a == [a[0]] + a[1..];
    }
  }

  /** Erasing from `a + s + b`, where `s` holds `x` and `a` does not, erases from `s`. */
  lemma EraseFirstMiddle<T>(a: seq<T>, s: seq<T>, b: seq<T>, x: T)
    requires x in s && x !in a
    ensures EraseFirst(a + s + b, x) == a + EraseFirst(s, x) + b
  {
    assert a + s + b == a + (s + b);
    EraseFirstBehind(a, s + b, x);
    EraseFirstInFront(s, b, x);
    assert a + (EraseFirst(s, x) + b) == a + EraseFirst(s, x) + b;
  }
}
