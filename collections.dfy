/**
 * The two Doctrine ArrayCollection operations the entities use on their
 * association lists: the `contains`-guarded append and `removeElement`.
 * A collection is a sequence of object references; `in` and `==` compare
 * identity, as PHP's `contains` does for objects.
 */
module Collections {

  /** No element occurs twice: the collection behaves like a set. */
  predicate NoDuplicates<T(==)>(s: seq<T>)
  {
    forall i, j | 0 <= i < j < |s| :: s[i] != s[j]
  }

  /**
   * `if (!$c->contains($x)) { $c[] = $x; }`: the collection gains `x` at the
   * end unless it already held it.
   */
  function Add<T(==)>(s: seq<T>, x: T): (r: seq<T>)
    ensures x in r
    ensures forall y | y in r :: y in s || y == x
    ensures forall y | y in s :: y in r
    ensures |r| == if x in s then |s| else |s| + 1
    ensures r[..|s|] == s
    ensures NoDuplicates(s) ==> NoDuplicates(r)
  {
    if x in s then s else s + [x]
  }

  /** Position of the first occurrence of `x`. */
  function IndexOf<T(==)>(s: seq<T>, x: T): (i: nat)
    requires x in s
    ensures i < |s| && s[i] == x && x !in s[..i]
  {
    if s[0] == x then 0
    else
      assert x in s[1..];
      var k := IndexOf(s[1..], x);
      assert s[..k + 1] == [s[0]] + s[1..][..k];
      k + 1
  }

  /**
   * ArrayCollection::removeElement: the first occurrence of `x`, if any, is
   * dropped; everything else keeps its relative order.
   */
  function RemoveElement<T(==)>(s: seq<T>, x: T): (r: seq<T>)
    ensures x !in s ==> r == s
    ensures x in s ==> r == s[..IndexOf(s, x)] + s[IndexOf(s, x) + 1..]
    ensures forall y | y in r :: y in s
    ensures forall y | y in s && y != x :: y in r
  {
    if s == [] then []
    else if s[0] == x then s[1..]
    else
      var t := RemoveElement(s[1..], x);
      if x in s then
        CutBehindHead(s, x);
        [s[0]] + t
      else
        [s[0]] + t
  }

  /** Cutting out the first `x` behind a different head is cutting it out of the tail. */
  lemma CutBehindHead<T>(s: seq<T>, x: T)
    requires x in s && s[0] != x
    ensures x in s[1..] && IndexOf(s, x) == IndexOf(s[1..], x) + 1
    ensures s[..IndexOf(s, x)] + s[IndexOf(s, x) + 1..]
         == [s[0]] + (s[1..][..IndexOf(s[1..], x)] + s[1..][IndexOf(s[1..], x) + 1..])
  {
    var t := s[1..];
    assert x in t;
    var j := IndexOf(t, x);
    assert IndexOf(s, x) == j + 1;
    var front, back := t[..j], t[j + 1..];
    assert s[..j + 1] == [s[0]] + front;
    assert s[j + 2..] == back;
    assert ([s[0]] + front) + back == [s[0]] + (front + back);
  }

  /** Removing from a duplicate-free collection leaves `x` absent and keeps the set property. */
  lemma {:induction false} RemoveFromSet<T>(s: seq<T>, x: T)
    requires NoDuplicates(s)
    ensures x !in RemoveElement(s, x)
    ensures NoDuplicates(RemoveElement(s, x))
    ensures |RemoveElement(s, x)| == if x in s then |s| - 1 else |s|
  {
    if x in s {
      var i := IndexOf(s, x);
      var r := RemoveElement(s, x);
      assert r == s[..i] + s[i + 1..];
      assert |r| == |s| - 1;
      forall a, b | 0 <= a < b < |r| ensures r[a] != r[b] {
        var a' := if a < i then a else a + 1;
        var b' := if b < i then b else b + 1;
        assert r[a] == s[a'] && r[b] == s[b'] && a' < b';
      }
      forall k | 0 <= k < |r| ensures r[k] != x {
        var k' := if k < i then k else k + 1;
        assert r[k] == s[k'] && k' != i;
      }
    }
  }

  /** Adding twice is adding once. */
  lemma AddIdempotent<T>(s: seq<T>, x: T)
    ensures Add(Add(s, x), x) == Add(s, x)
  {
  }

  /** Adding then removing an absent element restores the collection. */
  lemma {:induction false} RemoveUndoesAdd<T>(s: seq<T>, x: T)
    requires x !in s
    ensures RemoveElement(Add(s, x), x) == s
  {
    var t := s + [x];
    assert x in t && t[|s|] == x && x !in t[..|s|];
    assert t[..|s|] == s;
    assert IndexOf(t, x) == |s|;
    assert t[..|s|] + t[|s| + 1..] == s;
  }
}
