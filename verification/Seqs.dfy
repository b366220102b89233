/** Facts about sequences, kept apart so that they are proved without a context. */
module Seqs {

  lemma Assoc<T>(a: seq<T>, b: seq<T>, c: seq<T>)
    ensures (a + b) + c == a + (b + c)
  {
  }

  lemma ConsAssoc<T>(a: seq<T>, s: seq<T>, c: seq<T>)
    requires s != []
    ensures a + s + c == a + [s[0]] + (s[1..] + c)
    ensures (s + c)[1..] == s[1..] + c
    ensures a + s == a + [s[0]] + s[1..]
  {
  }

  // Two neighbours and what is around them.
  lemma Neighbours<T>(s: seq<T>, k: nat)
    requires k + 1 < |s|
    ensures s == s[..k] + [s[k]] + ([s[k + 1]] + s[k + 2..])
    ensures s[..k] + [s[k]] == s[..k + 1] && s[k + 1..] == [s[k + 1]] + s[k + 2..] && s == s[..k + 1] + s[k + 1..]
  {
  }

  // The middle and the end of three parts.
  lemma ThreePieces<T>(a: seq<T>, b: seq<T>, c: seq<T>)
    ensures (a + b + c)[|a|..|a| + |b|] == b && (a + b + c)[|a| + |b|..] == c
  {
  }

  lemma DropSnoc<T>(s: seq<T>, x: T, n: nat)
    requires n <= |s|
    ensures (s + [x])[n..] == s[n..] + [x]
    ensures forall y :: y in s[n..] + [x] <==> y in s[n..] || y == x
  {
  }

  lemma SetOfConcat<T>(a: seq<T>, b: seq<T>)
    ensures (set x | x in a + b) == (set x | x in a) + (set x | x in b)
  {
  }

  ghost predicate Distinct<T>(s: seq<T>) {
    forall i, j :: 0 <= i < j < |s| ==> s[i] != s[j]
  }

  // A list after the first occurrence of an item was taken out.
  function Without<T(==)>(s: seq<T>, x: T): seq<T> {
    if s == [] then []
    else if s[0] == x then s[1..]
    else [s[0]] + Without(s[1..], x)
  }

  lemma {:induction false} WithoutOther<T>(s: seq<T>, x: T)
    requires x !in s
    ensures Without(s, x) == s
  {
    if s != [] {
      assert s[0] in s;
      assert forall y :: y in s[1..] ==> y in s;
      WithoutOther(s[1..], x);
    }
  }

  lemma DistinctCons<T>(x: T, s: seq<T>)
    requires Distinct(s) && x !in s
    ensures Distinct([x] + s)
  {
  }

  lemma {:induction false} WithoutFacts<T>(s: seq<T>, x: T)
    requires Distinct(s) && x in s
    ensures Distinct(Without(s, x)) && |Without(s, x)| == |s| - 1
    ensures forall y :: y in Without(s, x) <==> y in s && y != x
  {
    var tail := s[1..];
    assert s == [s[0]] + tail;
    assert s[0] !in tail;
    if s[0] != x {
      WithoutFacts(tail, x);
      DistinctCons(s[0], Without(tail, x));
    }
  }

  lemma {:induction false} WithoutSplit<T>(before: seq<T>, todo: seq<T>)
    requires todo != [] && todo[0] !in before
    ensures Without(before + todo, todo[0]) == before + todo[1..]
  {
    if before == [] {
      assert before + todo == todo && before + todo[1..] == todo[1..];
    } else {
      assert before[0] in before && (before + todo)[1..] == before[1..] + todo;
      WithoutSplit(before[1..], todo);
      assert [before[0]] + (before[1..] + todo[1..]) == before + todo[1..];
    }
  }

  // `x` stands before `y` in the list.
  ghost predicate Before<T>(s: seq<T>, x: T, y: T) {
    exists i, j :: 0 <= i < j < |s| && s[i] == x && s[j] == y
  }

  lemma BeforeCons<T>(z: T, s: seq<T>, x: T, y: T)
    ensures Before([z] + s, x, y) <==> (x == z && y in s) || Before(s, x, y)
  {
    var t := [z] + s;
    assert forall k :: 0 <= k < |s| ==> t[k + 1] == s[k];
    if Before(t, x, y) {
      var i, j :| 0 <= i < j < |t| && t[i] == x && t[j] == y;
      assert s[j - 1] == y;
      assert i > 0 ==> s[i - 1] == x;
    }
    if x == z && y in s {
      var j :| 0 <= j < |s| && s[j] == y;
      assert t[0] == x && t[j + 1] == y;
    }
    if Before(s, x, y) {
      var i, j :| 0 <= i < j < |s| && s[i] == x && s[j] == y;
      assert t[i + 1] == x && t[j + 1] == y;
    }
  }

  // Taking one item out leaves the others in order.
  lemma {:induction false} WithoutOrder<T>(s: seq<T>, z: T, x: T, y: T)
    requires x != z && y != z
    ensures Before(Without(s, z), x, y) <==> Before(s, x, y)
    ensures y in Without(s, z) <==> y in s
  {
    if s != [] {
      var tail := s[1..];
      assert s == [s[0]] + tail;
      BeforeCons(s[0], tail, x, y);
      if s[0] != z {
        WithoutOrder(tail, z, x, y);
        BeforeCons(s[0], Without(tail, z), x, y);
      }
    }
  }

  // Appending leaves what was there in order, and stands behind it.
  lemma BeforeSnoc<T>(s: seq<T>, z: T, x: T, y: T)
    ensures Before(s + [z], x, y) <==> Before(s, x, y) || (x in s && y == z)
  {
    var t := s + [z];
    if Before(t, x, y) {
      var i, j :| 0 <= i < j < |t| && t[i] == x && t[j] == y;
      assert s[i] == x;
      assert j < |s| ==> s[j] == y;
    }
    if Before(s, x, y) {
      var i, j :| 0 <= i < j < |s| && s[i] == x && s[j] == y;
      assert t[i] == x && t[j] == y;
    }
    if x in s && y == z {
      var i :| 0 <= i < |s| && s[i] == x;
      assert t[i] == x && t[|s|] == y;
    }
  }

  lemma BeforeOneWay<T>(s: seq<T>, x: T, y: T)
    requires Distinct(s)
    ensures !(Before(s, x, y) && Before(s, y, x))
    ensures x in s && y in s && x != y ==> Before(s, x, y) || Before(s, y, x)
    ensures Before(s, x, y) ==> x != y && x in s && y in s
  {
    if x in s && y in s && x != y {
      var i :| 0 <= i < |s| && s[i] == x;
      var j :| 0 <= j < |s| && s[j] == y;
    }
  }

  lemma FirstTwo<T>(s: seq<T>)
    ensures |s| > 0 ==> s[0] in s
    ensures |s| > 1 ==> s[1] in s
  {
  }

  lemma Singleton<T>(s: seq<T>, x: T)
    requires Distinct(s) && x in s && forall y :: y in s ==> y == x
    ensures s == [x]
  {
    FirstTwo(s);
  }
}
