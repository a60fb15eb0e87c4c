/** The listener registries: static List<>s used as sets (add if absent, remove if
    present), and the fan-out that hands one frame to every registered listener. */
module Registry {
  import opened Prelude

  predicate NoDuplicates<T(==)>(s: seq<T>)
  {
    forall i, j :: 0 <= i < j < |s| ==> s[i] != s[j]
  }

  /** `if (!list.Contains(x)) list.Add(x);` */
  function Added<T(==)>(s: seq<T>, x: T): seq<T>
  {
    if x in s then s else s + [x]
  }

  /** List.Remove(x): drops the first occurrence of x, if any. */
  function Removed<T(==)>(s: seq<T>, x: T): seq<T>
  {
    if s == [] then []
    else if s[0] == x then s[1..]
    else [s[0]] + Removed(s[1..], x)
  }

  /** Reference definition: every element other than x, in the original order. */
  function Without<T(==)>(s: seq<T>, x: T): seq<T>
  {
    if s == [] then []
    else (if s[0] == x then [] else [s[0]]) + Without(s[1..], x)
  }

  /** Adding keeps the list free of duplicates, puts x in it and changes nothing else. */
  lemma AddedSpec<T>(s: seq<T>, x: T)
    requires NoDuplicates(s)
    ensures NoDuplicates(Added(s, x))
    ensures x in Added(s, x)
    ensures forall y :: y in Added(s, x) <==> y in s || y == x
    ensures x in s ==> Added(s, x) == s
    ensures x !in s ==> Added(s, x) == s + [x]
  {
  }

  /** Adding twice is adding once. */
  lemma AddedIdempotent<T>(s: seq<T>, x: T)
    ensures Added(Added(s, x), x) == Added(s, x)
  {
  }

  /** On a duplicate-free list, Remove is the same as dropping every occurrence, in order. */
  lemma {:induction false} RemovedIsWithout<T>(s: seq<T>, x: T)
    requires NoDuplicates(s)
    ensures Removed(s, x) == Without(s, x)
    decreases |s|
  {
    if s != [] {
      assert NoDuplicates(s[1..]) by {
        forall i, j | 0 <= i < j < |s[1..]| ensures s[1..][i] != s[1..][j] {
          assert s[1..][i] == s[i + 1] && s[1..][j] == s[j + 1];
        }
      }
      RemovedIsWithout(s[1..], x);
      if s[0] == x {
        WithoutAbsent(s[1..], x);
      }
    }
  }

  /** Dropping an element that is absent changes nothing. */
  lemma {:induction false} WithoutAbsent<T>(s: seq<T>, x: T)
    requires x !in s
    ensures Without(s, x) == s
    decreases |s|
  {
    if s != [] {
      assert x !in s[1..];
      WithoutAbsent(s[1..], x);
    }
  }

  /** What Without keeps: exactly the elements other than x. */
  lemma {:induction false} WithoutMembers<T>(s: seq<T>, x: T)
    ensures forall y :: y in Without(s, x) <==> y in s && y != x
    ensures |Without(s, x)| <= |s|
    decreases |s|
  {
    if s != [] {
      WithoutMembers(s[1..], x);
      assert s == [s[0]] + s[1..];
    }
  }

  /** Dropping preserves the absence of duplicates. */
  lemma {:induction false} WithoutNoDuplicates<T>(s: seq<T>, x: T)
    requires NoDuplicates(s)
    ensures NoDuplicates(Without(s, x))
    decreases |s|
  {
    if s != [] {
      assert NoDuplicates(s[1..]) by {
        forall i, j | 0 <= i < j < |s[1..]| ensures s[1..][i] != s[1..][j] {
          assert s[1..][i] == s[i + 1] && s[1..][j] == s[j + 1];
        }
      }
      WithoutNoDuplicates(s[1..], x);
      WithoutMembers(s[1..], x);
      assert s[0] !in s[1..];
    }
  }

  /** Removal from a duplicate-free list: x is gone, every other listener stays, in its
      order, no duplicates appear, and removing an absent listener changes nothing. */
  lemma RemovedSpec<T>(s: seq<T>, x: T)
    requires NoDuplicates(s)
    ensures Removed(s, x) == Without(s, x)
    ensures x !in Removed(s, x)
    ensures forall y :: y != x ==> (y in Removed(s, x) <==> y in s)
    ensures NoDuplicates(Removed(s, x))
    ensures x !in s ==> Removed(s, x) == s
  {
    RemovedIsWithout(s, x);
    WithoutMembers(s, x);
    WithoutNoDuplicates(s, x);
    if x !in s {
      WithoutAbsent(s, x);
    }
  }

  /** Removing a listener that was just added restores the list. */
  lemma RemoveUndoesAdd<T>(s: seq<T>, x: T)
    requires x !in s
    ensures Removed(Added(s, x), x) == s
  {
    RemovedAppendAbsent(s, x);
  }

  lemma {:induction false} RemovedAppendAbsent<T>(s: seq<T>, x: T)
    requires x !in s
    ensures Removed(s + [x], x) == s
    decreases |s|
  {
    if s == [] {
      assert s + [x] == [x];
    } else {
      assert (s + [x])[1..] == s[1..] + [x];
      RemovedAppendAbsent(s[1..], x);
    }
  }

  /** One call of a listener's OnRawImageCaptured with a frame. */
  datatype Delivery<T> = Delivery(listener: T, image: seq<byte>)

  /** `foreach (var l in listeners) l.OnRawImageCaptured(image);` as the calls it makes. */
  function FanOut<T>(listeners: seq<T>, image: seq<byte>): (d: seq<Delivery<T>>)
    ensures |d| == |listeners|
    ensures forall i :: 0 <= i < |d| ==> d[i] == Delivery(listeners[i], image)
  {
    if listeners == [] then [] else [Delivery(listeners[0], image)] + FanOut(listeners[1..], image)
  }

  /** The foreach loop after one more listener. */
  lemma FanOutSnoc<T>(listeners: seq<T>, i: int, image: seq<byte>)
    requires 0 <= i < |listeners|
    ensures FanOut(listeners[..i + 1], image) == FanOut(listeners[..i], image) + [Delivery(listeners[i], image)]
  {
    var a, b := FanOut(listeners[..i + 1], image), FanOut(listeners[..i], image) + [Delivery(listeners[i], image)];
    assert |a| == |b|;
    forall k | 0 <= k < |a| ensures a[k] == b[k] {
      if k < i {
        assert listeners[..i + 1][k] == listeners[..i][k];
      }
    }
  }

  /** Each registered listener receives the frame exactly once; nobody else receives anything. */
  lemma {:induction false} FanOutOncePerListener<T>(listeners: seq<T>, image: seq<byte>, l: T)
    requires NoDuplicates(listeners)
    ensures Count(FanOut(listeners, image), Delivery(l, image)) == (if l in listeners then 1 else 0)
    decreases |listeners|
  {
    if listeners != [] {
      var rest := listeners[1..];
      assert NoDuplicates(rest) by {
        forall i, j | 0 <= i < j < |rest| ensures rest[i] != rest[j] {
          assert rest[i] == listeners[i + 1] && rest[j] == listeners[j + 1];
        }
      }
      FanOutOncePerListener(rest, image, l);
      assert FanOut(listeners, image)[1..] == FanOut(rest, image);
      if listeners[0] == l {
        assert l !in rest;
      }
    }
  }
}
