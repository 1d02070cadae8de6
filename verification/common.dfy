/** Small sequence vocabulary shared by the page models: an optional value,
    removal of one position, and removal of every occurrence of a value. */
module Common {

  /** A value that may be absent (a nullable field in the pages). */
  datatype Option<+T> = None | Some(value: T)

  /** The sequence without the element at position `k`; the identity when
      `k` is not a position of `s` (the effect of filtering on `i !== k`). */
  function RemoveAt<T>(s: seq<T>, k: int): (r: seq<T>)
    ensures 0 <= k < |s| ==> |r| == |s| - 1
    ensures 0 <= k < |s| ==> forall j :: 0 <= j < k ==> r[j] == s[j]
    ensures 0 <= k < |s| ==> forall j :: k <= j < |r| ==> r[j] == s[j + 1]
    ensures !(0 <= k < |s|) ==> r == s
  {
    if 0 <= k < |s| then s[..k] + s[k + 1..] else s
  }

  /** Every element of `s` other than `x`, in order (`s.filter(e => e !== x)`). */
  function Without<T(==)>(s: seq<T>, x: T): (r: seq<T>)
    ensures x !in r
    ensures forall i :: 0 <= i < |r| ==> r[i] in s
    ensures forall i :: 0 <= i < |s| && s[i] != x ==> s[i] in r
    ensures |r| <= |s|
    ensures x !in s ==> r == s
    ensures multiset(r) == multiset(s)[x := 0]
  {
    if |s| == 0 then []
    else
      var p := s[..|s| - 1];
      assert s == p + [s[|s| - 1]];
      if s[|s| - 1] == x then Without(p, x)
      else Without(p, x) + [s[|s| - 1]]
  }

  /** Filtering distributes over concatenation, so the kept elements stay
      in their original order. */
  lemma {:induction false} WithoutAppend<T>(a: seq<T>, b: seq<T>, x: T)
    ensures Without(a + b, x) == Without(a, x) + Without(b, x)
    decreases |b|
  {
    if |b| == 0 {
      assert a + b == a;
    } else {
      var c := b[..|b| - 1];
      assert (a + b)[..|a + b| - 1] == a + c;
      WithoutAppend(a, c, x);
    }
  }

  /** No value occurs twice. */
  predicate NoDup<T(==)>(s: seq<T>)
  {
    forall i, j :: 0 <= i < j < |s| ==> s[i] != s[j]
  }

  /** Filtering preserves the absence of duplicates. */
  lemma {:induction false} WithoutNoDup<T>(s: seq<T>, x: T)
    requires NoDup(s)
    ensures NoDup(Without(s, x))
  {
    if |s| > 0 {
      var p := s[..|s| - 1];
      assert NoDup(p);
      WithoutNoDup(p, x);
      if s[|s| - 1] != x {
        var last := s[|s| - 1];
        assert last !in p;
        assert last !in Without(p, x);
      }
    }
  }

  /** In a duplicate-free sequence, removing a present value removes exactly
      its one position and keeps every other element in order. */
  lemma WithoutAtIndex<T>(s: seq<T>, x: T, k: nat)
    requires NoDup(s)
    requires k < |s| && s[k] == x
    ensures Without(s, x) == RemoveAt(s, k)
  {
    var a, b := s[..k], s[k + 1..];
    assert s == a + [x] + b;
    assert x !in a && x !in b;
    assert Without([x], x) == [] by {
      assert [x][..0] == [];
    }
    WithoutAppend(a + [x], b, x);
    WithoutAppend(a, [x], x);
  }
}
