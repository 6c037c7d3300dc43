/**
  The few pieces of JavaScript's `Array` and `Set` behaviour the core relies on.

  A JavaScript `Set` keeps its elements in insertion order and `Array.from(set)`
  reads them back in that order, so a set is modelled here as a sequence in which
  no element occurs twice.
*/
module JsCollections {

  /** No element occurs twice: the shape of `Array.from(aSet)`. */
  predicate Unique<T(==,!new)>(s: seq<T>) {
    forall i, j :: 0 <= i < j < |s| ==> s[i] != s[j]
  }

  /** `Array.prototype.indexOf`: the first index holding `x`, or -1 when there is none. */
  function IndexOf<T(==,!new)>(s: seq<T>, x: T): (r: int)
    ensures -1 <= r < |s|
    ensures r == -1 <==> x !in s
    ensures 0 <= r ==> s[r] == x && x !in s[..r]
  {
    if |s| == 0 then -1
    else if s[0] == x then 0
    else
      var k := IndexOf(s[1..], x);
      if k == -1 then -1
      else
        assert s[..k + 1] == [s[0]] + s[1..][..k];
        k + 1
  }

  /** An index holds the first occurrence of its element exactly when no earlier index holds it. */
  lemma IndexOfIsFirst<T(!new)>(s: seq<T>, i: int)
    requires 0 <= i < |s|
    ensures IndexOf(s, s[i]) == i <==> s[i] !in s[..i]
  {
  }

  /**
    `Array.from(new Set(xs))`: the elements of `xs` with every repeat after the
    first occurrence removed, in the order of first occurrence.
  */
  function Dedup<T(==,!new)>(xs: seq<T>): (r: seq<T>)
    ensures Unique(r)
    ensures forall x :: x in r <==> x in xs
    ensures |r| <= |xs|
    ensures forall i, j :: 0 <= i < j < |r| ==> IndexOf(xs, r[i]) < IndexOf(xs, r[j])
    decreases |xs|
  {
    if |xs| == 0 then []
    else
      var init := xs[..|xs| - 1];
      var x := xs[|xs| - 1];
      assert xs == init + [x];
      assert forall y :: y in xs <==> y in init || y == x;
      var d := Dedup(init);
      forall y | y in init
        ensures IndexOf(xs, y) == IndexOf(init, y)
      {
        IndexOfAppend(init, x, y);
      }
      if x in init then d
      else
        IndexOfAppend(init, x, x);
        var r := d + [x];
        assert forall i :: 0 <= i < |d| ==> r[i] == d[i] && r[i] in init;
        r
  }

  /** Appending an element keeps the first index of everything already present, and puts a new element last. */
  lemma IndexOfAppend<T(!new)>(s: seq<T>, x: T, y: T)
    ensures y in s ==> IndexOf(s + [x], y) == IndexOf(s, y)
    ensures y !in s && y == x ==> IndexOf(s + [x], y) == |s|
  {
    var t := s + [x];
    var k, m := IndexOf(s, y), IndexOf(t, y);
    if y in s {
      assert t[k] == y && t[..k] == s[..k];
      assert forall i :: 0 <= i < m ==> t[..m][i] == t[i];
      assert forall i :: 0 <= i < k ==> s[..k][i] == s[i] == t[i];
    } else if y == x {
      assert t[|s|] == y;
      assert forall i :: 0 <= i < |s| ==> t[i] == s[i];
    }
  }

  /** Removing duplicates from a duplicate-free sequence changes nothing. */
  lemma {:induction false} DedupOfUnique<T(!new)>(xs: seq<T>)
    requires Unique(xs)
    ensures Dedup(xs) == xs
    decreases |xs|
  {
    if |xs| > 0 {
      var init, x := xs[..|xs| - 1], xs[|xs| - 1];
      assert xs == init + [x];
      assert Unique(init) by {
        forall i, j | 0 <= i < j < |init| ensures init[i] != init[j] {
          assert init[i] == xs[i] && init[j] == xs[j];
        }
      }
      assert x !in init by {
        forall i | 0 <= i < |init| ensures init[i] != x {
          assert init[i] == xs[i];
        }
      }
      DedupOfUnique(init);
      assert Dedup(xs) == Dedup(init) + [x];
    }
  }

  /** Deduplicating twice is the same as deduplicating once. */
  lemma DedupIdempotent<T(!new)>(xs: seq<T>)
    ensures Dedup(Dedup(xs)) == Dedup(xs)
  {
    DedupOfUnique(Dedup(xs));
  }

  /**
    The literal JavaScript idiom `arr.filter((x, i, a) => a.indexOf(x) === i)`,
    which keeps an element only at the index of its first occurrence. It computes
    exactly `Dedup`.
  */
  method FilterFirstOccurrences<T(==,!new)>(arr: seq<T>) returns (r: seq<T>)
    ensures r == Dedup(arr)
  {
    r := [];
    var i := 0;
    while i < |arr|
      invariant 0 <= i <= |arr|
      invariant r == Dedup(arr[..i])
    {
      IndexOfIsFirst(arr, i);
      assert arr[..i + 1][..i] == arr[..i];
      assert arr[..i + 1][i] == arr[i];
      if IndexOf(arr, arr[i]) == i {
        r := r + [arr[i]];
      }
      i := i + 1;
    }
    assert arr[..|arr|] == arr;
  }

  /** `set.add(x)`: appends `x` unless it is already present. */
  function Add<T(==,!new)>(s: seq<T>, x: T): (r: seq<T>)
    ensures x in r
    ensures forall y :: y != x ==> (y in r <==> y in s)
    ensures Unique(s) ==> Unique(r)
    ensures x in s ==> r == s
  {
    if x in s then s else s + [x]
  }

  /** Deletes every element of `ks` from `s`, keeping the order of the others. */
  function RemoveAll<T(==,!new)>(s: seq<T>, ks: set<T>): (r: seq<T>)
    ensures forall y :: y in r <==> y in s && y !in ks
    ensures Unique(s) ==> Unique(r)
    ensures |r| <= |s|
  {
    if |s| == 0 then []
    else
      var rest := RemoveAll(s[1..], ks);
      assert Unique(s) ==> Unique(s[1..]) && s[0] !in s[1..];
      if s[0] in ks then rest else [s[0]] + rest
  }

  /** `set.delete(x)`. */
  function Delete<T(==,!new)>(s: seq<T>, x: T): (r: seq<T>)
    ensures x !in r
    ensures forall y :: y != x ==> (y in r <==> y in s)
    ensures Unique(s) ==> Unique(r)
  {
    RemoveAll(s, {x})
  }

  /**
    `Array.prototype.slice(start)` with no end: a negative start counts from the
    end (so `slice(-n)` keeps the last `n` elements), and `slice(-0)` is `slice(0)`.
  */
  function SliceFrom<T>(s: seq<T>, start: int): (r: seq<T>)
    ensures start < 0 ==> |r| == if -start < |s| then -start else |s|
    ensures start >= 0 ==> |r| == if start < |s| then |s| - start else 0
    ensures r == s[|s| - |r|..]
  {
    if start < 0 then
      (if |s| + start > 0 then s[|s| + start..] else s)
    else
      (if start < |s| then s[start..] else [])
  }

  /** `array.splice(at, 0, ...items)`: inserts `items` before index `at`. */
  function Insert<T>(s: seq<T>, at: nat, items: seq<T>): (r: seq<T>)
    requires at <= |s|
    ensures |r| == |s| + |items|
    ensures r[..at] == s[..at] && r[at..at + |items|] == items && r[at + |items|..] == s[at..]
  {
    s[..at] + items + s[at..]
  }

  /** `array.pop()` for its effect on the array: drops the last element, if any. */
  function DropLast<T>(s: seq<T>): (r: seq<T>)
    ensures |s| == 0 ==> r == []
    ensures |s| > 0 ==> |r| == |s| - 1 && s == r + [s[|s| - 1]]
  {
    if |s| == 0 then [] else s[..|s| - 1]
  }
}
