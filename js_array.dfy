/** The JavaScript array primitives the pages use, on immutable sequences:
    `filter` with a pure predicate, and `slice` with its index clamping. */
module JsArray {

  import opened Wrappers

  /** `r` is obtained from `s` by deleting elements, keeping the order of the rest. */
  ghost predicate IsSubsequence<T>(r: seq<T>, s: seq<T>)
    decreases |s|
  {
    if s == [] then r == []
    else (r != [] && r[0] == s[0] && IsSubsequence(r[1..], s[1..])) || IsSubsequence(r, s[1..])
  }

  lemma EmptySubsequence<T>(s: seq<T>)
    ensures IsSubsequence([], s)
    decreases |s|
  {
    if s != [] {
      EmptySubsequence(s[1..]);
    }
  }

  lemma {:induction false} SubsequenceOfItself<T>(s: seq<T>)
    ensures IsSubsequence(s, s)
    decreases |s|
  {
    if s != [] {
      SubsequenceOfItself(s[1..]);
    }
  }

  /** `s.filter(p)`: the elements that pass `p`, each as often as in `s`, in their original order. */
  function Filter<T>(s: seq<T>, p: T -> bool): seq<T>
    decreases |s|
  {
    if s == [] then [] else if p(s[0]) then [s[0]] + Filter(s[1..], p) else Filter(s[1..], p)
  }

  /** The filtered sequence keeps the order of `s` and holds exactly the elements of `s` that
      pass `p`. */
  lemma {:induction false} FilterSpec<T(!new)>(s: seq<T>, p: T -> bool)
    ensures IsSubsequence(Filter(s, p), s)
    ensures forall x :: x in Filter(s, p) <==> x in s && p(x)
    decreases |s|
  {
    if s != [] {
      FilterSpec(s[1..], p);
      var rest := Filter(s[1..], p);
      assert s == [s[0]] + s[1..];
      if p(s[0]) {
        assert ([s[0]] + rest)[1..] == rest;
      }
    }
  }

  lemma {:induction false} FilterLength<T>(s: seq<T>, p: T -> bool)
    ensures |Filter(s, p)| <= |s|
    decreases |s|
  {
    if s != [] {
      FilterLength(s[1..], p);
    }
  }

  lemma FilterCons<T>(x: T, s: seq<T>, p: T -> bool)
    ensures Filter([x] + s, p) == if p(x) then [x] + Filter(s, p) else Filter(s, p)
  {
    assert ([x] + s)[0] == x && ([x] + s)[1..] == s;
  }

  lemma SplitHead<T>(a: seq<T>, b: seq<T>)
    requires a != []
    ensures a == [a[0]] + a[1..]
    ensures a + b == [a[0]] + (a[1..] + b)
  {
    assert a == [a[0]] + a[1..];
  }

  lemma {:induction false} FilterAppend<T>(a: seq<T>, b: seq<T>, p: T -> bool)
    ensures Filter(a + b, p) == Filter(a, p) + Filter(b, p)
    decreases |a|
  {
    if a == [] {
      assert a + b == b;
    } else {
      FilterAppend(a[1..], b, p);
      SplitHead(a, b);
      FilterCons(a[0], a[1..] + b, p);
      FilterCons(a[0], a[1..], p);
    }
  }

  lemma {:induction false} FilterNone<T>(s: seq<T>, p: T -> bool)
    requires forall i :: 0 <= i < |s| ==> !p(s[i])
    ensures Filter(s, p) == []
    decreases |s|
  {
    if s != [] {
      FilterNone(s[1..], p);
    }
  }

  lemma {:induction false} FilterAll<T>(s: seq<T>, p: T -> bool)
    requires forall i :: 0 <= i < |s| ==> p(s[i])
    ensures Filter(s, p) == s
    decreases |s|
  {
    if s != [] {
      FilterAll(s[1..], p);
    }
  }

  /** `s.map(f)`. */
  function Map<A, B>(s: seq<A>, f: A -> B): (r: seq<B>)
    ensures |r| == |s|
  {
    if s == [] then [] else [f(s[0])] + Map(s[1..], f)
  }

  /** `y` is in `s.map(f)` exactly when it is the image of an element of `s`. */
  lemma {:induction false} MapMembership<A, B>(s: seq<A>, f: A -> B, y: B)
    ensures y in Map(s, f) <==> exists x :: x in s && f(x) == y
    decreases |s|
  {
    if s != [] {
      MapMembership(s[1..], f, y);
      assert Map(s, f) == [f(s[0])] + Map(s[1..], f);
      assert forall x :: x in s <==> x == s[0] || x in s[1..];
    }
  }

  /** Element `i` of `s.map(f)` is `f(s[i])`. */
  lemma {:induction false} MapAt<A, B>(s: seq<A>, f: A -> B, i: nat)
    requires i < |s|
    ensures Map(s, f)[i] == f(s[i])
    decreases i
  {
    if i > 0 {
      MapAt(s[1..], f, i - 1);
    }
  }

  lemma {:induction false} MapSnoc<A, B>(s: seq<A>, x: A, f: A -> B)
    ensures Map(s + [x], f) == Map(s, f) + [f(x)]
    decreases |s|
  {
    if s == [] {
      assert [x] + [] == [x];
    } else {
      assert (s + [x])[1..] == s[1..] + [x];
      MapSnoc(s[1..], x, f);
    }
  }

  /** `s.findIndex(p)`: the first index whose element passes `p`, or -1. */
  function FindIndex<T>(s: seq<T>, p: T -> bool): (r: int)
    ensures -1 <= r < |s|
    ensures r >= 0 ==> p(s[r]) && forall j :: 0 <= j < r ==> !p(s[j])
    ensures r == -1 ==> forall j :: 0 <= j < |s| ==> !p(s[j])
    decreases |s|
  {
    if s == [] then -1
    else if p(s[0]) then 0
    else
      var k := FindIndex(s[1..], p);
      if k == -1 then -1 else k + 1
  }

  /** `s.find(p)`: the first element that passes `p`, `None` (`undefined`) when none does. */
  function Find<T>(s: seq<T>, p: T -> bool): (r: Option<T>)
    ensures r.None? <==> forall j :: 0 <= j < |s| ==> !p(s[j])
    ensures r.Some? ==> r.value in s && p(r.value)
    ensures r.Some? ==> exists k :: 0 <= k < |s| && s[k] == r.value && p(s[k])
                                    && forall j :: 0 <= j < k ==> !p(s[j])
  {
    var k := FindIndex(s, p);
    if k == -1 then None else Some(s[k])
  }

  /** Moving the head of the second part to the end of the first leaves the concatenation alone. */
  lemma MoveFirst<T>(done: seq<T>, x: T, rest: seq<T>, whole: seq<T>)
    requires done + ([x] + rest) == whole
    ensures (done + [x]) + rest == whole
  {
  }

  /** Where `s.slice(start, end)` starts or stops: a negative index counts from the end, and the
      result is clamped to `0 .. |s|`. */
  function SliceIndex(len: nat, k: int): (r: nat)
    ensures r <= len
    ensures 0 <= k <= len ==> r == k
  {
    if k < 0 then (if len + k < 0 then 0 else len + k)
    else if k > len then len
    else k
  }

  /** `s.slice(start, end)`. */
  function Slice<T>(s: seq<T>, start: int, end: int): (r: seq<T>)
    ensures var from, to := SliceIndex(|s|, start), SliceIndex(|s|, end);
            && |r| == (if from < to then to - from else 0)
            && forall k :: 0 <= k < |r| ==> r[k] == s[from + k]
  {
    var from, to := SliceIndex(|s|, start), SliceIndex(|s|, end);
    if from < to then s[from..to] else []
  }
}
