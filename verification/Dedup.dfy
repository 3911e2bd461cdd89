/** A list with every element replaced by its image and every repeated key dropped. */
module Dedup {
  import opened Prelude

  /** Whether the element has a key and some earlier element has the same one. */
  predicate Repeats<T, K(==)>(earlier: seq<T>, x: T, key: T -> Option<K>) {
    key(x).Some? && exists i :: 0 <= i < |earlier| && key(earlier[i]) == key(x)
  }

  function Kept<T, K(==)>(xs: seq<T>, key: T -> Option<K>, image: T -> T): seq<T> {
    if xs == [] then []
    else
      var n := |xs| - 1;
      Kept(xs[..n], key, image) + if Repeats(xs[..n], xs[n], key) then [] else [image(xs[n])]
  }

  /** All keys that occur. */
  function Keys<T, K(==)>(xs: seq<T>, key: T -> Option<K>): set<K> {
    if xs == [] then {}
    else
      var n := |xs| - 1;
      Keys(xs[..n], key) + if key(xs[n]).Some? then {key(xs[n]).value} else {}
  }

  /** How many elements are dropped. */
  function Duplicates<T, K(==)>(xs: seq<T>, key: T -> Option<K>): nat {
    if xs == [] then 0
    else
      var n := |xs| - 1;
      Duplicates(xs[..n], key) + if Repeats(xs[..n], xs[n], key) then 1 else 0
  }

  /** The elements without a key. */
  function Keyless<T, K>(xs: seq<T>, key: T -> Option<K>): seq<T> {
    if xs == [] then []
    else
      var n := |xs| - 1;
      Keyless(xs[..n], key) + if key(xs[n]).Some? then [] else [xs[n]]
  }

  function Map<T, U>(xs: seq<T>, f: T -> U): seq<U> {
    seq(|xs|, i requires 0 <= i < |xs| => f(xs[i]))
  }

  /** What `f` finds in the elements, in order. */
  function Collect<T, U>(xs: seq<T>, f: T -> Option<U>): seq<U> {
    if xs == [] then []
    else
      var n := |xs| - 1;
      Collect(xs[..n], f) + if f(xs[n]).Some? then [f(xs[n]).value] else []
  }

  function Count<T>(xs: seq<T>, p: T -> bool): nat {
    if xs == [] then 0
    else
      var n := |xs| - 1;
      Count(xs[..n], p) + if p(xs[n]) then 1 else 0
  }

  /** The elements with `p`, in order. */
  function Filter<T>(xs: seq<T>, p: T -> bool): seq<T> {
    if xs == [] then []
    else
      var n := |xs| - 1;
      Filter(xs[..n], p) + if p(xs[n]) then [xs[n]] else []
  }

  function Copies<U>(u: U, n: nat): seq<U> {
    seq(n, i => u)
  }

  /** The image keeps the key and is its own image. */
  ghost predicate Stable<T, K>(xs: seq<T>, key: T -> Option<K>, image: T -> T) {
    forall i :: 0 <= i < |xs| ==> key(image(xs[i])) == key(xs[i]) && image(image(xs[i])) == image(xs[i])
  }

  // ---- One more element ----

  lemma KeptStep<T, K>(xs: seq<T>, x: T, key: T -> Option<K>, image: T -> T)
    ensures Kept(xs + [x], key, image) == Kept(xs, key, image) + if Repeats(xs, x, key) then [] else [image(x)]
    ensures Repeats(xs, x, key) ==> Kept(xs + [x], key, image) == Kept(xs, key, image)
  {
    assert (xs + [x])[..|xs|] == xs;
  }

  lemma KeysStep<T, K>(xs: seq<T>, x: T, key: T -> Option<K>)
    ensures Keys(xs + [x], key) == Keys(xs, key) + if key(x).Some? then {key(x).value} else {}
  {
    assert (xs + [x])[..|xs|] == xs;
  }

  lemma KeylessStep<T, K>(xs: seq<T>, x: T, key: T -> Option<K>)
    ensures Keyless(xs + [x], key) == Keyless(xs, key) + if key(x).Some? then [] else [x]
  {
    assert (xs + [x])[..|xs|] == xs;
  }

  lemma CollectStep<T, U>(xs: seq<T>, x: T, f: T -> Option<U>)
    ensures Collect(xs + [x], f) == Collect(xs, f) + if f(x).Some? then [f(x).value] else []
  {
    assert (xs + [x])[..|xs|] == xs;
  }

  lemma FilterStep<T>(xs: seq<T>, x: T, p: T -> bool)
    ensures Filter(xs + [x], p) == Filter(xs, p) + if p(x) then [x] else []
  {
    assert (xs + [x])[..|xs|] == xs;
  }

  lemma CountStep<T>(xs: seq<T>, x: T, p: T -> bool)
    ensures Count(xs + [x], p) == Count(xs, p) + if p(x) then 1 else 0
  {
    assert (xs + [x])[..|xs|] == xs;
  }

  lemma MapStep<T, U>(xs: seq<T>, x: T, f: T -> U)
    ensures Map(xs + [x], f) == Map(xs, f) + [f(x)]
  {
    assert forall i :: 0 <= i < |xs| ==> (xs + [x])[i] == xs[i];
  }

  lemma {:induction false} RepeatsExactly<T, K>(xs: seq<T>, x: T, key: T -> Option<K>)
    ensures Repeats(xs, x, key) <==> key(x).Some? && key(x).value in Keys(xs, key)
  {
    if xs != [] {
      var n := |xs| - 1;
      var front := xs[..n];
      RepeatsExactly(front, x, key);
      assert forall i :: 0 <= i < n ==> front[i] == xs[i];
    }
  }

  // ---- Laws ----

  /** Each element's fate: the first of its key keeps its place, a later one leaves no trace, nothing else moves. */
  lemma {:induction false} FirstOfEachKeyIsKept<T, K>(xs: seq<T>, key: T -> Option<K>, image: T -> T, i: nat)
    requires i < |xs|
    ensures var before, kept := Kept(xs[..i], key, image), Kept(xs, key, image);
            if Repeats(xs[..i], xs[i], key) then Kept(xs[..i + 1], key, image) == before
            else |before| < |kept| && kept[..|before|] == before && kept[|before|] == image(xs[i])
                 && Kept(xs[..i + 1], key, image) == before + [image(xs[i])]
    decreases |xs|
  {
    var n := |xs| - 1;
    assert xs[..i + 1] == xs[..i] + [xs[i]];
    KeptStep(xs[..i], xs[i], key, image);
    if i < n {
      var front := xs[..n];
      assert front[..i] == xs[..i] && front[..i + 1] == xs[..i + 1];
      FirstOfEachKeyIsKept(front, key, image, i);
    } else {
      assert xs[..i + 1] == xs;
    }
  }

  lemma {:induction false} KeptKeys<T, K>(xs: seq<T>, key: T -> Option<K>, image: T -> T)
    requires Stable(xs, key, image)
    ensures Keys(Kept(xs, key, image), key) == Keys(xs, key)
  {
    if xs != [] {
      var n := |xs| - 1;
      var front, last := xs[..n], xs[n];
      assert xs == front + [last];
      KeptKeys(front, key, image);
      KeptStep(front, last, key, image);
      RepeatsExactly(front, last, key);
      KeysStep(Kept(front, key, image), image(last), key);
    }
  }

  /** Doing it twice is doing it once. */
  lemma {:induction false} KeptTwice<T, K>(xs: seq<T>, key: T -> Option<K>, image: T -> T)
    requires Stable(xs, key, image)
    ensures Kept(Kept(xs, key, image), key, image) == Kept(xs, key, image)
  {
    if xs != [] {
      var n := |xs| - 1;
      var front, last := xs[..n], xs[n];
      var kept := Kept(front, key, image);
      KeptTwice(front, key, image);
      KeptKeys(front, key, image);
      RepeatsExactly(front, last, key);
      RepeatsExactly(kept, image(last), key);
      KeptStep(kept, image(last), key, image);
    }
  }

  /** Elements without a key come through in order, each as its image. */
  lemma {:induction false} KeylessComeThrough<T, K>(xs: seq<T>, key: T -> Option<K>, image: T -> T)
    requires Stable(xs, key, image)
    ensures Keyless(Kept(xs, key, image), key) == Map(Keyless(xs, key), image)
  {
    if xs != [] {
      var n := |xs| - 1;
      var front, last := xs[..n], xs[n];
      assert xs == front + [last];
      KeylessComeThrough(front, key, image);
      KeptStep(front, last, key, image);
      KeylessStep(front, last, key);
      if key(last).None? {
        MapStep(Keyless(front, key), last, image);
      }
      KeylessStep(Kept(front, key, image), image(last), key);
    }
  }

  /** Elements that have `p`, no key, and `f` for an image come through in order, each as that. */
  lemma {:induction false} FilteredComeThrough<T, K>(xs: seq<T>, key: T -> Option<K>, image: T -> T, p: T -> bool, f: T -> T)
    requires forall i :: 0 <= i < |xs| ==> p(image(xs[i])) == p(xs[i])
    requires forall i :: 0 <= i < |xs| && p(xs[i]) ==> key(xs[i]).None? && image(xs[i]) == f(xs[i])
    ensures Filter(Kept(xs, key, image), p) == Map(Filter(xs, p), f)
  {
    if xs != [] {
      var n := |xs| - 1;
      var front, last := xs[..n], xs[n];
      assert xs == front + [last];
      FilteredComeThrough(front, key, image, p, f);
      KeptStep(front, last, key, image);
      FilterStep(front, last, p);
      FilterStep(Kept(front, key, image), image(last), p);
      if p(last) {
        MapStep(Filter(front, p), last, f);
      }
    }
  }

  lemma MapOfSame<T>(xs: seq<T>)
    ensures Map(xs, (x: T) => x) == xs
  {
  }

  /** When every keyed image shows `u` and nothing else shows anything, `u` is seen once per key. */
  lemma {:induction false} OnePerKey<T, K, U>(xs: seq<T>, key: T -> Option<K>, image: T -> T, f: T -> Option<U>, u: U)
    requires forall i :: 0 <= i < |xs| ==> f(image(xs[i])) == if key(xs[i]).Some? then Some(u) else None
    ensures Collect(Kept(xs, key, image), f) == Copies(u, |Keys(xs, key)|)
  {
    if xs != [] {
      var n := |xs| - 1;
      var front, last := xs[..n], xs[n];
      assert xs == front + [last];
      OnePerKey(front, key, image, f, u);
      KeptStep(front, last, key, image);
      KeysGrow(front, last, key);
      CollectStep(Kept(front, key, image), image(last), f);
      CopiesStep(u, |Keys(front, key)|);
    }
  }

  lemma CopiesStep<U>(u: U, n: nat)
    ensures Copies(u, n + 1) == Copies(u, n) + [u]
  {
  }

  /** When images keep `p` and keyed elements have it, the count falls by what is dropped. */
  lemma {:induction false} CountFalls<T, K>(xs: seq<T>, key: T -> Option<K>, image: T -> T, p: T -> bool)
    requires forall i :: 0 <= i < |xs| ==> p(image(xs[i])) == p(xs[i]) && (key(xs[i]).Some? ==> p(xs[i]))
    ensures Count(Kept(xs, key, image), p) == Count(xs, p) - Duplicates(xs, key)
  {
    if xs != [] {
      var n := |xs| - 1;
      var front, last := xs[..n], xs[n];
      assert xs == front + [last];
      CountFalls(front, key, image, p);
      KeptStep(front, last, key, image);
      CountStep(Kept(front, key, image), image(last), p);
    }
  }

  lemma {:induction false} OnlyDuplicatesDrop<T, K>(xs: seq<T>, key: T -> Option<K>, image: T -> T)
    ensures |Kept(xs, key, image)| == |xs| - Duplicates(xs, key)
  {
    if xs != [] {
      OnlyDuplicatesDrop(xs[..|xs| - 1], key, image);
    }
  }

  /** What holds of every image holds of every kept element. */
  lemma {:induction false} KeptAreImages<T, K>(xs: seq<T>, key: T -> Option<K>, image: T -> T, k: nat)
    requires k < |Kept(xs, key, image)|
    ensures exists i :: 0 <= i < |xs| && Kept(xs, key, image)[k] == image(xs[i])
    decreases |xs|
  {
    var n := |xs| - 1;
    var front := xs[..n];
    if k < |Kept(front, key, image)| {
      KeptAreImages(front, key, image, k);
      var i :| 0 <= i < n && Kept(front, key, image)[k] == image(front[i]);
      assert front[i] == xs[i];
    }
  }

  /** The two key functions tell the elements apart in the same way. */
  ghost predicate Agree<T, K, L>(xs: seq<T>, key: T -> Option<K>, other: T -> Option<L>) {
    (forall i :: 0 <= i < |xs| ==> key(xs[i]).Some? == other(xs[i]).Some?)
    && (forall i, j :: 0 <= i < j < |xs| ==> (key(xs[i]) == key(xs[j]) <==> other(xs[i]) == other(xs[j])))
  }

  lemma RepeatsAlike<T, K, L>(xs: seq<T>, n: nat, key: T -> Option<K>, other: T -> Option<L>)
    requires Agree(xs, key, other) && n < |xs|
    ensures Agree(xs[..n], key, other)
    ensures Repeats(xs[..n], xs[n], key) <==> Repeats(xs[..n], xs[n], other)
  {
    var front := xs[..n];
    assert forall i :: 0 <= i < n ==> front[i] == xs[i];
    assert forall i :: 0 <= i < n ==> (key(front[i]) == key(xs[n]) <==> other(front[i]) == other(xs[n]));
  }

  lemma KeysGrow<T, K>(xs: seq<T>, x: T, key: T -> Option<K>)
    ensures |Keys(xs + [x], key)| == |Keys(xs, key)| + if key(x).Some? && !Repeats(xs, x, key) then 1 else 0
  {
    KeysStep(xs, x, key);
    RepeatsExactly(xs, x, key);
    if Repeats(xs, x, key) {
      assert Keys(xs, key) + {key(x).value} == Keys(xs, key);
    }
  }

  /** Keys that tell the elements apart in the same way keep the same elements. */
  lemma {:induction false} KeptAlike<T, K, L>(xs: seq<T>, key: T -> Option<K>, other: T -> Option<L>, image: T -> T)
    requires Agree(xs, key, other)
    ensures Kept(xs, key, image) == Kept(xs, other, image)
    ensures |Keys(xs, key)| == |Keys(xs, other)| && Duplicates(xs, key) == Duplicates(xs, other)
  {
    if xs != [] {
      var n := |xs| - 1;
      assert xs == xs[..n] + [xs[n]];
      RepeatsAlike(xs, n, key, other);
      KeptAlike(xs[..n], key, other, image);
      KeysGrow(xs[..n], xs[n], key);
      KeysGrow(xs[..n], xs[n], other);
    }
  }
}
