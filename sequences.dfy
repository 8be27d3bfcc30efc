/**
 * Python list operations the core relies on: slicing `s[:n]`, flattening a
 * list of lists, and keeping the first element per key (the `seen`-set idiom
 * every extractor and the fusion dictionary use).
 */
module Sequences {

  datatype Option<+T> = None | Some(value: T)

  function Min(a: int, b: int): int { if a <= b then a else b }

  /** Python's `s[:n]`, including negative `n` (which drops elements from the end). */
  function Take<T>(s: seq<T>, n: int): (r: seq<T>)
    ensures |r| <= |s| && r == s[..|r|]
    ensures 0 <= n ==> |r| == Min(n, |s|)
    ensures n < 0 ==> |r| == if |s| + n < 0 then 0 else |s| + n
  {
    if n >= |s| then s
    else if n >= 0 then s[..n]
    else if |s| + n >= 0 then s[..|s| + n]
    else []
  }

  /** The concatenation of a list of lists, in order. */
  function Flatten<T>(xss: seq<seq<T>>): seq<T>
  {
    if xss == [] then [] else Flatten(xss[..|xss| - 1]) + xss[|xss| - 1]
  }

  /** Reading one more element of `xs` after `prefix`. */
  lemma ReadOneMore<T>(prefix: seq<T>, xs: seq<T>, i: nat)
    requires i < |xs|
    ensures prefix + xs[..i + 1] == (prefix + xs[..i]) + [xs[i]]
  {
    assert xs[..i + 1] == xs[..i] + [xs[i]];
  }

  lemma FlattenAppend<T>(xss: seq<seq<T>>, xs: seq<T>)
    ensures Flatten(xss + [xs]) == Flatten(xss) + xs
  {
    assert (xss + [xs])[..|xss|] == xss;
  }

  lemma {:induction false} FlattenMember<T>(xss: seq<seq<T>>, x: T)
    ensures x in Flatten(xss) <==> exists i, j :: 0 <= i < |xss| && 0 <= j < |xss[i]| && xss[i][j] == x
  {
    if xss != [] {
      var init := xss[..|xss| - 1];
      FlattenMember(init, x);
      assert forall i, j :: 0 <= i < |init| && 0 <= j < |init[i]| ==> xss[i][j] == init[i][j];
      if x in xss[|xss| - 1] {
        var j :| 0 <= j < |xss[|xss| - 1]| && xss[|xss| - 1][j] == x;
        assert xss[|xss| - 1][j] == x;
      }
    }
  }

  /**
   * Position `i` holds the first kept element with its key: `keep(xs[i])` and no
   * earlier kept element has the same key.
   */
  predicate IsFirstOfKey<T, K(==)>(xs: seq<T>, i: int, keep: T -> bool, key: T -> K)
    requires 0 <= i < |xs|
  {
    keep(xs[i]) && forall j :: 0 <= j < i && keep(xs[j]) ==> key(xs[j]) != key(xs[i])
  }

  /** The elements at first-of-key positions, in their original order. */
  function FirstPerKey<T, K(==)>(xs: seq<T>, keep: T -> bool, key: T -> K): seq<T>
  {
    if xs == [] then []
    else FirstPerKey(xs[..|xs| - 1], keep, key)
         + (if IsFirstOfKey(xs, |xs| - 1, keep, key) then [xs[|xs| - 1]] else [])
  }

  /** The keys of all kept elements: what a `seen` set holds after a pass over `xs`. */
  function KeysSeen<T, K(==)>(xs: seq<T>, keep: T -> bool, key: T -> K): set<K>
  {
    if xs == [] then {}
    else KeysSeen(xs[..|xs| - 1], keep, key)
         + (if keep(xs[|xs| - 1]) then {key(xs[|xs| - 1])} else {})
  }

  lemma {:induction false} KeysSeenMember<T, K>(xs: seq<T>, keep: T -> bool, key: T -> K, k: K)
    ensures k in KeysSeen(xs, keep, key) <==> exists j :: 0 <= j < |xs| && keep(xs[j]) && key(xs[j]) == k
  {
    if xs != [] {
      var init := xs[..|xs| - 1];
      KeysSeenMember(init, keep, key, k);
      assert forall j :: 0 <= j < |init| ==> init[j] == xs[j];
    }
  }

  /**
   * The step a loop with a `seen` set takes: the next element is kept exactly
   * when it passes `keep` and its key is not yet in `seen`.
   */
  lemma FirstPerKeyStep<T, K>(xs: seq<T>, x: T, keep: T -> bool, key: T -> K)
    ensures IsFirstOfKey(xs + [x], |xs|, keep, key) <==> keep(x) && key(x) !in KeysSeen(xs, keep, key)
    ensures FirstPerKey(xs + [x], keep, key)
         == FirstPerKey(xs, keep, key) + (if keep(x) && key(x) !in KeysSeen(xs, keep, key) then [x] else [])
    ensures KeysSeen(xs + [x], keep, key) == KeysSeen(xs, keep, key) + (if keep(x) then {key(x)} else {})
  {
    var ys := xs + [x];
    assert ys[..|xs|] == xs;
    KeysSeenMember(xs, keep, key, key(x));
    assert forall j :: 0 <= j < |xs| ==> ys[j] == xs[j];
  }

  /** Every element kept satisfies `keep`, and their keys are exactly the keys seen. */
  lemma {:induction false} FirstPerKeyKeys<T, K>(xs: seq<T>, keep: T -> bool, key: T -> K)
    ensures forall y :: y in FirstPerKey(xs, keep, key) ==> keep(y)
    ensures forall k :: k in KeysSeen(xs, keep, key)
                    <==> exists y :: y in FirstPerKey(xs, keep, key) && key(y) == k
  {
    if xs != [] {
      var init, x := xs[..|xs| - 1], xs[|xs| - 1];
      assert xs == init + [x];
      FirstPerKeyKeys(init, keep, key);
      FirstPerKeyStep(init, x, keep, key);
    }
  }

  /** No two elements kept share a key, so there are exactly as many as distinct keys. */
  lemma {:induction false} FirstPerKeyDistinct<T, K>(xs: seq<T>, keep: T -> bool, key: T -> K)
    ensures var r := FirstPerKey(xs, keep, key);
      forall i, j :: 0 <= i < j < |r| ==> key(r[i]) != key(r[j])
    ensures |FirstPerKey(xs, keep, key)| == |KeysSeen(xs, keep, key)|
  {
    if xs != [] {
      var init, x := xs[..|xs| - 1], xs[|xs| - 1];
      assert xs == init + [x];
      FirstPerKeyDistinct(init, keep, key);
      FirstPerKeyKeys(init, keep, key);
      FirstPerKeyStep(init, x, keep, key);
      var r0 := FirstPerKey(init, keep, key);
      if keep(x) && key(x) !in KeysSeen(init, keep, key) {
        forall i | 0 <= i < |r0| ensures key(r0[i]) != key(x) {
          KeysSeenHas(init, keep, key, r0[i]);
        }
        assert KeysSeen(xs, keep, key) == KeysSeen(init, keep, key) + {key(x)};
        assert |KeysSeen(xs, keep, key)| == |KeysSeen(init, keep, key)| + 1;
      } else {
        assert KeysSeen(xs, keep, key) == KeysSeen(init, keep, key);
      }
    }
  }

  /** Every element that passes `keep` shares its key with a kept element. */
  lemma {:induction false} FirstPerKeyCovers<T, K>(xs: seq<T>, keep: T -> bool, key: T -> K, j: nat)
    requires j < |xs| && keep(xs[j])
    ensures exists y :: y in FirstPerKey(xs, keep, key) && key(y) == key(xs[j])
  {
    var init, x := xs[..|xs| - 1], xs[|xs| - 1];
    assert xs == init + [x];
    FirstPerKeyStep(init, x, keep, key);
    if j < |xs| - 1 {
      assert init[j] == xs[j];
      FirstPerKeyCovers(init, keep, key, j);
      var y :| y in FirstPerKey(init, keep, key) && key(y) == key(xs[j]);
      assert y in FirstPerKey(xs, keep, key);
    } else if key(x) in KeysSeen(init, keep, key) {
      KeysSeenMember(init, keep, key, key(x));
      var i :| 0 <= i < |init| && keep(init[i]) && key(init[i]) == key(x);
      FirstPerKeyCovers(init, keep, key, i);
      var y :| y in FirstPerKey(init, keep, key) && key(y) == key(x);
      assert y in FirstPerKey(xs, keep, key);
    } else {
      assert x in FirstPerKey(xs, keep, key);
    }
  }

  lemma KeysSeenHas<T, K>(xs: seq<T>, keep: T -> bool, key: T -> K, y: T)
    requires y in FirstPerKey(xs, keep, key)
    ensures key(y) in KeysSeen(xs, keep, key)
  {
    FirstPerKeyKeys(xs, keep, key);
  }

  /** Every element kept comes from `xs`. */
  lemma {:induction false} FirstPerKeySubset<T, K>(xs: seq<T>, keep: T -> bool, key: T -> K)
    ensures forall y :: y in FirstPerKey(xs, keep, key) ==> y in xs
  {
    if xs != [] {
      var init := xs[..|xs| - 1];
      FirstPerKeySubset(init, keep, key);
      assert forall y :: y in init ==> y in xs;
    }
  }

  /** The values `f` yields on `xs`, in order: a loop that appends what each element gives, if anything. */
  function Collect<A, B>(xs: seq<A>, f: A -> Option<B>): seq<B>
  {
    if xs == [] then []
    else Collect(xs[..|xs| - 1], f) + OptionToSeq(f(xs[|xs| - 1]))
  }

  function OptionToSeq<B>(o: Option<B>): (r: seq<B>)
    ensures o.None? ==> r == []
    ensures o.Some? ==> r == [o.value]
  {
    match o
    case None => []
    case Some(b) => [b]
  }

  /** One more loop iteration. */
  lemma CollectStep<A, B>(xs: seq<A>, i: nat, f: A -> Option<B>)
    requires i < |xs|
    ensures Collect(xs[..i + 1], f) == Collect(xs[..i], f) + OptionToSeq(f(xs[i]))
  {
    assert xs[..i + 1][..i] == xs[..i];
  }

  lemma {:induction false} CollectMember<A, B>(xs: seq<A>, f: A -> Option<B>, b: B)
    ensures b in Collect(xs, f) <==> exists i :: 0 <= i < |xs| && f(xs[i]) == Some(b)
  {
    if xs != [] {
      var init, last := xs[..|xs| - 1], xs[|xs| - 1];
      CollectMember(init, f, b);
      if b in Collect(xs, f) {
        if b in Collect(init, f) {
          var i :| 0 <= i < |init| && f(init[i]) == Some(b);
          assert xs[i] == init[i];
        } else {
          assert f(xs[|xs| - 1]) == Some(b);
        }
      }
      if exists i :: 0 <= i < |xs| && f(xs[i]) == Some(b) {
        var i :| 0 <= i < |xs| && f(xs[i]) == Some(b);
        if i < |init| {
          assert init[i] == xs[i];
        }
      }
    }
  }
}
