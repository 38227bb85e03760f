/**
  Sequence notions shared by the parser: duplicate-freedom, subsequences, and the
  order-preserving "append unless already present" update that both the day's place
  list and the bracket strategy use.
 */
module Seqs {

  predicate NoDuplicates<T(==)>(s: seq<T>) {
    forall i, j :: 0 <= i < j < |s| ==> s[i] != s[j]
  }

  /** `a` is obtained from `b` by deleting elements. */
  predicate IsSubsequence<T(==)>(a: seq<T>, b: seq<T>)
    decreases |b|
  {
    if b == [] then a == []
    else IsSubsequence(a, b[1..]) || (a != [] && a[0] == b[0] && IsSubsequence(a[1..], b[1..]))
  }

  lemma {:induction false} SubsequenceRefl<T>(a: seq<T>)
    ensures IsSubsequence(a, a)
    decreases |a|
  {
    if a != [] {
      SubsequenceRefl(a[1..]);
    }
  }

  lemma {:induction false} EmptySubsequence<T>(b: seq<T>)
    ensures IsSubsequence([], b)
    decreases |b|
  {
    if b != [] {
      EmptySubsequence(b[1..]);
    }
  }

  /** Deleting a prefix of `b` first is still a way of deleting from `b`. */
  lemma {:induction false} SubsequenceOfSuffix<T>(a: seq<T>, b: seq<T>, k: nat)
    requires k <= |b| && IsSubsequence(a, b[k..])
    ensures IsSubsequence(a, b)
    decreases k
  {
    if k > 0 {
      assert b[k - 1..][1..] == b[k..];
      SubsequenceOfSuffix(a, b, k - 1);
    }
  }

  lemma {:induction false} SubsequenceTrans<T>(a: seq<T>, b: seq<T>, c: seq<T>)
    requires IsSubsequence(a, b) && IsSubsequence(b, c)
    ensures IsSubsequence(a, c)
    decreases |c|
  {
    if c == [] {
    } else if IsSubsequence(b, c[1..]) {
      SubsequenceTrans(a, b, c[1..]);
    } else {
      // b[0] == c[0] and b[1..] is a subsequence of c[1..]
      if IsSubsequence(a, b[1..]) {
        SubsequenceTrans(a, b[1..], c[1..]);
      } else {
        SubsequenceTrans(a[1..], b[1..], c[1..]);
      }
    }
  }

  /** Appending the same element to both sides, or to the longer side only, keeps a
      subsequence a subsequence. */
  lemma {:induction false} SubsequenceAppend<T>(a: seq<T>, b: seq<T>, x: T)
    requires IsSubsequence(a, b)
    ensures IsSubsequence(a, b + [x]) && IsSubsequence(a + [x], b + [x])
    decreases |b|
  {
    if b == [] {
      assert a == [];
      assert (b + [x])[1..] == [];
      assert (a + [x])[1..] == [];
    } else {
      assert (b + [x])[1..] == b[1..] + [x];
      if IsSubsequence(a, b[1..]) {
        SubsequenceAppend(a, b[1..], x);
      } else {
        SubsequenceAppend(a[1..], b[1..], x);
        assert (a + [x])[1..] == a[1..] + [x];
      }
    }
  }

  /** A prefix is a subsequence. */
  lemma {:induction false} PrefixIsSubsequence<T>(b: seq<T>, k: nat)
    requires k <= |b|
    ensures IsSubsequence(b[..k], b)
    decreases |b|
  {
    if b != [] {
      if k == 0 {
        PrefixIsSubsequence(b[1..], 0);
      } else {
        PrefixIsSubsequence(b[1..], k - 1);
        assert b[..k][1..] == b[1..][..k - 1];
      }
    }
  }

  // ---------------------------------------------------------------- order-preserving set

  /** Append `x` unless it is empty or already present: `if (x && !acc.includes(x)) acc.push(x)`. */
  function AddNew(acc: seq<string>, x: string): seq<string> {
    if x != [] && x !in acc then acc + [x] else acc
  }

  /** `AddNew` applied to every element of `xs`, left to right. */
  function AddAll(acc: seq<string>, xs: seq<string>): seq<string>
    decreases |xs|
  {
    if xs == [] then acc else AddNew(AddAll(acc, xs[..|xs| - 1]), xs[|xs| - 1])
  }

  /** Feeding two batches one after the other is feeding their concatenation. */
  lemma {:induction false} AddAllAppend(acc: seq<string>, xs: seq<string>, ys: seq<string>)
    ensures AddAll(AddAll(acc, xs), ys) == AddAll(acc, xs + ys)
    decreases |ys|
  {
    if ys == [] {
      assert xs + ys == xs;
    } else {
      var zs := xs + ys;
      assert zs[..|zs| - 1] == xs + ys[..|ys| - 1];
      assert zs[|zs| - 1] == ys[|ys| - 1];
      AddAllAppend(acc, xs, ys[..|ys| - 1]);
    }
  }

  /** What is already present keeps its place: the old list is a prefix of the new one. */
  lemma {:induction false} AddAllExtends(acc: seq<string>, xs: seq<string>)
    ensures |acc| <= |AddAll(acc, xs)| && AddAll(acc, xs)[..|acc|] == acc
    decreases |xs|
  {
    if xs != [] {
      AddAllExtends(acc, xs[..|xs| - 1]);
    }
  }

  /** The result holds exactly the old elements and the non-empty new ones. */
  lemma {:induction false} AddAllMembers(acc: seq<string>, xs: seq<string>)
    ensures forall x :: x in AddAll(acc, xs) <==> x in acc || (x != [] && x in xs)
    decreases |xs|
  {
    if xs != [] {
      var init := xs[..|xs| - 1];
      AddAllMembers(acc, init);
      assert xs == init + [xs[|xs| - 1]];
    }
  }

  /** A list without duplicates or empty strings stays so. */
  lemma {:induction false} AddAllWellFormed(acc: seq<string>, xs: seq<string>)
    requires NoDuplicates(acc) && [] !in acc
    ensures NoDuplicates(AddAll(acc, xs)) && [] !in AddAll(acc, xs)
    decreases |xs|
  {
    if xs != [] {
      AddAllWellFormed(acc, xs[..|xs| - 1]);
    }
  }

  /** Some occurrence of `a` in `xs` precedes every occurrence of `b`. */
  ghost predicate SeenBefore(xs: seq<string>, a: string, b: string) {
    forall q :: 0 <= q < |xs| && xs[q] == b ==> a in xs[..q]
  }

  /** Starting from nothing, the result lists the elements in the order of their first
      occurrence in `xs`. */
  lemma {:induction false} AddAllFirstSeen(xs: seq<string>)
    ensures forall i, j :: 0 <= i < j < |AddAll([], xs)| ==> SeenBefore(xs, AddAll([], xs)[i], AddAll([], xs)[j])
    decreases |xs|
  {
    if xs != [] {
      var init, x := xs[..|xs| - 1], xs[|xs| - 1];
      var prev := AddAll([], init);
      var r := AddAll([], xs);
      AddAllFirstSeen(init);
      AddAllMembers([], init);
      assert forall q :: 0 <= q < |init| ==> xs[q] == init[q] && xs[..q] == init[..q];
      assert xs[..|xs| - 1] == init;
      forall i, j | 0 <= i < j < |r|
        ensures SeenBefore(xs, r[i], r[j])
      {
        assert r[i] == prev[i] && r[i] in init;
        if j < |prev| {
          assert SeenBefore(init, prev[i], prev[j]);
        } else {
          assert r[j] == x && x != [] && x !in prev;
          assert x !in init;
        }
      }
    }
  }

  // ---------------------------------------------------------------- map

  /** `f` applied to each element in order: how a loop that handles its input element by
      element, such as the parser's classification of each line, is read as a value. */
  function Map<A, B>(f: A -> B, xs: seq<A>): (ys: seq<B>)
    ensures |ys| == |xs|
    decreases |xs|
  {
    if xs == [] then [] else Map(f, xs[..|xs| - 1]) + [f(xs[|xs| - 1])]
  }

  lemma {:induction false} MapAt<A, B>(f: A -> B, xs: seq<A>, i: nat)
    requires i < |xs|
    ensures Map(f, xs)[i] == f(xs[i])
    decreases |xs|
  {
    if i < |xs| - 1 {
      MapAt(f, xs[..|xs| - 1], i);
    }
  }

  lemma {:induction false} MapAppend<A, B>(f: A -> B, xs: seq<A>, ys: seq<A>)
    ensures Map(f, xs + ys) == Map(f, xs) + Map(f, ys)
    decreases |ys|
  {
    if ys == [] {
      assert xs + ys == xs;
    } else {
      MapAppend(f, xs, ys[..|ys| - 1]);
      assert (xs + ys)[..|xs + ys| - 1] == xs + ys[..|ys| - 1];
    }
  }

  lemma MapStep<A, B>(f: A -> B, xs: seq<A>, i: nat)
    requires i < |xs|
    ensures Map(f, xs[..i + 1]) == Map(f, xs[..i]) + [f(xs[i])]
  {
    assert xs[..i + 1][..i] == xs[..i];
  }

  // ---------------------------------------------------------------- slicing

  /** `a` is `b` with its last element replaced by `x`. */
  lemma ReplaceLast<T>(a: seq<T>, b: seq<T>, x: T)
    requires |a| == |b| > 0
    requires forall j :: 0 <= j < |b| - 1 ==> a[j] == b[j]
    requires a[|a| - 1] == x
    ensures a == b[..|b| - 1] + [x]
  {
  }

  lemma Assoc3<T>(a: seq<T>, b: seq<T>, c: seq<T>)
    ensures a + b + c == a + (b + c)
  {
  }

  lemma Assoc4<T>(a: seq<T>, b: seq<T>, c: seq<T>, d: seq<T>)
    ensures a + b + c + d == a + (b + (c + d))
  {
  }

  lemma Group3<T>(a: seq<T>, b: seq<T>, c: seq<T>, d: seq<T>, e: seq<T>)
    ensures a + b + c + d + e == a + (b + c + d) + e
  {
  }

  lemma Assoc5<T>(a: seq<T>, b: seq<T>, c: seq<T>, d: seq<T>, e: seq<T>)
    ensures a + b + c + d + e == a + (b + (c + (d + e)))
  {
  }

  lemma SliceCons<T>(s: seq<T>, i: nat)
    requires i < |s|
    ensures s[i..] == [s[i]] + s[i + 1..]
  {
  }

  lemma SliceSplit<T>(s: seq<T>, i: nat, j: nat)
    requires i <= j <= |s|
    ensures s[i..] == s[i..j] + s[j..]
  {
  }
}
