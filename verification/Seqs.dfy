/** General facts about sequences and sets. */
module Seqs {

  /** The next element of an iteration in no particular order. */
  method Pick<T>(items: set<T>) returns (x: T)
    requires items != {}
    ensures x in items
  {
    x :| x in items;
  }

  lemma Choose<T>(items: set<T>) returns (x: T)
    requires items != {}
    ensures x in items
  {
    x :| x in items;
  }

  lemma SubsetOfSameSize<T>(x: set<T>, y: set<T>)
    requires x <= y
    ensures |x| == |y| <==> x == y
  {
    assert x + (y - x) == y;
    assert |x + (y - x)| == |x| + |y - x|;
    if |y - x| == 0 {
      assert y - x == {};
    }
  }

  predicate Distinct<T(==)>(s: seq<T>) {
    forall i, j | 0 <= i < j < |s| :: s[i] != s[j]
  }

  function Repeat<T>(x: T, n: nat): seq<T> {
    seq(n, i => x)
  }

  lemma {:induction false} RepeatCount<T>(x: T, n: nat, y: T)
    ensures multiset(Repeat(x, n))[y] == if y == x then n else 0
  {
    if n == 0 {
      assert Repeat(x, n) == [];
    } else {
      RepeatCount(x, n - 1, y);
      assert Repeat(x, n) == Repeat(x, n - 1) + [x];
    }
  }

  lemma PrefixSnoc<T>(s: seq<T>, i: nat)
    requires i < |s|
    ensures s[..i + 1] == s[..i] + [s[i]]
  {
  }

  lemma Associative<T>(a: seq<T>, b: seq<T>, c: seq<T>)
    ensures (a + b) + c == a + (b + c)
  {
  }

  function Flatten<T>(parts: seq<seq<T>>): seq<T> {
    if parts == [] then [] else Flatten(parts[..|parts| - 1]) + parts[|parts| - 1]
  }

  lemma FlattenSnoc<T>(parts: seq<seq<T>>, part: seq<T>)
    ensures Flatten(parts + [part]) == Flatten(parts) + part
  {
    assert (parts + [part])[..|parts|] == parts;
  }

  lemma {:induction false} FlattenAppend<T>(a: seq<seq<T>>, b: seq<seq<T>>)
    ensures Flatten(a + b) == Flatten(a) + Flatten(b)
  {
    if b == [] {
      assert a + b == a;
    } else {
      var front, last := b[..|b| - 1], b[|b| - 1];
      assert a + b == (a + front) + [last];
      FlattenSnoc(a + front, last);
      FlattenAppend(a, front);
    }
  }

  lemma FlattenStep<T>(parts: seq<seq<T>>, i: nat)
    requires i < |parts|
    ensures Flatten(parts[..i + 1]) == Flatten(parts[..i]) + parts[i]
    ensures Flatten(parts) == Flatten(parts[..i + 1]) + Flatten(parts[i + 1..])
  {
    PrefixSnoc(parts, i);
    FlattenSnoc(parts[..i], parts[i]);
    assert parts == parts[..i + 1] + parts[i + 1..];
    FlattenAppend(parts[..i + 1], parts[i + 1..]);
  }

  lemma FlattenStepAfter<T>(done: seq<T>, parts: seq<seq<T>>, i: nat)
    requires i < |parts|
    ensures done + Flatten(parts[..i + 1]) == done + Flatten(parts[..i]) + parts[i]
    ensures done + Flatten(parts) == (done + Flatten(parts[..i + 1])) + Flatten(parts[i + 1..])
  {
    FlattenStep(parts, i);
    Associative(done, Flatten(parts[..i]), parts[i]);
    Associative(done, Flatten(parts[..i + 1]), Flatten(parts[i + 1..]));
  }

  lemma {:induction false} InFlatten<T>(parts: seq<seq<T>>, x: T)
    ensures x in Flatten(parts) <==> exists i :: 0 <= i < |parts| && x in parts[i]
  {
    if parts != [] {
      var n := |parts| - 1;
      InFlatten(parts[..n], x);
      if x in Flatten(parts[..n]) {
        var i :| 0 <= i < n && x in parts[..n][i];
        assert x in parts[i];
      }
      if exists i :: 0 <= i < |parts| && x in parts[i] {
        var i :| 0 <= i < |parts| && x in parts[i];
        if i < n {
          assert x in parts[..n][i];
        }
      }
    }
  }

  // ---- Permutations

  lemma OccursIn<T>(a: seq<T>, b: seq<T>) returns (i: nat)
    requires multiset(a) == multiset(b) && a != []
    ensures i < |b| && b[i] == a[|a| - 1]
  {
    assert a[|a| - 1] in multiset(b);
    i :| 0 <= i < |b| && b[i] == a[|a| - 1];
  }

  lemma DropBoth<T>(a: seq<T>, b: seq<T>, i: nat)
    requires multiset(a) == multiset(b) && a != [] && i < |b| && b[i] == a[|a| - 1]
    ensures multiset(a[..|a| - 1]) == multiset(b[..i] + b[i + 1..])
  {
    var front, x, y, last := a[..|a| - 1], b[..i], b[i + 1..], b[i];
    assert a == front + [last];
    assert b == x + [last] + y;
    assert multiset(front) == multiset(front + [last]) - multiset{last};
    assert multiset(x + y) == multiset(x + [last] + y) - multiset{last};
  }

  function Map<A, B>(f: A -> B, s: seq<A>): (r: seq<B>)
    ensures |r| == |s|
  {
    seq(|s|, i requires 0 <= i < |s| => f(s[i]))
  }

  lemma MapAppend<A, B>(f: A -> B, a: seq<A>, b: seq<A>)
    ensures Map(f, a + b) == Map(f, a) + Map(f, b)
  {
  }

  lemma MapAt<A, B>(f: A -> B, s: seq<A>, i: nat)
    requires i < |s|
    ensures Map(f, s)[i] == f(s[i])
  {
  }

  lemma MapSnoc<A, B>(f: A -> B, a: seq<A>, x: A)
    ensures Map(f, a + [x]) == Map(f, a) + [f(x)]
  {
  }

  /** Mapping a permutation yields a permutation. */
  lemma {:induction false} MapPermutes<A, B>(f: A -> B, a: seq<A>, b: seq<A>)
    requires multiset(a) == multiset(b)
    ensures multiset(Map(f, a)) == multiset(Map(f, b))
  {
    if a == [] {
      assert |multiset(b)| == 0;
    } else {
      var i := OccursIn(a, b);
      DropBoth(a, b, i);
      var front, x, y, last := a[..|a| - 1], b[..i], b[i + 1..], b[i];
      MapPermutes(f, front, x + y);
      assert Map(f, a) == Map(f, front) + [f(last)];
      assert Map(f, b) == Map(f, x) + [f(last)] + Map(f, y);
      assert Map(f, x + y) == Map(f, x) + Map(f, y);
    }
  }

  // ---- Selections

  function Filter<T>(keep: T -> bool, s: seq<T>): seq<T> {
    if s == [] then []
    else
      var last := s[|s| - 1];
      Filter(keep, s[..|s| - 1]) + if keep(last) then [last] else []
  }

  /** r is what is left of s: the elements at the given ascending positions, which are those to keep. */
  ghost predicate SelectedAt<T>(positions: seq<int>, keep: T -> bool, s: seq<T>, r: seq<T>) {
    && |positions| == |r|
    && (forall i | 0 <= i < |r| :: 0 <= positions[i] < |s| && r[i] == s[positions[i]] && keep(r[i]))
    && (forall i, j | 0 <= i < j < |r| :: positions[i] < positions[j])
    && (forall k | 0 <= k < |s| && keep(s[k]) :: k in positions)
  }

  /** Filtering keeps exactly the elements to keep, each as often as it occurs, and their order. */
  lemma {:induction false} FilterSelects<T>(keep: T -> bool, s: seq<T>) returns (positions: seq<int>)
    ensures SelectedAt(positions, keep, s, Filter(keep, s))
  {
    positions := [];
    if s != [] {
      var n := |s| - 1;
      positions := FilterSelects(keep, s[..n]);
      if keep(s[n]) {
        SelectLast(positions, keep, s[..n], Filter(keep, s[..n]), s[n]);
        positions := positions + [n];
        assert s == s[..n] + [s[n]];
      } else {
        SkipLast(positions, keep, s[..n], Filter(keep, s[..n]), s[n]);
        assert s == s[..n] + [s[n]];
      }
    }
  }

  lemma SelectLast<T>(positions: seq<int>, keep: T -> bool, s: seq<T>, r: seq<T>, x: T)
    requires SelectedAt(positions, keep, s, r) && keep(x)
    ensures SelectedAt(positions + [|s|], keep, s + [x], r + [x])
  {
    var all, t := positions + [|s|], s + [x];
    assert all[|positions|] == |s|;
    forall k | 0 <= k < |t| && keep(t[k])
      ensures k in all
    {
      if k < |s| {
        assert t[k] == s[k];
        assert k in positions;
      }
    }
  }

  lemma SkipLast<T>(positions: seq<int>, keep: T -> bool, s: seq<T>, r: seq<T>, x: T)
    requires SelectedAt(positions, keep, s, r) && !keep(x)
    ensures SelectedAt(positions, keep, s + [x], r)
  {
    var t := s + [x];
    forall k | 0 <= k < |t| && keep(t[k])
      ensures k in positions
    {
      assert k < |s| && t[k] == s[k];
    }
  }

  lemma FilterSnoc<T>(keep: T -> bool, s: seq<T>, x: T)
    ensures Filter(keep, s + [x]) == Filter(keep, s) + if keep(x) then [x] else []
  {
    assert (s + [x])[..|s|] == s;
  }

  /** Two elements of a concatenation, in order: their parts are in order, or they are in order in one part. */
  lemma {:induction false} FlattenOrder<T>(parts: seq<seq<T>>, i: nat, j: nat) returns (p: nat, k: nat, q: nat, l: nat)
    requires i < j < |Flatten(parts)|
    ensures p < |parts| && k < |parts[p]| && Flatten(parts)[i] == parts[p][k]
    ensures q < |parts| && l < |parts[q]| && Flatten(parts)[j] == parts[q][l]
    ensures p < q || (p == q && k < l)
  {
    var n := |parts| - 1;
    var before := Flatten(parts[..n]);
    if j < |before| {
      p, k, q, l := FlattenOrder(parts[..n], i, j);
    } else {
      q, l := n, j - |before|;
      if i < |before| {
        p, k := FlattenAt(parts[..n], i);
      } else {
        p, k := n, i - |before|;
      }
    }
  }

  lemma {:induction false} FlattenAt<T>(parts: seq<seq<T>>, i: nat) returns (p: nat, k: nat)
    requires i < |Flatten(parts)|
    ensures p < |parts| && k < |parts[p]| && Flatten(parts)[i] == parts[p][k]
  {
    var n := |parts| - 1;
    var before := Flatten(parts[..n]);
    if i < |before| {
      p, k := FlattenAt(parts[..n], i);
    } else {
      p, k := n, i - |before|;
    }
  }
}
