/** The list operations both managers build on: the comprehension
    `[e for e in xs if p(e)]`, `next(e for e in xs if p(e))`, and
    `xs.remove(e)` of the element found that way. */
module Lists {
  import opened Outcomes

  /** `[e for e in s if p(e)]`. */
  function Filter<T>(s: seq<T>, p: T -> bool): (r: seq<T>)
    ensures |r| <= |s|
    ensures forall i :: 0 <= i < |r| ==> r[i] in s && p(r[i])
    ensures forall i :: 0 <= i < |s| && p(s[i]) ==> s[i] in r
    ensures r == [] <==> forall i :: 0 <= i < |s| ==> !p(s[i])
  {
    if s == [] then []
    else
      assert forall i :: 1 <= i < |s| ==> s[i] == s[1..][i - 1];
      (if p(s[0]) then [s[0]] else []) + Filter(s[1..], p)
  }

  /** Filtering keeps the order of the list: the matches of a concatenation
      are the matches of its first part followed by those of its second. */
  lemma {:induction false} FilterAppend<T>(a: seq<T>, b: seq<T>, p: T -> bool)
    ensures Filter(a + b, p) == Filter(a, p) + Filter(b, p)
  {
    if a == [] {
      assert a + b == b;
    } else {
      assert (a + b)[1..] == a[1..] + b;
      FilterAppend(a[1..], b, p);
    }
  }

  /** Filtering keeps every matching element as often as the list holds
      it, and no other element. */
  lemma {:induction false} FilterMultiset<T>(s: seq<T>, p: T -> bool, x: T)
    ensures multiset(Filter(s, p))[x] == if p(x) then multiset(s)[x] else 0
  {
    if s != [] {
      FilterMultiset(s[1..], p, x);
      var head := if p(s[0]) then [s[0]] else [];
      assert Filter(s, p) == head + Filter(s[1..], p);
      assert multiset(Filter(s, p)) == multiset(head) + multiset(Filter(s[1..], p));
      assert s == [s[0]] + s[1..];
      assert multiset(s) == multiset([s[0]]) + multiset(s[1..]);
    }
  }

  /** Every element's count after filtering: its count in the list when it
      matches, none otherwise. */
  lemma FilterCounts<T>(s: seq<T>, p: T -> bool)
    ensures forall x :: multiset(Filter(s, p))[x] == if p(x) then multiset(s)[x] else 0
  {
    forall x
      ensures multiset(Filter(s, p))[x] == if p(x) then multiset(s)[x] else 0
    {
      FilterMultiset(s, p, x);
    }
  }

  /** The positions below `n` whose elements match, in increasing order. */
  function Positions<T>(s: seq<T>, p: T -> bool, n: nat): (idx: seq<nat>)
    requires n <= |s|
    ensures forall k :: 0 <= k < |idx| ==> idx[k] < n && p(s[idx[k]])
    ensures forall k, l :: 0 <= k < l < |idx| ==> idx[k] < idx[l]
    ensures forall i :: 0 <= i < n && p(s[i]) ==> i in idx
  {
    if n == 0 then []
    else Positions(s, p, n - 1) + (if p(s[n - 1]) then [n - 1] else [])
  }

  /** `r` is what `[e for e in s if p(e)]` yields, described without
      `Filter`: `s` read at its matching positions, in increasing order,
      each element kept as often as `s` holds it when it matches. */
  ghost predicate Selects<T(!new)>(r: seq<T>, s: seq<T>, p: T -> bool) {
    && |r| == |Positions(s, p, |s|)|
    && (forall k :: 0 <= k < |r| ==> r[k] == s[Positions(s, p, |s|)[k]])
    && (forall x :: multiset(r)[x] == if p(x) then multiset(s)[x] else 0)
  }

  /** Reading `s` at one more position extends the reading by that
      element. */
  lemma ReadAtAppend<T>(f: seq<T>, q: seq<nat>, s: seq<T>, j: nat)
    requires |f| == |q| && j < |s|
    requires forall k :: 0 <= k < |q| ==> q[k] < |s| && f[k] == s[q[k]]
    ensures forall k :: 0 <= k < |q| + 1 ==> (q + [j])[k] < |s| && (f + [s[j]])[k] == s[(q + [j])[k]]
  {
    forall k | 0 <= k < |q| + 1
      ensures (q + [j])[k] < |s| && (f + [s[j]])[k] == s[(q + [j])[k]]
    {
      if k < |q| {
        assert (f + [s[j]])[k] == f[k] && (q + [j])[k] == q[k];
      }
    }
  }

  lemma {:induction false} FilterPrefix<T>(s: seq<T>, p: T -> bool, n: nat)
    requires n <= |s|
    ensures |Filter(s[..n], p)| == |Positions(s, p, n)|
    ensures forall k :: 0 <= k < |Positions(s, p, n)| ==> Filter(s[..n], p)[k] == s[Positions(s, p, n)[k]]
  {
    if n > 0 {
      FilterPrefix(s, p, n - 1);
      var x := s[n - 1];
      var f, q := Filter(s[..n - 1], p), Positions(s, p, n - 1);
      assert s[..n] == s[..n - 1] + [x];
      FilterAppend(s[..n - 1], [x], p);
      assert [x][1..] == [];
      if p(x) {
        assert Filter(s[..n], p) == f + [x];
        assert Positions(s, p, n) == q + [n - 1];
        ReadAtAppend(f, q, s, n - 1);
      } else {
        assert Filter(s[..n], p) == f;
        assert Positions(s, p, n) == q;
      }
    }
  }

  /** The comprehension yields exactly the matching elements, in list
      order and with their multiplicity. */
  lemma FilterSelects<T(!new)>(s: seq<T>, p: T -> bool)
    ensures Selects(Filter(s, p), s, p)
  {
    FilterPrefix(s, p, |s|);
    assert s[..|s|] == s;
    FilterCounts(s, p);
  }

  /** The position `next(e for e in s if p(e))` finds. */
  predicate IsFirst<T>(s: seq<T>, p: T -> bool, i: int) {
    0 <= i < |s| && p(s[i]) && forall j :: 0 <= j < i ==> !p(s[j])
  }

  /** The index of the first element satisfying `p`, if any. */
  function FirstIndex<T>(s: seq<T>, p: T -> bool): (r: Option<nat>)
    ensures r.None? <==> forall i :: 0 <= i < |s| ==> !p(s[i])
    ensures r.Some? ==> IsFirst(s, p, r.value)
  {
    if s == [] then None
    else if p(s[0]) then Some(0)
    else match FirstIndex(s[1..], p)
      case None => None
      case Some(i) => Some(i + 1)
  }

  /** The list without its element at position `i`, the others kept in
      order. */
  function RemoveAt<T>(s: seq<T>, i: nat): (r: seq<T>)
    requires i < |s|
    ensures |r| == |s| - 1
    ensures forall j :: 0 <= j < i ==> r[j] == s[j]
    ensures forall j :: i <= j < |r| ==> r[j] == s[j + 1]
  {
    s[..i] + s[i + 1..]
  }

  /** `s.remove(x)`, where `at(i)` tells whether position `i` holds the
      very object `x`: the first such position is dropped, and a list
      without such a position is left as it is. It stands in for
      `list.remove` in `delete_task`, whose object is never in the list. */
  function RemoveFirstAt<T>(s: seq<T>, at: nat -> bool): (r: seq<T>)
    ensures (forall i :: 0 <= i < |s| ==> !at(i)) ==> r == s
    ensures (exists i :: 0 <= i < |s| && at(i)) ==> |r| == |s| - 1
  {
    if s == [] then []
    else if at(0) then s[1..]
    else
      var next := (i: nat) => at(i + 1);
      assert forall i :: 0 <= i < |s| - 1 ==> next(i) == at(i + 1);
      assert forall i :: 1 <= i < |s| && at(i) ==> next(i - 1);
      [s[0]] + RemoveFirstAt(s[1..], next)
  }
}
