/**
 * Pure sequence specifications for the operations of zaitsev::ForwardList.
 * Each operation of the list is specified by a function of the abstract
 * sequence of values it holds; the lemmas state what these functions mean.
 */
module ListSpec {

  datatype Option<T> = None | Some(value: T)

  // ---------------------------------------------------------------------
  // assign(count, value) and the (count, value) constructor
  // ---------------------------------------------------------------------

  /** `n` copies of `v`. */
  function Repeat<T>(v: T, n: nat): (r: seq<T>)
    ensures |r| == n
    ensures forall i :: 0 <= i < n ==> r[i] == v
  {
    if n == 0 then [] else Repeat(v, n - 1) + [v]
  }

  /** What the (count, value) constructor builds as written: its first node
      is allocated unconditionally, so a count of 0 still yields one node. */
  function CountConstructed<T>(count: nat, v: T): (r: seq<T>)
    ensures |r| == if count == 0 then 1 else count
    ensures forall x :: x in r ==> x == v
  {
    Repeat(v, if count == 0 then 1 else count)
  }

  /** The discrepancy: for a zero count the constructor does not build the
      empty list that `assign(0, v)` builds. */
  lemma CountConstructedZero<T>(v: T)
    ensures CountConstructed(0, v) == [v]
    ensures Repeat(v, 0) == []
    ensures CountConstructed(0, v) != Repeat(v, 0)
  {
  }

  /** For every positive count the constructor agrees with `assign`. */
  lemma {:induction false} CountConstructedPositive<T>(count: nat, v: T)
    requires count > 0
    ensures CountConstructed(count, v) == Repeat(v, count)
  {
  }

  // ---------------------------------------------------------------------
  // reverse()
  // ---------------------------------------------------------------------

  /** The elements of `s` in the opposite order. */
  function Reverse<T>(s: seq<T>): (r: seq<T>)
    ensures |r| == |s|
  {
    if s == [] then [] else Reverse(s[1..]) + [s[0]]
  }

  /** One step of reversal onto an accumulator: the first element of `r`
      moves to the front of `acc`. */
  lemma ReverseStep<T>(a: seq<T>, r: seq<T>, acc: seq<T>)
    requires r != [] && a == Reverse(r) + acc
    ensures a == Reverse(r[1..]) + ([r[0]] + acc)
  {
    assert Reverse(r) == Reverse(r[1..]) + [r[0]];
    AppendAssoc(Reverse(r[1..]), [r[0]], acc);
  }

  /** Position `i` of the reversal holds position `|s| - 1 - i` of `s`. */
  lemma {:induction false} ReverseIndex<T>(s: seq<T>)
    ensures forall i :: 0 <= i < |s| ==> Reverse(s)[i] == s[|s| - 1 - i]
  {
    if s != [] {
      ReverseIndex(s[1..]);
      forall i | 0 <= i < |s|
        ensures Reverse(s)[i] == s[|s| - 1 - i]
      {
        if i < |s| - 1 {
          assert Reverse(s)[i] == Reverse(s[1..])[i];
          assert s[1..][|s| - 2 - i] == s[|s| - 1 - i];
        }
      }
    }
  }

  /** Reversing twice restores the original sequence. */
  lemma ReverseReverse<T>(s: seq<T>)
    ensures Reverse(Reverse(s)) == s
  {
    var r := Reverse(Reverse(s));
    ReverseIndex(s);
    ReverseIndex(Reverse(s));
    assert |r| == |s|;
    forall i | 0 <= i < |s|
      ensures r[i] == s[i]
    {
      assert r[i] == Reverse(s)[|s| - 1 - i];
    }
  }

  // ---------------------------------------------------------------------
  // remove(value) and remove_if(pred)
  // ---------------------------------------------------------------------

  /** The elements of `s` that do not satisfy `p`, in their original order. */
  function Filter<T>(s: seq<T>, p: T -> bool): (r: seq<T>)
    ensures |r| <= |s|
  {
    if s == [] then [] else (if p(s[0]) then [] else [s[0]]) + Filter(s[1..], p)
  }

  lemma AppendAssoc<T>(a: seq<T>, b: seq<T>, c: seq<T>)
    ensures a + (b + c) == (a + b) + c
  {
  }

  /** One step of a left-to-right filtering pass: the first unvisited value
      `rv[0]` is either dropped or appended to the values kept so far. */
  lemma FilterStep<T>(a: seq<T>, p: T -> bool, kv: seq<T>, rv: seq<T>)
    requires rv != [] && a == kv + Filter(rv, p)
    ensures p(rv[0]) ==> a == kv + Filter(rv[1..], p)
    ensures !p(rv[0]) ==> a == (kv + [rv[0]]) + Filter(rv[1..], p)
  {
    if p(rv[0]) {
      assert Filter(rv, p) == [] + Filter(rv[1..], p);
      assert [] + Filter(rv[1..], p) == Filter(rv[1..], p);
    } else {
      assert Filter(rv, p) == [rv[0]] + Filter(rv[1..], p);
      AppendAssoc(kv, [rv[0]], Filter(rv[1..], p));
    }
  }

  /** The test that remove(value) applies to each element. */
  function EqualTo<T(==)>(v: T): (f: T -> bool)
    ensures f(v)
  {
    x => x == v
  }

  /** Filtering keeps every element that fails `p` and nothing else. */
  lemma {:induction false} FilterElements<T>(s: seq<T>, p: T -> bool)
    ensures forall x :: x in Filter(s, p) ==> x in s && !p(x)
    ensures forall i :: 0 <= i < |s| && !p(s[i]) ==> s[i] in Filter(s, p)
  {
    if s != [] {
      FilterElements(s[1..], p);
      forall i | 0 < i < |s| && !p(s[i])
        ensures s[i] in Filter(s, p)
      {
        assert s[i] == s[1..][i - 1];
      }
    }
  }

  /** remove(value) leaves exactly the elements different from `value`. */
  lemma RemoveKeepsOthers<T>(s: seq<T>, v: T)
    ensures forall x :: x in Filter(s, EqualTo(v)) <==> x in s && x != v
  {
    FilterElements(s, EqualTo(v));
  }

  /** Filtering distributes over concatenation, so the relative order of
      the elements that are kept is the order they had in the input. */
  lemma {:induction false} FilterAppend<T>(a: seq<T>, b: seq<T>, p: T -> bool)
    ensures Filter(a + b, p) == Filter(a, p) + Filter(b, p)
  {
    if a == [] {
      assert a + b == b;
    } else {
      assert (a + b)[0] == a[0] && (a + b)[1..] == a[1..] + b;
      FilterAppend(a[1..], b, p);
      AppendAssoc(if p(a[0]) then [] else [a[0]], Filter(a[1..], p), Filter(b, p));
    }
  }

  /** Every element is either kept or dropped: the number of dropped
      elements, `|s| - |Filter(s, p)|`, is the number of elements that
      satisfy `p` (those that filtering by the negation of `p` keeps). */
  lemma {:induction false} FilterPartition<T>(s: seq<T>, p: T -> bool)
    ensures |Filter(s, p)| + |Filter(s, x => !p(x))| == |s|
  {
    if s != [] {
      FilterPartition(s[1..], p);
    }
  }

  /** Nothing is dropped exactly when no element satisfies `p`. */
  lemma {:induction false} FilterIdentity<T>(s: seq<T>, p: T -> bool)
    ensures Filter(s, p) == s <==> forall i :: 0 <= i < |s| ==> !p(s[i])
  {
    if s != [] {
      var s' := s[1..];
      FilterIdentity(s', p);
      if Filter(s, p) == s {
        assert !p(s[0]) by {
          if p(s[0]) {
            assert false;
          }
        }
        assert Filter(s', p) == s';
        assert forall i :: 0 < i < |s| ==> s[i] == s'[i - 1];
      }
      if forall i :: 0 <= i < |s| ==> !p(s[i]) {
        assert forall i :: 0 <= i < |s'| ==> s'[i] == s[i + 1];
        assert s == [s[0]] + s';
      }
    }
  }

  /** Filtering twice by the same predicate drops nothing more. */
  lemma FilterIdempotent<T>(s: seq<T>, p: T -> bool)
    ensures Filter(Filter(s, p), p) == Filter(s, p)
  {
    var r := Filter(s, p);
    FilterElements(s, p);
    forall i | 0 <= i < |r|
      ensures !p(r[i])
    {
      assert r[i] in r;
    }
    FilterIdentity(r, p);
  }

  // ---------------------------------------------------------------------
  // unique()
  // ---------------------------------------------------------------------

  predicate NoAdjacentDuplicates<T(==)>(s: seq<T>)
  {
    forall i :: 0 < i < |s| ==> s[i - 1] != s[i]
  }

  /** The elements of `r` that differ from the element before them, where
      `x` is the element before `r[0]`. */
  function DedupAfter<T(==)>(x: T, r: seq<T>): (d: seq<T>)
    ensures |d| <= |r|
    ensures d != [] ==> d[0] != x
    ensures NoAdjacentDuplicates(d)
  {
    if r == [] then []
    else if r[0] == x then DedupAfter(x, r[1..])
    else [r[0]] + DedupAfter(r[0], r[1..])
  }

  /** The evident intent of `unique()`: every run of equal neighbours is
      collapsed to its first element. */
  function Dedup<T(==)>(s: seq<T>): (r: seq<T>)
    ensures |r| <= |s|
    ensures s != [] ==> r != [] && r[0] == s[0]
    ensures NoAdjacentDuplicates(r)
  {
    if s == [] then [] else [s[0]] + DedupAfter(s[0], s[1..])
  }

  /** One step of a left-to-right deduplicating pass with `x` the last value
      kept: the next value `rv[0]` is dropped when it equals `x` and kept
      otherwise. */
  lemma DedupStep<T>(a: seq<T>, kv: seq<T>, x: T, rv: seq<T>)
    requires rv != [] && a == kv + DedupAfter(x, rv)
    ensures rv[0] == x ==> a == kv + DedupAfter(x, rv[1..])
    ensures rv[0] != x ==> a == (kv + [rv[0]]) + DedupAfter(rv[0], rv[1..])
  {
    if rv[0] != x {
      AppendAssoc(kv, [rv[0]], DedupAfter(rv[0], rv[1..]));
    }
  }

  /** Dedup keeps exactly the values of its input. */
  lemma {:induction false} DedupElements<T>(s: seq<T>)
    ensures forall y :: y in Dedup(s) <==> y in s
  {
    if s != [] {
      DedupAfterKeeps(s[0], s[1..]);
    }
  }

  /** Every value of `r` other than `x` survives DedupAfter(x, r). */
  lemma {:induction false} DedupAfterKeeps<T>(x: T, r: seq<T>)
    ensures forall y :: y in DedupAfter(x, r) ==> y in r
    ensures forall y :: y in r && y != x ==> y in DedupAfter(x, r)
  {
    if r != [] {
      DedupAfterKeeps(if r[0] == x then x else r[0], r[1..]);
      assert forall y :: y in r ==> y == r[0] || y in r[1..];
    }
  }

  /** DedupAfter changes nothing exactly when there are no equal neighbours
      (counting `x` as the one before `r[0]`). */
  lemma {:induction false} DedupAfterIdentity<T>(x: T, r: seq<T>)
    ensures DedupAfter(x, r) == r <==> NoAdjacentDuplicates([x] + r)
  {
    if r != [] {
      DedupAfterIdentity(r[0], r[1..]);
      assert [x] + r == [x] + ([r[0]] + r[1..]);
      assert ([x] + r)[1..] == [r[0]] + r[1..];
      if r[0] == x {
        assert |DedupAfter(x, r)| <= |r[1..]| < |r|;
        assert ([x] + r)[0] == ([x] + r)[1];
      } else {
        assert [r[0]] + r[1..] == r == ([x] + r)[1..];
      }
    }
  }

  /** Dedup changes nothing exactly when there are no equal neighbours;
      in particular it is idempotent. */
  lemma DedupIdentity<T>(s: seq<T>)
    ensures Dedup(s) == s <==> NoAdjacentDuplicates(s)
  {
    if s != [] {
      DedupAfterIdentity(s[0], s[1..]);
      assert [s[0]] + s[1..] == s;
    }
  }

  /** `t` is `r` with some of its values deleted, each deleted value being
      equal to the value kept just before it (`x` before `r[0]`). */
  ghost predicate DropsOnlyRepeats<T>(x: T, r: seq<T>, t: seq<T>)
    decreases |r|
  {
    if r == [] then t == []
    else
      || (r[0] == x && DropsOnlyRepeats(x, r[1..], t))
      || (t != [] && t[0] == r[0] && DropsOnlyRepeats(r[0], r[1..], t[1..]))
  }

  /** The same for a whole list: its first value is always kept. */
  ghost predicate DropsOnlyRepeatsFrom<T>(s: seq<T>, t: seq<T>)
  {
    if s == [] then t == []
    else t != [] && t[0] == s[0] && DropsOnlyRepeats(s[0], s[1..], t[1..])
  }

  /** DedupAfter deletes only repeats of the value kept before them. */
  lemma {:induction false} DedupAfterDropsRepeats<T>(x: T, r: seq<T>)
    ensures DropsOnlyRepeats(x, r, DedupAfter(x, r))
    decreases |r|
  {
    if r != [] {
      if r[0] == x {
        DedupAfterDropsRepeats(x, r[1..]);
      } else {
        DedupAfterDropsRepeats(r[0], r[1..]);
        assert ([r[0]] + DedupAfter(r[0], r[1..]))[1..] == DedupAfter(r[0], r[1..]);
      }
    }
  }

  lemma DedupDropsRepeats<T>(s: seq<T>)
    ensures DropsOnlyRepeatsFrom(s, Dedup(s))
  {
    if s != [] {
      DedupAfterDropsRepeats(s[0], s[1..]);
      assert Dedup(s)[1..] == DedupAfter(s[0], s[1..]);
    }
  }

  /** DedupAfter is the only way of deleting repeats that leaves no equal
      neighbours: each run is collapsed to its first value. */
  lemma {:induction false} DedupAfterUnique<T>(x: T, r: seq<T>, t: seq<T>)
    requires DropsOnlyRepeats(x, r, t) && NoAdjacentDuplicates([x] + t)
    ensures t == DedupAfter(x, r)
    decreases |r|
  {
    if r != [] {
      if t != [] && t[0] == r[0] && DropsOnlyRepeats(r[0], r[1..], t[1..]) {
        assert ([x] + t)[0] == x && ([x] + t)[1] == t[0];
        assert r[0] != x;
        assert NoAdjacentDuplicates([r[0]] + t[1..]) by {
          forall i | 0 < i < |[r[0]] + t[1..]|
            ensures ([r[0]] + t[1..])[i - 1] != ([r[0]] + t[1..])[i]
          {
            assert ([r[0]] + t[1..])[i - 1] == ([x] + t)[i];
            assert ([r[0]] + t[1..])[i] == ([x] + t)[i + 1];
          }
        }
        DedupAfterUnique(r[0], r[1..], t[1..]);
        assert t == [t[0]] + t[1..];
      } else {
        DedupAfterUnique(x, r[1..], t);
      }
    }
  }

  /** Dedup is characterized by its two properties: it deletes only
      repeats, and no two neighbours of its result are equal. */
  lemma DedupCharacterization<T>(s: seq<T>, t: seq<T>)
    ensures DropsOnlyRepeatsFrom(s, t) && NoAdjacentDuplicates(t) <==> t == Dedup(s)
  {
    DedupDropsRepeats(s);
    if s != [] && DropsOnlyRepeatsFrom(s, t) && NoAdjacentDuplicates(t) {
      assert [t[0]] + t[1..] == t;
      DedupAfterUnique(s[0], s[1..], t[1..]);
    }
  }

  /** `unique()` as written, with its cursor on a kept node holding `x` and
      `r` the values after it: the values it keeps, or None when the loop
      dereferences a null cursor. After a deletion the cursor moves to the
      node that followed the deleted one without comparing it with `x`,
      and it becomes null when the deleted one was last. */
  function UniqueRestAsWritten<T(==)>(x: T, r: seq<T>): (t: Option<seq<T>>)
    ensures t.Some? ==> |t.value| <= |r|
    decreases |r|
  {
    if r == [] then Some([])
    else if r[0] == x then
      if |r| == 1 then None
      else
        match UniqueRestAsWritten(r[1], r[2..])
        case None => None
        case Some(t) => Some([r[1]] + t)
    else
      match UniqueRestAsWritten(r[0], r[1..])
      case None => None
      case Some(t) => Some([r[0]] + t)
  }

  /** The sequence `unique()` as written leaves, or None when it crashes. */
  function UniqueAsWritten<T(==)>(s: seq<T>): (r: Option<seq<T>>)
    ensures r.Some? ==> |r.value| <= |s|
    ensures r.Some? && s != [] ==> r.value != [] && r.value[0] == s[0]
  {
    if s == [] then Some([])
    else
      match UniqueRestAsWritten(s[0], s[1..])
      case None => None
      case Some(t) => Some([s[0]] + t)
  }

  /** One step of `unique()` as written, with `x` the cursor's value. */
  lemma UniqueStep<T>(a: seq<T>, kv: seq<T>, x: T, rv: seq<T>)
    requires rv != [] && UniqueRestAsWritten(x, rv).Some?
    requires a == kv + UniqueRestAsWritten(x, rv).value
    ensures rv[0] == x ==>
      && |rv| > 1 && UniqueRestAsWritten(rv[1], rv[2..]).Some?
      && a == (kv + [rv[1]]) + UniqueRestAsWritten(rv[1], rv[2..]).value
    ensures rv[0] != x ==>
      && UniqueRestAsWritten(rv[0], rv[1..]).Some?
      && a == (kv + [rv[0]]) + UniqueRestAsWritten(rv[0], rv[1..]).value
  {
    if rv[0] == x {
      var t := UniqueRestAsWritten(rv[1], rv[2..]).value;
      AppendAssoc(kv, [rv[1]], t);
    } else {
      var t := UniqueRestAsWritten(rv[0], rv[1..]).value;
      AppendAssoc(kv, [rv[0]], t);
    }
  }

  /** What `unique()` as written deletes is only ever a repetition of the
      value before it: deduplicating its result gives what deduplicating
      its input gives. */
  lemma {:induction false} UniqueRestAsWrittenSound<T>(x: T, r: seq<T>)
    requires UniqueRestAsWritten(x, r).Some?
    ensures DedupAfter(x, UniqueRestAsWritten(x, r).value) == DedupAfter(x, r)
    decreases |r|
  {
    if r != [] {
      if r[0] == x {
        UniqueRestAsWrittenSound(r[1], r[2..]);
        var t := UniqueRestAsWritten(r[1], r[2..]).value;
        assert ([r[1]] + t)[1..] == t && ([r[1]] + t)[0] == r[1];
        assert r[1..][1..] == r[2..] && r[1..][0] == r[1];
      } else {
        UniqueRestAsWrittenSound(r[0], r[1..]);
        var t := UniqueRestAsWritten(r[0], r[1..]).value;
        assert ([r[0]] + t)[1..] == t;
      }
    }
  }

  lemma UniqueAsWrittenSound<T>(s: seq<T>)
    requires UniqueAsWritten(s).Some?
    ensures Dedup(UniqueAsWritten(s).value) == Dedup(s)
  {
    if s != [] {
      UniqueRestAsWrittenSound(s[0], s[1..]);
      var t := UniqueRestAsWritten(s[0], s[1..]).value;
      assert ([s[0]] + t)[1..] == t;
    }
  }

  /** Every value `unique()` as written deletes equals the value kept just
      before it. */
  lemma {:induction false} UniqueRestAsWrittenDropsRepeats<T>(x: T, r: seq<T>)
    requires UniqueRestAsWritten(x, r).Some?
    ensures DropsOnlyRepeats(x, r, UniqueRestAsWritten(x, r).value)
    decreases |r|
  {
    if r != [] {
      if r[0] == x {
        UniqueRestAsWrittenDropsRepeats(r[1], r[2..]);
        var t := UniqueRestAsWritten(r[1], r[2..]).value;
        assert r[1..][0] == r[1] && r[1..][1..] == r[2..];
        assert ([r[1]] + t)[0] == r[1] && ([r[1]] + t)[1..] == t;
      } else {
        UniqueRestAsWrittenDropsRepeats(r[0], r[1..]);
        var t := UniqueRestAsWritten(r[0], r[1..]).value;
        assert ([r[0]] + t)[1..] == t;
      }
    }
  }

  lemma UniqueAsWrittenDropsRepeats<T>(s: seq<T>)
    requires UniqueAsWritten(s).Some?
    ensures DropsOnlyRepeatsFrom(s, UniqueAsWritten(s).value)
  {
    if s != [] {
      UniqueRestAsWrittenDropsRepeats(s[0], s[1..]);
      assert UniqueAsWritten(s).value[1..] == UniqueRestAsWritten(s[0], s[1..]).value;
    }
  }

  /** On a sequence with no equal neighbours `unique()` as written deletes
      nothing and does not crash. */
  lemma {:induction false} UniqueRestNoDuplicates<T>(x: T, r: seq<T>)
    requires NoAdjacentDuplicates([x] + r)
    ensures UniqueRestAsWritten(x, r) == Some(r)
    decreases |r|
  {
    if r != [] {
      assert ([x] + r)[0] == x && ([x] + r)[1] == r[0];
      assert NoAdjacentDuplicates(r) by {
        forall i | 0 < i < |r|
          ensures r[i - 1] != r[i]
        {
          assert r[i - 1] == ([x] + r)[i] && r[i] == ([x] + r)[i + 1];
        }
      }
      assert [r[0]] + r[1..] == r;
      UniqueRestNoDuplicates(r[0], r[1..]);
    }
  }

  lemma UniqueAsWrittenNoDuplicates<T>(s: seq<T>)
    requires NoAdjacentDuplicates(s)
    ensures UniqueAsWritten(s) == Some(s)
  {
    if s != [] {
      assert [s[0]] + s[1..] == s;
      UniqueRestNoDuplicates(s[0], s[1..]);
    }
  }

  /** The discrepancy of `unique()` as written: a run of three is collapsed
      only to two elements, and a duplicate at the tail crashes. */
  lemma UniqueAsWrittenKeepsRun<T>(x: T, y: T)
    requires x != y
    ensures UniqueAsWritten([x, x, x]) == Some([x, x])
    ensures Dedup([x, x, x]) == [x]
    ensures UniqueAsWritten([y, x, x]) == None
    ensures Dedup([y, x, x]) == [y, x]
  {
    assert [x, x, x][1..] == [x, x] && [x, x][1..] == [x] && [x][1..] == [];
    assert [x, x][2..] == [];
    assert [y, x, x][1..] == [x, x];
    assert [x] + [] == [x];
    assert UniqueRestAsWritten(x, []) == Some([]);
    assert UniqueRestAsWritten(x, [x, x]) == Some([x]);
    assert [x] + [x] == [x, x];
    assert UniqueRestAsWritten(x, [x]) == None;
    assert UniqueRestAsWritten(y, [x, x]) == None;
    assert DedupAfter(x, [x, x]) == [];
    assert DedupAfter(y, [x, x]) == [x];
  }

  // ---------------------------------------------------------------------
  // operator== / operator!= (std::equal over two ranges)
  // ---------------------------------------------------------------------

  /** std::equal over two ranges: walks both, false as soon as one ends
      before the other or two elements differ. */
  function Equal<T(==)>(a: seq<T>, b: seq<T>): (r: bool)
    ensures r <==> a == b
  {
    if a == [] || b == [] then a == [] && b == []
    else
      assert a == [a[0]] + a[1..] && b == [b[0]] + b[1..];
      a[0] == b[0] && Equal(a[1..], b[1..])
  }

  function NotEqual<T(==)>(a: seq<T>, b: seq<T>): (r: bool)
    ensures r <==> a != b
  {
    !Equal(a, b)
  }

  // ---------------------------------------------------------------------
  // operator< and its companions (std::lexicographical_compare)
  // ---------------------------------------------------------------------

  /** `b` starts with all of `a` and has more. */
  ghost predicate ProperPrefix<T>(a: seq<T>, b: seq<T>)
  {
    |a| < |b| && a == b[..|a|]
  }

  /** std::lexicographical_compare with `lt` as the element `<`: nothing is
      less than the empty list, and a proper prefix is less than the whole,
      whatever `lt` is. */
  function LexLess<T>(a: seq<T>, b: seq<T>, lt: (T, T) -> bool): (r: bool)
    ensures b == [] ==> !r
    ensures ProperPrefix(a, b) ==> r
  {
    if b == [] then false
    else if a == [] then true
    else if lt(a[0], b[0]) then true
    else if lt(b[0], a[0]) then false
    else
      assert ProperPrefix(a, b) ==> ProperPrefix(a[1..], b[1..]);
      LexLess(a[1..], b[1..], lt)
  }

  /** operator>=: every list is at least the empty list, and a proper
      prefix is not at least the whole. */
  function GreaterEq<T>(a: seq<T>, b: seq<T>, lt: (T, T) -> bool): (r: bool)
    ensures b == [] ==> r
    ensures ProperPrefix(a, b) ==> !r
  {
    !LexLess(a, b, lt)
  }

  /** operator>: the empty list is greater than nothing, and the whole is
      greater than a proper prefix. */
  function Greater<T>(a: seq<T>, b: seq<T>, lt: (T, T) -> bool): (r: bool)
    ensures a == [] ==> !r
    ensures ProperPrefix(b, a) ==> r
  {
    LexLess(b, a, lt)
  }

  /** operator<=: the empty list is at most every list, and the whole is
      not at most a proper prefix. */
  function LessEq<T>(a: seq<T>, b: seq<T>, lt: (T, T) -> bool): (r: bool)
    ensures a == [] ==> r
    ensures ProperPrefix(b, a) ==> !r
  {
    !LexLess(b, a, lt)
  }

  ghost predicate StrictTotalOrder<T(!new)>(lt: (T, T) -> bool)
  {
    && (forall x :: !lt(x, x))
    && (forall x, y, z :: lt(x, y) && lt(y, z) ==> lt(x, z))
    && (forall x, y :: x != y ==> lt(x, y) || lt(y, x))
  }

  /** The reference definition: `a` is less than `b` when, after a common
      prefix, `a` ends first or has the smaller element. */
  ghost predicate LexLessAt<T>(a: seq<T>, b: seq<T>, lt: (T, T) -> bool, k: nat)
  {
    k <= |a| && k < |b| && a[..k] == b[..k] && (k == |a| || lt(a[k], b[k]))
  }

  /** Under a strict total order, LexLess holds exactly when some position
      witnesses the reference definition. */
  lemma {:induction false} LexLessCharacterization<T(!new)>(a: seq<T>, b: seq<T>, lt: (T, T) -> bool)
    requires StrictTotalOrder(lt)
    ensures LexLess(a, b, lt) <==> exists k: nat :: LexLessAt(a, b, lt, k)
  {
    if b == [] {
    } else if a == [] {
      assert LexLessAt(a, b, lt, 0);
    } else if lt(a[0], b[0]) {
      assert LexLessAt(a, b, lt, 0);
    } else if lt(b[0], a[0]) {
      assert !exists k: nat :: LexLessAt(a, b, lt, k);
    } else {
      assert a[0] == b[0];
      LexLessCharacterization(a[1..], b[1..], lt);
      if LexLess(a, b, lt) {
        var k: nat :| LexLessAt(a[1..], b[1..], lt, k);
        assert a[..k + 1] == [a[0]] + a[1..][..k];
        assert b[..k + 1] == [b[0]] + b[1..][..k];
        assert LexLessAt(a, b, lt, k + 1);
      } else {
        forall k: nat | LexLessAt(a, b, lt, k)
          ensures false
        {
          assert k > 0;
          assert a[1..][..k - 1] == a[..k][1..];
          assert b[1..][..k - 1] == b[..k][1..];
          assert LexLessAt(a[1..], b[1..], lt, k - 1);
        }
      }
    }
  }

  /** operator< is irreflexive. */
  lemma {:induction false} LexLessIrreflexive<T(!new)>(a: seq<T>, lt: (T, T) -> bool)
    requires StrictTotalOrder(lt)
    ensures !LexLess(a, a, lt)
  {
    if a != [] {
      LexLessIrreflexive(a[1..], lt);
    }
  }

  /** operator< is transitive. */
  lemma {:induction false} LexLessTransitive<T(!new)>(a: seq<T>, b: seq<T>, c: seq<T>, lt: (T, T) -> bool)
    requires StrictTotalOrder(lt)
    requires LexLess(a, b, lt) && LexLess(b, c, lt)
    ensures LexLess(a, c, lt)
  {
    if a != [] && c != [] {
      if !lt(a[0], b[0]) && !lt(b[0], c[0]) {
        assert a[0] == b[0] == c[0];
        LexLessTransitive(a[1..], b[1..], c[1..], lt);
      }
    }
  }

  /** Exactly one of a < b, a == b, b < a holds, so operator>= is "not
      less", operator> is the swapped operator< and operator<= is "not
      greater". */
  lemma {:induction false} LexLessTrichotomy<T(!new)>(a: seq<T>, b: seq<T>, lt: (T, T) -> bool)
    requires StrictTotalOrder(lt)
    ensures LexLess(a, b, lt) || a == b || LexLess(b, a, lt)
    ensures !(LexLess(a, b, lt) && LexLess(b, a, lt))
    ensures a == b ==> !LexLess(a, b, lt)
  {
    if a != [] && b != [] {
      LexLessTrichotomy(a[1..], b[1..], lt);
      if a[0] == b[0] && a[1..] == b[1..] {
        assert a == [a[0]] + a[1..] && b == [b[0]] + b[1..];
      }
    }
    if a == b {
      LexLessIrreflexive(a, lt);
    }
  }

  /** The derived operators mean what their names say. */
  lemma ComparisonOperators<T(!new)>(a: seq<T>, b: seq<T>, lt: (T, T) -> bool)
    requires StrictTotalOrder(lt)
    ensures GreaterEq(a, b, lt) <==> Greater(a, b, lt) || a == b
    ensures LessEq(a, b, lt) <==> LexLess(a, b, lt) || a == b
  {
    LexLessTrichotomy(a, b, lt);
  }
}
