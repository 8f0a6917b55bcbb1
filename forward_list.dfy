/**
 * zaitsev::ForwardList<T>: a singly linked list that owns a chain of nodes
 * starting at `head`. The ghost field `Nodes` lists the nodes of the chain in
 * order and `Contents` their values; `Valid()` says the chain is exactly
 * `Nodes`, null-terminated and without repeated nodes (so acyclic).
 * An iterator is a `Node?<T>`: the node it designates, or null for end().
 */
module ForwardLists {
  import opened ListSpec

  /** The exception the list throws: std::out_of_range. */
  datatype Error = OutOfRange

  datatype Result<T> = Success(value: T) | Failure(error: Error)

  datatype Outcome = Pass | Fail(error: Error)

  /** A node's value is fixed when the node is made; only its link changes. */
  class Node<T> {
    const value: T
    var next: Node?<T>

    /** All three constructors of the source's Node: a value and no successor. */
    constructor (v: T)
      ensures value == v && next == null
    {
      value := v;
      next := null;
    }
  }

  /** Each node's successor is the next node of `ns`; the last one's is `end`. */
  ghost predicate LinksTo<T>(ns: seq<Node<T>>, end: Node?<T>)
    reads ns
  {
    && (forall i {:trigger ns[i].next} :: 0 <= i < |ns| - 1 ==> ns[i].next == ns[i + 1])
    && (|ns| > 0 ==> ns[|ns| - 1].next == end)
  }

  /** `ns` is a null-terminated chain. */
  ghost predicate Linked<T>(ns: seq<Node<T>>)
    reads ns
  {
    LinksTo(ns, null)
  }

  /** No node occurs twice in `ns`: each of its nodes occurs once. */
  ghost predicate Distinct<T>(ns: seq<Node<T>>)
  {
    forall n {:trigger multiset(ns)[n]} :: n in ns ==> multiset(ns)[n] == 1
  }

  ghost predicate HoldValues<T>(ns: seq<Node<T>>, vs: seq<T>)
  {
    |ns| == |vs| && forall i {:trigger ns[i].value} :: 0 <= i < |ns| ==> ns[i].value == vs[i]
  }

  /** Two positions of a chain without repetitions hold different nodes. */
  lemma DistinctAt<T>(ns: seq<Node<T>>, i: nat, j: nat)
    requires Distinct(ns) && i < |ns| && j < |ns| && i != j
    ensures ns[i] != ns[j]
  {
    var a, b := if i < j then i else j, if i < j then j else i;
    DistinctSplit(ns, b);
    assert ns[a] in ns[..b] && ns[b] in ns[b..];
  }

  /** Both parts of a chain without repetitions are without repetitions, and
      share no node. */
  lemma DistinctSplit<T>(ns: seq<Node<T>>, k: nat)
    requires Distinct(ns) && k <= |ns|
    ensures Distinct(ns[..k]) && Distinct(ns[k..])
    ensures forall n :: n in ns[..k] ==> n !in ns[k..]
  {
    assert ns == ns[..k] + ns[k..];
    assert multiset(ns) == multiset(ns[..k]) + multiset(ns[k..]);
    forall n | n in ns[..k]
      ensures multiset(ns[..k])[n] == 1 && n !in ns[k..]
    {
      assert multiset(ns)[n] == 1;
    }
    forall n | n in ns[k..]
      ensures multiset(ns[k..])[n] == 1
    {
      assert multiset(ns)[n] == 1;
    }
  }

  /** Two chains without repetitions and without a common node form one. */
  lemma DistinctAppend<T>(x: seq<Node<T>>, y: seq<Node<T>>)
    requires Distinct(x) && Distinct(y) && forall n :: n in x ==> n !in y
    ensures Distinct(x + y)
  {
    assert multiset(x + y) == multiset(x) + multiset(y);
    forall n | n in x + y
      ensures multiset(x + y)[n] == 1
    {
      if n in x {
        assert multiset(x)[n] == 1 && n !in y;
      } else {
        assert multiset(y)[n] == 1;
      }
    }
  }

  lemma DistinctSnoc<T>(ns: seq<Node<T>>, n: Node<T>)
    requires Distinct(ns) && n !in ns
    ensures Distinct(ns + [n])
  {
    DistinctAppend(ns, [n]);
  }

  lemma DistinctCons<T>(n: Node<T>, ns: seq<Node<T>>)
    requires Distinct(ns) && n !in ns
    ensures Distinct([n] + ns)
  {
    DistinctAppend([n], ns);
  }

  /** Removing the node at position `j` from a chain without repetitions
      leaves a chain without repetitions. */
  lemma DistinctRemove<T>(ns: seq<Node<T>>, j: nat)
    requires Distinct(ns) && j < |ns|
    ensures Distinct(ns[..j] + ns[j + 1..])
  {
    DistinctSplit(ns, j);
    DistinctSplit(ns[j..], 1);
    assert ns[j..][1..] == ns[j + 1..];
    forall n | n in ns[..j]
      ensures n !in ns[j + 1..]
    {
      assert n !in ns[j..];
    }
    DistinctAppend(ns[..j], ns[j + 1..]);
  }

  /** Redirecting the node before position `j` to the successor of the node
      at `j`, and changing no other successor and no value, unlinks that
      node: what remains is a chain of the other nodes and their values. */
  twostate lemma Unlink<T>(ns: seq<Node<T>>, new vs: seq<T>, new j: nat)
    requires 0 < j < |ns| && Distinct(ns)
    requires old(Linked(ns)) && HoldValues(ns, vs)
    requires ns[j - 1].next == old(ns[j].next)
    requires forall n :: n in ns && n != ns[j - 1] ==> n.next == old(n.next)
    ensures Linked(ns[..j] + ns[j + 1..])
    ensures HoldValues(ns[..j] + ns[j + 1..], vs[..j] + vs[j + 1..])
  {
    var r := ns[..j] + ns[j + 1..];
    forall i | 0 <= i < |r|
      ensures r[i] == ns[if i < j then i else i + 1]
    {
    }
    forall i | 0 <= i < |r| - 1
      ensures r[i].next == r[i + 1]
    {
      if i != j - 1 {
        DistinctAt(ns, if i < j then i else i + 1, j - 1);
      }
    }
    if |r| > 0 && j < |ns| - 1 {
      DistinctAt(ns, |ns| - 1, j - 1);
    }
  }

  /** Changing no successor keeps a chain. */
  twostate lemma Unchanged<T>(ns: seq<Node<T>>, new end: Node?<T>)
    requires old(allocated(end)) && old(LinksTo(ns, end))
    requires forall n :: n in ns ==> n.next == old(n.next)
    ensures LinksTo(ns, end)
  {
    forall i | 0 <= i < |ns|
      ensures ns[i].next == old(ns[i].next)
    {
      assert ns[i] in ns;
    }
  }

  /** Redirecting the last node of a chain, and no other, changes where the
      chain leads. */
  twostate lemma Redirect<T>(ns: seq<Node<T>>, new end: Node?<T>, new end': Node?<T>)
    requires |ns| > 0 && Distinct(ns) && old(allocated(end)) && old(LinksTo(ns, end))
    requires ns[|ns| - 1].next == end'
    requires forall n :: n in ns && n != ns[|ns| - 1] ==> n.next == old(n.next)
    ensures LinksTo(ns, end')
  {
    forall i | 0 <= i < |ns| - 1
      ensures ns[i].next == old(ns[i].next)
    {
      DistinctAt(ns, i, |ns| - 1);
      assert ns[i] in ns;
    }
  }

  /** A chain that leads to `n` followed by `n` is a chain that leads where `n` does. */
  lemma LinksToSnoc<T>(ns: seq<Node<T>>, n: Node<T>)
    requires LinksTo(ns, n)
    ensures LinksTo(ns + [n], n.next)
  {
  }

  /** The first node of a chain leads to the rest of it. */
  lemma LinksToTail<T>(ns: seq<Node<T>>, end: Node?<T>)
    requires |ns| > 0 && LinksTo(ns, end)
    ensures LinksTo(ns[1..], end)
    ensures ns[0].next == if |ns| > 1 then ns[1] else end
  {
  }

  /** A chain leading to the start of another is, with it, one chain. */
  lemma LinksToAppend<T>(x: seq<Node<T>>, y: seq<Node<T>>, end: Node?<T>)
    requires LinksTo(x, if y == [] then end else y[0]) && LinksTo(y, end)
    ensures LinksTo(x + y, end)
  {
    var xy := x + y;
    forall i | 0 <= i < |xy| - 1
      ensures xy[i].next == xy[i + 1]
    {
      if i < |x| - 1 {
        assert xy[i] == x[i] && xy[i + 1] == x[i + 1];
      } else if i == |x| - 1 {
        assert xy[i] == x[i] && xy[i + 1] == y[0];
      } else {
        assert xy[i] == y[i - |x|] && xy[i + 1] == y[i - |x| + 1];
      }
    }
  }

  lemma HoldValuesAppend<T>(x: seq<Node<T>>, xv: seq<T>, y: seq<Node<T>>, yv: seq<T>)
    requires HoldValues(x, xv) && HoldValues(y, yv)
    ensures HoldValues(x + y, xv + yv)
  {
  }

  /** The values a chain holds are determined by its nodes. */
  lemma HoldValuesUnique<T>(ns: seq<Node<T>>, a: seq<T>, b: seq<T>)
    requires HoldValues(ns, a) && HoldValues(ns, b)
    ensures a == b
  {
    assert forall i :: 0 <= i < |a| ==> a[i] == ns[i].value == b[i];
  }

  /** Pointing the last node of chain `a` to the first node of chain `on`,
      and the last node of `on` to where `a` led, inserts `on` between `a`
      and the chain `c` that followed it. */
  twostate lemma Splice<T>(a: seq<Node<T>>, new on: seq<Node<T>>, new c: seq<Node<T>>)
    requires old(allocated(on)) && old(allocated(c))
    requires |a| > 0 && |on| > 0 && Distinct(a) && Distinct(on)
    requires old(LinksTo(a, if c == [] then null else c[0])) && old(Linked(on)) && old(Linked(c))
    requires a[|a| - 1].next == on[0] && on[|on| - 1].next == (if c == [] then null else c[0])
    requires forall n :: n in a && n != a[|a| - 1] ==> n.next == old(n.next)
    requires forall n :: n in on && n != on[|on| - 1] ==> n.next == old(n.next)
    requires forall n :: n in c ==> n.next == old(n.next)
    ensures Linked(a + on + c)
  {
    Redirect(a, if c == [] then null else c[0], on[0]);
    Redirect(on, null, if c == [] then null else c[0]);
    Unchanged(c, null);
    LinksToAppend(on, c, null);
    LinksToAppend(a, on + c, null);
    assert a + (on + c) == a + on + c;
  }

  /** Cutting a chain at `k`, as it was in the earlier state. */
  twostate lemma OldLinksToSplit<T>(ns: seq<Node<T>>, new k: nat, new end: Node?<T>)
    requires k <= |ns| && old(allocated(end)) && old(LinksTo(ns, end))
    ensures old(LinksTo(ns[..k], if k == |ns| then end else ns[k]))
    ensures old(LinksTo(ns[k..], end))
  {
  }

  /** Pointing the node at position `i` of chain `ns` to the first node of
      the chain `on`, none of whose nodes is in `ns`, and the last node of
      `on` to the former successor of that node, inserts `on` into `ns`
      after position `i`. */
  twostate lemma SpliceAt<T>(ns: seq<Node<T>>, new i: nat, new on: seq<Node<T>>)
    requires old(allocated(on))
    requires i < |ns| && |on| > 0 && Distinct(ns) && Distinct(on)
    requires old(Linked(ns)) && old(Linked(on))
    requires ns[i].next == on[0] && on[|on| - 1].next == old(ns[i].next)
    requires forall n :: n in ns && n != ns[i] ==> n.next == old(n.next)
    requires forall n :: n in on && n != on[|on| - 1] ==> n.next == old(n.next)
    ensures Linked(ns[..i + 1] + on + ns[i + 1..])
  {
    var a, c := ns[..i + 1], ns[i + 1..];
    OldLinksToSplit(ns, i + 1, null);
    DistinctSplit(ns, i + 1);
    assert ns[i] in a;
    assert forall n :: n in a ==> n in ns;
    assert forall n :: n in c ==> n in ns && n != ns[i];
    assert a[|a| - 1] == ns[i];
    Splice(a, on, c);
  }

  /** Inserting the nodes `on`, none of them in `ns`, after position `i`
      keeps the nodes distinct and their values in order. */
  lemma InsertAfter<T>(ns: seq<Node<T>>, vs: seq<T>, i: nat, on: seq<Node<T>>, ov: seq<T>)
    requires i < |ns| && Distinct(ns) && HoldValues(ns, vs)
    requires Distinct(on) && HoldValues(on, ov)
    requires forall n :: n in ns ==> n !in on
    ensures Distinct(ns[..i + 1] + on + ns[i + 1..])
    ensures HoldValues(ns[..i + 1] + on + ns[i + 1..], vs[..i + 1] + ov + vs[i + 1..])
  {
    var a, c := ns[..i + 1], ns[i + 1..];
    assert ns == a + c;
    assert forall n :: n in a ==> n in ns;
    DistinctSplit(ns, i + 1);
    DistinctAppend(on, c);
    DistinctAppend(a, on + c);
    assert a + (on + c) == a + on + c;
    HoldValuesAppend(on, ov, c, vs[i + 1..]);
    HoldValuesAppend(a, vs[..i + 1], on + c, ov + vs[i + 1..]);
    assert vs[..i + 1] + (ov + vs[i + 1..]) == vs[..i + 1] + ov + vs[i + 1..];
  }

  /** A chain `ns` split into the nodes `kept` so far and the nodes `rest`
      still to be visited, each with its values, none repeated. */
  ghost predicate Split<T>(ns: seq<Node<T>>, kept: seq<Node<T>>, kv: seq<T>, rest: seq<Node<T>>, rv: seq<T>)
  {
    && Distinct(kept) && Distinct(rest) && (forall n :: n in kept ==> n !in rest)
    && HoldValues(kept, kv) && HoldValues(rest, rv)
    && (forall n :: n in kept ==> n in ns) && (forall n :: n in rest ==> n in ns)
  }

  /** Visiting the first remaining node and dropping it. */
  lemma SplitDrop<T>(ns: seq<Node<T>>, kept: seq<Node<T>>, kv: seq<T>, rest: seq<Node<T>>, rv: seq<T>)
    requires Split(ns, kept, kv, rest, rv) && rest != []
    ensures Split(ns, kept, kv, rest[1..], rv[1..])
    ensures rest[0] in ns && rest[0].value == rv[0]
  {
    DistinctSplit(rest, 1);
    assert forall n :: n in rest[1..] ==> n in rest;
  }

  /** Visiting the first remaining node and keeping it. */
  lemma SplitKeep<T>(ns: seq<Node<T>>, kept: seq<Node<T>>, kv: seq<T>, rest: seq<Node<T>>, rv: seq<T>)
    requires Split(ns, kept, kv, rest, rv) && rest != []
    ensures Split(ns, kept + [rest[0]], kv + [rv[0]], rest[1..], rv[1..])
    ensures rest[0] in ns && rest[0].value == rv[0]
  {
    DistinctSplit(rest, 1);
    assert forall n :: n in rest[1..] ==> n in rest;
    DistinctSnoc(kept, rest[0]);
  }

  /** Visiting the first remaining node and putting it in front of the
      nodes visited so far. */
  lemma SplitPush<T>(ns: seq<Node<T>>, kept: seq<Node<T>>, kv: seq<T>, rest: seq<Node<T>>, rv: seq<T>)
    requires Split(ns, kept, kv, rest, rv) && rest != []
    ensures Split(ns, [rest[0]] + kept, [rv[0]] + kv, rest[1..], rv[1..])
    ensures rest[0] in ns && rest[0] !in kept && rest[0] !in rest[1..]
  {
    DistinctSplit(rest, 1);
    assert forall n :: n in rest[1..] ==> n in rest;
    DistinctCons(rest[0], kept);
  }

  /** One step of a pass that keeps the node after the kept ones: it moves
      from the remaining nodes to the kept ones. */
  lemma KeepNext<T>(ns: seq<Node<T>>, kept: seq<Node<T>>, kv: seq<T>, rest: seq<Node<T>>, rv: seq<T>)
    requires rest != [] && LinksTo(kept, rest[0]) && Linked(rest) && Split(ns, kept, kv, rest, rv)
    ensures rest[0] in ns && rest[0].value == rv[0]
    ensures rest[0].next == if |rest| == 1 then null else rest[1]
    ensures LinksTo(kept + [rest[0]], rest[0].next) && Linked(rest[1..])
    ensures Split(ns, kept + [rest[0]], kv + [rv[0]], rest[1..], rv[1..])
  {
    SplitKeep(ns, kept, kv, rest, rv);
    LinksToSnoc(kept, rest[0]);
    LinksToTail(rest, null);
  }

  /** One step of a pass that deletes the node after the kept ones: the
      last kept node is pointed past it, which changes no other link. */
  twostate lemma DropNext<T>(ns: seq<Node<T>>, new kept: seq<Node<T>>, new kv: seq<T>, new rest: seq<Node<T>>, new rv: seq<T>)
    requires old(allocated(kept)) && old(allocated(rest))
    requires rest != [] && kept != [] && Split(ns, kept, kv, rest, rv)
    requires old(LinksTo(kept, rest[0])) && old(Linked(rest))
    requires kept[|kept| - 1].next == old(rest[0].next)
    requires forall n :: n in ns && n != kept[|kept| - 1] ==> n.next == old(n.next)
    ensures rest[0] in ns && rest[0].value == rv[0]
    ensures old(rest[0].next) == if |rest| == 1 then null else rest[1]
    ensures LinksTo(kept, old(rest[0].next)) && Linked(rest[1..])
    ensures Split(ns, kept, kv, rest[1..], rv[1..])
  {
    SplitDrop(ns, kept, kv, rest, rv);
    OldLinksToTail(rest, null);
    Redirect(kept, rest[0], old(rest[0].next));
    Unchanged(rest[1..], null);
  }

  /** One step of reverse(): pointing the first node of `rest` back at the
      start of the reversed chain `rev` moves it from one chain to the other. */
  twostate lemma ReverseLink<T>(ns: seq<Node<T>>, new cs: seq<T>, new rev: seq<Node<T>>, new revv: seq<T>, new rest: seq<Node<T>>, new rv: seq<T>)
    requires old(allocated(rev)) && old(allocated(rest))
    requires rest != [] && old(Linked(rev)) && old(Linked(rest)) && Split(ns, rev, revv, rest, rv)
    requires ListSpec.Reverse(ns) == ListSpec.Reverse(rest) + rev
    requires ListSpec.Reverse(cs) == ListSpec.Reverse(rv) + revv
    requires rest[0].next == (if |rev| == 0 then null else rev[0])
    requires forall n :: n in ns && n != rest[0] ==> n.next == old(n.next)
    ensures old(rest[0].next) == if |rest| == 1 then null else rest[1]
    ensures Linked([rest[0]] + rev) && Linked(rest[1..])
    ensures Split(ns, [rest[0]] + rev, [rv[0]] + revv, rest[1..], rv[1..])
    ensures ListSpec.Reverse(ns) == ListSpec.Reverse(rest[1..]) + ([rest[0]] + rev)
    ensures ListSpec.Reverse(cs) == ListSpec.Reverse(rv[1..]) + ([rv[0]] + revv)
  {
    OldLinksToTail(rest, null);
    SplitPush(ns, rev, revv, rest, rv);
    ReverseStep(ListSpec.Reverse(ns), rest, rev);
    ReverseStep(ListSpec.Reverse(cs), rv, revv);
    Unchanged(rev, null);
    Unchanged(rest[1..], null);
    LinkedCons(rest[0], rev);
  }

  twostate lemma OldLinksToTail<T>(ns: seq<Node<T>>, new end: Node?<T>)
    requires |ns| > 0 && old(allocated(end)) && old(LinksTo(ns, end))
    ensures old(LinksTo(ns[1..], end))
    ensures old(ns[0].next) == if |ns| > 1 then ns[1] else end
  {
  }

  /** Pointing `n` at the start of a chain extends the chain at the front. */
  lemma LinkedCons<T>(n: Node<T>, ns: seq<Node<T>>)
    requires Linked(ns) && n.next == (if |ns| == 0 then null else ns[0])
    ensures Linked([n] + ns)
  {
    LinksToAppend([n], ns, null);
  }

  /** The position of node `n` in `ns`. */
  ghost function IndexOf<T>(ns: seq<Node<T>>, n: Node<T>): (i: nat)
    requires n in ns
    ensures i < |ns| && ns[i] == n
  {
    if ns[0] == n then 0 else 1 + IndexOf(ns[1..], n)
  }

  // ---------------------------------------------------------------------
  // The nodes the loops keep: the ListSpec functions, lifted to node
  // sequences, comparing nodes by their values
  // ---------------------------------------------------------------------

  /** The test remove_if(p) applies to a node: its value satisfies `p`. */
  function ValueSatisfies<T>(p: T -> bool): Node<T> -> bool
  {
    (n: Node<T>) => p(n.value)
  }

  /** The nodes `unique()` as written keeps after a kept node `x`, or None
      when its cursor becomes null; UniqueRestAsWritten on nodes. */
  ghost function UniqueRestNodes<T>(x: Node<T>, r: seq<Node<T>>): (t: Option<seq<Node<T>>>)
    ensures t.Some? ==> |t.value| <= |r|
    decreases |r|
  {
    if r == [] then Some([])
    else if r[0].value == x.value then
      if |r| == 1 then None
      else
        match UniqueRestNodes(r[1], r[2..])
        case None => None
        case Some(t) => Some([r[1]] + t)
    else
      match UniqueRestNodes(r[0], r[1..])
      case None => None
      case Some(t) => Some([r[0]] + t)
  }

  /** The nodes `unique()` as written keeps: the first node always. */
  ghost function UniqueNodes<T>(ns: seq<Node<T>>): (r: Option<seq<Node<T>>>)
    ensures r.Some? && ns != [] ==> r.value != [] && r.value[0] == ns[0]
  {
    if ns == [] then Some([])
    else
      match UniqueRestNodes(ns[0], ns[1..])
      case None => None
      case Some(t) => Some([ns[0]] + t)
  }

  /** The nodes the corrected `unique()` keeps after a kept node `x`. */
  ghost function DedupAfterNodes<T>(x: Node<T>, r: seq<Node<T>>): (d: seq<Node<T>>)
    ensures |d| <= |r|
  {
    if r == [] then []
    else if r[0].value == x.value then DedupAfterNodes(x, r[1..])
    else [r[0]] + DedupAfterNodes(r[0], r[1..])
  }

  /** The nodes the corrected `unique()` keeps: the first node always. */
  ghost function DedupNodes<T>(ns: seq<Node<T>>): (r: seq<Node<T>>)
    ensures ns != [] ==> r != [] && r[0] == ns[0]
  {
    if ns == [] then [] else [ns[0]] + DedupAfterNodes(ns[0], ns[1..])
  }

  /** `t` is `r` with some nodes unlinked, in order, each unlinked node
      holding the value of the node kept just before it (`x` before r[0]):
      the first node of every run of equal values survives. */
  ghost predicate NodesDropOnlyRepeats<T>(x: Node<T>, r: seq<Node<T>>, t: seq<Node<T>>)
    decreases |r|
  {
    if r == [] then t == []
    else
      || (r[0].value == x.value && NodesDropOnlyRepeats(x, r[1..], t))
      || (t != [] && t[0] == r[0] && NodesDropOnlyRepeats(r[0], r[1..], t[1..]))
  }

  /** The nodes `unique()` as written keeps hold exactly the values
      UniqueRestAsWritten keeps, it crashes on the same inputs, and only
      repeats are unlinked. */
  lemma {:induction false} UniqueRestNodesMeaning<T>(x: Node<T>, r: seq<Node<T>>, vs: seq<T>)
    requires HoldValues(r, vs)
    ensures UniqueRestNodes(x, r).Some? <==> UniqueRestAsWritten(x.value, vs).Some?
    ensures UniqueRestNodes(x, r).Some? ==>
      && HoldValues(UniqueRestNodes(x, r).value, UniqueRestAsWritten(x.value, vs).value)
      && NodesDropOnlyRepeats(x, r, UniqueRestNodes(x, r).value)
    decreases |r|
  {
    if r != [] {
      if r[0].value == x.value {
        if |r| > 1 {
          assert HoldValues(r[2..], vs[2..]);
          UniqueRestNodesMeaning(r[1], r[2..], vs[2..]);
          if UniqueRestNodes(r[1], r[2..]).Some? {
            var t := UniqueRestNodes(r[1], r[2..]).value;
            HoldValuesAppend([r[1]], [vs[1]], t, UniqueRestAsWritten(r[1].value, vs[2..]).value);
            assert r[1..][0] == r[1] && r[1..][1..] == r[2..];
            assert ([r[1]] + t)[0] == r[1] && ([r[1]] + t)[1..] == t;
          }
        }
      } else {
        assert HoldValues(r[1..], vs[1..]);
        UniqueRestNodesMeaning(r[0], r[1..], vs[1..]);
        if UniqueRestNodes(r[0], r[1..]).Some? {
          var t := UniqueRestNodes(r[0], r[1..]).value;
          HoldValuesAppend([r[0]], [vs[0]], t, UniqueRestAsWritten(r[0].value, vs[1..]).value);
          assert ([r[0]] + t)[1..] == t;
        }
      }
    }
  }

  lemma UniqueNodesMeaning<T>(ns: seq<Node<T>>, cs: seq<T>)
    requires HoldValues(ns, cs)
    ensures UniqueNodes(ns).Some? <==> UniqueAsWritten(cs).Some?
    ensures UniqueNodes(ns).Some? ==> HoldValues(UniqueNodes(ns).value, UniqueAsWritten(cs).value)
    ensures UniqueNodes(ns).Some? && ns != [] ==>
      NodesDropOnlyRepeats(ns[0], ns[1..], UniqueNodes(ns).value[1..])
  {
    if ns != [] {
      assert HoldValues(ns[1..], cs[1..]);
      UniqueRestNodesMeaning(ns[0], ns[1..], cs[1..]);
      if UniqueNodes(ns).Some? {
        var t := UniqueRestNodes(ns[0], ns[1..]).value;
        HoldValuesAppend([ns[0]], [cs[0]], t, UniqueRestAsWritten(cs[0], cs[1..]).value);
        assert UniqueNodes(ns).value[1..] == t;
      }
    }
  }

  /** The nodes the corrected `unique()` keeps hold exactly the values
      DedupAfter keeps, and only repeats are unlinked. */
  lemma {:induction false} DedupAfterNodesMeaning<T>(x: Node<T>, r: seq<Node<T>>, vs: seq<T>)
    requires HoldValues(r, vs)
    ensures HoldValues(DedupAfterNodes(x, r), DedupAfter(x.value, vs))
    ensures NodesDropOnlyRepeats(x, r, DedupAfterNodes(x, r))
    decreases |r|
  {
    if r != [] {
      assert HoldValues(r[1..], vs[1..]);
      if r[0].value == x.value {
        DedupAfterNodesMeaning(x, r[1..], vs[1..]);
      } else {
        DedupAfterNodesMeaning(r[0], r[1..], vs[1..]);
        var t := DedupAfterNodes(r[0], r[1..]);
        HoldValuesAppend([r[0]], [vs[0]], t, DedupAfter(r[0].value, vs[1..]));
        assert ([r[0]] + t)[1..] == t;
      }
    }
  }

  lemma DedupNodesMeaning<T>(ns: seq<Node<T>>, cs: seq<T>)
    requires HoldValues(ns, cs)
    ensures HoldValues(DedupNodes(ns), Dedup(cs))
    ensures ns != [] ==> NodesDropOnlyRepeats(ns[0], ns[1..], DedupNodes(ns)[1..])
  {
    if ns != [] {
      assert HoldValues(ns[1..], cs[1..]);
      DedupAfterNodesMeaning(ns[0], ns[1..], cs[1..]);
      var t := DedupAfterNodes(ns[0], ns[1..]);
      HoldValuesAppend([ns[0]], [cs[0]], t, DedupAfter(cs[0], cs[1..]));
      assert DedupNodes(ns)[1..] == t;
    }
  }

  /** Whatever values the nodes DedupNodes keeps hold, they are Dedup's. */
  lemma DedupNodesValues<T>(ns: seq<Node<T>>, cs: seq<T>, kept: seq<Node<T>>, kv: seq<T>)
    requires HoldValues(ns, cs) && kept == DedupNodes(ns) && HoldValues(kept, kv)
    ensures kv == Dedup(cs)
  {
    DedupNodesMeaning(ns, cs);
    HoldValuesUnique(kept, kv, Dedup(cs));
  }

  /** One step of `unique()` as written on nodes, with `x` the cursor. */
  lemma UniqueNodesStep<T>(a: seq<Node<T>>, kept: seq<Node<T>>, x: Node<T>, rest: seq<Node<T>>)
    requires rest != [] && UniqueRestNodes(x, rest).Some?
    requires a == kept + UniqueRestNodes(x, rest).value
    ensures rest[0].value == x.value ==>
      && |rest| > 1 && UniqueRestNodes(rest[1], rest[2..]).Some?
      && a == (kept + [rest[1]]) + UniqueRestNodes(rest[1], rest[2..]).value
    ensures rest[0].value != x.value ==>
      && UniqueRestNodes(rest[0], rest[1..]).Some?
      && a == (kept + [rest[0]]) + UniqueRestNodes(rest[0], rest[1..]).value
  {
    if rest[0].value == x.value {
      AppendAssoc(kept, [rest[1]], UniqueRestNodes(rest[1], rest[2..]).value);
    } else {
      AppendAssoc(kept, [rest[0]], UniqueRestNodes(rest[0], rest[1..]).value);
    }
  }

  /** The corrected `unique()` on nodes is underway: `kept` ends in the
      cursor `x`, and what it still keeps of `rest` completes DedupNodes. */
  ghost predicate DedupProgress<T>(ns: seq<Node<T>>, kept: seq<Node<T>>, x: Node<T>, rest: seq<Node<T>>)
  {
    DedupNodes(ns) == kept + DedupAfterNodes(x, rest)
  }

  /** One step of the corrected loop: the node after the cursor holds the
      cursor's value, so it is unlinked and the cursor stays. */
  lemma DedupProgressDrop<T>(ns: seq<Node<T>>, kept: seq<Node<T>>, x: Node<T>, rest: seq<Node<T>>)
    requires rest != [] && rest[0].value == x.value && DedupProgress(ns, kept, x, rest)
    ensures DedupProgress(ns, kept, x, rest[1..])
  {
  }

  /** One step of the corrected loop: the node after the cursor holds
      another value, so it is kept and becomes the cursor. */
  lemma DedupProgressKeep<T>(ns: seq<Node<T>>, kept: seq<Node<T>>, x: Node<T>, rest: seq<Node<T>>)
    requires rest != [] && rest[0].value != x.value && DedupProgress(ns, kept, x, rest)
    ensures DedupProgress(ns, kept + [rest[0]], rest[0], rest[1..])
  {
    AppendAssoc(kept, [rest[0]], DedupAfterNodes(rest[0], rest[1..]));
  }

  /* The loops of the list's members, each written as a method over the
     chain `ns` of nodes it walks; the member then stores the chain's new
     first node in `head`. */

  /** The loop of remove_if(p): unlinks every node whose value satisfies `p`.
      `newHead` stands for the list's head pointer, which the loop moves past
      every deleted leading node. */
  method RemoveIfChain<T>(first: Node?<T>, ghost ns: seq<Node<T>>, ghost cs: seq<T>, p: T -> bool)
      returns (newHead: Node?<T>, removed: nat, ghost kept: seq<Node<T>>, ghost kv: seq<T>)
    requires first == (if |ns| == 0 then null else ns[0])
    requires Linked(ns) && Distinct(ns) && HoldValues(ns, cs)
    modifies ns
    ensures newHead == (if |kept| == 0 then null else kept[0])
    ensures Linked(kept) && Distinct(kept) && HoldValues(kept, kv)
    ensures kept == Filter(ns, ValueSatisfies(p))
    ensures kv == Filter(cs, p) && removed == |cs| - |kv|
    ensures forall n :: n in kept ==> n in ns
  {
    removed := 0;
    newHead := first;
    var prev: Node?<T> := null;
    var cur := first;
    // kept: the nodes kept so far, kv their values; rest: the nodes from
    // cur on, rv their values
    kept, kv := [], [];
    ghost var rest, rv := ns, cs;
    while cur != null
      invariant LinksTo(kept, cur) && Linked(rest) && Split(ns, kept, kv, rest, rv)
      invariant cur == (if |rest| == 0 then null else rest[0])
      invariant prev == (if |kept| == 0 then null else kept[|kept| - 1])
      invariant newHead == (if |kept| == 0 then cur else kept[0])
      invariant Filter(ns, ValueSatisfies(p)) == kept + Filter(rest, ValueSatisfies(p))
      invariant Filter(cs, p) == kv + Filter(rv, p)
      invariant removed == |cs| - |kept| - |rest|
      decreases |rest|
    {
      FilterStep(Filter(ns, ValueSatisfies(p)), ValueSatisfies(p), kept, rest);
      FilterStep(Filter(cs, p), p, kv, rv);
      assert ValueSatisfies(p)(rest[0]) == p(cur.value);
      ghost var rest', rv' := rest[1..], rv[1..];
      if p(cur.value) {
        var next := cur.next;
        label L:
        if prev != null {
          assert prev in kept;
          prev.next := next;
          DropNext@L(ns, kept, kv, rest, rv);
        } else {
          newHead := next;
          SplitDrop(ns, kept, kv, rest, rv);
          LinksToTail(rest, null);
        }
        cur := next;
        removed := removed + 1;
      } else {
        KeepNext(ns, kept, kv, rest, rv);
        prev := cur;
        cur := cur.next;
        kept, kv := kept + [rest[0]], kv + [rv[0]];
      }
      rest, rv := rest', rv';
    }
    assert rv == [] && rest == [];
    assert kv + [] == kv && kept + [] == kept;
  }

  /** The relinking of splice_after(pos, other): points the node at position
      `i` of `ns` to the first node of the chain `on`, walks to the last node
      of `on` and points it to the former successor of that node. */
  method SpliceChain<T>(pos: Node<T>, ghost ns: seq<Node<T>>, ghost i: nat, first: Node<T>, ghost on: seq<Node<T>>)
    requires i < |ns| && pos == ns[i] && Linked(ns) && Distinct(ns)
    requires |on| > 0 && first == on[0] && Linked(on) && Distinct(on)
    requires forall n :: n in ns ==> n !in on
    modifies pos, on
    ensures Linked(ns[..i + 1] + on + ns[i + 1..])
  {
    label L:
    var temp := pos.next;
    pos.next := first;
    Unchanged@L(on, null);
    var last := first;
    ghost var k := 0;
    while last.next != null
      invariant 0 <= k < |on| && last == on[k]
      decreases |on| - k
    {
      last := last.next;
      k := k + 1;
    }
    assert k == |on| - 1;
    last.next := temp;
    SpliceAt@L(ns, i, on);
  }

  /** The loop of reverse() on a chain with at least one node: the first node
      becomes the last, then every further node is pointed at its
      predecessor; returns the new first node. */
  method ReverseChain<T>(first: Node<T>, ghost ns: seq<Node<T>>, ghost cs: seq<T>)
      returns (newHead: Node<T>, ghost rev: seq<Node<T>>, ghost revv: seq<T>)
    requires |ns| > 0 && first == ns[0]
    requires Linked(ns) && Distinct(ns) && HoldValues(ns, cs)
    modifies ns
    ensures |rev| > 0 && newHead == rev[0]
    ensures Linked(rev) && Distinct(rev) && HoldValues(rev, revv)
    ensures rev == ListSpec.Reverse(ns) && revv == ListSpec.Reverse(cs)
  {
    assert ListSpec.Reverse(ns) == ListSpec.Reverse(ns) + [];
    assert ListSpec.Reverse(cs) == ListSpec.Reverse(cs) + [];
    newHead := first;
    var tail := first.next;
    label L0:
    newHead.next := null;
    ReverseLink@L0(ns, cs, [], [], ns, cs);
    // rev: the nodes already reversed, from newHead on; rest: the nodes
    // from tail on, still in their original order
    rev, revv := [ns[0]] + [], [cs[0]] + [];
    ghost var rest, rv := ns[1..], cs[1..];
    while tail != null
      invariant Linked(rev) && Linked(rest) && Split(ns, rev, revv, rest, rv)
      invariant |rev| > 0 && newHead == rev[0]
      invariant tail == (if |rest| == 0 then null else rest[0])
      invariant ListSpec.Reverse(ns) == ListSpec.Reverse(rest) + rev
      invariant ListSpec.Reverse(cs) == ListSpec.Reverse(rv) + revv
      decreases |rest|
    {
      var temp := tail.next;
      assert tail in rest;
      label L:
      tail.next := newHead;
      ReverseLink@L(ns, cs, rev, revv, rest, rv);
      newHead := tail;
      tail := temp;
      rev, revv := [rest[0]] + rev, [rv[0]] + revv;
      rest, rv := rest[1..], rv[1..];
    }
    assert rv == [] && rest == [];
    assert [] + rev == rev && [] + revv == revv;
  }

  /** The loop of unique() as written, on a chain with at least one node:
      requires that the loop never dereferences a null cursor. After a
      deletion the cursor moves on to the node that followed the deleted one. */
  method UniqueChain<T(==)>(first: Node<T>, ghost ns: seq<Node<T>>, ghost cs: seq<T>)
      returns (removed: nat, ghost kept: seq<Node<T>>, ghost kv: seq<T>)
    requires |ns| > 0 && first == ns[0]
    requires Linked(ns) && Distinct(ns) && HoldValues(ns, cs)
    requires UniqueAsWritten(cs).Some?
    modifies ns
    ensures |kept| > 0 && kept[0] == first
    ensures Linked(kept) && Distinct(kept) && HoldValues(kept, kv)
    ensures UniqueNodes(ns) == Some(kept)
    ensures kv == UniqueAsWritten(cs).value && removed == |cs| - |kv|
    ensures forall n :: n in kept ==> n in ns
  {
    UniqueNodesMeaning(ns, cs);
    removed := 0;
    var cur: Node<T> := first;
    // kept: the nodes kept so far, ending with cur; rest: the nodes after cur
    LinksToTail(ns, null);
    SplitKeep(ns, [], [], ns, cs);
    LinksToSnoc([], cur);
    kept, kv := [] + [ns[0]], [] + [cs[0]];
    ghost var rest, rv := ns[1..], cs[1..];
    while cur.next != null
      invariant LinksTo(kept, cur.next) && Linked(rest) && Split(ns, kept, kv, rest, rv)
      invariant cur.next == (if |rest| == 0 then null else rest[0])
      invariant |kept| > 0 && cur == kept[|kept| - 1] && first == kept[0]
      invariant UniqueRestAsWritten(cur.value, rv).Some?
      invariant UniqueAsWritten(cs).value == kv + UniqueRestAsWritten(cur.value, rv).value
      invariant UniqueRestNodes(cur, rest).Some?
      invariant UniqueNodes(ns).value == kept + UniqueRestNodes(cur, rest).value
      invariant removed == |cs| - |kept| - |rest|
      decreases |rest|
    {
      UniqueStep(UniqueAsWritten(cs).value, kv, cur.value, rv);
      UniqueNodesStep(UniqueNodes(ns).value, kept, cur, rest);
      assert cur in kept;
      if cur.value == cur.next.value {
        ghost var rest', rv' := rest[1..], rv[1..];
        var next := cur.next.next;
        label L:
        cur.next := next;
        DropNext@L(ns, kept, kv, rest, rv);
        removed := removed + 1;
        KeepNext(ns, kept, kv, rest', rv');
        cur := next;
        assert rv'[0] == rv[1] && rv'[1..] == rv[2..];
        kept, kv := kept + [rest'[0]], kv + [rv'[0]];
        rest, rv := rest'[1..], rv'[1..];
      } else {
        KeepNext(ns, kept, kv, rest, rv);
        cur := cur.next;
        kept, kv := kept + [rest[0]], kv + [rv[0]];
        rest, rv := rest[1..], rv[1..];
      }
    }
    assert rv == [] && rest == [];
    assert kv + [] == kv && kept + [] == kept;
  }

  /** The loop of unique() as evidently intended: the cursor stays on its
      node after a deletion, so every run of equal neighbours collapses to
      its first node. */
  method DedupChain<T(==)>(first: Node<T>, ghost ns: seq<Node<T>>, ghost cs: seq<T>)
      returns (removed: nat, ghost kept: seq<Node<T>>, ghost kv: seq<T>)
    requires |ns| > 0 && first == ns[0]
    requires Linked(ns) && Distinct(ns) && HoldValues(ns, cs)
    modifies ns
    ensures |kept| > 0 && kept[0] == first
    ensures Linked(kept) && Distinct(kept) && HoldValues(kept, kv)
    ensures kept == DedupNodes(ns)
    ensures removed == |cs| - |kv|
    ensures forall n :: n in kept ==> n in ns
  {
    removed := 0;
    var cur: Node<T> := first;
    // kept: the nodes kept so far, ending with cur; rest: the nodes after cur
    LinksToTail(ns, null);
    SplitKeep(ns, [], [], ns, cs);
    LinksToSnoc([], cur);
    kept, kv := [] + [ns[0]], [] + [cs[0]];
    ghost var rest, rv := ns[1..], cs[1..];
    assert DedupProgress(ns, kept, cur, rest);
    while cur.next != null
      invariant LinksTo(kept, cur.next) && Linked(rest) && Split(ns, kept, kv, rest, rv)
      invariant cur.next == (if |rest| == 0 then null else rest[0])
      invariant |kept| > 0 && cur == kept[|kept| - 1] && first == kept[0]
      invariant DedupProgress(ns, kept, cur, rest)
      invariant removed == |cs| - |kept| - |rest|
      decreases |rest|
    {
      ghost var rest', rv' := rest[1..], rv[1..];
      assert cur in kept;
      if cur.value == cur.next.value {
        DedupProgressDrop(ns, kept, cur, rest);
        var next := cur.next.next;
        label L:
        cur.next := next;
        DropNext@L(ns, kept, kv, rest, rv);
        removed := removed + 1;
      } else {
        DedupProgressKeep(ns, kept, cur, rest);
        KeepNext(ns, kept, kv, rest, rv);
        cur := cur.next;
        kept, kv := kept + [rest[0]], kv + [rv[0]];
      }
      rest, rv := rest', rv';
    }
    assert rest == [] && DedupAfterNodes(cur, rest) == [];
    assert kept + [] == kept;
  }

  class ForwardList<T(==)> {
    var head: Node?<T>
    ghost var Nodes: seq<Node<T>>
    ghost var Contents: seq<T>

    ghost predicate Valid()
      reads this, Nodes
    {
      && head == (if Nodes == [] then null else Nodes[0])
      && Linked(Nodes)
      && Distinct(Nodes)
      && HoldValues(Nodes, Contents)
    }

    /** The default constructor: the empty list. */
    constructor ()
      ensures Valid() && Contents == [] && Nodes == []
    {
      head := null;
      Nodes := [];
      Contents := [];
    }

    /** The copy constructor: fresh nodes holding the same values in the same order. */
    constructor Copy(other: ForwardList<T>)
      requires other.Valid()
      ensures Valid() && Contents == other.Contents
      ensures forall i :: 0 <= i < |Nodes| ==> fresh(Nodes[i])
    {
      if other.head == null {
        head := null;
        Nodes := [];
        Contents := [];
      } else {
        ghost var on, oc := other.Nodes, other.Contents;
        var first := new Node(other.head.value);
        var last := first;
        var cur := other.head.next;
        ghost var ns := [first];
        ghost var k := 1;
        while cur != null
          invariant 1 <= k <= |on| && other.Nodes == on && other.Contents == oc && other.Valid()
          invariant cur == if k < |on| then on[k] else null
          invariant |ns| == k && last == ns[k - 1] && first == ns[0]
          invariant Linked(ns) && Distinct(ns) && HoldValues(ns, oc[..k])
          invariant forall i :: 0 <= i < k ==> fresh(ns[i])
          decreases |on| - k
        {
          var n := new Node(cur.value);
          assert n !in ns;
          DistinctSnoc(ns, n);
          last.next := n;
          last := n;
          ns := ns + [n];
          assert oc[..k + 1] == oc[..k] + [oc[k]];
          cur := cur.next;
          k := k + 1;
        }
        assert oc[..k] == oc;
        head := first;
        Nodes := ns;
        Contents := oc;
      }
    }

    /** The move constructor: takes over the chain of `other`, which is left empty. */
    constructor Move(other: ForwardList<T>)
      requires other.Valid()
      modifies other
      ensures Valid() && Contents == old(other.Contents) && Nodes == old(other.Nodes)
      ensures other.Valid() && other.Contents == [] && other.Nodes == []
    {
      head := other.head;
      Nodes := other.Nodes;
      Contents := other.Contents;
      new;
      other.head := null;
      other.Nodes := [];
      other.Contents := [];
    }

    /** The (count, value) constructor as written: `count` copies of `value`,
        except that a count of 0 still yields one node. */
    constructor WithCount(count: nat, v: T)
      ensures Valid() && Contents == CountConstructed(count, v)
      ensures forall i :: 0 <= i < |Nodes| ==> fresh(Nodes[i])
    {
      var first := new Node(v);
      var last := first;
      ghost var ns := [first];
      var i := 1;
      while i < count
        invariant 1 <= i <= if count == 0 then 1 else count
        invariant |ns| == i && last == ns[i - 1] && first == ns[0]
        invariant Linked(ns) && Distinct(ns)
        invariant forall j :: 0 <= j < i ==> fresh(ns[j]) && ns[j].value == v
      {
        var n := new Node(v);
        assert n !in ns;
        DistinctSnoc(ns, n);
        last.next := n;
        last := n;
        ns := ns + [n];
        i := i + 1;
      }
      head := first;
      Nodes := ns;
      Contents := CountConstructed(count, v);
    }

    /** The (count, value) constructor as evidently intended: exactly `count`
        copies of `value`, the empty list for a count of 0. */
    constructor WithCountIntended(count: nat, v: T)
      ensures Valid() && Contents == Repeat(v, count)
      ensures forall i :: 0 <= i < |Nodes| ==> fresh(Nodes[i])
    {
      head := null;
      Nodes := [];
      Contents := [];
      new;
      Assign(count, v);
    }

    /** empty(): no head node. */
    predicate Empty()
      requires Valid()
      reads this, Nodes
      ensures Empty() <==> Contents == []
    {
      head == null
    }

    method PushFront(v: T)
      requires Valid()
      modifies this
      ensures Valid()
      ensures Contents == [v] + old(Contents)
      ensures fresh(Nodes[0]) && Nodes[1..] == old(Nodes)
    {
      var n := new Node(v);
      DistinctCons(n, Nodes);
      n.next := head;
      head := n;
      Nodes := [n] + Nodes;
      Contents := [v] + Contents;
    }

    /** assign(count, value): builds `count` fresh nodes front to back and
        replaces the whole chain with them. */
    method Assign(count: nat, v: T)
      modifies this
      ensures Valid() && Contents == Repeat(v, count)
      ensures forall i :: 0 <= i < |Nodes| ==> fresh(Nodes[i])
    {
      var newHead: Node?<T> := null;
      ghost var ns: seq<Node<T>> := [];
      var i := 0;
      while i < count
        invariant i <= count && |ns| == i
        invariant newHead == if ns == [] then null else ns[0]
        invariant Linked(ns) && Distinct(ns) && HoldValues(ns, Repeat(v, i))
        invariant forall j :: 0 <= j < i ==> fresh(ns[j])
      {
        var n := new Node(v);
        assert n !in ns;
        DistinctCons(n, ns);
        n.next := newHead;
        newHead := n;
        ns := [n] + ns;
        assert Repeat(v, i + 1) == [v] + Repeat(v, i);
        i := i + 1;
      }
      head := newHead;
      Nodes := ns;
      Contents := Repeat(v, count);
    }

    /** swap(other): exchanges the two chains. */
    method Swap(other: ForwardList<T>)
      requires Valid() && other.Valid()
      modifies this, other
      ensures Valid() && other.Valid()
      ensures Contents == old(other.Contents) && Nodes == old(other.Nodes)
      ensures other.Contents == old(Contents) && other.Nodes == old(Nodes)
    {
      var temp := other.head;
      other.head := head;
      head := temp;
      Nodes, other.Nodes := other.Nodes, Nodes;
      Contents, other.Contents := other.Contents, Contents;
    }

    /** remove_if(p): unlinks every node whose value satisfies `p` and returns
        how many were unlinked. */
    method RemoveIf(p: T -> bool) returns (removed: nat)
      requires Valid()
      modifies this, Nodes
      ensures Valid()
      ensures Nodes == Filter(old(Nodes), ValueSatisfies(p))
      ensures Contents == Filter(old(Contents), p)
      ensures removed == |old(Contents)| - |Contents|
      ensures forall n :: n in Nodes ==> n in old(Nodes)
    {
      var newHead;
      ghost var kept, kv;
      newHead, removed, kept, kv := RemoveIfChain(head, Nodes, Contents, p);
      head, Nodes, Contents := newHead, kept, kv;
    }

    /** remove(value): remove_if with the test "equal to `v`"; the source
        writes out the same loop with that test. */
    method Remove(v: T) returns (removed: nat)
      requires Valid()
      modifies this, Nodes
      ensures Valid()
      ensures Nodes == Filter(old(Nodes), ValueSatisfies(EqualTo(v)))
      ensures Contents == Filter(old(Contents), EqualTo(v))
      ensures removed == |old(Contents)| - |Contents|
      ensures forall n :: n in Nodes ==> n in old(Nodes)
    {
      removed := RemoveIf(EqualTo(v));
    }

    /** erase_after(pos): throws on end(); otherwise unlinks the node after
        `pos`, if any, and returns an iterator to the node that followed it. */
    method EraseAfter(pos: Node?<T>) returns (r: Result<Node?<T>>)
      requires Valid() && (pos == null || pos in Nodes)
      modifies this, pos
      ensures Valid()
      ensures pos == null ==> r == Failure(OutOfRange) && Nodes == old(Nodes) && Contents == old(Contents)
      ensures pos != null ==>
        var i, n := IndexOf(old(Nodes), pos), |old(Nodes)|;
        if i + 1 < n then
          && r == Success(if i + 2 < n then old(Nodes)[i + 2] else null)
          && Nodes == old(Nodes)[..i + 1] + old(Nodes)[i + 2..]
          && Contents == old(Contents)[..i + 1] + old(Contents)[i + 2..]
        else
          r == Success(null) && Nodes == old(Nodes) && Contents == old(Contents)
    {
      if pos == null {
        return Failure(OutOfRange);
      }
      ghost var ns, cs := Nodes, Contents;
      ghost var i := IndexOf(ns, pos);
      assert pos.next == if i + 1 < |ns| then ns[i + 1] else null;
      if pos.next != null {
        var ret := pos.next.next;
        assert ret == if i + 2 < |ns| then ns[i + 2] else null;
        Nodes := ns[..i + 1] + ns[i + 2..];
        Contents := cs[..i + 1] + cs[i + 2..];
        label L:
        pos.next := ret;
        Unlink@L(ns, cs, i + 1);
        DistinctRemove(ns, i + 1);
        assert Nodes[0] == ns[0];
        return Success(ret);
      } else {
        return Success(null);
      }
    }

    /** splice_after(pos, other): throws on end(); otherwise moves every node
        of `other`, in order, to just after `pos`, leaving `other` empty. */
    method SpliceAfter(pos: Node?<T>, other: ForwardList<T>) returns (r: Outcome)
      requires Valid() && other.Valid() && other != this
      requires pos == null || pos in Nodes
      requires forall n :: n in Nodes ==> n !in other.Nodes
      modifies this, other, pos, other.Nodes
      ensures Valid() && other.Valid()
      ensures pos == null ==>
        && r == Fail(OutOfRange)
        && Nodes == old(Nodes) && Contents == old(Contents)
        && other.Nodes == old(other.Nodes) && other.Contents == old(other.Contents)
      ensures pos != null ==>
        var i := IndexOf(old(Nodes), pos);
        && r == Pass
        && Nodes == old(Nodes)[..i + 1] + old(other.Nodes) + old(Nodes)[i + 1..]
        && Contents == old(Contents)[..i + 1] + old(other.Contents) + old(Contents)[i + 1..]
        && other.Nodes == [] && other.Contents == []
    {
      if pos == null {
        return Fail(OutOfRange);
      }
      ghost var ns, cs, on, oc := Nodes, Contents, other.Nodes, other.Contents;
      ghost var i := IndexOf(ns, pos);
      assert i == IndexOf(old(Nodes), pos);
      if other.head == null {
        assert ns == ns[..i + 1] + on + ns[i + 1..];
        assert cs == cs[..i + 1] + oc + cs[i + 1..];
        return Pass;
      }
      InsertAfter(ns, cs, i, on, oc);
      SpliceChain(pos, ns, i, other.head, on);
      other.head := null;
      Nodes := ns[..i + 1] + on + ns[i + 1..];
      Contents := cs[..i + 1] + oc + cs[i + 1..];
      other.Nodes := [];
      other.Contents := [];
      r := Pass;
    }

    /** reverse(): relinks every node to point at its predecessor. */
    method Reverse()
      requires Valid()
      modifies this, Nodes
      ensures Valid()
      ensures Nodes == ListSpec.Reverse(old(Nodes))
      ensures Contents == ListSpec.Reverse(old(Contents))
    {
      if head == null {
        return;
      }
      var newHead;
      ghost var rev, revv;
      newHead, rev, revv := ReverseChain(head, Nodes, Contents);
      head, Nodes, Contents := newHead, rev, revv;
    }

    /** unique() as written; it requires that the loop never dereferences a
        null cursor. */
    method Unique() returns (removed: nat)
      requires Valid() && UniqueAsWritten(Contents).Some?
      modifies this, Nodes
      ensures Valid()
      ensures head == old(head) && UniqueNodes(old(Nodes)) == Some(Nodes)
      ensures Contents == UniqueAsWritten(old(Contents)).value
      ensures removed == |old(Contents)| - |Contents|
      ensures forall n :: n in Nodes ==> n in old(Nodes)
    {
      if head == null {
        return 0;
      }
      ghost var kept, kv;
      removed, kept, kv := UniqueChain(head, Nodes, Contents);
      Nodes, Contents := kept, kv;
    }

    /** unique() as evidently intended. */
    method UniqueCorrected() returns (removed: nat)
      requires Valid()
      modifies this, Nodes
      ensures Valid()
      ensures head == old(head) && Nodes == DedupNodes(old(Nodes))
      ensures Contents == Dedup(old(Contents))
      ensures removed == |old(Contents)| - |Contents|
      ensures forall n :: n in Nodes ==> n in old(Nodes)
    {
      if head == null {
        return 0;
      }
      ghost var kept, kv;
      removed, kept, kv := DedupChain(head, Nodes, Contents);
      DedupNodesValues(Nodes, Contents, kept, kv);
      Nodes, Contents := kept, kv;
    }
  }
}
