/** LL_SORT: bottom-up merge sort of a linked list, in place (soaagent/utlist.h). */
module ListSort {
  import opened CString
  import opened UtList

  // ----- the sort on sequences of nodes -----

  /** cmp says that a may stand before b. */
  predicate Le<T>(cmp: (T, T) -> int, a: Node<T>, b: Node<T>)
  {
    cmp(a.value, b.value) <= 0
  }

  ghost predicate TotalPreorder<T(!new)>(cmp: (T, T) -> int)
  {
    && (forall a, b :: cmp(a, b) <= 0 || cmp(b, a) <= 0)
    && (forall a, b, c :: cmp(a, b) <= 0 && cmp(b, c) <= 0 ==> cmp(a, c) <= 0)
  }

  ghost predicate Sorted<T>(cmp: (T, T) -> int, s: seq<Node<T>>)
  {
    forall i, j | 0 <= i < j < |s| :: Le(cmp, s[i], s[j])
  }

  function Take<E>(s: seq<E>, n: nat): (r: seq<E>)
    ensures |r| == if |s| <= n then |s| else n
  {
    if |s| <= n then s else s[..n]
  }

  function Drop<E>(s: seq<E>, n: nat): (r: seq<E>)
    ensures |r| == if |s| <= n then 0 else |s| - n
  {
    if |s| <= n then [] else s[n..]
  }

  function Merge<T>(cmp: (T, T) -> int, p: seq<Node<T>>, q: seq<Node<T>>): (r: seq<Node<T>>)
    ensures |r| == |p| + |q|
  {
    if p == [] then q
    else if q == [] then p
    else if Le(cmp, p[0], q[0]) then [p[0]] + Merge(cmp, p[1..], q)
    else [q[0]] + Merge(cmp, p, q[1..])
  }

  /** One pass: every two neighbouring runs of length n are merged. */
  function Pass<T>(cmp: (T, T) -> int, s: seq<Node<T>>, n: nat): (r: seq<Node<T>>)
    requires n > 0
    ensures |r| == |s|
    decreases |s|
  {
    if s == [] then []
    else Merge(cmp, Take(s, n), Take(Drop(s, n), n)) + Pass(cmp, Drop(Drop(s, n), n), n)
  }

  /** Passes with doubled run lengths, until one merge covers the list. */
  function Sort<T>(cmp: (T, T) -> int, s: seq<Node<T>>, n: nat): (r: seq<Node<T>>)
    requires n > 0
    ensures |r| == |s|
    decreases |s| - n
  {
    if |s| <= 2 * n then Pass(cmp, s, n) else Sort(cmp, Pass(cmp, s, n), 2 * n)
  }

  // ----- what sorting means -----

  /** The nodes of s that cmp does not tell apart from x, in the order of s. */
  function Class<T>(cmp: (T, T) -> int, x: Node<T>, s: seq<Node<T>>): seq<Node<T>>
  {
    if s == [] then []
    else (if Le(cmp, x, s[0]) && Le(cmp, s[0], x) then [s[0]] else []) + Class(cmp, x, s[1..])
  }

  /** Nodes that cmp does not tell apart keep their order. */
  ghost predicate Stable<T>(cmp: (T, T) -> int, s: seq<Node<T>>, r: seq<Node<T>>)
  {
    && (forall i | 0 <= i < |s| :: Class(cmp, s[i], r) == Class(cmp, s[i], s))
    && multiset(r) == multiset(s)
  }

  lemma {:induction false} ClassConcat<T>(cmp: (T, T) -> int, x: Node<T>, a: seq<Node<T>>, b: seq<Node<T>>)
    ensures Class(cmp, x, a + b) == Class(cmp, x, a) + Class(cmp, x, b)
  {
    if a == [] {
      assert a + b == b;
    } else {
      assert (a + b)[1..] == a[1..] + b;
      ClassConcat(cmp, x, a[1..], b);
    }
  }

  /** No node of a sorted sequence that starts after x is x's equal. */
  lemma {:induction false} ClassAfter<T(!new)>(cmp: (T, T) -> int, x: Node<T>, s: seq<Node<T>>)
    requires TotalPreorder(cmp) && Sorted(cmp, s) && (s != [] ==> !Le(cmp, s[0], x))
    ensures Class(cmp, x, s) == []
  {
    if s != [] {
      if |s| > 1 {
        assert Le(cmp, s[0], s[1]);
      }
      ClassAfter(cmp, x, s[1..]);
    }
  }

  lemma MergeHead<T(!new)>(cmp: (T, T) -> int, p: seq<Node<T>>, q: seq<Node<T>>, x: Node<T>)
    requires TotalPreorder(cmp) && Sorted(cmp, p) && Sorted(cmp, q)
    requires p != [] ==> Le(cmp, x, p[0])
    requires q != [] ==> Le(cmp, x, q[0])
    ensures forall i | 0 <= i < |p| :: Le(cmp, x, p[i])
    ensures forall i | 0 <= i < |q| :: Le(cmp, x, q[i])
  {
    forall i | 0 <= i < |p|
      ensures Le(cmp, x, p[i])
    {
      assert i > 0 ==> Le(cmp, p[0], p[i]);
    }
    forall i | 0 <= i < |q|
      ensures Le(cmp, x, q[i])
    {
      assert i > 0 ==> Le(cmp, q[0], q[i]);
    }
  }

  lemma ConsEntries<E>(s: seq<E>, r: seq<E>, t: seq<E>)
    requires s != [] && multiset(r) == multiset(s[1..]) + multiset(t)
    ensures multiset([s[0]] + r) == multiset(s) + multiset(t)
  {
    assert s == [s[0]] + s[1..];
  }

  lemma {:induction false} MergeEntries<T>(cmp: (T, T) -> int, p: seq<Node<T>>, q: seq<Node<T>>)
    ensures multiset(Merge(cmp, p, q)) == multiset(p) + multiset(q)
  {
    hide Le;
    if p == [] || q == [] {
    } else if Le(cmp, p[0], q[0]) {
      MergeEntries(cmp, p[1..], q);
      ConsEntries(p, Merge(cmp, p[1..], q), q);
    } else {
      MergeEntries(cmp, p, q[1..]);
      ConsEntries(q, Merge(cmp, p, q[1..]), p);
    }
  }

  lemma {:induction false} MergeBound<T>(cmp: (T, T) -> int, x: Node<T>, p: seq<Node<T>>, q: seq<Node<T>>)
    requires forall i | 0 <= i < |p| :: Le(cmp, x, p[i])
    requires forall i | 0 <= i < |q| :: Le(cmp, x, q[i])
    ensures forall i | 0 <= i < |p| + |q| :: Le(cmp, x, Merge(cmp, p, q)[i])
  {
    if p == [] || q == [] {
    } else if Le(cmp, p[0], q[0]) {
      MergeBound(cmp, x, p[1..], q);
    } else {
      MergeBound(cmp, x, p, q[1..]);
    }
  }

  lemma {:induction false} MergeSorted<T(!new)>(cmp: (T, T) -> int, p: seq<Node<T>>, q: seq<Node<T>>)
    requires TotalPreorder(cmp) && Sorted(cmp, p) && Sorted(cmp, q)
    ensures Sorted(cmp, Merge(cmp, p, q))
  {
    if p == [] || q == [] {
    } else if Le(cmp, p[0], q[0]) {
      MergeSorted(cmp, p[1..], q);
      MergeHead(cmp, p[1..], q, p[0]);
      MergeBound(cmp, p[0], p[1..], q);
    } else {
      MergeSorted(cmp, p, q[1..]);
      assert Le(cmp, q[0], p[0]);
      MergeHead(cmp, p, q[1..], q[0]);
      MergeBound(cmp, q[0], p, q[1..]);
    }
  }

  /** e, if it is x's equal. */
  function Alike<T>(cmp: (T, T) -> int, x: Node<T>, e: Node<T>): seq<Node<T>>
  {
    if Le(cmp, x, e) && Le(cmp, e, x) then [e] else []
  }

  lemma ClassCons<T>(cmp: (T, T) -> int, x: Node<T>, e: Node<T>, s: seq<Node<T>>)
    ensures Class(cmp, x, [e] + s) == Alike(cmp, x, e) + Class(cmp, x, s)
  {
    assert ([e] + s)[1..] == s;
  }

  /** Merging keeps equals in order, those of the first run before those of the second. */
  lemma {:induction false} MergeClass<T(!new)>(cmp: (T, T) -> int, x: Node<T>, p: seq<Node<T>>, q: seq<Node<T>>)
    requires TotalPreorder(cmp) && Sorted(cmp, p) && Sorted(cmp, q)
    ensures Class(cmp, x, Merge(cmp, p, q)) == Class(cmp, x, p) + Class(cmp, x, q)
  {
    hide Class, Alike, Sorted, TotalPreorder, Le;
    SortedTail(cmp, p);
    SortedTail(cmp, q);
    if p == [] || q == [] {
      ClassOfNothing(cmp, x, p);
      ClassOfNothing(cmp, x, q);
    } else if Le(cmp, p[0], q[0]) {
      MergeClass(cmp, x, p[1..], q);
      ClassCons(cmp, x, p[0], p[1..]);
      ClassCons(cmp, x, p[0], Merge(cmp, p[1..], q));
      Associate(Alike(cmp, x, p[0]), Class(cmp, x, p[1..]), Class(cmp, x, q));
    } else {
      MergeClass(cmp, x, p, q[1..]);
      ClassCons(cmp, x, q[0], q[1..]);
      ClassCons(cmp, x, q[0], Merge(cmp, p, q[1..]));
      EqualsFirst(cmp, x, p, q[0], Class(cmp, x, q[1..]));
    }
  }

  lemma ClassOfNothing<T>(cmp: (T, T) -> int, x: Node<T>, s: seq<Node<T>>)
    ensures s == [] ==> Class(cmp, x, s) == []
    ensures [] + Class(cmp, x, s) == Class(cmp, x, s) == Class(cmp, x, s) + []
  {
  }

  lemma SortedTail<T>(cmp: (T, T) -> int, s: seq<Node<T>>)
    requires Sorted(cmp, s)
    ensures s != [] ==> Sorted(cmp, s[1..]) && s == [s[0]] + s[1..]
  {
  }

  /** If e goes before all of p, it is not x's equal or p has no equals of x. */
  lemma EqualsFirst<T(!new)>(cmp: (T, T) -> int, x: Node<T>, p: seq<Node<T>>, e: Node<T>, r: seq<Node<T>>)
    requires TotalPreorder(cmp) && Sorted(cmp, p) && p != [] && !Le(cmp, p[0], e)
    ensures Alike(cmp, x, e) + (Class(cmp, x, p) + r) == Class(cmp, x, p) + (Alike(cmp, x, e) + r)
  {
    if Alike(cmp, x, e) != [] {
      ClassAfter(cmp, x, p);
    }
  }

  /** s is made of sorted runs of length n, the last one maybe shorter. */
  ghost predicate Runs<T>(cmp: (T, T) -> int, s: seq<Node<T>>, n: nat)
    requires n > 0
    decreases |s|
  {
    s == [] || (Sorted(cmp, Take(s, n)) && Runs(cmp, Drop(s, n), n))
  }

  lemma {:induction false} SingleRuns<T>(cmp: (T, T) -> int, s: seq<Node<T>>)
    ensures Runs(cmp, s, 1)
    decreases |s|
  {
    if s != [] {
      SingleRuns(cmp, Drop(s, 1));
    }
  }

  lemma RunsParts<T>(cmp: (T, T) -> int, s: seq<Node<T>>, n: nat)
    requires n > 0 && Runs(cmp, s, n)
    ensures Sorted(cmp, Take(s, n)) && Sorted(cmp, Take(Drop(s, n), n)) && Runs(cmp, Drop(Drop(s, n), n), n)
  {
  }

  lemma TakeDrop<E>(s: seq<E>, n: nat)
    ensures s == Take(s, n) + Drop(s, n)
  {
  }

  lemma TakeDropConcat<E>(a: seq<E>, b: seq<E>, n: nat)
    requires |a| == n || (|a| <= n && b == [])
    ensures Take(a + b, n) == a && Drop(a + b, n) == b
  {
    assert a + [] == a;
  }

  /** A pass doubles the sorted runs, and keeps the nodes and the order of equals. */
  lemma {:induction false} PassRuns<T(!new)>(cmp: (T, T) -> int, s: seq<Node<T>>, n: nat)
    requires n > 0 && TotalPreorder(cmp) && Runs(cmp, s, n)
    ensures Runs(cmp, Pass(cmp, s, n), 2 * n)
    decreases |s|
  {
    if s != [] {
      var p, q, rest := Take(s, n), Take(Drop(s, n), n), Drop(Drop(s, n), n);
      MergeSorted(cmp, p, q);
      PassRuns(cmp, rest, n);
      TakeDropConcat(Merge(cmp, p, q), Pass(cmp, rest, n), 2 * n);
    }
  }

  lemma {:induction false} PassEntries<T>(cmp: (T, T) -> int, s: seq<Node<T>>, n: nat)
    requires n > 0
    ensures multiset(Pass(cmp, s, n)) == multiset(s)
    decreases |s|
  {
    if s != [] {
      var p, q, rest := Take(s, n), Take(Drop(s, n), n), Drop(Drop(s, n), n);
      TakeDrop(s, n);
      TakeDrop(Drop(s, n), n);
      MergeEntries(cmp, p, q);
      PassEntries(cmp, rest, n);
    }
  }

  lemma {:induction false} PassClass<T(!new)>(cmp: (T, T) -> int, x: Node<T>, s: seq<Node<T>>, n: nat)
    requires n > 0 && TotalPreorder(cmp) && Runs(cmp, s, n)
    ensures Class(cmp, x, Pass(cmp, s, n)) == Class(cmp, x, s)
    decreases |s|
  {
    hide Take, Drop, Class, Merge, Sorted, TotalPreorder;
    if s == [] {
    } else {
      var p, q, rest := Take(s, n), Take(Drop(s, n), n), Drop(Drop(s, n), n);
      TakeDrop(s, n);
      TakeDrop(Drop(s, n), n);
      RunsParts(cmp, s, n);
      ClassConcat(cmp, x, p, Drop(s, n));
      ClassConcat(cmp, x, q, rest);
      Associate(Class(cmp, x, p), Class(cmp, x, q), Class(cmp, x, rest));
      MergeClass(cmp, x, p, q);
      PassClass(cmp, x, rest, n);
      ClassConcat(cmp, x, Merge(cmp, p, q), Pass(cmp, rest, n));
    }
  }

  lemma {:induction false} SortEntries<T>(cmp: (T, T) -> int, s: seq<Node<T>>, n: nat)
    requires n > 0
    ensures multiset(Sort(cmp, s, n)) == multiset(s)
    decreases |s| - n
  {
    PassEntries(cmp, s, n);
    if |s| > 2 * n {
      SortEntries(cmp, Pass(cmp, s, n), 2 * n);
    }
  }

  lemma {:induction false} SortClass<T(!new)>(cmp: (T, T) -> int, x: Node<T>, s: seq<Node<T>>, n: nat)
    requires n > 0 && TotalPreorder(cmp) && Runs(cmp, s, n)
    ensures Class(cmp, x, Sort(cmp, s, n)) == Class(cmp, x, s)
    decreases |s| - n
  {
    PassClass(cmp, x, s, n);
    if |s| > 2 * n {
      PassRuns(cmp, s, n);
      SortClass(cmp, x, Pass(cmp, s, n), 2 * n);
    }
  }

  lemma {:induction false} SortRuns<T(!new)>(cmp: (T, T) -> int, s: seq<Node<T>>, n: nat)
    requires n > 0 && TotalPreorder(cmp) && Runs(cmp, s, n)
    ensures Sorted(cmp, Sort(cmp, s, n))
    decreases |s| - n
  {
    PassRuns(cmp, s, n);
    if |s| > 2 * n {
      SortRuns(cmp, Pass(cmp, s, n), 2 * n);
    }
  }

  /** For every total preorder the sort is a sorted, stable permutation. */
  lemma {:induction false} SortIsStableSort<T(!new)>(cmp: (T, T) -> int, s: seq<Node<T>>)
    requires TotalPreorder(cmp)
    ensures Sorted(cmp, Sort(cmp, s, 1)) && Stable(cmp, s, Sort(cmp, s, 1))
  {
    SingleRuns(cmp, s);
    SortRuns(cmp, s, 1);
    SortEntries(cmp, s, 1);
    forall i | 0 <= i < |s|
      ensures Class(cmp, s[i], Sort(cmp, s, 1)) == Class(cmp, s[i], s)
    {
      SortClass(cmp, s[i], s, 1);
    }
  }

  lemma {:induction false} ClassTail<T(!new)>(cmp: (T, T) -> int, a: seq<Node<T>>, b: seq<Node<T>>)
    requires TotalPreorder(cmp) && Sorted(cmp, a) && Sorted(cmp, b) && a != [] && b != []
    requires Class(cmp, a[0], a) == Class(cmp, a[0], b) && Class(cmp, b[0], a) == Class(cmp, b[0], b)
    ensures a[0] == b[0]
  {
    assert Le(cmp, a[0], a[0]) && Le(cmp, b[0], b[0]);
    if !Le(cmp, b[0], a[0]) {
      ClassAfter(cmp, a[0], b);
    } else if !Le(cmp, a[0], b[0]) {
      ClassAfter(cmp, b[0], a);
    } else {
      assert Class(cmp, a[0], a)[0] == a[0] && Class(cmp, a[0], b)[0] == b[0];
    }
  }

  lemma OwnClass<T(!new)>(cmp: (T, T) -> int, s: seq<Node<T>>)
    requires TotalPreorder(cmp)
    ensures s != [] ==> Class(cmp, s[0], s) != []
  {
    assert s != [] ==> Le(cmp, s[0], s[0]);
  }

  lemma ClassRest<T>(cmp: (T, T) -> int, x: Node<T>, a: seq<Node<T>>, b: seq<Node<T>>)
    requires a != [] && b != [] && a[0] == b[0] && Class(cmp, x, a) == Class(cmp, x, b)
    ensures Class(cmp, x, a[1..]) == Class(cmp, x, b[1..])
  {
    var first := if Le(cmp, x, a[0]) && Le(cmp, a[0], x) then [a[0]] else [];
    assert Class(cmp, x, a) == first + Class(cmp, x, a[1..]) && Class(cmp, x, b) == first + Class(cmp, x, b[1..]);
    assert Class(cmp, x, a[1..]) == Class(cmp, x, a)[|first|..];
    assert Class(cmp, x, b[1..]) == Class(cmp, x, b)[|first|..];
  }

  /** Sorted sequences in which every class of equals reads the same are the same: the result is determined. */
  lemma {:induction false} StableSortIsUnique<T(!new)>(cmp: (T, T) -> int, a: seq<Node<T>>, b: seq<Node<T>>)
    requires TotalPreorder(cmp) && Sorted(cmp, a) && Sorted(cmp, b)
    requires forall i | 0 <= i < |a| :: Class(cmp, a[i], a) == Class(cmp, a[i], b)
    requires forall i | 0 <= i < |b| :: Class(cmp, b[i], a) == Class(cmp, b[i], b)
    ensures a == b
  {
    OwnClass(cmp, a);
    OwnClass(cmp, b);
    if a == [] || b == [] {
    } else {
      ClassTail(cmp, a, b);
      forall i | 0 <= i < |a| - 1
        ensures Class(cmp, a[1..][i], a[1..]) == Class(cmp, a[1..][i], b[1..])
      {
        ClassRest(cmp, a[i + 1], a, b);
      }
      forall i | 0 <= i < |b| - 1
        ensures Class(cmp, b[1..][i], a[1..]) == Class(cmp, b[1..][i], b[1..])
      {
        ClassRest(cmp, b[i + 1], a, b);
      }
      StableSortIsUnique(cmp, a[1..], b[1..]);
      assert a == [a[0]] + a[1..] && b == [b[0]] + b[1..];
    }
  }

  // ----- the sort on links -----

  /** The finished part of the list: its head, its nodes, and its last node. */
  ghost predicate Built<T>(list: Node?<T>, tail: Node?<T>, out: seq<Node<T>>)
    reads out
  {
    && Distinct(out) && Chained(out)
    && (if out == [] then list == null && tail == null else list == out[0] && tail == out[|out| - 1])
  }

  /** A run that starts at p and is followed by anything. */
  ghost predicate Stretch<T>(p: Node?<T>, run: seq<Node<T>>)
    reads run
  {
    Distinct(run) && Chained(run) && (run != [] ==> p == run[0])
  }

  /** Append the next node to the finished part. */
  method Emit<T>(list: Node?<T>, tail: Node?<T>, e: Node<T>, ghost out: seq<Node<T>>)
    returns (list': Node?<T>, tail': Node?<T>)
    requires Built(list, tail, out) && e !in out
    modifies out`next
    ensures Built(list', tail', out + [e])
  {
    list' := list;
    if tail != null {
      tail.next := e;
      assert forall i | 0 <= i < |out| - 1 :: out[i] != tail;
    } else {
      list' := e;
    }
    tail' := e;
  }

  /** The finished part, the rest of the first run and the rest of the list do not overlap. */
  ghost predicate Separate<E>(out: seq<E>, run: seq<E>, rest: seq<E>)
  {
    Apart(out, run) && Apart(out, rest) && Apart(run, rest)
  }

  lemma EmitKeepsSeparate<T>(p: Node?<T>, q: Node?<T>, out: seq<Node<T>>, run: seq<Node<T>>, rest: seq<Node<T>>)
    requires Stretch(p, run) && List(q, rest) && Separate(out, run, rest)
    ensures run != [] ==> run[0] !in out && Separate(out + [run[0]], run[1..], rest)
    ensures rest != [] ==> rest[0] !in out && Separate(out + [rest[0]], run, rest[1..])
    ensures forall i | 0 <= i < |run| :: run[i] !in out
    ensures forall i | 0 <= i < |rest| :: rest[i] !in out
  {
  }

  lemma SeparateEnds<E>(out: seq<E>, run: seq<E>, rest: seq<E>)
    requires Separate(out, run, rest)
    ensures Apart(out, rest)
  {
  }

  /** When the merge loop ends, both runs are used up. */
  lemma MergeDone<T>(cmp: (T, T) -> int, q: Node?<T>, rest: seq<Node<T>>, qsize: nat)
    requires List(q, rest) && (qsize == 0 || q == null)
    ensures Merge(cmp, [], Take(rest, qsize)) == [] && Drop(rest, qsize) == rest
  {
  }

  lemma StretchTail<T>(p: Node<T>, run: seq<Node<T>>)
    requires Stretch(p, run) && run != []
    ensures p == run[0] && Stretch(p.next, run[1..])
  {
  }

  lemma TakeMore<E>(s: seq<E>, n: nat)
    requires s != [] && n > 0
    ensures Take(s, n) == [s[0]] + Take(s[1..], n - 1) && Drop(s, n) == Drop(s[1..], n - 1)
  {
  }

  /** The node e comes first in the merge of a run with the first n nodes of a list, and leaves run' and rest'. */
  ghost predicate Chosen<T>(cmp: (T, T) -> int, run: seq<Node<T>>, rest: seq<Node<T>>, n: nat,
                            e: Node<T>, run': seq<Node<T>>, rest': seq<Node<T>>, n': nat)
  {
    && Merge(cmp, run, Take(rest, n)) == [e] + Merge(cmp, run', Take(rest', n'))
    && Drop(rest', n') == Drop(rest, n)
    && (|| (run != [] && e == run[0] && run' == run[1..] && rest' == rest)
        || (rest != [] && e == rest[0] && run' == run && rest' == rest[1..]))
  }

  lemma ChosenFirst<T>(cmp: (T, T) -> int, run: seq<Node<T>>, rest: seq<Node<T>>, n: nat,
                       e: Node<T>, run': seq<Node<T>>, rest': seq<Node<T>>, n': nat)
    requires Chosen(cmp, run, rest, n, e, run', rest', n')
    ensures Merge(cmp, run, Take(rest, n)) == [e] + Merge(cmp, run', Take(rest', n'))
    ensures Drop(rest', n') == Drop(rest, n)
    ensures || (run != [] && e == run[0] && run' == run[1..] && rest' == rest)
            || (rest != [] && e == rest[0] && run' == run && rest' == rest[1..])
  {
  }

  /** The head of the list comes next in the merge. */
  lemma FromSecond<T>(cmp: (T, T) -> int, run: seq<Node<T>>, rest: seq<Node<T>>, qsize: nat)
    requires rest != [] && qsize > 0 && (run != [] ==> !Le(cmp, run[0], rest[0]))
    ensures Chosen(cmp, run, rest, qsize, rest[0], run, rest[1..], qsize - 1)
  {
    TakeMore(rest, qsize);
    var t := Take(rest[1..], qsize - 1);
    hide Take, Drop;
    assert ([rest[0]] + t)[1..] == t;
    assert run == [] ==> Merge(cmp, run, t) == t;
  }

  /** The head of the run comes next in the merge. */
  lemma FromFirst<T>(cmp: (T, T) -> int, run: seq<Node<T>>, rest: seq<Node<T>>, qsize: nat)
    requires run != [] && (qsize == 0 || rest == [] || Le(cmp, run[0], rest[0]))
    ensures Chosen(cmp, run, rest, qsize, run[0], run[1..], rest, qsize)
  {
    if qsize > 0 && rest != [] {
      TakeMore(rest, qsize);
    }
    var t := Take(rest, qsize);
    hide Take;
    assert t == [] ==> Merge(cmp, run, t) == run && Merge(cmp, run[1..], t) == run[1..];
    assert run == [run[0]] + run[1..];
  }

  /** The node that comes next in a merge, taken off its run. */
  method Choose<T>(p: Node?<T>, q: Node?<T>, psize: nat, qsize: nat, cmp: (T, T) -> int,
                   ghost run: seq<Node<T>>, ghost rest: seq<Node<T>>)
    returns (e: Node<T>, p': Node?<T>, q': Node?<T>, psize': nat, qsize': nat,
             ghost run': seq<Node<T>>, ghost rest': seq<Node<T>>)
    requires Stretch(p, run) && |run| == psize && List(q, rest)
    requires psize > 0 || (qsize > 0 && q != null)
    ensures Stretch(p', run') && |run'| == psize' && List(q', rest')
    ensures Chosen(cmp, run, rest, qsize, e, run', rest', qsize')
  {
    hide List, Chosen, Stretch, Le, Take, Drop, Merge;
    ListHead(q, rest);
    StretchHead(p, run);
    if psize == 0 {
      ListTail(q, rest);
      FromSecond(cmp, run, rest, qsize);
      return q, p, q.next, psize, qsize - 1, run, rest[1..];
    } else if qsize == 0 || q == null {
      StretchTail(p, run);
      FromFirst(cmp, run, rest, qsize);
      return p, p.next, q, psize - 1, qsize, run[1..], rest;
    } else if cmp(p.value, q.value) <= 0 {
      StretchTail(p, run);
      Before(cmp, p, q);
      FromFirst(cmp, run, rest, qsize);
      return p, p.next, q, psize - 1, qsize, run[1..], rest;
    } else {
      ListTail(q, rest);
      Before(cmp, p, q);
      FromSecond(cmp, run, rest, qsize);
      return q, p, q.next, psize, qsize - 1, run, rest[1..];
    }
  }

  lemma Before<T>(cmp: (T, T) -> int, a: Node<T>, b: Node<T>)
    ensures Le(cmp, a, b) <==> cmp(a.value, b.value) <= 0
  {
  }

  lemma ListHead<T>(q: Node?<T>, rest: seq<Node<T>>)
    requires List(q, rest)
    ensures if rest == [] then q == null else q == rest[0]
  {
  }

  lemma StretchHead<T>(p: Node?<T>, run: seq<Node<T>>)
    requires Stretch(p, run)
    ensures run != [] ==> p == run[0]
  {
  }

  /** The merge of the run at p, of length psize, with the run of length insize at q. */
  method MergeRuns<T>(p0: Node<T>, q0: Node?<T>, psize0: nat, insize: nat, list0: Node?<T>, tail0: Node?<T>,
                      cmp: (T, T) -> int, ghost run0: seq<Node<T>>, ghost rest0: seq<Node<T>>, ghost out0: seq<Node<T>>)
    returns (list: Node?<T>, tail: Node?<T>, q: Node?<T>)
    requires Stretch(p0, run0) && |run0| == psize0 > 0 && List(q0, rest0) && Built(list0, tail0, out0)
    requires Separate(out0, run0, rest0)
    modifies out0`next, run0`next, rest0`next
    ensures Built(list, tail, out0 + Merge(cmp, run0, Take(rest0, insize)))
    ensures List(q, Drop(rest0, insize)) && Apart(out0 + Merge(cmp, run0, Take(rest0, insize)), Drop(rest0, insize))
    ensures var out := out0 + Merge(cmp, run0, Take(rest0, insize));
            forall i | 0 <= i < |out| :: out[i] in out0 || out[i] in run0 || out[i] in rest0
  {
    hide Stretch, List, Built, Separate, Chosen, Merge, Take, Drop;
    list, tail, q := list0, tail0, q0;
    var p: Node?<T>, psize: nat, qsize: nat := p0, psize0, insize;
    ghost var run, rest, out := run0, rest0, out0;
    while psize > 0 || (qsize > 0 && q != null)
      invariant |run| == psize
      invariant Stretch(p, run) && List(q, rest) && Built(list, tail, out) && Separate(out, run, rest)
      invariant out + Merge(cmp, run, Take(rest, qsize)) == out0 + Merge(cmp, run0, Take(rest0, insize))
      invariant Drop(rest, qsize) == Drop(rest0, insize)
      invariant forall i | 0 <= i < |out| :: out[i] in out0 || out[i] in run0 || out[i] in rest0
      invariant forall i | 0 <= i < |run| :: run[i] in run0
      invariant forall i | 0 <= i < |rest| :: rest[i] in rest0
      decreases |run| + |rest|
    {
      var e: Node<T>;
      ghost var run', rest';
      EmitKeepsSeparate(p, q, out, run, rest);
      ghost var n := qsize;
      e, p, q, psize, qsize, run', rest' := Choose(p, q, psize, qsize, cmp, run, rest);
      ChosenFirst(cmp, run, rest, n, e, run', rest', qsize);
      Associate(out, [e], Merge(cmp, run', Take(rest', qsize)));
      list, tail := Emit(list, tail, e, out);
      out, run, rest := out + [e], run', rest';
    }
    MergeDone(cmp, q, rest, qsize);
    SeparateEnds(out, run, rest);
    assert run == [] && out + [] == out;
  }

  /** Steps over the first run of the list. */
  method SplitRun<T>(p: Node<T>, insize: nat, ghost s: seq<Node<T>>) returns (q: Node?<T>, psize: nat)
    requires List(p, s) && insize > 0
    ensures psize == |Take(s, insize)| > 0
    ensures Stretch(p, Take(s, insize)) && List(q, Drop(s, insize))
  {
    q, psize := p, 0;
    var i := 0;
    while i < insize
      invariant 0 <= i < insize && psize == i < |s| && q == s[i]
    {
      psize := psize + 1;
      NextOf(p, s, i);
      q := q.next;
      if q == null {
        break;
      }
      i := i + 1;
      if i == insize {
        break;
      }
    }
    ListParts(p, s, psize);
  }

  lemma ListParts<T>(p: Node?<T>, s: seq<Node<T>>, k: nat)
    requires List(p, s) && 0 < k <= |s|
    ensures Stretch(p, s[..k]) && List(s[k - 1].next, s[k..])
  {
    assert forall i | 0 <= i < |s[k..]| :: s[k..][i] == s[k + i];
  }

  lemma DropEntries<E>(s: seq<E>, n: nat)
    ensures forall i | 0 <= i < |Drop(s, n)| :: Drop(s, n)[i] in s
  {
    assert forall i | 0 <= i < |Drop(s, n)| :: Drop(s, n)[i] == s[n + i];
  }

  lemma PartsSeparate<T>(p: Node?<T>, out: seq<Node<T>>, s: seq<Node<T>>, n: nat)
    requires List(p, s) && Apart(out, s)
    ensures Separate(out, Take(s, n), Drop(s, n))
    ensures forall i | 0 <= i < |Take(s, n)| :: Take(s, n)[i] in s
    ensures forall i | 0 <= i < |Drop(s, n)| :: Drop(s, n)[i] in s
  {
    assert forall i | 0 <= i < |Take(s, n)| :: Take(s, n)[i] == s[i];
    assert forall i | 0 <= i < |Drop(s, n)| :: Drop(s, n)[i] == s[n + i];
  }

  /** One turn of the middle loop: the next two runs are merged onto the finished part. */
  method MergePair<T>(p: Node<T>, insize: nat, list0: Node?<T>, tail0: Node?<T>, cmp: (T, T) -> int,
                      ghost rest: seq<Node<T>>, ghost out: seq<Node<T>>)
    returns (list: Node?<T>, tail: Node?<T>, q: Node?<T>)
    requires List(p, rest) && Built(list0, tail0, out) && Apart(out, rest) && insize > 0
    modifies out`next, rest`next
    ensures var out' := out + Merge(cmp, Take(rest, insize), Take(Drop(rest, insize), insize));
            && Built(list, tail, out') && Apart(out', Drop(Drop(rest, insize), insize))
            && forall i | 0 <= i < |out'| :: out'[i] in out || out'[i] in rest
    ensures List(q, Drop(Drop(rest, insize), insize))
    ensures forall i | 0 <= i < |Drop(Drop(rest, insize), insize)| :: Drop(Drop(rest, insize), insize)[i] in rest
  {
    hide Stretch, List, Built, Separate, Merge, Take, Drop, Apart, Chained, Distinct;
    var r, psize := SplitRun(p, insize, rest);
    ghost var run, rest' := Take(rest, insize), Drop(rest, insize);
    PartsSeparate(p, out, rest, insize);
    DropEntries(rest', insize);
    list, tail, q := MergeRuns(p, r, psize, insize, list0, tail0, cmp, run, rest', out);
  }

  /** How many merges took s to its rest, as far as the sort asks. */
  ghost predicate Counted<E>(nmerges: nat, s: seq<E>, rest: seq<E>, n: nat)
  {
    && (nmerges == 0 ==> rest == s)
    && (nmerges == 1 ==> rest == Drop(Drop(s, n), n))
    && (nmerges >= 2 ==> |s| > 2 * n)
  }

  lemma CountedNext<E>(nmerges: nat, s: seq<E>, rest: seq<E>, n: nat)
    requires Counted(nmerges, s, rest, n) && rest != [] && n > 0
    ensures Counted(nmerges + 1, s, Drop(Drop(rest, n), n), n) && |Drop(Drop(rest, n), n)| < |rest|
  {
  }

  lemma CountedEnd<E>(nmerges: nat, s: seq<E>, n: nat)
    requires Counted(nmerges, s, [], n)
    ensures s != [] ==> (nmerges <= 1 <==> |s| <= 2 * n)
  {
  }

  lemma PassNext<T>(cmp: (T, T) -> int, out: seq<Node<T>>, rest: seq<Node<T>>, n: nat)
    requires n > 0 && rest != []
    ensures out + Merge(cmp, Take(rest, n), Take(Drop(rest, n), n)) + Pass(cmp, Drop(Drop(rest, n), n), n)
         == out + Pass(cmp, rest, n)
  {
    Associate(out, Merge(cmp, Take(rest, n), Take(Drop(rest, n), n)), Pass(cmp, Drop(Drop(rest, n), n), n));
  }

  /** One turn of the sort's outer loop: a pass over the list, and whether it made more than one merge. */
  method PassOver<T>(head: Node<T>, insize: nat, cmp: (T, T) -> int, ghost s: seq<Node<T>>)
    returns (list: Node?<T>, nmerges: nat)
    requires List(head, s) && insize > 0
    modifies s`next
    ensures List(list, Pass(cmp, s, insize))
    ensures nmerges <= 1 <==> |s| <= 2 * insize
  {
    hide List, Built, Merge, Pass, Take, Drop, Apart, Counted, Distinct, Chained;
    var p: Node?<T> := head;
    var tail: Node?<T> := null;
    list, nmerges := null, 0;
    ghost var out, rest: seq<Node<T>> := [], s;
    NothingBuilt(s);
    NothingPassed(cmp, s, insize);
    ListEnd(head, s);
    while p != null
      invariant List(p, rest) && Built(list, tail, out) && Apart(out, rest)
      invariant out + Pass(cmp, rest, insize) == Pass(cmp, s, insize)
      invariant forall i | 0 <= i < |out| :: out[i] in s
      invariant forall i | 0 <= i < |rest| :: rest[i] in s
      invariant Counted(nmerges, s, rest, insize)
      decreases |rest|
    {
      ListEnd(p, rest);
      CountedNext(nmerges, s, rest, insize);
      PassNext(cmp, out, rest, insize);
      nmerges := nmerges + 1;
      list, tail, p := MergePair(p, insize, list, tail, cmp, rest, out);
      out := out + Merge(cmp, Take(rest, insize), Take(Drop(rest, insize), insize));
      rest := Drop(Drop(rest, insize), insize);
    }
    ListEnd(p, rest);
    CountedEnd(nmerges, s, insize);
    PassEnds(cmp, out, insize);
    EndList(list, tail, out);
  }

  lemma NothingPassed<T>(cmp: (T, T) -> int, s: seq<Node<T>>, n: nat)
    requires n > 0
    ensures [] + Pass(cmp, s, n) == Pass(cmp, s, n) && Counted(0, s, s, n)
  {
  }

  lemma PassEnds<T>(cmp: (T, T) -> int, out: seq<Node<T>>, n: nat)
    requires n > 0
    ensures out + Pass(cmp, [], n) == out
  {
  }

  lemma NothingBuilt<T>(s: seq<Node<T>>)
    ensures Built<T>(null, null, []) && Apart([], s)
  {
  }

  lemma ListEnd<T>(p: Node?<T>, s: seq<Node<T>>)
    requires List(p, s)
    ensures p == null <==> s == []
  {
  }

  /** The finished part becomes a list. */
  method EndList<T>(list: Node?<T>, tail: Node?<T>, ghost out: seq<Node<T>>)
    requires Built(list, tail, out)
    modifies out`next
    ensures List(list, out)
  {
    if tail != null {
      tail.next := null;
    }
  }

  /** LL_SORT */
  method LLSort<T>(head: Node?<T>, cmp: (T, T) -> int, ghost nodes: seq<Node<T>>) returns (list: Node?<T>)
    requires List(head, nodes)
    modifies nodes`next
    ensures List(list, Sort(cmp, nodes, 1))
  {
    hide Pass, List;
    list := head;
    ListEnd(head, nodes);
    if list != null {
      var insize: nat, looping := 1, true;
      ghost var s := nodes;
      while looping
        invariant insize > 0 && List(list, s) && multiset(s) == multiset(nodes) && s != []
        invariant Sort(cmp, nodes, 1) == if looping then Sort(cmp, s, insize) else s
        decreases looping, |s| - insize
      {
        ListEnd(list, s);
        PassEntries(cmp, s, insize);
        assert forall i | 0 <= i < |s| :: s[i] in multiset(s);
        var nmerges;
        list, nmerges := PassOver(list, insize, cmp, s);
        if nmerges <= 1 {
          looping := false;
        }
        s := Pass(cmp, s, insize);
        insize := insize * 2;
      }
    } else {
      NothingToSort(cmp, nodes);
    }
  }

  lemma NothingToSort<T>(cmp: (T, T) -> int, s: seq<Node<T>>)
    ensures s == [] ==> Sort(cmp, s, 1) == []
  {
  }
}
