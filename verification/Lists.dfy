/** Result and option types shared by the whole model. */
module Outcomes {
  datatype Option<+T> = None | Some(value: T)

  datatype Result<+T, +E> = Ok(value: T) | Err(error: E)
}

/**
  List comprehensions, Python slices and the stable descending sort that the
  repositories and services are written with.
 */
module Lists {
  import opened Outcomes

  // ---------- comprehensions ----------

  /** The comprehension `[x for x in xs if p(x)]`. */
  function Filter<T>(p: T -> bool, xs: seq<T>): (ys: seq<T>)
    ensures |ys| <= |xs|
  {
    if xs == [] then []
    else if p(xs[0]) then [xs[0]] + Filter(p, xs[1..])
    else Filter(p, xs[1..])
  }

  /** An UPDATE statement: every selected row is rewritten in place. */
  function MapIf<T>(p: T -> bool, f: T -> T, xs: seq<T>): (ys: seq<T>)
    ensures |ys| == |xs|
    ensures forall i :: 0 <= i < |xs| ==> ys[i] == if p(xs[i]) then f(xs[i]) else xs[i]
  {
    seq(|xs|, i requires 0 <= i < |xs| => if p(xs[i]) then f(xs[i]) else xs[i])
  }

  /** The first element that satisfies p. */
  function Find<T>(p: T -> bool, xs: seq<T>): (r: Option<T>)
    ensures r.Some? ==> r.value in xs && p(r.value)
    ensures r.None? ==> forall x :: x in xs ==> !p(x)
  {
    if xs == [] then None
    else if p(xs[0]) then Some(xs[0])
    else Find(p, xs[1..])
  }

  /** The slice `xs[:k]`, which counts a negative bound from the end. */
  function Take<T>(xs: seq<T>, k: int): (ys: seq<T>)
    ensures ys <= xs
    ensures 0 <= k ==> |ys| == if k < |xs| then k else |xs|
    ensures k < 0 ==> |ys| == if |xs| + k < 0 then 0 else |xs| + k
  {
    if k < 0 then (if |xs| + k < 0 then [] else xs[..|xs| + k])
    else if k < |xs| then xs[..k]
    else xs
  }

  /** SQL's `LIMIT limit OFFSET offset`. */
  function Page<T>(xs: seq<T>, limit: nat, offset: nat): (ys: seq<T>)
    ensures |ys| <= limit
  {
    if offset >= |xs| then [] else Take(xs[offset..], limit)
  }

  lemma {:induction false} FilterMember<T>(p: T -> bool, xs: seq<T>, x: T)
    ensures x in Filter(p, xs) <==> x in xs && p(x)
  {
    if xs != [] {
      FilterMember(p, xs[1..], x);
    }
  }

  lemma FilterCons<T>(p: T -> bool, x: T, xs: seq<T>)
    ensures Filter(p, [x] + xs) == if p(x) then [x] + Filter(p, xs) else Filter(p, xs)
  {
    assert ([x] + xs)[1..] == xs;
  }

  lemma {:induction false} FilterConcat<T>(p: T -> bool, xs: seq<T>, ys: seq<T>)
    ensures Filter(p, xs + ys) == Filter(p, xs) + Filter(p, ys)
  {
    if xs == [] {
      assert xs + ys == ys;
    } else {
      assert xs + ys == [xs[0]] + (xs[1..] + ys);
      FilterCons(p, xs[0], xs[1..] + ys);
      FilterConcat(p, xs[1..], ys);
    }
  }

  lemma FilterSnoc<T>(p: T -> bool, xs: seq<T>, x: T)
    ensures Filter(p, xs + [x]) == if p(x) then Filter(p, xs) + [x] else Filter(p, xs)
  {
    FilterConcat(p, xs, [x]);
    assert Filter(p, [x]) == if p(x) then [x] else [];
  }

  /** The number of positions below n that satisfy a test. */
  ghost function CountTo(n: nat, p: int -> bool): nat {
    |set i | 0 <= i < n && p(i)|
  }

  lemma CountSnoc(n: nat, p: int -> bool)
    ensures CountTo(0, p) == 0
    ensures CountTo(n + 1, p) == if p(n) then CountTo(n, p) + 1 else CountTo(n, p)
  {
    var below, upto := set i | 0 <= i < n && p(i), set i | 0 <= i < n + 1 && p(i);
    assert upto == if p(n) then below + {n} else below;
    assert (set i | 0 <= i < 0 && p(i)) == {};
  }

  function Satisfies<T>(p: T -> bool, xs: seq<T>): int -> bool {
    i => 0 <= i < |xs| && p(xs[i])
  }

  lemma {:induction false} FilterCounts<T>(p: T -> bool, xs: seq<T>, n: nat)
    requires n <= |xs|
    ensures |Filter(p, xs[..n])| == CountTo(n, Satisfies(p, xs))
  {
    hide CountTo;
    if n == 0 {
      CountSnoc(0, Satisfies(p, xs));
    } else {
      FilterCounts(p, xs, n - 1);
      CountSnoc(n - 1, Satisfies(p, xs));
      assert xs[..n] == xs[..n - 1] + [xs[n - 1]];
      FilterSnoc(p, xs[..n - 1], xs[n - 1]);
    }
  }

  /** A comprehension has as many entries as there are positions that satisfy its test. */
  lemma FilterCardinality<T>(p: T -> bool, xs: seq<T>)
    ensures |Filter(p, xs)| == CountTo(|xs|, Satisfies(p, xs))
  {
    FilterCounts(p, xs, |xs|);
    assert xs[..|xs|] == xs;
  }

  lemma {:induction false} FilterAll<T>(p: T -> bool, xs: seq<T>)
    requires forall x :: x in xs ==> p(x)
    ensures Filter(p, xs) == xs
  {
    if xs != [] {
      FilterAll(p, xs[1..]);
      assert xs == [xs[0]] + xs[1..];
    }
  }

  lemma {:induction false} FilterNothing<T>(p: T -> bool, xs: seq<T>)
    requires forall x :: x in xs ==> !p(x)
    ensures Filter(p, xs) == []
  {
    if xs != [] {
      FilterNothing(p, xs[1..]);
    }
  }

  /** A comprehension keeps the multiplicity of what it selects. */
  lemma {:induction false} FilterMultiplicity<T>(p: T -> bool, xs: seq<T>, x: T)
    ensures multiset(Filter(p, xs))[x] == if p(x) then multiset(xs)[x] else 0
  {
    if xs != [] {
      FilterMultiplicity(p, xs[1..], x);
      assert xs == [xs[0]] + xs[1..];
      assert multiset(xs) == multiset{xs[0]} + multiset(xs[1..]);
    }
  }

  /** Predicates that agree on a list select the same sublist of it. */
  lemma {:induction false} FilterAgree<T>(p: T -> bool, q: T -> bool, xs: seq<T>)
    requires forall x :: x in xs ==> p(x) == q(x)
    ensures Filter(p, xs) == Filter(q, xs)
  {
    if xs != [] {
      FilterAgree(p, q, xs[1..]);
    }
  }

  /** Filtering by a weaker predicate first changes nothing. */
  lemma {:induction false} FilterAbsorb<T>(strong: T -> bool, weak: T -> bool, xs: seq<T>)
    requires forall x :: x in xs && strong(x) ==> weak(x)
    ensures Filter(strong, Filter(weak, xs)) == Filter(strong, xs)
  {
    if xs != [] {
      FilterAbsorb(strong, weak, xs[1..]);
      FilterCons(strong, xs[0], Filter(weak, xs[1..]));
    }
  }

  /** A filtered prefix is a prefix of the filtered list. */
  lemma FilterPrefix<T>(p: T -> bool, xs: seq<T>, ys: seq<T>)
    requires xs <= ys
    ensures Filter(p, xs) <= Filter(p, ys)
  {
    assert ys == xs + ys[|xs|..];
    FilterConcat(p, xs, ys[|xs|..]);
  }

  /**
    Cutting a list to k entries before a filter returns a prefix of what comes out
    when rows that the filter would drop anyway are removed before the cut.
   */
  lemma CutAfterRemoval<T>(wanted: T -> bool, kept: T -> bool, xs: seq<T>, k: nat)
    requires forall x :: x in xs && wanted(x) ==> kept(x)
    ensures Filter(wanted, Take(xs, k)) <= Filter(wanted, Take(Filter(kept, xs), k))
  {
    var head := Take(xs, k);
    FilterPrefix(kept, head, xs);
    assert Filter(kept, head) <= Take(Filter(kept, xs), k);
    FilterPrefix(wanted, Filter(kept, head), Take(Filter(kept, xs), k));
    FilterAbsorb(wanted, kept, head);
  }

  /** The test `not p(x)`. */
  function Not<T>(p: T -> bool): T -> bool {
    x => !p(x)
  }

  lemma MapIfCons<T>(p: T -> bool, f: T -> T, xs: seq<T>)
    requires xs != []
    ensures MapIf(p, f, xs) == [if p(xs[0]) then f(xs[0]) else xs[0]] + MapIf(p, f, xs[1..])
  {
  }

  /** An update that takes every selected row out of p's reach acts on p like a deletion. */
  lemma {:induction false} FilterMapIf<T>(p: T -> bool, sel: T -> bool, f: T -> T, xs: seq<T>)
    requires forall x :: x in xs && sel(x) ==> !p(f(x))
    ensures Filter(p, MapIf(sel, f, xs)) == Filter(p, Filter(Not(sel), xs))
  {
    if xs != [] {
      MapIfCons(sel, f, xs);
      FilterMapIf(p, sel, f, xs[1..]);
      FilterCons(p, if sel(xs[0]) then f(xs[0]) else xs[0], MapIf(sel, f, xs[1..]));
      FilterCons(p, xs[0], Filter(Not(sel), xs[1..]));
    }
  }

  lemma MapIfNothing<T>(p: T -> bool, f: T -> T, xs: seq<T>)
    requires forall x :: x in xs ==> !p(x)
    ensures MapIf(p, f, xs) == xs
  {
  }

  lemma {:induction false} FilterCommute<T>(p: T -> bool, q: T -> bool, xs: seq<T>)
    ensures Filter(p, Filter(q, xs)) == Filter(q, Filter(p, xs))
  {
    if xs != [] {
      FilterCommute(p, q, xs[1..]);
      FilterCons(p, xs[0], Filter(q, xs[1..]));
      FilterCons(q, xs[0], Filter(p, xs[1..]));
    }
  }

  /** Removing the rows of a part from a whole leaves the difference of the counts. */
  lemma {:induction false} FilterCount<T>(whole: T -> bool, part: T -> bool, xs: seq<T>)
    requires forall x :: x in xs && part(x) ==> whole(x)
    ensures |Filter(whole, xs)| == |Filter(whole, Filter(Not(part), xs))| + |Filter(part, xs)|
  {
    if xs != [] {
      FilterCount(whole, part, xs[1..]);
      FilterCons(whole, xs[0], Filter(Not(part), xs[1..]));
    }
  }

  // ---------- stable descending sort ----------

  ghost predicate SortedDesc<T>(key: T -> real, xs: seq<T>) {
    forall i, j :: 0 <= i < j < |xs| ==> key(xs[i]) >= key(xs[j])
  }

  /** Puts x before the first entry whose key is not above its own. */
  function Insert<T>(key: T -> real, x: T, ys: seq<T>): seq<T> {
    if ys == [] || key(ys[0]) <= key(x) then [x] + ys
    else [ys[0]] + Insert(key, x, ys[1..])
  }

  /** `sorted(xs, key=key, reverse=True)`; SortUnique shows that any stable sort gives this list. */
  function SortDesc<T>(key: T -> real, xs: seq<T>): (ys: seq<T>)
  {
    if xs == [] then [] else Insert(key, xs[0], SortDesc(key, xs[1..]))
  }

  lemma {:induction false} InsertPermutes<T>(key: T -> real, x: T, ys: seq<T>)
    ensures multiset(Insert(key, x, ys)) == multiset([x] + ys)
    ensures |Insert(key, x, ys)| == |ys| + 1
  {
    if !(ys == [] || key(ys[0]) <= key(x)) {
      InsertPermutes(key, x, ys[1..]);
      assert ys == [ys[0]] + ys[1..];
    }
  }

  lemma InsertMember<T>(key: T -> real, x: T, ys: seq<T>, z: T)
    requires z in Insert(key, x, ys)
    ensures z == x || z in ys
  {
    hide Insert;
    InsertPermutes(key, x, ys);
    assert z in multiset(Insert(key, x, ys));
    assert z in [x] + ys;
  }

  lemma {:induction false} InsertSorts<T>(key: T -> real, x: T, ys: seq<T>)
    requires SortedDesc(key, ys)
    ensures SortedDesc(key, Insert(key, x, ys))
  {
    if !(ys == [] || key(ys[0]) <= key(x)) {
      InsertSorts(key, x, ys[1..]);
      var zs := Insert(key, x, ys[1..]);
      forall j | 0 <= j < |zs|
        ensures key(ys[0]) >= key(zs[j])
      {
        InsertMember(key, x, ys[1..], zs[j]);
      }
    }
  }

  /** The sort permutes its input and leaves it in descending order. */
  lemma {:induction false} SortSorts<T>(key: T -> real, xs: seq<T>)
    ensures SortedDesc(key, SortDesc(key, xs))
    ensures multiset(SortDesc(key, xs)) == multiset(xs)
    ensures |SortDesc(key, xs)| == |xs|
  {
    if xs != [] {
      SortSorts(key, xs[1..]);
      InsertSorts(key, xs[0], SortDesc(key, xs[1..]));
      InsertPermutes(key, xs[0], SortDesc(key, xs[1..]));
      assert xs == [xs[0]] + xs[1..];
    }
  }

  lemma SortMember<T>(key: T -> real, xs: seq<T>, x: T)
    ensures x in SortDesc(key, xs) <==> x in xs
  {
    SortSorts(key, xs);
    assert x in SortDesc(key, xs) <==> x in multiset(SortDesc(key, xs));
    assert x in xs <==> x in multiset(xs);
  }

  lemma {:induction false} FilterInsert<T>(key: T -> real, p: T -> bool, x: T, ys: seq<T>)
    requires SortedDesc(key, ys)
    ensures Filter(p, Insert(key, x, ys)) == if p(x) then Insert(key, x, Filter(p, ys)) else Filter(p, ys)
  {
    if ys == [] || key(ys[0]) <= key(x) {
      assert ([x] + ys)[1..] == ys;
      var fs := Filter(p, ys);
      if fs != [] {
        FilterMember(p, ys, fs[0]);
        var i :| 0 <= i < |ys| && ys[i] == fs[0];
        assert key(ys[i]) <= key(x);
      }
    } else {
      FilterInsert(key, p, x, ys[1..]);
      assert ([ys[0]] + Insert(key, x, ys[1..]))[1..] == Insert(key, x, ys[1..]);
      if p(ys[0]) {
        assert ([ys[0]] + Filter(p, ys[1..]))[1..] == Filter(p, ys[1..]);
      } else if p(x) {
        assert Filter(p, ys) == Filter(p, ys[1..]);
      }
    }
  }

  /** Stability: sorting and filtering commute. */
  lemma {:induction false} FilterSort<T>(key: T -> real, p: T -> bool, xs: seq<T>)
    ensures Filter(p, SortDesc(key, xs)) == SortDesc(key, Filter(p, xs))
  {
    if xs != [] {
      FilterSort(key, p, xs[1..]);
      SortSorts(key, xs[1..]);
      FilterInsert(key, p, xs[0], SortDesc(key, xs[1..]));
      var rest := Filter(p, xs[1..]);
      assert ([xs[0]] + rest)[1..] == rest;
    }
  }

  /** The test `key(x) == v`. */
  function KeyIs<T>(key: T -> real, v: real): T -> bool {
    x => key(x) == v
  }

  lemma {:induction false} SortOneKey<T>(key: T -> real, v: real, xs: seq<T>)
    requires forall x :: x in xs ==> key(x) == v
    ensures SortDesc(key, xs) == xs
  {
    if xs != [] {
      SortOneKey(key, v, xs[1..]);
      assert xs == [xs[0]] + xs[1..];
      if xs[1..] != [] {
        assert xs[1..][0] in xs;
      }
    }
  }

  /** Rows with equal keys keep their order. */
  lemma SortStable<T>(key: T -> real, v: real, xs: seq<T>)
    ensures Filter(KeyIs(key, v), SortDesc(key, xs)) == Filter(KeyIs(key, v), xs)
  {
    FilterSort(key, KeyIs(key, v), xs);
    forall x | x in Filter(KeyIs(key, v), xs)
      ensures key(x) == v
    {
      FilterMember(KeyIs(key, v), xs, x);
    }
    SortOneKey(key, v, Filter(KeyIs(key, v), xs));
  }

  /** Two descending lists that agree on every class of equal keys are one list. */
  lemma {:induction false} SortedClassesDetermine<T>(key: T -> real, xs: seq<T>, ys: seq<T>)
    requires SortedDesc(key, xs) && SortedDesc(key, ys)
    requires forall v: real :: Filter(KeyIs(key, v), xs) == Filter(KeyIs(key, v), ys)
    ensures xs == ys
  {
    if xs == [] && ys == [] {
    } else if xs == [] || (ys != [] && key(xs[0]) < key(ys[0])) {
      FilterMember(KeyIs(key, key(ys[0])), ys, ys[0]);
      FilterMember(KeyIs(key, key(ys[0])), xs, ys[0]);
      assert false;
    } else if ys == [] || key(ys[0]) < key(xs[0]) {
      FilterMember(KeyIs(key, key(xs[0])), xs, xs[0]);
      FilterMember(KeyIs(key, key(xs[0])), ys, xs[0]);
      assert false;
    } else {
      assert Filter(KeyIs(key, key(xs[0])), xs)[0] == xs[0];
      assert Filter(KeyIs(key, key(xs[0])), ys)[0] == ys[0];
      forall v: real
        ensures Filter(KeyIs(key, v), xs[1..]) == Filter(KeyIs(key, v), ys[1..])
      {
        var p := KeyIs(key, v);
        assert Filter(p, xs) == Filter(p, ys);
        if key(xs[0]) == v {
          assert Filter(p, xs) == [xs[0]] + Filter(p, xs[1..]);
          assert Filter(p, ys) == [ys[0]] + Filter(p, ys[1..]);
          assert Filter(p, xs)[1..] == Filter(p, xs[1..]);
          assert Filter(p, ys)[1..] == Filter(p, ys[1..]);
        }
      }
      SortedClassesDetermine(key, xs[1..], ys[1..]);
      assert xs == [xs[0]] + xs[1..] && ys == [ys[0]] + ys[1..];
    }
  }

  /** Any stable descending sort of xs, by whatever algorithm, returns SortDesc(key, xs). */
  lemma SortUnique<T>(key: T -> real, xs: seq<T>, ys: seq<T>)
    requires SortedDesc(key, ys)
    requires forall v: real :: Filter(KeyIs(key, v), ys) == Filter(KeyIs(key, v), xs)
    ensures ys == SortDesc(key, xs)
  {
    SortSorts(key, xs);
    forall v: real
      ensures Filter(KeyIs(key, v), SortDesc(key, xs)) == Filter(KeyIs(key, v), ys)
    {
      SortStable(key, v, xs);
      assert Filter(KeyIs(key, v), ys) == Filter(KeyIs(key, v), xs);
    }
    SortedClassesDetermine(key, ys, SortDesc(key, xs));
  }

  // ---------- counting in a window ----------

  /** Entries between two selected entries of a list are selected as well. */
  ghost predicate Convex<T>(p: T -> bool, xs: seq<T>) {
    forall i, j, k :: 0 <= i <= j <= k < |xs| && p(xs[i]) && p(xs[k]) ==> p(xs[j])
  }

  /** A window that never holds two entries m or more places apart holds at most m entries. */
  lemma {:induction false} SparseWindow<T>(p: T -> bool, xs: seq<T>, m: nat)
    requires Convex(p, xs)
    requires forall i, j :: 0 <= i <= j < |xs| && j - i >= m ==> !(p(xs[i]) && p(xs[j]))
    ensures |Filter(p, xs)| <= m
  {
    if xs == [] {
    } else if !p(xs[0]) {
      SparseWindow(p, xs[1..], m);
    } else if m < |xs| {
      assert !p(xs[m]);
      forall x | x in xs[m..]
        ensures !p(x)
      {
        var j :| 0 <= j < |xs[m..]| && xs[m..][j] == x;
        assert x == xs[m + j];
        assert 0 <= 0 <= m <= m + j < |xs|;
      }
      FilterNothing(p, xs[m..]);
      FilterConcat(p, xs[..m], xs[m..]);
      assert xs == xs[..m] + xs[m..];
    }
  }
}
