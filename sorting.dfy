/** Python's built-in `sorted`, which the table uses twice: `sorted(idxs, reverse=True)`
    before popping columns, and `sorted(rows, key=key, reverse=reverse)` to reorder
    rows. `sorted` is stable: elements that compare equal keep their input order,
    with or without `reverse`. */
module Sorting {

  /** `le` is total and transitive: a valid "comes no later than" relation. */
  ghost predicate TotalPreorder<T(!new)>(le: (T, T) -> bool)
  {
    && (forall a, b :: le(a, b) || le(b, a))
    && (forall a, b, c :: le(a, b) && le(b, c) ==> le(a, c))
  }

  predicate SortedBy<T>(s: seq<T>, le: (T, T) -> bool)
  {
    forall i, j :: 0 <= i < j < |s| ==> le(s[i], s[j])
  }

  /** Put `x` in front of the first element it may precede. */
  function Insert<T>(x: T, s: seq<T>, le: (T, T) -> bool): (r: seq<T>)
    ensures |r| == |s| + 1
  {
    if s == [] || le(x, s[0]) then [x] + s else [s[0]] + Insert(x, s[1..], le)
  }

  /** Insertion sort; an element is inserted before the elements equal to it that
      came after it in the input, which makes the sort stable. */
  function Sort<T>(s: seq<T>, le: (T, T) -> bool): (r: seq<T>)
    ensures |r| == |s|
  {
    if s == [] then [] else Insert(s[0], Sort(s[1..], le), le)
  }

  lemma {:induction false} InsertPermutes<T>(x: T, s: seq<T>, le: (T, T) -> bool)
    ensures multiset(Insert(x, s, le)) == multiset(s) + multiset{x}
  {
    if s == [] || le(x, s[0]) {
    } else {
      InsertPermutes(x, s[1..], le);
      assert s == [s[0]] + s[1..];
    }
  }

  lemma {:induction false} InsertSorted<T(!new)>(x: T, s: seq<T>, le: (T, T) -> bool)
    requires TotalPreorder(le)
    requires SortedBy(s, le)
    ensures SortedBy(Insert(x, s, le), le)
  {
    if s == [] || le(x, s[0]) {
    } else {
      InsertSorted(x, s[1..], le);
      var r := Insert(x, s[1..], le);
      InsertPermutes(x, s[1..], le);
      forall j | 0 <= j < |r| ensures le(s[0], r[j]) {
        assert r[j] in multiset(r);
        if r[j] != x {
          assert r[j] in multiset(s[1..]);
          var k :| 0 <= k < |s[1..]| && s[1..][k] == r[j];
          assert s[k + 1] == r[j];
        }
      }
    }
  }

  /** `sorted` returns a reordering of its input that is ordered by `le`. */
  lemma {:induction false} SortSpec<T(!new)>(s: seq<T>, le: (T, T) -> bool)
    requires TotalPreorder(le)
    ensures multiset(Sort(s, le)) == multiset(s)
    ensures SortedBy(Sort(s, le), le)
  {
    if s != [] {
      SortSpec(s[1..], le);
      InsertPermutes(s[0], Sort(s[1..], le), le);
      InsertSorted(s[0], Sort(s[1..], le), le);
      assert s == [s[0]] + s[1..];
    }
  }

  /** `sorted(xs, reverse=True)` for integers. */
  function SortDescending(xs: seq<int>): (r: seq<int>)
    ensures |r| == |xs|
  {
    Sort(xs, (a: int, b: int) => a >= b)
  }

  /** The descending sort is a permutation of its input, largest first. */
  lemma SortDescendingSpec(xs: seq<int>)
    ensures multiset(SortDescending(xs)) == multiset(xs)
    ensures forall i, j :: 0 <= i < j < |xs| ==> SortDescending(xs)[i] >= SortDescending(xs)[j]
  {
    var ge := (a: int, b: int) => a >= b;
    SortSpec(xs, ge);
  }

  /** `[0, 1, ..., n - 1]` */
  function Range(n: nat): (r: seq<int>)
    ensures |r| == n
    ensures forall i :: 0 <= i < n ==> r[i] == i
  {
    if n == 0 then [] else Range(n - 1) + [n - 1]
  }

  /** The key of row `a`, or 0 for a position that is not a row. */
  function KeyAt(keys: seq<int>, a: int): int
  {
    if 0 <= a < |keys| then keys[a] else 0
  }

  /** Row `a` comes no later than row `b` in `sorted(rows, key, reverse)`: its key is
      smaller (larger with `reverse`), or the keys tie and `a` came first. */
  predicate RowBefore(keys: seq<int>, reverse: bool, a: int, b: int)
  {
    var ka, kb := KeyAt(keys, a), KeyAt(keys, b);
    (if reverse then ka > kb else ka < kb) || (ka == kb && a <= b)
  }

  lemma RowBeforeIsTotalPreorder(keys: seq<int>, reverse: bool)
    ensures TotalPreorder((a: int, b: int) => RowBefore(keys, reverse, a, b))
  {
  }

  /** The positions of the rows in the order `sorted(rows, key=key, reverse=reverse)`
      puts them, where `keys[i]` is `key(rows[i])`. */
  function StableOrder(keys: seq<int>, reverse: bool): (order: seq<int>)
    ensures |order| == |keys|
  {
    Sort(Range(|keys|), (a: int, b: int) => RowBefore(keys, reverse, a, b))
  }

  /** The stable order is a permutation of the row positions; keys never decrease
      along it (never increase with `reverse`), and rows with equal keys keep their
      original relative order. */
  lemma {:induction false} StableOrderSpec(keys: seq<int>, reverse: bool)
    ensures var order := StableOrder(keys, reverse);
            && multiset(order) == multiset(Range(|keys|))
            && (forall i :: 0 <= i < |order| ==> 0 <= order[i] < |keys|)
            && (forall i, j :: 0 <= i < j < |order| ==>
                  && (if reverse then keys[order[i]] >= keys[order[j]] else keys[order[i]] <= keys[order[j]])
                  && (keys[order[i]] == keys[order[j]] ==> order[i] < order[j]))
  {
    var le := (a: int, b: int) => RowBefore(keys, reverse, a, b);
    var order := StableOrder(keys, reverse);
    RowBeforeIsTotalPreorder(keys, reverse);
    SortSpec(Range(|keys|), le);
    forall i | 0 <= i < |order| ensures 0 <= order[i] < |keys| {
      assert order[i] in multiset(Range(|keys|));
    }
    forall i, j | 0 <= i < j < |order|
      ensures order[i] != order[j]
    {
      DistinctAfterPermutation(Range(|keys|), order, i, j);
    }
  }

  /** A reordering of `Range(n)` holds no position twice. */
  lemma {:induction false} DistinctAfterPermutation(range: seq<int>, order: seq<int>, i: int, j: int)
    requires forall k :: 0 <= k < |range| ==> range[k] == k
    requires multiset(order) == multiset(range)
    requires 0 <= i < j < |order|
    ensures order[i] != order[j]
  {
    RangeCountsOnce(range, order[i]);
    RepeatCountsTwice(order, i, j);
  }

  /** A value at two positions of a sequence occurs at least twice in it. */
  lemma RepeatCountsTwice<T>(s: seq<T>, i: int, j: int)
    requires 0 <= i < j < |s|
    ensures s[i] == s[j] ==> multiset(s)[s[i]] >= 2
  {
    var rest := s[..i] + s[i + 1..];
    assert s == s[..i] + [s[i]] + s[i + 1..];
    assert s[j] == rest[j - 1];
    assert s[j] in multiset(rest);
  }

  /** Each value occurs at most once in `[0, 1, ..., n - 1]`. */
  lemma {:induction false} RangeCountsOnce(range: seq<int>, x: int)
    requires forall k :: 0 <= k < |range| ==> range[k] == k
    ensures multiset(range)[x] <= 1
    decreases |range|
  {
    if range != [] {
      var init := range[..|range| - 1];
      assert range == init + [range[|range| - 1]];
      RangeCountsOnce(init, x);
      assert |range| - 1 !in init;
    }
  }
}
