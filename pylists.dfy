/** Python list operations the table relies on: indexing with negative
    positions, `pop`, and a sequence of pops as `Table.remove` performs them. */
module PyLists {

  import opened Wrappers

  /** Where Python's `s[i]` looks in a list of length `n`: negative positions count from the end. */
  function Normalize(n: int, i: int): int
  {
    if i < 0 then i + n else i
  }

  /** Python's `s[i]`. */
  function At<T>(s: seq<T>, i: int): (r: Result<T>)
    ensures r.Ok? <==> -|s| <= i < |s|
    ensures 0 <= i < |s| ==> r == Ok(s[i])
    ensures -|s| <= i < 0 ==> r == Ok(s[|s| + i])
  {
    if -|s| <= i < |s| then Ok(s[Normalize(|s|, i)]) else Err(IndexError)
  }

  /** Python's `s.pop(i)`: the removed element and what is left of the list. */
  function Pop<T>(s: seq<T>, i: int): (r: Result<(T, seq<T>)>)
    ensures r.Ok? <==> -|s| <= i < |s|
    ensures r.Ok? ==> |r.value.1| == |s| - 1
    ensures 0 <= i < |s| ==> r == Ok((s[i], s[..i] + s[i + 1..]))
    ensures -|s| <= i < 0 ==> r == Ok((s[|s| + i], s[..|s| + i] + s[|s| + i + 1..]))
  {
    if -|s| <= i < |s| then
      var p := Normalize(|s|, i);
      Ok((s[p], s[..p] + s[p + 1..]))
    else Err(IndexError)
  }

  /** What a run of pops leaves: the rest of the list, the popped elements in
      order, and whether a pop raised (the earlier pops stay done). */
  datatype Popped<T> = Popped(rest: seq<T>, removed: seq<T>, failed: bool)

  /** `for i in idxs: removed.append(s.pop(i))`, stopping at the first pop that raises. */
  function PopAll<T>(s: seq<T>, idxs: seq<int>): (r: Popped<T>)
    ensures |r.rest| + |r.removed| == |s|
    ensures !r.failed ==> |r.removed| == |idxs|
    decreases |idxs|
  {
    if idxs == [] then Popped(s, [], false)
    else match Pop(s, idxs[0])
      case Err(_) => Popped(s, [], true)
      case Ok((x, rest)) =>
        var r := PopAll(rest, idxs[1..]);
        Popped(r.rest, [x] + r.removed, r.failed)
  }

  /** One pop of a run of pops, from position `i` of the index list on. */
  lemma PopAllStep<T>(s: seq<T>, idxs: seq<int>, i: int)
    requires 0 <= i < |idxs|
    ensures Pop(s, idxs[i]).Err? ==> PopAll(s, idxs[i..]) == Popped(s, [], true)
    ensures Pop(s, idxs[i]).Ok? ==>
              var (x, rest) := Pop(s, idxs[i]).value;
              var next := PopAll(rest, idxs[i + 1..]);
              PopAll(s, idxs[i..]) == Popped(next.rest, [x] + next.removed, next.failed)
  {
    assert idxs[i..][0] == idxs[i] && idxs[i..][1..] == idxs[i + 1..];
  }

  /** The elements among the first `n` of `s` whose positions are not in `gone`, in order. */
  function Keep<T>(s: seq<T>, gone: set<int>, n: nat): (r: seq<T>)
    requires n <= |s|
    ensures |r| <= n
  {
    if n == 0 then []
    else Keep(s, gone, n - 1) + (if n - 1 in gone then [] else [s[n - 1]])
  }

  /** The elements of `s` whose positions are not in `gone`, in their original order. */
  function Survivors<T>(s: seq<T>, gone: set<int>): seq<T>
  {
    Keep(s, gone, |s|)
  }

  /** `Keep` only looks at the first `n` elements and at which of their positions are gone. */
  lemma {:induction false} KeepLocal<T>(a: seq<T>, b: seq<T>, ga: set<int>, gb: set<int>, n: nat)
    requires n <= |a| && n <= |b|
    requires a[..n] == b[..n]
    requires forall i :: 0 <= i < n ==> (i in ga <==> i in gb)
    ensures Keep(a, ga, n) == Keep(b, gb, n)
  {
    if n > 0 {
      assert a[..n - 1] == b[..n - 1] by {
        assert a[..n - 1] == a[..n][..n - 1];
        assert b[..n - 1] == b[..n][..n - 1];
      }
      assert a[n - 1] == a[..n][n - 1];
      assert b[n - 1] == b[..n][n - 1];
      KeepLocal(a, b, ga, gb, n - 1);
    }
  }

  /** With no position of `[m, n)` gone, those elements all survive. */
  lemma {:induction false} KeepRun<T>(s: seq<T>, gone: set<int>, m: nat, n: nat)
    requires m <= n <= |s|
    requires forall i :: m <= i < n ==> i !in gone
    ensures Keep(s, gone, n) == Keep(s, gone, m) + s[m..n]
  {
    if n > m {
      KeepRun(s, gone, m, n - 1);
      assert s[m..n] == s[m..n - 1] + [s[n - 1]];
    }
  }

  /** Popping positions in strictly descending order never shifts a position
      still to be popped, so the survivors are exactly the elements at the other
      positions, and the popped elements are those at the given positions. */
  lemma {:induction false} PopDescending<T>(s: seq<T>, d: seq<int>)
    requires forall k :: 0 <= k < |d| ==> 0 <= d[k] < |s|
    requires forall k, l :: 0 <= k < l < |d| ==> d[k] > d[l]
    ensures !PopAll(s, d).failed
    ensures PopAll(s, d).rest == Survivors(s, set x | x in d)
    ensures |PopAll(s, d).removed| == |d|
    ensures forall k :: 0 <= k < |d| ==> PopAll(s, d).removed[k] == s[d[k]]
    decreases |d|
  {
    if d == [] {
      assert (set x | x in d) == {};
      KeepRun(s, {}, 0, |s|);
      assert s[0..|s|] == s;
    } else {
      var p := d[0];
      var rest := s[..p] + s[p + 1..];
      var d' := d[1..];
      assert Pop(s, p) == Ok((s[p], rest));
      PopDescending(rest, d');
      DescendingTail(d);
      SurvivorsAfterPop(s, p, set x | x in d');
      var removed' := PopAll(rest, d').removed;
      assert PopAll(s, d).removed == [s[p]] + removed';
      forall k | 1 <= k < |d| ensures PopAll(s, d).removed[k] == s[d[k]] {
        assert d'[k - 1] == d[k] && d[k] in d';
      }
    }
  }

  /** Popping position `p` leaves the elements that survive when `p` is also gone,
      as long as every other gone position lies before `p`. */
  lemma SurvivorsAfterPop<T>(s: seq<T>, p: int, gone: set<int>)
    requires 0 <= p < |s|
    requires forall x :: x in gone ==> x < p
    ensures Survivors(s[..p] + s[p + 1..], gone) == Survivors(s, gone + {p})
  {
    var rest := s[..p] + s[p + 1..];
    assert rest[..p] == s[..p];
    KeepRun(rest, gone, p, |rest|);
    KeepLocal(rest, s, gone, gone + {p}, p);
    KeepRun(s, gone + {p}, p + 1, |s|);
    assert rest[p..|rest|] == s[p + 1..|s|];
  }

  /** After the first (largest) position of a strictly descending list, every other one is smaller. */
  lemma DescendingTail(d: seq<int>)
    requires |d| > 0
    requires forall k, l :: 0 <= k < l < |d| ==> d[k] > d[l]
    ensures forall x :: x in d[1..] ==> x < d[0]
    ensures (set x | x in d) == (set x | x in d[1..]) + {d[0]}
  {
    assert d == [d[0]] + d[1..];
    forall x | x in d[1..] ensures x < d[0] {
      var k :| 0 <= k < |d[1..]| && d[1..][k] == x;
      assert d[k + 1] == x;
    }
  }
}
