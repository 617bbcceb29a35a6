/** `tbl/table.py`: a table is an ordered list of references to columns plus a
    cached row count `max_rows`. Tables may share column objects (a shallow
    clone does), so columns live on the heap and a table holds references. */
module Tables {

  import opened Wrappers
  import opened Values
  import opened TTypes
  import opened Columns
  import Helpers
  import PyLists
  import Sorting

  /** A key that picks a column: a position or a name. */
  datatype Key = Pos(i: int) | Name(s: string)

  /** The `data` argument of `addColumn`: none, a list of values, or a column. */
  datatype ColData = NoData | Raw(values: seq<Value>) | Col(c: Column)

  /** The objects `addColumn` may change besides the table: a column passed as data. */
  function Passed(data: ColData): set<Column>
  {
    if data.Col? then {data.c} else {}
  }

  /** `len(data)` */
  function DataLen(data: ColData): nat
    reads Passed(data)
  {
    match data
    case NoData => 0
    case Raw(vs) => |vs|
    case Col(c) => |c.data|
  }

  /** Python's `bool(data)`: a list or a column is false when empty, `None` always is. */
  predicate DataTruthy(data: ColData)
    reads Passed(data)
  {
    !data.NoData? && DataLen(data) > 0
  }

  /** The name `addColumn` uses: the one given, or `"col%02d"` of the column count. */
  function ColumnName(nameArg: Option<string>, count: nat): (nm: string)
    ensures Given(nameArg) ==> nm == nameArg.value
    ensures !Given(nameArg) ==> nm == "col" + Decimal2(count)
  {
    if Given(nameArg) then nameArg.value else "col" + Decimal2(count)
  }

  /** The first `i` columns of a shallow clone of `cs`, whose data is `gs`: each holds
      the data of its original, a column with data is the original itself, and an
      empty one is a new column from `made`, as `Column(name)` leaves it. */
  predicate SharedPrefix(cols: seq<Column>, cs: seq<Column>, gs: seq<seq<Value>>, made: set<Column>, i: int)
    reads cols
  {
    && |cols| == i <= |cs| == |gs|
    && forall j :: 0 <= j < i ==>
         && cols[j].data == gs[j]
         && (gs[j] != [] ==> cols[j] == cs[j])
         && (gs[j] == [] ==> cols[j] in made && Rebuilt(cols[j]))
  }

  lemma AllRebuiltSnoc(cs: seq<Column>, c: Column)
    requires AllRebuilt(cs) && Rebuilt(c)
    ensures AllRebuilt(cs + [c])
  {
  }

  /** No column object appears twice. */
  predicate Distinct(cs: seq<Column>)
  {
    forall a, b :: 0 <= a < b < |cs| ==> cs[a] != cs[b]
  }

  /** The position of the first occurrence of `s`, as `list.index` finds it. */
  function FirstIndex(names: seq<string>, s: string): (p: nat)
    requires s in names
    ensures p < |names| && names[p] == s
    ensures forall q :: 0 <= q < p ==> names[q] != s
  {
    if names[0] == s then 0 else 1 + FirstIndex(names[1..], s)
  }

  /** `index(keys)` over the column names: the first position of each key that is
      a present name, in key order; positions and absent names are skipped. */
  function IndexOf(names: seq<string>, keys: seq<Key>): (pos: seq<int>)
    ensures |pos| <= |keys|
    ensures forall k :: 0 <= k < |pos| ==> 0 <= pos[k] < |names|
  {
    if keys == [] then []
    else
      var last := keys[|keys| - 1];
      IndexOf(names, keys[..|keys| - 1]) + (if last.Name? && last.s in names then [FirstIndex(names, last.s)] else [])
  }

  /** Each position `index` returns is where the first column of a requested
      name sits; when every key is a present name, there is one position per key,
      in key order. */
  lemma {:induction false} IndexOfSpec(names: seq<string>, keys: seq<Key>)
    ensures forall k :: 0 <= k < |IndexOf(names, keys)| ==>
              Name(names[IndexOf(names, keys)[k]]) in keys &&
              IndexOf(names, keys)[k] == FirstIndex(names, names[IndexOf(names, keys)[k]])
    ensures (forall key :: key in keys ==> key.Name? && key.s in names) ==>
              |IndexOf(names, keys)| == |keys| &&
              forall k :: 0 <= k < |keys| ==> IndexOf(names, keys)[k] == FirstIndex(names, keys[k].s)
  {
    if keys != [] {
      var init := keys[..|keys| - 1];
      IndexOfSpec(names, init);
      assert forall key :: key in init ==> key in keys;
      assert keys == init + [keys[|keys| - 1]];
    }
  }

  /** `index` handles its keys one at a time: the positions for `a + b` are those for `a` followed by those for `b`. */
  lemma {:induction false} IndexOfAppend(names: seq<string>, a: seq<Key>, b: seq<Key>)
    ensures IndexOf(names, a + b) == IndexOf(names, a) + IndexOf(names, b)
    decreases |b|
  {
    if b == [] {
      assert a + b == a;
    } else {
      var init := b[..|b| - 1];
      assert (a + b)[..|a + b| - 1] == a + init;
      assert (a + b)[|a + b| - 1] == b[|b| - 1];
      IndexOfAppend(names, a, init);
    }
  }

  /** A single key gives the first position of its name when that name is present, and nothing
      when the key is a position or a name no column has. */
  lemma IndexOfSingle(names: seq<string>, key: Key)
    ensures key.Name? && key.s in names ==> IndexOf(names, [key]) == [FirstIndex(names, key.s)]
    ensures key.Pos? || key.s !in names ==> IndexOf(names, [key]) == []
  {
    assert [key][..0] == [];
  }

  /** The largest column length, or -1 for a table without columns. */
  function MaxLen(g: seq<seq<Value>>): (m: int)
    ensures m >= -1
    ensures |g| == 0 ==> m == -1
  {
    if g == [] then -1
    else
      var m := MaxLen(g[..|g| - 1]);
      if |g[|g| - 1]| > m then |g[|g| - 1]| else m
  }

  /** `max_rows` bounds every column length and is attained by some column. */
  lemma {:induction false} MaxLenSpec(g: seq<seq<Value>>)
    ensures forall j :: 0 <= j < |g| ==> |g[j]| <= MaxLen(g)
    ensures |g| > 0 ==> exists j :: 0 <= j < |g| && MaxLen(g) == |g[j]|
  {
    if g != [] {
      var init := g[..|g| - 1];
      MaxLenSpec(init);
      assert forall j :: 0 <= j < |g| - 1 ==> init[j] == g[j];
      if |g| > 1 {
        var j :| 0 <= j < |init| && MaxLen(init) == |init[j]|;
        assert MaxLen(init) == |g[j]|;
      }
    }
  }

  /** `max_rows` after `addColumn` with `data`: only non-empty data can raise it. */
  function Grow(m: int, data: seq<Value>): int
  {
    if data != [] && |data| > m then |data| else m
  }

  /** The `max_rows` of a new table once columns holding `g` are added one by one. */
  function GrownMax(g: seq<seq<Value>>): int
  {
    if g == [] then -1 else Grow(GrownMax(g[..|g| - 1]), g[|g| - 1])
  }

  /** A table built by `addColumn` keeps -1 while every column is empty, and otherwise
      reaches the true longest column length. */
  lemma {:induction false} GrownMaxSpec(g: seq<seq<Value>>)
    ensures (forall j :: 0 <= j < |g| ==> g[j] == []) ==> GrownMax(g) == -1
    ensures (exists j :: 0 <= j < |g| && g[j] != []) ==> GrownMax(g) == MaxLen(g)
  {
    if g != [] {
      var init := g[..|g| - 1];
      GrownMaxSpec(init);
      MaxLenSpec(init);
      assert forall j :: 0 <= j < |init| ==> init[j] == g[j];
      if exists j :: 0 <= j < |init| && init[j] != [] {
        var j :| 0 <= j < |init| && init[j] != [];
        assert |init[j]| <= MaxLen(init);
      }
    }
  }

  lemma GrownMaxSnoc(g: seq<seq<Value>>, data: seq<Value>)
    ensures GrownMax(g + [data]) == Grow(GrownMax(g), data)
  {
    assert (g + [data])[..|g|] == g;
  }

  /** The kind `addData` gives a new column holding `data`: that of its first value. */
  function InferredKind(data: seq<Value>): Option<Kind>
  {
    if data != [] && GetType(data[0]).Ok? then Some(GetType(data[0]).value) else None
  }

  /** A column as `Column(name).addData(data)` leaves it: the kind of its first value,
      and neither a format nor a description. */
  predicate Rebuilt(c: Column)
    reads c
  {
    c.ctype == InferredKind(c.data) && c.fmt == None && c.desc == None
  }

  predicate AllRebuilt(cs: seq<Column>)
    reads cs
  {
    forall j :: 0 <= j < |cs| ==> Rebuilt(cs[j])
  }

  /** Every entry of a row has a known type. */
  predicate Typeable(row: seq<Value>)
  {
    forall e :: e in row ==> GetType(e).Ok?
  }

  /** The row positions `table(*args)` may select: those of the one list, or those common to all. */
  predicate Candidate(args: seq<seq<int>>, x: int)
  {
    if |args| == 1 then x in args[0] else InAll(args, x)
  }

  /** Every column has the length of the first one (vacuously so with no columns). */
  predicate IsSquareGrid(g: seq<seq<Value>>)
  {
    forall j :: 0 <= j < |g| ==> |g[j]| == |g[0]|
  }

  /** In a square table the cached row count is the common column length. */
  lemma SquareMaxLen(g: seq<seq<Value>>)
    requires IsSquareGrid(g) && |g| > 0
    ensures MaxLen(g) == |g[0]|
  {
    MaxLenSpec(g);
  }

  /** `row(idx)` over the first `n` columns: each column's element at `idx`
      (Python indexing, so a negative `idx` counts from the end and may raise),
      or `None` where the column is not longer than `idx`. */
  function RowPrefix(g: seq<seq<Value>>, idx: int, n: nat): (r: Result<seq<Value>>)
    requires n <= |g|
    ensures r.Ok? ==> |r.value| == n
  {
    if n == 0 then Ok([])
    else match RowPrefix(g, idx, n - 1)
      case Err(e) => Err(e)
      case Ok(init) =>
        if idx < |g[n - 1]| then
          match PyLists.At(g[n - 1], idx)
          case Err(e) => Err(e)
          case Ok(v) => Ok(init + [v])
        else Ok(init + [Null])
  }

  function RowAt(g: seq<seq<Value>>, idx: int): Result<seq<Value>>
  {
    RowPrefix(g, idx, |g|)
  }

  /** A row has one entry per column: the column's element, or `None` where the
      column is too short. It fails only for a negative position beyond the start
      of some column. */
  lemma {:induction false} RowPrefixSpec(g: seq<seq<Value>>, idx: int, n: nat)
    requires n <= |g|
    ensures RowPrefix(g, idx, n).Ok? <==> forall j :: 0 <= j < n ==> -|g[j]| <= idx
    ensures RowPrefix(g, idx, n).Ok? ==> forall j :: 0 <= j < n ==>
              RowPrefix(g, idx, n).value[j] == (if idx < |g[j]| then PyLists.At(g[j], idx).value else Null)
  {
    if n > 0 {
      RowPrefixSpec(g, idx, n - 1);
    }
  }

  /** `rows` lets through `idx == max_rows`, which lies past every column: that row is all `None`. */
  lemma RowAtMaxRowsIsEmpty(g: seq<seq<Value>>)
    ensures RowAt(g, MaxLen(g)).Ok?
    ensures forall j :: 0 <= j < |g| ==> RowAt(g, MaxLen(g)).value[j] == Null
  {
    MaxLenSpec(g);
    RowPrefixSpec(g, MaxLen(g), |g|);
  }

  /** The rows of a square table, row `i` holding every column's element `i`. */
  function RowsOf(g: seq<seq<Value>>): (rows: seq<seq<Value>>)
    requires IsSquareGrid(g)
    ensures |g| > 0 ==> |rows| == |g[0]|
    ensures forall i :: 0 <= i < |rows| ==> |rows[i]| == |g|
    ensures forall i, j :: 0 <= i < |rows| && 0 <= j < |g| ==> rows[i][j] == g[j][i]
  {
    if |g| == 0 then []
    else seq(|g[0]|, i requires 0 <= i < |g[0]| => seq(|g|, j requires 0 <= j < |g| => g[j][i]))
  }

  /** `key(row)` for each row. */
  function RowKeys(rows: seq<seq<Value>>, key: seq<Value> -> int): (keys: seq<int>)
    ensures |keys| == |rows|
    ensures forall i :: 0 <= i < |rows| ==> keys[i] == key(rows[i])
  {
    seq(|rows|, i requires 0 <= i < |rows| => key(rows[i]))
  }

  /** Python's `sorted(rows, key=key, reverse=reverse)`: the same rows, reordered. */
  function SortedRows(rows: seq<seq<Value>>, key: seq<Value> -> int, reverse: bool): (r: seq<seq<Value>>)
    ensures |r| == |rows|
    ensures forall k :: 0 <= k < |r| ==> r[k] in rows
  {
    var keys := RowKeys(rows, key);
    Sorting.StableOrderSpec(keys, reverse);
    var order := Sorting.StableOrder(keys, reverse);
    seq(|order|, k requires 0 <= k < |order| => rows[order[k]])
  }

  /** Where each row of a square table comes from under `sorted(rows, key=key, reverse=reverse)`. */
  function SortOrder(g: seq<seq<Value>>, key: seq<Value> -> int, reverse: bool): (order: seq<int>)
    requires IsSquareGrid(g)
    ensures |order| == |RowsOf(g)|
    ensures forall i :: 0 <= i < |order| ==> 0 <= order[i] < |RowsOf(g)|
  {
    Sorting.StableOrderSpec(RowKeys(RowsOf(g), key), reverse);
    Sorting.StableOrder(RowKeys(RowsOf(g), key), reverse)
  }

  /** The columns after `sort`: column `j` holds, at row `i`, its old element at row `order[i]`. */
  function SortedGrid(g: seq<seq<Value>>, key: seq<Value> -> int, reverse: bool): (s: seq<seq<Value>>)
    requires IsSquareGrid(g)
    ensures |s| == |g|
    ensures forall j :: 0 <= j < |g| ==> |s[j]| == |g[j]|
  {
    var order := SortOrder(g, key, reverse);
    seq(|g|, j requires 0 <= j < |g| => seq(|order|, i requires 0 <= i < |order| => g[j][order[i]]))
  }

  /** `sort` permutes whole rows, the same way in every column: the new row `i` is
      the old row `order[i]` for a reordering `order` of the rows, keys never
      decrease along the new rows (never increase with `reverse`), and rows with
      equal keys keep their relative order. */
  lemma SortedGridSpec(g: seq<seq<Value>>, key: seq<Value> -> int, reverse: bool)
    requires IsSquareGrid(g) && |g| > 0
    ensures var s := SortedGrid(g, key, reverse);
            var order := SortOrder(g, key, reverse);
            && IsSquareGrid(s)
            && multiset(order) == multiset(Sorting.Range(|g[0]|))
            && (forall i :: 0 <= i < |order| ==> RowsOf(s)[i] == RowsOf(g)[order[i]])
            && (forall i, k :: 0 <= i < k < |order| ==>
                  && (if reverse then key(RowsOf(s)[i]) >= key(RowsOf(s)[k]) else key(RowsOf(s)[i]) <= key(RowsOf(s)[k]))
                  && (key(RowsOf(s)[i]) == key(RowsOf(s)[k]) ==> order[i] < order[k]))
  {
    var rows := RowsOf(g);
    Sorting.StableOrderSpec(RowKeys(rows, key), reverse);
    var s := SortedGrid(g, key, reverse);
    var order := SortOrder(g, key, reverse);
    forall i | 0 <= i < |order| ensures RowsOf(s)[i] == rows[order[i]] {
      assert |RowsOf(s)[i]| == |rows[order[i]]|;
    }
  }

  /** Writing the sorted rows back column by column gives `SortedGrid`. */
  lemma SortedRowsOfGrid(g: seq<seq<Value>>, key: seq<Value> -> int, reverse: bool)
    requires IsSquareGrid(g) && |g| > 0
    ensures var sorted := SortedRows(RowsOf(g), key, reverse);
            && |sorted| == |g[0]|
            && (forall k :: 0 <= k < |sorted| ==> |sorted[k]| == |g|)
            && (forall k, j :: 0 <= k < |sorted| && 0 <= j < |g| ==> sorted[k][j] == SortedGrid(g, key, reverse)[j][k])
            && (forall a, b :: 0 <= a < |g| && 0 <= b < |g| && g[a] == g[b] ==> SortedGrid(g, key, reverse)[a] == SortedGrid(g, key, reverse)[b])
  {
    var rows := RowsOf(g);
    Sorting.StableOrderSpec(RowKeys(rows, key), reverse);
  }

  /** `_intersect(args)` as a set: the values every list contains. */
  predicate InAll(args: seq<seq<int>>, x: int)
  {
    forall k :: 0 <= k < |args| ==> x in args[k]
  }

  /** `convert`'s handling of its type list: every tag must be known, a list shorter
      than the column list is padded with copies of its last tag (an empty one has
      no last tag), and a longer one is refused. */
  function PaddedTypes(colIdx: seq<int>, types: seq<string>): (r: Result<seq<string>>)
    ensures (exists t :: t in types && !IsTypeStr(t)) ==> r == Err(AssertionFailed)
    ensures r.Ok? ==> |r.value| == |colIdx| && |types| <= |colIdx| && (types == [] ==> colIdx == [])
    ensures r.Ok? ==> r.value[..|types|] == types
    ensures r.Ok? ==> forall k :: |types| <= k < |r.value| ==> r.value[k] == types[|types| - 1]
    ensures r.Ok? ==> forall t :: t in r.value ==> IsTypeStr(t)
    ensures (forall t :: t in types ==> IsTypeStr(t)) ==>
              (r.Ok? <==> |types| == |colIdx| || 0 < |types| < |colIdx|)
    ensures (forall t :: t in types ==> IsTypeStr(t)) && types == [] && colIdx != [] ==> r == Err(IndexError)
  {
    if exists t :: t in types && !IsTypeStr(t) then Err(AssertionFailed)
    else if |types| < |colIdx| then
      if types == [] then Err(IndexError)
      else Ok(types + seq(|colIdx| - |types|, _ => types[|types| - 1]))
    else if |types| == |colIdx| then Ok(types)
    else Err(AssertionFailed)
  }

  /** The format `setFormatStr` gives a column of kind `k`; an untyped column keeps its own. */
  function FormatFor(k: Option<Kind>, fmtInt: Option<string>, fmtFloat: Option<string>,
                     fmtDate: Option<string>, fmtStr: Option<string>, current: Option<string>): Option<string>
  {
    match k
    case None => current
    case Some(I) => fmtInt
    case Some(F) => fmtFloat
    case Some(D) => fmtDate
    case Some(S) => fmtStr
  }

  /** The positions `remove(keys)` pops, before sorting: by name when the first
      key is a name, as given when all are positions. A list mixing positions and
      names that starts with a position makes `sorted` compare an int with a
      string; an empty list has no first key. */
  function RemovalPositions(names: seq<string>, keys: seq<Key>): (r: Result<seq<int>>)
    ensures keys == [] ==> r == Err(IndexError)
    ensures keys != [] && keys[0].Name? ==> r == Ok(IndexOf(names, keys))
    ensures keys != [] && keys[0].Pos? ==>
              if forall k :: k in keys ==> k.Pos? then r.Ok? && |r.value| == |keys| && forall k :: 0 <= k < |keys| ==> r.value[k] == keys[k].i
              else r == Err(TypeError)
  {
    if keys == [] then Err(IndexError)
    else if keys[0].Name? then Ok(IndexOf(names, keys))
    else if forall k :: k in keys ==> k.Pos? then Ok(seq(|keys|, k requires 0 <= k < |keys| => keys[k].i))
    else Err(TypeError)
  }

  /** Removing distinct positions that all exist pops them in descending order,
      which never shifts a position still to be popped: the table loses exactly
      those columns, the others keep their order, and the popped columns are
      those at the given positions, largest position first. */
  lemma RemoveDistinctPositions(cs: seq<Column>, positions: seq<int>)
    requires forall k :: 0 <= k < |positions| ==> 0 <= positions[k] < |cs|
    requires forall a, b :: 0 <= a < b < |positions| ==> positions[a] != positions[b]
    ensures var d := Sorting.SortDescending(positions);
            var popped := PyLists.PopAll(cs, d);
            && !popped.failed
            && popped.rest == PyLists.Survivors(cs, set p | p in positions)
            && |popped.rest| == |cs| - |positions|
            && multiset(d) == multiset(positions)
            && |popped.removed| == |positions|
            && forall k :: 0 <= k < |d| ==> 0 <= d[k] < |cs| && popped.removed[k] == cs[d[k]]
  {
    var d := Sorting.SortDescending(positions);
    DescendingDistinct(positions, |cs|);
    PyLists.PopDescending(cs, d);
  }

  /** Sorting distinct positions in descending order makes them strictly descending,
      keeps them in range, and keeps the same set of positions. */
  lemma DescendingDistinct(positions: seq<int>, n: int)
    requires forall k :: 0 <= k < |positions| ==> 0 <= positions[k] < n
    requires forall a, b :: 0 <= a < b < |positions| ==> positions[a] != positions[b]
    ensures var d := Sorting.SortDescending(positions);
            && multiset(d) == multiset(positions)
            && (forall k :: 0 <= k < |d| ==> 0 <= d[k] < n)
            && (forall a, b :: 0 <= a < b < |d| ==> d[a] > d[b])
            && (set p | p in d) == (set p | p in positions)
  {
    var d := Sorting.SortDescending(positions);
    Sorting.SortDescendingSpec(positions);
    forall k | 0 <= k < |d| ensures 0 <= d[k] < n {
      assert d[k] in multiset(positions);
    }
    forall a, b | 0 <= a < b < |d| ensures d[a] > d[b] {
      Sorting.RepeatCountsTwice(d, a, b);
      DistinctCountsOnce(positions, d[a]);
    }
    forall p ensures p in positions <==> p in d {
      assert p in positions <==> p in multiset(positions);
      assert p in d <==> p in multiset(d);
    }
  }

  /** A sequence without repeats holds each value at most once. */
  lemma {:induction false} DistinctCountsOnce(s: seq<int>, x: int)
    requires forall a, b :: 0 <= a < b < |s| ==> s[a] != s[b]
    ensures multiset(s)[x] <= 1
  {
    if s != [] {
      var init := s[..|s| - 1];
      assert s == init + [s[|s| - 1]];
      DistinctCountsOnce(init, x);
      assert s[|s| - 1] !in init;
    }
  }

  /** The names of the given columns, in order. */
  function NamesOf(cs: seq<Column>): (r: seq<string>)
    reads cs
    ensures |r| == |cs|
    ensures forall i :: 0 <= i < |cs| ==> r[i] == cs[i].name
  {
    seq(|cs|, i requires 0 <= i < |cs| reads cs => cs[i].name)
  }

  /** Adding a column to a list of columns adds its name and its data. */
  lemma Snoc(cs: seq<Column>, c: Column)
    ensures NamesOf(cs + [c]) == NamesOf(cs) + [c.name]
    ensures DataOf(cs + [c]) == DataOf(cs) + [c.data]
  {
  }

  /** The column objects in `cs`. */
  function Members(cs: seq<Column>): set<Column>
  {
    set c | c in cs
  }

  lemma MembersSnoc(cs: seq<Column>, c: Column)
    ensures Members(cs + [c]) == Members(cs) + {c}
  {
  }

  /** The data of the given columns, in order. */
  function DataOf(cs: seq<Column>): (g: seq<seq<Value>>)
    reads cs
    ensures |g| == |cs|
    ensures forall j :: 0 <= j < |cs| ==> g[j] == cs[j].data
  {
    seq(|cs|, j requires 0 <= j < |cs| reads cs => cs[j].data)
  }

  class Table {
    var name: string
    var cols: seq<Column>
    var maxRows: int            // `max_rows`: a cache, refreshed by some operations only
    var desc: Option<string>

    constructor(name: string)
      ensures this.name == name && cols == [] && maxRows == -1 && desc == None
    {
      this.name := name;
      cols := [];
      maxRows := -1;
      desc := None;
    }

    /** `names()`: the column names in column order. */
    function Names(): (r: seq<string>)
      reads this`cols, cols
      ensures |r| == |cols|
      ensures forall i :: 0 <= i < |cols| ==> r[i] == cols[i].name
    {
      NamesOf(cols)
    }

    /** The columns are new ones, as `addColumn` of a list builds them, and `max_rows`
        is what those calls leave. */
    predicate AsBuilt()
      reads this`cols, this`maxRows, cols
    {
      AllRebuilt(cols) && maxRows == GrownMax(Data())
    }

    /** The data of every column, in column order. */
    function Data(): (g: seq<seq<Value>>)
      reads this`cols, cols
      ensures |g| == |cols|
      ensures forall j :: 0 <= j < |cols| ==> g[j] == cols[j].data
    {
      DataOf(cols)
    }

    /** `all()`: the positions of all columns. */
    function All(): (r: seq<int>)
      reads this`cols
      ensures |r| == |cols|
      ensures forall i :: 0 <= i < |r| ==> r[i] == i
    {
      Sorting.Range(|cols|)
    }

    /** `hasColumn(key)`: a position must lie in `[0, ncols)`; a name must be some column's. */
    function HasColumn(key: Key): (b: bool)
      reads this`cols, cols
      ensures key.Pos? ==> (b <==> 0 <= key.i < |cols|)
      ensures key.Name? ==> (b <==> exists i :: 0 <= i < |cols| && cols[i].name == key.s)
    {
      match key
      case Pos(i) => 0 <= i < |cols|
      case Name(s) => s in Names()
    }

    /** The position `key` designates: itself, or the first column of that name. */
    function PositionOf(key: Key): (p: int)
      requires HasColumn(key)
      reads this`cols, cols
      ensures 0 <= p < |cols|
      ensures key.Pos? ==> p == key.i
      ensures key.Name? ==> cols[p].name == key.s && forall q :: 0 <= q < p ==> cols[q].name != key.s
    {
      match key
      case Pos(i) => i
      case Name(s) => FirstIndex(Names(), s)
    }

    /** `table[key]`: the column at a position, or the first column with a name;
        `None` when there is none. */
    function GetItem(key: Key): (r: Option<Column>)
      reads this`cols, cols
      ensures r.Some? <==> HasColumn(key)
      ensures r.Some? ==> r.value == cols[PositionOf(key)]
    {
      if HasColumn(key) then Some(cols[PositionOf(key)]) else None
    }

    /** `ncols()` */
    function NCols(): (n: nat)
      reads this`cols
      ensures n == |cols|
    {
      |cols|
    }

    /** `nrows()`: the cached row count, which may be stale. */
    function NRows(): (n: int)
      reads this`maxRows
      ensures n == maxRows
    {
      maxRows
    }

    /** `addColumn(name, data, allowRepetition)`: the new column goes last. It is
        named `name`, or `"col%02d"` of the column count. A name already present
        fails unless repetition is allowed. A non-empty column passed as data is
        itself added (and renamed); a non-empty list becomes a new column holding
        it; anything empty adds a new empty column. Only non-empty data can raise
        `max_rows`. */
    method AddColumn(nameArg: Option<string>, data: ColData, allowRepetition: bool) returns (r: Result<()>)
      modifies this`cols, this`maxRows, Passed(data)`name
      ensures var nm := ColumnName(nameArg, |old(cols)|);
              && (nm in old(Names()) && !allowRepetition ==> r == Err(AssertionFailed))
              && (!(nm in old(Names()) && !allowRepetition) ==>
                    (r.Ok? <==> !(data.Raw? && data.values != [] && GetType(data.values[0]).Err?)))
              && (r.Ok? ==> |cols| == |old(cols)| + 1 && cols[..|old(cols)|] == old(cols) && cols[|old(cols)|].name == nm)
      ensures r.Err? ==> cols == old(cols) && maxRows == old(maxRows)
      ensures data.Col? && !(r.Ok? && old(DataTruthy(data))) ==> data.c.name == old(data.c.name)
      ensures r.Ok? ==> maxRows == (if old(DataTruthy(data)) && old(DataLen(data)) > old(maxRows) then old(DataLen(data)) else old(maxRows))
      ensures r.Ok? && data.Col? && old(DataTruthy(data)) ==> cols[|old(cols)|] == data.c
      ensures r.Ok? && data.Raw? && data.values != [] ==>
                && fresh(cols[|old(cols)|])
                && cols[|old(cols)|].data == data.values
                && cols[|old(cols)|].ctype == Some(GetType(data.values[0]).value)
                && cols[|old(cols)|].fmt == None && cols[|old(cols)|].desc == None
      ensures r.Ok? && !old(DataTruthy(data)) ==>
                && fresh(cols[|old(cols)|])
                && cols[|old(cols)|].data == [] && cols[|old(cols)|].ctype == None
                && cols[|old(cols)|].fmt == None && cols[|old(cols)|].desc == None
    {
      var nm := ColumnName(nameArg, |cols|);
      if HasColumn(Name(nm)) && !allowRepetition {
        return Err(AssertionFailed);
      }
      var truthy := DataTruthy(data);
      var n := DataLen(data);
      if data.Col? && truthy {
        data.c.name := nm;
        cols := cols + [data.c];
      } else if truthy {
        var c := new Column(nm, None);
        var added := c.AddData(data.values, None);
        if added.Err? {
          return Err(added.error);
        }
        cols := cols + [c];
      } else {
        var c := new Column(nm, None);
        cols := cols + [c];
      }
      if truthy {
        maxRows := if maxRows >= n then maxRows else n;
      }
      return Ok(());
    }

    /** `addColumn(name, values)` with a list of values, as `select` and `table` call it. */
    method AddList(nm: string, values: seq<Value>) returns (r: Result<()>)
      modifies this`cols, this`maxRows
      ensures r.Err? ==> cols == old(cols)
      ensures r.Ok? ==>
                && |cols| == |old(cols)| + 1
                && cols == old(cols) + [cols[|old(cols)|]]
                && fresh(cols[|old(cols)|])
                && Names() == old(Names()) + [ColumnName(Some(nm), |old(cols)|)]
                && Data() == old(Data()) + [values]
                && Rebuilt(cols[|old(cols)|])
                && maxRows == Grow(old(maxRows), values)
      ensures ColumnName(Some(nm), |old(cols)|) !in old(Names()) && (values != [] ==> GetType(values[0]).Ok?) ==> r.Ok?
    {
      ghost var before := cols;
      r := AddColumn(Some(nm), Raw(values), false);
      if r.Ok? {
        var c := cols[|before|];
        assert cols == before + [c];
        Snoc(before, c);
      }
    }

    /** `addColumn(col.name, col)` with an existing column, as `clone` calls it. */
    method AddShared(c: Column) returns (r: Result<()>)
      modifies this`cols, this`maxRows, c`name
      ensures r.Err? ==> cols == old(cols)
      ensures r.Ok? ==>
                && |cols| == |old(cols)| + 1
                && (forall k :: 0 <= k < |old(cols)| ==> cols[k] == old(cols)[k])
                && cols[|old(cols)|].name == ColumnName(Some(old(c.name)), |old(cols)|)
                && (old(c.data) != [] ==> cols[|old(cols)|] == c)
                && (old(c.data) == [] ==> fresh(cols[|old(cols)|]) && cols[|old(cols)|].data == [])
                && (old(c.data) == [] ==> Rebuilt(cols[|old(cols)|]))
                && cols[|old(cols)|].data == old(c.data)
                && maxRows == Grow(old(maxRows), old(c.data))
      ensures old(c.name) != "" ==> c.name == old(c.name)
      ensures old(c.name) != "" && old(c.name) !in old(Names()) ==> r.Ok?
    {
      r := AddColumn(Some(c.name), Col(c), false);
      assert r.Ok? ==> cols[..|old(cols)|] == old(cols);
    }

    /** The loop of a shallow `clone`, run on the new table: `addColumn(col.name, col)`
        for each column in turn. A column with data is shared and an empty one is
        replaced by a new empty column; with named, distinct columns every column
        keeps its name and nothing fails. */
    method ShareAll(cs: seq<Column>) returns (r: Result<()>)
      requires cols == [] && maxRows == -1
      modifies this`cols, this`maxRows, Members(cs)`name
      ensures r.Ok? ==>
                && |cols| == |cs|
                && Data() == old(DataOf(cs)) && maxRows == GrownMax(Data())
                && (forall j :: 0 <= j < |cs| && |cs[j].data| > 0 ==> cols[j] == cs[j])
                && (forall j :: 0 <= j < |cs| && |cs[j].data| == 0 ==> fresh(cols[j]) && Rebuilt(cols[j]))
      ensures Labelled(old(NamesOf(cs))) ==>
                && r.Ok?
                && NamesOf(cs) == old(NamesOf(cs))
                && NamesOf(cols) == NamesOf(cs)
    {
      ghost var names := NamesOf(cs);
      ghost var gs := DataOf(cs);
      ghost var made: set<Column> := {};
      var i := 0;
      while i < |cs|
        invariant 0 <= i <= |cs|
        invariant forall j :: 0 <= j < |cs| ==> cs[j].data == gs[j]
        invariant SharedPrefix(cols, cs, gs, made, i) && fresh(made)
        invariant maxRows == GrownMax(gs[..i])
        invariant Labelled(names) ==> NamesOf(cs) == names && forall j :: 0 <= j < i ==> cols[j].name == names[j]
      {
        var step, added := ShareAt(cs, gs, names, made, i);
        if step.Err? {
          return Err(step.error);
        }
        made := made + added;
        i := i + 1;
      }
      assert gs[..i] == gs;
      return Ok(());
    }

    /** One step of a shallow `clone`: `addColumn(col.name, col)` for column `i` of `cs`. */
    method ShareAt(cs: seq<Column>, ghost gs: seq<seq<Value>>, ghost names: seq<string>, ghost made: set<Column>, i: int)
      returns (r: Result<()>, ghost added: set<Column>)
      requires 0 <= i < |cs| == |gs|
      requires forall j :: 0 <= j < |cs| ==> cs[j].data == gs[j] && cs[j] !in made
      requires SharedPrefix(cols, cs, gs, made, i)
      requires maxRows == GrownMax(gs[..i])
      requires Labelled(names) ==> NamesOf(cs) == names && forall j :: 0 <= j < i ==> cols[j].name == names[j]
      modifies this`cols, this`maxRows, {cs[i]}`name
      ensures r.Ok? ==>
                && fresh(added)
                && SharedPrefix(cols, cs, gs, made + added, i + 1)
                && maxRows == GrownMax(gs[..i + 1])
      ensures Labelled(names) ==>
                && r.Ok?
                && NamesOf(cs) == names
                && forall j :: 0 <= j < i + 1 ==> cols[j].name == names[j]
    {
      added := {};
      var col := cs[i];
      if Labelled(names) {
        forall j | 0 <= j < i ensures Names()[j] != col.name {
          assert Names()[j] == names[j] && col.name == names[i];
        }
      }
      ghost var before := cols;
      ghost var nowNames := NamesOf(cs);
      r := AddShared(col);
      if r.Err? {
        return;
      }
      if gs[i] == [] {
        added := {cols[i]};
      }
      assert gs[..i + 1] == gs[..i] + [gs[i]];
      GrownMaxSnoc(gs[..i], gs[i]);
      assert forall j :: 0 <= j < i ==> cols[j] == before[j];
      if Labelled(names) {
        forall j | 0 <= j < |cs| ensures NamesOf(cs)[j] == names[j] {
          if j != i {
            assert cs[j] != col by {
              assert nowNames[j] != nowNames[i];
            }
          }
        }
      }
    }

    /** `index(keys)`: the position of the first column of each requested name, in key order. */
    method Index(keys: seq<Key>) returns (pos: seq<int>)
      ensures pos == IndexOf(Names(), keys)
    {
      var ids := Names();
      pos := [];
      var i := 0;
      while i < |keys|
        invariant 0 <= i <= |keys|
        invariant pos == IndexOf(ids, keys[..i])
      {
        var k := keys[i];
        assert keys[..i + 1][..i] == keys[..i];
        if k.Name? && k.s in ids {
          pos := pos + [FirstIndex(ids, k.s)];
        }
        i := i + 1;
      }
      assert keys[..i] == keys;
    }

    /** The columns `at(keys)` returns for the first `n` keys: those that exist and are
        not empty (an empty column is false in Python), in key order. */
    function Found(keys: seq<Key>, n: nat): (r: seq<Column>)
      requires n <= |keys|
      reads this`cols, cols
      ensures |r| <= n
    {
      if n == 0 then []
      else
        var c := GetItem(keys[n - 1]);
        Found(keys, n - 1) + (if c.Some? && |c.value.data| > 0 then [c.value] else [])
    }

    /** `at` returns exactly the non-empty columns the keys designate: every column it
        returns is a non-empty column of the table, and every key that designates a
        non-empty column contributes that column. */
    lemma {:induction false} FoundSpec(keys: seq<Key>, n: nat)
      requires n <= |keys|
      ensures forall c :: c in Found(keys, n) ==> c in cols && |c.data| > 0
      ensures forall k :: 0 <= k < n && GetItem(keys[k]).Some? && |GetItem(keys[k]).value.data| > 0 ==>
                GetItem(keys[k]).value in Found(keys, n)
    {
      if n > 0 {
        FoundSpec(keys, n - 1);
      }
    }

    /** `at(keys)`: the existing, non-empty columns the keys designate, in key order. */
    method At(keys: seq<Key>) returns (r: seq<Column>)
      ensures r == Found(keys, |keys|)
    {
      r := [];
      var i := 0;
      while i < |keys|
        invariant 0 <= i <= |keys|
        invariant r == Found(keys, i)
      {
        var c := GetItem(keys[i]);
        assert Found(keys, i + 1) == Found(keys, i) + (if c.Some? && |c.value.data| > 0 then [c.value] else []);
        if c.Some? && |c.value.data| > 0 {
          r := r + [c.value];
        }
        i := i + 1;
      }
    }

    /** `pop(key)`: removes and returns the designated column, or returns `None`
        and changes nothing. `max_rows` is left as it was. */
    method Pop(key: Key) returns (r: Option<Column>)
      modifies this`cols
      ensures r.Some? <==> old(HasColumn(key))
      ensures r.None? ==> cols == old(cols)
      ensures r.Some? ==> var p := old(PositionOf(key));
                r.value == old(cols)[p] && cols == old(cols)[..p] + old(cols)[p + 1..]
    {
      if !HasColumn(key) {
        return None;
      }
      var p: int;
      if key.Pos? {
        p := key.i;
      } else {
        var idx := Index([key]);
        assert [key][..1] == [key] && [key][..0] == [];
        p := idx[0];
      }
      var popped := PyLists.Pop(cols, p);
      cols := popped.value.1;
      return Some(popped.value.0);
    }

    /** `remove(keys)`: pops the designated positions in descending order and returns
        the popped columns. A pop out of range raises, leaving the earlier pops done. */
    method Remove(keys: seq<Key>) returns (r: Result<seq<Column>>)
      modifies this`cols
      ensures var positions := RemovalPositions(old(Names()), keys);
              && (positions.Err? ==> r == Err(positions.error) && cols == old(cols))
              && (positions.Ok? ==>
                    var popped := PyLists.PopAll(old(cols), Sorting.SortDescending(positions.value));
                    && cols == popped.rest
                    && (r.Ok? <==> !popped.failed)
                    && (r.Ok? ==> r.value == popped.removed)
                    && (r.Err? ==> r.error == IndexError))
    {
      var positions: seq<int>;
      if keys == [] {
        return Err(IndexError);
      } else if keys[0].Name? {
        positions := Index(keys);
      } else if forall k :: k in keys ==> k.Pos? {
        positions := seq(|keys|, k requires 0 <= k < |keys| => keys[k].i);
      } else {
        return Err(TypeError);
      }
      var idxs := Sorting.SortDescending(positions);
      r := PopEach(idxs);
    }

    /** The loop of `remove`: `cols.pop(idx)` for each position in turn, stopping at
        the first that raises. */
    method PopEach(idxs: seq<int>) returns (r: Result<seq<Column>>)
      modifies this`cols
      ensures var popped := PyLists.PopAll(old(cols), idxs);
              && cols == popped.rest
              && (r.Ok? <==> !popped.failed)
              && (r.Ok? ==> r.value == popped.removed)
              && (r.Err? ==> r.error == IndexError)
    {
      ghost var all := PyLists.PopAll(cols, idxs);
      var removed: seq<Column> := [];
      var i := 0;
      while i < |idxs|
        invariant 0 <= i <= |idxs|
        invariant all == PyLists.Popped(PyLists.PopAll(cols, idxs[i..]).rest,
                                        removed + PyLists.PopAll(cols, idxs[i..]).removed,
                                        PyLists.PopAll(cols, idxs[i..]).failed)
      {
        ghost var cs := cols;
        var popped := PyLists.Pop(cols, idxs[i]);
        PyLists.PopAllStep(cs, idxs, i);
        if popped.Err? {
          return Err(IndexError);
        }
        ghost var next := PyLists.PopAll(popped.value.1, idxs[i + 1..]);
        assert removed + ([popped.value.0] + next.removed) == (removed + [popped.value.0]) + next.removed;
        cols := popped.value.1;
        removed := removed + [popped.value.0];
        i := i + 1;
      }
      assert idxs[i..] == [];
      return Ok(removed);
    }

    /** `__setMaxRows()`: the longest column length, -1 without columns. */
    method SetMaxRows()
      modifies this`maxRows
      ensures maxRows == MaxLen(Data())
    {
      ghost var g := Data();
      maxRows := -1;
      var i := 0;
      while i < |cols|
        invariant 0 <= i <= |cols|
        invariant maxRows == MaxLen(g[..i])
      {
        assert g[..i + 1][..i] == g[..i];
        if |cols[i].data| > maxRows {
          maxRows := |cols[i].data|;
        }
        i := i + 1;
      }
      assert g[..i] == g;
    }

    /** `isSquare()`: every column has the first column's length. */
    method IsSquare() returns (b: bool)
      ensures b <==> IsSquareGrid(Data())
    {
      if |cols| > 0 {
        var n := |cols[0].data|;
        var i := 0;
        while i < |cols|
          invariant 0 <= i <= |cols|
          invariant forall j :: 0 <= j < i ==> |cols[j].data| == n
        {
          if |cols[i].data| != n {
            return false;
          }
          i := i + 1;
        }
      }
      return true;
    }

    /** `append(other)`: both tables must have as many columns; column `i` then gets
        `other`'s column `i` added with `addData`, which fails on an empty or
        mismatched one (the columns before it stay extended). Afterwards `max_rows`
        is recomputed. The contents are stated when no column object is shared
        between two positions. */
    method Append(other: Table) returns (r: Result<()>)
      modifies this`maxRows, cols`data, cols`ctype
      ensures |old(cols)| != |old(other.cols)| ==> r == Err(AssertionFailed) && Data() == old(Data()) && maxRows == old(maxRows)
      ensures r.Ok? ==> maxRows == MaxLen(Data())
      ensures r.Err? ==> maxRows == old(maxRows)
      ensures forall j :: 0 <= j < |cols| ==>
                cols[j].name == old(cols[j].name) && cols[j].fmt == old(cols[j].fmt) && cols[j].desc == old(cols[j].desc)
      ensures |old(cols)| == |old(other.cols)| && Unshared(old(cols), old(other.cols)) ==>
                && (r.Ok? <==> forall j :: 0 <= j < |cols| ==>
                      AddedData(old(cols[j].data), old(cols[j].ctype), old(other.cols[j].data), None).Ok?)
                && (r.Ok? ==> forall j :: 0 <= j < |cols| ==>
                      cols[j].data == old(cols[j].data) + old(other.cols[j].data) &&
                      cols[j].ctype == Some(AddedData(old(cols[j].data), old(cols[j].ctype), old(other.cols[j].data), None).value.1))
    {
      if |cols| != |other.cols| {
        return Err(AssertionFailed);
      }
      r := AppendEach(other);
      if r.Ok? {
        SetMaxRows();
      }
    }

    /** The loop of `append`: each column takes the data of the other table's column at its position, stopping at the first failure. */
    method AppendEach(other: Table) returns (r: Result<()>)
      requires |cols| == |other.cols|
      modifies cols`data, cols`ctype
      ensures forall j :: 0 <= j < |cols| ==>
                cols[j].name == old(cols[j].name) && cols[j].fmt == old(cols[j].fmt) && cols[j].desc == old(cols[j].desc)
      ensures Unshared(old(cols), old(other.cols)) ==>
                && (r.Ok? <==> forall j :: 0 <= j < |cols| ==>
                      AddedData(old(cols[j].data), old(cols[j].ctype), old(other.cols[j].data), None).Ok?)
                && (r.Ok? ==> forall j :: 0 <= j < |cols| ==>
                      cols[j].data == old(cols[j].data) + old(other.cols[j].data) &&
                      cols[j].ctype == Some(AddedData(old(cols[j].data), old(cols[j].ctype), old(other.cols[j].data), None).value.1))
    {
      ghost var unshared := Unshared(cols, other.cols);
      var i := 0;
      while i < |cols|
        invariant 0 <= i <= |cols|
        invariant forall j :: 0 <= j < |cols| ==>
                    cols[j].name == old(cols[j].name) && cols[j].fmt == old(cols[j].fmt) && cols[j].desc == old(cols[j].desc)
        invariant unshared ==> forall j :: i <= j < |cols| ==>
                    cols[j].data == old(cols[j].data) && cols[j].ctype == old(cols[j].ctype) &&
                    other.cols[j].data == old(other.cols[j].data)
        invariant unshared ==> forall j :: 0 <= j < i ==>
                    && AddedData(old(cols[j].data), old(cols[j].ctype), old(other.cols[j].data), None).Ok?
                    && cols[j].data == old(cols[j].data) + old(other.cols[j].data)
                    && cols[j].ctype == Some(AddedData(old(cols[j].data), old(cols[j].ctype), old(other.cols[j].data), None).value.1)
      {
        var ic := cols[i];
        var oc := other.cols[i];
        var added := ic.AddData(oc.data, None);
        if added.Err? {
          return Err(added.error);
        }
        i := i + 1;
      }
      return Ok(());
    }

    /** `clone(shallow, newName)`: a new table, named `newName` or `<name>(Copy)`,
        that gets each column through `addColumn`. A shallow clone shares every
        non-empty column object; an empty column is replaced by a fresh empty one.
        A deep clone asks each column for its `clone()`, which always raises. */
    method Clone(shallow: bool, newName: Option<string>) returns (r: Result<Table>)
      modifies cols
      ensures !shallow && |cols| > 0 ==> r == Err(AttributeError)
      ensures r.Ok? ==> fresh(r.value) && r.value.name == (if Given(newName) then newName.value else name + "(Copy)")
      ensures r.Ok? ==>
                && |r.value.cols| == |cols|
                && r.value.Data() == Data()
                && r.value.maxRows == GrownMax(Data())
                && (forall j :: 0 <= j < |cols| && |cols[j].data| > 0 ==> r.value.cols[j] == cols[j])
                && (forall j :: 0 <= j < |cols| && |cols[j].data| == 0 ==> fresh(r.value.cols[j]) && Rebuilt(r.value.cols[j]))
      ensures Data() == old(Data())
      ensures shallow && Labelled(old(Names())) ==>
                && r.Ok?
                && Names() == old(Names())
                && r.value.Names() == Names()
    {
      var t := new Table(if Given(newName) then newName.value else name + "(Copy)");
      if !shallow && |cols| > 0 {
        // the first `col.clone()` of the loop raises
        var copy := cols[0].Clone();
        return Err(copy.error);
      }
      var added := t.ShareAll(cols);
      if added.Err? {
        return Err(added.error);
      }
      return Ok(t);
    }

    /** `select(filter, filterSource)`: a new table of the same name, described by the
        filter's stripped source text, with a new column holding a copy of the data
        of each column whose position and name pass `filter`. */
    method Select(filter: (int, string) -> bool, filterSource: string) returns (r: Result<Table>)
      ensures r.Ok? ==>
                && fresh(r.value) && r.value.name == name
                && r.value.desc == Some("select(filter): " + Helpers.Strip(filterSource))
                && var picked := Selected(filter, old(Names()), |old(cols)|);
                   && r.value.Names() == Relabel(Pick(old(Names()), picked))
                   && r.value.Data() == Pick(old(Data()), picked)
      ensures r.Ok? ==> fresh(Members(r.value.cols))
      ensures r.Ok? ==> AllRebuilt(r.value.cols) && r.value.maxRows == GrownMax(r.value.Data())
      ensures Clean(old(Names()), old(Data())) ==> r.Ok?
    {
      r := NewSelection(name, "select(filter): " + Helpers.Strip(filterSource), filter, Names(), Data());
    }

    /** `sel = Table(title)`, its description, and the loop of `select`. */
    static method NewSelection(title: string, desc: string, filter: (int, string) -> bool, names: seq<string>, g: seq<seq<Value>>)
      returns (r: Result<Table>)
      requires |names| == |g|
      ensures r.Ok? ==>
                && fresh(r.value) && r.value.name == title && r.value.desc == Some(desc)
                && var picked := Selected(filter, names, |names|);
                   && r.value.Names() == Relabel(Pick(names, picked))
                   && r.value.Data() == Pick(g, picked)
      ensures r.Ok? ==> fresh(Members(r.value.cols))
      ensures r.Ok? ==> AllRebuilt(r.value.cols) && r.value.maxRows == GrownMax(r.value.Data())
      ensures Clean(names, g) ==> r.Ok?
    {
      var sel := new Table(title);
      sel.desc := Some(desc);
      var added := sel.AddSelected(filter, names, g);
      if added.Err? {
        return Err(added.error);
      }
      return Ok(sel);
    }

    /** The loop of `select`, run on a new table: add, in order, a copy of every
        column whose position and name pass the filter. */
    method AddSelected(filter: (int, string) -> bool, names: seq<string>, g: seq<seq<Value>>) returns (r: Result<()>)
      requires |names| == |g| && cols == [] && maxRows == -1
      modifies this`cols, this`maxRows
      ensures r.Ok? ==> SelectedSoFar(filter, names, g, |names|) && fresh(Members(cols))
      ensures Clean(names, g) ==> r.Ok?
    {
      ghost var made: set<Column> := {};
      assert SelectedSoFar(filter, names, g, 0) by {
        assert Pick(names, []) == [] && Pick(g, []) == [] && Relabel([]) == [];
        assert Names() == [] && Data() == [];
      }
      var i := 0;
      while i < |names|
        invariant 0 <= i <= |names|
        invariant SelectedSoFar(filter, names, g, i)
        invariant Members(cols) == made && fresh(made)
      {
        var step, added := SelectAt(filter, names, g, i);
        if step.Err? {
          return Err(step.error);
        }
        made := made + added;
        i := i + 1;
      }
      return Ok(());
    }

    /** The new table after the first `i` steps of `select`: a copy of each passing column. */
    predicate SelectedSoFar(filter: (int, string) -> bool, names: seq<string>, g: seq<seq<Value>>, i: int)
      requires |names| == |g| && 0 <= i <= |names|
      reads this`cols, this`maxRows, cols
    {
      && Names() == Relabel(Pick(names, Selected(filter, names, i)))
      && Data() == Pick(g, Selected(filter, names, i))
      && AsBuilt()
    }

    /** One step of `select`: the column at position `i` is added when it passes `filter`. */
    method SelectAt(filter: (int, string) -> bool, names: seq<string>, g: seq<seq<Value>>, i: int)
      returns (r: Result<()>, ghost added: set<Column>)
      requires |names| == |g| && 0 <= i < |names|
      requires SelectedSoFar(filter, names, g, i)
      modifies this`cols, this`maxRows
      ensures r.Ok? ==>
                && SelectedSoFar(filter, names, g, i + 1)
                && fresh(added) && Members(cols) == old(Members(cols)) + added
      ensures Clean(names, g) ==> r.Ok?
    {
      added := {};
      if filter(i, names[i]) {
        ghost var c: Column?;
        r, c := AddPicked(names, g, Selected(filter, names, i), i);
        if r.Ok? {
          added := {c};
        }
      } else {
        r := Ok(());
      }
    }

    method AddPicked(names: seq<string>, g: seq<seq<Value>>, ghost picked: seq<int>, i: int) returns (r: Result<()>, ghost c: Column?)
      requires |names| == |g| && 0 <= i < |names|
      requires forall k :: 0 <= k < |picked| ==> 0 <= picked[k] < i
      requires Names() == Relabel(Pick(names, picked)) && Data() == Pick(g, picked)
      requires AsBuilt()
      modifies this`cols, this`maxRows
      ensures r.Ok? ==>
                && Names() == Relabel(Pick(names, picked + [i]))
                && Data() == Pick(g, picked + [i])
                && c != null && fresh(c)
                && Members(cols) == old(Members(cols)) + {c}
                && AsBuilt()
      ensures Clean(names, g) ==> r.Ok?
    {
      c := null;
      if Clean(names, g) {
        NewLabel(names, picked, i);
      }
      ghost var before := cols;
      ghost var g0 := Data();
      r := AddList(names[i], g[i]);
      if r.Ok? {
        c := cols[|before|];
        GrownMaxSnoc(g0, g[i]);
        AllRebuiltSnoc(before, c);
        MembersSnoc(before, c);
        PickSnoc(names, picked, i);
        PickSnoc(g, picked, i);
        RelabelSnoc(Pick(names, picked), names[i]);
      }
    }

    /** `row(idx)`: one entry per column, `None` where the column is too short. */
    method Row(idx: int) returns (r: Result<seq<Value>>)
      ensures r == RowAt(Data(), idx)
    {
      var row: seq<Value> := [];
      var i := 0;
      while i < |cols|
        invariant 0 <= i <= |cols|
        invariant RowPrefix(Data(), idx, i) == Ok(row)
      {
        var c := cols[i];
        assert Data()[i] == c.data;
        if idx < |c.data| {
          var v := c.Get(idx);
          if v.Err? {
            PrefixErrorSticks(Data(), idx, i + 1, |cols|);
            return Err(v.error);
          }
          row := row + [v.value];
        } else {
          row := row + [Null];
        }
        i := i + 1;
      }
      return Ok(row);
    }

    /** `rows(idxs)`: refreshes `max_rows`, then returns the rows in the order asked
        for; a position past `max_rows` is refused (`max_rows` itself is let through). */
    method Rows(idxs: seq<int>) returns (r: Result<seq<seq<Value>>>)
      modifies this`maxRows
      ensures maxRows == MaxLen(Data())
      ensures r.Ok? <==> forall k :: 0 <= k < |idxs| ==> idxs[k] <= maxRows && RowAt(Data(), idxs[k]).Ok?
      ensures r.Ok? ==> |r.value| == |idxs| && forall k :: 0 <= k < |idxs| ==> r.value[k] == RowAt(Data(), idxs[k]).value
    {
      SetMaxRows();
      r := CollectRows(idxs);
    }

    /** The loop of `rows`, against the current `max_rows`. */
    method CollectRows(idxs: seq<int>) returns (r: Result<seq<seq<Value>>>)
      ensures r.Ok? <==> forall k :: 0 <= k < |idxs| ==> idxs[k] <= maxRows && RowAt(Data(), idxs[k]).Ok?
      ensures r.Ok? ==> |r.value| == |idxs| && forall k :: 0 <= k < |idxs| ==> r.value[k] == RowAt(Data(), idxs[k]).value
    {
      ghost var g := Data();
      var out: seq<seq<Value>> := [];
      var i := 0;
      while i < |idxs|
        invariant 0 <= i <= |idxs|
        invariant |out| == i
        invariant forall k :: 0 <= k < i ==> idxs[k] <= maxRows && RowAt(g, idxs[k]) == Ok(out[k])
      {
        if idxs[i] > maxRows {
          return Err(AssertionFailed);
        }
        var row := Row(idxs[i]);
        if row.Err? {
          return Err(row.error);
        }
        out := out + [row.value];
        i := i + 1;
      }
      return Ok(out);
    }

    /** `sort(key, reverse)`: refreshes `max_rows`; on a square table, rewrites every
        column in place so that the rows come in `sorted(rows, key, reverse)` order. */
    method Sort(key: seq<Value> -> int, reverse: bool) returns (r: Result<()>)
      modifies this`maxRows, cols`data
      ensures maxRows == MaxLen(old(Data()))
      ensures forall j :: 0 <= j < |cols| ==>
                && cols[j].name == old(cols[j].name) && cols[j].ctype == old(cols[j].ctype)
                && cols[j].fmt == old(cols[j].fmt) && cols[j].desc == old(cols[j].desc)
      ensures r.Ok? <==> IsSquareGrid(old(Data()))
      ensures r.Err? ==> r.error == AssertionFailed && Data() == old(Data())
      ensures r.Ok? ==> Data() == SortedGrid(old(Data()), key, reverse)
    {
      SetMaxRows();
      var square := IsSquare();
      if !square {
        return Err(AssertionFailed);
      }
      SortSquare(key, reverse);
      return Ok(());
    }

    /** `sort` once the table is known to be square: read the rows, sort them, write them back. */
    method SortSquare(key: seq<Value> -> int, reverse: bool)
      requires IsSquareGrid(Data()) && maxRows == MaxLen(Data())
      modifies cols`data
      ensures Data() == SortedGrid(old(Data()), key, reverse)
      ensures forall j :: 0 <= j < |cols| ==>
                && cols[j].name == old(cols[j].name) && cols[j].ctype == old(cols[j].ctype)
                && cols[j].fmt == old(cols[j].fmt) && cols[j].desc == old(cols[j].desc)
    {
      if |cols| == 0 {
        return;
      }
      ghost var g := Data();
      SquareMaxLen(g);
      var rows := ReadRows();
      var sorted := SortedRows(rows, key, reverse);
      SortedRowsOfGrid(g, key, reverse);
      WriteRows(sorted, g, SortedGrid(g, key, reverse));
    }

    /** The loop of `sort` that collects `row(i)` for every `i` below `max_rows`. */
    method ReadRows() returns (rows: seq<seq<Value>>)
      requires IsSquareGrid(Data()) && |cols| > 0 && maxRows == |cols[0].data|
      ensures rows == RowsOf(Data())
    {
      ghost var g := Data();
      rows := [];
      var i := 0;
      while i < maxRows
        invariant 0 <= i <= maxRows
        invariant |rows| == i
        invariant forall k :: 0 <= k < i ==> rows[k] == RowsOf(g)[k]
      {
        var row := Row(i);
        RowPrefixSpec(g, i, |g|);
        assert row.value == RowsOf(g)[i];
        rows := rows + [row.value];
        i := i + 1;
      }
    }

    /** The outer loop of `sort`'s write-back: row `i` of `sorted` goes to position
        `i` of every column. A column object listed twice receives the same values twice. */
    method WriteRows(sorted: seq<seq<Value>>, ghost g: seq<seq<Value>>, ghost s: seq<seq<Value>>)
      requires g == Data() && IsSquareGrid(g) && |g| > 0 && |sorted| == |g[0]| && |s| == |g|
      requires forall k :: 0 <= k < |sorted| ==> |sorted[k]| == |g|
      requires forall j :: 0 <= j < |g| ==> |s[j]| == |g[j]|
      requires forall k, j :: 0 <= k < |sorted| && 0 <= j < |g| ==> sorted[k][j] == s[j][k]
      requires forall a, b :: 0 <= a < |g| && 0 <= b < |g| && cols[a] == cols[b] ==> s[a] == s[b]
      modifies cols`data
      ensures Data() == s
      ensures forall j :: 0 <= j < |cols| ==>
                && cols[j].name == old(cols[j].name) && cols[j].ctype == old(cols[j].ctype)
                && cols[j].fmt == old(cols[j].fmt) && cols[j].desc == old(cols[j].desc)
    {
      var i := 0;
      while i < |sorted|
        invariant 0 <= i <= |sorted|
        invariant forall j :: 0 <= j < |cols| ==> |cols[j].data| == |g[j]|
        invariant forall j :: 0 <= j < |cols| ==>
                    && cols[j].name == old(cols[j].name) && cols[j].ctype == old(cols[j].ctype)
                    && cols[j].fmt == old(cols[j].fmt) && cols[j].desc == old(cols[j].desc)
        invariant forall j, k :: 0 <= j < |cols| && 0 <= k < |g[j]| ==>
                    cols[j].data[k] == (if k < i then s[j][k] else g[j][k])
      {
        WriteRow(i, sorted[i]);
        i := i + 1;
      }
      assert forall j :: 0 <= j < |cols| ==> cols[j].data == s[j];
    }

    /** The inner loop of `sort`'s write-back: `self.cols[j].data[i] = row[j]` for every column `j`. */
    method WriteRow(i: int, row: seq<Value>)
      requires |row| == |cols|
      requires forall j :: 0 <= j < |cols| ==> 0 <= i < |cols[j].data|
      requires forall a, b :: 0 <= a < |cols| && 0 <= b < |cols| && cols[a] == cols[b] ==> row[a] == row[b]
      modifies cols`data
      ensures forall j :: 0 <= j < |cols| ==>
                && cols[j].name == old(cols[j].name) && cols[j].ctype == old(cols[j].ctype)
                && cols[j].fmt == old(cols[j].fmt) && cols[j].desc == old(cols[j].desc)
      ensures forall j :: 0 <= j < |cols| ==> |cols[j].data| == |old(cols[j].data)|
      ensures forall j, k :: 0 <= j < |cols| && 0 <= k < |cols[j].data| && k != i ==> cols[j].data[k] == old(cols[j].data[k])
      ensures forall j :: 0 <= j < |cols| ==> cols[j].data[i] == row[j]
    {
      var j := 0;
      while j < |cols|
        invariant 0 <= j <= |cols|
        invariant forall j' :: 0 <= j' < |cols| ==> |cols[j'].data| == |old(cols[j'].data)|
        invariant forall j', k :: 0 <= j' < |cols| && 0 <= k < |cols[j'].data| && k != i ==>
                    cols[j'].data[k] == old(cols[j'].data[k])
        invariant forall j' :: 0 <= j' < |cols| ==> i < |cols[j'].data| && (j' < j ==> cols[j'].data[i] == row[j'])
      {
        cols[j].data := cols[j].data[i := row[j]];
        j := j + 1;
      }
    }

    /** `_intersect(args)`: the values every list contains, each once, in no particular
        order (it goes through a Python set). */
    method Intersect(args: seq<seq<int>>) returns (r: Result<seq<int>>)
      ensures r.Ok? <==> args != []
      ensures r.Err? ==> r.error == IndexError
      ensures r.Ok? ==> forall x :: x in r.value <==> InAll(args, x)
      ensures r.Ok? ==> forall a, b :: 0 <= a < b < |r.value| ==> r.value[a] != r.value[b]
    {
      if args == [] {
        return Err(IndexError);
      }
      var s := set x | x in args[0];
      var i := 1;
      while i < |args|
        invariant 1 <= i <= |args|
        invariant forall x :: x in s <==> InAll(args[..i], x)
      {
        assert forall x :: InAll(args[..i + 1], x) <==> InAll(args[..i], x) && x in args[i] by {
          assert forall k :: 0 <= k < i ==> args[..i + 1][k] == args[..i][k];
        }
        s := s * (set x | x in args[i]);
        i := i + 1;
      }
      assert args[..i] == args;
      var out := ListOf(s, args[0]);
      return Ok(out);
    }

    /** `table(*args)`: the selected rows (the common positions of several lists, or
        the one list as given) as a new table `Subtable[<name>]` with one column per
        column of this table, of the same name, holding that column's entries of the
        selected rows in order. Returns the table and the positions used. */
    method TableSub(args: seq<seq<int>>) returns (r: Result<(Table, seq<int>)>)
      modifies this`maxRows
      ensures args == [] ==> r == Err(IndexError)
      ensures |args| == 1 && r.Ok? ==> r.value.1 == args[0]
      ensures |args| > 1 && r.Ok? ==> forall x :: x in r.value.1 <==> InAll(args, x)
      ensures r.Ok? ==>
                var (t, idxRows) := r.value;
                && fresh(t) && t.name == "Subtable[" + name + "]"
                && (forall k :: 0 <= k < |idxRows| ==> idxRows[k] <= maxRows && RowAt(Data(), idxRows[k]).Ok?)
                && t.Names() == Relabel(Names())
                && t.Data() == ColumnsOf(RowsAt(Data(), idxRows), |cols|)
                && AllRebuilt(t.cols) && t.maxRows == GrownMax(t.Data())
      ensures args != [] ==> maxRows == MaxLen(Data())
      ensures (&& args != []
               && Labelled(Names())
               && forall x :: Candidate(args, x) ==>
                    x <= MaxLen(Data()) && RowAt(Data(), x).Ok? && Typeable(RowAt(Data(), x).value))
              ==> r.Ok?
    {
      var idxRows: seq<int>;
      if |args| > 1 {
        var common := Intersect(args);
        idxRows := common.value;
      } else if |args| == 1 {
        idxRows := args[0];
      } else {
        return Err(IndexError);
      }
      assert forall k :: 0 <= k < |idxRows| ==> Candidate(args, idxRows[k]);
      var rows := Rows(idxRows);
      if rows.Err? {
        return Err(rows.error);
      }
      assert rows.value == RowsAt(Data(), idxRows);
      var t := NewSubtable("Subtable[" + name + "]", Names(), rows.value);
      if t.Err? {
        return Err(t.error);
      }
      return Ok((t.value, idxRows));
    }

    /** `t = Table(title)` followed by the loop of `table(*args)`. */
    static method NewSubtable(title: string, names: seq<string>, rows: seq<seq<Value>>) returns (r: Result<Table>)
      requires forall k :: 0 <= k < |rows| ==> |rows[k]| == |names|
      ensures r.Ok? ==>
                && fresh(r.value) && r.value.name == title
                && r.value.Names() == Relabel(names)
                && r.value.Data() == ColumnsOf(rows, |names|)
                && AllRebuilt(r.value.cols) && r.value.maxRows == GrownMax(r.value.Data())
      ensures Labelled(names) && (forall k :: 0 <= k < |rows| ==> Typeable(rows[k])) ==> r.Ok?
    {
      var t := new Table(title);
      var added := t.AddColumnsOf(names, rows);
      if added.Err? {
        return Err(added.error);
      }
      return Ok(t);
    }

    /** The loop of `table(*args)`, run on the new table: column `i` of the result
        collects entry `i` of every selected row and keeps the name of column `i`. */
    method AddColumnsOf(names: seq<string>, rows: seq<seq<Value>>) returns (r: Result<()>)
      requires cols == [] && maxRows == -1
      requires forall k :: 0 <= k < |rows| ==> |rows[k]| == |names|
      modifies this`cols, this`maxRows
      ensures r.Ok? ==> Names() == Relabel(names) && Data() == ColumnsOf(rows, |names|)
      ensures r.Ok? ==> AsBuilt()
      ensures Labelled(names) && (forall k :: 0 <= k < |rows| ==> Typeable(rows[k])) ==> r.Ok?
    {
      var i := 0;
      while i < |names|
        invariant 0 <= i <= |names|
        invariant Names() == Relabel(names[..i]) && Data() == ColumnsOf(rows, i)
        invariant AsBuilt()
      {
        r := AddColumnAt(names, rows, i);
        if r.Err? {
          return;
        }
        i := i + 1;
      }
      assert names[..i] == names;
      return Ok(());
    }

    /** One step of the loop of `table(*args)`: the column of entry `i` of every row. */
    method AddColumnAt(names: seq<string>, rows: seq<seq<Value>>, i: nat) returns (r: Result<()>)
      requires i < |names|
      requires forall k :: 0 <= k < |rows| ==> |rows[k]| == |names|
      requires Names() == Relabel(names[..i]) && Data() == ColumnsOf(rows, i)
      requires AsBuilt()
      modifies this`cols, this`maxRows
      ensures r.Ok? ==>
                && Names() == Relabel(names[..i + 1]) && Data() == ColumnsOf(rows, i + 1)
                && AsBuilt()
      ensures Labelled(names) && (forall k :: 0 <= k < |rows| ==> Typeable(rows[k])) ==> r.Ok?
    {
      var data := Collect(rows, i);
      ghost var clean := Labelled(names) && (forall k :: 0 <= k < |rows| ==> Typeable(rows[k]));
      assert clean ==> ColumnName(Some(names[i]), i) !in Names() && (data != [] ==> GetType(data[0]).Ok?) by {
        if clean {
          LabelFresh(names, i);
          if data != [] {
            assert data[0] in rows[0];
          }
        }
      }
      ghost var before := cols;
      ghost var g := Data();
      r := AddList(names[i], data);
      if r.Ok? {
        RelabelPrefix(names, i);
        ColumnsOfSnoc(rows, i);
        GrownMaxSnoc(g, data);
        AllRebuiltSnoc(before, cols[i]);
      }
    }

    /** The inner loop of `table(*args)`: `data.append(r[i])` for every row `r`. */
    static method Collect(rows: seq<seq<Value>>, i: nat) returns (data: seq<Value>)
      requires forall k :: 0 <= k < |rows| ==> i < |rows[k]|
      ensures data == Entries(rows, i)
    {
      data := [];
      var k := 0;
      while k < |rows|
        invariant 0 <= k <= |rows|
        invariant data == Entries(rows[..k], i)
      {
        assert rows[..k + 1] == rows[..k] + [rows[k]];
        data := data + [rows[k][i]];
        k := k + 1;
      }
      assert rows[..k] == rows;
    }

    /** `setFormatStr(fmtInt, fmtFloat, fmtDate, fmtStr)`: each typed column gets the
        format of its kind; an untyped column keeps its own. */
    method SetFormatStr(fmtInt: Option<string>, fmtFloat: Option<string>, fmtDate: Option<string>, fmtStr: Option<string>)
      modifies cols`fmt
      ensures forall j :: 0 <= j < |cols| ==>
                cols[j].fmt == FormatFor(cols[j].ctype, fmtInt, fmtFloat, fmtDate, fmtStr, old(cols[j].fmt))
      ensures forall j :: 0 <= j < |cols| ==>
                && cols[j].data == old(cols[j].data) && cols[j].ctype == old(cols[j].ctype)
                && cols[j].name == old(cols[j].name) && cols[j].desc == old(cols[j].desc)
    {
      var i := 0;
      while i < |cols|
        invariant 0 <= i <= |cols|
        invariant forall j :: 0 <= j < |cols| ==>
                    cols[j].data == old(cols[j].data) && cols[j].ctype == old(cols[j].ctype) && cols[j].name == old(cols[j].name)
        invariant forall j :: 0 <= j < i ==>
                    cols[j].fmt == FormatFor(cols[j].ctype, fmtInt, fmtFloat, fmtDate, fmtStr, old(cols[j].fmt))
        invariant forall j :: i <= j < |cols| ==>
                    cols[j].fmt == old(cols[j].fmt) || cols[j].fmt == FormatFor(cols[j].ctype, fmtInt, fmtFloat, fmtDate, fmtStr, old(cols[j].fmt))
      {
        var c := cols[i];
        c.fmt := FormatFor(c.ctype, fmtInt, fmtFloat, fmtDate, fmtStr, c.fmt);
        i := i + 1;
      }
    }
  }

  /** No column object of a table sits at two positions, and `other`'s column at
      position `j` is none of this table's columns except possibly the one at `j`. */
  predicate Unshared(cs: seq<Column>, os: seq<Column>)
  {
    && Distinct(cs)
    && forall a, b :: 0 <= a < |cs| && 0 <= b < |os| && a != b ==> cs[a] != os[b]
  }

  /** Python's `list(s)` for a set drawn from the elements of `src`: each element
      once, here in the order of its first occurrence in `src` (Python leaves the
      order unspecified). */
  method ListOf(s: set<int>, src: seq<int>) returns (out: seq<int>)
    requires forall x :: x in s ==> x in src
    ensures forall x :: x in out <==> x in s
    ensures forall a, b :: 0 <= a < b < |out| ==> out[a] != out[b]
  {
    out := [];
    var i := 0;
    while i < |src|
      invariant 0 <= i <= |src|
      invariant forall x :: x in out <==> x in s && x in src[..i]
      invariant forall a, b :: 0 <= a < b < |out| ==> out[a] != out[b]
    {
      assert src[..i + 1] == src[..i] + [src[i]];
      if src[i] in s && src[i] !in out {
        out := out + [src[i]];
      }
      i := i + 1;
    }
    assert src[..i] == src;
  }

  /** Rows `idxs` of the grid `g`, each of which exists. */
  function RowsAt(g: seq<seq<Value>>, idxs: seq<int>): (rows: seq<seq<Value>>)
    requires forall k :: 0 <= k < |idxs| ==> RowAt(g, idxs[k]).Ok?
  {
    seq(|idxs|, k requires 0 <= k < |idxs| => RowAt(g, idxs[k]).value)
  }

  /** Entry `i` of every row, in row order. */
  function Entries(rows: seq<seq<Value>>, i: nat): (data: seq<Value>)
    requires forall k :: 0 <= k < |rows| ==> i < |rows[k]|
  {
    seq(|rows|, k requires 0 <= k < |rows| => rows[k][i])
  }

  /** The first `n` columns of a list of rows: column `j` holds entry `j` of every row. */
  function ColumnsOf(rows: seq<seq<Value>>, n: nat): (g: seq<seq<Value>>)
    requires forall k :: 0 <= k < |rows| ==> n <= |rows[k]|
    ensures |g| == n
  {
    seq(n, j requires 0 <= j < n => Entries(rows, j))
  }

  lemma ColumnsOfSnoc(rows: seq<seq<Value>>, n: nat)
    requires forall k :: 0 <= k < |rows| ==> n < |rows[k]|
    ensures ColumnsOf(rows, n + 1) == ColumnsOf(rows, n) + [Entries(rows, n)]
  {
  }

  /** With named, distinct columns, column `i` brings a name the first `i` copies do not have. */
  lemma LabelFresh(names: seq<string>, i: nat)
    requires Labelled(names) && i < |names|
    ensures ColumnName(Some(names[i]), i) !in Relabel(names[..i])
  {
    forall k | 0 <= k < i ensures Relabel(names[..i])[k] != names[i] {
      assert Relabel(names[..i])[k] == ColumnName(Some(names[k]), k);
    }
  }

  lemma RelabelPrefix(names: seq<string>, i: nat)
    requires i < |names|
    ensures Relabel(names[..i + 1]) == Relabel(names[..i]) + [ColumnName(Some(names[i]), i)]
  {
    assert names[..i + 1] == names[..i] + [names[i]];
    RelabelSnoc(names[..i], names[i]);
  }

  /** The elements of `s` at the positions `idx`, in that order. */
  function Pick<T>(s: seq<T>, idx: seq<int>): (r: seq<T>)
    requires forall k :: 0 <= k < |idx| ==> 0 <= idx[k] < |s|
    ensures |r| == |idx|
  {
    seq(|idx|, k requires 0 <= k < |idx| => s[idx[k]])
  }

  lemma PickSnoc<T>(s: seq<T>, idx: seq<int>, i: int)
    requires forall k :: 0 <= k < |idx| ==> 0 <= idx[k] < |s|
    requires 0 <= i < |s|
    ensures Pick(s, idx + [i]) == Pick(s, idx) + [s[i]]
  {
  }

  /** The names `addColumn` gives a run of columns added one by one to an empty
      table under the names `ns`. */
  function Relabel(ns: seq<string>): (r: seq<string>)
    ensures |r| == |ns|
  {
    seq(|ns|, k requires 0 <= k < |ns| => ColumnName(Some(ns[k]), k))
  }

  lemma RelabelSnoc(ns: seq<string>, x: string)
    ensures Relabel(ns + [x]) == Relabel(ns) + [ColumnName(Some(x), |ns|)]
  {
  }

  /** With named, distinct columns, a column not yet copied brings a name the copies
      made so far do not have. */
  lemma NewLabel(names: seq<string>, picked: seq<int>, i: int)
    requires Labelled(names) && 0 <= i < |names|
    requires forall k :: 0 <= k < |picked| ==> 0 <= picked[k] < i
    ensures ColumnName(Some(names[i]), |picked|) !in Relabel(Pick(names, picked))
  {
    forall k | 0 <= k < |picked| ensures Relabel(Pick(names, picked))[k] != names[i] {
      assert Relabel(Pick(names, picked))[k] == ColumnName(Some(names[picked[k]]), k);
    }
  }

  /** Every column has a name, the names are distinct and every non-empty column
      starts with a value of a known type: copying the columns one by one into a
      new table cannot fail. */
  predicate Clean(names: seq<string>, g: seq<seq<Value>>)
    requires |names| == |g|
  {
    && Labelled(names)
    && (forall p :: 0 <= p < |g| ==> g[p] != [] ==> GetType(g[p][0]).Ok?)
  }

  /** Every column has a name and no two share one: `addColumn` keeps each name
      and never meets a duplicate. */
  predicate Labelled(names: seq<string>)
  {
    && (forall p :: 0 <= p < |names| ==> names[p] != "")
    && (forall a, b :: 0 <= a < b < |names| ==> names[a] != names[b])
  }

  /** The positions among the first `n` whose position and name pass `filter`, ascending. */
  function Selected(filter: (int, string) -> bool, names: seq<string>, n: nat): (r: seq<int>)
    requires n <= |names|
    ensures |r| <= n
    ensures forall k :: 0 <= k < |r| ==> 0 <= r[k] < n
  {
    if n == 0 then []
    else Selected(filter, names, n - 1) + (if filter(n - 1, names[n - 1]) then [n - 1] else [])
  }
  /** `Selected` lists exactly the passing positions below `n`, each once, in ascending order. */
  lemma {:induction false} SelectedSpec(filter: (int, string) -> bool, names: seq<string>, n: nat)
    requires n <= |names|
    ensures forall a, b :: 0 <= a < b < |Selected(filter, names, n)| ==>
              Selected(filter, names, n)[a] < Selected(filter, names, n)[b]
    ensures forall p :: p in Selected(filter, names, n) <==> 0 <= p < n && filter(p, names[p])
  {
    if n > 0 {
      SelectedSpec(filter, names, n - 1);
    }
  }


  /** Once a column makes the row fail, the whole row fails with the same error. */
  lemma {:induction false} PrefixErrorSticks(g: seq<seq<Value>>, idx: int, n: nat, m: nat)
    requires n <= m <= |g|
    requires RowPrefix(g, idx, n).Err?
    ensures RowPrefix(g, idx, m) == RowPrefix(g, idx, n)
    decreases m
  {
    if m > n {
      PrefixErrorSticks(g, idx, n, m - 1);
    }
  }
}
