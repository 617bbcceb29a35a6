/** `tbl/column.py`: a named column whose values share one kind. The kind is
    fixed by the first insertion and checked, on the first element only, by later
    ones. Filters, maps and folds receive each element together with its position. */
module Columns {

  import opened Wrappers
  import opened Values
  import opened TTypes
  import Helpers
  import PyLists

  /** Every element of `data` has kind `k`. */
  predicate HomogeneousData(data: seq<Value>, k: Kind)
  {
    forall i :: 0 <= i < |data| ==> GetType(data[i]) == Ok(k)
  }

  /** `addData(batch, ctype=sample)` on a column holding `data` of kind `ctype`:
      the new data and kind, or the exception. A non-empty batch sets the kind
      from its first element or must agree with the kind on that element alone;
      an empty batch only works on an untyped column, with a truthy sample
      whose kind becomes the column's. */
  function AddedData(data: seq<Value>, ctype: Option<Kind>, batch: seq<Value>, sample: Option<Value>): (r: Result<(seq<Value>, Kind)>)
    ensures r.Ok? <==>
              || (batch != [] && GetType(batch[0]).Ok? && (ctype.Some? ==> GetType(batch[0]).value == ctype.value))
              || (batch == [] && ctype.None? && sample.Some? && Truthy(sample.value) && GetType(sample.value).Ok?)
    ensures r.Ok? && batch != [] ==> r.value == (data + batch, GetType(batch[0]).value)
    ensures r.Ok? && batch == [] ==> r.value == ([], GetType(sample.value).value)
    ensures r.Err? ==> r.error == AssertionFailed
  {
    if ctype.None? && |batch| > 0 then
      match GetType(batch[0])
      case Ok(k) => Ok((data + batch, k))
      case Err(e) => Err(e)
    else if ctype.Some? && |batch| > 0 then
      if GetType(batch[0]) == Ok(ctype.value) then Ok((data + batch, ctype.value)) else Err(AssertionFailed)
    else if ctype.None? && sample.Some? && Truthy(sample.value) then
      // the column's data becomes the batch, empty here, which is then appended to itself
      match GetType(sample.value)
      case Ok(k) => Ok(([], k))
      case Err(e) => Err(e)
    else Err(AssertionFailed)
  }

  /** A batch whose elements all have the kind of its first element keeps a
      homogeneous column homogeneous. */
  lemma AddDataKeepsHomogeneous(data: seq<Value>, ctype: Option<Kind>, batch: seq<Value>, sample: Option<Value>)
    requires ctype.Some? ==> HomogeneousData(data, ctype.value)
    requires ctype.None? ==> data == []
    requires batch != [] && GetType(batch[0]).Ok? ==> HomogeneousData(batch, GetType(batch[0]).value)
    requires AddedData(data, ctype, batch, sample).Ok?
    ensures HomogeneousData(AddedData(data, ctype, batch, sample).value.0, AddedData(data, ctype, batch, sample).value.1)
  {
  }

  /** Only the first element of a batch is checked: a float column accepts a
      batch that continues with a string, and is no longer homogeneous. */
  lemma AddDataChecksFirstElementOnly()
    ensures var r := AddedData([FloatV(Float(0))], Some(F), [FloatV(Float(1)), StrV("x")], None);
            r.Ok? && !HomogeneousData(r.value.0, r.value.1)
  {
    var r := AddedData([FloatV(Float(0))], Some(F), [FloatV(Float(1)), StrV("x")], None);
    assert r.value.0[2] == StrV("x");
  }

  /** `append(e)` on a column of kind `ctype`: the kind afterwards, or the exception. */
  function AppendedKind(ctype: Option<Kind>, e: Value): (r: Result<Kind>)
    ensures r.Ok? <==> GetType(e).Ok? && (ctype.Some? ==> GetType(e).value == ctype.value)
    ensures r.Ok? ==> r.value == GetType(e).value
  {
    match GetType(e)
    case Err(err) => Err(err)
    case Ok(nt) => if ctype.None? || nt == ctype.value then Ok(nt) else Err(AssertionFailed)
  }

  /** `append(e)` follows the same kind rule as `addData([e])` and has the same effect. */
  lemma AppendAgreesWithAddData(data: seq<Value>, ctype: Option<Kind>, e: Value)
    ensures AppendedKind(ctype, e).Ok? <==> AddedData(data, ctype, [e], None).Ok?
    ensures AppendedKind(ctype, e).Ok? ==>
              AddedData(data, ctype, [e], None).value == (data + [e], AppendedKind(ctype, e).value)
  {
  }

  /** Converting every element, left to right; `None` as soon as one conversion raises. */
  function ConvertAll(cx: Codecs, f: Conv, s: seq<Value>): (r: Option<seq<Value>>)
    ensures r.Some? ==> |r.value| == |s|
  {
    if s == [] then Some([])
    else match ConvertAll(cx, f, s[..|s| - 1])
      case None => None
      case Some(init) =>
        match TTypes.Apply(cx, f, s[|s| - 1])
        case None => None
        case Some(v) => Some(init + [v])
  }

  /** The conversion succeeds exactly when every element converts, and then holds
      the converter's image of each element at its position. */
  lemma {:induction false} ConvertAllSpec(cx: Codecs, f: Conv, s: seq<Value>)
    ensures ConvertAll(cx, f, s).Some? <==> forall i :: 0 <= i < |s| ==> TTypes.Apply(cx, f, s[i]).Some?
    ensures ConvertAll(cx, f, s).Some? ==>
              forall i :: 0 <= i < |s| ==> ConvertAll(cx, f, s).value[i] == TTypes.Apply(cx, f, s[i]).value
  {
    if s != [] {
      var init := s[..|s| - 1];
      ConvertAllSpec(cx, f, init);
      assert forall i :: 0 <= i < |init| ==> s[i] == init[i];
    }
  }

  /** After a successful conversion every element has the new kind, whatever the
      elements were before: `convert` is the one operation that re-establishes homogeneity. */
  lemma ConvertMakesHomogeneous(cx: Codecs, oldTag: string, newTag: string, fmt: Option<string>, s: seq<Value>)
    requires GetTypeConverter(oldTag, newTag, fmt).Ok?
    requires ConvertAll(cx, GetTypeConverter(oldTag, newTag, fmt).value.0, s).Some?
    ensures KindOf(newTag).Some?
    ensures HomogeneousData(ConvertAll(cx, GetTypeConverter(oldTag, newTag, fmt).value.0, s).value, KindOf(newTag).value)
  {
    var f := GetTypeConverter(oldTag, newTag, fmt).value.0;
    var r := ConvertAll(cx, f, s).value;
    ConvertAllSpec(cx, f, s);
    TagsAreAllowedTypes(newTag);
    forall i | 0 <= i < |r| ensures GetType(r[i]) == Ok(KindOf(newTag).value) {
      ConvertedValueHasNewKind(cx, oldTag, newTag, fmt, s[i]);
    }
  }

  /** The positions among the first `n` whose element passes `filter`, ascending. */
  function Matching(data: seq<Value>, filter: (int, Value) -> bool, n: nat): (r: seq<int>)
    requires n <= |data|
    ensures |r| <= n
  {
    if n == 0 then []
    else Matching(data, filter, n - 1) + (if filter(n - 1, data[n - 1]) then [n - 1] else [])
  }

  /** The elements among the first `n` on which `filter` answers `passing`, in order. */
  function Kept(data: seq<Value>, filter: (int, Value) -> bool, passing: bool, n: nat): (r: seq<Value>)
    requires n <= |data|
    ensures |r| <= n
  {
    if n == 0 then []
    else Kept(data, filter, passing, n - 1) + (if filter(n - 1, data[n - 1]) == passing then [data[n - 1]] else [])
  }

  /** `index(filter)` lists, in ascending order, exactly the positions whose element passes. */
  lemma {:induction false} MatchingSpec(data: seq<Value>, filter: (int, Value) -> bool, n: nat)
    requires n <= |data|
    ensures forall k, l :: 0 <= k < l < |Matching(data, filter, n)| ==>
              Matching(data, filter, n)[k] < Matching(data, filter, n)[l]
    ensures forall i :: i in Matching(data, filter, n) <==> 0 <= i < n && filter(i, data[i])
  {
    if n > 0 {
      MatchingSpec(data, filter, n - 1);
      var m := Matching(data, filter, n - 1);
      assert forall k :: 0 <= k < |m| ==> m[k] in m;
    }
  }

  /** `collect(filter)` returns the elements at the positions `index(filter)` lists, in that order. */
  lemma {:induction false} KeptAtMatching(data: seq<Value>, filter: (int, Value) -> bool, n: nat)
    requires n <= |data|
    ensures |Kept(data, filter, true, n)| == |Matching(data, filter, n)|
    ensures forall k :: 0 <= k < |Kept(data, filter, true, n)| ==>
              0 <= Matching(data, filter, n)[k] < |data| &&
              Kept(data, filter, true, n)[k] == data[Matching(data, filter, n)[k]]
  {
    if n > 0 {
      KeptAtMatching(data, filter, n - 1);
    }
  }

  /** What `collect(filter)` returns and what `remove(filter)` keeps split the
      column: together they account for every element. */
  lemma {:induction false} CollectRemovePartition(data: seq<Value>, filter: (int, Value) -> bool, n: nat)
    requires n <= |data|
    ensures |Kept(data, filter, true, n)| + |Kept(data, filter, false, n)| == n
  {
    if n > 0 {
      CollectRemovePartition(data, filter, n - 1);
      var x := data[n - 1];
      var pass, fail := Kept(data, filter, true, n - 1), Kept(data, filter, false, n - 1);
      if filter(n - 1, x) {
        assert Kept(data, filter, true, n) == pass + [x];
        assert Kept(data, filter, false, n) == fail;
      } else {
        assert Kept(data, filter, true, n) == pass;
        assert Kept(data, filter, false, n) == fail + [x];
      }
    }
  }

  /** `reduce(func, init)` over the first `n` elements: a left fold in ascending position order. */
  function Fold<A>(data: seq<Value>, func: (int, Value, A) -> A, init: A, n: nat): A
    requires n <= |data|
  {
    if n == 0 then init else func(n - 1, data[n - 1], Fold(data, func, init, n - 1))
  }

  /** The fold only depends on the elements it has visited. */
  lemma {:induction false} FoldLocal<A>(a: seq<Value>, b: seq<Value>, func: (int, Value, A) -> A, init: A, n: nat)
    requires n <= |a| && n <= |b|
    requires a[..n] == b[..n]
    ensures Fold(a, func, init, n) == Fold(b, func, init, n)
  {
    if n > 0 {
      assert a[n - 1] == a[..n][n - 1] && b[n - 1] == b[..n][n - 1];
      assert a[..n - 1] == a[..n][..n - 1] && b[..n - 1] == b[..n][..n - 1];
      FoldLocal(a, b, func, init, n - 1);
    }
  }

  /** Reducing after `append(e)` is one more step of the fold from the previous result. */
  lemma ReduceAfterAppend<A>(data: seq<Value>, e: Value, func: (int, Value, A) -> A, init: A)
    ensures Fold(data + [e], func, init, |data| + 1) == func(|data|, e, Fold(data, func, init, |data|))
  {
    assert (data + [e])[..|data|] == data[..|data|];
    FoldLocal(data + [e], data, func, init, |data|);
  }

  /** The integer inside an int value, 0 for anything else. */
  function IntOf(v: Value): int
  {
    if v.IntV? then v.i else 0
  }

  /** Steps for `reduce`: keep the larger, keep the smaller, add. */
  function LargerStep(i: int, v: Value, acc: int): int
  {
    if acc > IntOf(v) then acc else IntOf(v)
  }

  function SmallerStep(i: int, v: Value, acc: int): int
  {
    if acc < IntOf(v) then acc else IntOf(v)
  }

  function SumStep(i: int, v: Value, acc: int): int
  {
    acc + IntOf(v)
  }

  /** Reducing `[1, 4, 2, 3]` gives its maximum 4 from -1, its minimum 1 from
      100000, and its sum 10 from 0. */
  lemma ReduceExamples()
    ensures var data := [IntV(1), IntV(4), IntV(2), IntV(3)];
            && Fold(data, LargerStep, -1, 4) == 4
            && Fold(data, SmallerStep, 100000, 4) == 1
            && Fold(data, SumStep, 0, 4) == 10
  {
  }

  class Column {
    var name: string
    var data: seq<Value>
    var ctype: Option<Kind>     // the column's `type`: unset until the first insertion
    var fmt: Option<string>     // format used to turn its values into strings
    var desc: Option<string>

    /** A column with no data and no kind yet; an empty description counts as none. */
    constructor(name: string, desc: Option<string>)
      ensures this.name == name && data == [] && ctype == None && fmt == None
      ensures this.desc == (if Given(desc) then desc else None)
    {
      this.name := name;
      data := [];
      ctype := None;
      fmt := None;
      this.desc := if Given(desc) then desc else None;
    }

    method SetName(name: string)
      modifies this
      ensures this.name == name
      ensures data == old(data) && ctype == old(ctype) && fmt == old(fmt) && desc == old(desc)
    {
      this.name := name;
    }

    method SetDescription(desc: Option<string>)
      modifies this
      ensures this.desc == desc
      ensures name == old(name) && data == old(data) && ctype == old(ctype) && fmt == old(fmt)
    {
      this.desc := desc;
    }

    /** `addData(batch, ctype=sample)`; a failure leaves the column as it was. */
    method AddData(batch: seq<Value>, sample: Option<Value>) returns (r: Result<()>)
      modifies this`data, this`ctype
      ensures var out := AddedData(old(data), old(ctype), batch, sample);
              && (r.Ok? <==> out.Ok?)
              && (out.Ok? ==> data == out.value.0 && ctype == Some(out.value.1))
              && (out.Err? ==> r.error == out.error && data == old(data) && ctype == old(ctype))
      ensures name == old(name) && fmt == old(fmt) && desc == old(desc)
    {
      if ctype.None? && |batch| > 0 {
        var k := GetType(batch[0]);
        if k.Err? {
          return Err(k.error);
        }
        ctype := Some(k.value);
      } else if ctype.Some? && |batch| > 0 {
        var k := GetType(batch[0]);
        if k != Ok(ctype.value) {
          return Err(AssertionFailed);
        }
      } else if ctype.None? && sample.Some? && Truthy(sample.value) {
        var k := GetType(sample.value);
        if k.Err? {
          return Err(k.error);
        }
        ctype := Some(k.value);
        data := batch;
      } else {
        return Err(AssertionFailed);
      }
      data := data + batch;
      return Ok(());
    }

    /** `append(e)`: `e` goes last and the earlier elements stay; the kind rule is that of `addData`. */
    method Append(e: Value) returns (r: Result<()>)
      modifies this
      ensures r.Ok? <==> AppendedKind(old(ctype), e).Ok?
      ensures r.Ok? ==> data == old(data) + [e] && ctype == Some(AppendedKind(old(ctype), e).value)
      ensures r.Err? ==> r.error == AppendedKind(old(ctype), e).error && data == old(data) && ctype == old(ctype)
      ensures name == old(name) && fmt == old(fmt) && desc == old(desc)
    {
      var nt := GetType(e);
      if nt.Err? {
        return Err(nt.error);
      }
      if ctype.None? {
        ctype := Some(nt.value);
      } else if nt.value != ctype.value {
        return Err(AssertionFailed);
      }
      data := data + [e];
      return Ok(());
    }

    /** `convert(oldTag, newTag, fmtArg)`: both tags must be known (a missing new tag
        is not one). A given format replaces the column's before the converter is
        looked up, so it stays even when the conversion then fails. On success every
        element is replaced by its conversion and the kind becomes the new tag's. */
    method Convert(cx: Codecs, oldTag: string, newTag: Option<string>, fmtArg: Option<string>) returns (r: Result<()>)
      modifies this
      ensures !IsTypeStr(oldTag) || newTag.None? || !IsTypeStr(newTag.value) ==>
                r == Err(AssertionFailed) && fmt == old(fmt)
      ensures IsTypeStr(oldTag) && newTag.Some? && IsTypeStr(newTag.value) ==>
                fmt == (if Given(fmtArg) then fmtArg else old(fmt))
      ensures r.Ok? <==>
                && IsTypeStr(oldTag) && newTag.Some? && IsTypeStr(newTag.value)
                && GetTypeConverter(oldTag, newTag.value, fmt).Ok?
                && ConvertAll(cx, GetTypeConverter(oldTag, newTag.value, fmt).value.0, old(data)).Some?
      ensures r.Ok? ==>
                && data == ConvertAll(cx, GetTypeConverter(oldTag, newTag.value, fmt).value.0, old(data)).value
                && ctype == KindOf(newTag.value)
      ensures r.Err? ==> data == old(data) && ctype == old(ctype)
      ensures name == old(name) && desc == old(desc)
    {
      if !IsTypeStr(oldTag) || newTag.None? || !IsTypeStr(newTag.value) {
        return Err(AssertionFailed);
      }
      if Given(fmtArg) {
        fmt := fmtArg;
      }
      var conv := GetTypeConverter(oldTag, newTag.value, fmt);
      if conv.Err? {
        return Err(conv.error);
      }
      var f := conv.value.0;
      var converted: seq<Value> := [];
      var i := 0;
      while i < |data|
        invariant 0 <= i <= |data|
        invariant ConvertAll(cx, f, data[..i]) == Some(converted)
      {
        var v := TTypes.Apply(cx, f, data[i]);
        assert data[..i + 1][..i] == data[..i];
        if v.None? {
          PrefixFailureSticks(cx, f, data, i + 1);
          return Err(ValueError);
        }
        converted := converted + [v.value];
        i := i + 1;
      }
      assert data[..i] == data;
      data := converted;
      ctype := KindOf(newTag.value);
      return Ok(());
    }

    /** `index(filter)`: the ascending positions whose element passes `filter`. */
    method Index(filter: (int, Value) -> bool) returns (idx: seq<int>)
      ensures idx == Matching(data, filter, |data|)
    {
      idx := [];
      var i := 0;
      while i < |data|
        invariant 0 <= i <= |data|
        invariant idx == Matching(data, filter, i)
      {
        if filter(i, data[i]) {
          idx := idx + [i];
        }
        i := i + 1;
      }
    }

    /** `collect(filter)`: the elements that pass `filter`, in order. */
    method Collect(filter: (int, Value) -> bool) returns (values: seq<Value>)
      ensures values == Kept(data, filter, true, |data|)
    {
      values := [];
      var i := 0;
      while i < |data|
        invariant 0 <= i <= |data|
        invariant values == Kept(data, filter, true, i)
      {
        if filter(i, data[i]) {
          values := values + [data[i]];
        }
        i := i + 1;
      }
    }

    /** `column(filter, name, desc)`: a new column of the collected elements, named
        `sample(<name>)` unless a name is given, described by the stripped `desc`
        (by default the filter's source text, which arrives as `filterSource`).
        Like any `addData` without a sample, it fails when nothing is collected. */
    method Sample(filter: (int, Value) -> bool, nameArg: Option<string>, descArg: Option<string>, filterSource: string)
      returns (r: Result<Column>)
      ensures var nd := Kept(data, filter, true, |data|);
              r.Ok? <==> nd != [] && GetType(nd[0]).Ok?
      ensures r.Ok? ==>
                && fresh(r.value)
                && r.value.data == Kept(data, filter, true, |data|)
                && r.value.name == (if Given(nameArg) then nameArg.value else "sample(" + name + ")")
                && r.value.desc == Some(Helpers.Strip(if Given(descArg) then descArg.value else filterSource))
                && r.value.ctype == Some(GetType(Kept(data, filter, true, |data|)[0]).value)
                && r.value.fmt == None
    {
      var nd := Collect(filter);
      var cname := if Given(nameArg) then nameArg.value else "sample(" + name + ")";
      var cdesc := if Given(descArg) then descArg.value else filterSource;
      var c := new Column(cname, None);
      var added := c.AddData(nd, None);
      if added.Err? {
        return Err(added.error);
      }
      c.SetDescription(Some(Helpers.Strip(cdesc)));
      return Ok(c);
    }

    /** `remove(filter)`: keeps exactly the elements that fail `filter`, in order. */
    method Remove(filter: (int, Value) -> bool)
      modifies this
      ensures data == Kept(old(data), filter, false, |old(data)|)
      ensures name == old(name) && ctype == old(ctype) && fmt == old(fmt) && desc == old(desc)
    {
      var kept: seq<Value> := [];
      var i := 0;
      while i < |data|
        invariant 0 <= i <= |data|
        invariant kept == Kept(data, filter, false, i)
      {
        if !filter(i, data[i]) {
          kept := kept + [data[i]];
        }
        i := i + 1;
      }
      data := kept;
    }

    /** `clone()` reads an attribute `pos` that columns do not have, so it always raises. */
    method Clone() returns (r: Result<Column>)
      ensures r == Err(AttributeError)
    {
      return Err(AttributeError);
    }

    /** `apply(func)`: a new list holding `func(i, data[i])` at each position; the column is untouched. */
    method Apply(func: (int, Value) -> Value) returns (values: seq<Value>)
      ensures |values| == |data|
      ensures forall i :: 0 <= i < |data| ==> values[i] == func(i, data[i])
    {
      values := [];
      var i := 0;
      while i < |data|
        invariant 0 <= i <= |data|
        invariant |values| == i
        invariant forall k :: 0 <= k < i ==> values[k] == func(k, data[k])
      {
        values := values + [func(i, data[i])];
        i := i + 1;
      }
    }

    /** `map(func, desc)`: writes `func(i, data[i])` over each element in place,
        the same values `apply` returns; the kind is not updated. With `describe`
        the description becomes the stripped source text of `func`. */
    method Map(func: (int, Value) -> Value, describe: bool, funcSource: string)
      modifies this
      ensures |data| == |old(data)|
      ensures forall i :: 0 <= i < |data| ==> data[i] == func(i, old(data)[i])
      ensures desc == (if describe then Some(Helpers.Strip(funcSource)) else old(desc))
      ensures name == old(name) && ctype == old(ctype) && fmt == old(fmt)
    {
      var i := 0;
      while i < |data|
        invariant 0 <= i <= |data| == |old(data)|
        invariant forall k :: 0 <= k < i ==> data[k] == func(k, old(data)[k])
        invariant forall k :: i <= k < |data| ==> data[k] == old(data)[k]
        invariant name == old(name) && ctype == old(ctype) && fmt == old(fmt) && desc == old(desc)
      {
        data := data[i := func(i, data[i])];
        i := i + 1;
      }
      if describe {
        desc := Some(Helpers.Strip(funcSource));
      }
    }

    /** `reduce(func, init)`: the left fold of `func` over the elements in position order. */
    method Reduce<A>(func: (int, Value, A) -> A, init: A) returns (result: A)
      ensures result == Fold(data, func, init, |data|)
    {
      result := init;
      var i := 0;
      while i < |data|
        invariant 0 <= i <= |data|
        invariant result == Fold(data, func, init, i)
      {
        result := func(i, data[i], result);
        i := i + 1;
      }
    }

    /** `len(column)` */
    function Len(): (n: nat)
      reads this
      ensures n == |data|
    {
      |data|
    }

    /** `column[idx]`, with Python's negative positions; out of range raises. */
    function Get(idx: int): (r: Result<Value>)
      reads this
      ensures r.Ok? <==> -|data| <= idx < |data|
      ensures 0 <= idx < |data| ==> r == Ok(data[idx])
      ensures -|data| <= idx < 0 ==> r == Ok(data[|data| + idx])
    {
      PyLists.At(data, idx)
    }
  }

  /** Once an element fails to convert, converting any longer prefix fails too. */
  lemma {:induction false} PrefixFailureSticks(cx: Codecs, f: Conv, data: seq<Value>, n: nat)
    requires 0 < n <= |data|
    requires TTypes.Apply(cx, f, data[n - 1]).None?
    ensures ConvertAll(cx, f, data).None?
  {
    ConvertAllSpec(cx, f, data);
  }
}
