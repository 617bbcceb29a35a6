/** String helpers used when reading delimited text: `split_line` and
    `is_iterable`, with the Python string methods they rest on
    (`str.strip`, `str.rstrip(chars)`, `str.split(sep)`, `sep.join`). */
module Helpers {

  import opened Wrappers
  import opened Values

  /** Python's `str.isspace` for one character. */
  predicate IsSpace(c: char)
  {
    || c == ' ' || ('\t' <= c <= '\r')          // space, \t \n \v \f \r
    || ('\U{001C}' <= c <= '\U{001F}')           // file, group, record and unit separators
    || c == '\U{0085}' || c == '\U{00A0}' || c == '\U{1680}'
    || ('\U{2000}' <= c <= '\U{200A}')
    || c == '\U{2028}' || c == '\U{2029}' || c == '\U{202F}' || c == '\U{205F}' || c == '\U{3000}'
  }

  /** `s.lstrip()`: drop leading whitespace. */
  function LStrip(s: string): (r: string)
    ensures |r| <= |s|
  {
    if s != [] && IsSpace(s[0]) then LStrip(s[1..]) else s
  }

  /** `s.rstrip(chars)`: drop trailing characters that occur in `chars`. */
  function RStripChars(s: string, chars: string): (r: string)
    ensures |r| <= |s|
  {
    if s != [] && s[|s| - 1] in chars then RStripChars(s[..|s| - 1], chars) else s
  }

  /** `s.rstrip()`: drop trailing whitespace. */
  function RStrip(s: string): (r: string)
    ensures |r| <= |s|
  {
    if s != [] && IsSpace(s[|s| - 1]) then RStrip(s[..|s| - 1]) else s
  }

  /** `s.strip()` */
  function Strip(s: string): string
  {
    RStrip(LStrip(s))
  }

  /** No whitespace at either end. */
  predicate Trimmed(s: string)
  {
    s != [] ==> !IsSpace(s[0]) && !IsSpace(s[|s| - 1])
  }

  /** `lstrip` removes a prefix of whitespace and stops at the first other character. */
  lemma {:induction false} LStripSpec(s: string)
    ensures var r := LStrip(s);
            && r == s[|s| - |r|..]
            && (forall k :: 0 <= k < |s| - |r| ==> IsSpace(s[k]))
            && (r != [] ==> !IsSpace(r[0]))
  {
    if s != [] && IsSpace(s[0]) {
      LStripSpec(s[1..]);
    }
  }

  /** `rstrip()` removes a suffix of whitespace and stops at the last other character. */
  lemma {:induction false} RStripSpec(s: string)
    ensures var r := RStrip(s);
            && r == s[..|r|]
            && (forall k :: |r| <= k < |s| ==> IsSpace(s[k]))
            && (r != [] ==> !IsSpace(r[|r| - 1]))
  {
    if s != [] && IsSpace(s[|s| - 1]) {
      RStripSpec(s[..|s| - 1]);
    }
  }

  /** `rstrip(chars)` removes a suffix of characters from `chars` and stops at the
      last character that is not one of them. */
  lemma {:induction false} RStripCharsSpec(s: string, chars: string)
    ensures var r := RStripChars(s, chars);
            && r == s[..|r|]
            && (forall k :: |r| <= k < |s| ==> s[k] in chars)
            && (r != [] ==> r[|r| - 1] !in chars)
  {
    if s != [] && s[|s| - 1] in chars {
      RStripCharsSpec(s[..|s| - 1], chars);
    }
  }

  /** `strip` leaves a middle slice of its input with only whitespace around it. */
  lemma {:induction false} StripIsSlice(s: string)
    ensures exists i, j :: 0 <= i <= j <= |s| && Strip(s) == s[i..j] &&
              (forall k :: 0 <= k < i ==> IsSpace(s[k])) &&
              (forall k :: j <= k < |s| ==> IsSpace(s[k]))
  {
    var l := LStrip(s);
    var i := |s| - |l|;
    var r := RStrip(l);
    var j := i + |r|;
    LStripSpec(s);
    RStripSpec(l);
    assert Strip(s) == s[i..j] by {
      assert s[i..j] == l[..|r|];
    }
    assert forall k :: j <= k < |s| ==> IsSpace(s[k]) by {
      forall k | j <= k < |s| ensures IsSpace(s[k]) {
        assert s[k] == l[k - i];
      }
    }
  }

  /** What `strip` returns neither begins nor ends with whitespace. */
  lemma {:induction false} StripTrims(s: string)
    ensures Trimmed(Strip(s))
  {
    var l := LStrip(s);
    var r := RStrip(l);
    LStripSpec(s);
    RStripSpec(l);
    if r != [] {
      assert r[0] == l[0];
    }
  }

  /** `s.split(sep)` for a non-empty separator: cut at every occurrence of `sep`,
      scanning from the left and never letting two occurrences overlap. */
  function Split(s: string, sep: string): (r: seq<string>)
    requires sep != []
    ensures |r| >= 1
    decreases |s|
  {
    if |s| < |sep| then [s]
    else if s[..|sep|] == sep then [""] + Split(s[|sep|..], sep)
    else
      var rest := Split(s[1..], sep);
      [[s[0]] + rest[0]] + rest[1..]
  }

  /** `sep.join(pieces)` */
  function Join(pieces: seq<string>, sep: string): (s: string)
    requires |pieces| >= 1
    decreases |pieces|
  {
    if |pieces| == 1 then pieces[0] else pieces[0] + sep + Join(pieces[1..], sep)
  }

  /** Splitting and joining with the same separator gives the string back. */
  lemma {:induction false} JoinSplit(s: string, sep: string)
    requires sep != []
    ensures Join(Split(s, sep), sep) == s
    decreases |s|
  {
    if |s| < |sep| {
    } else if s[..|sep|] == sep {
      var rest := Split(s[|sep|..], sep);
      JoinSplit(s[|sep|..], sep);
      JoinAfterEmpty(rest, sep);
      assert s == sep + s[|sep|..];
    } else {
      var rest := Split(s[1..], sep);
      JoinSplit(s[1..], sep);
      JoinPrepend(s[0], rest, sep);
      assert s == [s[0]] + s[1..];
    }
  }

  /** An empty first piece contributes only its separator. */
  lemma JoinAfterEmpty(pieces: seq<string>, sep: string)
    requires |pieces| >= 1
    ensures Join([""] + pieces, sep) == sep + Join(pieces, sep)
  {
    assert ([""] + pieces)[1..] == pieces;
  }

  /** A character put in front of the first piece ends up in front of the joined string. */
  lemma JoinPrepend(c: char, pieces: seq<string>, sep: string)
    requires |pieces| >= 1
    ensures Join([[c] + pieces[0]] + pieces[1..], sep) == [c] + Join(pieces, sep)
  {
    var p := [[c] + pieces[0]] + pieces[1..];
    if |pieces| > 1 {
      assert p[1..] == pieces[1..];
    }
  }

  /** If the last piece of a split is empty, the string ends with the separator. */
  lemma {:induction false} EmptyLastPieceMeansTrailingSep(s: string, sep: string)
    requires sep != [] && s != []
    requires Split(s, sep)[|Split(s, sep)| - 1] == ""
    ensures |sep| <= |s| && s[|s| - |sep|..] == sep
    decreases |s|
  {
    if |s| < |sep| {
    } else if s[..|sep|] == sep {
      var t := s[|sep|..];
      if t != [] {
        assert Split(s, sep)[|Split(s, sep)| - 1] == Split(t, sep)[|Split(t, sep)| - 1];
        EmptyLastPieceMeansTrailingSep(t, sep);
        assert s[|s| - |sep|..] == t[|t| - |sep|..];
      }
    } else {
      var t := s[1..];
      var rest := Split(t, sep);
      if |rest| == 1 {
        assert Split(s, sep)[|Split(s, sep)| - 1] == [s[0]] + rest[0];
      } else {
        assert Split(s, sep)[|Split(s, sep)| - 1] == rest[|rest| - 1];
        assert t != [];
        EmptyLastPieceMeansTrailingSep(t, sep);
        assert s[|s| - |sep|..] == t[|t| - |sep|..];
      }
    }
  }

  /** `split_line(l, sep, strip)`: trim whitespace, drop trailing characters that occur
      in `sep`, split at `sep` and, with `strip`, trim every piece. An empty separator
      makes `str.split` raise. */
  function SplitLine(l: string, sep: string, strip: bool): (r: Result<seq<string>>)
    ensures r.Ok? <==> sep != []
    ensures r.Ok? ==> |r.value| >= 1
  {
    if sep == [] then Err(ValueError)
    else
      var v := Split(RStripChars(Strip(l), sep), sep);
      if strip then Ok(StripAll(v)) else Ok(v)
  }

  /** `[vv.strip() for vv in v]` */
  function StripAll(v: seq<string>): (r: seq<string>)
    ensures |r| == |v|
    ensures forall k :: 0 <= k < |v| ==> r[k] == Strip(v[k])
  {
    if v == [] then [] else [Strip(v[0])] + StripAll(v[1..])
  }

  /** The line with surrounding whitespace and trailing separator characters removed:
      what `split_line` cuts into pieces. */
  function Cleaned(l: string, sep: string): string
  {
    RStripChars(Strip(l), sep)
  }

  /** Without `strip`, joining the pieces with `sep` rebuilds the cleaned line, and
      when that line is not empty its last piece is not empty either. */
  lemma {:induction false} SplitLineRoundTrip(l: string, sep: string)
    requires sep != []
    ensures Join(SplitLine(l, sep, false).value, sep) == Cleaned(l, sep)
    ensures var v := SplitLine(l, sep, false).value;
            Cleaned(l, sep) != [] ==> v[|v| - 1] != []
  {
    var c := Cleaned(l, sep);
    JoinSplit(c, sep);
    var v := Split(c, sep);
    if c != [] && v[|v| - 1] == [] {
      RStripCharsSpec(Strip(l), sep);
      EmptyLastPieceMeansTrailingSep(c, sep);
      assert false;
    }
  }

  /** With `strip`, there are as many pieces as without, and each is the trimmed
      version of the corresponding unstripped piece. */
  lemma {:induction false} SplitLineStripped(l: string, sep: string)
    requires sep != []
    ensures var plain := SplitLine(l, sep, false).value;
            var stripped := SplitLine(l, sep, true).value;
            && |stripped| == |plain|
            && forall k :: 0 <= k < |plain| ==> stripped[k] == Strip(plain[k]) && Trimmed(stripped[k])
  {
    var plain := SplitLine(l, sep, false).value;
    forall k | 0 <= k < |plain| ensures Trimmed(Strip(plain[k])) {
      StripTrims(plain[k]);
    }
  }

  /** A string without the (one-character) separator is a single piece. */
  lemma {:induction false} SplitWithoutSep(a: string, sep: string)
    requires |sep| == 1 && sep[0] !in a
    ensures Split(a, sep) == [a]
    decreases |a|
  {
    if a != [] {
      SplitWithoutSep(a[1..], sep);
      assert [a[0]] + a[1..] == a;
    }
  }

  /** The first piece ends at the first occurrence of a one-character separator. */
  lemma {:induction false} SplitAtFirstSep(a: string, sep: string, b: string)
    requires |sep| == 1 && sep[0] !in a
    ensures Split(a + sep + b, sep) == [a] + Split(b, sep)
    decreases |a|
  {
    if a == [] {
      assert (a + sep + b)[..1] == sep;
      assert (a + sep + b)[1..] == b;
    } else {
      assert (a + sep + b)[1..] == a[1..] + sep + b;
      SplitAtFirstSep(a[1..], sep, b);
      assert [a[0]] + a[1..] == a;
    }
  }

  /** The example of the library's own tests: `"  hello, world!"` split at `","`. */
  lemma SplitLineExample()
    ensures SplitLine("  hello, world!", ",", false) == Ok(["hello", " world!"])
  {
    CleanedExample();
    HelloWorldSplit();
  }

  lemma HelloWorldSplit()
    ensures Split("hello, world!", ",") == ["hello", " world!"]
  {
    SplitWithoutSep(" world!", ",");
    assert "hello, world!" == "hello" + "," + " world!";
    SplitAtFirstSep("hello", ",", " world!");
  }

  lemma CleanedExample()
    ensures Cleaned("  hello, world!", ",") == "hello, world!"
  {
    var line := "  hello, world!";
    var body := "hello, world!";
    assert line[1..][1..] == body;
    assert LStrip(body) == body;
    assert LStrip(line[1..]) == body;
    assert RStrip(body) == body;
    assert RStripChars(body, ",") == body;
  }

  /** The same line with `strip`: the second piece loses its leading blank. */
  lemma SplitLineStripExample()
    ensures SplitLine("  hello, world!", ",", true) == Ok(["hello", "world!"])
  {
    SplitLineExample();
    StripExample();
    assert StripAll(["hello", " world!"]) == ["hello", "world!"];
  }

  lemma StripExample()
    ensures Strip("hello") == "hello"
    ensures Strip(" world!") == "world!"
  {
    assert " world!"[1..] == "world!";
    assert LStrip(" world!") == "world!";
    assert RStrip("world!") == "world!";
    assert LStrip("hello") == "hello";
    assert RStrip("hello") == "hello";
  }

  /** `is_iterable(obj)`: a list, a tuple or a dict (and so not a string). */
  predicate IsIterable(v: Value)
  {
    v.Other? && v.typeName in {"list", "tuple", "dict"}
  }

  /** Lists, tuples and dicts are iterable whether or not they are empty; strings,
      numbers, `None` and other objects are not. */
  lemma IsIterableCases(v: Value)
    ensures v.StrV? || v.IntV? || v.FloatV? || v.Null? ==> !IsIterable(v)
    ensures IsIterable(Other("list", false)) && IsIterable(Other("tuple", true)) && IsIterable(Other("dict", false))
    ensures !IsIterable(Other("set", true))
  {
  }
}
