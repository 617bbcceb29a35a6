/** The four column kinds, their one-character tags, kind inference from
    values and from strings, and the table that decides which kind pairs
    can be converted and with which format.

    The actual parsers and formatters (`int()`, `float()`,
    `datetime.strptime`, `datetime.strftime`, `%`-formatting) are not
    modelled: they arrive as the uninterpreted functions of a `Codecs`
    record, and what is verified is the decision logic around them. */
module TTypes {

  import opened Wrappers
  import opened Values

  /** integer, floating point, date/time, string */
  datatype Kind = I | F | D | S

  /** The one-character tag the library stores for a kind. */
  function Tag(k: Kind): string
  {
    match k
    case I => "i"
    case F => "f"
    case D => "d"
    case S => "s"
  }

  /** `ALLOWED_TYPES` */
  const AllowedTypes: seq<string> := ["i", "f", "d", "s"]

  /** `MAX_STRING_LEN_NUMPY` and `MAX_STRING_DATE_LEN_NUMPY`: the byte widths used
      when strings and dates are stored in an HDF5 file. */
  const MaxStringLenNumpy: nat := 100
  const MaxStringDateLenNumpy: nat := 20

  /** `NUMPY_TYPE`: the storage type of each tag in an HDF5 file. */
  const NumpyType: map<string, string> := map["i" := "i8", "f" := "f8", "s" := "S100", "d" := "S20"]

  /** `isTypeStr`: membership in `ALLOWED_TYPES`. */
  predicate IsTypeStr(stype: string)
  {
    stype in AllowedTypes
  }

  /** Only the four one-letter tags are kinds: longer strings, other letters and the
      empty string are not. */
  lemma IsTypeStrExamples()
    ensures IsTypeStr("i") && IsTypeStr("f") && IsTypeStr("d") && IsTypeStr("s")
    ensures !IsTypeStr("is") && !IsTypeStr("g") && !IsTypeStr("m") && !IsTypeStr("")
  {
  }

  /** The kind a tag stands for, if it is one of the allowed tags. */
  function KindOf(stype: string): (r: Option<Kind>)
    ensures r.Some? <==> IsTypeStr(stype)
    ensures r.Some? ==> Tag(r.value) == stype
  {
    if stype == "i" then Some(I)
    else if stype == "f" then Some(F)
    else if stype == "d" then Some(D)
    else if stype == "s" then Some(S)
    else None
  }

  /** A string is an allowed tag exactly when it is the tag of one of the four kinds,
      and the tags of different kinds differ. */
  lemma {:induction false} TagsAreAllowedTypes(stype: string)
    ensures IsTypeStr(stype) <==> exists k :: Tag(k) == stype
    ensures forall k, k' :: Tag(k) == Tag(k') ==> k == k'
  {
    if IsTypeStr(stype) {
      assert Tag(KindOf(stype).value) == stype;
    }
  }

  /** The pairs `getTypeConverter` supports: from string to every kind, from every
      kind to string, and float to int. Converting a string to a date or a date to
      a string also needs a (non-empty) format. */
  predicate ConversionAllowed(oldTag: string, newTag: string, fmt: Option<string>)
  {
    || (oldTag, newTag) in {("s", "i"), ("s", "f"), ("s", "s"), ("i", "s"), ("f", "i"), ("f", "s")}
    || ((oldTag, newTag) in {("s", "d"), ("d", "s")} && Given(fmt))
  }

  /** The format `getTypeConverter` falls back on when no format is given. */
  function DefaultFormat(oldTag: string, newTag: string): Option<string>
  {
    if newTag != "s" then None
    else if oldTag == "s" then Some("%s")
    else if oldTag == "i" then Some("%d")
    else if oldTag == "f" then Some("%g")
    else None
  }

  /** The uninterpreted parsers and formatters of the Python runtime. Each returns
      `None` where Python raises. */
  datatype Codecs = Codecs(
    toInt: Value -> Option<int>,               // int(x)
    toFloat: Value -> Option<Float>,           // float(x)
    strptime: (string, string) -> Option<Date>, // datetime.strptime(text, fmt)
    strftime: (Date, string) -> Option<string>, // datetime.strftime(date, fmt)
    percent: (string, Value) -> Option<string>) // fmt % (x)

  /** The converter closures `getTypeConverter` returns, one constructor per lambda. */
  datatype Conv =
    | ToInt                    // int
    | ToFloat                  // float
    | ParseDate(fmt: string)   // lambda s: datetime.strptime(s, fmt)
    | Percent(fmt: string)     // lambda x: fmt % (x)
    | FormatDate(fmt: string)  // lambda x: datetime.strftime(x, fmt)

  /** Calling a converter on one value; `None` where Python raises. */
  function Apply(cx: Codecs, c: Conv, v: Value): Option<Value>
  {
    match c
    case ToInt => (match cx.toInt(v) case Some(n) => Some(IntV(n)) case None => None)
    case ToFloat => (match cx.toFloat(v) case Some(x) => Some(FloatV(x)) case None => None)
    case ParseDate(fmt) =>
      if !v.StrV? then None
      else (match cx.strptime(v.s, fmt) case Some(d) => Some(DateV(d)) case None => None)
    case Percent(fmt) => (match cx.percent(fmt, v) case Some(s) => Some(StrV(s)) case None => None)
    case FormatDate(fmt) =>
      if !v.DateV? then None
      else (match cx.strftime(v.d, fmt) case Some(s) => Some(StrV(s)) case None => None)
  }

  /** The converter a supported pair is served by, and the format it reports: the
      formatting converters report exactly the format they embed, the parsing ones
      report none. */
  predicate ConverterFits(c: Conv, oldTag: string, newTag: string, reported: Option<string>)
  {
    match c
    case ToInt => newTag == "i" && reported == None
    case ToFloat => newTag == "f" && reported == None
    case ParseDate(f) => oldTag == "s" && newTag == "d" && reported == Some(f)
    case Percent(f) => oldTag != "d" && newTag == "s" && reported == Some(f)
    case FormatDate(f) => oldTag == "d" && newTag == "s" && reported == Some(f)
  }

  /** `getTypeConverter(oldTag, newTag, fmt)`: the converter from `oldTag` to `newTag` and the
      format it uses. Fails on an unknown tag, on an unsupported pair and on a
      missing format for string-to-date or date-to-string. A given format always
      wins; otherwise the default format of the pair is used. */
  function GetTypeConverter(oldTag: string, newTag: string, fmt: Option<string>): (r: Result<(Conv, Option<string>)>)
    ensures r.Ok? <==> ConversionAllowed(oldTag, newTag, fmt)
    ensures r.Ok? ==> (r.value.1.Some? <==> newTag == "s" || newTag == "d")
    ensures r.Ok? && r.value.1.Some? ==> r.value.1 == (if Given(fmt) then fmt else DefaultFormat(oldTag, newTag))
    ensures r.Ok? ==> ConverterFits(r.value.0, oldTag, newTag, r.value.1)
    ensures r.Err? ==> r.error == AssertionFailed
  {
    if !IsTypeStr(oldTag) || !IsTypeStr(newTag) then Err(AssertionFailed)
    else if oldTag == "s" then
      if newTag == "i" then Ok((ToInt, None))
      else if newTag == "f" then Ok((ToFloat, None))
      else if newTag == "d" then
        if Given(fmt) then Ok((ParseDate(fmt.value), fmt)) else Err(AssertionFailed)
      else
        var f := if Given(fmt) then fmt.value else "%s";
        Ok((Percent(f), Some(f)))
    else if oldTag == "i" && newTag == "s" then
      var f := if Given(fmt) then fmt.value else "%d";
      Ok((Percent(f), Some(f)))
    else if oldTag == "f" && newTag == "i" then Ok((ToInt, None))
    else if oldTag == "f" && newTag == "s" then
      var f := if Given(fmt) then fmt.value else "%g";
      Ok((Percent(f), Some(f)))
    else if oldTag == "d" && newTag == "s" then
      if Given(fmt) then Ok((FormatDate(fmt.value), fmt)) else Err(AssertionFailed)
    else Err(AssertionFailed)
  }

  /** `getType(val)`: the kind of a runtime value; anything that is not an int
      (bools included), a float, a date or a string is rejected. */
  function GetType(v: Value): (r: Result<Kind>)
    ensures r.Err? <==> v.Null? || v.Other?
    ensures r.Ok? ==> (r.value == I <==> v.IntV? || v.BoolV?)
    ensures v.FloatV? ==> r == Ok(F)
    ensures v.DateV? ==> r == Ok(D)
    ensures v.StrV? ==> r == Ok(S)
  {
    match v
    case IntV(_) => Ok(I)
    case BoolV(_) => Ok(I)
    case FloatV(_) => Ok(F)
    case DateV(_) => Ok(D)
    case StrV(_) => Ok(S)
    case Null => Err(AssertionFailed)
    case Other(_, _) => Err(AssertionFailed)
  }

  /** Whatever a converter returned by `GetTypeConverter(oldTag, newTag, _)` produces
      is a value of kind `newTag`, whatever it was given. */
  lemma {:induction false} ConvertedValueHasNewKind(cx: Codecs, oldTag: string, newTag: string, fmt: Option<string>, v: Value)
    requires GetTypeConverter(oldTag, newTag, fmt).Ok?
    requires Apply(cx, GetTypeConverter(oldTag, newTag, fmt).value.0, v).Some?
    ensures KindOf(newTag).Some?
    ensures GetType(Apply(cx, GetTypeConverter(oldTag, newTag, fmt).value.0, v).value) == Ok(KindOf(newTag).value)
  {
    var c := GetTypeConverter(oldTag, newTag, fmt).value.0;
    if newTag == "s" {
      assert c.Percent? || c.FormatDate?;
    } else if newTag == "i" {
      assert c.ToInt?;
    } else if newTag == "f" {
      assert c.ToFloat?;
    } else {
      assert c.ParseDate?;
    }
  }

  /** `isDateStr(sstr, fmt)`: whether `strptime` accepts the string. */
  predicate IsDateStr(cx: Codecs, sstr: string, fmt: string)
  {
    cx.strptime(sstr, fmt).Some?
  }

  /** `getTypeStr(sstr, fmt_date)`: the kind a string reads as, trying int, then
      float, then (only with a date format) date, and falling back on string. */
  function GetTypeStr(cx: Codecs, sstr: string, fmtDate: Option<string>): Kind
  {
    if cx.toInt(StrV(sstr)).Some? then I
    else if cx.toFloat(StrV(sstr)).Some? then F
    else if Given(fmtDate) && IsDateStr(cx, sstr, fmtDate.value) then D
    else S
  }

  /** The order in which `getTypeStr` tries the kinds: a string that reads as an int is
      never a float or a date, one that reads as a float is never a date, and a date is
      only reported when a date format was given and neither number parser accepted. */
  lemma GetTypeStrPriority(cx: Codecs, sstr: string, fmtDate: Option<string>)
    ensures cx.toInt(StrV(sstr)).Some? ==> GetTypeStr(cx, sstr, fmtDate) == I
    ensures GetTypeStr(cx, sstr, fmtDate) == F <==>
              cx.toInt(StrV(sstr)).None? && cx.toFloat(StrV(sstr)).Some?
    ensures GetTypeStr(cx, sstr, fmtDate) == D <==>
              cx.toInt(StrV(sstr)).None? && cx.toFloat(StrV(sstr)).None? &&
              Given(fmtDate) && IsDateStr(cx, sstr, fmtDate.value)
    ensures !Given(fmtDate) ==> GetTypeStr(cx, sstr, fmtDate) != D
  {
  }

  /** The kind `getTypeStr` infers for a non-string reading is one the string really
      converts to: the converter from "s" to that kind exists for the same date
      format, accepts the string, and yields a value of that kind. */
  lemma {:induction false} InferredKindConverts(cx: Codecs, sstr: string, fmtDate: Option<string>)
    requires GetTypeStr(cx, sstr, fmtDate) != S
    ensures var k := GetTypeStr(cx, sstr, fmtDate);
            var conv := GetTypeConverter("s", Tag(k), fmtDate);
            && conv.Ok?
            && Apply(cx, conv.value.0, StrV(sstr)).Some?
            && GetType(Apply(cx, conv.value.0, StrV(sstr)).value) == Ok(k)
  {
    var k := GetTypeStr(cx, sstr, fmtDate);
    ConvertedValueHasNewKind(cx, "s", Tag(k), fmtDate, StrV(sstr));
  }

  /** `getH5TypeStr(stype)`: the HDF5 storage type of a tag; fails on an unknown tag.
      Strings and dates are stored as fixed-width byte strings of the two widths. */
  function GetH5TypeStr(stype: string): (r: Result<string>)
    ensures r.Ok? <==> IsTypeStr(stype)
    ensures stype == "i" ==> r == Ok("i8")
    ensures stype == "f" ==> r == Ok("f8")
    ensures stype == "s" ==> r == Ok("S100")
    ensures stype == "d" ==> r == Ok("S20")
  {
    if stype in AllowedTypes then Ok(NumpyType[stype]) else Err(AssertionFailed)
  }

  /** The byte-string widths in `NUMPY_TYPE` agree with the two length caps, as the
      comment beside the constants asks; `NUMPY_TYPE` covers exactly the allowed tags. */
  lemma NumpyWidthsMatchCaps()
    ensures NumpyType.Keys == set t | t in AllowedTypes
    ensures GetH5TypeStr("s") == Ok("S" + Decimal(MaxStringLenNumpy))
    ensures GetH5TypeStr("d") == Ok("S" + Decimal(MaxStringDateLenNumpy))
  {
    assert Decimal(10) == "10";
    assert Decimal(MaxStringLenNumpy) == "100";
    assert Decimal(MaxStringDateLenNumpy) == "20";
    assert "S" + "100" == "S100";
    assert "S" + "20" == "S20";
  }
}
