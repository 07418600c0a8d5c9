/** The parameter registry: the three name lists, membership, and the validation of
    a request's `param` and `value`. */
module Registry {
  import opened Wrappers
  import opened Text
  import opened Strconv

  /** Level parameters: values 0..255, hexadecimal in telemetry. */
  const VParams: seq<string> := ["V00", "V01", "V02", "V03", "V04", "V05", "V06", "V07", "V08"]
  /** Threshold parameters: values 0..999. */
  const TParams: seq<string> := ["T01", "T02", "T03", "T04", "T05", "T06", "T07", "T08"]
  /** Toggle parameters: no value. */
  const PumpParams: seq<string> := ["PUMP_ON", "PUMP_OFF"]

  /** Membership scan, first element first, as the source's `for range` loops do it. */
  function InSlice<T(==)>(a: T, list: seq<T>): (r: bool)
    ensures r <==> exists i :: 0 <= i < |list| && list[i] == a
  {
    if |list| == 0 then false
    else if list[0] == a then true
    else InSlice(a, list[1..])
  }

  /** `stringInSlice(a, list)`. */
  function StringInSlice(a: string, list: seq<string>): (r: bool)
    ensures r <==> a in list
  {
    InSlice(a, list)
  }

  /** `contains(s, e)`. */
  function Contains(s: seq<int>, e: int): (r: bool)
    ensures r <==> e in s
  {
    InSlice(e, s)
  }

  /** `URLParamValid(s)`: the name is on one of the three lists. Such a name holds
      neither `=` nor `;`. */
  function URLParamValid(p: string): (b: bool)
    ensures b ==> '=' !in p && ';' !in p
  {
    if StringInSlice(p, VParams) || StringInSlice(p, TParams) then
      ListsMatchClasses(p);
      NumberedNameIsPlain(p);
      true
    else if StringInSlice(p, PumpParams) then
      TogglesArePlain(p);
      true
    else false
  }

  /** `URLValueValid(p, v)`: a non-empty value must parse as a decimal `int64` and lie in
      0..255 for a level parameter or 0..999 for a threshold parameter; an empty value is
      accepted for a toggle parameter only. */
  function URLValueValid(p: string, v: string): (b: bool)
    ensures b ==> URLParamValid(p)
    ensures b && |v| > 0 ==> ParseInt(v, 10).Some? && 0 <= ParseInt(v, 10).value < 1000
  {
    if |v| > 0 then
      match ParseInt(v, 10)
      case None => false
      case Some(n) =>
        if StringInSlice(p, VParams) && n >= 0 && n < 256 then true
        else if StringInSlice(p, TParams) && n >= 0 && n < 1000 then true
        else false
    else StringInSlice(p, PumpParams)
  }

  /** The class of a parameter, as the registry assigns it. */
  datatype ParamClass = Level | Threshold | Toggle | Unknown

  /** The reference registry: level names are `V00`..`V08`, threshold names `T01`..`T08`,
      toggles `PUMP_ON` and `PUMP_OFF`. */
  function ClassOf(p: string): ParamClass
  {
    if |p| == 3 && p[0] == 'V' && p[1] == '0' && '0' <= p[2] <= '8' then Level
    else if |p| == 3 && p[0] == 'T' && p[1] == '0' && '1' <= p[2] <= '8' then Threshold
    else if p == "PUMP_ON" || p == "PUMP_OFF" then Toggle
    else Unknown
  }

  /** The largest value a class accepts. */
  function MaxValue(c: ParamClass): int
  {
    match c
    case Level => 255
    case Threshold => 999
    case _ => -1
  }

  /** The lists agree with the reference registry name by name. */
  lemma ListsMatchClasses(p: string)
    ensures p in VParams <==> ClassOf(p) == Level
    ensures p in TParams <==> ClassOf(p) == Threshold
    ensures p in PumpParams <==> ClassOf(p) == Toggle
  {
    if ClassOf(p) == Level {
      assert p == ['V', '0', p[2]];
    } else if ClassOf(p) == Threshold {
      assert p == ['T', '0', p[2]];
    }
  }

  /** `URLParamValid` accepts exactly the 19 names of the three lists. */
  lemma ParamValidIffKnown(p: string)
    ensures URLParamValid(p) <==> ClassOf(p) != Unknown
    ensures URLParamValid(p) <==> p in VParams + TParams + PumpParams
  {
    ListsMatchClasses(p);
  }

  /** The three lists are disjoint and hold 19 distinct names. */
  lemma RegistryHasNineteenNames()
    ensures |VParams + TParams + PumpParams| == 19
    ensures forall i, j :: 0 <= i < j < 19 ==> (VParams + TParams + PumpParams)[i] != (VParams + TParams + PumpParams)[j]
  {
    var all := VParams + TParams + PumpParams;
    forall i, j | 0 <= i < j < 19 ensures all[i] != all[j] {
      ListsMatchClasses(all[i]);
      ListsMatchClasses(all[j]);
      if i < 9 && j < 9 {
        assert all[i][2] != all[j][2];
      } else if 9 <= i < 17 && 9 <= j < 17 {
        assert all[i][2] != all[j][2];
      } else if 17 <= i {
        assert |all[i]| != |all[j]|;
      }
    }
  }

  /** A value is accepted exactly when it is a decimal `int64` within the class's
      range, or empty for a toggle. */
  lemma ValueValidIffInRange(p: string, v: string)
    ensures URLValueValid(p, v) <==>
      if |v| == 0 then ClassOf(p) == Toggle
      else ParseInt(v, 10).Some? && 0 <= ParseInt(v, 10).value <= MaxValue(ClassOf(p))
  {
    ListsMatchClasses(p);
  }

  /** Written as a decimal number, a value is accepted for a level parameter exactly
      in 0..255 and for a threshold parameter exactly in 0..999, for every integer. */
  lemma DecimalValueRanges(p: string, n: int)
    ensures ClassOf(p) == Level ==> (URLValueValid(p, FormatInt(n, 10)) <==> 0 <= n <= 255)
    ensures ClassOf(p) == Threshold ==> (URLValueValid(p, FormatInt(n, 10)) <==> 0 <= n <= 999)
    ensures ClassOf(p) == Toggle || ClassOf(p) == Unknown ==> !URLValueValid(p, FormatInt(n, 10))
  {
    ParseFormat(n, 10);
    FormatIntCharacters(n, 10);
    ValueValidIffInRange(p, FormatInt(n, 10));
    FormatNatDenotes(if n < 0 then -n else n, 10);
  }

  /** The level boundaries: 0 and 255 are accepted, 256 and -1 rejected. */
  lemma LevelBoundaryValues()
    ensures URLValueValid("V00", "0") && URLValueValid("V08", "255")
    ensures !URLValueValid("V00", "256") && !URLValueValid("V00", "-1")
  {
    DecimalValueRanges("V00", 0);
    DecimalValueRanges("V08", 255);
    DecimalValueRanges("V00", 256);
    DecimalValueRanges("V00", -1);
    DecimalTexts();
  }

  /** The threshold boundaries: 0 and 999 are accepted, 1000 and -1 rejected. */
  lemma ThresholdBoundaryValues()
    ensures URLValueValid("T01", "0") && URLValueValid("T08", "999")
    ensures !URLValueValid("T01", "1000") && !URLValueValid("T01", "-1")
  {
    DecimalValueRanges("T01", 0);
    DecimalValueRanges("T08", 999);
    DecimalValueRanges("T01", 1000);
    DecimalValueRanges("T01", -1);
    DecimalTexts();
  }

  /** The decimal texts of the boundary values. */
  lemma DecimalTexts()
    ensures FormatInt(0, 10) == "0" && FormatInt(-1, 10) == "-1"
    ensures FormatInt(255, 10) == "255" && FormatInt(256, 10) == "256"
    ensures FormatInt(999, 10) == "999" && FormatInt(1000, 10) == "1000"
  {
    assert FormatNat(25, 10) == "25" by { assert FormatNat(2, 10) == "2"; }
    assert FormatNat(99, 10) == "99" by { assert FormatNat(9, 10) == "9"; }
    assert FormatNat(100, 10) == "100" by { assert FormatNat(10, 10) == "10" by { assert FormatNat(1, 10) == "1"; } }
  }

  /** A value with a character that is neither a decimal digit nor a leading sign is
      rejected for every parameter. */
  lemma NonNumericRejected(p: string, v: string, i: int)
    requires 0 <= i < |v| && !('0' <= v[i] <= '9')
    requires i > 0 || (v[i] != '+' && v[i] != '-')
    ensures !URLValueValid(p, v)
  {
    if ParseInt(v, 10).Some? {
      ParsedCharacters(v, 10);
    }
  }

  /** `ff` and `abc` are rejected for every parameter. */
  lemma HexTextRejected(p: string)
    ensures !URLValueValid(p, "ff") && !URLValueValid(p, "abc")
  {
    NonNumericRejected(p, "ff", 0);
    NonNumericRejected(p, "abc", 0);
  }

  /** A toggle accepts only the empty value, and the empty value is accepted only for
      a toggle. */
  lemma ToggleTakesNoValue(p: string, v: string)
    ensures p in PumpParams ==> (URLValueValid(p, v) <==> v == "")
    ensures URLValueValid(p, "") <==> p in PumpParams
  {
    if p in PumpParams && |v| > 0 {
      ListsMatchClasses(p);
    }
  }

  /** A name passing `URLParamValid` starts with `PUMP` exactly when it is a toggle, so
      the encoding branch agrees with the registry class. */
  lemma PumpPrefixMatchesClass(p: string)
    requires URLParamValid(p)
    ensures HasPrefix(p, "PUMP") <==> p in PumpParams
  {
    ListsMatchClasses(p);
    if p in PumpParams {
      TogglesStartWithPump(p);
    } else {
      assert |p| == 3;
    }
  }

  /** Both toggle names start with `PUMP`. */
  lemma TogglesStartWithPump(p: string)
    requires p in PumpParams
    ensures HasPrefix(p, "PUMP")
  {
    assert p == "PUMP_ON" || p == "PUMP_OFF";
    assert p[..4] == "PUMP";
  }

  /** A validated non-toggle request carries a value that parses as a decimal integer. */
  lemma ValidatedValueParses(p: string, v: string)
    requires URLParamValid(p) && URLValueValid(p, v) && p !in PumpParams
    ensures ParseInt(v, 10).Some?
    ensures p in VParams ==> 0 <= ParseInt(v, 10).value <= 255
    ensures p in TParams ==> 0 <= ParseInt(v, 10).value <= 999
  {
    ListsMatchClasses(p);
    ValueValidIffInRange(p, v);
  }

  /** The name and value of a validated non-toggle request hold neither `=` nor `;`. */
  lemma ValidatedTextIsPlain(p: string, v: string)
    requires URLParamValid(p) && URLValueValid(p, v) && p !in PumpParams
    ensures '=' !in p && ';' !in p && '=' !in v && ';' !in v
  {
    ListsMatchClasses(p);
    NumberedNameIsPlain(p);
    ValidatedValueParses(p, v);
    ParsedTextIsPlain(v);
  }

  /** The toggle names hold neither `=` nor `;`. */
  lemma TogglesArePlain(p: string)
    requires p in PumpParams
    ensures '=' !in p && ';' !in p
  {
  }

  /** Level and threshold names are a letter, `0` and a digit. */
  lemma NumberedNameIsPlain(p: string)
    requires ClassOf(p) == Level || ClassOf(p) == Threshold
    ensures '=' !in p && ';' !in p
  {
    assert p == [p[0], '0', p[2]];
  }

  /** A value that parses holds only a sign and digits. */
  lemma ParsedTextIsPlain(v: string)
    requires ParseInt(v, 10).Some?
    ensures '=' !in v && ';' !in v
  {
    ParsedCharacters(v, 10);
  }
}
