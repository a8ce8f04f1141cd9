/** The scenario fixtures and the scenario registry of the standalone plan
    (plans/standalone/main.go): the key and value written for index `i`, and
    the name-to-scenario map handed to the test runner. */
module Fixtures {
  import opened Base
  import opened Format

  const KeyWidth: nat := 9
  const ValWidth: nat := 10

  /** `toKey(i)`: `fmt.Sprintf("%09d", i)`. */
  function ToKey(i: Int64): (r: GoString)
    ensures ParseDecimal(r) == Some(i as int)
    ensures 0 <= i < 1_000_000_000 ==> |r| == 9 && AllDigits(r)
  {
    FormatIntRoundTrip(i, KeyWidth);
    FixedWidthShape(i, KeyWidth);
    FormatInt(i, KeyWidth)
  }

  /** `toVal(i)`: the bytes of `fmt.Sprintf("%010d", i)`. */
  function ToVal(i: Int64): (r: GoString)
    ensures ParseDecimal(r) == Some(i as int)
    ensures 0 <= i < 10_000_000_000 ==> |r| == 10 && AllDigits(r)
  {
    FormatIntRoundTrip(i, ValWidth);
    FixedWidthShape(i, ValWidth);
    FormatInt(i, ValWidth)
  }

  /** A non-negative number below `10^width` fills the zero-padded field
      exactly, with digits only. */
  lemma FixedWidthShape(i: int, width: nat)
    requires width >= 1
    ensures 0 <= i < Pow10(width) ==>
              |FormatInt(i, width)| == width && AllDigits(FormatInt(i, width))
  {
    if 0 <= i < Pow10(width) {
      DigitsLength(i, width);
      PadZerosValue(Digits(i), width);
    }
  }

  /** Distinct in-range indices give distinct keys, in the same order. */
  lemma KeyOrder(i: Int64, j: Int64)
    requires 0 <= i < j < 1_000_000_000
    ensures LexLess(ToKey(i), ToKey(j))
    ensures ToKey(i) != ToKey(j)
  {
    DigitsValue(i);
    DigitsValue(j);
    PadZerosValue(Digits(i), KeyWidth);
    PadZerosValue(Digits(j), KeyWidth);
    LexLessIsNumericLess(ToKey(i), ToKey(j));
  }

  /** For a key-range index the value is the key with one more `'0'` in front. */
  lemma ValExtendsKey(i: Int64)
    requires 0 <= i < 1_000_000_000
    ensures ToVal(i) == ['0'] + ToKey(i)
  {
    DigitsLength(i, KeyWidth);
    var d := Digits(i);
    assert |d| <= 9;
    assert Zeros(10 - |d|) == ['0'] + Zeros(9 - |d|);
  }

  /** `%09d` is a minimum width: from `10^9` on the key is the bare numeral,
      longer than nine bytes and with no leading zero. */
  lemma KeyUnpadded(i: Int64)
    requires i >= 1_000_000_000
    ensures ToKey(i) == Digits(i)
    ensures |ToKey(i)| > 9 && ToKey(i)[0] != '0'
  {
    DigitsLength(i, KeyWidth);
  }

  // ---------------------------------------------------------------------
  // The scenario registry

  datatype Scenario = DMapGetPut | DMapPutDelete | DMapPutEx | DMapPutIf

  /** The name each scenario function is declared under. */
  function Name(s: Scenario): GoString
  {
    match s
    case DMapGetPut => "DMapGetPut"
    case DMapPutDelete => "DMapPutDelete"
    case DMapPutEx => "DMapPutEx"
    case DMapPutIf => "DMapPutIf"
  }

  /** `testcases`: fixed at start-up and never changed. */
  const Testcases: map<GoString, Scenario> := map[
    "DMapGetPut" := DMapGetPut,
    "DMapPutDelete" := DMapPutDelete,
    "DMapPutEx" := DMapPutEx,
    "DMapPutIf" := DMapPutIf
  ]

  /** Looking a scenario up by name; a name not in the registry finds nothing. */
  function Lookup(name: GoString): (r: Option<Scenario>)
    ensures r.Some? <==> name in {"DMapGetPut", "DMapPutDelete", "DMapPutEx", "DMapPutIf"}
    ensures r.Some? ==> Name(r.value) == name
  {
    if name in Testcases then Some(Testcases[name]) else None
  }

  /** Every scenario is registered under its own name. */
  lemma RegistryComplete(s: Scenario)
    ensures Lookup(Name(s)) == Some(s)
  {
  }
}
