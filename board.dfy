/** The NodeMCU board's mapping from pin names ("d0".."d10", "led") to
    GPIO device indices. */
module NodeMcuBoard {
  import opened Common

  /** GPIO device index of board pins d0, d1, ..., d10, in that order. */
  const DEVICE_INDEX: seq<int> := [16, 5, 4, 0, 2, 14, 12, 13, 15, 3, 1]

  /** Every device index a pin name can map to. */
  const DEVICE_INDICES: set<int> := {0, 1, 2, 3, 4, 5, 12, 13, 14, 15, 16}

  predicate IsDigit(c: char)
  {
    '0' <= c <= '9'
  }

  predicate AllDigits(s: string)
  {
    forall i :: 0 <= i < |s| ==> IsDigit(s[i])
  }

  /** The longest prefix of `s` made of decimal digits. */
  function DigitPrefix(s: string): (p: string)
    ensures p <= s && AllDigits(p)
    ensures |p| < |s| ==> !IsDigit(s[|p|])
  {
    if s == [] || !IsDigit(s[0]) then [] else [s[0]] + DigitPrefix(s[1..])
  }

  /** The number a string of decimal digits denotes. */
  function DecimalValue(digits: string): nat
    requires AllDigits(digits)
  {
    if digits == [] then 0
    else 10 * DecimalValue(digits[..|digits| - 1]) + (digits[|digits| - 1] as int - '0' as int)
  }

  /** The library routine `std_strtol` as the board code uses it: NULL (here
      None) when no number starts the string, otherwise the value of its
      leading run of decimal digits; whatever follows the digits is ignored. */
  function StrToL(s: string): (r: Option<nat>)
    ensures r.None? <==> s == [] || !IsDigit(s[0])
  {
    if s == [] || !IsDigit(s[0]) then None else Some(DecimalValue(DigitPrefix(s)))
  }

  /** The decimal representation of `n`, without leading zeros. */
  function DecimalString(n: nat): (s: string)
    ensures |s| > 0 && AllDigits(s)
  {
    if n < 10 then [('0' as int + n) as char]
    else DecimalString(n / 10) + [('0' as int + n % 10) as char]
  }

  lemma {:induction false} DecimalValueOfString(n: nat)
    ensures DecimalValue(DecimalString(n)) == n
  {
    if n >= 10 {
      var s := DecimalString(n);
      DecimalValueOfString(n / 10);
      assert s[..|s| - 1] == DecimalString(n / 10);
    }
  }

  lemma {:induction false} DigitPrefixOfDigits(s: string)
    requires AllDigits(s)
    ensures DigitPrefix(s) == s
  {
    if s != [] {
      DigitPrefixOfDigits(s[1..]);
    }
  }

  /** Parsing the decimal representation of `n` gives back `n`. */
  lemma DecimalRoundTrip(n: nat)
    ensures StrToL(DecimalString(n)) == Some(n)
  {
    DigitPrefixOfDigits(DecimalString(n));
    DecimalValueOfString(n);
  }

  /** board_pin_string_to_device_index: "d<n>" for n in 0..10 and "led" are
      mapped through the board table; everything else is -ENODEV. */
  function PinStringToDeviceIndex(s: string): (r: int)
    ensures r == -ENODEV || r in DEVICE_INDICES
    ensures r != -ENODEV <==>
      s == "led" || (|s| >= 1 && s[0] == 'd' && StrToL(s[1..]).Some? && StrToL(s[1..]).value <= 10)
    ensures s == "led" ==> r == DEVICE_INDEX[0]
    ensures |s| >= 1 && s[0] == 'd' && StrToL(s[1..]).Some? && StrToL(s[1..]).value <= 10 ==>
      r == DEVICE_INDEX[StrToL(s[1..]).value]
  {
    if |s| >= 1 && s[0] == 'd' then
      match StrToL(s[1..])
      case None => -ENODEV
      case Some(pin) =>
        if pin == 0 then 16
        else if pin == 1 then 5
        else if pin == 2 then 4
        else if pin == 3 then 0
        else if pin == 4 then 2
        else if pin == 5 then 14
        else if pin == 6 then 12
        else if pin == 7 then 13
        else if pin == 8 then 15
        else if pin == 9 then 3
        else if pin == 10 then 1
        else -ENODEV
    else if s == "led" then 16
    else -ENODEV
  }

  /** "d0".."d10" map to the board table. */
  lemma PinNameMaps(k: nat)
    requires k <= 10
    ensures PinStringToDeviceIndex("d" + DecimalString(k)) == DEVICE_INDEX[k]
  {
    DecimalRoundTrip(k);
    assert ("d" + DecimalString(k))[1..] == DecimalString(k);
  }

  /** "led" is another name for d0. */
  lemma LedIsD0()
    ensures PinStringToDeviceIndex("led") == PinStringToDeviceIndex("d0") == 16
  {
    PinNameMaps(0);
    assert "d" + DecimalString(0) == "d0";
  }

  /** "d<n>" with n above 10 names no pin. */
  lemma PinNumberOutOfRange(n: nat)
    requires n > 10
    ensures PinStringToDeviceIndex("d" + DecimalString(n)) == -ENODEV
  {
    DecimalRoundTrip(n);
    assert ("d" + DecimalString(n))[1..] == DecimalString(n);
  }

  /** A 'd' not followed by a number names no pin. */
  lemma PinNumberMissing(s: string)
    requires |s| >= 1 && s[0] == 'd' && (|s| == 1 || !IsDigit(s[1]))
    ensures PinStringToDeviceIndex(s) == -ENODEV
  {
    assert s[1..] == [] || !IsDigit(s[1..][0]);
  }

  /** d0..d10 name pairwise different GPIO pins. */
  lemma PinNamesDistinct(i: nat, j: nat)
    requires i <= 10 && j <= 10 && i != j
    ensures PinStringToDeviceIndex("d" + DecimalString(i)) != PinStringToDeviceIndex("d" + DecimalString(j))
  {
    PinNameMaps(i);
    PinNameMaps(j);
  }
}
