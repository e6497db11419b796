/**
 * The text forms of dates and times and the slot key that joins them.
 *
 * A candidate date is stored as its ISO text "YYYY-MM-DD", a time slot as
 * "HH:MM", and the answer of one user for one cell of the grid is stored under
 * the key `${date}_${slot}` (pages/index.js:287). Both parts have fixed widths,
 * so the key determines the cell: `DecodeKey` is the inverse that proves it.
 */
module SlotKey {
  import opened Wrappers
  import opened Calendar

  function Pow10(w: nat): (p: nat)
    ensures p >= 1
  {
    if w == 0 then 1 else 10 * Pow10(w - 1)
  }

  function DigitChar(n: int): char
    requires 0 <= n < 10
  {
    (48 + n) as char
  }

  predicate IsDigit(c: char) {
    '0' <= c <= '9'
  }

  function DigitValue(c: char): int {
    c as int - 48
  }

  /** `n` written in decimal with exactly `width` digits, padded with zeros. */
  function Digits(n: nat, width: nat): (s: string)
    ensures |s| == width
  {
    if width == 0 then [] else Digits(n / 10, width - 1) + [DigitChar(n % 10)]
  }

  lemma {:induction false} DigitsAreDigits(n: nat, width: nat)
    ensures AllDigits(Digits(n, width))
  {
    if width > 0 {
      DigitsAreDigits(n / 10, width - 1);
    }
  }

  /** The number a string of decimal digits denotes. */
  function DigitsValue(s: string): int {
    if s == [] then 0 else 10 * DigitsValue(s[..|s| - 1]) + DigitValue(s[|s| - 1])
  }

  lemma {:induction false} DigitsRoundTrip(n: nat, width: nat)
    requires n < Pow10(width)
    ensures DigitsValue(Digits(n, width)) == n
  {
    if width > 0 {
      DigitsRoundTrip(n / 10, width - 1);
      var s := Digits(n, width);
      assert s[..|s| - 1] == Digits(n / 10, width - 1);
    }
  }

  /** `toISOString().split('T')[0]` of a date: "YYYY-MM-DD". */
  function IsoDate(d: Day): (s: string)
    ensures |s| == 10 && s[4] == '-' && s[7] == '-'
  {
    Digits(d.year, 4) + "-" + Digits(d.month, 2) + "-" + Digits(d.day, 2)
  }

  /** A time slot as it is written in the slot list: "HH:MM". */
  function ClockText(t: ClockTime): (s: string)
    ensures |s| == 5 && s[2] == ':'
  {
    Digits(t.hour, 2) + ":" + Digits(t.minute, 2)
  }

  /** The key of one grid cell in a response's answers: `${date}_${slot}`. */
  function Key(d: Day, t: ClockTime): (k: string)
    ensures |k| == 16 && k[10] == '_'
  {
    IsoDate(d) + "_" + ClockText(t)
  }

  predicate AllDigits(s: string) {
    forall k :: 0 <= k < |s| ==> IsDigit(s[k])
  }

  /** A string of decimal digits is the zero-padded text of the number it denotes. */
  lemma {:induction false} DigitsValueRoundTrip(s: string)
    requires AllDigits(s)
    ensures 0 <= DigitsValue(s) < Pow10(|s|)
    ensures Digits(DigitsValue(s), |s|) == s
  {
    if s != [] {
      var init, c := s[..|s| - 1], s[|s| - 1];
      assert AllDigits(init) by {
        forall k | 0 <= k < |init| ensures IsDigit(init[k]) {
          assert init[k] == s[k];
        }
      }
      DigitsValueRoundTrip(init);
      assert IsDigit(c);
      var v := DigitsValue(s);
      assert v == 10 * DigitsValue(init) + DigitValue(c);
      assert v / 10 == DigitsValue(init) && v % 10 == DigitValue(c);
      assert DigitChar(DigitValue(c)) == c;
      assert s == init + [c];
    }
  }

  /** A key is assembled from its five fixed-width digit fields and its three separators. */
  lemma KeyFromParts(k: string, d: Day, t: ClockTime)
    requires |k| == 16 && k[4] == '-' && k[7] == '-' && k[10] == '_' && k[13] == ':'
    requires Digits(d.year, 4) == k[0..4] && Digits(d.month, 2) == k[5..7] && Digits(d.day, 2) == k[8..10]
    requires Digits(t.hour, 2) == k[11..13] && Digits(t.minute, 2) == k[14..16]
    ensures Key(d, t) == k
  {
    assert IsoDate(d) == k[0..10];
    assert ClockText(t) == k[11..16];
    assert k == k[0..10] + "_" + k[11..16];
  }

  /**
   * Reads a key back into its cell; `None` for text that no cell produces.
   * Whatever it accepts is exactly the key of the cell it returns.
   */
  function DecodeKey(k: string): (r: Option<(Day, ClockTime)>)
    ensures r.Some? ==> Key(r.value.0, r.value.1) == k
  {
    if |k| != 16 || k[4] != '-' || k[7] != '-' || k[10] != '_' || k[13] != ':'
       || !AllDigits(k[0..4]) || !AllDigits(k[5..7]) || !AllDigits(k[8..10])
       || !AllDigits(k[11..13]) || !AllDigits(k[14..16])
    then None
    else
      var d := Date(DigitsValue(k[0..4]), DigitsValue(k[5..7]), DigitsValue(k[8..10]));
      var t := Time(DigitsValue(k[11..13]), DigitsValue(k[14..16]));
      if ValidDate(d) && ValidTime(t) then
        DigitsValueRoundTrip(k[0..4]);
        DigitsValueRoundTrip(k[5..7]);
        DigitsValueRoundTrip(k[8..10]);
        DigitsValueRoundTrip(k[11..13]);
        DigitsValueRoundTrip(k[14..16]);
        KeyFromParts(k, d, t);
        Some((d, t))
      else None
  }

  /** Decoding a key gives back the cell it was made from. */
  lemma KeyRoundTrip(d: Day, t: ClockTime)
    ensures DecodeKey(Key(d, t)) == Some((d, t))
  {
    var k := Key(d, t);
    assert k[0..4] == Digits(d.year, 4);
    assert k[5..7] == Digits(d.month, 2);
    assert k[8..10] == Digits(d.day, 2);
    assert k[11..13] == Digits(t.hour, 2);
    assert k[14..16] == Digits(t.minute, 2);
    DigitsRoundTrip(d.year, 4);
    DigitsRoundTrip(d.month, 2);
    DigitsRoundTrip(d.day, 2);
    DigitsRoundTrip(t.hour, 2);
    DigitsRoundTrip(t.minute, 2);
    DigitsAreDigits(d.year, 4);
    DigitsAreDigits(d.month, 2);
    DigitsAreDigits(d.day, 2);
    DigitsAreDigits(t.hour, 2);
    DigitsAreDigits(t.minute, 2);
  }

  /** Distinct cells never share a key, so no answer is read for the wrong cell. */
  lemma KeyInjective(d1: Day, t1: ClockTime, d2: Day, t2: ClockTime)
    ensures Key(d1, t1) == Key(d2, t2) <==> d1 == d2 && t1 == t2
  {
    KeyRoundTrip(d1, t1);
    KeyRoundTrip(d2, t2);
  }
}
