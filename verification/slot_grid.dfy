/** The fixed appointment grid of server.js: start times from 09:00 up to the
    last 30-minute slot that ends by 17:00, written as zero-padded `HH:MM`
    strings, and the two time-string conversions used around it. */
module SlotGrid {
  import opened Values

  const SLOT_MINUTES: nat := 30
  const START_MIN: nat := 9 * 60
  const END_MIN: nat := 17 * 60

  // ---------------------------------------------------------------------
  // Decimal digits: `String(n)` and `padStart(2, "0")`
  // ---------------------------------------------------------------------

  predicate IsDigit(c: char)
  {
    '0' <= c <= '9'
  }

  function DigitChar(d: nat): (c: char)
    requires d < 10
    ensures IsDigit(c) && c as int - '0' as int == d
  {
    ('0' as int + d) as char
  }

  function DigitValue(c: char): (d: nat)
    requires IsDigit(c)
    ensures d < 10 && DigitChar(d) == c
  {
    c as int - '0' as int
  }

  predicate AllDigits(s: string)
  {
    forall i :: 0 <= i < |s| ==> IsDigit(s[i])
  }

  /** The number a string of decimal digits denotes. */
  function DigitsValue(s: string): nat
    requires AllDigits(s)
  {
    if |s| == 0 then 0 else DigitsValue(s[..|s| - 1]) * 10 + DigitValue(s[|s| - 1])
  }

  /** `String(n)` for a non-negative integer: its decimal digits, without
      leading zeros. */
  function DecimalString(n: nat): string
  {
    if n < 10 then [DigitChar(n)] else DecimalString(n / 10) + [DigitChar(n % 10)]
  }

  /** `String(n)` is a non-empty run of digits that reads back as `n`, and has
      no leading zero. */
  lemma {:induction false} DecimalStringValue(n: nat)
    ensures 1 <= |DecimalString(n)| && AllDigits(DecimalString(n))
    ensures DigitsValue(DecimalString(n)) == n
    ensures |DecimalString(n)| > 1 ==> DecimalString(n)[0] != '0'
  {
    var s := DecimalString(n);
    if n >= 10 {
      DecimalStringValue(n / 10);
      assert s == DecimalString(n / 10) + [DigitChar(n % 10)];
      assert s[..|s| - 1] == DecimalString(n / 10);
    }
  }

  function Repeat(c: char, k: nat): string
  {
    seq(k, _ => c)
  }

  /** `s.padStart(width, fill)` with a one-character fill. */
  function PadStart(s: string, width: nat, fill: char): string
  {
    if |s| >= width then s else Repeat(fill, width - |s|) + s
  }

  /** The padded string is at least `width` long, ends with `s`, and is
      `fill` before it. */
  lemma PadStartShape(s: string, width: nat, fill: char)
    ensures |PadStart(s, width, fill)| == if |s| >= width then |s| else width
    ensures PadStart(s, width, fill)[|PadStart(s, width, fill)| - |s|..] == s
    ensures forall i :: 0 <= i < |PadStart(s, width, fill)| - |s| ==> PadStart(s, width, fill)[i] == fill
  {
  }

  function Pad2(n: nat): string
  {
    PadStart(DecimalString(n), 2, '0')
  }

  /** Below 100, the padded form is exactly the tens digit then the units digit. */
  lemma Pad2Digits(n: nat)
    requires n < 100
    ensures Pad2(n) == [DigitChar(n / 10), DigitChar(n % 10)]
  {
    if n < 10 {
      assert DecimalString(n) == [DigitChar(n)];
      assert Repeat('0', 1) == ['0'];
      assert DigitChar(0) == '0';
    } else {
      assert DecimalString(n / 10) == [DigitChar(n / 10)];
      assert DecimalString(n) == [DigitChar(n / 10), DigitChar(n % 10)];
    }
  }

  /** The `${hh}:${mm}` template for a minute-of-day `t`: the hour and the
      minute, each zero-padded to two digits. */
  function FormatSlot(t: nat): string
  {
    Pad2(t / 60) + ":" + Pad2(t % 60)
  }

  // ---------------------------------------------------------------------
  // Decoding `HH:MM`
  // ---------------------------------------------------------------------

  /** The minute-of-day a five-character `HH:MM` string denotes, if it has
      that shape. */
  function ParseHHMM(s: string): Option<nat>
  {
    if |s| == 5 && IsDigit(s[0]) && IsDigit(s[1]) && s[2] == ':' && IsDigit(s[3]) && IsDigit(s[4])
    then Some((10 * DigitValue(s[0]) + DigitValue(s[1])) * 60 + 10 * DigitValue(s[3]) + DigitValue(s[4]))
    else None
  }

  /** A zero-padded `HH:MM` with minutes below 60. */
  predicate IsHHMM(s: string)
  {
    ParseHHMM(s).Some? && s[3] <= '5'
  }

  lemma ParseDigits(a: nat, b: nat, c: nat, d: nat)
    requires a < 10 && b < 10 && c < 6 && d < 10
    ensures IsHHMM([DigitChar(a), DigitChar(b), ':', DigitChar(c), DigitChar(d)])
    ensures ParseHHMM([DigitChar(a), DigitChar(b), ':', DigitChar(c), DigitChar(d)])
         == Some((10 * a + b) * 60 + 10 * c + d)
  {
  }

  /** Formatting a minute-of-day and decoding it gives the minute back. */
  lemma FormatThenParse(t: nat)
    requires t < 6000
    ensures IsHHMM(FormatSlot(t))
    ensures ParseHHMM(FormatSlot(t)) == Some(t)
  {
    var h, m := t / 60, t % 60;
    Pad2Digits(h);
    Pad2Digits(m);
    assert FormatSlot(t) == [DigitChar(h / 10), DigitChar(h % 10), ':', DigitChar(m / 10), DigitChar(m % 10)];
    ParseDigits(h / 10, h % 10, m / 10, m % 10);
  }

  lemma DivMod60(q: nat, r: nat)
    requires r < 60
    ensures (q * 60 + r) / 60 == q && (q * 60 + r) % 60 == r
  {
  }

  lemma DivMod10(q: nat, r: nat)
    requires r < 10
    ensures (q * 10 + r) / 10 == q && (q * 10 + r) % 10 == r
  {
  }

  /** Decoding a well-formed `HH:MM` and formatting it gives the string back. */
  lemma ParseThenFormat(s: string)
    requires IsHHMM(s)
    ensures FormatSlot(ParseHHMM(s).value) == s
  {
    var a, b, c, d := DigitValue(s[0]), DigitValue(s[1]), DigitValue(s[3]), DigitValue(s[4]);
    assert s == [DigitChar(a), DigitChar(b), ':', DigitChar(c), DigitChar(d)];
    var h, m := 10 * a + b, 10 * c + d;
    assert ParseHHMM(s).value == h * 60 + m;
    DivMod60(h, m);
    DivMod10(a, b);
    DivMod10(c, d);
    Pad2Digits(h);
    Pad2Digits(m);
  }

  // ---------------------------------------------------------------------
  // The grid
  // ---------------------------------------------------------------------

  /** How many times the loop of `generateSlots` runs: once for every start
      minute from 09:00 whose slot still ends by 17:00. */
  const SLOT_COUNT: nat := (END_MIN - SLOT_MINUTES - START_MIN) / SLOT_MINUTES + 1

  /** `generateSlots()`: entry `i` is the loop's `i`-th minute, formatted. */
  function Grid(): seq<string>
  {
    seq(SLOT_COUNT, i requires 0 <= i < SLOT_COUNT => FormatSlot(START_MIN + SLOT_MINUTES * i))
  }

  /** The grid has 16 entries. */
  lemma GridSize()
    ensures SLOT_COUNT == 16 && |Grid()| == 16
  {
  }

  lemma GridAt(i: nat)
    requires i < 16
    ensures i < |Grid()| && Grid()[i] == FormatSlot(START_MIN + SLOT_MINUTES * i)
  {
    GridSize();
  }

  lemma GridEntry(i: nat)
    requires i < 16
    ensures i < |Grid()| && Grid()[i] == FormatSlot(START_MIN + SLOT_MINUTES * i)
    ensures IsHHMM(Grid()[i]) && ParseHHMM(Grid()[i]) == Some(START_MIN + SLOT_MINUTES * i)
  {
    GridAt(i);
    var t := START_MIN + SLOT_MINUTES * i;
    FormatThenParse(t);
    assert ParseHHMM(FormatSlot(t)) == Some(t);
  }

  /** Every entry is a zero-padded `HH:MM` and decodes to 540 + 30·i. */
  lemma GridDecodes()
    ensures |Grid()| == 16
    ensures forall i :: 0 <= i < |Grid()| ==>
      IsHHMM(Grid()[i]) && ParseHHMM(Grid()[i]) == Some(START_MIN + SLOT_MINUTES * i)
  {
    GridSize();
    forall i | 0 <= i < |Grid()|
      ensures IsHHMM(Grid()[i]) && ParseHHMM(Grid()[i]) == Some(START_MIN + SLOT_MINUTES * i)
    {
      GridEntry(i);
    }
  }

  /** Two well-formed `HH:MM` strings that denote the same minute are equal. */
  lemma ParseInjective(s1: string, s2: string)
    requires IsHHMM(s1) && IsHHMM(s2) && ParseHHMM(s1) == ParseHHMM(s2)
    ensures s1 == s2
  {
    ParseThenFormat(s1);
    ParseThenFormat(s2);
  }

  lemma DayBoundsParse()
    ensures IsHHMM("09:00") && ParseHHMM("09:00") == Some(START_MIN)
    ensures IsHHMM("16:30") && ParseHHMM("16:30") == Some(END_MIN - SLOT_MINUTES)
  {
  }

  /** The grid runs from "09:00" to "16:30". */
  lemma GridEnds()
    ensures |Grid()| == 16
    ensures Grid()[0] == "09:00"
    ensures Grid()[15] == "16:30"
  {
    GridDecodes();
    DayBoundsParse();
    ParseInjective(Grid()[0], "09:00");
    ParseInjective(Grid()[15], "16:30");
  }

  /** `a` is strictly earlier in the day than `b`, both being `HH:MM`. */
  predicate Before(a: string, b: string)
  {
    ParseHHMM(a).Some? && ParseHHMM(b).Some? && ParseHHMM(a).value < ParseHHMM(b).value
  }

  /** Strictly ascending by time of day. */
  predicate Ascending(s: seq<string>)
  {
    forall i, j :: 0 <= i < j < |s| ==> Before(s[i], s[j])
  }

  /** The grid is strictly ascending and consecutive entries are 30 minutes apart. */
  lemma GridSpacing()
    ensures Ascending(Grid())
    ensures forall i :: 0 <= i < |Grid()| - 1 ==>
      ParseHHMM(Grid()[i]).Some? && ParseHHMM(Grid()[i + 1]) == Some(ParseHHMM(Grid()[i]).value + SLOT_MINUTES)
  {
    GridDecodes();
  }

  /** An independent description of a valid start time: a well-formed `HH:MM`
      in the working day, on a 30-minute boundary, leaving room for a full slot. */
  predicate IsGridTime(s: string)
  {
    && IsHHMM(s)
    && START_MIN <= ParseHHMM(s).value <= END_MIN - SLOT_MINUTES
    && (ParseHHMM(s).value - START_MIN) % SLOT_MINUTES == 0
  }

  lemma MultipleMod(i: nat)
    ensures (START_MIN + SLOT_MINUTES * i - START_MIN) % SLOT_MINUTES == 0
  {
  }

  lemma GridEntryIsGridTime(i: nat)
    requires i < 16
    ensures IsGridTime(Grid()[i])
  {
    GridEntry(i);
    var g, m := Grid()[i], START_MIN + SLOT_MINUTES * i;
    assert IsHHMM(g) && ParseHHMM(g) == Some(m);
    MultipleMod(i);
  }

  lemma GridTimeInGrid(s: string)
    requires IsGridTime(s)
    ensures s in Grid()
  {
    var m := ParseHHMM(s).value;
    var i := (m - START_MIN) / SLOT_MINUTES;
    assert m == START_MIN + SLOT_MINUTES * i;
    GridEntry(i);
    ParseInjective(Grid()[i], s);
  }

  /** Membership in the generated grid is exactly `IsGridTime`. */
  lemma GridMembership(s: string)
    ensures s in Grid() <==> IsGridTime(s)
  {
    if s in Grid() {
      GridSize();
      var i :| 0 <= i < |Grid()| && Grid()[i] == s;
      GridEntryIsGridTime(i);
    }
    if IsGridTime(s) {
      GridTimeInGrid(s);
    }
  }

  lemma GridPrefixStep(arr: seq<string>, k: nat)
    requires k < 16 && |Grid()| == 16 && arr == Grid()[..k]
    ensures arr + [FormatSlot(START_MIN + SLOT_MINUTES * k)] == Grid()[..k + 1]
  {
    GridAt(k);
  }

  /** `generateSlots` as the loop server.js writes. */
  method GenerateSlots() returns (arr: seq<string>)
    ensures arr == Grid()
    ensures |arr| == 16
    ensures forall i :: 0 <= i < |arr| ==> ParseHHMM(arr[i]) == Some(START_MIN + SLOT_MINUTES * i)
  {
    GridSize();
    arr := [];
    var t := START_MIN;
    while t <= END_MIN - SLOT_MINUTES
      invariant t == START_MIN + SLOT_MINUTES * |arr| && t <= END_MIN
      invariant arr == Grid()[..|arr|]
      decreases END_MIN - t
    {
      GridPrefixStep(arr, |arr|);
      arr := arr + [FormatSlot(t)];
      t := t + SLOT_MINUTES;
    }
    GridDecodes();
  }

  // ---------------------------------------------------------------------
  // Time strings on the way in and out of the database
  // ---------------------------------------------------------------------

  /** `appointment_time.substring(0, 5)`: the first five characters, or the
      whole string when it is shorter. */
  function SlotPrefix(t: string): (r: string)
    ensures |r| <= 5 && |r| <= |t| && r == t[..|r|]
    ensures |t| >= 5 ==> |r| == 5
  {
    if |t| < 5 then t else t[..5]
  }

  /** A requested time is accepted exactly when it starts with a grid time:
      seconds and anything after the fifth character are ignored. */
  lemma SlotPrefixInGrid(t: string)
    ensures SlotPrefix(t) in Grid() <==> |t| >= 5 && IsGridTime(t[..5])
  {
    GridMembership(SlotPrefix(t));
    if |t| >= 5 {
      GridMembership(t[..5]);
    }
  }

  /** Off-grid and out-of-hours requests are refused; a time with seconds is accepted. */
  lemma SlotPrefixExamples()
    ensures SlotPrefix("09:30:00") in Grid()
    ensures SlotPrefix("09:17") !in Grid()
    ensures SlotPrefix("18:00") !in Grid()
    ensures SlotPrefix("16:45") !in Grid()
    ensures SlotPrefix("9:00") !in Grid()
  {
    SlotPrefixInGrid("09:30:00");
    assert "09:30:00"[..5] == "09:30";
    SlotPrefixInGrid("09:17");
    SlotPrefixInGrid("18:00");
    SlotPrefixInGrid("16:45");
    SlotPrefixInGrid("9:00");
  }

  /** `toMySQLTime`: absent or empty gives null; a five-character `HH:MM` gets
      seconds appended; anything else is passed through. */
  function ToMySQLTime(t: Option<string>): (r: Option<string>)
    ensures r.None? <==> !Present(t)
    ensures r.Some? ==> t.value <= r.value
    ensures r.Some? && |t.value| == 5 ==> |r.value| == 8 && r.value[5..] == ":00"
    ensures r.Some? && |t.value| != 5 ==> r == t
  {
    if !Present(t) then None
    else if |t.value| == 5 then Some(t.value + ":00")
    else t
  }

  /** Applying `toMySQLTime` twice changes nothing more than applying it once. */
  lemma ToMySQLTimeIdempotent(t: Option<string>)
    ensures ToMySQLTime(ToMySQLTime(t)) == ToMySQLTime(t)
  {
  }

  /** `TIME_FORMAT(appointment_time, "%H:%i")` on a stored `HH:MM:SS` value:
      the hour and minute, i.e. the first five characters. */
  function TimeFormatHM(stored: string): string
  {
    SlotPrefix(stored)
  }

  /** A grid time stored through `toMySQLTime` reads back through `TIME_FORMAT`
      as the same grid time. */
  lemma StoredSlotReadsBack(s: string)
    requires s in Grid()
    ensures ToMySQLTime(Some(s)) == Some(s + ":00")
    ensures TimeFormatHM(s + ":00") == s
  {
    GridDecodes();
    assert (s + ":00")[..5] == s;
  }
}
