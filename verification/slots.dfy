/**
 The slot-key codec and the fixed daily time grid.

 A slot key names one cell of the weekly grid as `day|time`, where `time`
 is a zero-padded `HH:MM` label. The grid runs from 09:00 up to (but not
 including) 20:00 in 30-minute steps, so a day has 22 labels.
 */
module Slots {
  import opened Common

  const StartHour: nat := 9
  const EndHour: nat := 20
  const IntervalMinutes: nat := 30
  const SlotsPerHour: nat := 60 / IntervalMinutes
  const SlotsPerDay: nat := (EndHour - StartHour) * SlotsPerHour

  /** The separator between the day and the time of a slot key. */
  const Separator: char := '|'

  // ---------------------------------------------------------------------
  // Decimal labels: `String(n).padStart(2, "0")`
  // ---------------------------------------------------------------------

  function DigitChar(d: nat): char
    requires d < 10
  {
    (('0' as int) + d) as char
  }

  predicate IsDigit(c: char)
  {
    '0' <= c <= '9'
  }

  function DigitValue(c: char): int
  {
    (c as int) - ('0' as int)
  }

  /** The number a string of decimal digits denotes, most significant first. */
  function DecimalValue(s: string): int
  {
    if |s| == 0 then 0 else DecimalValue(s[..|s| - 1]) * 10 + DigitValue(s[|s| - 1])
  }

  /**
   `String(n)` for a non-negative integer: decimal digits that denote n,
   with no leading zero.
   */
  function DecimalString(n: nat): (s: string)
    ensures 1 <= |s|
    ensures forall i :: 0 <= i < |s| ==> IsDigit(s[i])
    ensures DecimalValue(s) == n
    ensures n > 0 ==> s[0] != '0'
    ensures |s| > 1 ==> s[0] != '0'
    ensures n >= 10 ==> |s| >= 2
    decreases n
  {
    if n < 10 then
      assert [DigitChar(n)][..0] == [];
      [DigitChar(n)]
    else
      var front := DecimalString(n / 10);
      assert (front + [DigitChar(n % 10)])[..|front|] == front;
      front + [DigitChar(n % 10)]
  }

  /** `s.padStart(width, fill)` with a one-character fill: fill characters up to the width, then s. */
  function PadStart(s: string, width: nat, fill: char): (r: string)
    ensures |r| == if |s| < width then width else |s|
    ensures forall i :: 0 <= i < |r| ==> r[i] == if i < |r| - |s| then fill else s[i - (|r| - |s|)]
  {
    var k := if |s| < width then width - |s| else 0;
    seq(k, _ => fill) + s
  }

  /**
   `String(n).padStart(2, "0")`: decimal digits denoting n, at least two of
   them; below 100, the tens digit then the units digit.
   */
  function TwoDigits(n: nat): (r: string)
    ensures |r| >= 2
    ensures n < 100 ==> r == [DigitChar(n / 10), DigitChar(n % 10)]
    ensures forall i :: 0 <= i < |r| ==> IsDigit(r[i])
    ensures DecimalValue(r) == n
  {
    var d := DecimalString(n);
    var r := PadStart(d, 2, '0');
    if n < 10 then
      assert d == [DigitChar(n)];
      assert r == ['0', DigitChar(n)];
      assert r[..1] == ['0'] && ['0'][..0] == [];
      r
    else
      assert d == r;
      if n < 100 then
        var front := DecimalString(n / 10);
        assert front == [DigitChar(n / 10)];
        assert d == front + [DigitChar(n % 10)];
        r
      else r
  }

  /** The label pushed for one (hour, minute) pair of the grid loop: `HH:MM` for values below 100. */
  function TimeLabel(hour: nat, minute: nat): (r: string)
    ensures |r| >= 5
    ensures hour < 100 && minute < 100 ==>
      r == [DigitChar(hour / 10), DigitChar(hour % 10), ':', DigitChar(minute / 10), DigitChar(minute % 10)]
  {
    TwoDigits(hour) + ":" + TwoDigits(minute)
  }

  // ---------------------------------------------------------------------
  // The time grid
  // ---------------------------------------------------------------------

  /**
   Closed form of label i: the hour is StartHour + i / SlotsPerHour and the
   minute (i % SlotsPerHour) * IntervalMinutes, each written as two digits.
   */
  function GridLabelAt(i: nat): string
    requires i < SlotsPerDay
  {
    var hour := StartHour + i / SlotsPerHour;
    var minute := (i % SlotsPerHour) * IntervalMinutes;
    [DigitChar(hour / 10), DigitChar(hour % 10), ':', DigitChar(minute / 10), DigitChar(minute % 10)]
  }

  /** The whole day, label by label in closed form. */
  function TimeGrid(): (grid: seq<string>)
    ensures |grid| == SlotsPerDay
  {
    seq(SlotsPerDay, i requires 0 <= i < SlotsPerDay => GridLabelAt(i))
  }

  /** `getTimeSlots`: its nested hour/minute loop, one label pushed per half hour. */
  method GetTimeSlots() returns (slots: seq<string>)
    ensures slots == TimeGrid()
    ensures |slots| == (EndHour - StartHour) * (60 / IntervalMinutes) == 22
  {
    var grid := TimeGrid();
    slots := [];
    ghost var pushed := 0;
    var hour := StartHour;
    while hour < EndHour
      invariant 9 <= hour <= 20 && pushed == 2 * (hour - 9)
      invariant slots == grid[..pushed]
    {
      var minute := 0;
      while minute < 60
        invariant minute == 0 || minute == 30 || minute == 60
        invariant pushed == 2 * (hour - 9) + minute / 30
        invariant slots == grid[..pushed]
      {
        slots := PushLabel(slots, hour, minute);
        pushed := pushed + 1;
        minute := minute + IntervalMinutes;
      }
      hour := hour + 1;
    }
    assert grid[..pushed] == grid;
  }

  /** The loop body: `slots.push(`${hourLabel}:${minuteLabel}`)`, the next label of the grid. */
  method PushLabel(slots: seq<string>, hour: nat, minute: nat) returns (pushed: seq<string>)
    requires 9 <= hour < 20 && (minute == 0 || minute == 30)
    requires slots == TimeGrid()[..2 * (hour - 9) + minute / 30]
    ensures pushed == TimeGrid()[..2 * (hour - 9) + minute / 30 + 1]
  {
    GridStep(hour, minute);
    pushed := slots + [TimeLabel(hour, minute)];
  }

  /** The closed form at the loop's position for (hour, minute) is the label the loop pushes. */
  lemma GridAt(hour: nat, minute: nat)
    requires 9 <= hour < 20 && (minute == 0 || minute == 30)
    ensures 2 * (hour - 9) + minute / 30 < 22
    ensures TimeGrid()[2 * (hour - 9) + minute / 30] == TimeLabel(hour, minute)
  {
    var k := 2 * (hour - 9) + minute / 30;
    assert SlotsPerHour == 2 && IntervalMinutes == 30;
    assert k / SlotsPerHour == hour - 9 && (k % SlotsPerHour) * IntervalMinutes == minute;
    assert TimeGrid()[k] == GridLabelAt(k);
  }

  /** One pass of the inner loop appends the next label of the closed form. */
  lemma GridStep(hour: nat, minute: nat)
    requires 9 <= hour < 20 && (minute == 0 || minute == 30)
    ensures 2 * (hour - 9) + minute / 30 < 22
    ensures TimeGrid()[..2 * (hour - 9) + minute / 30 + 1]
         == TimeGrid()[..2 * (hour - 9) + minute / 30] + [TimeLabel(hour, minute)]
  {
    var k := 2 * (hour - 9) + minute / 30;
    GridAt(hour, minute);
    var g := TimeGrid();
    assert |g| == 22 by {
      assert SlotsPerDay == 22;
    }
    PrefixStep(g, k);
  }

  /** The prefix one longer is the prefix followed by the next element. */
  lemma PrefixStep(g: seq<string>, k: nat)
    requires k < |g|
    ensures g[..k + 1] == g[..k] + [g[k]]
  {
  }

  /** A time label as the grid draws it: `HH:MM`, hour in [9, 20), minutes 00 or 30. */
  predicate LabelWellFormed(t: string)
  {
    && |t| == 5
    && IsDigit(t[0]) && IsDigit(t[1])
    && StartHour <= DigitValue(t[0]) * 10 + DigitValue(t[1]) < EndHour
    && t[2] == ':'
    && (t[3..] == "00" || t[3..] == "30")
  }

  /** The grid has 22 labels, from "09:00" to "19:30". */
  lemma TimeGridEnds()
    ensures |TimeGrid()| == 22
    ensures TimeGrid()[0] == "09:00"
    ensures TimeGrid()[21] == "19:30"
  {
  }

  lemma DigitRoundTrip(d: nat)
    requires d < 10
    ensures IsDigit(DigitChar(d)) && DigitValue(DigitChar(d)) == d
  {
  }

  lemma LabelWellFormedAt(i: nat)
    requires i < SlotsPerDay
    ensures LabelWellFormed(GridLabelAt(i))
  {
    assert SlotsPerHour == 2 && IntervalMinutes == 30;
    var hour := 9 + i / 2;
    var t := GridLabelAt(i);
    assert t == [DigitChar(hour / 10), DigitChar(hour % 10), ':',
                 DigitChar((i % 2) * 30 / 10), DigitChar((i % 2) * 30 % 10)];
    DigitRoundTrip(hour / 10);
    DigitRoundTrip(hour % 10);
    assert (hour / 10) * 10 + hour % 10 == hour;
    if i % 2 == 0 {
      assert t[3..] == "00";
    } else {
      assert t[3..] == "30";
    }
  }

  /** Every label has the `HH:MM` shape with an hour of the working day. */
  lemma TimeGridWellFormed()
    ensures forall i :: 0 <= i < |TimeGrid()| ==> LabelWellFormed(TimeGrid()[i])
  {
    forall i | 0 <= i < |TimeGrid()|
      ensures LabelWellFormed(TimeGrid()[i])
    {
      LabelWellFormedAt(i);
    }
  }

  // ---------------------------------------------------------------------
  // String order (JavaScript's `<` on strings)
  // ---------------------------------------------------------------------

  /** Lexicographic order on strings, comparing character codes. */
  predicate StringLess(a: string, b: string)
    decreases |a|
  {
    if |a| == 0 then |b| > 0
    else if |b| == 0 then false
    else if a[0] != b[0] then a[0] < b[0]
    else StringLess(a[1..], b[1..])
  }

  lemma {:induction false} StringLessAt(a: string, b: string, k: nat)
    requires k < |a| && k < |b|
    requires a[..k] == b[..k] && a[k] < b[k]
    ensures StringLess(a, b)
    decreases k
  {
    if k > 0 {
      assert a[0] == a[..k][0] == b[..k][0] == b[0];
      assert a[1..][..k - 1] == a[1..k] == b[1..k] == b[1..][..k - 1];
      StringLessAt(a[1..], b[1..], k - 1);
    }
  }

  lemma {:induction false} StringLessIrreflexive(a: string)
    ensures !StringLess(a, a)
    decreases |a|
  {
    if |a| > 0 {
      StringLessIrreflexive(a[1..]);
    }
  }

  /** Two labels compare like their positions in the grid. */
  lemma GridLabelLess(i: nat, j: nat)
    requires i < j < SlotsPerDay
    ensures StringLess(GridLabelAt(i), GridLabelAt(j))
  {
    var a, b := GridLabelAt(i), GridLabelAt(j);
    var hi, hj := StartHour + i / SlotsPerHour, StartHour + j / SlotsPerHour;
    if hi / 10 < hj / 10 {
      StringLessAt(a, b, 0);
    } else if hi < hj {
      assert a[..1] == b[..1];
      StringLessAt(a, b, 1);
    } else {
      assert i % 2 == 0 && j % 2 == 1;
      assert a[..3] == b[..3];
      StringLessAt(a, b, 3);
    }
  }

  /** The grid is strictly ascending as strings, hence free of duplicates. */
  lemma TimeGridAscending()
    ensures forall i, j :: 0 <= i < j < |TimeGrid()| ==> StringLess(TimeGrid()[i], TimeGrid()[j])
    ensures NoDuplicates(TimeGrid())
  {
    var g := TimeGrid();
    forall i, j | 0 <= i < j < |g|
      ensures StringLess(g[i], g[j])
    {
      GridLabelLess(i, j);
    }
    forall i, j | 0 <= i < j < |g|
      ensures g[i] != g[j]
    {
      StringLessIrreflexive(g[i]);
    }
  }

  // ---------------------------------------------------------------------
  // Slot keys
  // ---------------------------------------------------------------------

  /** `buildSlotKey`: the day, the separator, then the time. */
  function BuildSlotKey(day: string, time: string): (key: string)
    ensures |key| == |day| + 1 + |time|
    ensures key[..|day|] == day && key[|day|] == Separator && key[|day| + 1..] == time
  {
    day + [Separator] + time
  }

  /** `parts.join(sep)`: the pieces with one separator between neighbours. */
  function Join(parts: seq<string>, sep: char): string
    requires 1 <= |parts|
    decreases |parts|
  {
    if |parts| == 1 then parts[0] else parts[0] + [sep] + Join(parts[1..], sep)
  }

  /**
   `s.split(sep)` for a one-character separator: the pieces between
   separators, which joined back with the separator give s again.
   */
  function Split(s: string, sep: char): (parts: seq<string>)
    ensures 1 <= |parts|
    ensures |parts| == 1 <==> sep !in s
    ensures forall p :: p in parts ==> sep !in p
    ensures Join(parts, sep) == s
    decreases |s|
  {
    if |s| == 0 then [""]
    else
      var rest := Split(s[1..], sep);
      assert s == [s[0]] + s[1..];
      if s[0] == sep then
        assert ([""] + rest)[1..] == rest;
        [""] + rest
      else
        var parts := [[s[0]] + rest[0]] + rest[1..];
        assert parts[1..] == rest[1..];
        parts
  }

  lemma {:induction false} SplitWithoutSeparator(s: string, sep: char)
    requires sep !in s
    ensures Split(s, sep) == [s]
    decreases |s|
  {
    if |s| > 0 {
      SplitWithoutSeparator(s[1..], sep);
      assert [s[0]] + s[1..] == s;
    }
  }

  /** Splitting at the first separator peels off the separator-free head. */
  lemma {:induction false} SplitAtFirst(head: string, sep: char, tail: string)
    requires sep !in head
    ensures Split(head + [sep] + tail, sep) == [head] + Split(tail, sep)
    decreases |head|
  {
    var s := head + [sep] + tail;
    if |head| == 0 {
      assert s[1..] == tail;
    } else {
      assert s[1..] == head[1..] + [sep] + tail;
      SplitAtFirst(head[1..], sep, tail);
      assert [head[0]] + head[1..] == head;
    }
  }

  /** Day and time read back from a key by `formatSlotKey`. */
  datatype SlotParts = SlotParts(day: string, time: string)

  /**
   The destructuring `const [day, time] = slotKey.split("|")` of `formatSlotKey`.
   With no separator `time` is `undefined` and the next step throws: that is `None`.
   Pieces after the second are ignored: the key is the rebuilt `day|time`
   followed by nothing or by a further separator.
   */
  function DecodeSlotKey(key: string): (parts: Option<SlotParts>)
    ensures parts.None? <==> Separator !in key
    ensures parts.Some? ==> Separator !in parts.value.day && Separator !in parts.value.time
    ensures parts.Some? ==>
      var n := |BuildSlotKey(parts.value.day, parts.value.time)|;
      && n <= |key|
      && key[..n] == BuildSlotKey(parts.value.day, parts.value.time)
      && (n == |key| || key[n] == Separator)
  {
    var pieces := Split(key, Separator);
    if |pieces| < 2 then None
    else
      var rest := if |pieces| == 2 then "" else [Separator] + Join(pieces[2..], Separator);
      assert pieces[1..][1..] == pieces[2..];
      assert Join(pieces[1..], Separator) == pieces[1] + rest;
      var built := BuildSlotKey(pieces[0], pieces[1]);
      assert key == built + rest;
      assert key[..|built|] == built;
      Some(SlotParts(pieces[0], pieces[1]))
  }

  /** Round trip: a key built from separator-free parts splits back into exactly them. */
  lemma SlotKeyRoundTrip(day: string, time: string)
    requires Separator !in day && Separator !in time
    ensures Split(BuildSlotKey(day, time), Separator) == [day, time]
    ensures DecodeSlotKey(BuildSlotKey(day, time)) == Some(SlotParts(day, time))
  {
    SplitAtFirst(day, Separator, time);
    SplitWithoutSeparator(time, Separator);
  }

  /** Separator-free keys never collide: equal keys come from equal (day, time) pairs. */
  lemma SlotKeyInjective(day1: string, time1: string, day2: string, time2: string)
    requires Separator !in day1 && Separator !in time1
    requires Separator !in day2 && Separator !in time2
    ensures BuildSlotKey(day1, time1) == BuildSlotKey(day2, time2) <==> day1 == day2 && time1 == time2
  {
    SlotKeyRoundTrip(day1, time1);
    SlotKeyRoundTrip(day2, time2);
  }

  /** Grid labels never contain the separator, so every grid key decodes. */
  lemma GridLabelsHaveNoSeparator()
    ensures forall i :: 0 <= i < |TimeGrid()| ==> Separator !in TimeGrid()[i]
  {
    forall i | 0 <= i < |TimeGrid()|
      ensures Separator !in TimeGrid()[i]
    {
      assert TimeGrid()[i] == GridLabelAt(i);
    }
  }

  /** Any key built by `buildSlotKey` is non-empty, since it holds the separator. */
  lemma SlotKeyNonEmpty(day: string, time: string)
    ensures BuildSlotKey(day, time) != ""
    ensures Separator in BuildSlotKey(day, time)
  {
    assert BuildSlotKey(day, time)[|day|] == Separator;
  }
}
