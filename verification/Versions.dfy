/** How the ConflictResolver reads version strings: dotted numbers come back as they were written and compare as
    numbers; anything else counts as 0.0.0. */
module Versions {
  import opened Wrappers
  import opened ServiceRecords

  function Digit(d: nat): char
    requires d < 10
  {
    ('0' as int + d) as char
  }

  function Decimal(n: nat): (s: string)
    ensures s != [] && forall i :: 0 <= i < |s| ==> '0' <= s[i] <= '9'
  {
    if n < 10 then [Digit(n)] else Decimal(n / 10) + [Digit(n % 10)]
  }

  function Dotted(parts: seq<nat>): string
    requires parts != []
  {
    if |parts| == 1 then Decimal(parts[0]) else Decimal(parts[0]) + "." + Dotted(parts[1..])
  }

  lemma {:induction false} ReadsDecimal(n: nat, tail: string)
    ensures ParseDigits(Decimal(n) + tail, 0, false) == ParseDigits(tail, n, true)
  {
    if n < 10 {
      assert ([Digit(n)] + tail)[1..] == tail;
    } else {
      var last := [Digit(n % 10)];
      ReadsDecimal(n / 10, last + tail);
      assert Decimal(n) + tail == Decimal(n / 10) + (last + tail);
      assert (last + tail)[1..] == tail;
    }
  }

  lemma {:induction false} StripsNothing(s: string, space: char -> bool)
    requires s != [] && !space(s[0]) && !space(s[|s| - 1])
    ensures Strip(s, space) == s
  {
  }

  lemma {:induction false} AllAreDigits(s: string)
    requires forall i :: 0 <= i < |s| ==> '0' <= s[i] <= '9'
    ensures DigitCount(s) == |s|
  {
    if s != [] {
      AllAreDigits(s[1..]);
    }
  }

  /** Numbers are read back unless they are too long. */
  lemma {:induction false} ParsesDecimal(n: nat)
    ensures ParseInt(Decimal(n)) == if |Decimal(n)| <= MAX_DIGITS then Some(n) else None
  {
    var s := Decimal(n);
    StripsNothing(s, IsPadding);
    AllAreDigits(s);
    ReadsDecimal(n, "");
    assert s + "" == s;
  }

  // ---------------------------------------------------------------------------------------
  // Signs, blanks and underscores
  // ---------------------------------------------------------------------------------------

  lemma {:induction false} ReadsSigned(sign: char, n: int)
    requires sign in {'-', '+'} && n >= 0 && |Decimal(n)| <= MAX_DIGITS
    ensures ParseInt([sign] + Decimal(n)) == Some(if sign == '-' then 0 - n else n)
  {
    var digits := Decimal(n);
    var s := [sign] + digits;
    assert s[1..] == digits;
    AllAreDigits(digits);
    assert DigitCount(s) == DigitCount(digits);
    ReadsDecimal(n, "");
    assert digits + "" == digits;
    StripsNothing(s, IsPadding);
  }

  ghost predicate All(s: string, space: char -> bool) {
    forall i :: 0 <= i < |s| ==> space(s[i])
  }

  lemma {:induction false} StripsBoth(before: string, s: string, after: string, space: char -> bool)
    requires All(before, space) && All(after, space)
    requires s != [] && !space(s[0]) && !space(s[|s| - 1])
    ensures Strip(before + s + after, space) == s
    decreases |before| + |after|
  {
    var whole := before + s + after;
    if before != [] {
      StripsBoth(before[1..], s, after, space);
      assert whole[1..] == before[1..] + s + after;
    } else if after != [] {
      StripsBoth([], s, after[..|after| - 1], space);
      assert whole[..|whole| - 1] == [] + s + after[..|after| - 1];
    } else {
      assert whole == s;
    }
  }

  /** The ASCII blanks: tab to carriage return, the four separators, and space; the separators are not ignored
      around a number. */
  lemma {:induction false} AsciiBlanks(c: char)
    requires c as int < 0x80
    ensures IsSpace(c) <==> c in "\t\n\U{b}\U{c}\r\U{1c}\U{1d}\U{1e}\U{1f} "
    ensures IsPadding(c) <==> c in "\t\n\U{b}\U{c}\r "
  {
  }

  /** Blanks around a version do not matter. */
  lemma {:induction false} BlanksAroundVersion(before: string, s: string, after: string)
    requires All(before, IsSpace) && All(after, IsSpace) && s != [] && !IsSpace(s[0]) && !IsSpace(s[|s| - 1])
    ensures ParseVersion(before + s + after) == ParseVersion(s)
  {
    StripsNothing(s, IsSpace);
    StripsBoth(before, s, after, IsSpace);
  }

  /** Nor do those around a part of it. */
  lemma {:induction false} BlanksAroundPart(before: string, s: string, after: string)
    requires All(before, IsPadding) && All(after, IsPadding) && s != [] && !IsPadding(s[0]) && !IsPadding(s[|s| - 1])
    ensures ParseInt(before + s + after) == ParseInt(s)
  {
    StripsNothing(s, IsPadding);
    StripsBoth(before, s, after, IsPadding);
  }

  predicate IsDigit(c: char) {
    DigitValue(c).Some?
  }

  /** A digit, or an underscore between two digits. */
  ghost predicate WellPlaced(s: string, afterDigit: bool, i: nat)
    requires i < |s|
  {
    || IsDigit(s[i])
    || (s[i] == '_' && (if i == 0 then afterDigit else IsDigit(s[i - 1])) && i + 1 < |s| && IsDigit(s[i + 1]))
  }

  ghost predicate WellGrouped(s: string, afterDigit: bool) {
    forall i :: 0 <= i < |s| ==> WellPlaced(s, afterDigit, i)
  }

  lemma {:induction false} GroupedTail(s: string, afterDigit: bool)
    requires s != []
    ensures WellGrouped(s, afterDigit) <==> WellPlaced(s, afterDigit, 0) && WellGrouped(s[1..], IsDigit(s[0]))
  {
    forall i: nat | i < |s| - 1
      ensures WellPlaced(s[1..], IsDigit(s[0]), i) <==> WellPlaced(s, afterDigit, i + 1)
    {
    }
    if WellPlaced(s, afterDigit, 0) && WellGrouped(s[1..], IsDigit(s[0])) {
      forall i: nat | i < |s|
        ensures WellPlaced(s, afterDigit, i)
      {
        assert i > 0 ==> WellPlaced(s[1..], IsDigit(s[0]), i - 1);
      }
    }
  }

  /** What can be read as digits. */
  lemma {:induction false} ReadableExactly(s: string, value: nat, afterDigit: bool)
    ensures ParseDigits(s, value, afterDigit).Some? <==> if s == [] then afterDigit else WellGrouped(s, afterDigit)
  {
    if s != [] {
      GroupedTail(s, afterDigit);
      match DigitValue(s[0])
      case Some(digit) => ReadableExactly(s[1..], 10 * value + digit, true);
      case None =>
        if s[0] == '_' && afterDigit {
          ReadableExactly(s[1..], value, false);
        }
    }
  }

  ghost function Plain(s: string): string {
    if s == [] then [] else (if s[0] == '_' then [] else [s[0]]) + Plain(s[1..])
  }

  lemma {:induction false} UnderscoresDoNotMatter(s: string, value: nat, afterDigit: bool)
    ensures ParseDigits(s, value, afterDigit).Some? ==>
      ParseDigits(s, value, afterDigit) == ParseDigits(Plain(s), value, true)
  {
    if s != [] {
      match DigitValue(s[0])
      case Some(digit) =>
        UnderscoresDoNotMatter(s[1..], 10 * value + digit, true);
        assert Plain(s)[1..] == Plain(s[1..]);
      case None =>
        if s[0] == '_' && afterDigit {
          UnderscoresDoNotMatter(s[1..], value, false);
          assert Plain(s) == Plain(s[1..]);
        }
    }
  }

  // ---------------------------------------------------------------------------------------
  // Dotted numbers
  // ---------------------------------------------------------------------------------------

  lemma {:induction false} SplitsOff(head: string, separator: char, tail: string)
    requires separator !in head
    ensures Split(head + [separator] + tail, separator) == [head] + Split(tail, separator)
  {
    var whole := head + [separator] + tail;
    if head == [] {
      assert whole[1..] == tail;
    } else {
      SplitsOff(head[1..], separator, tail);
      assert whole[1..] == head[1..] + [separator] + tail;
      assert head == [head[0]] + head[1..];
    }
  }

  ghost function Decimals(parts: seq<nat>): (r: seq<string>)
    ensures |r| == |parts|
  {
    seq(|parts|, i requires 0 <= i < |parts| => Decimal(parts[i]))
  }

  lemma {:induction false} SplitsDotted(parts: seq<nat>)
    requires parts != []
    ensures Split(Dotted(parts), '.') == Decimals(parts)
  {
    var head := Decimal(parts[0]);
    if |parts| == 1 {
      UnsplitVersion(head);
    } else {
      SplitsDotted(parts[1..]);
      SplitsOff(head, '.', Dotted(parts[1..]));
      assert Decimals(parts) == [head] + Decimals(parts[1..]);
    }
  }

  ghost predicate Readable(parts: seq<nat>) {
    forall i :: 0 <= i < |parts| ==> |Decimal(parts[i])| <= MAX_DIGITS
  }

  lemma {:induction false} ParsesDecimals(parts: seq<nat>)
    ensures ParseAll(Decimals(parts)) == if Readable(parts) then Some(parts) else None
  {
    if parts != [] {
      ParsesDecimal(parts[0]);
      ParsesDecimals(parts[1..]);
      assert Decimals(parts)[1..] == Decimals(parts[1..]);
      assert parts == [parts[0]] + parts[1..];
      assert Readable(parts) <==> |Decimal(parts[0])| <= MAX_DIGITS && Readable(parts[1..]);
    }
  }

  lemma {:induction false} DottedEnds(parts: seq<nat>)
    requires parts != []
    ensures Dotted(parts) != []
    ensures '0' <= Dotted(parts)[0] <= '9' && '0' <= Dotted(parts)[|Dotted(parts)| - 1] <= '9'
  {
    if |parts| > 1 {
      DottedEnds(parts[1..]);
    }
  }

  lemma {:induction false} ZeroIsReadable(parts: seq<nat>)
    requires parts == [0, 0, 0]
    ensures Readable(parts)
  {
    assert Decimal(0) == [Digit(0)];
  }

  /** Numbers written with dots between them are read back exactly if none has too many digits. */
  lemma {:induction false} DottedRoundTrip(parts: seq<nat>)
    requires parts != []
    ensures ParseVersion(Dotted(parts)) == (if Readable(parts) then parts else [0, 0, 0])
    ensures ParseVersion(Dotted(parts)) == parts <==> Readable(parts)
  {
    DottedEnds(parts);
    StripsNothing(Dotted(parts), IsSpace);
    SplitsDotted(parts);
    ParsesDecimals(parts);
    if parts == [0, 0, 0] {
      ZeroIsReadable(parts);
    }
  }

  /** Between records of one service with dotted versions the greater tuple of numbers wins, whichever side it is
      on and whatever the timestamps. */
  lemma {:induction false} GreaterNumbersWin(
      hashOf: string -> string, low: ServiceRecord, high: ServiceRecord, a: seq<nat>, b: seq<nat>)
    requires low.serviceId == high.serviceId && a != [] && b != [] && Before(a, b)
    requires Readable(a) && Readable(b)
    requires low.version == Dotted(a) && high.version == Dotted(b)
    ensures Resolve(hashOf, low, high) == Resolve(hashOf, high, low) == high
  {
    DottedRoundTrip(a);
    DottedRoundTrip(b);
    HigherVersionWins(hashOf, low, high);
  }

  /** The parts all read as numbers or the version counts as 0.0.0. */
  lemma {:induction false} UnreadablePart(parts: seq<string>)
    ensures ParseAll(parts) == None <==> exists i :: 0 <= i < |parts| && ParseInt(parts[i]) == None
    ensures ParseAll(parts).Some? ==> |ParseAll(parts).value| == |parts|
  {
    if parts != [] {
      UnreadablePart(parts[1..]);
      assert forall i :: 0 <= i < |parts| - 1 ==> parts[1..][i] == parts[i + 1];
      if ParseAll(parts[1..]) == None {
        var i :| 0 <= i < |parts| - 1 && ParseInt(parts[1..][i]) == None;
        assert ParseInt(parts[i + 1]) == None;
      } else {
        assert forall i :: 1 <= i < |parts| ==> parts[i] == parts[1..][i - 1];
      }
    }
  }

  lemma {:induction false} UnreadableIsZero(version: string)
    ensures
      var parts := Split(Strip(version, IsSpace), '.');
      (exists i :: 0 <= i < |parts| && ParseInt(parts[i]) == None) ==> ParseVersion(version) == [0, 0, 0]
  {
    UnreadablePart(Split(Strip(version, IsSpace), '.'));
  }
}
