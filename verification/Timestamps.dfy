/** UTCTime and GeneralizedTime (section 4.1.2.5 of RFC 5280) and what `timestampAt` makes of them. */
module Timestamps {
  import opened Basics
  import opened Asn1Decode
  import opened Calendar

  function Decimal2(n: nat): (r: bytes)
    requires n < 100
    ensures |r| == 2
  {
    [48 + n / 10, 48 + n % 10]
  }

  /** YYMMDDhhmmss without the century. */
  function TwelveDigits(t: DateTime): (s: bytes)
    requires t.Written()
    ensures |s| == 12
  {
    Decimal2(t.year % 100) + Decimal2(t.month) + Decimal2(t.day)
    + Decimal2(t.hour) + Decimal2(t.minute) + Decimal2(t.second)
  }

  const ZULU: bytes := [0x5A]

  function UtcTime(t: DateTime): bytes
    requires t.Written()
  {
    TwelveDigits(t) + ZULU
  }

  function GeneralizedTime(t: DateTime): bytes
    requires t.Written()
  {
    Decimal2(t.year / 100) + TwelveDigits(t) + ZULU
  }

  lemma Decimal2Decodes(der: bytes, i: nat, n: nat)
    requires n < 100 && At(der, i, Decimal2(n))
    ensures i + 2 <= |der| && Digit(der[i]) && Digit(der[i + 1]) && TwoDigits(der, i) == n
    ensures der[i] - 48 == n / 10 && der[i + 1] - 48 == n % 10
  {
    AtByte(der, i, Decimal2(n), 0);
    AtByte(der, i, Decimal2(n), 1);
  }

  lemma PairsStand(der: bytes, o: nat, a: bytes, b: bytes, c: bytes, d: bytes, e: bytes, f: bytes)
    requires At(der, o, a + b + c + d + e + f)
    requires |a| == |b| == |c| == |d| == |e| == |f| == 2
    ensures At(der, o, a) && At(der, o + 2, b) && At(der, o + 4, c)
    ensures At(der, o + 6, d) && At(der, o + 8, e) && At(der, o + 10, f)
  {
    AtSplit(der, o, a + b + c + d + e, f);
    AtSplit(der, o, a + b + c + d, e);
    AtSplit(der, o, a + b + c, d);
    AtSplit(der, o, a + b, c);
    AtSplit(der, o, a, b);
  }

  lemma TwelveDigitsDecode(der: bytes, o: nat, t: DateTime)
    requires t.Written() && At(der, o, TwelveDigits(t))
    ensures AllDigits(der, o, o + 12)
    ensures TwoDigits(der, o) == t.year % 100 && TwoDigits(der, o + 2) == t.month && TwoDigits(der, o + 4) == t.day
    ensures TwoDigits(der, o + 6) == t.hour && TwoDigits(der, o + 8) == t.minute && TwoDigits(der, o + 10) == t.second
    ensures der[o] - 48 == t.year % 100 / 10
  {
    PairsStand(der, o, Decimal2(t.year % 100), Decimal2(t.month), Decimal2(t.day),
               Decimal2(t.hour), Decimal2(t.minute), Decimal2(t.second));
    Decimal2Decodes(der, o, t.year % 100);
    Decimal2Decodes(der, o + 2, t.month);
    Decimal2Decodes(der, o + 4, t.day);
    Decimal2Decodes(der, o + 6, t.hour);
    Decimal2Decodes(der, o + 8, t.minute);
    Decimal2Decodes(der, o + 10, t.second);
  }

  lemma DigitsGiveTime(der: bytes, o: nat, t: DateTime)
    requires t.Written() && At(der, o, TwelveDigits(t))
    ensures AllDigits(der, o, o + 12)
    ensures TimestampFromDigits(der, o, t.year / 100 * 100) == t.Read()
  {
    hide TimestampFromDateTime, DateTime.Read;
    TwelveDigitsDecode(der, o, t);
    DateTimeIsRead(t);
  }

  lemma UtcCentury(year: nat)
    requires 1950 <= year <= 2049
    ensures year / 100 * 100 == if year % 100 / 10 < 5 then 2000 else 1900
  {}

  lemma UtcDigitsDecode(der: bytes, o: nat, t: DateTime)
    requires t.Written() && 1950 <= t.year <= 2049
    requires o + 13 <= |der| && At(der, o, TwelveDigits(t))
    ensures AllDigits(der, o, o + 12)
    ensures DigitsToTimestamp(der, o, 13) == t.Read()
  {
    TwelveDigitsDecode(der, o, t);
    DigitsGiveTime(der, o, t);
    UtcCentury(t.year);
  }

  /**
   Every UTCTime, of whatever twelve digits, is read as the Unix time its date counts to (its own for every
   existing date from 1970 on) and refused exactly outside the range checks.
   */
  lemma UtcTimeDecodes(der: bytes, ptr: Asn1Ptr, t: DateTime)
    requires t.Written() && 1950 <= t.year <= 2049
    requires ptr.header < |der| && der[ptr.header] == 0x17 && ptr.length == 13
    requires At(der, ptr.content, UtcTime(t))
    ensures TimestampAt(der, ptr) == t.Read()
  {
    AtSplit(der, ptr.content, TwelveDigits(t), ZULU);
    AtByte(der, ptr.content + 12, ZULU, 0);
    UtcDigitsDecode(der, ptr.content, t);
  }

  lemma CenturyDecodes(der: bytes, o: nat, century: nat)
    requires century < 100 && At(der, o, Decimal2(century))
    ensures o + 2 <= |der| && Digit(der[o]) && Digit(der[o + 1])
    ensures Century(der, o) == if century % 10 <= 2 then Ok(century * 100) else Revert
  {
    Decimal2Decodes(der, o, century);
  }

  lemma GeneralizedDigitsDecode(der: bytes, o: nat, t: DateTime)
    requires t.Written()
    requires o + 15 <= |der| && At(der, o, Decimal2(t.year / 100)) && At(der, o + 2, TwelveDigits(t))
    ensures AllDigits(der, o, o + 14)
    ensures DigitsToTimestamp(der, o, 15) == if t.year / 100 % 10 <= 2 then t.Read() else Revert
  {
    Decimal2Decodes(der, o, t.year / 100);
    TwelveDigitsDecode(der, o + 2, t);
    DigitsGiveTime(der, o + 2, t);
    CenturyDecodes(der, o, t.year / 100);
  }

  /**
   A GeneralizedTime of whatever fourteen digits is read likewise, but only when its second year digit is
   0, 1 or 2: 100 times a larger digit overflows uint8, so all other centuries revert.
   */
  lemma GeneralizedTimeDecodes(der: bytes, ptr: Asn1Ptr, t: DateTime)
    requires t.Written()
    requires ptr.header < |der| && der[ptr.header] == 0x18 && ptr.length == 15
    requires At(der, ptr.content, GeneralizedTime(t))
    ensures TimestampAt(der, ptr) == if t.year / 100 % 10 <= 2 then t.Read() else Revert
  {
    AtSplit(der, ptr.content, Decimal2(t.year / 100) + TwelveDigits(t), ZULU);
    AtSplit(der, ptr.content, Decimal2(t.year / 100), TwelveDigits(t));
    AtByte(der, ptr.content + 14, ZULU, 0);
    GeneralizedDigitsDecode(der, ptr.content, t);
  }

  /**
   The node holds this date, in whichever of the two forms; a GeneralizedTime with a second year digit that can be
   read.
   */
  ghost predicate HoldsTime(der: bytes, ptr: Asn1Ptr, t: DateTime) {
    && t.Written() && ptr.header < |der|
    && match ptr.length
       case 13 => der[ptr.header] == 0x17 && 1950 <= t.year <= 2049 && At(der, ptr.content, UtcTime(t))
       case 15 => der[ptr.header] == 0x18 && t.year / 100 % 10 <= 2 && At(der, ptr.content, GeneralizedTime(t))
       case _ => false
  }

  /**
   What `timestampAt` returns for a date: its own Unix time if it exists and is from 1970 on; the Unix time of a day
   of the next month if it does not exist but passes the range checks; and otherwise nothing.
   */
  lemma TimestampOfDate(der: bytes, ptr: Asn1Ptr, t: DateTime)
    requires HoldsTime(der, ptr, t)
    ensures t.Real() ==> TimestampAt(der, ptr) == Ok(t.UnixSeconds())
    ensures t.InChecks() && !t.Real() ==>
      var day := t.day - MonthDays(t.year, t.month);
      && t.month < 12 && 1 <= day <= 3
      && TimestampAt(der, ptr) == Ok(DateTime(t.year, t.month + 1, day, t.hour, t.minute, t.second).UnixSeconds())
    ensures !t.InChecks() ==> TimestampAt(der, ptr).Revert?
  {
    hide TimestampAt, UtcTime, GeneralizedTime, DateTime.UnixSeconds;
    if ptr.length == 13 { UtcTimeDecodes(der, ptr, t); } else { GeneralizedTimeDecodes(der, ptr, t); }
  }

  /** Existing dates are read in their order, whichever forms they are written in. */
  lemma TimestampsInOrder(der: bytes, p: Asn1Ptr, q: Asn1Ptr, a: DateTime, b: DateTime)
    requires HoldsTime(der, p, a) && HoldsTime(der, q, b) && a.Real() && b.Real()
    ensures TimestampAt(der, p).Ok? && TimestampAt(der, q).Ok?
    ensures TimestampAt(der, p).value < TimestampAt(der, q).value <==> a.Before(b)
    ensures TimestampAt(der, p).value == TimestampAt(der, q).value <==> a == b
  {
    hide TimestampAt, HoldsTime, DateTime.UnixSeconds, DateTime.Before;
    TimestampOfDate(der, p, a);
    TimestampOfDate(der, q, b);
    UnixTimeOrder(a, b);
  }

  lemma DigitPair(der: bytes, i: nat)
    requires i + 1 < |der| && Digit(der[i]) && Digit(der[i + 1])
    ensures TwoDigits(der, i) < 100 && At(der, i, Decimal2(TwoDigits(der, i)))
  {
    assert der[i..i + 2] == [der[i], der[i + 1]];
  }

  /** Twelve digits, read two by two, are the digits of what was read. */
  lemma DigitsStand(der: bytes, o: nat, t: DateTime)
    requires o + 12 <= |der| && AllDigits(der, o, o + 12)
    requires t.year % 100 == TwoDigits(der, o) && t.month == TwoDigits(der, o + 2) && t.day == TwoDigits(der, o + 4)
    requires t.hour == TwoDigits(der, o + 6) && t.minute == TwoDigits(der, o + 8) && t.second == TwoDigits(der, o + 10)
    requires t.year < 10000
    ensures t.Written() && At(der, o, TwelveDigits(t))
  {
    hide At, Decimal2, TwoDigits;
    DigitPair(der, o);
    DigitPair(der, o + 2);
    DigitPair(der, o + 4);
    DigitPair(der, o + 6);
    DigitPair(der, o + 8);
    DigitPair(der, o + 10);
    PairsJoin(der, o, Decimal2(t.year % 100), Decimal2(t.month), Decimal2(t.day),
              Decimal2(t.hour), Decimal2(t.minute), Decimal2(t.second));
  }

  lemma PairsJoin(der: bytes, o: nat, a: bytes, b: bytes, c: bytes, d: bytes, e: bytes, f: bytes)
    requires |a| == |b| == |c| == |d| == |e| == |f| == 2
    requires At(der, o, a) && At(der, o + 2, b) && At(der, o + 4, c)
    requires At(der, o + 6, d) && At(der, o + 8, e) && At(der, o + 10, f)
    ensures At(der, o, a + b + c + d + e + f)
  {
    hide At;
    AtSplit(der, o, a, b);
    AtSplit(der, o, a + b, c);
    AtSplit(der, o, a + b + c, d);
    AtSplit(der, o, a + b + c + d, e);
    AtSplit(der, o, a + b + c + d + e, f);
  }

  /** The date that twelve digits from `o` on write, within a century. */
  function DateAt(der: bytes, o: nat, century: nat): DateTime
    requires o + 12 <= |der| && AllDigits(der, o, o + 12)
  {
    DateTime(century + TwoDigits(der, o), TwoDigits(der, o + 2), TwoDigits(der, o + 4),
             TwoDigits(der, o + 6), TwoDigits(der, o + 8), TwoDigits(der, o + 10))
  }

  lemma UtcStands(der: bytes, o: nat)
    requires o + 13 <= |der| && AllDigits(der, o, o + 12) && der[o + 12] == 0x5A
    ensures var t := DateAt(der, o, if der[o] - 48 < 5 then 2000 else 1900);
      t.Written() && 1950 <= t.year <= 2049 && At(der, o, UtcTime(t))
  {
    hide TwelveDigits, TwoDigits, At;
    var t := DateAt(der, o, if der[o] - 48 < 5 then 2000 else 1900);
    UtcYear(der, o);
    DigitsStand(der, o, t);
    ZuluStands(der, o + 12);
    AtSplit(der, o, TwelveDigits(t), ZULU);
  }

  lemma UtcYear(der: bytes, o: nat)
    requires o + 1 < |der| && Digit(der[o]) && Digit(der[o + 1])
    ensures var year := (if der[o] - 48 < 5 then 2000 else 1900) + TwoDigits(der, o);
      1950 <= year <= 2049 && year % 100 == TwoDigits(der, o)
  {
    CenturyFacts(der, o);
  }

  lemma GeneralizedStands(der: bytes, o: nat)
    requires o + 15 <= |der| && AllDigits(der, o, o + 14) && der[o + 14] == 0x5A && Century(der, o).Ok?
    ensures var t := DateAt(der, o + 2, Century(der, o).value);
      t.Written() && t.year / 100 % 10 <= 2 && At(der, o, GeneralizedTime(t))
  {
    hide TwelveDigits, TwoDigits, At, Century;
    var t := DateAt(der, o + 2, Century(der, o).value);
    DigitPair(der, o);
    DigitPair(der, o + 2);
    CenturyFacts(der, o);
    DigitsStand(der, o + 2, t);
    ZuluStands(der, o + 14);
    AtSplit(der, o + 2, TwelveDigits(t), ZULU);
    AtSplit(der, o, Decimal2(t.year / 100), TwelveDigits(t) + ZULU);
    assert Decimal2(t.year / 100) + (TwelveDigits(t) + ZULU) == GeneralizedTime(t);
  }

  /** Conversely, whatever `timestampAt` accepts is the time of some date in one of the two forms. */
  lemma AcceptedIsTime(der: bytes, ptr: Asn1Ptr) returns (t: DateTime)
    requires TimestampAt(der, ptr).Ok?
    ensures HoldsTime(der, ptr, t)
  {
    hide At, UtcTime, GeneralizedTime, DateAt, TimestampFromDigits, Century;
    if ptr.length == 13 {
      UtcStands(der, ptr.content);
      t := DateAt(der, ptr.content, if der[ptr.content] - 48 < 5 then 2000 else 1900);
    } else {
      GeneralizedStands(der, ptr.content);
      t := DateAt(der, ptr.content + 2, Century(der, ptr.content).value);
    }
  }

  lemma CenturyFacts(der: bytes, i: nat)
    requires i + 1 < |der| && Digit(der[i]) && Digit(der[i + 1])
    ensures Century(der, i).Ok? ==>
      Century(der, i).value == 100 * TwoDigits(der, i) && TwoDigits(der, i) % 10 <= 2
    ensures der[i] - 48 < 5 ==> TwoDigits(der, i) < 50
    ensures der[i] - 48 >= 5 ==> TwoDigits(der, i) >= 50
  {}

  lemma ZuluStands(der: bytes, i: nat)
    requires i < |der| && der[i] == 0x5A
    ensures At(der, i, ZULU)
  {}

  /** 99991231235959Z, by which section 4.1.2.5 of RFC 5280 marks certificates that do not expire, is refused. */
  lemma NoExpiryRefused(der: bytes, ptr: Asn1Ptr)
    requires ptr.header < |der| && der[ptr.header] == 0x18 && ptr.length == 15
    requires At(der, ptr.content, GeneralizedTime(DateTime(9999, 12, 31, 23, 59, 59)))
    ensures TimestampAt(der, ptr).Revert? && DateTime(9999, 12, 31, 23, 59, 59).Real()
  {
    hide TimestampAt, GeneralizedTime;
    GeneralizedTimeDecodes(der, ptr, DateTime(9999, 12, 31, 23, 59, 59));
  }

  /** Every timestamp read fits the uint64 it is later cast to. */
  lemma TimestampFits(der: bytes, ptr: Asn1Ptr)
    ensures TimestampAt(der, ptr).Ok? ==> TimestampAt(der, ptr).value < TWO_64
  {
    if TimestampAt(der, ptr).Ok? {
      var o := if ptr.length == 13 then ptr.content else ptr.content + 2;
      var century := if ptr.length == 13 then (if der[ptr.content] - 48 < 5 then 2000 else 1900)
                     else Century(der, ptr.content).value;
      TimestampBound(century + TwoDigits(der, o), TwoDigits(der, o + 2), TwoDigits(der, o + 4),
                     TwoDigits(der, o + 6), TwoDigits(der, o + 8), TwoDigits(der, o + 10));
    }
  }
}
