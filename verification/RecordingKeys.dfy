/** The key under which a recorded delay is remembered, and what it identifies. */
module RecordingKeys {
  import opened ClockTime
  import opened RealtimeSchedule

  function Digit(n: int): (c: char)
    requires 0 <= n < 10
    ensures '0' <= c <= '9'
  {
    '0' + n as char
  }

  function TwoDigits(n: int): string
    requires 0 <= n < 100
  {
    [Digit(n / 10), Digit(n % 10)]
  }

  /** str(time): HH:MM:SS, with six more digits when there are microseconds. */
  function TimeText(t: TimeOfDay): string {
    TwoDigits(HourOf(t)) + ":" + TwoDigits(t / MINUTE % 60) + ":" + SecondsText(t)
  }

  function SecondsText(t: TimeOfDay): string {
    TwoDigits(t / SECOND % 60) + MicrosText(t % SECOND)
  }

  function MicrosText(micros: int): string
    requires 0 <= micros < SECOND
  {
    if micros == 0 then ""
    else "." + TwoDigits(micros / 10_000) + TwoDigits(micros / 100 % 100) + TwoDigits(micros % 100)
  }

  function RecordingKey(r: DelayRecord): string {
    "delays_recording:" + r.routeCode + ":" + r.stopId + ":" + TimeText(r.scheduledTime)
  }

  lemma SplitAtLastColon(x: string, a: string, y: string, b: string)
    requires ':' !in a && ':' !in b && x + ":" + a == y + ":" + b
    ensures x == y && a == b
  {
    var whole := x + ":" + a;
    assert whole[|x|] == ':' && whole[|y|] == ':';
    assert whole[|x| + 1..] == a && whole[|y| + 1..] == b;
    assert whole[..|x|] == x && whole[..|y|] == y;
  }

  lemma DigitIdentifies(m: int, n: int)
    requires 0 <= m < 10 && 0 <= n < 10
    ensures Digit(m) == Digit(n) ==> m == n
  {
  }

  lemma DigitsIdentify(m: int, n: int)
    requires 0 <= m < 100 && 0 <= n < 100
    ensures ':' !in TwoDigits(m)
    ensures TwoDigits(m) == TwoDigits(n) ==> m == n
  {
    hide Digit;
    DigitIdentifies(m / 10, n / 10);
    DigitIdentifies(m % 10, n % 10);
    assert TwoDigits(m) == TwoDigits(n) ==> TwoDigits(m)[0] == TwoDigits(n)[0] && TwoDigits(m)[1] == TwoDigits(n)[1];
  }

  lemma SixDigits(m: int, n: int)
    requires 0 <= m < SECOND && 0 <= n < SECOND
    requires m / 10_000 == n / 10_000 && m / 100 % 100 == n / 100 % 100 && m % 100 == n % 100
    ensures m == n
  {
  }

  lemma MicrosParts(m: int)
    requires 0 < m < SECOND
    ensures var text := MicrosText(m);
            && |text| == 7 && text[1..3] == TwoDigits(m / 10_000)
            && text[3..5] == TwoDigits(m / 100 % 100) && text[5..] == TwoDigits(m % 100)
            && ':' !in text
  {
    DigitsIdentify(m / 10_000, 0);
    DigitsIdentify(m / 100 % 100, 0);
    DigitsIdentify(m % 100, 0);
    hide Digit;
  }

  lemma MicrosIdentify(m: int, n: int)
    requires 0 <= m < SECOND && 0 <= n < SECOND
    ensures ':' !in MicrosText(m)
    ensures MicrosText(m) == MicrosText(n) ==> m == n
  {
    if m > 0 { MicrosParts(m); }
    if n > 0 { MicrosParts(n); }
    if m > 0 && n > 0 && MicrosText(m) == MicrosText(n) {
      hide TwoDigits, MicrosText;
      DigitsIdentify(m / 10_000, n / 10_000);
      DigitsIdentify(m / 100 % 100, n / 100 % 100);
      DigitsIdentify(m % 100, n % 100);
      SixDigits(m, n);
    }
  }

  lemma SecondsIdentify(t1: TimeOfDay, t2: TimeOfDay)
    ensures ':' !in SecondsText(t1)
    ensures SecondsText(t1) == SecondsText(t2) ==> t1 / SECOND % 60 == t2 / SECOND % 60 && t1 % SECOND == t2 % SECOND
  {
    DigitsIdentify(t1 / SECOND % 60, t2 / SECOND % 60);
    MicrosIdentify(t1 % SECOND, t2 % SECOND);
    hide MicrosText, Digit;
    var s1, s2 := SecondsText(t1), SecondsText(t2);
    assert TwoDigits(t1 / SECOND % 60) == s1[..2] && TwoDigits(t2 / SECOND % 60) == s2[..2];
    assert MicrosText(t1 % SECOND) == s1[2..] && MicrosText(t2 % SECOND) == s2[2..];
  }

  lemma SixtyParts(n: int)
    requires n >= 0
    ensures n == n / 60 * 60 + n % 60
  {
  }

  /** A time is put together from its four fields. */
  lemma FieldsAdd(t: TimeOfDay)
    ensures t == HourOf(t) * HOUR + t / MINUTE % 60 * MINUTE + t / SECOND % 60 * SECOND + t % SECOND
  {
    var seconds, minutes := t / SECOND, t / MINUTE;
    assert t == seconds * SECOND + t % SECOND;
    assert minutes == seconds / 60 && HourOf(t) == minutes / 60;
    SixtyParts(seconds);
    SixtyParts(minutes);
  }

  lemma FieldsIdentify(t1: TimeOfDay, t2: TimeOfDay)
    requires HourOf(t1) == HourOf(t2) && t1 / MINUTE % 60 == t2 / MINUTE % 60
    requires t1 / SECOND % 60 == t2 / SECOND % 60 && t1 % SECOND == t2 % SECOND
    ensures t1 == t2
  {
    hide *;
    FieldsAdd(t1);
    FieldsAdd(t2);
  }

  // ---------- what a key identifies ----------

  /** The part of the key before the time. */
  function Place(routeCode: string, stopId: string): string {
    routeCode + ":" + stopId
  }

  lemma KeyText(r: DelayRecord)
    ensures RecordingKey(r)[17..] ==
            Place(r.routeCode, r.stopId) + ":" + TwoDigits(HourOf(r.scheduledTime)) + ":"
            + TwoDigits(r.scheduledTime / MINUTE % 60) + ":" + SecondsText(r.scheduledTime)
  {
    hide TwoDigits, SecondsText;
    assert |"delays_recording:"| == 17;
  }

  /** Two records share a key exactly when their times agree and so does route:stop. */
  lemma KeysAgreeIff(r1: DelayRecord, r2: DelayRecord)
    ensures RecordingKey(r1) == RecordingKey(r2)
       <==> r1.scheduledTime == r2.scheduledTime && Place(r1.routeCode, r1.stopId) == Place(r2.routeCode, r2.stopId)
  {
    KeyIsPlaceAndTime(r1);
    KeyIsPlaceAndTime(r2);
    if RecordingKey(r1) == RecordingKey(r2) {
      KeyText(r1);
      KeyText(r2);
      hide *;
      PlaceAndTimeText(Place(r1.routeCode, r1.stopId), r1.scheduledTime, Place(r2.routeCode, r2.stopId), r2.scheduledTime);
    }
  }

  lemma KeyIsPlaceAndTime(r: DelayRecord)
    ensures RecordingKey(r) == "delays_recording:" + Place(r.routeCode, r.stopId) + ":" + TimeText(r.scheduledTime)
  {
    hide TimeText;
  }

  lemma PlaceAndTimeText(p1: string, t1: TimeOfDay, p2: string, t2: TimeOfDay)
    requires p1 + ":" + TwoDigits(HourOf(t1)) + ":" + TwoDigits(t1 / MINUTE % 60) + ":" + SecondsText(t1)
          == p2 + ":" + TwoDigits(HourOf(t2)) + ":" + TwoDigits(t2 / MINUTE % 60) + ":" + SecondsText(t2)
    ensures p1 == p2 && t1 == t2
  {
    var h1, h2 := TwoDigits(HourOf(t1)), TwoDigits(HourOf(t2));
    var m1, m2 := TwoDigits(t1 / MINUTE % 60), TwoDigits(t2 / MINUTE % 60);
    hide *;
    SecondsIdentify(t1, t2);
    SecondsIdentify(t2, t1);
    SplitAtLastColon(p1 + ":" + h1 + ":" + m1, SecondsText(t1), p2 + ":" + h2 + ":" + m2, SecondsText(t2));
    DigitsIdentify(t1 / MINUTE % 60, t2 / MINUTE % 60);
    DigitsIdentify(t2 / MINUTE % 60, t1 / MINUTE % 60);
    SplitAtLastColon(p1 + ":" + h1, m1, p2 + ":" + h2, m2);
    DigitsIdentify(HourOf(t1), HourOf(t2));
    DigitsIdentify(HourOf(t2), HourOf(t1));
    SplitAtLastColon(p1, h1, p2, h2);
    FieldsIdentify(t1, t2);
  }

  /** The longer code goes on from the shorter one with a colon. */
  predicate GoesOnWithColon(shorter: string, longer: string) {
    |shorter| < |longer| && longer[..|shorter|] == shorter && longer[|shorter|] == ':'
  }

  predicate ShareKey(a: string, stop1: string, t1: TimeOfDay, b: string, stop2: string, t2: TimeOfDay) {
    RecordingKey(DelayRecord(stop1, a, t1, 0)) == RecordingKey(DelayRecord(stop2, b, t2, 0))
  }

  /** A key tells two route codes' records apart, whatever the stops and times, exactly when neither
      code goes on from the other with a colon. */
  lemma KeysTellCodesApartIff(a: string, b: string)
    ensures (forall stop1, t1, stop2, t2 :: ShareKey(a, stop1, t1, b, stop2, t2) ==> a == b && stop1 == stop2 && t1 == t2)
       <==> !GoesOnWithColon(a, b) && !GoesOnWithColon(b, a)
  {
    hide RecordingKey;
    if GoesOnWithColon(a, b) {
      SharedKey(a, b, "s");
    } else if GoesOnWithColon(b, a) {
      SharedKey(b, a, "s");
      assert ShareKey(a, "s", 0, b, a[|b| + 1..] + ":" + "s", 0);
    } else {
      forall stop1, t1, stop2, t2 | ShareKey(a, stop1, t1, b, stop2, t2)
        ensures a == b && stop1 == stop2 && t1 == t2
      {
        KeysAgreeIff(DelayRecord(stop1, a, t1, 0), DelayRecord(stop2, b, t2, 0));
        PlaceIdentifies(a, stop1, b, stop2);
      }
    }
  }

  /** Any stop of the longer code shares its key with a stop of the shorter one. */
  lemma SharedKey(a: string, b: string, stop: string)
    requires GoesOnWithColon(a, b)
    ensures ShareKey(a, b[|a| + 1..] + ":" + stop, 0, b, stop, 0)
  {
    hide RecordingKey;
    var other := b[|a| + 1..] + ":" + stop;
    KeysAgreeIff(DelayRecord(other, a, 0, 0), DelayRecord(stop, b, 0, 0));
    assert b == a + ":" + b[|a| + 1..];
    assert Place(a, other) == Place(b, stop);
  }

  lemma PlaceIdentifies(a: string, stop1: string, b: string, stop2: string)
    requires !GoesOnWithColon(a, b) && !GoesOnWithColon(b, a)
    requires Place(a, stop1) == Place(b, stop2)
    ensures a == b && stop1 == stop2
  {
    var whole := Place(a, stop1);
    assert whole[|a|] == ':' && whole[|b|] == ':';
    assert whole[..|a|] == a && whole[..|b|] == b;
    assert |a| == |b|;
    assert whole[|a| + 1..] == stop1 && whole[|b| + 1..] == stop2;
  }

  /** At any one time stop c of route a:b shares its key with stop b:c of route a. */
  lemma ColonsConfuseKeys(t: TimeOfDay)
    ensures RecordingKey(DelayRecord("c", "a:b", t, 0)) == RecordingKey(DelayRecord("b:c", "a", t, 0))
  {
    hide TimeText;
    assert "a:b" + ":" + "c" == "a" + ":" + "b:c";
  }
}
