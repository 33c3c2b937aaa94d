/** Timestamps: the epoch time of a 12-bit field, and the ISO 8601 form (section 5.6 of RFC 3339) in which
    records carry it. Epoch times count milliseconds from the start of 2026.
  */
module NtpTime {
  import opened Binary
  import opened CanCodec
  import opened Calendar
  import opened Scanf

  const SYNC_EPOCH_UNIX_MS := 1767225600000
  const MODULO_MS := 4096

  // ----- Reconstruction from the low twelve bits

  function Reconstruct(field: nat, now: nat): nat
    requires now < TWO_64
  {
    var candidate := Or(now / MODULO_MS * MODULO_MS, field % MODULO_MS);
    if candidate > now then (candidate - MODULO_MS) % TWO_64 else candidate
  }

  lemma CandidateParts(field: nat, now: nat)
    ensures Or(now / MODULO_MS * MODULO_MS, field % MODULO_MS) == now / MODULO_MS * MODULO_MS + field % MODULO_MS
  {
    SmallPowers();
    Pow2Sum(8, 4);
    OrOfFields(now / MODULO_MS, 12, field % MODULO_MS);
  }

  /** Exactly which times survive: those less than 4096 ms old; besides them only, when `now` itself is below 4096,
      the top of the 64-bit range, where the subtraction wraps. */
  lemma ReconstructIff(t: nat, now: nat)
    requires t < TWO_64 && now < TWO_64
    ensures Reconstruct(t % MODULO_MS, now) == t
        <==> t <= now < t + MODULO_MS || (now < t % MODULO_MS && t >= TWO_64 - MODULO_MS)
  {
    hide Or;
    CandidateParts(t % MODULO_MS, now);
    var low, base := t % MODULO_MS, now / MODULO_MS * MODULO_MS;
    assert base <= now < base + MODULO_MS && t - low == t / MODULO_MS * MODULO_MS;
    if base + low > now && base == 0 {
      assert Reconstruct(low, now) == low - MODULO_MS + TWO_64;
    }
  }

  /** The result always agrees with the field in its low twelve bits. */
  lemma ReconstructCongruent(field: nat, now: nat)
    requires now < TWO_64
    ensures Reconstruct(field, now) % MODULO_MS == field % MODULO_MS
  {
    hide Or;
    CandidateParts(field, now);
    var q, low := now / MODULO_MS, field % MODULO_MS;
    if q * MODULO_MS + low <= now {
      SameLowBits(q, low);
    } else if q > 0 {
      assert Reconstruct(field, now) == (q - 1) * MODULO_MS + low;
      SameLowBits(q - 1, low);
    } else {
      assert Reconstruct(field, now) == (TWO_64 / MODULO_MS - 1) * MODULO_MS + low;
    }
  }

  lemma SameLowBits(q: nat, low: nat)
    requires low < MODULO_MS
    ensures (q * MODULO_MS + low) % MODULO_MS == low
  {
  }

  /** The result is the one value of the last 4096 ms that agrees with the field, whenever such a value exists. */
  lemma ReconstructUnique(field: nat, now: nat, t: nat)
    requires now < TWO_64 && t <= now < t + MODULO_MS
    ensures t % MODULO_MS == field % MODULO_MS <==> Reconstruct(field, now) == t
  {
    ReconstructCongruent(field, now);
    ReconstructIff(t, now);
    assert Reconstruct(field, now) == Reconstruct(field % MODULO_MS, now);
  }

  /** A sensing time survives the wire: masked to twelve bits, packed, decoded and reconstructed up to four seconds
      later. */
  lemma TimestampRoundTrip(ego: EgoVehicle, t: nat, now: nat)
    requires EgoInRange(ego) && ego.timestamp == t % MODULO_MS && t <= now < t + MODULO_MS && now < TWO_64
    ensures var received := DecodePayload(ToBytes(Word(EGO_MSG_ID, ego.timestamp, EgoPayload(ego)), 8));
            received.Some? && Reconstruct(received.value.timestamp, now) == t
  {
    hide Reconstruct, DecodePayload, ToBytes, Word, EgoPayload;
    DecodeOfPacked(ego);
    ReconstructIff(t, now);
  }

  // ----- ISO 8601

  const ISO_8601: seq<Field> := [
    Field(4, '-'), Field(2, '-'), Field(2, 'T'), Field(2, ':'), Field(2, ':'), Field(2, '.'), Field(3, 'Z')]
  const ISO_8601_LENGTH := 24

  // The first millisecond of the year 10000.
  const YEAR_10000_UNIX_MS := 253402300800000

  function FieldsOf(unixMs: nat): (r: seq<nat>)
    ensures |r| == 7
  {
    var u := Gmtime(unixMs / 1000);
    GmtimeInverse(unixMs / 1000);
    [u.year, u.month, u.day, u.hour, u.minute, u.second, unixMs % 1000]
  }

  /** The millisecond that seven numbers denote, if they denote one: read as a date and time, converted to seconds
      and back, and compared. */
  function UnixMsOf(v: seq<int>): Option<nat>
    requires |v| == 7
  {
    var t := Time(v[0], v[1], v[2], v[3], v[4], v[5]);
    if !FieldsInRange(t) || v[6] < 0 || v[6] > 999 then None
    else
      var seconds := Timegm(t);
      if seconds < 0 || Gmtime(seconds) != t then None else Some(seconds * 1000 + v[6])
  }

  function Format(t: nat): Option<string> {
    var s := Print(ISO_8601, FieldsOf((SYNC_EPOCH_UNIX_MS + t) % TWO_64));
    if |s| == ISO_8601_LENGTH then Some(s) else None
  }

  function Parse(s: string): Option<nat> {
    if |s| != ISO_8601_LENGTH then None
    else
      match Scan(s, 0, ISO_8601)
      case None => None
      case Some(v) =>
        match UnixMsOf(v)
        case None => None
        case Some(unixMs) => if unixMs < SYNC_EPOCH_UNIX_MS then None else Some(unixMs - SYNC_EPOCH_UNIX_MS)
  }

  /** Taking a millisecond apart and putting it together give it back. */
  lemma FieldsInverse(unixMs: nat)
    ensures UnixMsOf(FieldsOf(unixMs)) == Some(unixMs)
  {
    hide Gmtime, Timegm;
    GmtimeInverse(unixMs / 1000);
  }

  /** Numbers that denote a millisecond are the fields of it; none is denoted twice. */
  lemma UnixMsInverse(v: seq<int>)
    requires |v| == 7
    ensures UnixMsOf(v).Some? ==> FieldsOf(UnixMsOf(v).value) == v
  {
    hide Gmtime, Timegm;
    if UnixMsOf(v).Some? {
      var seconds := Timegm(Time(v[0], v[1], v[2], v[3], v[4], v[5]));
      assert (seconds * 1000 + v[6]) / 1000 == seconds && (seconds * 1000 + v[6]) % 1000 == v[6];
    }
  }

  lemma YearBelow10000Iff(unixMs: nat)
    ensures Gmtime(unixMs / 1000).year < 10000 <==> unixMs < YEAR_10000_UNIX_MS
  {
    hide YearFrom, DaysBeforeYear;
    var day := unixMs / 1000 / SECONDS_PER_DAY;
    var y := Gmtime(unixMs / 1000).year;
    EpochStart();
    Year10000Start();
    if y < 10000 {
      YearsApart(y + 1, 10000);
    } else {
      YearsApart(10000, y);
    }
    assert day < 2932897 <==> unixMs < YEAR_10000_UNIX_MS;
  }

  lemma Year10000Start()
    ensures DaysBeforeYear(10000) == 2932897
  {
  }

  lemma IsoWidths()
    ensures TotalWidth(ISO_8601) == ISO_8601_LENGTH
    ensures Pow10(4) == 10000 && Pow10(2) == 100 && Pow10(3) == 1000
  {
    assert TotalWidth(ISO_8601[7..]) == 0;
    assert ISO_8601[5..][1..] == ISO_8601[6..] && ISO_8601[6..][1..] == ISO_8601[7..];
    assert TotalWidth(ISO_8601[5..]) == 7;
    assert ISO_8601[3..][1..] == ISO_8601[4..] && ISO_8601[4..][1..] == ISO_8601[5..];
    assert TotalWidth(ISO_8601[3..]) == 13;
    assert ISO_8601[1..][1..] == ISO_8601[2..] && ISO_8601[2..][1..] == ISO_8601[3..];
  }

  lemma FieldsFitIff(unixMs: nat)
    ensures Fit(ISO_8601, FieldsOf(unixMs)) <==> unixMs < YEAR_10000_UNIX_MS
  {
    hide Gmtime, Pow10;
    GmtimeInverse(unixMs / 1000);
    YearBelow10000Iff(unixMs);
    IsoWidths();
  }

  /** Formatting succeeds exactly up to the end of the year 9999. */
  lemma FormatIff(t: nat)
    ensures Format(t).Some? <==> (SYNC_EPOCH_UNIX_MS + t) % TWO_64 < YEAR_10000_UNIX_MS
  {
    hide FieldsOf, Print, TotalWidth, Fit;
    var unixMs := (SYNC_EPOCH_UNIX_MS + t) % TWO_64;
    IsoWidths();
    LengthOfPrint(ISO_8601, FieldsOf(unixMs));
    FieldsFitIff(unixMs);
  }

  /** Parsing on all strings of the printed shape: such a string is accepted exactly when its numbers denote a
      millisecond from 2026 on, and its value is that millisecond. */
  lemma ParseOfShape(values: seq<nat>)
    requires |values| == 7 && Fit(ISO_8601, values)
    ensures var unixMs := UnixMsOf(values);
            Parse(Print(ISO_8601, values)) ==
            if unixMs.Some? && unixMs.value >= SYNC_EPOCH_UNIX_MS then Some(unixMs.value - SYNC_EPOCH_UNIX_MS) else None
  {
    hide UnixMsOf, Print, Scan, TotalWidth, Fit;
    IsoWidths();
    LengthOfPrint(ISO_8601, values);
    ScanOfPrint("", ISO_8601, values);
    assert "" + Print(ISO_8601, values) == Print(ISO_8601, values);
  }

  /** Parsing inverts formatting wherever formatting succeeds, iff adding the base did not wrap 64 bits. */
  lemma ParseOfFormatted(t: nat)
    requires t < TWO_64 && Format(t).Some?
    ensures Parse(Format(t).value) == Some(t) <==> SYNC_EPOCH_UNIX_MS + t < TWO_64
  {
    hide FieldsOf, UnixMsOf, Print, Fit, Parse;
    var unixMs := (SYNC_EPOCH_UNIX_MS + t) % TWO_64;
    FormatIff(t);
    FieldsFitIff(unixMs);
    FieldsInverse(unixMs);
    ParseOfShape(FieldsOf(unixMs));
  }

  /** On strings of the printed shape parsing accepts nothing else: what it accepts as `t` is what `t` prints as.
      So a 30th of February, a 60th second or a year before 2026 is refused. */
  lemma FormatOfParsed(values: seq<nat>, t: nat)
    requires |values| == 7 && Fit(ISO_8601, values)
    ensures Parse(Print(ISO_8601, values)) == Some(t)
        <==> Format(t) == Some(Print(ISO_8601, values)) && SYNC_EPOCH_UNIX_MS + t < TWO_64
  {
    hide FieldsOf, UnixMsOf, Print, Fit, Parse;
    var s := Print(ISO_8601, values);
    ParseOfShape(values);
    if Parse(s) == Some(t) {
      UnixMsInverse(values);
      FieldsFitIff(SYNC_EPOCH_UNIX_MS + t);
      FormatIff(t);
    }
    if Format(t) == Some(s) && SYNC_EPOCH_UNIX_MS + t < TWO_64 {
      ParseOfFormatted(t);
    }
  }

  lemma AcceptedNumbers(s: string)
    ensures Parse(s).Some? ==>
              var v := Scan(s, 0, ISO_8601);
              && v.Some? && UnixMsOf(v.value) == Some(SYNC_EPOCH_UNIX_MS + Parse(s).value) && v.value[0] < Pow10(4)
  {
    hide UnixMsOf, Pow10, Scan;
    ScanBound(s, 0, ISO_8601);
    assert ISO_8601[0].width == 4;
  }

  lemma YearOfFields(unixMs: nat)
    ensures FieldsOf(unixMs)[0] == Gmtime(unixMs / 1000).year
  {
    hide Gmtime;
  }

  /** Any accepted string, however loosely written, stands for a time that prints, and the printed form is accepted
      as the same time: printing what was parsed gives its canonical form. */
  lemma AcceptedHasCanonicalForm(s: string)
    ensures var t := Parse(s);
            t.Some? ==> Format(t.value).Some? && Parse(Format(t.value).value) == t
  {
    hide Parse, UnixMsOf, FieldsOf, Scan, Print, Gmtime, Format;
    if Parse(s).Some? {
      var t := Parse(s).value;
      var unixMs := SYNC_EPOCH_UNIX_MS + t;
      AcceptedNumbers(s);
      UnixMsInverse(Scan(s, 0, ISO_8601).value);
      YearOfFields(unixMs);
      IsoWidths();
      YearBelow10000Iff(unixMs);
      FormatIff(t);
      ParseOfFormatted(t);
    }
  }

  // ----- The printed text

  /** A text that shows a moment in the form 2026-01-31T23:59:59.999Z. */
  predicate Shows(s: string, t: Time, ms: nat)
    requires t.year >= 0 && FieldsInRange(t)
  {
    && |s| == 24
    && s[0..4] == Digits(t.year, 4) && s[4] == '-' && s[5..7] == Digits(t.month, 2) && s[7] == '-'
    && s[8..10] == Digits(t.day, 2) && s[10] == 'T' && s[11..13] == Digits(t.hour, 2) && s[13] == ':'
    && s[14..16] == Digits(t.minute, 2) && s[16] == ':' && s[17..19] == Digits(t.second, 2) && s[19] == '.'
    && s[20..23] == Digits(ms, 3) && s[23] == 'Z'
  }

  lemma IsoPlaces()
    ensures WidthBefore(ISO_8601, 0) == 0 && WidthBefore(ISO_8601, 1) == 5 && WidthBefore(ISO_8601, 2) == 8
    ensures WidthBefore(ISO_8601, 3) == 11 && WidthBefore(ISO_8601, 4) == 14 && WidthBefore(ISO_8601, 5) == 17
    ensures WidthBefore(ISO_8601, 6) == 20
  {
    assert WidthBefore(ISO_8601, 2) == 8;
    assert WidthBefore(ISO_8601, 4) == 14;
  }

  lemma PrintShows(t: Time, ms: nat, values: seq<nat>)
    requires FieldsInRange(t) && t.year >= 0
    requires values == [t.year, t.month, t.day, t.hour, t.minute, t.second, ms] && Fit(ISO_8601, values)
    ensures Shows(Print(ISO_8601, values), t, ms)
  {
    hide Print, Fit, Digits, WidthBefore, TotalWidth;
    IsoPlaces();
    IsoWidths();
    LengthOfPrint(ISO_8601, values);
    PrintedAt(ISO_8601, values, 0);
    PrintedAt(ISO_8601, values, 1);
    PrintedAt(ISO_8601, values, 2);
    PrintedAt(ISO_8601, values, 3);
    PrintedAt(ISO_8601, values, 4);
    PrintedAt(ISO_8601, values, 5);
    PrintedAt(ISO_8601, values, 6);
  }

  lemma FieldsOfMoment(t: Time, ms: nat)
    requires Exists(t) && ms < 1000
    ensures Timegm(t) >= 0
    ensures FieldsOf(Timegm(t) * 1000 + ms) == [t.year, t.month, t.day, t.hour, t.minute, t.second, ms]
  {
    hide Timegm, Gmtime, FirstDay;
    TimegmInverse(t);
    assert (Timegm(t) * 1000 + ms) / 1000 == Timegm(t) && (Timegm(t) * 1000 + ms) % 1000 == ms;
  }

  /** What is printed: every moment from the start of 2026 to the end of 9999 shows as itself. The milliseconds are
      those of the calendar, counted from the start of 2026. */
  lemma PrintedMoment(t: Time, ms: nat)
    requires Exists(t) && 2026 <= t.year <= 9999 && ms < 1000
    ensures var unixMs :=
              ((((((t.year - 1970) * 365 + (t.year - 1969) / 4 - (t.year - 1901) / 100 + (t.year - 1601) / 400
                  + FirstDay(t.year, t.month) + t.day - 1) * 24 + t.hour) * 60) + t.minute) * 60 + t.second) * 1000 +
              ms;
            && unixMs >= 1767225600000
            && Format(unixMs - 1767225600000).Some? && Shows(Format(unixMs - 1767225600000).value, t, ms)
  {
    hide Timegm, Gmtime, FieldsOf, Print, Fit, Shows, FirstDay, Pow10;
    SecondsOf(t);
    FieldsOfMoment(t, ms);
    MomentsFrom2026(t);
    var unixMs := Timegm(t) * 1000 + ms;
    GmtimeOfMoment(t, ms);
    YearBelow10000Iff(unixMs);
    FieldsFitIff(unixMs);
    FormatIff(unixMs - SYNC_EPOCH_UNIX_MS);
    PrintShows(t, ms, FieldsOf(unixMs));
  }

  lemma GmtimeOfMoment(t: Time, ms: nat)
    requires Exists(t) && ms < 1000
    ensures Timegm(t) >= 0 && Gmtime((Timegm(t) * 1000 + ms) / 1000) == t
  {
    hide Timegm, Gmtime, FirstDay;
    TimegmInverse(t);
    assert (Timegm(t) * 1000 + ms) / 1000 == Timegm(t);
  }

  lemma MomentsFrom2026(t: Time)
    requires Exists(t) && t.year >= 2026
    ensures Timegm(t) * 1000 >= SYNC_EPOCH_UNIX_MS
  {
    hide DaysBeforeYear, DaysBeforeMonth, FirstDay;
    YearsApart(2026, t.year);
    Year2026Start();
  }

  lemma Year2026Start()
    ensures DaysBeforeYear(2026) == 20454
  {
  }

  lemma DateOfText(s: string)
    requires |s| == 24 && s[0..4] == "2026" && s[4] == '-' && s[5..7] == "01" && s[7] == '-' && s[8..10] == "01"
    ensures s[..10] == "2026-01-01"
  {
    assert s[..10] == s[0..4] + [s[4]] + s[5..7] + [s[7]] + s[8..10];
  }

  lemma ClockOfText(s: string)
    requires |s| == 24 && s[10] == 'T' && s[11..13] == "00" && s[13] == ':' && s[14..16] == "00" && s[16] == ':'
    requires s[17..19] == "00" && s[19] == '.' && s[20..23] == "000" && s[23] == 'Z'
    ensures s[10..] == "T00:00:00.000Z"
  {
    assert s[10..] == [s[10]] + s[11..13] + [s[13]] + s[14..16] + [s[16]] + s[17..19] + [s[19]] + s[20..23] + [s[23]];
  }

  /** The reference epoch prints as the start of 2026 and is read back as 0. */
  lemma EpochText()
    ensures Format(0) == Some("2026-01-01T00:00:00.000Z") && Parse("2026-01-01T00:00:00.000Z") == Some(0)
  {
    hide Format, Parse, Exists, Digits, FirstDay;
    EpochExists();
    EpochMoment();
    PrintedMoment(Time(2026, 1, 1, 0, 0, 0), 0);
    EpochDigits();
    var s := Format(0).value;
    DateOfText(s);
    ClockOfText(s);
    assert s == s[..10] + s[10..];
    assert "2026-01-01" + "T00:00:00.000Z" == "2026-01-01T00:00:00.000Z";
    ParseOfFormatted(0);
  }

  lemma EpochExists()
    ensures Exists(Time(2026, 1, 1, 0, 0, 0))
  {
  }

  lemma EpochMoment()
    ensures (2026 - 1970) * 365 + (2026 - 1969) / 4 - (2026 - 1901) / 100 + (2026 - 1601) / 400 == 20454
    ensures FirstDay(2026, 1) == 0
  {
  }

  lemma EpochDigits()
    ensures Digits(2026, 4) == "2026" && Digits(1, 2) == "01" && Digits(0, 2) == "00" && Digits(0, 3) == "000"
  {
    assert Digits(20, 2) == "20";
    assert Digits(202, 3) == "202";
  }
}
