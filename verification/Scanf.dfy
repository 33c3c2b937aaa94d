/** The parts of `snprintf` and `sscanf` that timestamps use: zero-padded decimal numbers with a letter after each. */
module Scanf {
  import opened CanCodec

  // ----- Decimal numbers

  function Pow10(w: nat): (p: nat)
    ensures p >= 1
  {
    if w == 0 then 1 else 10 * Pow10(w - 1)
  }

  function DigitChar(d: nat): (c: char)
    requires d < 10
    ensures IsDigit(c)
  {
    ('0' as int + d) as char
  }

  predicate IsDigit(c: char) {
    '0' <= c <= '9'
  }

  function Decimal(n: nat): (s: string)
    ensures |s| >= 1
  {
    if n < 10 then [DigitChar(n)] else Decimal(n / 10) + [DigitChar(n % 10)]
  }

  /** A number printed with leading zeros up to a minimum width. */
  function Padded(n: nat, width: nat): string {
    var s := Decimal(n);
    if |s| >= width then s else seq(width - |s|, _ => '0') + s
  }

  /** The `w` low decimal digits. */
  function Digits(n: nat, w: nat): (s: string)
    ensures |s| == w
  {
    if w == 0 then "" else Digits(n / 10, w - 1) + [DigitChar(n % 10)]
  }

  function DigitValue(c: char): nat
    requires IsDigit(c)
  {
    c as int - '0' as int
  }

  function Value(s: string): nat
    requires forall i | 0 <= i < |s| :: IsDigit(s[i])
  {
    if s == "" then 0 else Value(s[..|s| - 1]) * 10 + DigitValue(s[|s| - 1])
  }

  lemma {:induction false} DigitsOfZero(w: nat)
    ensures Digits(0, w) == seq(w, _ => '0')
  {
    if w > 0 {
      DigitsOfZero(w - 1);
    }
  }

  /** Padding prints the digits, and exactly as many as asked for when the number has no more. */
  lemma {:induction false} PaddedIsDigits(n: nat, w: nat)
    requires w >= 1
    ensures if n < Pow10(w) then Padded(n, w) == Digits(n, w) else |Padded(n, w)| > w
  {
    if n < 10 {
      DigitsOfZero(w - 1);
    } else if w > 1 {
      PaddedIsDigits(n / 10, w - 1);
      PaddedNext(n, w);
    }
  }

  lemma PaddedNext(n: nat, w: nat)
    requires n >= 10 && w > 1
    ensures Padded(n, w) == Padded(n / 10, w - 1) + [DigitChar(n % 10)]
  {
    hide DigitChar;
    assert Decimal(n) == Decimal(n / 10) + [DigitChar(n % 10)];
  }

  lemma {:induction false} ValueOfDigits(n: nat, w: nat)
    requires n < Pow10(w)
    ensures (forall i | 0 <= i < w :: IsDigit(Digits(n, w)[i])) && Value(Digits(n, w)) == n
  {
    if w > 0 {
      ValueOfDigits(n / 10, w - 1);
      assert Digits(n, w)[..w - 1] == Digits(n / 10, w - 1);
    }
  }

  // ----- Scanning and printing numbers with a letter after each

  datatype Field = Field(width: nat, delimiter: char)

  function Print(fields: seq<Field>, values: seq<nat>): string
    requires |fields| == |values|
  {
    if fields == [] then ""
    else Padded(values[0], fields[0].width) + [fields[0].delimiter] + Print(fields[1..], values[1..])
  }

  predicate IsSpace(c: char) {
    c == ' ' || '\t' <= c <= '\r'
  }

  function SkipSpaces(s: string, i: nat): (j: nat)
    requires i <= |s|
    ensures i <= j <= |s|
    decreases |s| - i
  {
    if i < |s| && IsSpace(s[i]) then SkipSpaces(s, i + 1) else i
  }

  /** The end of the run of digits that starts at `i` and stops before `limit`. */
  function DigitsEnd(s: string, i: nat, limit: nat): (e: nat)
    requires i <= |s|
    ensures i <= e <= |s| && (forall k | i <= k < e :: IsDigit(s[k])) && (e > i ==> e <= limit)
    decreases |s| - i
  {
    if i < |s| && i < limit && IsDigit(s[i]) then DigitsEnd(s, i + 1, limit) else i
  }

  /** A number of at most `width` characters: blanks before it are skipped, a sign counts. */
  function ScanInt(s: string, i: nat, width: nat): (r: Option<(int, nat)>)
    requires i <= |s|
    ensures r.Some? ==> r.value.1 <= |s|
  {
    var j := SkipSpaces(s, i);
    var signed := j < |s| && (s[j] == '+' || s[j] == '-');
    var k := if signed then j + 1 else j;
    var e := DigitsEnd(s, k, j + width);
    if e == k then None
    else
      var v: int := Value(s[k..e]);
      Some((if signed && s[j] == '-' then -v else v, e))
  }

  /** The number a string starts with, as `strtol` reads it in base ten: 0 when there is none. */
  function StrToL(s: string): int {
    var j := SkipSpaces(s, 0);
    var signed := j < |s| && (s[j] == '+' || s[j] == '-');
    var k := if signed then j + 1 else j;
    var v: int := Value(s[k..DigitsEnd(s, k, |s|)]);
    if signed && s[j] == '-' then -v else v
  }

  /** The numbers of a string; each delimiter must follow its number except the last, which nothing depends on. */
  function Scan(s: string, i: nat, fields: seq<Field>): (r: Option<seq<int>>)
    requires i <= |s|
    ensures r.Some? ==> |r.value| == |fields|
    decreases |fields|
  {
    if fields == [] then Some([])
    else
      match ScanInt(s, i, fields[0].width)
      case None => None
      case Some((v, e)) =>
        if |fields| == 1 then Some([v])
        else if e < |s| && s[e] == fields[0].delimiter then
          match Scan(s, e + 1, fields[1..])
          case None => None
          case Some(rest) => Some([v] + rest)
        else None
  }

  predicate Fit(fields: seq<Field>, values: seq<nat>) {
    |fields| == |values| && forall k | 0 <= k < |fields| :: fields[k].width >= 1 && values[k] < Pow10(fields[k].width)
  }

  lemma {:induction false} DigitsEndAt(s: string, i: nat, limit: nat)
    requires i <= limit <= |s| && forall k | i <= k < limit :: IsDigit(s[k])
    ensures DigitsEnd(s, i, limit) == limit
    decreases |s| - i
  {
    if i < limit {
      DigitsEndAt(s, i + 1, limit);
    }
  }

  /** At a run of digits as long as the width allows, scanning reads its value. */
  lemma ScanIntAt(s: string, i: nat, width: nat)
    requires 1 <= width && i + width <= |s| && forall k | i <= k < i + width :: IsDigit(s[k])
    ensures ScanInt(s, i, width) == Some((Value(s[i..i + width]) as int, i + width))
  {
    DigitsEndAt(s, i, i + width);
    assert IsDigit(s[i]) && SkipSpaces(s, i) == i;
  }

  lemma ScanIntOfDigits(before: string, n: nat, w: nat, after: string)
    requires w >= 1 && n < Pow10(w)
    ensures ScanInt(before + Digits(n, w) + after, |before|, w) == Some((n as int, |before| + w))
  {
    hide Digits, Pow10, ScanInt, IsDigit;
    var s := before + Digits(n, w) + after;
    ValueOfDigits(n, w);
    assert s[|before|..|before| + w] == Digits(n, w);
    assert forall k | |before| <= k < |before| + w :: s[k] == Digits(n, w)[k - |before|];
    ScanIntAt(s, |before|, w);
  }

  lemma {:induction false} SkipSpacesAt(s: string, i: nat, j: nat)
    requires i <= j <= |s| && (forall k | i <= k < j :: IsSpace(s[k])) && (j == |s| || !IsSpace(s[j]))
    ensures SkipSpaces(s, i) == j
    decreases |s| - i
  {
    if i < j {
      SkipSpacesAt(s, i + 1, j);
    }
  }

  lemma {:induction false} DigitsEndBefore(s: string, i: nat, e: nat, limit: nat)
    requires i <= e <= |s| && e <= limit && (forall k | i <= k < e :: IsDigit(s[k]))
    requires e == |s| || e == limit || !IsDigit(s[e])
    ensures DigitsEnd(s, i, limit) == e
    decreases |s| - i
  {
    if i < e {
      DigitsEndBefore(s, i + 1, e, limit);
    }
  }

  /** The loose forms: blanks are skipped, a sign counts towards the width, and digits are read up to the first other
      character or to the width. */
  lemma ScanIntLoose(s: string, i: nat, j: nat, signed: bool, e: nat, width: nat)
    requires i <= j < |s| && (forall k | i <= k < j :: s[k] == ' ' || s[k] == '\t' || s[k] == '\n')
    requires if signed then s[j] == '+' || s[j] == '-' else IsDigit(s[j])
    requires var k := if signed then j + 1 else j;
             && k < e <= |s| && e <= j + width && (forall l | k <= l < e :: IsDigit(s[l]))
             && (e == |s| || e == j + width || !IsDigit(s[e]))
    ensures var k := if signed then j + 1 else j;
            var v: int := Value(s[k..e]);
            ScanInt(s, i, width) == Some((if s[j] == '-' then -v else v, e))
  {
    hide Value;
    SkipSpacesAt(s, i, j);
    DigitsEndBefore(s, if signed then j + 1 else j, e, j + width);
  }

  lemma StrToLOfDigits(n: nat, w: nat)
    requires w >= 1 && n < Pow10(w)
    ensures StrToL(Digits(n, w)) == n
  {
    hide Digits, Pow10;
    var s := Digits(n, w);
    ValueOfDigits(n, w);
    DigitsEndAt(s, 0, w);
    assert IsDigit(s[0]) && SkipSpaces(s, 0) == 0;
    assert s[0..w] == s;
  }

  lemma StrToLOfNegative(n: nat, w: nat)
    requires w >= 1 && n < Pow10(w)
    ensures StrToL("-" + Digits(n, w)) + n == 0
  {
    hide Digits, Pow10;
    var s := "-" + Digits(n, w);
    ValueOfDigits(n, w);
    assert forall k | 1 <= k < w + 1 :: s[k] == Digits(n, w)[k - 1];
    DigitsEndAt(s, 1, w + 1);
    assert SkipSpaces(s, 0) == 0;
    assert s[1..w + 1] == Digits(n, w);
  }

  lemma StrToLWithoutDigits(s: string)
    requires s == "" || !(IsDigit(s[0]) || IsSpace(s[0]) || s[0] == '+' || s[0] == '-')
    ensures StrToL(s) == 0
  {
    assert DigitsEnd(s, 0, |s|) == 0 && s[0..0] == "";
  }

  /** Scanning reads back whatever values fit their widths. */
  lemma {:induction false} ScanOfPrint(before: string, fields: seq<Field>, values: seq<nat>)
    requires Fit(fields, values)
    decreases |fields|
    ensures |before| <= |before + Print(fields, values)|
    ensures Scan(before + Print(fields, values), |before|, fields) == Some(values)
  {
    hide ScanInt, Padded, Digits, Pow10;
    if fields != [] {
      var w, digits := fields[0].width, Digits(values[0], fields[0].width);
      var rest := Print(fields[1..], values[1..]);
      PaddedIsDigits(values[0], w);
      ScanIntOfDigits(before, values[0], w, [fields[0].delimiter] + rest);
      assert before + Print(fields, values) == before + digits + ([fields[0].delimiter] + rest);
      var next := before + digits + [fields[0].delimiter];
      ScanOfPrint(next, fields[1..], values[1..]);
      var s := before + Print(fields, values);
      assert next + rest == s && s[|next| - 1] == fields[0].delimiter;
      assert ScanInt(s, |before|, w) == Some((values[0] as int, |next| - 1));
      if |fields| == 1 {
        assert values == [values[0]];
      } else {
        assert values == [values[0]] + values[1..];
        assert Scan(s, |next|, fields[1..]) == Some(values[1..]);
      }
    }
  }

  function TotalWidth(fields: seq<Field>): nat {
    if fields == [] then 0 else fields[0].width + 1 + TotalWidth(fields[1..])
  }

  lemma {:induction false} LengthOfPrint(fields: seq<Field>, values: seq<nat>)
    requires |fields| == |values| && forall k | 0 <= k < |fields| :: fields[k].width >= 1
    ensures |Print(fields, values)| >= TotalWidth(fields)
    ensures |Print(fields, values)| == TotalWidth(fields) <==> Fit(fields, values)
  {
    hide Padded, Pow10;
    if fields != [] {
      PaddedIsDigits(values[0], fields[0].width);
      LengthOfPrint(fields[1..], values[1..]);
      FitNext(fields, values);
    }
  }

  lemma FitNext(fields: seq<Field>, values: seq<nat>)
    requires |fields| == |values| > 0
    ensures Fit(fields, values)
        <==> fields[0].width >= 1 && values[0] < Pow10(fields[0].width) && Fit(fields[1..], values[1..])
  {
    if Fit(fields[1..], values[1..]) {
      forall k | 1 <= k < |fields|
        ensures fields[k].width >= 1 && values[k] < Pow10(fields[k].width)
      {
        assert fields[1..][k - 1] == fields[k] && values[1..][k - 1] == values[k];
      }
    }
  }

  // ----- Whatever is scanned fits its width

  lemma {:induction false} ValueBound(s: string)
    requires forall i | 0 <= i < |s| :: IsDigit(s[i])
    ensures Value(s) < Pow10(|s|)
  {
    if s != "" {
      ValueBound(s[..|s| - 1]);
    }
  }

  lemma {:induction false} Pow10Monotone(v: nat, w: nat)
    requires v <= w
    ensures Pow10(v) <= Pow10(w)
  {
    if v < w {
      Pow10Monotone(v, w - 1);
    }
  }

  lemma ScanIntBound(s: string, i: nat, width: nat)
    requires i <= |s|
    ensures ScanInt(s, i, width).Some? ==> ScanInt(s, i, width).value.0 < Pow10(width)
  {
    hide SkipSpaces, IsSpace, Value, Pow10;
    var j := SkipSpaces(s, i);
    var k := if j < |s| && (s[j] == '+' || s[j] == '-') then j + 1 else j;
    var e := DigitsEnd(s, k, j + width);
    if e > k {
      ValueBound(s[k..e]);
      Pow10Monotone(e - k, width);
    }
  }

  /** However a string is accepted, with blanks or signs, no number in it exceeds its width. */
  lemma {:induction false} ScanBound(s: string, i: nat, fields: seq<Field>)
    requires i <= |s|
    ensures var r := Scan(s, i, fields);
            r.Some? ==> forall k | 0 <= k < |fields| :: r.value[k] < Pow10(fields[k].width)
    decreases |fields|
  {
    hide ScanInt, Pow10;
    var r := Scan(s, i, fields);
    if r.Some? && fields != [] {
      ScanIntBound(s, i, fields[0].width);
      if |fields| > 1 {
        var e := ScanInt(s, i, fields[0].width).value.1;
        ScanBound(s, e + 1, fields[1..]);
        forall k | 0 <= k < |fields|
          ensures r.value[k] < Pow10(fields[k].width)
        {
          if k > 0 {
            assert r.value[k] == Scan(s, e + 1, fields[1..]).value[k - 1] && fields[k] == fields[1..][k - 1];
          }
        }
      }
    }
  }

  // ----- The printed text, place by place

  lemma PrintStep(fields: seq<Field>, values: seq<nat>)
    requires Fit(fields, values) && fields != []
    ensures Print(fields, values)
         == Digits(values[0], fields[0].width) + [fields[0].delimiter] + Print(fields[1..], values[1..])
    ensures Fit(fields[1..], values[1..])
  {
    hide Digits, Pow10, Padded;
    PaddedIsDigits(values[0], fields[0].width);
    FitNext(fields, values);
  }

  function WidthBefore(fields: seq<Field>, k: nat): nat
    requires k <= |fields|
  {
    if k == 0 then 0 else WidthBefore(fields, k - 1) + fields[k - 1].width + 1
  }

  lemma {:induction false} WidthBeforeRest(fields: seq<Field>, k: nat)
    requires 0 < k <= |fields|
    ensures WidthBefore(fields, k) == fields[0].width + 1 + WidthBefore(fields[1..], k - 1)
  {
    if k > 1 {
      WidthBeforeRest(fields, k - 1);
    }
  }

  /** Field `k` stands where the widths before it say, its delimiter right behind it. */
  lemma {:induction false} PrintedAt(fields: seq<Field>, values: seq<nat>, k: nat)
    requires Fit(fields, values) && k < |fields|
    ensures var s, at, w := Print(fields, values), WidthBefore(fields, k), fields[k].width;
            && at + w < |s| && s[at..at + w] == Digits(values[k], w) && s[at + w] == fields[k].delimiter
    decreases k
  {
    hide Digits, Pow10, Print;
    PrintStep(fields, values);
    var w := fields[0].width;
    var s, rest := Print(fields, values), Print(fields[1..], values[1..]);
    if k > 0 {
      PrintedAt(fields[1..], values[1..], k - 1);
      WidthBeforeRest(fields, k);
      var at := WidthBefore(fields[1..], k - 1);
      assert s[w + 1..] == rest;
      assert s[w + 1 + at..w + 1 + at + fields[k].width] == rest[at..at + fields[k].width];
      assert s[w + 1 + at + fields[k].width] == rest[at + fields[k].width];
    }
  }
}
