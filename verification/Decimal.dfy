/** Decimal text and 64-bit integers: the bounded parser, the deadline parser and the printer. */
module Decimal {
  import opened Common
  import opened Bits

  const PLUS: byte := 43
  const MINUS: byte := 45
  const ZERO: byte := 48

  predicate IsDigit(b: byte) {
    ZERO <= b <= ZERO + 9
  }

  predicate AllDigits(s: Bytes) {
    forall i :: 0 <= i < |s| ==> IsDigit(s[i])
  }

  // ---------- What a text means ----------

  /** The number whose decimal digits are those of v followed by s. */
  function Horner(v: nat, s: Bytes): nat
    requires AllDigits(s)
    decreases s
  {
    if s == [] then v else Horner(10 * v + (s[0] - ZERO), s[1..])
  }

  predicate HasSign(s: Bytes) {
    s != [] && (s[0] == PLUS || s[0] == MINUS)
  }

  predicate IsNegative(s: Bytes) {
    s != [] && s[0] == MINUS
  }

  function Digits(s: Bytes): Bytes {
    if HasSign(s) then s[1..] else s
  }

  /** The value of an optionally signed digit string; anything else has none. */
  function TextValue(s: Bytes): Option<int> {
    var d := Digits(s);
    if d == [] || !AllDigits(d) then None
    else
      var h: int := Horner(0, d);
      Some(if IsNegative(s) then -h else h)
  }

  /** What bounded parsing should answer: the value when it lies in [min, max], and never for a
      minus sign when no negative number is allowed. */
  function ParseSpec(s: Bytes, min: int, max: int): Option<int> {
    var v := TextValue(s);
    if v.Some? && min <= v.value <= max && !(IsNegative(s) && min >= 0) then v else None
  }

  // ---------- What the parser computes, in 64-bit words ----------

  function Wrap(x: int): (r: nat)
    ensures r < TWO_64
  {
    x % TWO_64
  }

  function ToInt64(v: nat): int
    requires v < TWO_64
  {
    if v <= INT64_MAX then v else v - TWO_64
  }

  function Limit(negative: bool, min: int, max: int): int {
    if negative then -min else max
  }

  /** The digit loop: refuses a digit that would push the value past the limit. */
  function Scan(s: Bytes, value: nat, limit: nat): (r: Option<nat>)
    requires value < TWO_64
    ensures r.Some? ==> r.value < TWO_64
    decreases s
  {
    if s == [] then Some(value)
    else if !IsDigit(s[0]) then None
    else
      var digit := s[0] - ZERO;
      if value > Wrap(limit - digit) / 10 then None
      else Scan(s[1..], Wrap(value * 10 + digit), limit)
  }

  function Signed(negative: bool, value: nat): int
    requires value < TWO_64
  {
    if !negative then ToInt64(value)
    else if value == INT64_MAX + 1 then INT64_MIN
    else -ToInt64(value)
  }

  function ParseCode(s: Bytes, min: int, max: int): Option<int> {
    var negative := IsNegative(s);
    if s == [] || min > max || Digits(s) == [] || (negative && min >= 0) || (!negative && max < 0) then None
    else
      match Scan(Digits(s), 0, Limit(negative, min, max))
      case None => None
      case Some(value) =>
        var out := Signed(negative, value);
        if min <= out <= max then Some(out) else None
  }

  /** Parses in place, a digit at a time. */
  method ParseI64(s: Bytes, min: int, max: int) returns (r: Option<int>)
    requires IsInt64(min) && IsInt64(max)
    ensures r == ParseCode(s, min, max)
    ensures Limit(IsNegative(s), min, max) >= 9 ==> r == ParseSpec(s, min, max)
  {
    if Limit(IsNegative(s), min, max) >= 9 {
      ParseIsExact(s, min, max);
    }
    if |s| == 0 || min > max {
      return None;
    }
    var pos := 0;
    var negative := false;
    if s[pos] == PLUS || s[pos] == MINUS {
      negative := s[pos] == MINUS;
      pos := pos + 1;
      if pos == |s| {
        return None;
      }
    }
    assert s[pos..] == Digits(s);
    if negative && min >= 0 {
      return None;
    }
    if !negative && max < 0 {
      return None;
    }
    var limit := if negative then -min else max;
    var value: nat := 0;
    while pos < |s|
      invariant pos <= |s| && value < TWO_64
      invariant Scan(s[pos..], value, limit) == Scan(Digits(s), 0, limit)
    {
      var ch := s[pos];
      if ch < ZERO || ch > ZERO + 9 {
        return None;
      }
      var digit := ch - ZERO;
      if value > Wrap(limit - digit) / 10 {
        return None;
      }
      value := Wrap(value * 10 + digit);
      pos := pos + 1;
    }
    var out := Signed(negative, value);
    if min <= out <= max {
      return Some(out);
    }
    return None;
  }

  // ---------- Exactness ----------

  lemma {:induction false} HornerGrows(v: nat, s: Bytes)
    requires AllDigits(s)
    ensures Horner(v, s) >= v
    decreases s
  {
    if s != [] {
      HornerGrows(10 * v + (s[0] - ZERO), s[1..]);
    }
  }

  /** With a limit of at least nine the loop never wraps, and accepts exactly the digit strings
      whose value is within the limit. */
  lemma {:induction false} ScanIsExact(s: Bytes, value: nat, limit: nat)
    requires 9 <= limit <= INT64_MAX + 1 && value <= limit
    ensures Scan(s, value, limit) == if AllDigits(s) && Horner(value, s) <= limit then Some(Horner(value, s)) else None
  {
    if s != [] && IsDigit(s[0]) {
      var digit := s[0] - ZERO;
      assert Wrap(limit - digit) == limit - digit;
      if value <= (limit - digit) / 10 {
        assert Wrap(value * 10 + digit) == value * 10 + digit <= limit;
        ScanIsExact(s[1..], value * 10 + digit, limit);
        assert AllDigits(s) <==> AllDigits(s[1..]);
      } else if AllDigits(s) {
        HornerGrows(10 * value + digit, s[1..]);
      }
    }
  }

  lemma ParseIsExact(s: Bytes, min: int, max: int)
    requires IsInt64(min) && IsInt64(max)
    requires Limit(IsNegative(s), min, max) >= 9
    ensures ParseCode(s, min, max) == ParseSpec(s, min, max)
  {
    ScanIsExact(Digits(s), 0, Limit(IsNegative(s), min, max));
  }

  // ---------- Limits under nine ----------

  /** Every decimal digit of v but the first is above the limit. */
  predicate High(v: nat, limit: nat) {
    v < 10 || (v % 10 > limit && High(v / 10, limit))
  }

  /** The largest value the loop lets through; with a limit under nine, `limit - digit` wraps for a
      digit above the limit, and the check then compares with a huge word. */
  function Widest(limit: nat): nat {
    if limit <= 2 then 18_446_743_999_999_999_999
    else if limit == 3 then 18_446_699_999_999_999_999
    else if limit <= 6 then 17_999_999_999_999_999_999
    else 9_999_999_999_999_999_999
  }

  /** What that value lacks to a full 64-bit word, and so how it reads once its sign is flipped. */
  function Slip(limit: nat): (r: int)
    ensures 0 < r <= INT64_MAX
  {
    TWO_64 - Widest(limit)
  }

  const WRAP_TENTH: nat := 1_844_674_407_370_955_161

  /** A number without its last k digits. */
  function Prefix(v: nat, k: nat): nat {
    if k == 0 then v else Prefix(v / 10, k - 1)
  }

  lemma {:induction false} PrefixIsQuotient(v: nat, k: nat)
    ensures Prefix(v, k) == v / Pow10(k)
  {
    if k > 0 {
      PrefixIsQuotient(v / 10, k - 1);
      DivDiv(v, 10, Pow10(k - 1));
    }
  }

  lemma {:induction false} HighPrefix(v: nat, limit: nat, k: nat)
    requires High(v, limit)
    ensures High(Prefix(v, k), limit)
  {
    if k > 0 {
      HighPrefix(v / 10, limit, k - 1);
    }
  }

  lemma NinesStep(v: nat, n: nat)
    requires n > 0
    ensures (v + 1) * Pow10(n) == (10 * v + 10) * Pow10(n - 1)
  {
    var p := Pow10(n - 1);
    assert (v + 1) * (10 * p) == (10 * v + 10) * p;
  }

  /** Appending nines. */
  lemma {:induction false} HighNines(v: nat, limit: nat, n: nat)
    requires limit < 9 && High(v, limit)
    ensures (v + 1) * Pow10(n) > 0 && High((v + 1) * Pow10(n) - 1, limit)
    decreases n
  {
    if n > 0 {
      var next := 10 * v + 9;
      NinesStep(v, n);
      assert next / 10 == v && next % 10 == 9;
      HighNines(next, limit, n - 1);
    }
  }

  lemma {:induction false} HighLess(v: nat, limit: nat, less: nat)
    requires High(v, limit) && less <= limit
    ensures High(v, less)
  {
    if v >= 10 {
      HighLess(v / 10, limit, less);
    }
  }

  lemma PowersOfTen()
    ensures Pow10(10) == 10_000_000_000
    ensures Pow10(11) == 100_000_000_000
    ensures Pow10(12) == 1_000_000_000_000
    ensures Pow10(13) == 10_000_000_000_000
    ensures Pow10(14) == 100_000_000_000_000
    ensures Pow10(17) == 100_000_000_000_000_000
    ensures Pow10(18) == 1_000_000_000_000_000_000
    ensures Pow10(19) == 10_000_000_000_000_000_000
  {
    assert Pow10(5) == 100_000;
    assert Pow10(10) == 10_000_000_000;
    assert Pow10(15) == 1_000_000_000_000_000;
  }

  /** The last digit of a prefix is above the limit. */
  lemma HighDigit(v: nat, limit: nat, k: nat, p: nat)
    requires High(v, limit) && p == Pow10(k) && v / p >= 10
    ensures (v / p) % 10 > limit
  {
    hide Prefix;
    HighPrefix(v, limit, k);
    PrefixIsQuotient(v, k);
  }

  /** A number without a zero behind its first digit is not a tenth of the word range. */
  lemma NotWrapTenth(v: nat, limit: nat)
    requires High(v, limit) && v <= WRAP_TENTH
    ensures v < WRAP_TENTH
  {
    hide Pow10;
    PowersOfTen();
    if v == WRAP_TENTH {
      HighDigit(v, limit, 10, 10_000_000_000);
    }
  }

  lemma AtMostWidest(v: nat, limit: nat)
    requires limit < 9 && High(v, limit) && v < TWO_64
    ensures v <= Widest(limit)
  {
    hide High, Pow10;
    PowersOfTen();
    if v > Widest(limit) {
      if limit <= 2 {
        HighDigit(v, limit, 11, 100_000_000_000);
      } else if limit == 3 {
        HighDigit(v, limit, 13, 10_000_000_000_000);
        HighDigit(v, limit, 12, 1_000_000_000_000);
        HighDigit(v, limit, 11, 100_000_000_000);
      } else if limit <= 6 {
        HighDigit(v, limit, 17, 100_000_000_000_000_000);
      } else {
        HighDigit(v, limit, 18, 1_000_000_000_000_000_000);
        HighDigit(v, limit, 17, 100_000_000_000_000_000);
      }
    }
  }

  lemma WidestIsHigh(limit: nat)
    requires limit < 9
    ensures High(Widest(limit), limit)
  {
    hide Pow10;
    PowersOfTen();
    if limit <= 2 {
      assert High(18_446_743, 2);
      HighLess(18_446_743, 2, limit);
      HighNines(18_446_743, limit, 12);
    } else if limit == 3 {
      assert High(184_466, 3);
      HighNines(184_466, limit, 14);
    } else if limit <= 6 {
      HighNines(17, limit, 18);
    } else {
      HighNines(9, limit, 18);
    }
  }

  lemma WrapsHuge(limit: nat, digit: nat)
    requires limit < digit <= 9
    ensures WRAP_TENTH - 1 <= Wrap(limit - digit) / 10 <= WRAP_TENTH
  {
    assert Wrap(limit - digit) == TWO_64 + limit - digit;
  }

  /** One digit, with a limit under nine: only a first digit may be within the limit, and the value
      never wraps. */
  lemma SmallStep(v: nat, digit: nat, limit: nat)
    requires limit < 9 && digit <= 9 && v < TWO_64 && High(v, limit)
    ensures v <= Wrap(limit - digit) / 10 ==> 10 * v + digit < TWO_64 && High(10 * v + digit, limit)
    ensures v > Wrap(limit - digit) / 10 ==> 10 * v + digit > limit
  {
    if digit <= limit {
      assert Wrap(limit - digit) == limit - digit;
    } else {
      WrapsHuge(limit, digit);
      if v <= WRAP_TENTH {
        NotWrapTenth(v, limit);
      }
      assert (10 * v + digit) / 10 == v && (10 * v + digit) % 10 == digit;
    }
  }

  /** With a limit under nine the loop refuses no text within the limit, and lets through only
      values whose digits but the first are above it; it never wraps. */
  lemma {:induction false} SmallScan(s: Bytes, v: nat, limit: nat)
    requires limit < 9 && v < TWO_64 && High(v, limit)
    ensures match Scan(s, v, limit)
            case Some(w) => AllDigits(s) && w == Horner(v, s) && High(w, limit)
            case None => AllDigits(s) ==> Horner(v, s) > limit
    decreases s
  {
    hide High, Wrap;
    if s != [] && IsDigit(s[0]) {
      var digit := s[0] - ZERO;
      SmallStep(v, digit, limit);
      if v <= Wrap(limit - digit) / 10 {
        NoWrap(v * 10 + digit);
        SmallScan(s[1..], v * 10 + digit, limit);
      } else if AllDigits(s) {
        HornerGrows(10 * v + digit, s[1..]);
      }
    }
  }

  lemma NoWrap(x: nat)
    requires x < TWO_64
    ensures Wrap(x) == x
  {
  }

  lemma {:induction false} HornerHigh(v: nat, s: Bytes, limit: nat)
    requires AllDigits(s) && High(Horner(v, s), limit)
    ensures High(v, limit)
    decreases s
  {
    if s != [] {
      var next := 10 * v + (s[0] - ZERO);
      HornerHigh(next, s[1..], limit);
      assert next / 10 == v;
    }
  }

  /** Every such value up to the widest is let through. */
  lemma {:induction false} ScanHigh(s: Bytes, v: nat, limit: nat)
    requires limit < 9 && AllDigits(s) && v < TWO_64
    requires High(Horner(v, s), limit) && Horner(v, s) <= Widest(0)
    ensures Scan(s, v, limit) == Some(Horner(v, s))
    decreases s
  {
    hide Wrap;
    if s != [] {
      var digit := s[0] - ZERO;
      var next := 10 * v + digit;
      HornerHigh(next, s[1..], limit);
      HornerGrows(next, s[1..]);
      NoWrap(next);
      HighNext(v, digit, limit);
      ScanHigh(s[1..], next, limit);
    }
  }

  lemma HighNext(v: nat, digit: nat, limit: nat)
    requires limit < 9 && digit <= 9 && High(10 * v + digit, limit) && 10 * v + digit <= Widest(0)
    ensures v <= Wrap(limit - digit) / 10
  {
    if v > 0 {
      assert (10 * v + digit) % 10 == digit;
      WrapsHuge(limit, digit);
    }
  }

  // ---------- When the parser is exact ----------

  lemma TooSmallToSlip(s: Bytes, min: int, max: int)
    requires IsInt64(min) && IsInt64(max) && min <= max
    requires var limit := Limit(IsNegative(s), min, max);
             0 <= limit < 9 && if IsNegative(s) then min < 0 && max < Slip(limit) else min > -Slip(limit)
    ensures ParseCode(s, min, max) == ParseSpec(s, min, max)
  {
    hide Scan, Horner, High, Widest;
    var limit := Limit(IsNegative(s), min, max);
    HighZero(limit);
    SmallScan(Digits(s), 0, limit);
    match Scan(Digits(s), 0, limit)
    case Some(v) => AtMostWidest(v, limit);
    case None =>
  }

  lemma HighZero(limit: nat)
    ensures High(0, limit)
  {
  }

  /** A text far beyond an upper bound under nine that is accepted, as a negative number. */
  lemma SlipsPastUpper(min: int, max: int)
    requires IsInt64(min) && 0 <= max < 9 && min <= -Slip(max)
    ensures var s := NatText(Widest(max));
            ParseCode(s, min, max) == Some(-Slip(max)) && ParseSpec(s, min, max) == None
  {
    hide Scan, Horner, High, NatText;
    WidestScans(max);
    var s := NatText(Widest(max));
    assert IsDigit(s[0]) && Digits(s) == s;
  }

  /** A text far beyond a lower bound above minus nine that is accepted, as a positive number. */
  lemma SlipsPastLower(min: int, max: int)
    requires IsInt64(max) && -9 < min < 0 && max >= Slip(-min)
    ensures var s := [MINUS] + NatText(Widest(-min));
            ParseCode(s, min, max) == Some(Slip(-min)) && ParseSpec(s, min, max) == None
  {
    hide Scan, Horner, High, NatText;
    WidestScans(-min);
    var s := [MINUS] + NatText(Widest(-min));
    assert s[1..] == NatText(Widest(-min));
  }

  lemma WidestScans(limit: nat)
    requires limit < 9
    ensures var s := NatText(Widest(limit));
            Scan(s, 0, limit) == Some(Widest(limit)) && Horner(0, s) == Widest(limit)
  {
    hide Scan, Horner, High, NatText;
    WidestIsHigh(limit);
    NatTextValue(Widest(limit));
    ScanHigh(NatText(Widest(limit)), 0, limit);
  }

  /** For every pair of bounds, the parser is right on every text exactly when no bound in use is
      under nine, or the range does not reach what a text slipping past that bound is read as. */
  lemma ParserExact(min: int, max: int)
    requires IsInt64(min) && IsInt64(max)
    ensures (forall s: Bytes :: ParseCode(s, min, max) == ParseSpec(s, min, max)) <==>
            min > max ||
            ((max < 0 || max >= 9 || min > -Slip(max)) && (min >= 0 || min <= -9 || max < Slip(-min)))
  {
    hide ParseCode, ParseSpec, NatText, Slip;
    if min <= max && 0 <= max < 9 && min <= -Slip(max) {
      SlipsPastUpper(min, max);
    } else if min <= max && -9 < min < 0 && max >= Slip(-min) {
      SlipsPastLower(min, max);
    } else {
      forall s: Bytes ensures ParseCode(s, min, max) == ParseSpec(s, min, max) {
        ExactOn(s, min, max);
      }
    }
  }

  lemma ExactOn(s: Bytes, min: int, max: int)
    requires IsInt64(min) && IsInt64(max)
    requires min > max ||
             ((max < 0 || max >= 9 || min > -Slip(max)) && (min >= 0 || min <= -9 || max < Slip(-min)))
    ensures ParseCode(s, min, max) == ParseSpec(s, min, max)
  {
    hide Scan, Horner, Slip;
    var limit := Limit(IsNegative(s), min, max);
    if min <= max && limit >= 9 {
      ParseIsExact(s, min, max);
    } else if min <= max && 0 <= limit && (IsNegative(s) ==> min < 0) {
      TooSmallToSlip(s, min, max);
    }
  }

  // ---------- Deadlines ----------

  /** Absolute deadline of a time to live in seconds, in milliseconds. */
  method ParseDeadlineMs(s: Bytes, now: int) returns (r: Option<int>)
    requires 0 <= now <= INT64_MAX
    ensures r == Deadline(s, now)
    ensures r.Some? <==> !IsNegative(s) && TextValue(s).Some? && now + 1000 * TextValue(s).value <= INT64_MAX
    ensures r.Some? ==> r.value == now + 1000 * TextValue(s).value
  {
    var seconds := ParseI64(s, 0, INT64_MAX / 1000);
    if seconds == None {
      DeadlineInRange(s, now);
      return None;
    }
    if seconds.value > (INT64_MAX - now) / 1000 {
      return None;
    }
    return Some(now + seconds.value * 1000);
  }

  /** Accepted exactly when the text is an unsigned-or-plus decimal whose deadline fits int64. */
  function Deadline(s: Bytes, now: int): Option<int>
    requires 0 <= now <= INT64_MAX
  {
    var v := TextValue(s);
    if v.Some? && !IsNegative(s) && now + 1000 * v.value <= INT64_MAX then Some(now + 1000 * v.value) else None
  }

  lemma DeadlineInRange(s: Bytes, now: int)
    requires 0 <= now <= INT64_MAX
    ensures ParseSpec(s, 0, INT64_MAX / 1000) == None ==> Deadline(s, now) == None
  {
  }

  // ---------- Printing ----------

  function NatText(n: nat): (s: Bytes)
    ensures s != [] && AllDigits(s)
  {
    if n < 10 then [ZERO + n] else NatText(n / 10) + [ZERO + n % 10]
  }

  /** Canonical decimal text, as printf writes a 64-bit integer. */
  function IntText(n: int): (s: Bytes)
    ensures s != []
  {
    if n < 0 then [MINUS] + NatText(-n) else NatText(n)
  }

  lemma {:induction false} HornerAppend(v: nat, s: Bytes, b: byte)
    requires AllDigits(s) && IsDigit(b)
    ensures AllDigits(s + [b]) && Horner(v, s + [b]) == 10 * Horner(v, s) + (b - ZERO)
    decreases s
  {
    if s != [] {
      HornerAppend(10 * v + (s[0] - ZERO), s[1..], b);
      assert (s + [b])[1..] == s[1..] + [b];
    }
  }

  lemma {:induction false} NatTextValue(n: nat)
    ensures Horner(0, NatText(n)) == n
  {
    if n >= 10 {
      NatTextValue(n / 10);
      HornerAppend(0, NatText(n / 10), ZERO + n % 10);
    }
  }

  function Zeros(n: nat): (s: Bytes)
    ensures |s| == n && AllDigits(s)
  {
    seq(n, _ => ZERO)
  }

  lemma {:induction false} HornerZeros(n: nat, s: Bytes)
    requires AllDigits(s)
    ensures AllDigits(Zeros(n) + s) && Horner(0, Zeros(n) + s) == Horner(0, s)
  {
    if n == 0 {
      assert Zeros(0) + s == s;
    } else {
      HornerZeros(n - 1, s);
      assert (Zeros(n) + s)[1..] == Zeros(n - 1) + s;
    }
  }

  /** A digit string is zeros in front of the print of its value. */
  lemma {:induction false} DigitsArePrint(s: Bytes) returns (zeros: nat)
    requires s != [] && AllDigits(s)
    ensures s == Zeros(zeros) + NatText(Horner(0, s))
    decreases s
  {
    var l, b := s[..|s| - 1], s[|s| - 1];
    assert s == l + [b];
    HornerAppend(0, l, b);
    var x: nat := b - ZERO;
    if l == [] {
      assert Horner(0, l) == 0 && NatText(x) == [b];
      return 0;
    }
    zeros := DigitsArePrint(l);
    if Horner(0, l) == 0 {
      zeros := zeros + 1;
      assert Zeros(zeros) == Zeros(zeros - 1) + [ZERO];
    }
  }

  /** The texts of a number: an optional sign, any zeros, and its digits. A minus sign stands in
      front of every negative number, and may stand in front of zero. */
  ghost predicate Spells(s: Bytes, n: int) {
    exists sign: Bytes, zeros: nat ::
      && s == sign + Zeros(zeros) + NatText(if n < 0 then -n else n)
      && (if n < 0 then sign == [MINUS] else sign == [] || sign == [PLUS] || (n == 0 && sign == [MINUS]))
  }

  /** A text has a value exactly when it spells that number. */
  lemma ValueIffSpelled(s: Bytes, n: int)
    ensures TextValue(s) == Some(n) <==> Spells(s, n)
  {
    hide Horner, NatText;
    if TextValue(s) == Some(n) {
      var zeros := DigitsArePrint(Digits(s));
      var sign := if HasSign(s) then s[..1] else [];
      assert s == sign + Digits(s);
      assert s == sign + Zeros(zeros) + NatText(if n < 0 then -n else n);
    }
    if Spells(s, n) {
      SpelledHasValue(s, n);
    }
  }

  lemma SpelledHasValue(s: Bytes, n: int)
    requires Spells(s, n)
    ensures TextValue(s) == Some(n)
  {
    hide Horner, NatText;
    var size := if n < 0 then -n else n;
    var sign: Bytes, zeros: nat :|
      && s == sign + Zeros(zeros) + NatText(size)
      && (if n < 0 then sign == [MINUS] else sign == [] || sign == [PLUS] || (n == 0 && sign == [MINUS]));
    var digits := Zeros(zeros) + NatText(size);
    HornerZeros(zeros, NatText(size));
    NatTextValue(size);
    assert IsDigit(digits[0]) && s == sign + digits;
    assert Digits(s) == digits;
  }

  /** Reading back what was printed gives the number. */
  lemma PrintThenParse(n: int)
    ensures TextValue(IntText(n)) == Some(n)
    ensures IsInt64(n) ==> ParseCode(IntText(n), INT64_MIN, INT64_MAX) == Some(n)
  {
    var s := IntText(n);
    if n < 0 {
      NatTextValue(-n);
      assert s[1..] == NatText(-n);
    } else {
      NatTextValue(n);
      assert IsDigit(NatText(n)[0]);
      assert Digits(s) == s;
    }
    if IsInt64(n) {
      ParseIsExact(s, INT64_MIN, INT64_MAX);
    }
  }

  lemma {:induction false} NatTextLength(n: nat, k: nat)
    requires n < Pow10(k) && k > 0
    ensures |NatText(n)| <= k
  {
    if n >= 10 {
      NatTextLength(n / 10, k - 1);
    }
  }

  lemma IntTextLength(n: int)
    requires IsInt64(n)
    ensures |IntText(n)| <= 20
  {
    PowersOfTen();
    NatTextLength(if n < 0 then -n else n, 19);
  }
}
