/**
 * The relative-time formatter shared by the two copies of the loader
 * (`sStrOptional` and `relativeTime`). The clock and the date are passed in as
 * integer milliseconds since the epoch; the formatter only ever looks at their
 * difference.
 */
module TimeAgo {
  import opened Wrappers
  import opened Text

  const Minute: int := 60 * 1000
  const Hour: int := Minute * 60
  const Day: int := Hour * 24
  const Month: int := Day * 30
  const Year: int := Day * 365

  /** Swift's `/` on `Int`: the quotient truncated toward zero. */
  function Quot(a: int, b: int): (q: int)
    requires b > 0
    ensures a >= 0 ==> 0 <= q && q * b <= a < q * b + b
    ensures a < 0 ==> q <= 0 && q * b - b < a <= q * b
  {
    if a >= 0 then
      DivBounds(a, b);
      a / b
    else
      DivBounds(-a, b);
      assert -((-a) / b) * b == -(((-a) / b) * b);
      -((-a) / b)
  }

  /** Euclidean division of a non-negative number: the quotient brackets it. */
  lemma DivBounds(a: int, b: int)
    requires a >= 0 && b > 0
    ensures 0 <= a / b
    ensures (a / b) * b <= a < (a / b) * b + b
  {
    assert a == (a / b) * b + a % b && 0 <= a % b < b;
  }

  /** The plural suffix: "s" exactly for counts above one, so 0 and 1 stay singular. */
  function SStrOptional(n: int): (r: string)
    ensures n > 1 <==> r == "s"
    ensures n <= 1 <==> r == ""
  {
    if n > 1 then "s" else ""
  }

  /** The age of `date` as seen at `now`, both in milliseconds, as the source words it. */
  function RelativeTime(now: int, date: int): string {
    var difference := now - date;
    if difference < Minute then
      var seconds := Quot(difference, 1000);
      Decimal(seconds) + " second" + SStrOptional(seconds) + " ago"
    else if difference < Hour then
      var minutes := Quot(difference, Minute);
      Decimal(minutes) + " minute" + SStrOptional(minutes) + " ago"
    else if difference < Day then
      var hours := Quot(difference, Hour);
      Decimal(hours) + " hour" + SStrOptional(hours) + " ago"
    else if difference < Month then
      var days := Quot(difference, Day);
      Decimal(days) + " day" + SStrOptional(days) + " ago"
    else if difference < Year then
      var months := Quot(difference, Month);
      Decimal(months) + " month" + SStrOptional(months) + " ago"
    else
      "Years"
  }

  // ---------------------------------------------------------------------------
  // A reference description of the output: a table of buckets, each with its
  // range of differences and its unit, and the phrase written for an age.

  datatype Unit = Seconds | Minutes | Hours | Days | Months

  /** What the formatter says: a count of some unit, or the flat label. */
  datatype Age = Ago(count: int, unit: Unit) | Years

  function UnitMillis(u: Unit): int {
    match u
    case Seconds => 1000
    case Minutes => Minute
    case Hours => Hour
    case Days => Day
    case Months => Month
  }

  /** The unit as it follows the count: a space, then its name. */
  function UnitLabel(u: Unit): (r: string)
    ensures r == " " + UnitName(u)
  {
    match u
    case Seconds => " second"
    case Minutes => " minute"
    case Hours => " hour"
    case Days => " day"
    case Months => " month"
  }

  function UnitName(u: Unit): string {
    match u
    case Seconds => "second"
    case Minutes => "minute"
    case Hours => "hour"
    case Days => "day"
    case Months => "month"
  }

  /** The differences (in milliseconds) that are reported in unit `u`. */
  predicate InBucket(d: int, u: Unit) {
    match u
    case Seconds => d < Minute
    case Minutes => Minute <= d < Hour
    case Hours => Hour <= d < Day
    case Days => Day <= d < Month
    case Months => Month <= d < Year
  }

  /** The age a difference of `d` milliseconds falls into. */
  function AgeOf(d: int, u: Unit): Age
    requires InBucket(d, u)
  {
    Ago(Quot(d, UnitMillis(u)), u)
  }

  function Phrase(a: Age): string {
    match a
    case Years => "Years"
    case Ago(c, u) => Decimal(c) + UnitLabel(u) + SStrOptional(c) + " ago"
  }

  /** Reads a phrase back into the age it states. */
  function ParseAge(r: string): Option<Age> {
    if r == "Years" then Some(Years)
    else match FindFirst(r, " ", 0)
      case None => None
      case Some(k) =>
        match ParseDecimal(r[..k])
        case None => None
        case Some(c) =>
          match ParseUnit(r[k + 1..], c)
          case None => None
          case Some(u) => Some(Ago(c, u))
  }

  /** The unit whose name, plural suffix for `c` and " ago" spell `rest`. */
  function ParseUnit(rest: string, c: int): Option<Unit> {
    if rest == UnitName(Seconds) + SStrOptional(c) + " ago" then Some(Seconds)
    else if rest == UnitName(Minutes) + SStrOptional(c) + " ago" then Some(Minutes)
    else if rest == UnitName(Hours) + SStrOptional(c) + " ago" then Some(Hours)
    else if rest == UnitName(Days) + SStrOptional(c) + " ago" then Some(Days)
    else if rest == UnitName(Months) + SStrOptional(c) + " ago" then Some(Months)
    else None
  }

  // ---------------------------------------------------------------------------
  // Properties.

  /** Every difference below a year falls in exactly one bucket. */
  lemma BucketsPartition(d: int)
    ensures d < Year ==> exists u :: InBucket(d, u)
    ensures forall u, v :: InBucket(d, u) && InBucket(d, v) ==> u == v
  {
    if d < Year {
      var u := if d < Minute then Seconds else if d < Hour then Minutes
               else if d < Day then Hours else if d < Month then Days else Months;
      assert InBucket(d, u);
    }
  }

  /**
   * The output is the phrase for the bucket the difference falls in, with the
   * truncated count of that bucket's unit, and exactly "Years" from a year on.
   */
  lemma RelativeTimeIsPhrase(now: int, date: int, u: Unit)
    ensures InBucket(now - date, u) ==> RelativeTime(now, date) == Phrase(AgeOf(now - date, u))
    ensures now - date >= Year ==> RelativeTime(now, date) == Phrase(Years) == "Years"
  {
  }

  /** A phrase is never the label "Years"; the two kinds of output cannot be confused. */
  lemma PhraseIsNotYears(c: int, u: Unit)
    ensures Phrase(Ago(c, u)) != "Years"
  {
    assert |Phrase(Ago(c, u))| >= 1 + 1 + 3 + 4;
  }

  /** `ParseAge` inverts `Phrase`: the count and the unit can be read back. */
  lemma {:induction false} ParsePhrase(a: Age)
    ensures ParseAge(Phrase(a)) == Some(a)
  {
    match a
    case Years =>
    case Ago(c, u) =>
      var r := Phrase(a);
      var digits := Decimal(c);
      var rest := UnitName(u) + SStrOptional(c) + " ago";
      var k := |digits|;
      assert r == digits + " " + rest;
      PhraseIsNotYears(c, u);
      assert IsAt(r, " ", k) by { assert r[k..k + 1] == " "; }
      forall j | 0 <= j < k ensures !IsAt(r, " ", j) {
        assert r[j] == digits[j];
      }
      assert FindFirst(r, " ", 0) == Some(k);
      assert r[..k] == digits;
      DecimalRoundTrip(c);
      assert r[k + 1..] == rest;
      ParseUnitOf(c, u);
  }

  lemma ParseUnitOf(c: int, u: Unit)
    ensures ParseUnit(UnitName(u) + SStrOptional(c) + " ago", c) == Some(u)
  {
    var s := SStrOptional(c);
    var rest := UnitName(u) + s + " ago";
    // The unit names differ in their first two letters.
    assert rest[0] == UnitName(u)[0] && rest[1] == UnitName(u)[1];
    forall v | v != u ensures rest != UnitName(v) + s + " ago" {
      var other := UnitName(v) + s + " ago";
      assert other[0] == UnitName(v)[0] && other[1] == UnitName(v)[1];
    }
  }

  /** The formatted age read back is the bucket's age of the difference. */
  lemma ParseRelativeTime(now: int, date: int, u: Unit)
    ensures InBucket(now - date, u) ==> ParseAge(RelativeTime(now, date)) == Some(AgeOf(now - date, u))
    ensures now - date >= Year ==> ParseAge(RelativeTime(now, date)) == Some(Years)
  {
    RelativeTimeIsPhrase(now, date, u);
    if InBucket(now - date, u) {
      ParsePhrase(AgeOf(now - date, u));
    }
  }

  /** A phrase ends in "s ago" exactly when its count is above one: 0 and 1 are singular. */
  lemma PluralOnlyAboveOne(c: int, u: Unit)
    ensures HasSuffix(Phrase(Ago(c, u)), "s ago") <==> c > 1
  {
    var name := UnitLabel(u);
    var lead := Decimal(c) + name;
    assert lead[|lead| - 1] == name[|name| - 1] != 's';
    PluralSuffix(lead, SStrOptional(c));
  }

  /** Only the "s" suffix makes a phrase end in "s ago" when its lead does not end in 's'. */
  lemma PluralSuffix(lead: string, suffix: string)
    requires suffix == "s" || suffix == ""
    requires lead != [] && lead[|lead| - 1] != 's'
    ensures HasSuffix(lead + suffix + " ago", "s ago") <==> suffix == "s"
  {
    var p := lead + suffix + " ago";
    if suffix == "s" {
      assert p[|p| - 5..] == "s ago";
    } else {
      assert p[|p| - 5] == lead[|lead| - 1];
    }
  }

  /** The smallest and largest count each bucket can report for a non-negative difference. */
  function MinCount(u: Unit): int {
    if u == Seconds then 0 else 1
  }

  function MaxCount(u: Unit): int {
    match u
    case Seconds => 59
    case Minutes => 59
    case Hours => 23
    case Days => 29
    case Months => 12
  }

  /** Counts stay inside their bucket's range: 0-59 s, 1-59 min, 1-23 h, 1-29 days, 1-12 months. */
  lemma CountBounds(d: int, u: Unit)
    requires 0 <= d && InBucket(d, u)
    ensures MinCount(u) <= AgeOf(d, u).count <= MaxCount(u)
  {
    var q := Quot(d, UnitMillis(u));
    match u
    case Seconds =>
    case Minutes =>
    case Hours =>
    case Days =>
    case Months =>
  }

  /**
   * A date in the future (a negative difference) is reported in seconds, with a
   * truncated count that is zero or negative and never takes the plural "s".
   */
  lemma FutureDate(now: int, date: int)
    requires date > now
    ensures var c := Quot(now - date, 1000);
      c <= 0 && RelativeTime(now, date) == Decimal(c) + " second ago"
  {
  }

  /** Only the difference between the clock and the date matters. */
  lemma ShiftInvariant(now: int, date: int, k: int)
    ensures RelativeTime(now + k, date + k) == RelativeTime(now, date)
  {
  }

  /** Worked value: a date equal to the clock reads "0 second ago" (zero is not pluralised). */
  lemma NowIsZeroSeconds(now: int)
    ensures RelativeTime(now, now) == "0 second ago"
  {
    assert Quot(0, 1000) == 0;
    assert Decimal(0) == "0";
  }

  /** Worked value: 30 seconds before the clock reads "30 seconds ago". */
  lemma ThirtySeconds(now: int)
    ensures RelativeTime(now, now - 30000) == "30 seconds ago"
  {
    assert Quot(30000, 1000) == 30;
    assert Digits(3) == "3";
    assert Decimal(30) == "30";
  }

  /** Worked value: exactly one minute before the clock reads "1 minute ago". */
  lemma OneMinute(now: int)
    ensures RelativeTime(now, now - 60000) == "1 minute ago"
  {
    assert Quot(60000, Minute) == 1;
    assert Decimal(1) == "1";
  }

  /** Worked value: 90 minutes before the clock reads "1 hour ago" (the count is truncated). */
  lemma NinetyMinutes(now: int)
    ensures RelativeTime(now, now - 5400000) == "1 hour ago"
  {
    assert Quot(5400000, Hour) == 1;
    assert Decimal(1) == "1";
  }

  /** Worked value: 400 days before the clock reads "Years". */
  lemma FourHundredDays(now: int)
    ensures RelativeTime(now, now - 400 * Day) == "Years"
  {
  }
}
