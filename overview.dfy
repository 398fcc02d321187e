/** The admin overview tab's activity feed helpers (components/adminComponents/adminOverviewTab.tsx):
    how long ago an activity happened, and the icon shown for its kind. */
module Overview {
  import opened Options
  import opened Decimal

  const MsPerMinute: int := 60_000
  const MsPerHour: int := 3_600_000
  const MsPerDay: int := 86_400_000
  const MsPerWeek: int := 604_800_000

  datatype TimeUnit = Minute | Hour | Day

  /** What `formatRelativeTime` returns: "just now", "<n> <unit>(s) ago", or the date
      rendered by the browser's locale (`toLocaleDateString`, outside the model). */
  datatype RelativeTime = JustNow | Ago(amount: nat, unit: TimeUnit) | LocaleDate

  /** `Math.floor((now.getTime() - date.getTime()) / 1000)`: whole seconds elapsed, rounded
      down, also for a date in the future. */
  function ElapsedSeconds(nowMs: int, dateMs: int): (secs: int)
    ensures secs * 1000 <= nowMs - dateMs < secs * 1000 + 1000
  {
    (nowMs - dateMs) / 1000
  }

  /** `formatRelativeTime`. `dateMs` is `None` when the date string does not parse; then
      `getTime()` is NaN, every comparison is false and the locale date is shown. */
  function FormatRelativeTime(nowMs: int, dateMs: Option<int>): (t: RelativeTime)
  {
    if dateMs.None? then LocaleDate
    else
      var diffInSeconds := ElapsedSeconds(nowMs, dateMs.value);
      if diffInSeconds < 60 then JustNow
      else if diffInSeconds < 3600 then Ago(diffInSeconds / 60, Minute)
      else if diffInSeconds < 86400 then Ago(diffInSeconds / 3600, Hour)
      else if diffInSeconds < 604800 then Ago(diffInSeconds / 86400, Day)
      else LocaleDate
  }

  function UnitMs(u: TimeUnit): int
  {
    match u
    case Minute => MsPerMinute
    case Hour => MsPerHour
    case Day => MsPerDay
  }

  /** The result reads off the time elapsed in milliseconds: "just now" under a minute
      (including any date in the future), whole minutes under an hour, whole hours under a
      day, whole days under a week, and the locale date from a week on or for an invalid
      date. The amount shown is the elapsed time rounded down to whole units. */
  lemma FormatRelativeTimeMeaning(nowMs: int, dateMs: Option<int>)
    ensures FormatRelativeTime(nowMs, dateMs) == LocaleDate <==>
              dateMs.None? || nowMs - dateMs.value >= MsPerWeek
    ensures FormatRelativeTime(nowMs, dateMs) == JustNow <==>
              dateMs.Some? && nowMs - dateMs.value < MsPerMinute
    ensures FormatRelativeTime(nowMs, dateMs).Ago? ==>
              var t := FormatRelativeTime(nowMs, dateMs);
              var d := nowMs - dateMs.value;
              && t.amount >= 1
              && t.amount * UnitMs(t.unit) <= d < (t.amount + 1) * UnitMs(t.unit)
    ensures dateMs.Some? ==>
              var d := nowMs - dateMs.value;
              && (FormatRelativeTime(nowMs, dateMs).Ago? && FormatRelativeTime(nowMs, dateMs).unit == Minute
                  <==> MsPerMinute <= d < MsPerHour)
              && (FormatRelativeTime(nowMs, dateMs).Ago? && FormatRelativeTime(nowMs, dateMs).unit == Hour
                  <==> MsPerHour <= d < MsPerDay)
              && (FormatRelativeTime(nowMs, dateMs).Ago? && FormatRelativeTime(nowMs, dateMs).unit == Day
                  <==> MsPerDay <= d < MsPerWeek)
  {
  }

  /** The amount shown stays within its unit: 1-59 minutes, 1-23 hours, 1-6 days. */
  lemma AmountBounds(nowMs: int, dateMs: Option<int>)
    ensures FormatRelativeTime(nowMs, dateMs).Ago? ==>
              var t := FormatRelativeTime(nowMs, dateMs);
              1 <= t.amount && (t.unit == Minute ==> t.amount <= 59)
              && (t.unit == Hour ==> t.amount <= 23) && (t.unit == Day ==> t.amount <= 6)
  {
  }

  function UnitName(u: TimeUnit): string
  {
    match u
    case Minute => "minute"
    case Hour => "hour"
    case Day => "day"
  }

  /** The template literal `${n} unit${n > 1 ? "s" : ""} ago`; `localeDate` stands for the
      browser's rendering of the date. */
  function RelativeTimeText(t: RelativeTime, localeDate: string): (text: string)
  {
    match t
    case JustNow => "just now"
    case Ago(n, u) => NatToString(n) + " " + UnitName(u) + (if n > 1 then "s" else "") + " ago"
    case LocaleDate => localeDate
  }

  /** An "ago" text starts with the amount's digits, which read back as the amount, then a
      space; it ends in " ago", and the unit carries a plural "s" exactly when the amount
      is more than one. */
  lemma {:induction false} AgoTextReadsBack(n: nat, u: TimeUnit, localeDate: string)
    ensures var text := RelativeTimeText(Ago(n, u), localeDate);
            var k := |NatToString(n)|;
            && k < |text|
            && AllDigits(text[..k])
            && DigitsValue(text[..k]) == n
            && text[k] == ' '
            && text[|text| - 4..] == " ago"
            && (text[|text| - 5] == 's' <==> n > 1)
  {
    var text := RelativeTimeText(Ago(n, u), localeDate);
    var digits := NatToString(n);
    var k := |digits|;
    var tail := " " + UnitName(u) + (if n > 1 then "s" else "") + " ago";
    assert text == digits + tail;
    assert text[..k] == digits;
    NatToStringRoundTrip(n);
    assert text[|text| - 4..] == " ago";
  }

  const UserIcon: string := "\U{1F464}"
  const BuildingIcon: string := "\U{1F3E2}"
  const DocumentIcon: string := "\U{1F4C4}"
  const LinkIcon: string := "\U{1F517}"
  const ChartIcon: string := "\U{1F4CA}"

  /** The activity kinds the feed has an icon of their own for. */
  predicate KnownKind(kind: string)
  {
    kind == "user_registration" || kind == "property_created"
    || kind == "document_uploaded" || kind == "user_assigned"
  }

  /** `getActivityIcon`. */
  function ActivityIcon(kind: string): (icon: string)
    ensures icon == ChartIcon <==> !KnownKind(kind)
  {
    if kind == "user_registration" then UserIcon
    else if kind == "property_created" then BuildingIcon
    else if kind == "document_uploaded" then DocumentIcon
    else if kind == "user_assigned" then LinkIcon
    else ChartIcon
  }

  /** The four known kinds get four different icons, so the icon tells the kind apart. */
  lemma IconIdentifiesKind(a: string, b: string)
    requires KnownKind(a) && ActivityIcon(a) == ActivityIcon(b)
    ensures a == b
  {
  }
}
