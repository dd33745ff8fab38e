/**
 * The memo list entry's display logic (`MemoListItem.tsx`): the relative age
 * label `relativeTime` computes from the milliseconds elapsed since the
 * memo's last update, and the placeholder shown for an empty title.
 */
module MemoListItem {

  import Frontmatter
  import MemoFile

  const MsPerSecond: int := 1000
  const MsPerMinute: int := 60_000
  const MsPerHour: int := 3_600_000
  const MsPerDay: int := 86_400_000

  /** The label `relativeTime` returns; `LocaleDate` stands for `toLocaleDateString()`. */
  datatype Age = JustNow | MinutesAgo(minutes: int) | HoursAgo(hours: int) | DaysAgo(days: int) | LocaleDate

  /**
   * `relativeTime` for `diff = Date.now() - then` in milliseconds: the cascade
   * of `Math.floor` divisions (Dafny's `/` with a positive divisor is floor
   * division) and the threshold ladder.
   */
  function RelativeTime(diff: int): Age {
    var seconds := diff / 1000;
    var minutes := seconds / 60;
    var hours := minutes / 60;
    var days := hours / 24;
    if seconds < 60 then JustNow
    else if minutes < 60 then MinutesAgo(minutes)
    else if hours < 24 then HoursAgo(hours)
    else if days < 30 then DaysAgo(days)
    else LocaleDate
  }

  /** The text shown: `${minutes}m ago` and so on; `localeDate` is the browser's date string. */
  function Render(age: Age, localeDate: string): string {
    match age
    case JustNow => "just now"
    case MinutesAgo(n) => Decimal(n) + "m ago"
    case HoursAgo(n) => Decimal(n) + "h ago"
    case DaysAgo(n) => Decimal(n) + "d ago"
    case LocaleDate => localeDate
  }

  /** JavaScript's decimal rendering of an integer in a template string. */
  function Decimal(n: int): (r: string)
    ensures |r| > 0
    ensures n >= 0 ==> forall i :: 0 <= i < |r| ==> '0' <= r[i] <= '9'
    decreases if n < 0 then 1 - n else n
  {
    if n < 0 then "-" + Decimal(-n)
    else if n < 10 then [Digit(n)]
    else Decimal(n / 10) + [Digit(n % 10)]
  }

  function Digit(d: int): (c: char)
    requires 0 <= d < 10
    ensures '0' <= c <= '9'
  {
    ['0', '1', '2', '3', '4', '5', '6', '7', '8', '9'][d]
  }

  /** The number a string of decimal digits denotes. */
  function DigitsValue(s: string): int
    requires forall i :: 0 <= i < |s| ==> '0' <= s[i] <= '9'
  {
    if s == [] then 0 else 10 * DigitsValue(s[..|s| - 1]) + (s[|s| - 1] as int - '0' as int)
  }

  /** The label's number reads back as the value it was rendered from. */
  lemma {:induction false} DecimalRoundTrip(n: nat)
    ensures DigitsValue(Decimal(n)) == n
    decreases n
  {
    if n >= 10 {
      DecimalRoundTrip(n / 10);
      var r := Decimal(n);
      assert r[..|r| - 1] == Decimal(n / 10);
    }
  }

  /** The cascaded floors are single floor divisions of the millisecond difference. */
  lemma {:induction false} CascadedFloors(diff: int)
    ensures (diff / 1000) / 60 == diff / MsPerMinute
    ensures ((diff / 1000) / 60) / 60 == diff / MsPerHour
    ensures (((diff / 1000) / 60) / 60) / 24 == diff / MsPerDay
  {
  }

  /** Less than a minute, including any negative difference, is "just now". */
  lemma {:induction false} JustNowIff(diff: int)
    ensures RelativeTime(diff) == JustNow <==> diff < MsPerMinute
  {
  }

  /** The minutes label is used exactly for 1 to 59 whole minutes, and shows their number. */
  lemma {:induction false} MinutesAgoIff(diff: int)
    ensures RelativeTime(diff).MinutesAgo? <==> 1 <= diff / MsPerMinute <= 59
    ensures RelativeTime(diff).MinutesAgo? ==> RelativeTime(diff).minutes == diff / MsPerMinute
  {
    CascadedFloors(diff);
  }

  /** The hours label is used exactly for 1 to 23 whole hours, and shows their number. */
  lemma {:induction false} HoursAgoIff(diff: int)
    ensures RelativeTime(diff).HoursAgo? <==> 1 <= diff / MsPerHour <= 23
    ensures RelativeTime(diff).HoursAgo? ==> RelativeTime(diff).hours == diff / MsPerHour
  {
    CascadedFloors(diff);
  }

  /** The days label is used exactly for 1 to 29 whole days, and shows their number. */
  lemma {:induction false} DaysAgoIff(diff: int)
    ensures RelativeTime(diff).DaysAgo? <==> 1 <= diff / MsPerDay <= 29
    ensures RelativeTime(diff).DaysAgo? ==> RelativeTime(diff).days == diff / MsPerDay
  {
    CascadedFloors(diff);
  }

  /** Thirty days or more falls through to the date. */
  lemma {:induction false} LocaleDateIff(diff: int)
    ensures RelativeTime(diff) == LocaleDate <==> diff / MsPerDay >= 30
  {
    CascadedFloors(diff);
  }

  /**
   * The text the list shows for a millisecond difference: the label of the
   * rung the difference falls on, carrying the whole minutes, hours or days of
   * the difference itself.
   */
  lemma {:induction false} RelativeLabel(diff: int, localeDate: string)
    ensures var shown := Render(RelativeTime(diff), localeDate);
      && (diff < MsPerMinute ==> shown == "just now")
      && (1 <= diff / MsPerMinute <= 59 ==> shown == Decimal(diff / MsPerMinute) + "m ago")
      && (1 <= diff / MsPerHour <= 23 ==> shown == Decimal(diff / MsPerHour) + "h ago")
      && (1 <= diff / MsPerDay <= 29 ==> shown == Decimal(diff / MsPerDay) + "d ago")
      && (diff / MsPerDay >= 30 ==> shown == localeDate)
  {
    JustNowIff(diff);
    MinutesAgoIff(diff);
    HoursAgoIff(diff);
    DaysAgoIff(diff);
    LocaleDateIff(diff);
  }

  /** `memo.title || "Untitled"`: the empty string is the only falsy title. */
  function DisplayTitle(title: string): (r: string)
    ensures r != []
    ensures title != [] ==> r == title
    ensures title == [] ==> r == Frontmatter.Placeholder
  {
    if title == [] then Frontmatter.Placeholder else title
  }

  /**
   * A summary's title comes from the backend's `extract_title`, which never
   * returns the empty string, so the list shows it as it is.
   */
  lemma {:induction false} DerivedTitleDisplayedUnchanged(body: string)
    ensures DisplayTitle(MemoFile.ExtractTitle(body)) == MemoFile.ExtractTitle(body)
  {
  }

  /**
   * A title the front end re-derives with `extractTitle` after an edit is
   * never empty either, so the list shows it as it is.
   */
  lemma {:induction false} FrontendTitleDisplayedUnchanged(markdown: string)
    ensures DisplayTitle(Frontmatter.ExtractTitle(markdown)) == Frontmatter.ExtractTitle(markdown)
  {
  }
}
