// The admin dashboard admin/js/dashboard.js: the signed change under each
// statistic, the "time ago" of the activity list and its status classes.
module Dashboard {
  import opened Text
  import Countdown

  datatype Tone = Positive | Negative | Neutral

  /** The change line of a statistic card: "+n caption", "n caption" (the minus is the number's), or "No change caption". */
  function ChangeText(change: int, caption: string): (r: (string, Tone))
    ensures r.1 == Positive <==> change > 0
    ensures r.1 == Negative <==> change < 0
    ensures change > 0 ==> r.0 == "+" + NatToString(change) + " " + caption
    ensures change < 0 ==> r.0 == "-" + NatToString(-change) + " " + caption
    ensures change == 0 ==> r.0 == "No change " + caption
  {
    if change > 0 then ("+" + IntToString(change) + " " + caption, Positive)
    else if change < 0 then (IntToString(change) + " " + caption, Negative)
    else ("No change " + caption, Neutral)
  }

  /** A non-zero change is printed with its sign first, so the two signs never read alike. */
  lemma ChangeSignShown(change: int, caption: string)
    requires change != 0
    ensures ChangeText(change, caption).0[0] == (if change > 0 then '+' else '-')
    ensures ChangeText(change, caption).0 != ChangeText(-change, caption).0
  {
    var a, b := ChangeText(change, caption).0, ChangeText(-change, caption).0;
    assert a[0] != b[0];
  }

  datatype Ago = JustNow | MinutesAgo(minutes: int) | HoursAgo(hours: int) | Yesterday | DaysAgo(days: int) | LocaleDate

  /**
   * `formatTimeAgo` with `diffMs = now - date`: under an hour "Just now" up
   * to one minute, else the minutes; under a day the whole hours; then
   * "Yesterday"; under a week the whole days; else the locale date.
   */
  function TimeAgo(diffMs: int): Ago {
    if diffMs < 24 * Countdown.Hour then
      if diffMs < Countdown.Hour then
        var minutes := diffMs / Countdown.Minute;
        if minutes <= 1 then JustNow else MinutesAgo(minutes)
      else HoursAgo(diffMs / Countdown.Hour)
    else if diffMs < 48 * Countdown.Hour then Yesterday
    else if diffMs < 168 * Countdown.Hour then DaysAgo(diffMs / Countdown.Hour / 24)
    else LocaleDate
  }

  function AgoText(a: Ago, localeDate: string): string {
    match a
    case JustNow => "Just now"
    case MinutesAgo(m) => IntToString(m) + " mins ago"
    case HoursAgo(h) => IntToString(h) + " hours ago"
    case Yesterday => "Yesterday"
    case DaysAgo(d) => IntToString(d) + " days ago"
    case LocaleDate => localeDate
  }

  /** The bands of `formatTimeAgo` and the counts they show. */
  lemma TimeAgoBands(diffMs: int)
    ensures TimeAgo(diffMs) == JustNow <==> diffMs < 2 * Countdown.Minute
    ensures TimeAgo(diffMs).MinutesAgo? <==> 2 * Countdown.Minute <= diffMs < Countdown.Hour
    ensures TimeAgo(diffMs).HoursAgo? <==> Countdown.Hour <= diffMs < 24 * Countdown.Hour
    ensures TimeAgo(diffMs) == Yesterday <==> 24 * Countdown.Hour <= diffMs < 48 * Countdown.Hour
    ensures TimeAgo(diffMs).DaysAgo? <==> 48 * Countdown.Hour <= diffMs < 168 * Countdown.Hour
    ensures TimeAgo(diffMs).MinutesAgo? ==> 2 <= TimeAgo(diffMs).minutes <= 59
    ensures TimeAgo(diffMs).HoursAgo? ==> 1 <= TimeAgo(diffMs).hours <= 23
    ensures TimeAgo(diffMs).DaysAgo? ==> 2 <= TimeAgo(diffMs).days <= 6 && TimeAgo(diffMs).days == diffMs / Countdown.Day
  {
    if 48 * Countdown.Hour <= diffMs < 168 * Countdown.Hour {
      var q := diffMs / Countdown.Hour;
      var r := diffMs % Countdown.Hour;
      var d, e := q / 24, q % 24;
      assert diffMs == d * Countdown.Day + (e * Countdown.Hour + r);
      assert e * Countdown.Hour <= 23 * Countdown.Hour by { Countdown.MulLe(e, 23, Countdown.Hour); }
      Countdown.DivModUnique(diffMs, Countdown.Day, d, e * Countdown.Hour + r);
    }
  }

  /** The class of the admin-name caption of an activity. */
  function StatusClass(status: string): (c: string)
    ensures status == "active" ==> c == "approved"
    ensures status == "rejected" ==> c == "rejected"
    ensures status == "more_info" ==> c == "more-info"
    ensures status != "active" && status != "rejected" && status != "more_info" ==> c == ""
  {
    if status == "active" then "approved"
    else if status == "rejected" then "rejected"
    else if status == "more_info" then "more-info"
    else ""
  }
}
