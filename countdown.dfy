// The remaining-time display of the listing cards (js/home.js,
// js/listings.js, js/my-listings.js, js/my-bids.js) and of the detail page
// countdown (js/item-details.js). Times are integer milliseconds.
module Countdown {
  import Text
  import Wrappers

  const Second: nat := 1000
  const Minute: nat := 60 * Second
  const Hour: nat := 60 * Minute
  const Day: nat := 24 * Hour

  datatype Parts = Parts(days: nat, hours: nat, minutes: nat, seconds: nat)

  function Millis(p: Parts): nat {
    p.days * Day + p.hours * Hour + p.minutes * Minute + p.seconds * Second
  }

  predicate InRange(p: Parts) {
    p.hours < 24 && p.minutes < 60 && p.seconds < 60
  }

  lemma ModOfMod(x: nat, big: nat, small: nat, k: nat)
    requires small > 0 && big == k * small
    ensures k > 0 ==> x % big % small == x % small
  {
    if k > 0 {
      var q, r := x / big, x % big;
      assert x == q * big + r;
      assert q * big == (q * k) * small;
      ModAddMultiple(r, q * k, small);
    }
  }

  lemma ModAddMultiple(r: nat, m: nat, d: nat)
    requires d > 0
    ensures (m * d + r) % d == r % d
  {
    var q, s := r / d, r % d;
    assert m * d + r == (m + q) * d + s;
    DivModUnique(m * d + r, d, m + q, s);
  }

  /** Division is unique: x == q*d + s with 0 <= s < d fixes x / d and x % d. */
  lemma DivModUnique(x: int, d: int, q: int, s: int)
    requires d > 0 && x == q * d + s && 0 <= s < d
    ensures x / d == q && x % d == s
  {
    var q', s' := x / d, x % d;
    var k := q' - q;
    assert k * d == s - s' by {
      assert x == q' * d + s';
      assert k * d == q' * d - q * d;
    }
    if k >= 1 {
      MulLe(1, k, d);
    } else if k <= -1 {
      MulLe(k, -1, d);
    }
  }

  lemma MulLe(x: int, y: int, d: int)
    requires x <= y && d > 0
    ensures x * d <= y * d
  {
  }

  /**
   * The source's decomposition: days = floor(diff / day), hours from the
   * remainder modulo a day, minutes from the remainder modulo an hour,
   * seconds from the remainder modulo a minute.
   */
  function Decompose(diff: nat): (p: Parts)
    ensures InRange(p)
    ensures Millis(p) <= diff < Millis(p) + Second
  {
    var p := Parts(diff / Day, diff % Day / Hour, diff % Hour / Minute, diff % Minute / Second);
    DecomposeSound(diff);
    p
  }

  lemma DecomposeSound(diff: nat)
    ensures var p := Parts(diff / Day, diff % Day / Hour, diff % Hour / Minute, diff % Minute / Second);
      InRange(p) && Millis(p) <= diff < Millis(p) + Second
  {
    ModOfMod(diff, Day, Hour, 24);
    ModOfMod(diff, Hour, Minute, 60);
    ModOfMod(diff, Minute, Second, 60);
    var d, rd := diff / Day, diff % Day;
    var h, rh := rd / Hour, rd % Hour;
    assert rh == diff % Hour;
    var m, rm := rh / Minute, rh % Minute;
    assert rm == diff % Minute;
    var s, rs := rm / Second, rm % Second;
    assert diff == d * Day + rd;
    assert rd == h * Hour + rh;
    assert rh == m * Minute + rm;
    assert rm == s * Second + rs;
  }

  /** The decomposition is the only one with in-range fields and the right total. */
  lemma DecomposeUnique(diff: nat, p: Parts)
    requires InRange(p) && Millis(p) <= diff < Millis(p) + Second
    ensures p == Decompose(diff)
  {
    var below := p.hours * Hour + p.minutes * Minute + p.seconds * Second + (diff - Millis(p));
    assert 0 <= below < Day by {
      MulLe(p.hours, 23, Hour);
      MulLe(p.minutes, 59, Minute);
      MulLe(p.seconds, 59, Second);
    }
    DivModUnique(diff, Day, p.days, below);
    var belowH := p.minutes * Minute + p.seconds * Second + (diff - Millis(p));
    assert 0 <= belowH < Hour by {
      MulLe(p.minutes, 59, Minute);
      MulLe(p.seconds, 59, Second);
    }
    DivModUnique(below, Hour, p.hours, belowH);
    assert diff % Hour == belowH by {
      DivModUnique(diff, Hour, p.days * 24 + p.hours, belowH);
    }
    var belowM := p.seconds * Second + (diff - Millis(p));
    assert 0 <= belowM < Minute by {
      MulLe(p.seconds, 59, Second);
    }
    DivModUnique(belowH, Minute, p.minutes, belowM);
    assert diff % Minute == belowM by {
      DivModUnique(diff, Minute, (p.days * 24 + p.hours) * 60 + p.minutes, belowM);
    }
    DivModUnique(belowM, Second, p.seconds, diff - Millis(p));
  }

  /** What a card timer shows: the first non-zero unit among days and hours picks the form. */
  datatype Display =
    | Ended
    | DaysHours(days: nat, hours: nat)
    | HoursMinutes(hours: nat, minutes: nat)
    | MinutesSeconds(minutes: nat, seconds: nat, urgent: bool)

  /** `updateTimer`: `diff` is the end time minus now. */
  function Timer(diff: int): Display {
    if diff <= 0 then Ended
    else
      var p := Decompose(diff);
      if p.days > 0 then DaysHours(p.days, p.hours)
      else if p.hours > 0 then HoursMinutes(p.hours, p.minutes)
      else MinutesSeconds(p.minutes, p.seconds, p.minutes < 10)
  }

  /**
   * The form depends only on how much time is left: a day or more shows days
   * and hours, an hour or more hours and minutes, less than an hour minutes
   * and seconds, urgent exactly when less than ten minutes remain; and the
   * numbers shown are the decomposition of `diff`.
   */
  lemma TimerForm(diff: int)
    ensures Timer(diff).Ended? <==> diff <= 0
    ensures Timer(diff).DaysHours? <==> diff >= Day
    ensures Timer(diff).HoursMinutes? <==> Hour <= diff < Day
    ensures Timer(diff).MinutesSeconds? <==> 0 < diff < Hour
    ensures Timer(diff).MinutesSeconds? ==> (Timer(diff).urgent <==> diff < 10 * Minute)
    ensures diff > 0 ==> match Timer(diff)
      case DaysHours(d, h) => d == Decompose(diff).days && h == Decompose(diff).hours
      case HoursMinutes(h, m) => Decompose(diff).days == 0 && h == Decompose(diff).hours && m == Decompose(diff).minutes
      case MinutesSeconds(m, s, _) => Decompose(diff).days == 0 && Decompose(diff).hours == 0 && m == Decompose(diff).minutes && s == Decompose(diff).seconds
      case Ended => false
  {
    if diff > 0 {
      var p := Decompose(diff);
      assert p.days > 0 <==> diff >= Day by {
        if p.days > 0 { MulLe(1, p.days, Day); }
      }
      if p.days == 0 {
        assert p.hours > 0 <==> diff >= Hour by {
          if p.hours > 0 { MulLe(1, p.hours, Hour); }
        }
        if p.hours == 0 {
          assert p.minutes < 10 <==> diff < 10 * Minute by {
            if p.minutes >= 10 { MulLe(10, p.minutes, Minute); }
            else { MulLe(p.minutes, 9, Minute); }
          }
        }
      }
    }
  }

  /** The text put into the element; `suffix` is " left" on every page except my-listings. */
  function Render(d: Display, suffix: string): string {
    match d
    case Ended => "Ended"
    case DaysHours(days, hours) => Text.NatToString(days) + "d " + Text.NatToString(hours) + "h" + suffix
    case HoursMinutes(hours, minutes) => Text.NatToString(hours) + "h " + Text.NatToString(minutes) + "m" + suffix
    case MinutesSeconds(minutes, seconds, _) => Text.NatToString(minutes) + "m " + Text.NatToString(seconds) + "s" + suffix
  }

  /** The card text reads "Ended" exactly when no time is left, whatever the suffix. */
  lemma RenderEnded(diff: int, suffix: string)
    ensures Render(Timer(diff), suffix) == "Ended" <==> diff <= 0
  {
    var d := Timer(diff);
    if !d.Ended? {
      var r := Render(d, suffix);
      var first := match d
        case DaysHours(x, _) => x
        case HoursMinutes(x, _) => x
        case MinutesSeconds(x, _, _) => x
        case Ended => 0;
      assert r[0] == Text.NatToString(first)[0];
      assert r[0] != 'E';
    }
  }

  /** The detail page: `None` is "This auction has ended"; otherwise the four zero-padded fields. */
  function DetailCountdown(endTime: int, now: int): (r: Wrappers.Option<(string, string, string, string)>)
    ensures r.None? <==> endTime <= now
    ensures r.Some? ==> var p := Decompose(endTime - now);
      r.value == (Text.Pad2(p.days), Text.Pad2(p.hours), Text.Pad2(p.minutes), Text.Pad2(p.seconds))
  {
    if endTime <= now then Wrappers.None
    else
      var p := Decompose(endTime - now);
      Wrappers.Some((Text.Pad2(p.days), Text.Pad2(p.hours), Text.Pad2(p.minutes), Text.Pad2(p.seconds)))
  }
}
