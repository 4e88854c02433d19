/** Rendering of a whole number of minutes as `Xh`, `Xh Ymin` or `Ymin`, in the two
    forms the bot uses (the `/timeouts` listing and the start announcement), and a
    reader that recovers the minutes from either. */
module Durations {
  import opened Wrappers
  import opened Text

  /** The `/timeouts` listing form: split into hours and minutes, print the non-zero
      parts. The text reads back as the number of minutes it was given. */
  function ListedDuration(total: nat): (r: string)
    ensures ReadDuration(r) == Some(total)
  {
    var h, m := total / 60, total % 60;
    assert total == h * 60 + m;
    if h != 0 && m != 0 then
      ReadHoursMinutes(ShowNat(h), ShowNat(m));
      ShowNat(h) + "h " + ShowNat(m) + "min"
    else if h != 0 then
      ReadHours(ShowNat(h));
      ShowNat(h) + "h"
    else
      ReadMinutes(ShowNat(m));
      ShowNat(m) + "min"
  }

  /** The start-announcement form, written with different tests on the same split.
      The announcement states exactly the number of minutes it was given. */
  function AnnouncedDuration(minutes: nat): (r: string)
    ensures ReadDuration(r) == Some(minutes)
  {
    var h, m := minutes / 60, minutes % 60;
    assert minutes == h * 60 + m;
    if minutes >= 60 && minutes % 60 == 0 then
      ReadHours(ShowNat(h));
      ShowNat(minutes / 60) + "h"
    else if minutes >= 60 then
      ReadHoursMinutes(ShowNat(h), ShowNat(m));
      ShowNat(minutes / 60) + "h " + ShowNat(minutes % 60) + "min"
    else
      ReadMinutes(ShowNat(minutes));
      ShowNat(minutes) + "min"
  }

  /** The two forms never disagree. */
  lemma RenderingsAgree(minutes: nat)
    ensures ListedDuration(minutes) == AnnouncedDuration(minutes)
  {
    var h, m := minutes / 60, minutes % 60;
    if minutes >= 60 {
      assert h != 0;
    } else {
      assert h == 0 && m == minutes;
    }
  }

  /** Position of the first `c` in `s`, or `|s|` when there is none. */
  function IndexOf(s: string, c: char): (r: nat)
    ensures r <= |s|
  {
    if |s| == 0 then 0 else if s[0] == c then 0 else 1 + IndexOf(s[1..], c)
  }

  /** `IndexOf` finds the first `c`: a `c` at the position found, none before it. */
  lemma {:induction false} IndexOfFirst(s: string, c: char)
    ensures IndexOf(s, c) < |s| ==> s[IndexOf(s, c)] == c
    ensures forall i :: 0 <= i < IndexOf(s, c) ==> s[i] != c
  {
    if |s| > 0 && s[0] != c {
      IndexOfFirst(s[1..], c);
      assert forall i :: 1 <= i < |s| ==> s[i] == s[1..][i - 1];
    }
  }

  lemma {:induction false} IndexOfAfterDigits(a: string, b: string)
    requires AllDigits(a) && |b| > 0 && b[0] == 'h'
    ensures IndexOf(a + b, 'h') == |a|
  {
    if |a| > 0 {
      assert (a + b)[1..] == a[1..] + b;
      IndexOfAfterDigits(a[1..], b);
    }
  }

  /** Reads `Xh`, `Xh Ymin` or `Ymin` back into a number of minutes. */
  function ReadDuration(t: string): Option<nat> {
    if |t| >= 2 && t[|t| - 1] == 'h' && AllDigits(t[..|t| - 1]) then
      Some(DigitsValue(t[..|t| - 1]) * 60)
    else if |t| >= 4 && t[|t| - 3..] == "min" then
      ReadMinutesPart(t[..|t| - 3])
    else None
  }

  /** Reads the text before a trailing `min`: `Y` or `Xh Y`. */
  function ReadMinutesPart(body: string): Option<nat> {
    var k := IndexOf(body, 'h');
    if k == |body| then
      if |body| >= 1 && AllDigits(body) then Some(DigitsValue(body)) else None
    else if 1 <= k && k + 2 < |body| && body[k + 1] == ' '
            && AllDigits(body[..k]) && AllDigits(body[k + 2..]) then
      Some(DigitsValue(body[..k]) * 60 + DigitsValue(body[k + 2..]))
    else None
  }

  lemma ReadHours(h: string)
    requires 1 <= |h| && AllDigits(h)
    ensures ReadDuration(h + "h") == Some(DigitsValue(h) * 60)
  {
    var t := h + "h";
    assert t[..|t| - 1] == h;
  }

  lemma ReadMinutes(m: string)
    requires 1 <= |m| && AllDigits(m)
    ensures ReadDuration(m + "min") == Some(DigitsValue(m))
  {
    var t := m + "min";
    assert t[..|t| - 3] == m && t[|t| - 3..] == "min";
    assert t[|t| - 1] == 'n';
    IndexOfAfterDigits(m, "h");
    assert IndexOf(m, 'h') == |m|;
  }

  lemma ReadHoursMinutes(h: string, m: string)
    requires 1 <= |h| && AllDigits(h) && 1 <= |m| && AllDigits(m)
    ensures ReadDuration(h + "h " + m + "min") == Some(DigitsValue(h) * 60 + DigitsValue(m))
  {
    var body := h + ("h " + m);
    var t := body + "min";
    assert h + "h " + m + "min" == t;
    assert t[..|t| - 3] == body && t[|t| - 3..] == "min";
    assert t[|t| - 1] == 'n';
    ReadBothParts(h, m);
  }

  lemma ReadSplit(body: string, k: nat)
    requires k == IndexOf(body, 'h') && 1 <= k && k + 2 < |body| && body[k + 1] == ' '
    requires AllDigits(body[..k]) && AllDigits(body[k + 2..])
    ensures ReadMinutesPart(body) == Some(DigitsValue(body[..k]) * 60 + DigitsValue(body[k + 2..]))
  {
  }

  lemma ReadBothParts(h: string, m: string)
    requires 1 <= |h| && AllDigits(h) && 1 <= |m| && AllDigits(m)
    ensures ReadMinutesPart(h + ("h " + m)) == Some(DigitsValue(h) * 60 + DigitsValue(m))
  {
    var body := h + ("h " + m);
    IndexOfAfterDigits(h, "h " + m);
    assert body[..|h|] == h && body[|h| + 2..] == m && body[|h| + 1] == ' ';
    ReadSplit(body, |h|);
  }
}
