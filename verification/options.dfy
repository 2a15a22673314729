/**
 * The options page (options.js): the two numbers shown when it opens and
 * the clamped values it stores on save. The input fields are strings; the
 * stored record is the `opts` key read by the content script.
 */
module Options {
  import opened Wrappers
  import opened Model
  import Text

  const DEFAULT_MAX_CAPTCHA: int := 8
  const DEFAULT_INTERVAL_SEC: int := 30
  const MIN_MAX_CAPTCHA: int := 1
  const MAX_MAX_CAPTCHA: int := 20
  const MIN_INTERVAL_SEC: int := 5
  const MAX_INTERVAL_SEC: int := 300

  /** `parseInt(text, 10) || d`: NaN and 0 both fall back to the default. */
  function NumberOr(text: string, d: int): (n: int)
    ensures Text.ParseInt(text).Some? && Text.ParseInt(text).value != 0 ==> n == Text.ParseInt(text).value
    ensures Text.ParseInt(text).None? || Text.ParseInt(text) == Some(0) ==> n == d
  {
    var p := Text.ParseInt(text);
    if p.Some? && p.value != 0 then p.value else d
  }

  /** `Math.max(lo, Math.min(hi, x))`. */
  function ClampTo(lo: int, hi: int, x: int): (r: int)
    requires lo <= hi
    ensures lo <= r <= hi
    ensures lo <= x <= hi ==> r == x
    ensures x > hi ==> r == hi
    ensures x < lo ==> r == lo
  {
    if x > hi then hi else if x < lo then lo else x
  }

  /** `save`: read both fields, fall back on NaN or 0, clamp, and store both. */
  function Save(maxText: string, secText: string): (o: StoredOpts)
    ensures o.maxCaptcha.Some? && MIN_MAX_CAPTCHA <= o.maxCaptcha.value <= MAX_MAX_CAPTCHA
    ensures o.notifyIntervalSec.Some? && MIN_INTERVAL_SEC <= o.notifyIntervalSec.value <= MAX_INTERVAL_SEC
  {
    StoredOpts(Some(ClampTo(MIN_MAX_CAPTCHA, MAX_MAX_CAPTCHA, NumberOr(maxText, DEFAULT_MAX_CAPTCHA))),
               Some(ClampTo(MIN_INTERVAL_SEC, MAX_INTERVAL_SEC, NumberOr(secText, DEFAULT_INTERVAL_SEC))))
  }

  /**
   * Unreadable or zero input stores the defaults; readable input is kept
   * when in range and pinned to the nearer bound otherwise.
   */
  lemma SaveReadsFields(maxText: string, secText: string)
    ensures var o := Save(maxText, secText);
            var m := Text.ParseInt(maxText);
            (m.None? || m == Some(0) ==> o.maxCaptcha == Some(DEFAULT_MAX_CAPTCHA))
            && (m.Some? && MIN_MAX_CAPTCHA <= m.value <= MAX_MAX_CAPTCHA ==> o.maxCaptcha == m)
            && (m.Some? && m.value > MAX_MAX_CAPTCHA ==> o.maxCaptcha == Some(MAX_MAX_CAPTCHA))
            && (m.Some? && m.value < 0 ==> o.maxCaptcha == Some(MIN_MAX_CAPTCHA))
    ensures var o := Save(maxText, secText);
            var t := Text.ParseInt(secText);
            (t.None? || t == Some(0) ==> o.notifyIntervalSec == Some(DEFAULT_INTERVAL_SEC))
            && (t.Some? && MIN_INTERVAL_SEC <= t.value <= MAX_INTERVAL_SEC ==> o.notifyIntervalSec == t)
            && (t.Some? && t.value > MAX_INTERVAL_SEC ==> o.notifyIntervalSec == Some(MAX_INTERVAL_SEC))
            && (t.Some? && t.value != 0 && t.value < MIN_INTERVAL_SEC ==> o.notifyIntervalSec == Some(MIN_INTERVAL_SEC))
  {
  }

  /** The two numbers the page shows. */
  datatype Shown = Shown(maxCaptcha: int, notifyIntervalSec: int)

  /** `init`: a missing record shows the defaults; a missing field (`??`) shows its default. */
  function Load(opts: Option<StoredOpts>): (v: Shown)
    ensures opts.None? ==> v == Shown(DEFAULT_MAX_CAPTCHA, DEFAULT_INTERVAL_SEC)
    ensures opts.Some? && opts.value.maxCaptcha.Some? ==> v.maxCaptcha == opts.value.maxCaptcha.value
    ensures opts.Some? && opts.value.maxCaptcha.None? ==> v.maxCaptcha == DEFAULT_MAX_CAPTCHA
    ensures opts.Some? && opts.value.notifyIntervalSec.Some? ==> v.notifyIntervalSec == opts.value.notifyIntervalSec.value
    ensures opts.Some? && opts.value.notifyIntervalSec.None? ==> v.notifyIntervalSec == DEFAULT_INTERVAL_SEC
  {
    var o := if opts.Some? then opts.value else StoredOpts(Some(DEFAULT_MAX_CAPTCHA), Some(DEFAULT_INTERVAL_SEC));
    Shown(o.maxCaptcha.GetOr(DEFAULT_MAX_CAPTCHA), o.notifyIntervalSec.GetOr(DEFAULT_INTERVAL_SEC))
  }

  /** In-range numbers typed in are shown as typed the next time the page opens. */
  lemma SaveThenLoad(a: int, b: int)
    requires MIN_MAX_CAPTCHA <= a <= MAX_MAX_CAPTCHA && MIN_INTERVAL_SEC <= b <= MAX_INTERVAL_SEC
    ensures Load(Some(Save(Text.IntToString(a), Text.IntToString(b)))) == Shown(a, b)
  {
    Text.ParseIntOfIntToString(a, "");
    assert Text.IntToString(a) + "" == Text.IntToString(a);
    Text.ParseIntOfIntToString(b, "");
    assert Text.IntToString(b) + "" == Text.IntToString(b);
  }

  /** Opening the page and saving without edits stores the record unchanged. */
  lemma LoadThenSaveStable(maxText: string, secText: string)
    ensures var o := Save(maxText, secText);
            var v := Load(Some(o));
            Save(Text.IntToString(v.maxCaptcha), Text.IntToString(v.notifyIntervalSec)) == o
  {
    var o := Save(maxText, secText);
    SaveThenLoad(o.maxCaptcha.value, o.notifyIntervalSec.value);
  }
}
