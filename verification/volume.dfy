/** Percentage <-> raw volume arithmetic of the mixer, and its mute/unmute
    state machine. The control subsystem is replaced by an element record:
    reading the range or the current raw value is a field read, writing the
    raw value is a record update. */
module MixerVolume {
  import opened Wrappers
  import opened CNumeric

  /** Canonical raw span installed by the constructor for volume elements. */
  const MinimalVolume: int := 0
  const MaximumVolume: int := 65535

  /** Abstract state of one simple mixer element: its native playback range,
      its current raw value (one value for all channels) and the raw value
      saved by the last mute, absent before the first one. */
  datatype Element = Element(min: int, max: int, cur: int, muteVol: Option<int>)
  {
    /** The divisor of every percentage conversion. */
    function Span(): int { max - min }

    /** The element carries the range the constructor fixes. */
    predicate Canonical() { min == MinimalVolume && max == MaximumVolume }

    /** The current raw value lies inside the native range. */
    predicate InRange() { min <= cur <= max }
  }

  /** What a percentage-returning operation leaves behind: the new element
      state and the percentage it reports. */
  datatype Reply = Reply(elem: Element, pct: real)

  /** The exact fraction of the span that the current raw value represents. */
  function Ratio(e: Element): real
    requires e.min != e.max
  {
    e.cur as real / e.Span() as real
  }

  /** A percentage that is a whole number of hundredths. */
  predicate IsHundredth(p: real)
  {
    (p * 100.0).Floor as real == p * 100.0
  }

  /** Clamp a percentage into [0, 1]. */
  function TrimPct(pct: real): (r: real)
    ensures 0.0 <= r <= 1.0
    ensures 0.0 <= pct <= 1.0 ==> r == pct
    ensures pct < 0.0 ==> r == 0.0
    ensures 1.0 < pct ==> r == 1.0
  {
    var p := if pct < 0.0 then 0.0 else pct;
    if p > 1.0 then 1.0 else p
  }

  /** Clamping twice is clamping once. */
  lemma TrimPctIdempotent(pct: real)
    ensures TrimPct(TrimPct(pct)) == TrimPct(pct)
  {
  }

  /** The raw value `set_vol_pct` writes for a requested percentage. */
  function RawTarget(e: Element, pct: real): (raw: int)
    ensures e.min <= e.max ==> e.min <= raw <= e.max
    ensures pct <= 0.0 ==> raw == e.min
    ensures 1.0 <= pct ==> raw == e.max
    ensures 0 <= e.min <= e.max ==>
      raw as real <= e.min as real + TrimPct(pct) * e.Span() as real < raw as real + 1.0
  {
    var t := TrimPct(pct);
    TruncOfFraction(e.min, e.Span(), t);
    Trunc(e.min as real + t * e.Span() as real)
  }

  /** Truncating `m + t * s` for a fraction `t` stays within `[m, m + s]`
      and hits both ends exactly. */
  lemma TruncOfFraction(m: int, s: int, t: real)
    requires 0.0 <= t <= 1.0
    ensures 0 <= s ==> m <= Trunc(m as real + t * s as real) <= m + s
    ensures t == 0.0 ==> Trunc(m as real + t * s as real) == m
    ensures t == 1.0 ==> Trunc(m as real + t * s as real) == m + s
  {
    var x := m as real + t * s as real;
    FractionOfSpan(m as real, t, s as real);
    var n := Trunc(x);
    if 0 <= s {
      assert m as real <= x <= (m + s) as real;
      if 0.0 <= x {
        assert m as real < n as real + 1.0 && n as real <= (m + s) as real;
      } else {
        assert m as real <= n as real && n as real - 1.0 < (m + s) as real;
      }
    }
    if t == 0.0 {
      IntegersAreFixed(m);
    }
    if t == 1.0 {
      IntegersAreFixed(m + s);
    }
  }

  /** Current volume as a fraction of the span, rounded to hundredths. */
  function GetCurVolPct(e: Element): (r: real)
    requires e.min != e.max
    ensures IsHundredth(r)
    ensures -0.005 <= r - Ratio(e) <= 0.005
    ensures e.min == 0 && e.InRange() ==> 0.0 <= r <= 1.0
  {
    var x := Ratio(e) * 100.0;
    RoundToHundredths(x);
    RatioInUnit(e);
    Round(x) as real / 100.0
  }

  /** `round(x) / 100` is a whole number of hundredths within 0.005 of
      `x / 100`, and stays in [0, 1] when `x` is in [0, 100]. */
  lemma RoundToHundredths(x: real)
    ensures IsHundredth(Round(x) as real / 100.0)
    ensures -0.005 <= Round(x) as real / 100.0 - x / 100.0 <= 0.005
    ensures 0.0 <= x <= 100.0 ==> 0.0 <= Round(x) as real / 100.0 <= 1.0
  {
    var n := Round(x);
    assert n as real / 100.0 * 100.0 == n as real;
  }

  /** With a zero minimum the ratio of an in-range value is a fraction. */
  lemma RatioInUnit(e: Element)
    ensures e.min == 0 && e.InRange() && e.min != e.max ==> 0.0 <= Ratio(e) <= 1.0
  {
    if e.min == 0 && e.InRange() && e.min != e.max {
      DivideBoth(0.0, e.cur as real, e.Span() as real);
      DivideBoth(e.cur as real, e.Span() as real, e.Span() as real);
    }
  }

  /** Set the volume to a percentage and report the re-read percentage. */
  function SetVolPct(e: Element, pct: real): (r: Reply)
    requires e.min != e.max
    ensures r.elem == e.(cur := r.elem.cur)
    ensures e.min < e.max ==> r.elem.InRange()
    ensures pct <= 0.0 ==> r.elem.cur == e.min
    ensures 1.0 <= pct ==> r.elem.cur == e.max
    ensures r.elem.cur == RawTarget(e, pct)
    ensures r.pct == GetCurVolPct(r.elem)
  {
    var written := e.(cur := RawTarget(e, pct));
    Reply(written, GetCurVolPct(written))
  }

  /** With a zero minimum the percentage `set_vol_pct` reports is a fraction
      and differs from the clamped request by at most the rounding to
      hundredths plus one raw step. */
  lemma SetVolPctTracksRequest(e: Element, pct: real)
    requires e.min == 0 < e.max
    ensures 0.0 <= SetVolPct(e, pct).pct <= 1.0
    ensures -(0.005 + 1.0 / e.Span() as real) <= SetVolPct(e, pct).pct - TrimPct(pct) <= 0.005
  {
    var t := TrimPct(pct);
    var s := e.Span() as real;
    var raw := RawTarget(e, pct);
    var written := e.(cur := raw);
    assert raw as real <= t * s < raw as real + 1.0;
    QuotientBounds(raw as real, t, s);
    assert Ratio(written) == raw as real / s;
  }

  /** Dividing `a <= t * s < a + 1` by the positive `s`. */
  lemma QuotientBounds(a: real, t: real, s: real)
    requires 0.0 < s
    requires a <= t * s < a + 1.0
    ensures a / s <= t < a / s + 1.0 / s
  {
    DivideBoth(a, t * s, s);
    assert t * s / s == t;
    assert (a + 1.0) / s == a / s + 1.0 / s;
    assert t * s < a + 1.0;
    DivideBoth(t * s, a + 1.0, s);
  }

  /** On the canonical range the reported percentage is within half a
      hundredth plus one raw step of the clamped request. */
  lemma CanonicalSetVolPct(e: Element, pct: real)
    requires e.Canonical()
    ensures 0.0 <= SetVolPct(e, pct).pct <= 1.0
    ensures -(0.005 + 1.0 / (MaximumVolume - MinimalVolume) as real) <= SetVolPct(e, pct).pct - TrimPct(pct) <= 0.005
  {
    SetVolPctTracksRequest(e, pct);
  }

  /** Raise the volume by a delta that is itself clamped into [0, 1]; the sum
      is clamped again by `SetVolPct`. */
  function IncVolPct(e: Element, delta: real): (r: Reply)
    requires e.min != e.max
    ensures r.elem == e.(cur := r.elem.cur)
    ensures e.min < e.max ==> r.elem.InRange()
    ensures r.pct == GetCurVolPct(r.elem)
  {
    SetVolPct(e, GetCurVolPct(e) + TrimPct(delta))
  }

  /** Lower the volume by a delta that is itself clamped into [0, 1]; the
      difference is clamped again by `SetVolPct`. */
  function DecVolPct(e: Element, delta: real): (r: Reply)
    requires e.min != e.max
    ensures r.elem == e.(cur := r.elem.cur)
    ensures e.min < e.max ==> r.elem.InRange()
    ensures r.pct == GetCurVolPct(r.elem)
  {
    SetVolPct(e, GetCurVolPct(e) - TrimPct(delta))
  }

  /** With a zero minimum, increasing reports the clamped sum of the current
      percentage and the clamped delta, up to the rounding to hundredths and
      one raw step: raising 0.5 by 0.1 reports about 0.6. */
  lemma IncVolPctTracks(e: Element, delta: real)
    requires e.min == 0 < e.max
    ensures 0.0 <= IncVolPct(e, delta).pct <= 1.0
    ensures -(0.005 + 1.0 / e.Span() as real)
         <= IncVolPct(e, delta).pct - TrimPct(GetCurVolPct(e) + TrimPct(delta))
         <= 0.005
  {
    SetVolPctTracksRequest(e, GetCurVolPct(e) + TrimPct(delta));
  }

  /** With a zero minimum, decreasing reports the clamped difference of the
      current percentage and the clamped delta, up to the rounding to
      hundredths and one raw step. */
  lemma DecVolPctTracks(e: Element, delta: real)
    requires e.min == 0 < e.max
    ensures 0.0 <= DecVolPct(e, delta).pct <= 1.0
    ensures -(0.005 + 1.0 / e.Span() as real)
         <= DecVolPct(e, delta).pct - TrimPct(GetCurVolPct(e) - TrimPct(delta))
         <= 0.005
  {
    SetVolPctTracksRequest(e, GetCurVolPct(e) - TrimPct(delta));
  }

  /** A delta outside [0, 1] acts exactly as its clamped value: above 1 as 1,
      below 0 as 0. */
  lemma DeltaIsClamped(e: Element, delta: real)
    requires e.min != e.max
    ensures 1.0 < delta ==> IncVolPct(e, delta) == IncVolPct(e, 1.0) && DecVolPct(e, delta) == DecVolPct(e, 1.0)
    ensures delta < 0.0 ==> IncVolPct(e, delta) == IncVolPct(e, 0.0) && DecVolPct(e, delta) == DecVolPct(e, 0.0)
  {
  }

  /** `s * q >= c` when `q >= c / s` and `s > 0`. */
  lemma ScaleUp(q: real, c: real, s: real)
    requires 0.0 < s
    requires c / s <= q
    ensures c <= q * s
  {
    assert c / s * s == c;
  }

  /** `q * s < c` when `q < c / s` and `s > 0`. */
  lemma ScaleDown(q: real, c: real, s: real)
    requires 0.0 < s
    requires q < c / s
    ensures q * s < c
  {
    assert c / s * s == c;
  }

  /** With a zero minimum, an increase by at least half a hundredth never
      lowers the raw volume: it outweighs the rounding of the current
      percentage to hundredths. `SmallIncreaseCanLower` shows that a
      smaller increase can. */
  lemma IncNeverLowers(e: Element, delta: real)
    requires e.min == 0 < e.max && e.InRange()
    requires 0.005 <= delta
    ensures e.cur <= IncVolPct(e, delta).elem.cur
  {
    var target := GetCurVolPct(e) + TrimPct(delta);
    var t := TrimPct(target);
    RatioInUnit(e);
    assert Ratio(e) <= t;
    ScaleUp(t, e.cur as real, e.Span() as real);
    assert RawTarget(e, target) as real + 1.0 > e.cur as real;
  }

  /** With a zero minimum, a decrease by at least one hundredth never raises
      the raw volume, and strictly lowers it unless it is already at the
      minimum. */
  lemma DecLowers(e: Element, delta: real)
    requires e.min == 0 < e.max && e.InRange()
    requires 0.01 <= delta
    ensures DecVolPct(e, delta).elem.cur <= e.cur
    ensures e.min < e.cur ==> DecVolPct(e, delta).elem.cur < e.cur
  {
    var target := GetCurVolPct(e) - TrimPct(delta);
    var t := TrimPct(target);
    if target < 0.0 {
      assert RawTarget(e, target) == e.min;
    } else {
      assert t < Ratio(e);
      ScaleDown(t, e.cur as real, e.Span() as real);
    }
  }

  /** With a zero minimum, decreasing by at least the current percentage
      lands exactly on the minimum and reports 0. */
  lemma DecPastZeroMutes(e: Element, delta: real)
    requires e.min == 0 < e.max && e.InRange()
    requires GetCurVolPct(e) <= delta
    ensures DecVolPct(e, delta).elem.cur == e.min
    ensures DecVolPct(e, delta).pct == 0.0
  {
    var target := GetCurVolPct(e) - TrimPct(delta);
    assert target <= 0.0;
    IntegersAreFixed(0);
  }

  /** An increase by less than half a hundredth can lower the volume: the
      current percentage is rounded to the nearest hundredth before the delta
      is added, and here that is downwards. */
  lemma SmallIncreaseCanLower()
    ensures var e := Element(0, 65535, 33030, None);
      IncVolPct(e, 0.0).elem.cur == 32767 < e.cur
  {
    var e := Element(0, 65535, 33030, None);
    assert 50.0 <= Ratio(e) * 100.0 + 0.5 < 51.0;
    assert GetCurVolPct(e) == 0.5;
    assert 0.5 * 65535.0 == 32767.5;
  }

  /** Save the current raw value and set the volume to 0 percent. */
  function Mute(e: Element): (r: Reply)
    requires e.min != e.max
    ensures r.elem == e.(cur := e.min, muteVol := Some(e.cur))
    ensures e.min == 0 ==> r.pct == 0.0
  {
    IntegersAreFixed(0);
    SetVolPct(e.(muteVol := Some(e.cur)), 0.0)
  }

  /** Write the saved raw value back and report the re-read percentage. The
      C code reads an uninitialised value when nothing was saved, so a
      previous mute is required. */
  function Unmute(e: Element): (r: Reply)
    requires e.min != e.max
    requires e.muteVol.Some?
    ensures r.elem == e.(cur := e.muteVol.value)
    ensures r.pct == GetCurVolPct(r.elem)
  {
    var restored := e.(cur := e.muteVol.value);
    Reply(restored, GetCurVolPct(restored))
  }

  /** Unmuting right after a mute restores the raw value and the percentage
      that were current before the mute. */
  lemma MuteThenUnmuteRestores(e: Element)
    requires e.min != e.max
    ensures Unmute(Mute(e).elem).elem == e.(muteVol := Some(e.cur))
    ensures Unmute(Mute(e).elem).pct == GetCurVolPct(e)
  {
  }

  /** The percentage divides the raw value by the span, not its offset from
      the minimum: on a range that does not start at 0 a muted element
      reports a non-zero percentage, and a full one more than 1. */
  lemma OffsetRangeSkewsPercentage()
    ensures Mute(Element(10, 20, 15, None)).pct == 1.0
    ensures GetCurVolPct(Element(10, 20, 20, None)) == 2.0
  {
    var muted := Element(10, 20, 10, Some(15));
    assert Ratio(muted) * 100.0 == 100.0;
    IntegersAreFixed(100);
    assert Ratio(Element(10, 20, 20, None)) * 100.0 == 200.0;
    IntegersAreFixed(200);
  }
}
