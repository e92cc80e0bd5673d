# alsaplusplus mixer — Dafny model

A model of the logic inside the `Mixer` class of alsaplusplus, a C++ wrapper
around the ALSA simple-mixer API. The ALSA calls are replaced by an abstract
element record `Element(min, max, cur, muteVol)`:

- `get_vol_range` is a read of `min`/`max`;
- `get_cur_vol_raw` is a read of `cur` (one value stands for every channel);
- `set_vol_raw` is a write of `cur`;
- `mute_vol` is `muteVol: Option<int>`, `None` until the first mute.

Percentages are mathematical reals rather than `float`. The `(long)` cast in
`set_vol_pct` is modelled exactly as truncation toward zero (`CNumeric.Trunc`).
The C `round` in `get_cur_vol_pct` is modelled exactly as rounding half away
from zero (`CNumeric.Round`). Neither needs a sign assumption. Operations that
change the element return a `Reply(elem, pct)`: the new element state and the
reported value.

The enumerated-item selection (`get_enum_item_index`, `set_enum_item`) is a
pure matcher over the element's item names. Each name is a NUL-free string,
or `None` where the name lookup failed. `MatchItem` returns the first
matching index and how many characters it covers. `AssignFrom` and
`SetEnumItem` drive it over the input and produce the channel writes in
order. `SetEnumItemLoop` is the same loop written imperatively with a cursor,
and is proved to perform the same writes.

Modules: `Wrappers` (Option), `CNumeric` (the two C conversions),
`MixerVolume` (volume arithmetic, mute/unmute), `MixerEnum` (enum items).

Three behaviours of the code are worth stating up front:

- Abbreviated tokens are not accepted. `set_enum_item("Line,Mic")` on the
  items `{"Line In", "Microphone", "CD"}` fails, because the code asks
  whether the item NAME is a prefix of the input (src/mixer.cpp:213), not
  whether the token is a prefix of the name. `MixerEnum.AbbreviationFails`
  proves this.
- A token may be followed only by the end of input, `','` or `'\n'`
  (src/mixer.cpp:214). A space directly after a name is not accepted, and
  separators are skipped only after a successful match.
- `get_cur_vol_pct` divides the raw value by `max - min`, not `cur - min` by
  it. It is therefore the true fraction only when `min = 0`. For volume
  elements (`not_volume` false, the default at
  include/alsaplusplus/mixer.hpp:16) the constructor makes this so by fixing
  the range to `0..65535` (src/mixer.cpp:37-39). An element opened with
  `not_volume` true keeps its native range. The fraction properties take
  `min = 0` as a hypothesis, and `MixerVolume.OffsetRangeSkewsPercentage`
  shows the result for other ranges.

## Model

| member | source | states |
|---|---|---|
| CNumeric.Trunc | src/mixer.cpp:138 | the `(long)` cast gives the integer toward zero: for a non-negative value the largest integer not above it, for a negative value the smallest integer not below it |
| CNumeric.Round | src/mixer.cpp:147 | `round` gives an integer within one half of its argument, ties going away from zero |
| MixerVolume.TrimPct | src/mixer.cpp:162-166 | the result always lies in [0, 1]; values already in [0, 1] are unchanged; negatives become 0 and values above 1 become 1 |
| MixerVolume.TrimPctIdempotent | src/mixer.cpp:162-166 | clamping an already clamped percentage changes nothing |
| MixerVolume.RawTarget | src/mixer.cpp:132-138 | the raw value written for a request lies in [min, max]; a request of 0 or below writes exactly min and one of 1 or above writes exactly max; for min >= 0 it is the largest integer not above min + trim(pct) * (max - min) |
| MixerVolume.GetCurVolPct | src/mixer.cpp:142-148 | the reported percentage is a whole number of hundredths, within 0.005 of cur / (max - min), and in [0, 1] when min = 0 and cur is in range |
| MixerVolume.SetVolPct | src/mixer.cpp:132-140 | only the raw value changes; it ends inside the range, at min for a request of 0 or below and at max for one of 1 or above; the value written is the truncation of min + trim(pct) * (max - min) that `MixerVolume.RawTarget` characterises; the result is the percentage re-read after the write, not the request |
| MixerVolume.SetVolPctTracksRequest | src/mixer.cpp:132-148 | with min = 0 the reported percentage lies in [0, 1] and is at most 0.005 above and at most 0.005 + 1/(max - min) below the clamped request |
| MixerVolume.CanonicalSetVolPct | src/mixer.cpp:5-6 | on the range 0..65535 that construction fixes for volume elements, the reported percentage is within [trim(pct) - 0.005 - 1/65535, trim(pct) + 0.005] and inside [0, 1] |
| MixerVolume.IncVolPct | src/mixer.cpp:125-130 | increasing changes only the raw value, never takes it above max or below min, and reports the re-read percentage |
| MixerVolume.DecVolPct | src/mixer.cpp:118-123 | decreasing changes only the raw value, never takes it below min or above max, and reports the re-read percentage |
| MixerVolume.DeltaIsClamped | src/mixer.cpp:118-130 | a delta above 1 acts exactly as 1 and a negative delta acts exactly as 0, for both increase and decrease |
| MixerVolume.IncNeverLowers | src/mixer.cpp:125-130 | with min = 0 and an in-range value, an increase by at least 0.005 never lowers the raw volume (a smaller one can, see `MixerVolume.SmallIncreaseCanLower`) |
| MixerVolume.IncVolPctTracks | src/mixer.cpp:125-148 | with min = 0, the percentage an increase reports lies in [0, 1] and within [-(0.005 + 1/(max - min)), +0.005] of trim(current + trim(delta)): raising 0.5 by 0.1 reports about 0.6 |
| MixerVolume.DecVolPctTracks | src/mixer.cpp:118-148 | with min = 0, the percentage a decrease reports lies in [0, 1] and within [-(0.005 + 1/(max - min)), +0.005] of trim(current - trim(delta)) |
| MixerVolume.DecLowers | src/mixer.cpp:118-123 | with min = 0 and an in-range value, a decrease by at least 0.01 never raises the raw volume and strictly lowers it unless it is already at min |
| MixerVolume.DecPastZeroMutes | src/mixer.cpp:118-123 | with min = 0, decreasing by at least the current percentage sets the raw value to min and reports 0 |
| MixerVolume.SmallIncreaseCanLower | src/mixer.cpp:125-148 | an increase by 0 from raw 33030 on the range 0..65535 writes 32767, because the current percentage is rounded to hundredths first |
| MixerVolume.Mute | src/mixer.cpp:150-154 | muting saves the raw value current before the call, sets the raw value to min and changes nothing else; with min = 0 it reports 0 |
| MixerVolume.Unmute | src/mixer.cpp:156-160 | unmuting writes back exactly the saved raw value, changes nothing else and reports the re-read percentage; it requires a previous mute |
| MixerVolume.MuteThenUnmuteRestores | src/mixer.cpp:150-160 | unmute right after mute restores the raw value and the reported percentage from before the mute |
| MixerVolume.OffsetRangeSkewsPercentage | src/mixer.cpp:147 | on the range 10..20 a muted element reports 1.0 and a full one reports 2.0, because the raw value is divided by the span without subtracting min |
| MixerEnum.MatchFrom | src/mixer.cpp:208-221 | the scan from index i returns the first index at or after i whose name matches, advancing by that name's length; it returns nothing when none from i matches |
| MixerEnum.MatchItem | src/mixer.cpp:196-222 | the lookup returns the smallest index whose name is a prefix of the input and is followed by end of input, ',' or '\n'; the cursor advances by exactly that name's length; it returns nothing (-1, cursor unchanged) exactly when no name matches, including for an empty list |
| MixerEnum.SeparatorRun | src/mixer.cpp:235-237 | counts the leading commas and C-locale white-space characters, stopping at the first other character or the end |
| MixerEnum.Advance | src/mixer.cpp:215-237 | after a match the cursor moves past the name and the separators that follow it, and always moves strictly forward, even for an empty name |
| MixerEnum.AssignFrom | src/mixer.cpp:227-238 | every turn consumes at least one character, so the loop makes at most one write per input character, and an exhausted input (end or NUL) writes nothing |
| MixerEnum.AssignFromWrites | src/mixer.cpp:227-238 | the loop writes consecutive channels starting at the given one, and each write names an existing item whose name lookup succeeded |
| MixerEnum.SetEnumItem | src/mixer.cpp:223-239 | the k-th matched token goes to channel k from 0, every written item exists, and an empty input assigns nothing; which item each write selects is stated by `MixerEnum.SetEnumItemFollowsCursors` |
| MixerEnum.Cursors | src/mixer.cpp:227-237 | the positions the loop's cursor takes: the first is 0, each next one lies past the previous token's matched name and the run of separators after it, every earlier one holds a matched token, and the last is where the input is used up or the token matches nothing |
| MixerEnum.AssignFromFollowsCursors | src/mixer.cpp:227-238 | from any position and channel, write k goes to channel + k with the item matched at cursor k, there is one write per cursor but the last, and the call fails exactly when the last cursor still holds a token |
| MixerEnum.SetEnumItemFollowsCursors | src/mixer.cpp:223-239 | for every name list and input, write k goes to channel k and selects the FIRST item whose name matches at cursor k; the call fails exactly when the last cursor holds a token that matches no item, and succeeds exactly when the input is used up there |
| MixerEnum.SkipSeparators | src/mixer.cpp:236-237 | the inner loop stops exactly past the run of separators at the cursor |
| MixerEnum.SetEnumItemLoop | src/mixer.cpp:223-239 | the imperative loop, whose cursor is the unread suffix of the input, performs exactly the writes of the functional driver, to channels 0, 1, 2, ... in order, stopping at the first token with no match |
| MixerEnum.SpaceAfterNameFails | src/mixer.cpp:214 | with items "Line" and "Mic", the input "Line Mic" matches nothing, because a space may not follow a name |
| MixerEnum.AbbreviationFails | src/mixer.cpp:213 | with items "Line In", "Microphone", "CD", the input "Line,Mic" fails at its first token without writing anything |
| MixerEnum.FullNamesAssignInOrder | src/mixer.cpp:223-239 | with the same items, "Microphone, CD" sets channel 0 to item 1 and channel 1 to item 2 |
| MixerEnum.EarlierWritesSurviveFailure | src/mixer.cpp:228-233 | with the same items, "CD,Mic" writes channel 0 and then fails at "Mic"; the earlier write has already been made |
| MixerEnum.LeadingSpaceIsNotSkipped | src/mixer.cpp:236-237 | input starting with a space matches nothing unless some item name starts with a space, because separators are skipped only after a match |

## Left out

- The constructor and destructor (src/mixer.cpp:8-46), `device_exists` and `element_exists` (src/mixer.cpp:48-115). They are ordered ALSA open/attach/register/load/find/close calls with no logic of their own. Their error behaviour depends on `handle_error_code` from `common.hpp`, which is not part of this model. The range they fix (0..65535) appears as `MixerVolume.Element.Canonical`.
- All `snd_mixer_*` calls. They become reads and writes of the element record or of the name list. Failures of the range read, the raw read and the raw write are non-fatal in the source and leave values unspecified, so they are not modelled.
- The failure of `snd_mixer_selem_set_enum_item` itself (src/mixer.cpp:232-233). Whether a channel write is rejected is decided by the driver. The model lists the writes in order and fails only when a token has no match.
- The stale `err` code passed on the enum-item failure paths (src/mixer.cpp:230, 233). Failure is `NoSuchItem` without a code. The model assumes the fatal error handler aborts the call.
- IEEE `float` rounding, precision, infinities and NaN. Percentages are reals, so `min = max` (a division by zero) is excluded by a precondition rather than modelled as infinity or NaN.
- Channels. `set_vol_raw` writes all channels and the reads default to MONO, so the `channel` argument of `get_cur_vol_pct`, `inc_vol_pct` and `dec_vol_pct` is dropped and one `cur` stands for all channels.
- The 63-character limit on item names (src/mixer.cpp:202, 209). Names are taken as the subsystem delivers them. The kernel already bounds their length.
- The `unsigned int` channel counter and its cast to a channel id (src/mixer.cpp:225, 232). Channels are unbounded naturals.
- examples/set_volume.cpp. It is command-line parsing only, and it calls overloads that the header does not declare.
- MixerVolume.Unmute: requires a previous mute. The source reads an uninitialised `long` (include/alsaplusplus/mixer.hpp:36) when there was none.
- MixerVolume.GetCurVolPct: requires `min != max`. The source divides by `max - min` without checking it.
