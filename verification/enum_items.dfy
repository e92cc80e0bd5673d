/** Selection of enumerated items by name: a prefix matcher over the
    element's item names and the tokenising loop that assigns the matched
    items to channels 0, 1, 2, ... in input order. */
module MixerEnum {
  import opened Wrappers

  /** A C string as the control subsystem hands it out: no NUL inside. */
  type CName = s: string | '\0' !in s

  /** The element's item names in index order; `None` where looking a name
      up failed. A negative item count behaves as an empty list. */
  type ItemNames = seq<Option<CName>>

  /** A successful lookup: the item index and how many input characters the
      matching name covers. */
  datatype Match = Match(index: nat, consumed: nat)

  /** One channel write of `snd_mixer_selem_set_enum_item`. */
  datatype Assignment = Assignment(channel: nat, item: nat)

  /** Outcome of a whole item specification: either every token matched, or
      a token matched no item; both carry the writes already performed, in
      order. */
  datatype EnumOutcome = Assigned(writes: seq<Assignment>) | NoSuchItem(writes: seq<Assignment>)

  /** Characters that may follow a matched name: the string's end (NUL),
      a comma or a newline. */
  predicate IsTerminator(c: char)
  {
    c == '\0' || c == ',' || c == '\n'
  }

  /** `isspace` in the C locale: space, tab, newline, vertical tab, form feed
      and carriage return. */
  predicate IsSpace(c: char)
  {
    c == ' ' || ('\t' <= c <= '\r')
  }

  /** Characters skipped between tokens. */
  predicate IsSeparator(c: char)
  {
    c == ',' || IsSpace(c)
  }

  /** The input ends at position `k` or carries a terminator there. */
  predicate EndsTokenAt(rest: string, k: nat)
    requires k <= |rest|
  {
    k == |rest| || IsTerminator(rest[k])
  }

  /** Item `i` has a name, that name starts `rest`, and it is followed by the
      end of the input, a comma or a newline. */
  predicate Matches(names: ItemNames, rest: string, i: int)
  {
    && 0 <= i < |names|
    && names[i].Some?
    && names[i].value <= rest
    && EndsTokenAt(rest, |names[i].value|)
  }

  /** Item `i` matches `rest` and no item before it does. */
  predicate IsFirstMatch(names: ItemNames, rest: string, i: int)
  {
    Matches(names, rest, i) && forall j :: 0 <= j < i ==> !Matches(names, rest, j)
  }

  /** No item matches `rest`. */
  predicate NoMatch(names: ItemNames, rest: string)
  {
    forall j :: 0 <= j < |names| ==> !Matches(names, rest, j)
  }

  /** The first item at or after `i` that matches `rest`. */
  function MatchFrom(names: ItemNames, rest: string, i: nat): (r: Option<Match>)
    requires i <= |names|
    ensures r.Some? ==>
      && i <= r.value.index
      && Matches(names, rest, r.value.index)
      && r.value.consumed == |names[r.value.index].value|
      && (forall j :: i <= j < r.value.index ==> !Matches(names, rest, j))
    ensures r.None? ==> forall j :: i <= j < |names| ==> !Matches(names, rest, j)
    decreases |names| - i
  {
    if i == |names| then None
    else if Matches(names, rest, i) then Some(Match(i, |names[i].value|))
    else MatchFrom(names, rest, i + 1)
  }

  /** Look up the token at the start of `rest`: the smallest index whose name
      matches, with the number of characters to advance by; `None` (the C
      code's -1, cursor untouched) when no name matches. */
  function MatchItem(names: ItemNames, rest: string): (r: Option<Match>)
    ensures r.Some? ==> IsFirstMatch(names, rest, r.value.index)
    ensures r.Some? ==> r.value.consumed == |names[r.value.index].value| <= |rest|
    ensures r.None? ==> NoMatch(names, rest)
  {
    MatchFrom(names, rest, 0)
  }

  /** Length of the run of separators at the start of `s`. */
  function SeparatorRun(s: string): (k: nat)
    ensures k <= |s|
    ensures forall j :: 0 <= j < k ==> IsSeparator(s[j])
    ensures k == |s| || !IsSeparator(s[k])
  {
    if s != [] && IsSeparator(s[0]) then 1 + SeparatorRun(s[1..]) else 0
  }

  /** The input still holds a token: it is neither exhausted nor at a NUL. */
  predicate HasToken(rest: string)
  {
    rest != [] && rest[0] != '\0'
  }

  /** Where the cursor moves after a match of `m` at the start of `rest`:
      past the name and the separators after it. Always strictly forward. */
  function Advance(rest: string, m: Match): (after: string)
    requires HasToken(rest)
    requires m.consumed <= |rest| && EndsTokenAt(rest, m.consumed)
    ensures |after| < |rest|
  {
    var tail := rest[m.consumed..];
    var skip := SeparatorRun(tail);
    assert m.consumed == 0 ==> IsSeparator(rest[0]);
    rest[m.consumed + skip..]
  }

  /** Prefix already-performed writes to an outcome. */
  function Prepend(ws: seq<Assignment>, o: EnumOutcome): EnumOutcome
  {
    match o
    case Assigned(more) => Assigned(ws + more)
    case NoSuchItem(more) => NoSuchItem(ws + more)
  }

  /** The writes go to consecutive channels starting at `channel`. */
  predicate ChannelsFrom(ws: seq<Assignment>, channel: nat)
  {
    forall k :: 0 <= k < |ws| ==> ws[k].channel == channel + k
  }

  /** Every write selects an item that exists and has a name. */
  predicate NamedItems(names: ItemNames, ws: seq<Assignment>)
  {
    forall k :: 0 <= k < |ws| ==> ws[k].item < |names| && names[ws[k].item].Some?
  }

  /** The tokenising loop from channel `channel` on. Every turn consumes
      at least one character, so it makes at most one write per character. */
  function AssignFrom(names: ItemNames, rest: string, channel: nat): (r: EnumOutcome)
    ensures |r.writes| <= |rest|
    ensures !HasToken(rest) ==> r == Assigned([])
    decreases |rest|
  {
    if !HasToken(rest) then Assigned([])
    else match MatchItem(names, rest)
      case None => NoSuchItem([])
      case Some(m) =>
        Prepend([Assignment(channel, m.index)], AssignFrom(names, Advance(rest, m), channel + 1))
  }

  /** A write for `channel` in front of writes from `channel + 1` keeps the
      channels consecutive and the items named. */
  lemma ConsWrite(names: ItemNames, a: Assignment, ws: seq<Assignment>, channel: nat)
    requires a.channel == channel && a.item < |names| && names[a.item].Some?
    requires ChannelsFrom(ws, channel + 1) && NamedItems(names, ws)
    ensures ChannelsFrom([a] + ws, channel) && NamedItems(names, [a] + ws)
  {
    assert forall k :: 1 <= k < |[a] + ws| ==> ([a] + ws)[k] == ws[k - 1];
  }

  /** The loop writes consecutive channels from `channel` on, each naming an
      existing item that has a name. */
  lemma {:induction false} AssignFromWrites(names: ItemNames, rest: string, channel: nat)
    ensures ChannelsFrom(AssignFrom(names, rest, channel).writes, channel)
    ensures NamedItems(names, AssignFrom(names, rest, channel).writes)
    decreases |rest|
  {
    if HasToken(rest) {
      var m := MatchItem(names, rest);
      if m.Some? {
        var after := Advance(rest, m.value);
        var a := Assignment(channel, m.value.index);
        AssignFromWrites(names, after, channel + 1);
        ConsWrite(names, a, AssignFrom(names, after, channel + 1).writes, channel);
      }
    }
  }

  /** `set_enum_item`: assign the k-th token of `spec` to channel k. */
  function SetEnumItem(names: ItemNames, spec: string): (r: EnumOutcome)
    ensures |r.writes| <= |spec|
    ensures ChannelsFrom(r.writes, 0)
    ensures NamedItems(names, r.writes)
    ensures spec == [] ==> r == Assigned([])
  {
    AssignFromWrites(names, spec, 0);
    AssignFrom(names, spec, 0)
  }

  /** The loop stops at position `p` of the input: the input is exhausted
      there, or the token there matches no item. */
  predicate StopsAt(names: ItemNames, spec: string, p: nat)
    requires p <= |spec|
  {
    !HasToken(spec[p..]) || MatchItem(names, spec[p..]).None?
  }

  /** Where the cursor goes after the token matched at position `p`: past
      the matched name and the run of separators after it. */
  function NextCursor(names: ItemNames, spec: string, p: nat): (q: nat)
    requires p <= |spec| && !StopsAt(names, spec, p)
    ensures p < q <= |spec|
  {
    var c := MatchItem(names, spec[p..]).value.consumed;
    assert spec[p..][c..] == spec[p + c..];
    assert c == 0 ==> IsSeparator(spec[p + c]);
    p + c + SeparatorRun(spec[p + c..])
  }

  /** The positions the loop's cursor takes from `p` on: one per matched
      token, then the position where the loop stops. */
  function Cursors(names: ItemNames, spec: string, p: nat): (cs: seq<nat>)
    requires p <= |spec|
    ensures 0 < |cs| && cs[0] == p
    ensures forall k :: 0 <= k < |cs| ==> p <= cs[k] <= |spec|
    ensures forall k :: 0 <= k < |cs| - 1 ==>
      !StopsAt(names, spec, cs[k]) && cs[k + 1] == NextCursor(names, spec, cs[k])
    ensures StopsAt(names, spec, cs[|cs| - 1])
    decreases |spec| - p
  {
    if StopsAt(names, spec, p) then [p]
    else [p] + Cursors(names, spec, NextCursor(names, spec, p))
  }

  /** The suffix after the cursor's next position is what `Advance` leaves. */
  lemma NextCursorAdvances(names: ItemNames, spec: string, p: nat)
    requires p <= |spec| && !StopsAt(names, spec, p)
    ensures spec[NextCursor(names, spec, p)..] == Advance(spec[p..], MatchItem(names, spec[p..]).value)
  {
    var rest := spec[p..];
    var c := MatchItem(names, rest).value.consumed;
    assert rest[c..] == spec[p + c..];
    var skip := SeparatorRun(spec[p + c..]);
    assert rest[c + skip..] == spec[p + c + skip..];
  }

  /** Write k goes to channel `channel + k` and selects the item matched at
      cursor k. */
  predicate WritesAtCursors(names: ItemNames, spec: string, ws: seq<Assignment>, cs: seq<nat>, channel: nat)
  {
    && |ws| < |cs|
    && forall k :: 0 <= k < |ws| ==>
         && cs[k] <= |spec|
         && MatchItem(names, spec[cs[k]..]).Some?
         && ws[k] == Assignment(channel + k, MatchItem(names, spec[cs[k]..]).value.index)
  }

  /** A write for the token at `p` in front of writes at later cursors. */
  lemma ConsCursor(names: ItemNames, spec: string, a: Assignment, ws: seq<Assignment>,
                   p: nat, cs: seq<nat>, channel: nat)
    requires p <= |spec| && MatchItem(names, spec[p..]).Some?
    requires a == Assignment(channel, MatchItem(names, spec[p..]).value.index)
    requires WritesAtCursors(names, spec, ws, cs, channel + 1)
    ensures WritesAtCursors(names, spec, [a] + ws, [p] + cs, channel)
  {
    forall k | 1 <= k < |[a] + ws|
      ensures ([a] + ws)[k] == ws[k - 1] && ([p] + cs)[k] == cs[k - 1]
    {
    }
  }

  /** One turn of the loop in cursor terms. */
  lemma AssignFromAtCursor(names: ItemNames, spec: string, p: nat, channel: nat)
    requires p <= |spec| && !StopsAt(names, spec, p)
    ensures var q := NextCursor(names, spec, p);
            var r := AssignFrom(names, spec[p..], channel);
            var inner := AssignFrom(names, spec[q..], channel + 1);
            && r.writes == [Assignment(channel, MatchItem(names, spec[p..]).value.index)] + inner.writes
            && r.NoSuchItem? == inner.NoSuchItem?
            && Cursors(names, spec, p) == [p] + Cursors(names, spec, q)
  {
    NextCursorAdvances(names, spec, p);
  }

  /** The loop from position `p` and channel `channel`: the k-th write goes
      to channel `channel + k` with the item matched at the k-th cursor, and
      the call fails exactly when the last cursor still holds a token. */
  lemma {:induction false} AssignFromFollowsCursors(names: ItemNames, spec: string, p: nat, channel: nat)
    requires p <= |spec|
    ensures var r := AssignFrom(names, spec[p..], channel);
            var cs := Cursors(names, spec, p);
            && |r.writes| == |cs| - 1
            && WritesAtCursors(names, spec, r.writes, cs, channel)
            && (r.NoSuchItem? <==> HasToken(spec[cs[|cs| - 1]..]))
    decreases |spec| - p
  {
    if !StopsAt(names, spec, p) {
      var q := NextCursor(names, spec, p);
      AssignFromFollowsCursors(names, spec, q, channel + 1);
      AssignFromAtCursor(names, spec, p, channel);
      ConsCursor(names, spec, Assignment(channel, MatchItem(names, spec[p..]).value.index),
                 AssignFrom(names, spec[q..], channel + 1).writes, p, Cursors(names, spec, q), channel);
    }
  }

  /** What `set_enum_item` does, token by token. With `cs` the cursor
      positions of the loop, write k goes to channel k and selects the first
      item matching the input at `cs[k]`; the call fails exactly when the
      last cursor still holds a token, which then matches no item, and it
      succeeds exactly when the input is used up there. */
  lemma SetEnumItemFollowsCursors(names: ItemNames, spec: string)
    ensures var r := SetEnumItem(names, spec);
            var cs := Cursors(names, spec, 0);
            var last := spec[cs[|cs| - 1]..];
            && |r.writes| == |cs| - 1
            && (forall k :: 0 <= k < |r.writes| ==>
                  r.writes[k].channel == k && IsFirstMatch(names, spec[cs[k]..], r.writes[k].item))
            && (r.NoSuchItem? <==> HasToken(last) && NoMatch(names, last))
            && (r.Assigned? <==> !HasToken(last))
  {
    AssignFromFollowsCursors(names, spec, 0, 0);
    assert spec[0..] == spec;
  }

  /** One turn of the tokenising loop: a matched token becomes the next
      channel's write, followed by the writes for the input after it. */
  lemma AssignStep(names: ItemNames, rest: string, channel: nat, m: Match)
    requires HasToken(rest)
    requires MatchItem(names, rest) == Some(m)
    ensures AssignFrom(names, rest, channel)
         == Prepend([Assignment(channel, m.index)], AssignFrom(names, Advance(rest, m), channel + 1))
  {
  }

  /** Writes performed in two batches are the writes of the concatenation. */
  lemma PrependTwice(ws: seq<Assignment>, more: seq<Assignment>, o: EnumOutcome)
    ensures Prepend(ws, Prepend(more, o)) == Prepend(ws + more, o)
  {
    assert ws + (more + o.writes) == (ws + more) + o.writes;
  }

  /** The separator-skipping inner loop: the first position at or after
      `pos` that is past the end or holds no separator. */
  method SkipSeparators(spec: string, pos: nat) returns (next: nat)
    requires pos <= |spec|
    ensures next == pos + SeparatorRun(spec[pos..])
  {
    next := pos;
    while next < |spec| && IsSeparator(spec[next])
      invariant pos <= next <= |spec|
      invariant next - pos + SeparatorRun(spec[next..]) == SeparatorRun(spec[pos..])
      decreases |spec| - next
    {
      assert spec[next..][1..] == spec[next + 1..];
      next := next + 1;
    }
  }

  /** The C loop itself. The cursor is the unread suffix of the input; each
      turn looks the token up, records the write for the next channel and
      moves past the name and the separators after it. It performs exactly
      the writes of `SetEnumItem` and stops at the first token with no
      match. */
  method SetEnumItemLoop(names: ItemNames, spec: string) returns (out: EnumOutcome)
    ensures out == SetEnumItem(names, spec)
    ensures ChannelsFrom(out.writes, 0)
  {
    var writes: seq<Assignment> := [];
    var rest := spec;
    while HasToken(rest)
      invariant AssignFrom(names, spec, 0) == Prepend(writes, AssignFrom(names, rest, |writes|))
      decreases |rest|
    {
      var m := MatchItem(names, rest);
      if m.None? {
        assert writes + [] == writes;
        return NoSuchItem(writes);
      }
      var a := Assignment(|writes|, m.value.index);
      var after := Advance(rest, m.value);
      AssignStep(names, rest, |writes|, m.value);
      PrependTwice(writes, [a], AssignFrom(names, after, |writes| + 1));
      writes := writes + [a];
      var next := SkipSeparators(rest, m.value.consumed);
      rest := rest[next..];
    }
    assert writes + [] == writes;
    out := Assigned(writes);
  }

  /** A name followed directly by a space does not match: only the end of
      the input, a comma or a newline may follow it. */
  lemma SpaceAfterNameFails()
    ensures SetEnumItem([Some("Line"), Some("Mic")], "Line Mic") == NoSuchItem([])
  {
    assert !Matches([Some("Line"), Some("Mic")], "Line Mic", 0);
    assert !Matches([Some("Line"), Some("Mic")], "Line Mic", 1);
  }

  /** The example item list used below. */
  function Sources(): ItemNames
  {
    [Some("Line In"), Some("Microphone"), Some("CD")]
  }

  /** Matching asks whether the item's name is a prefix of the input, not the
      other way round, so abbreviated tokens find nothing. */
  lemma AbbreviationFails()
    ensures SetEnumItem(Sources(), "Line,Mic") == NoSuchItem([])
  {
    var names := Sources();
    assert !Matches(names, "Line,Mic", 0);
    assert !Matches(names, "Line,Mic", 1);
    assert !Matches(names, "Line,Mic", 2);
  }

  /** A last token that is a full name is written and ends the loop. */
  lemma LastTokenAssigned(channel: nat)
    ensures AssignFrom(Sources(), "CD", channel) == Assigned([Assignment(channel, 2)])
  {
    var names := Sources();
    assert !Matches(names, "CD", 0);
    assert !Matches(names, "CD", 1);
    assert Matches(names, "CD", 2);
    AssignStep(names, "CD", channel, Match(2, 2));
    assert Advance("CD", Match(2, 2)) == [];
  }

  /** After "Microphone" the comma and the space are skipped. */
  lemma SkipAfterMicrophone()
    ensures Advance("Microphone, CD", Match(1, 10)) == "CD"
  {
    var spec := "Microphone, CD";
    assert spec[10..] == ", CD";
    assert SeparatorRun(", CD") == 2 by {
      assert ", CD"[1..] == " CD";
      assert " CD"[1..] == "CD";
    }
  }

  /** "Microphone" is found at index 1 and covers ten characters. */
  lemma MicrophoneFound()
    ensures MatchItem(Sources(), "Microphone, CD") == Some(Match(1, 10))
  {
    var names := Sources();
    var spec := "Microphone, CD";
    assert !Matches(names, spec, 0);
    assert Matches(names, spec, 1);
  }

  /** Full names separated by a comma and a space go to channels 0 and 1. */
  lemma FullNamesAssignInOrder()
    ensures SetEnumItem(Sources(), "Microphone, CD") == Assigned([Assignment(0, 1), Assignment(1, 2)])
  {
    MicrophoneFound();
    AssignStep(Sources(), "Microphone, CD", 0, Match(1, 10));
    SkipAfterMicrophone();
    LastTokenAssigned(1);
  }

  /** A token with no match stops the loop after the writes for the tokens
      before it have been performed. */
  lemma EarlierWritesSurviveFailure()
    ensures SetEnumItem(Sources(), "CD,Mic") == NoSuchItem([Assignment(0, 2)])
  {
    var names := Sources();
    var spec := "CD,Mic";
    assert !Matches(names, spec, 0);
    assert !Matches(names, spec, 1);
    assert Matches(names, spec, 2);
    assert spec[2..] == ",Mic";
    assert SeparatorRun(",Mic") == 1 by {
      assert ",Mic"[1..] == "Mic";
    }
    assert Advance(spec, Match(2, 2)) == "Mic";
    assert !Matches(names, "Mic", 0);
    assert !Matches(names, "Mic", 1);
    assert !Matches(names, "Mic", 2);
  }

  /** Separators are skipped only after a match: input that starts with a
      space matches nothing unless some item's name starts with a space. */
  lemma LeadingSpaceIsNotSkipped(names: ItemNames, rest: string)
    requires rest != [] && rest[0] == ' '
    requires forall i :: 0 <= i < |names| && names[i].Some? && names[i].value != [] ==> names[i].value[0] != ' '
    ensures MatchItem(names, rest) == None
  {
    forall j | 0 <= j < |names| && names[j].Some?
      ensures !Matches(names, rest, j)
    {
      var n := names[j].value;
      assert n != [] ==> n[0] != rest[0];
    }
  }
}
