/** The search for placeholders in the output buffer (WebResponses.cpp:389-470,
    AsyncAbstractResponse::_fillBufferAndProcessTemplates): what one pass does to the stream of
    buffer, cache and source, and when the search ends. */
module TemplateSearch {
  import opened Sequences
  import opened ArduinoString

  const PLACEHOLDER := '%'
  const NAME_LENGTH := 32

  /** The name handed to the template processor for the text between two '%'. */
  function ParamName(between: string): (name: string) {
    CString(between[..Min(NAME_LENGTH, |between|)])
  }

  /** The first '%' at or after a position, or the end of the text (memchr). */
  function Find(text: string, from: nat): (k: nat)
    requires from <= |text|
    ensures from <= k <= |text|
    ensures forall i :: from <= i < k ==> text[i] != PLACEHOLDER
    ensures k < |text| ==> text[k] == PLACEHOLDER
    decreases |text| - from
  {
    if from == |text| || text[from] == PLACEHOLDER then from else Find(text, from + 1)
  }

  /** Position stop closes a placeholder that opens at start. */
  ghost predicate Closes(stream: string, start: int, stop: int) {
    && 0 <= start < stop < |stream|
    && stream[start] == PLACEHOLDER && stream[stop] == PLACEHOLDER
    && forall i :: start < i < stop ==> stream[i] != PLACEHOLDER
  }

  /** The closing '%' is in the window, or close enough for an eager source to show it. */
  predicate Seen(eager: bool, len: nat, start: nat, e: int) {
    e < len || (eager && e <= start + NAME_LENGTH + 1)
  }

  /** What one pass of the search loop does to the stream (buffer, then cache, then
      unread source) when it has found a '%' at position start of a window that holds
      len characters and has room for room; next is where the search goes on.  A '%'
      is left alone only if its partner is out of sight. */
  ghost predicate Pass(callback: string -> string, eager: bool, room: nat, before: string, len: nat, start: nat,
                       after: string, next: nat) {
    || (after == before && next == start + 1
        && forall e: int :: Closes(before, start, e) ==> !Seen(eager, len, start, e))
    || exists e: int :: Closes(before, start, e) && Seen(true, len, start, e)
         && PassClosed(callback, room, before, len, start, e, ParamName(before[start + 1..e]), after, next)
  }

  ghost predicate PassClosed(callback: string -> string, room: nat, before: string, len: nat, start: nat, e: int,
                             name: string, after: string, next: nat)
    requires Closes(before, start, e)
  {
    if name != [] then
      after == before[..start] + Kept(callback(name), room, len, start, e) + before[e + 1..] && next == start
    else if e >= len then after == before[..Min(len, e)] + before[e + 1..] && next == start
    else if e == start + 1 then after == before[..start + 1] + before[e + 1..] && next == start + 1
    else after == before && next == start
  }

  /** Some of the value is written and then forgotten: it does not fit into the buffer,
      nothing follows the placeholder in the window, and the window is not full. */
  predicate Loses(value: string, room: nat, len: nat, start: int, e: int) {
    |value| > room - start && e + 1 >= len && len < room
  }

  /** What of a value reaches the stream. */
  function Kept(value: string, room: nat, len: nat, start: int, e: int): string {
    if Loses(value, room, len, start, e) && 0 <= start <= len
    then value[..len - start] + value[room - start..]
    else value
  }

  /** A replacement puts exactly the value in the place of the placeholder, unless it
      loses part of it. */
  lemma ReplacementConserves(value: string, room: nat, len: nat, start: int, e: int)
    requires 0 <= start < len <= room
    ensures Kept(value, room, len, start, e) == value <==> !Loses(value, room, len, start, e)
  {
    if Loses(value, room, len, start, e) {
      assert |Kept(value, room, len, start, e)| == |value| - (room - len);
    }
  }

  // ---------------------------------------------------------------- progress

  function Percents(text: string): nat {
    multiset(text)[PLACEHOLDER]
  }

  lemma PercentsJoin(left: string, right: string)
    ensures Percents(left + right) == Percents(left) + Percents(right)
  {
  }

  /** A stretch with two '%' gives way to text with fewer. */
  lemma FewerPercents(head: string, between: string, tail: string, put: string)
    requires Percents(put) <= 1
    ensures Percents(head + put + tail) < Percents(head + (['%'] + between + ['%']) + tail)
  {
    PercentsJoin(head + put, tail);
    PercentsJoin(head, put);
    PercentsJoin(head + (['%'] + between + ['%']), tail);
    PercentsJoin(head, ['%'] + between + ['%']);
    PercentsJoin(['%'] + between, ['%']);
    PercentsJoin(['%'], between);
  }

  lemma AroundPlaceholder(stream: string, start: nat, e: int)
    requires Closes(stream, start, e)
    ensures stream == stream[..start] + (['%'] + stream[start + 1..e] + ['%']) + stream[e + 1..]
  {
    assert stream[start..e + 1] == ['%'] + stream[start + 1..e] + ['%'];
    assert stream == stream[..start] + stream[start..e + 1] + stream[e + 1..];
  }

  /** Every value has at most so many '%', and no NUL. */
  ghost predicate Values(callback: string -> string, percents: nat) {
    forall name :: Percents(callback(name)) <= percents && '\0' !in callback(name)
  }

  lemma KeptHasNoMore(value: string, room: nat, len: nat, start: int, e: int)
    ensures Percents(Kept(value, room, len, start, e)) <= Percents(value)
    ensures '\0' !in value ==> '\0' !in Kept(value, room, len, start, e)
  {
    if Loses(value, room, len, start, e) && 0 <= start <= len {
      var a, b := value[..len - start], value[room - start..];
      assert value == a + value[len - start..room - start] + b;
      PercentsJoin(a + value[len - start..room - start], b);
      PercentsJoin(a, value[len - start..room - start]);
      PercentsJoin(a, b);
    }
  }

  lemma NulFreeCut(text: string, i: nat, j: nat, put: string)
    requires i <= j <= |text| && '\0' !in text && '\0' !in put
    ensures '\0' !in text[..i] + put + text[j..]
  {
  }

  lemma PassClosedMakesProgress(callback: string -> string, room: nat, before: string, len: nat, start: nat, e: int,
                                name: string, after: string, next: nat)
    requires Values(callback, 1) && '\0' !in before
    requires start < len <= room && len <= |before|
    requires Closes(before, start, e) && name == ParamName(before[start + 1..e])
    requires PassClosed(callback, room, before, len, start, e, name, after, next)
    ensures '\0' !in after && Percents(after) < Percents(before)
  {
    var head, between, tail := before[..start], before[start + 1..e], before[e + 1..];
    var put := ['%'];
    if between == [] {
      assert after == before[..start + 1] + tail;
      assert before[..start + 1] == head + put;
    } else {
      assert between[0] == before[start + 1] && name != [];
      put := Kept(callback(name), room, len, start, e);
      KeptHasNoMore(callback(name), room, len, start, e);
    }
    assert after == head + put + tail;
    AroundPlaceholder(before, start, e);
    FewerPercents(head, between, tail, put);
    NulFreeCut(before, start, e + 1, put);
  }

  /** With at most one '%' in every value, and without NUL, every pass either removes '%'
      characters from the stream or moves on. */
  lemma PassMakesProgress(callback: string -> string, eager: bool, room: nat, before: string, len: nat, start: nat,
                          after: string, next: nat)
    requires Values(callback, 1) && '\0' !in before
    requires start < len <= room && len <= |before|
    requires Pass(callback, eager, room, before, len, start, after, next)
    ensures '\0' !in after
    ensures Percents(after) < Percents(before) || (after == before && next == start + 1)
  {
    if !(after == before && next == start + 1) {
      var e: int :| Closes(before, start, e)
      && PassClosed(callback, room, before, len, start, e, ParamName(before[start + 1..e]), after, next);
      PassClosedMakesProgress(callback, room, before, len, start, e, ParamName(before[start + 1..e]), after, next);
    }
  }

  /** One pass over a placeholder changes nothing at all if and only if the name begins with a
      NUL and closes inside the window, or what is kept of the value is the placeholder itself. */
  lemma StallsExactly(callback: string -> string, eager: bool, room: nat, before: string, len: nat, start: nat,
                      e: int, after: string, next: nat)
    requires start < len <= room && len <= |before|
    requires Closes(before, start, e) && Seen(eager, len, start, e)
    requires Pass(callback, eager, room, before, len, start, after, next)
    ensures var name := ParamName(before[start + 1..e]);
      (after == before && next == start) <==>
      (if name == [] then start + 1 < e < len
       else Kept(callback(name), room, len, start, e) == before[start..e + 1])
  {
    var name := ParamName(before[start + 1..e]);
    assert forall f: int :: Closes(before, start, f) ==> f == e;
    assert PassClosed(callback, room, before, len, start, e, name, after, next);
    if name != [] {
      PutInPlace(before, start, e + 1, Kept(callback(name), room, len, start, e));
    }
  }

  /** Putting something in the place of a stretch changes nothing exactly if it is the stretch. */
  lemma PutInPlace(text: string, i: nat, j: nat, put: string)
    requires i <= j <= |text|
    ensures text[..i] + put + text[j..] == text <==> put == text[i..j]
  {
    assert text == text[..i] + text[i..j] + text[j..];
    if text[..i] + put + text[j..] == text {
      assert |put| == j - i;
      assert put == (text[..i] + put + text[j..])[i..j];
    }
  }

  // ---------------------------------------------------------------- the whole search

  /** The search stands at position start of a window of len characters. */
  datatype Search = Search(stream: string, len: nat, start: nat)

  /** One turn of the loop: a pass at a '%', and the search for the next one. */
  ghost predicate SearchStep(callback: string -> string, eager: bool, room: nat, s: Search, t: Search) {
    && s.start < s.len <= room && s.len <= |s.stream| && s.stream[s.start] == PLACEHOLDER
    && t.start <= t.len <= room && t.len <= |t.stream|
    && exists next: nat :: next <= t.start && Pass(callback, eager, room, s.stream, s.len, s.start, t.stream, next)
  }

  ghost predicate IsSearch(callback: string -> string, eager: bool, room: nat, states: seq<Search>) {
    && states != [] && states[0].start <= room
    && forall i :: 0 <= i < |states| - 1 ==> SearchStep(callback, eager, room, states[i], states[i + 1])
  }

  /** At most so many turns are left. */
  function TurnsLeft(room: nat, s: Search): (n: nat)
    requires s.start <= room
  {
    Percents(s.stream) * (room + 1) + (room - s.start)
  }

  lemma TurnCounts(callback: string -> string, eager: bool, room: nat, s: Search, t: Search)
    requires Values(callback, 1) && '\0' !in s.stream && SearchStep(callback, eager, room, s, t)
    ensures '\0' !in t.stream && TurnsLeft(room, t) < TurnsLeft(room, s)
  {
    hide Pass, Values;
    var next: nat :| next <= t.start && Pass(callback, eager, room, s.stream, s.len, s.start, t.stream, next);
    PassMakesProgress(callback, eager, room, s.stream, s.len, s.start, t.stream, next);
    if Percents(t.stream) < Percents(s.stream) {
      FewerTurns(Percents(t.stream), Percents(s.stream), room);
    }
  }

  lemma {:induction false} FewerTurns(fewer: nat, more: nat, room: nat)
    requires fewer < more
    ensures fewer * (room + 1) + room < more * (room + 1)
  {
    if fewer + 1 < more {
      FewerTurns(fewer, more - 1, room);
    }
    assert more * (room + 1) == (more - 1) * (room + 1) + (room + 1);
  }

  lemma {:induction false} SearchEnds(callback: string -> string, eager: bool, room: nat, states: seq<Search>)
    requires Values(callback, 1) && IsSearch(callback, eager, room, states) && '\0' !in states[0].stream
    ensures |states| <= TurnsLeft(room, states[0]) + 1
    decreases |states|
  {
    hide SearchStep, Values, TurnsLeft;
    if |states| > 1 {
      assert SearchStep(callback, eager, room, states[0], states[1]);
      TurnCounts(callback, eager, room, states[0], states[1]);
      StepStays(callback, eager, room, states[0], states[1]);
      forall i | 0 <= i < |states[1..]| - 1
        ensures SearchStep(callback, eager, room, states[1..][i], states[1..][i + 1])
      {
        assert SearchStep(callback, eager, room, states[i + 1], states[i + 2]);
      }
      SearchEnds(callback, eager, room, states[1..]);
    }
  }

  lemma StepStays(callback: string -> string, eager: bool, room: nat, s: Search, t: Search)
    requires SearchStep(callback, eager, room, s, t)
    ensures t.start <= room
  {
  }

  /** The search in a text without NUL ends, for all values with at most so many '%' and no
      NUL, within a number of turns that is known before it begins, if and only if that is at
      most one '%'.  A value with two of them can be its own placeholder. */
  lemma SearchEndsExactly(percents: nat)
    ensures (forall callback: string -> string, eager: bool, room: nat, states: seq<Search> ::
               Values(callback, percents) && IsSearch(callback, eager, room, states) && '\0' !in states[0].stream
               ==> |states| <= TurnsLeft(room, states[0]) + 1)
      <==> percents <= 1
  {
    hide Values, SearchStep, TurnsLeft, Percents;
    if percents <= 1 {
      forall callback: string -> string, eager: bool, room: nat, states: seq<Search>
        | Values(callback, percents) && IsSearch(callback, eager, room, states) && '\0' !in states[0].stream
        ensures |states| <= TurnsLeft(room, states[0]) + 1
      {
        FewerValues(callback, percents, 1);
        SearchEnds(callback, eager, room, states);
      }
    } else {
      var callback, s := name => "%X%", Search("%X%", 3, 0);
      var states := seq(TurnsLeft(3, s) + 2, i => s);
      OwnPlaceholder(callback, percents);
      SameForEver(callback, states);
      assert '\0' !in states[0].stream;
    }
  }

  lemma FewerValues(callback: string -> string, few: nat, many: nat)
    requires Values(callback, few) && few <= many
    ensures Values(callback, many)
  {
  }

  lemma OwnPlaceholder(callback: string -> string, percents: nat)
    requires percents >= 2 && forall name :: callback(name) == "%X%"
    ensures Values(callback, percents)
  {
    assert multiset("%X%") == multiset{'%', 'X', '%'};
  }

  /** As often as one likes the search stands where it stood. */
  lemma SameForEver(callback: string -> string, states: seq<Search>)
    requires callback("X") == "%X%" && states != []
    requires forall i :: 0 <= i < |states| ==> states[i] == Search("%X%", 3, 0)
    ensures IsSearch(callback, true, 3, states)
  {
    var s, text := Search("%X%", 3, 0), "%X%";
    assert Closes(text, 0, 2) && text[1..2] == "X" && "X"[..1] == "X" && CString("X") == "X";
    assert ParamName(text[1..2]) == "X";
    assert PassClosed(callback, 3, text, 3, 0, 2, "X", text, 0);
    assert Pass(callback, true, 3, text, 3, 0, text, 0);
    assert SearchStep(callback, true, 3, s, s);
  }

  /** Two values with two '%' each can also bring each other back, though no pass of theirs
      leaves the text as it is. */
  lemma TwoValuesCycle(callback: string -> string, eager: bool, room: nat, rest: string, len: nat,
                       after: string, next: nat)
    requires 3 <= len <= room && len <= |rest|
    requires callback("A") == "%B%" && callback("B") == "%A%"
    ensures Pass(callback, eager, room, "%A%" + rest, len, 0, after, next) <==> after == "%B%" + rest && next == 0
    ensures Pass(callback, eager, room, "%B%" + rest, len, 0, after, next) <==> after == "%A%" + rest && next == 0
  {
    OnePass(callback, eager, room, 'A', rest, len, after, next);
    OnePass(callback, eager, room, 'B', rest, len, after, next);
  }

  lemma OnePass(callback: string -> string, eager: bool, room: nat, name: char, rest: string, len: nat,
                after: string, next: nat)
    requires 3 <= len <= room && len <= |rest| && name != PLACEHOLDER && name != '\0' && |callback([name])| == 3
    ensures Pass(callback, eager, room, ['%', name, '%'] + rest, len, 0, after, next)
      <==> after == callback([name]) + rest && next == 0
  {
    var before := ['%', name, '%'] + rest;
    assert Closes(before, 0, 2) && forall e: int :: Closes(before, 0, e) ==> e == 2;
    assert before[1..2] == [name] && [name][..1] == [name] && CString([name]) == [name];
    assert before[..0] == [] && before[3..] == rest;
  }

  /** Both happen: with a NUL behind the '%', and with a value that is its own placeholder. */
  lemma PassCanStall(callback: string -> string, eager: bool, room: nat, rest: string, len: nat,
                     after: string, next: nat)
    requires 3 <= len <= room
    requires callback("X") == "%X%"
    ensures Pass(callback, eager, room, "%\0%" + rest, len, 0, after, next) ==> after == "%\0%" + rest && next == 0
    ensures len <= |rest| && Pass(callback, eager, room, "%X%" + rest, len, 0, after, next)
      ==> after == "%X%" + rest && next == 0
  {
    var nul, own := "%\0%" + rest, "%X%" + rest;
    assert Closes(nul, 0, 2) && Closes(own, 0, 2);
    assert nul[1..2] == ['\0'] && own[1..2] == "X";
    assert CString("X") == "X";
    assert own[..0] == [] && own[3..] == rest && "X"[..1] == "X" && ['\0'][..1] == ['\0'];
  }

  /** Of two percent signs in a row the second is removed wherever they stand, but the search
      goes on behind the first one if and only if both are in the window: at its edge the
      first one is read again, as the start of a placeholder. */
  lemma EscapeDependsOnTheWindow(callback: string -> string, eager: bool, room: nat, before: string, len: nat,
                                 start: nat, after: string, next: nat)
    requires start < len <= room && len <= |before|
    requires Closes(before, start, start + 1) && Seen(eager, len, start, start + 1)
    requires Pass(callback, eager, room, before, len, start, after, next)
    ensures after == before[..start + 1] + before[start + 2..]
    ensures next == start + 1 <==> start + 1 < len
    ensures next == start <==> start + 1 == len
  {
    assert forall f: int :: Closes(before, start, f) ==> f == start + 1;
    assert before[start + 1..start + 1] == [];
    assert PassClosed(callback, room, before, len, start, start + 1, [], after, next);
  }
}
