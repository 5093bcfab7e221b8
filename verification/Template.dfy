/** Template substitution inside the output buffer (WebResponses.cpp,
    AsyncAbstractResponse::_readDataFromCacheOrContent and
    _fillBufferAndProcessTemplates).  Placeholders %name% are replaced in place; what
    no longer fits into the buffer waits in a cache that is read before the source. */
module Template {
  import opened Sequences
  import opened ArduinoString
  import opened TemplateSearch

  // ---------------------------------------------------------------- what a template means

  predicate GoodName(name: string) {
    0 < |name| <= 32 && '\0' !in name
  }

  /** A name that the source of values can be asked for, and a value that can stand in front of
      this text: it has no '%', or one if no other follows that could close it. */
  predicate GoodPlaceholder(callback: string -> string, name: string, rest: string) {
    && GoodName(name)
    && (PLACEHOLDER !in callback(name) || (Percents(callback(name)) == 1 && PLACEHOLDER !in rest))
  }

  /** A template: every '%' opens or closes a placeholder whose name has 1 to 32 characters,
      none of them NUL, or is one of two in a row, an escaped percent sign, or is the last. */
  predicate WellFormed(callback: string -> string, text: string)
    decreases |text|
  {
    if text == [] then true
    else if text[0] != PLACEHOLDER then WellFormed(callback, text[1..])
    else
      var e := Find(text, 1);
      e == |text|
      || ((e == 1 || GoodPlaceholder(callback, text[1..e], text[e + 1..])) && WellFormed(callback, text[e + 1..]))
  }

  /** What stands for the text between two '%'. */
  function Value(callback: string -> string, name: string): string {
    if name == [] then [PLACEHOLDER] else callback(name)
  }

  /** The text that a template stands for. */
  function Expand(callback: string -> string, text: string): string
    requires WellFormed(callback, text)
    decreases |text|
  {
    if text == [] then []
    else if text[0] != PLACEHOLDER then [text[0]] + Expand(callback, text[1..])
    else
      var e := Find(text, 1);
      if e == |text| then text else Value(callback, text[1..e]) + Expand(callback, text[e + 1..])
  }

  /** A '%' in front of this text would find its partner from the end of a window. */
  predicate Near(rest: string) {
    Find(rest, 0) < |rest| && Find(rest, 0) <= 32
  }

  /** Places of the expanded text where a window must not end: directly behind an escaped
      percent sign with another '%' within reach, because its second '%' would be out of sight;
      and inside the value of a placeholder with nothing behind it, if the window would have
      held the placeholder itself with room to spare. */
  predicate Hazard(callback: string -> string, text: string, edge: int)
    requires WellFormed(callback, text)
    decreases |text|
  {
    if text == [] then false
    else if text[0] != PLACEHOLDER then Hazard(callback, text[1..], edge - 1)
    else
      var e := Find(text, 1);
      if e == |text| then false
      else if e == 1 then (edge == 1 && Near(text[2..])) || Hazard(callback, text[2..], edge - 1)
      else if e + 1 == |text| then e + 1 < edge < |callback(text[1..e])|
      else Hazard(callback, text[e + 1..], edge - |callback(text[1..e])|)
  }

  /** Where the rest of a template has a hazard, the whole has one. */
  ghost predicate HazardsKept(callback: string -> string, text: string, rest: string, done: int)
    requires WellFormed(callback, text) && WellFormed(callback, rest)
  {
    forall edge: int :: !Hazard(callback, text, edge) ==> !Hazard(callback, rest, edge - done)
  }

  lemma GoodNameIsPassedOn(name: string)
    requires GoodName(name)
    ensures ParamName(name) == name
  {
    assert name[..|name|] == name;
  }

  lemma ConsLiteral(callback: string -> string, c: char, text: string)
    requires c != PLACEHOLDER
    ensures WellFormed(callback, [c] + text) <==> WellFormed(callback, text)
    ensures WellFormed(callback, text) ==> Expand(callback, [c] + text) == [c] + Expand(callback, text)
    ensures WellFormed(callback, text) ==>
      forall edge: int :: Hazard(callback, [c] + text, edge) == Hazard(callback, text, edge - 1)
  {
    assert ([c] + text)[1..] == text;
  }

  lemma {:induction false} LiteralPrefix(callback: string -> string, literal: string, text: string)
    requires PLACEHOLDER !in literal
    ensures WellFormed(callback, literal + text) <==> WellFormed(callback, text)
    ensures WellFormed(callback, text) ==> Expand(callback, literal + text) == literal + Expand(callback, text)
    ensures WellFormed(callback, text) ==>
      forall edge: int :: Hazard(callback, literal + text, edge) == Hazard(callback, text, edge - |literal|)
  {
    hide WellFormed, Expand, Hazard;
    if literal == [] {
      assert literal + text == text;
    } else {
      var first, more := literal[0], literal[1..] + text;
      LiteralPrefix(callback, literal[1..], text);
      assert literal + text == [first] + more;
      ConsLiteral(callback, first, more);
      if WellFormed(callback, text) {
        var rest := Expand(callback, text);
        assert [first] + (literal[1..] + rest) == literal + rest;
        forall edge: int ensures Hazard(callback, literal + text, edge) == Hazard(callback, text, edge - |literal|) {
          assert Hazard(callback, more, edge - 1) == Hazard(callback, text, edge - 1 - |literal[1..]|);
        }
      }
    }
  }

  /** A '%' with no other behind it stands for itself. */
  lemma LastPercent(callback: string -> string, text: string)
    requires text != [] && text[0] == PLACEHOLDER && Find(text, 1) == |text|
    ensures WellFormed(callback, text) && Expand(callback, text) == text
    ensures forall edge: int :: !Hazard(callback, text, edge)
  {
  }

  lemma NothingElse(callback: string -> string)
    ensures WellFormed(callback, []) && Expand(callback, []) == []
    ensures forall edge: int :: !Hazard(callback, [], edge)
  {
  }

  lemma SecondPercent(text: string, k: nat, m: nat)
    requires k < m < |text| && text[k] == PLACEHOLDER && Percents(text) <= 1
    ensures text[m] != PLACEHOLDER
  {
    assert text == text[..k] + [text[k]] + text[k + 1..m] + [text[m]] + text[m + 1..];
  }

  lemma OnlyPercent(text: string, k: nat)
    requires Percents(text) <= 1 && k < |text| && text[k] == PLACEHOLDER
    ensures text[k..][0] == PLACEHOLDER && Find(text[k..], 1) == |text| - k
  {
    var rest := text[k..];
    forall i | 1 <= i < |rest| ensures rest[i] != PLACEHOLDER {
      SecondPercent(text, k, k + i);
    }
  }

  /** A text whose only '%', if it has one, has no partner stands for itself. */
  lemma LonePercent(callback: string -> string, text: string)
    requires Percents(text) <= 1
    ensures WellFormed(callback, text) && Expand(callback, text) == text
    ensures forall edge: int :: !Hazard(callback, text, edge)
  {
    hide WellFormed, Expand, Hazard, Percents;
    var k := Find(text, 0);
    var literal, rest := text[..k], text[k..];
    assert text == literal + rest;
    if k < |text| {
      OnlyPercent(text, k);
      LastPercent(callback, rest);
    } else {
      NothingElse(callback);
    }
    LiteralPrefix(callback, literal, rest);
  }

  lemma ClosesAtFind(stream: string, start: nat, e: int)
    requires start < |stream| && Closes(stream, start, e)
    ensures e == start + Find(stream[start..], 1)
  {
    var text := stream[start..];
    assert forall i :: 0 <= i < |text| ==> text[i] == stream[start + i];
    assert text[e - start] == PLACEHOLDER;
  }

  /** The '%' at this position has a partner exactly if another one follows. */
  lemma PartnerAtFind(stream: string, start: nat)
    requires start < |stream| && stream[start] == PLACEHOLDER
    ensures Find(stream[start..], 1) < |stream| - start ==> Closes(stream, start, start + Find(stream[start..], 1))
    ensures Find(stream[start..], 1) == |stream| - start ==> forall e: int :: !Closes(stream, start, e)
  {
    var text := stream[start..];
    assert forall i :: 0 <= i < |text| ==> text[i] == stream[start + i];
    forall e: int | Closes(stream, start, e) ensures e == start + Find(text, 1) {
      ClosesAtFind(stream, start, e);
    }
  }

  /** What a template says about its first placeholder. */
  lemma FirstPlaceholder(callback: string -> string, text: string, k: nat)
    requires text != [] && text[0] == PLACEHOLDER && WellFormed(callback, text) && k == Find(text, 1) < |text|
    ensures k <= NAME_LENGTH + 1 && WellFormed(callback, text[k + 1..]) && ParamName(text[1..k]) == text[1..k]
    ensures k > 1 ==> GoodPlaceholder(callback, text[1..k], text[k + 1..])
    ensures Expand(callback, text) == Value(callback, text[1..k]) + Expand(callback, text[k + 1..])
  {
    if k > 1 {
      GoodNameIsPassedOn(text[1..k]);
    }
  }

  lemma FirstHazards(callback: string -> string, text: string, k: nat)
    requires text != [] && text[0] == PLACEHOLDER && WellFormed(callback, text) && k == Find(text, 1) < |text|
    ensures WellFormed(callback, text[k + 1..])
    ensures HazardsKept(callback, text, text[k + 1..], |Value(callback, text[1..k])|)
    ensures k == 1 && Near(text[2..]) ==> Hazard(callback, text, 1)
    ensures k > 1 && k + 1 == |text| ==>
      forall edge: int :: k + 1 < edge < |callback(text[1..k])| ==> Hazard(callback, text, edge)
  {
    hide Expand, GoodPlaceholder, Near;
    assert k + 1 == |text| ==> text[k + 1..] == [];
    forall edge: int | !Hazard(callback, text, edge)
      ensures !Hazard(callback, text[k + 1..], edge - |Value(callback, text[1..k])|)
    {
    }
  }

  /** The same for a placeholder of the stream. */
  lemma TemplatePlaceholder(callback: string -> string, stream: string, start: nat, e: int)
    requires start < |stream| && WellFormed(callback, stream[start..]) && Closes(stream, start, e)
    ensures e <= start + NAME_LENGTH + 1 && WellFormed(callback, stream[e + 1..])
    ensures var name, rest := stream[start + 1..e], stream[e + 1..];
      && ParamName(name) == name && (name != [] ==> GoodPlaceholder(callback, name, rest))
      && Expand(callback, stream[start..]) == Value(callback, name) + Expand(callback, rest)
      && HazardsKept(callback, stream[start..], rest, |Value(callback, name)|)
      && (name == [] && Near(rest) ==> Hazard(callback, stream[start..], 1))
      && (name != [] && rest == [] ==>
            forall edge: int :: e + 1 - start < edge < |callback(name)| ==> Hazard(callback, stream[start..], edge))
  {
    hide WellFormed, Expand, Hazard, GoodPlaceholder, Near;
    ClosesAtFind(stream, start, e);
    var text, k := stream[start..], e - start;
    assert stream[start + 1..e] == text[1..k] && stream[e + 1..] == text[k + 1..];
    FirstPlaceholder(callback, text, k);
    FirstHazards(callback, text, k);
  }

  // ---------------------------------------------------------------- serving a template

  /** The pass loses part of the value of the placeholder at start. */
  ghost predicate PassLoses(callback: string -> string, room: nat, before: string, len: nat, start: nat) {
    exists e: int :: Closes(before, start, e) && ParamName(before[start + 1..e]) != []
      && Loses(callback(ParamName(before[start + 1..e])), room, len, start, e)
  }

  /** The template is served up to a position of the stream: what stands before it is
      final, and what follows it still has to be expanded. */
  ghost predicate ServedTo(callback: string -> string, template: string, stream: string, position: nat)
    requires WellFormed(callback, template)
  {
    && position <= |stream|
    && WellFormed(callback, stream[position..])
    && Expand(callback, template) == stream[..position] + Expand(callback, stream[position..])
    && HazardsKept(callback, template, stream[position..], position)
  }

  /** The same while the search stands at a position: it may also stand at an escaped percent
      sign in the last place of the window, and is about to step over it. */
  ghost predicate Served(callback: string -> string, room: nat, template: string, stream: string, position: nat)
    requires WellFormed(callback, template)
  {
    || ServedTo(callback, template, stream, position)
    || (position + 1 == room && position < |stream| && stream[position] == PLACEHOLDER
        && !Near(stream[position + 1..]) && ServedTo(callback, template, stream, position + 1))
  }

  /** One call of FillBufferAndProcessTemplates on an eager source: what was left of the
      template before it, what it put into the buffer, and what is left after it. */
  ghost predicate WindowServed(callback: string -> string, before: string, out: string, after: string) {
    && WellFormed(callback, before) && WellFormed(callback, after)
    && Expand(callback, before) == out + Expand(callback, after)
    && HazardsKept(callback, before, after, |out|)
  }

  lemma StartServing(callback: string -> string, room: nat, template: string, stream: string)
    requires stream == [] + template
    ensures stream == template
    ensures WellFormed(callback, template) ==> Served(callback, room, template, stream, 0)
  {
    assert stream[0..] == template && stream[..0] == [];
  }

  /** At the end of a full window nothing is pending. */
  lemma EndServing(callback: string -> string, room: nat, template: string, out: string, rest: string)
    requires WellFormed(callback, template) && (|out| == room || rest == [])
    requires Served(callback, room, template, out + rest, |out|)
    ensures WindowServed(callback, template, out, rest)
  {
    hide WellFormed, Expand, Hazard;
    var stream := out + rest;
    assert stream[..|out|] == out && stream[|out|..] == rest;
    assert ServedTo(callback, template, stream, |out|);
  }

  lemma ServeLiteral(callback: string -> string, room: nat, template: string, stream: string, from: nat, to: nat)
    requires WellFormed(callback, template) && from <= to <= |stream|
    requires forall i :: from <= i < to ==> stream[i] != PLACEHOLDER
    requires Served(callback, room, template, stream, from)
    ensures Served(callback, room, template, stream, to)
  {
    hide WellFormed, Expand, Hazard, Near;
    if from < to {
      var done, literal, rest := stream[..from], stream[from..to], stream[to..];
      assert stream[from..] == literal + rest && stream[..to] == done + literal;
      LiteralPrefix(callback, literal, rest);
      assert done + (literal + Expand(callback, rest)) == (done + literal) + Expand(callback, rest);
      forall edge: int | !Hazard(callback, template, edge) ensures !Hazard(callback, rest, edge - to) {
        assert !Hazard(callback, literal + rest, edge - from);
      }
    }
  }

  /** The rest of a template goes on from another rest. */
  lemma ServeFurther(callback: string -> string, template: string, before: string, start: nat, after: string, next: nat)
    requires WellFormed(callback, template) && ServedTo(callback, template, before, start)
    requires start <= next <= |after| && after[..start] == before[..start] && WellFormed(callback, after[next..])
    requires Expand(callback, before[start..]) == after[start..next] + Expand(callback, after[next..])
    requires HazardsKept(callback, before[start..], after[next..], next - start)
    ensures ServedTo(callback, template, after, next)
  {
    hide WellFormed, Expand, Hazard;
    var text, rest := before[start..], after[next..];
    assert after[..next] == before[..start] + after[start..next];
    assert before[..start] + (after[start..next] + Expand(callback, rest)) == after[..next] + Expand(callback, rest);
    forall edge: int | !Hazard(callback, template, edge) ensures !Hazard(callback, rest, edge - next) {
      assert !Hazard(callback, text, edge - start);
      assert !Hazard(callback, rest, edge - start - (next - start));
    }
  }

  lemma SuffixOfJoin(head: string, middle: string, rest: string)
    ensures (head + middle + rest)[..|head|] == head
    ensures (head + middle + rest)[|head|..] == middle + rest
    ensures (head + middle + rest)[|head + middle|..] == rest
  {
  }

  lemma LiteralValue(callback: string -> string, text: string, name: string, rest: string)
    requires WellFormed(callback, text) && WellFormed(callback, rest) && GoodPlaceholder(callback, name, rest)
    requires HazardsKept(callback, text, rest, |callback(name)|)
    ensures var joined := callback(name) + rest;
      && WellFormed(callback, joined) && Expand(callback, joined) == callback(name) + Expand(callback, rest)
      && HazardsKept(callback, text, joined, 0)
  {
    hide WellFormed, Expand, Hazard, GoodName;
    var value := callback(name);
    if PLACEHOLDER !in value {
      LiteralPrefix(callback, value, rest);
      forall edge: int | !Hazard(callback, text, edge) ensures !Hazard(callback, value + rest, edge - 0) {
        assert !Hazard(callback, rest, edge - |value|);
      }
    } else {
      PercentsJoin(value, rest);
      LonePercent(callback, value + rest);
      LonePercent(callback, rest);
    }
  }

  /** A value in its place is text in front of the rest. */
  lemma ServeValue(callback: string -> string, template: string, before: string, start: nat, name: string, rest: string,
                   after: string)
    requires WellFormed(callback, template) && ServedTo(callback, template, before, start)
    requires start <= |before| && WellFormed(callback, before[start..]) && WellFormed(callback, rest)
    requires GoodPlaceholder(callback, name, rest) && after == before[..start] + callback(name) + rest
    requires Expand(callback, before[start..]) == callback(name) + Expand(callback, rest)
    requires HazardsKept(callback, before[start..], rest, |callback(name)|)
    ensures ServedTo(callback, template, after, start)
  {
    hide WellFormed, Expand, HazardsKept, GoodPlaceholder, ServedTo;
    LiteralValue(callback, before[start..], name, rest);
    SuffixOfJoin(before[..start], callback(name), rest);
    assert after[start..start] == [];
    SkipNothing(Expand(callback, after[start..]));
    ServeFurther(callback, template, before, start, after, start);
  }

  lemma SkipNothing(text: string)
    ensures [] + text == text
  {
  }

  /** An escaped percent sign in its place, and the search behind it. */
  lemma ServeEscape(callback: string -> string, template: string, before: string, start: nat, after: string)
    requires WellFormed(callback, template) && ServedTo(callback, template, before, start)
    requires Closes(before, start, start + 1) && after == before[..start + 1] + before[start + 2..]
    ensures ServedTo(callback, template, after, start + 1)
  {
    TemplatePlaceholder(callback, before, start, start + 1);
    hide WellFormed, Expand, Hazard, GoodPlaceholder;
    assert before[start + 1..start + 1] == [];
    assert after[start + 1..] == before[start + 2..] && after[start..start + 1] == [PLACEHOLDER];
    assert after[..start] == before[..start];
    ServeFurther(callback, template, before, start, after, start + 1);
  }

  /** The last '%' stays. */
  lemma ServeLast(callback: string -> string, template: string, stream: string, start: nat)
    requires WellFormed(callback, template) && ServedTo(callback, template, stream, start)
    requires start < |stream| && stream[start] == PLACEHOLDER && forall e: int :: !Closes(stream, start, e)
    ensures ServedTo(callback, template, stream, start + 1)
  {
    PartnerAtFind(stream, start);
    var text, rest := stream[start..], stream[start + 1..];
    assert text == [PLACEHOLDER] + rest && text[1..] == rest;
    assert PLACEHOLDER !in rest by {
      assert forall i :: 0 <= i < |rest| ==> rest[i] == text[i + 1];
    }
    LonePercent(callback, rest);
    assert Expand(callback, text) == text;
    hide WellFormed, Expand, Hazard;
    assert stream[start..start + 1] == [PLACEHOLDER];
    ServeFurther(callback, template, stream, start, stream, start + 1);
  }

  /** On a template whose window does not end at a hazard, one pass replaces what it found by
      its value: what the template stands for stays the same, nothing is lost, and the search
      gets on. */
  lemma PassOnTemplate(callback: string -> string, room: nat, template: string, before: string, len: nat, start: nat,
                       after: string, next: nat)
    requires WellFormed(callback, template) && !Hazard(callback, template, room)
    requires start < len <= room && len <= |before| && (len == room || len == |before|)
    requires before[start] == PLACEHOLDER
    requires Pass(callback, true, room, before, len, start, after, next)
    requires Served(callback, room, template, before, start)
    ensures Served(callback, room, template, after, next)
    ensures Percents(after) < Percents(before) || (after == before && next == start + 1)
    ensures !PassLoses(callback, room, before, len, start)
  {
    hide WellFormed, Expand, Hazard, ServedTo, PassLoses, Percents, Near;
    PartnerAtFind(before, start);
    var e := start + Find(before[start..], 1);
    if !ServedTo(callback, template, before, start) {
      PendingPass(callback, room, before, len, start, after, next);
    } else if e == |before| {
      ServeLast(callback, template, before, start);
      NoPartner(callback, room, before, len, start, after, next);
    } else {
      PlaceholderPass(callback, room, template, before, len, start, e, after, next);
    }
  }

  lemma NoPartner(callback: string -> string, room: nat, before: string, len: nat, start: nat, after: string, next: nat)
    requires Pass(callback, true, room, before, len, start, after, next)
    requires forall e: int :: !Closes(before, start, e)
    ensures after == before && next == start + 1 && !PassLoses(callback, room, before, len, start)
  {
  }

  /** At the edge of the window a '%' whose partner is out of reach is left alone. */
  lemma PendingPass(callback: string -> string, room: nat, before: string, len: nat, start: nat, after: string,
                    next: nat)
    requires start < len <= room == start + 1 && len <= |before| && before[start] == PLACEHOLDER
    requires !Near(before[start + 1..])
    requires Pass(callback, true, room, before, len, start, after, next)
    ensures after == before && next == start + 1 && !PassLoses(callback, room, before, len, start)
  {
    var rest := before[start + 1..];
    assert forall i :: 0 <= i < |rest| ==> rest[i] == before[start + 1 + i];
    forall e: int | Closes(before, start, e) ensures !Seen(true, len, start, e) {
      assert rest[e - start - 1] == PLACEHOLDER;
      assert Find(rest, 0) == e - start - 1;
    }
  }

  lemma PlaceholderPass(callback: string -> string, room: nat, template: string, before: string, len: nat, start: nat,
                        e: int, after: string, next: nat)
    requires WellFormed(callback, template) && !Hazard(callback, template, room)
    requires start < len <= room && len <= |before| && (len == room || len == |before|)
    requires Closes(before, start, e)
    requires Pass(callback, true, room, before, len, start, after, next)
    requires ServedTo(callback, template, before, start)
    ensures Served(callback, room, template, after, next)
    ensures Percents(after) < Percents(before)
    ensures !PassLoses(callback, room, before, len, start)
  {
    var name, rest := before[start + 1..e], before[e + 1..];
    assert !Hazard(callback, before[start..], room - start);
    TemplatePlaceholder(callback, before, start, e);
    hide WellFormed, Expand, Hazard, HazardsKept, GoodPlaceholder, Near;
    hide ParamName, Percents, ServedTo, PassLoses, Loses;
    PassAtPartner(callback, room, before, len, start, e, name, after, next);
    if name == [] {
      EscapeInPlace(before, start, after);
      ServeEscape(callback, template, before, start, after);
    } else {
      ServeValue(callback, template, before, start, name, rest, after);
      ValueInPlace(callback, before, start, e, after);
    }
  }

  /** A placeholder of a template gives way to its whole value. */
  lemma PassAtPartner(callback: string -> string, room: nat, before: string, len: nat, start: nat, e: int,
                      name: string, after: string, next: nat)
    requires start < len <= room && len <= |before| && (len == room || len == |before|)
    requires Closes(before, start, e) && name == before[start + 1..e] == ParamName(name) && e <= start + NAME_LENGTH + 1
    requires Pass(callback, true, room, before, len, start, after, next)
    requires name != [] && before[e + 1..] == [] ==> !(e + 1 - start < room - start < |callback(name)|)
    ensures name == [] ==> e == start + 1 && after == before[..start + 1] + before[e + 1..]
    ensures name == [] ==> next == if start + 1 < len then start + 1 else start
    ensures name != [] ==> after == before[..start] + callback(name) + before[e + 1..] && next == start
    ensures !PassLoses(callback, room, before, len, start)
  {
    hide ParamName;
    assert forall f: int :: Closes(before, start, f) ==> f == e;
    assert PassClosed(callback, room, before, len, start, e, name, after, next);
    assert e + 1 == |before| ==> before[e + 1..] == [];
    assert name != [] ==> !Loses(callback(name), room, len, start, e);
  }

  lemma EscapeInPlace(before: string, start: nat, after: string)
    requires Closes(before, start, start + 1) && after == before[..start + 1] + before[start + 2..]
    ensures Percents(after) < Percents(before)
    ensures start < |after| && after[start] == PLACEHOLDER && after[start + 1..] == before[start + 2..]
  {
    AroundPlaceholder(before, start, start + 1);
    FewerPercents(before[..start], before[start + 1..start + 1], before[start + 2..], ['%']);
    assert before[..start + 1] == before[..start] + ['%'];
  }

  lemma ValueInPlace(callback: string -> string, before: string, start: nat, e: int, after: string)
    requires Closes(before, start, e)
    requires var name := before[start + 1..e];
      && GoodPlaceholder(callback, name, before[e + 1..])
      && after == before[..start] + callback(name) + before[e + 1..]
    ensures Percents(after) < Percents(before)
  {
    AroundPlaceholder(before, start, e);
    FewerPercents(before[..start], before[start + 1..e], before[e + 1..], callback(before[start + 1..e]));
  }

  // ---------------------------------------------------------------- the code

  /** The parts of a buffer after a block was written into it. */
  lemma WrittenParts(d: string, at: nat, block: string, r: string, start: nat, stop: nat)
    requires start <= at && at + |block| <= stop <= |d|
    requires r == d[..at] + block + d[at + |block|..]
    ensures |r| == |d|
    ensures r[..start] == d[..start]
    ensures r[..at + |block|] == d[..at] + block
    ensures r[..stop] == d[..at] + block + d[at + |block|..stop]
  {
    assert d[at + |block|..][..stop - at - |block|] == d[at + |block|..stop];
  }

  /** The cache is read first, and the source only once the cache is empty. */
  lemma ReadBoth(d: string, at: nat, c: string, u: string, m: nat, n: nat, d1: string, d2: string)
    requires m <= |c| && n <= |u| && at + m + n <= |d| && (n > 0 ==> m == |c|)
    requires d1 == d[..at] + c[..m] + d[at + m..]
    requires |d1| == |d| && d2 == d1[..at + m] + u[..n] + d1[at + m + n..]
    ensures d2 == d[..at] + (c + u)[..m + n] + d[at + (m + n)..]
    ensures (c + u)[m + n..] == c[m..] + u[n..]
  {
    assert d1[..at + m] == d[..at] + c[..m];
    assert d1[at + m + n..] == d[at + (m + n)..];
    assert (c + u)[..m + n] == c[..m] + u[..n];
  }

  /** What followed the placeholder in the window is behind the room for the copied value, or
      at the front of the cache. */
  ghost predicate RoomMade(d0: string, c0: string, d: string, c: string, len: nat, start: nat, end: nat, copied: nat,
                           newLen: nat)
    requires start <= end < len <= |d0| && start + copied <= |d0|
  {
    && |d| == |d0| && d[..start] == d0[..start]
    && (if start + copied + (len - end - 1) > |d|
        then newLen == |d| && d[start + copied..] + c == d0[end + 1..len] + c0
        else newLen == len && c == c0 && d[start + copied..start + copied + (len - end - 1)] == d0[end + 1..len])
  }

  lemma PushedOut(d0: string, c0: string, d: string, c: string, len: nat, start: nat, end: nat, copied: nat)
    requires start <= end < len <= |d0| == |d| && start + copied <= |d0|
    requires start + copied + (len - end - 1) > |d|
    requires d[..start + copied] == d0[..start + copied] && d[start + copied..] + c == d0[end + 1..len] + c0
    ensures RoomMade(d0, c0, d, c, len, start, end, copied, |d|)
  {
    assert d[..start] == d[..start + copied][..start];
    assert d0[..start] == d0[..start + copied][..start];
  }

  lemma MovedOver(d0: string, c: string, d: string, len: nat, start: nat, end: nat, copied: nat)
    requires start <= end < len <= |d0| && start + copied + (len - end - 1) <= |d0|
    requires end + 1 == start + copied ==> d == d0
    requires end + 1 != start + copied ==>
      d == d0[..start + copied] + d0[end + 1..end + 1 + (len - end - 1)] + d0[start + copied + (len - end - 1)..]
    ensures RoomMade(d0, c, d, c, len, start, end, copied, len)
  {
    var at, follows := start + copied, d0[end + 1..len];
    if end + 1 != at {
      assert d[at..at + |follows|] == follows;
      assert d[..start] == d0[..start];
    }
  }

  /** The value was copied in front of what followed the placeholder. */
  lemma CopiedIn(d0: string, c0: string, d: string, c: string, len: nat, start: nat, end: nat, copied: string,
                 newLen: nat, r: string, unread: string)
    requires start <= end < len <= |d0| && start + |copied| <= |d0|
    requires RoomMade(d0, c0, d, c, len, start, end, |copied|, newLen)
    requires r == d[..start] + copied + d[start + |copied|..]
    ensures |r| == |d0| && r[..start + |copied|] == d0[..start] + copied
    ensures r[..Min(start + |copied| + (len - end - 1), |d0|)] + (c + unread)
         == d0[..start] + copied + (d0[end + 1..len] + (c0 + unread))
  {
    var at, follows := start + |copied|, d0[end + 1..len];
    var shown := Min(at + |follows|, |d0|);
    WrittenParts(d, start, copied, r, start, shown);
    var moved := d[at..shown];
    assert moved + c == follows + c0 by {
      if at + |follows| > |d| {
        assert moved == d[at..];
      }
    }
    assert r[..shown] + (c + unread) == d0[..start] + copied + (moved + c) + unread;
    assert d0[..start] + copied + (follows + (c0 + unread)) == d0[..start] + copied + (follows + c0) + unread;
  }

  lemma Moved(d: string, r: string, to: nat, from: nat, n: nat)
    requires to + n <= |d| && from + n <= |d| && |r| == |d|
    requires forall i :: to <= i < to + n ==> r[i] == d[from + (i - to)]
    requires forall i :: 0 <= i < to || to + n <= i < |d| ==> r[i] == d[i]
    ensures r[..to] == d[..to] && r[to..to + n] == d[from..from + n]
    ensures r == d[..to] + d[from..from + n] + d[to + n..]
  {
  }

  /** memmove inside one buffer. */
  method Memmove(data: array<char>, to: nat, from: nat, n: nat)
    requires to + n <= data.Length && from + n <= data.Length
    modifies data
    ensures data[..] == old(data[..])[..to] + old(data[..])[from..from + n] + old(data[..])[to + n..]
  {
    ghost var d := data[..];
    forall i | 0 <= i < n {
      data[to + i] := data[from + i];
    }
    assert forall i :: to <= i < to + n ==> data[i] == d[from + (i - to)];
    Moved(d, data[..], to, from, n);
  }

  /** memcpy into a buffer. */
  method Memcpy(data: array<char>, to: nat, source: string)
    requires to + |source| <= data.Length
    modifies data
    ensures data[..] == old(data[..])[..to] + source + old(data[..])[to + |source|..]
  {
    forall i | 0 <= i < |source| {
      data[to + i] := source[i];
    }
  }

  /** memchr for '%' in a stretch of a buffer; the end of the stretch stands for null. */
  method Memchr(data: array<char>, from: nat, to: nat) returns (k: nat)
    requires from <= to <= data.Length
    ensures from <= k <= to
    ensures forall i :: from <= i < k ==> data[i] != PLACEHOLDER
    ensures k < to ==> data[k] == PLACEHOLDER
  {
    k := from;
    while k < to && data[k] != PLACEHOLDER
      invariant from <= k <= to
      invariant forall i :: from <= i < k ==> data[i] != PLACEHOLDER
    {
      k := k + 1;
    }
  }

  class AbstractResponse {
    /** Whether a template processor was given, and what it computes. */
    const processing: bool
    const callback: string -> string
    /** The source fills what it is given as far as it can, as a file does. */
    const eager: bool
    var cache: string
    /** What the source (_fillBuffer) has not delivered yet. */
    var unread: string

    ghost function Tail(): string
      reads this
    {
      cache + unread
    }

    /** The window is full unless there is nothing left to put into it. */
    ghost predicate Filled(data: array<char>, len: nat)
      reads this
    {
      len == data.Length || Tail() == []
    }

    constructor (processing: bool, callback: string -> string, eager: bool, content: string)
      ensures this.processing == processing && this.callback == callback && this.eager == eager
      ensures cache == [] && unread == content
    {
      this.processing, this.callback, this.eager := processing, callback, eager;
      cache, unread := [], content;
    }

    /** _fillBuffer of some source, which may deliver less than it is asked for. */
    method FillBuffer(data: array<char>, at: nat, len: nat) returns (n: nat)
      requires at + len <= data.Length
      modifies this`unread, data
      ensures n <= len && n <= |old(unread)|
      ensures eager ==> n == Min(len, |old(unread)|)
      ensures unread == old(unread)[n..]
      ensures data[..] == old(data[..])[..at] + old(unread)[..n] + old(data[..])[at + n..]
    {
      n :| n <= len && n <= |unread| && (eager ==> n == Min(len, |unread|));
      Memcpy(data, at, unread[..n]);
      unread := unread[n..];
    }

    method ReadFromCache(data: array<char>, at: nat, len: nat) returns (n: nat)
      requires at + len <= data.Length
      modifies this`cache, data
      ensures n == Min(len, |old(cache)|) && cache == old(cache)[n..]
      ensures data[..] == old(data[..])[..at] + old(cache)[..n] + old(data[..])[at + n..]
    {
      n := Min(len, |cache|);
      if n != 0 {
        Memcpy(data, at, cache[..n]);
        cache := cache[n..];
      } else {
        assert data[..] == data[..][..at] + [] + data[..][at..];
      }
    }

    method ReadDataFromCacheOrContent(data: array<char>, at: nat, len: nat) returns (n: nat)
      requires at + len <= data.Length
      modifies this, data
      ensures n <= len && n <= |old(Tail())|
      ensures eager ==> n == Min(len, |old(Tail())|)
      ensures Tail() == old(Tail())[n..]
      ensures data[..] == old(data[..])[..at] + old(Tail())[..n] + old(data[..])[at + n..]
    {
      ghost var d, c, u := data[..], cache, unread;
      var readFromCache := ReadFromCache(data, at, len);
      ghost var d1 := data[..];
      var readFromContent := FillBuffer(data, at + readFromCache, len - readFromCache);
      n := readFromCache + readFromContent;
      ReadBoth(d, at, c, u, readFromCache, readFromContent, d1, data[..]);
      assert old(Tail()) == c + u && Tail() == c[readFromCache..] + u[readFromContent..];
    }

    /** What follows the placeholder does not fit behind its value: data[kept..len] goes to
        the front of the cache, and the rest is pushed to the end of the buffer. */
    method PushOut(data: array<char>, len: nat, to: nat, from: nat, kept: nat)
      requires from <= to <= data.Length && from <= kept <= len <= data.Length
      requires kept - from == data.Length - to
      modifies this`cache, data
      ensures data[..][..to] == old(data[..])[..to]
      ensures data[..][to..] + cache == old(data[..])[from..len] + old(cache)
    {
      SplitCache(data[..], cache, from, kept, len);
      ghost var d := data[..];
      cache := data[kept..len] + cache;
      Memmove(data, to, from, data.Length - to);
      assert data[..][to..] == d[from..kept];
      assert data[..][..to] == d[..to];
    }

    /** Moves what follows the placeholder to behind the copied part of its value. */
    method MakeRoom(data: array<char>, len: nat, start: nat, end: nat, copied: nat) returns (newLen: nat)
      requires start <= end < len <= data.Length && start + copied <= data.Length
      modifies this`cache, data
      ensures RoomMade(old(data[..]), old(cache), data[..], cache, len, start, end, copied, newLen)
    {
      hide RoomMade;
      ghost var d, c := data[..], cache;
      newLen := len;
      if end + 1 < start + copied && data.Length - (start + copied - end - 1) < len {
        PushOut(data, len, start + copied, end + 1, data.Length - (start + copied - end - 1));
        newLen := data.Length;
        PushedOut(d, c, data[..], cache, len, start, end, copied);
      } else {
        if end + 1 != start + copied {
          Memmove(data, start + copied, end + 1, len - end - 1);
        }
        MovedOver(d, c, data[..], len, start, end, copied);
      }
    }

    lemma SplitCache(data: string, cache: string, from: nat, kept: nat, len: nat)
      requires from <= kept <= len <= |data|
      ensures data[from..kept] + (data[kept..len] + cache) == data[from..len] + cache
    {
    }

    /** Steps 1 to 3 of a substitution: room is made and as much of the value as the
        buffer holds is copied in. */
    method CopyValue(data: array<char>, len: nat, start: nat, end: nat, copied: string) returns (newLen: nat)
      requires start <= end < len <= data.Length && start + |copied| <= data.Length
      modifies this`cache, data
      ensures newLen == if start + |copied| + (len - end - 1) > data.Length then data.Length else len
      ensures data[..start + |copied|] == old(data[..start]) + copied
      ensures data[..Min(start + |copied| + (len - end - 1), data.Length)] + Tail()
           == old(data[..start]) + copied + old(data[end + 1..len] + Tail())
    {
      ghost var d0, c0 := data[..], cache;
      newLen := MakeRoom(data, len, start, end, |copied|);
      ghost var d := data[..];
      Memcpy(data, start, copied);
      CopiedIn(d0, c0, d, cache, len, start, end, copied, newLen, data[..], unread);
      assert data[..][..start + |copied|] == data[..start + |copied|];
    }

    /** The rest of a value that does not fit goes to the front of the cache. */
    method Spill(data: array<char>, start: nat, value: string)
      requires start <= data.Length < start + |value|
      requires data[start..] == value[..data.Length - start]
      modifies this`cache
      ensures data[..] + Tail() == data[..start] + value + old(Tail())
      ensures forall k :: start <= k <= data.Length ==>
        data[..k] + Tail() == data[..start] + value[..k - start] + value[data.Length - start..] + old(Tail())
    {
      ghost var follows := Tail();
      cache := value[data.Length - start..] + cache;
      assert Tail() == value[data.Length - start..] + follows;
      assert value == data[start..] + value[data.Length - start..];
      assert data[..] == data[..start] + data[start..];
      forall k | start <= k <= data.Length
        ensures data[..k] + Tail() == data[..start] + value[..k - start] + value[data.Length - start..] + follows
      {
        assert data[..k] == data[..start] + data[start..k];
        assert data[start..k] == data[start..][..k - start] == value[..k - start];
      }
    }

    /** Once the whole value is in place: the freed room is filled, or the length grows. */
    method Settle(data: array<char>, len: nat, start: nat, end: nat, copied: nat) returns (newLen: nat)
      requires start <= end < len <= data.Length && start + copied <= data.Length
      requires start + copied > end + 1 ==> len == data.Length || len + (start + copied - end - 1) <= data.Length
      modifies this, data
      ensures start + copied <= newLen <= data.Length
      ensures data[..start] == old(data[..start])
      ensures var shown := Min(start + copied + (len - end - 1), data.Length);
        data[..newLen] + Tail() == old(data[..shown] + Tail())
      ensures eager && (start + copied < end + 1 || len == data.Length || old(Tail()) == []) ==> Filled(data, newLen)
    {
      newLen := len;
      if start + copied < end + 1 {
        ghost var kept := data[..len - (end + 1 - start - copied)];
        var roomFreed := end + 1 - start - copied;
        newLen := FillRoom(data, newLen - roomFreed, data.Length - newLen + roomFreed);
        assert kept[..start] == data[..start];
      } else {
        newLen := Min(newLen + (start + copied - end - 1), data.Length);
      }
    }

    /** The tail of the loop body: data[start..end] is replaced by the value. */
    method Substitute(data: array<char>, len: nat, start: nat, end: nat, value: string) returns (newLen: nat)
      requires start <= end < len <= data.Length
      modifies this, data
      ensures start <= newLen <= data.Length
      ensures data[..start] == old(data[..start])
      ensures !Loses(value, data.Length, len, start, end) ==>
        data[..newLen] + Tail() == old(data[..start]) + value + old(data[end + 1..len] + Tail())
      ensures Loses(value, data.Length, len, start, end) ==>
        data[..newLen] + Tail()
        == old(data[..start]) + (value[..len - start] + value[data.Length - start..]) + old(Tail())
      ensures eager && old(Filled(data, len)) && !Loses(value, data.Length, len, start, end) ==> Filled(data, newLen)
    {
      ghost var before, follows := data[..start], data[end + 1..len] + Tail();
      var numBytesCopied := Min(|value|, data.Length - start);
      newLen := CopyValue(data, len, start, end, value[..numBytesCopied]);
      assert data[..start] == data[..start + numBytesCopied][..start] == before;
      if numBytesCopied < |value| {
        SpillValue(data, newLen, len, start, end, value, before, follows);
      } else {
        assert value[..numBytesCopied] == value;
        newLen := Settle(data, newLen, start, end, numBytesCopied);
      }
    }

    /** The value does not fit and fills the buffer. */
    method SpillValue(data: array<char>, newLen: nat, len: nat, start: nat, end: nat, value: string,
                      ghost before: string, ghost follows: string)
      requires start <= end < len <= data.Length < start + |value| && |before| == start
      requires newLen == if end + 1 < len then data.Length else len
      requires data[..data.Length] == before + value[..data.Length - start]
      requires data[..data.Length] + Tail() == before + value[..data.Length - start] + follows
      modifies this`cache
      ensures newLen == data.Length ==> data[..newLen] + Tail() == before + value + follows
      ensures newLen == len ==>
        data[..newLen] + Tail() == before + (value[..len - start] + value[data.Length - start..]) + follows
    {
      ghost var placed := before + value[..data.Length - start];
      JoinParts(placed, Tail(), |placed|);
      JoinParts(placed, follows, |placed|);
      assert data[start..] == data[..data.Length][start..] == value[..data.Length - start];
      assert data[..start] == data[..data.Length][..start] == before;
      Spill(data, start, value);
      assert data[..data.Length] == data[..];
      assert before + (value[..len - start] + value[data.Length - start..]) + follows
        == before + value[..len - start] + value[data.Length - start..] + follows;
    }

    /** Reads behind a part of the buffer that stays. */
    method FillRoom(data: array<char>, at: nat, room: nat) returns (newLen: nat)
      requires at + room <= data.Length
      modifies this, data
      ensures at <= newLen <= at + room
      ensures data[..at] == old(data[..at])
      ensures data[..newLen] + Tail() == old(data[..at] + Tail())
      ensures eager ==> newLen == at + room || Tail() == []
    {
      ghost var d, tail := data[..], Tail();
      var n := ReadDataFromCacheOrContent(data, at, room);
      newLen := at + n;
      WrittenParts(d, at, tail[..n], data[..], at, newLen);
      SplitAndJoin(d[..at], tail, n);
    }

    /** The closing '%' is looked for in what the window does not show yet.  If it is
        there, the text up to it is taken out of the stream. */
    method ReadAhead(data: array<char>, len: nat, start: nat) returns (found: bool, between: string)
      requires start < len <= data.Length && len - start < NAME_LENGTH + 2
      requires forall i :: start < i < len ==> data[i] != PLACEHOLDER
      modifies this
      ensures found ==>
        && |between| <= NAME_LENGTH && PLACEHOLDER !in between && len - start - 1 <= |between|
        && data[start + 1..len] + old(Tail()) == between + [PLACEHOLDER] + Tail()
      ensures !found ==>
        && Tail() == old(Tail())
        && (eager ==> PLACEHOLDER !in Tail()[..Min(NAME_LENGTH + 2 - (len - start), |Tail()|)])
    {
      ghost var tail := Tail();
      var have := len - start - 1;
      var buf := new char[NAME_LENGTH + 1];
      ghost var shown := data[start + 1..len];
      Memcpy(buf, 0, data[start + 1..len]);
      var n := ReadDataFromCacheOrContent(buf, have, NAME_LENGTH + 2 - (have + 1));
      ghost var seen := buf[..have + n];
      assert seen == shown + tail[..n];
      found, between := CutName(buf, have, n);
      AheadOfWindow(shown, tail, n, seen, found, between, Tail());
    }

    /** Splits what was read ahead (buf[have..have + n]) at its first '%'.  The part behind it,
        or all of it if there is none, goes back to the front of the cache. */
    method CutName(buf: array<char>, have: nat, n: nat) returns (found: bool, between: string)
      requires have + n <= buf.Length
      modifies this`cache
      ensures found ==>
        && have <= |between| < have + n && between == buf[..have + n][..|between|]
        && PLACEHOLDER !in between[have..]
        && buf[..have + n] + old(Tail()) == between + [PLACEHOLDER] + Tail()
      ensures !found ==>
        Tail() == buf[..have + n][have..] + old(Tail()) && PLACEHOLDER !in buf[..have + n][have..]
    {
      ghost var rest, seen := Tail(), buf[..have + n];
      found, between := false, [];
      if n != 0 {
        var close := Memchr(buf, have, have + n);
        assert forall i :: have <= i < close ==> seen[i] != PLACEHOLDER;
        if close < have + n {
          found, between := true, buf[..close];
          cache := buf[close + 1..have + n] + cache;
          assert between == seen[..close];
          assert Tail() == buf[close + 1..have + n] + rest;
          assert seen == between + [PLACEHOLDER] + buf[close + 1..have + n];
        } else {
          cache := buf[have..have + n] + cache;
          assert Tail() == seen[have..] + rest;
        }
      }
    }

    /** The same, told about the whole stream. */
    method SubstituteInStream(data: array<char>, len: nat, start: nat, end: nat, value: string) returns (newLen: nat)
      requires start <= end < len <= data.Length
      modifies this, data
      ensures start <= newLen <= data.Length
      ensures data[..start] == old(data[..start])
      ensures var before := old(data[..len] + Tail());
        data[..newLen] + Tail() == before[..start] + Kept(value, data.Length, len, start, end) + before[end + 1..]
      ensures eager && old(Filled(data, len)) && !Loses(value, data.Length, len, start, end) ==> Filled(data, newLen)
    {
      ghost var d, tail := data[..], Tail();
      StreamParts(d, tail, len, start, end);
      newLen := Substitute(data, len, start, end, value);
      SubstitutedStream(d[..start], value, d[end + 1..len] + tail, tail, data[..newLen] + Tail(),
                        data.Length, len, start, end);
    }

    /** A pass that finds the closing '%' inside the window. */
    method ReplaceSeen(data: array<char>, len: nat, start: nat, end: nat) returns (newLen: nat, next: nat)
      requires start < end < len <= data.Length && Closes(data[..len], start, end)
      modifies this, data
      ensures start <= next <= newLen <= data.Length
      ensures data[..start] == old(data[..start])
      ensures Closes(old(data[..len] + Tail()), start, end)
      ensures PassClosed(callback, data.Length, old(data[..len] + Tail()), len, start, end,
                         ParamName(old(data[..len] + Tail())[start + 1..end]), data[..newLen] + Tail(), next)
      ensures eager && old(Filled(data, len)) ==>
        Filled(data, newLen) || PassLoses(callback, data.Length, old(data[..len] + Tail()), len, start)
    {
      ghost var window, tail := data[..len], Tail();
      AroundSeen(window, tail, start, end);
      newLen, next := len, start;
      var paramNameLength := Min(NAME_LENGTH, end - start - 1);
      if paramNameLength != 0 {
        var paramName := CString(data[start + 1..start + 1 + paramNameLength]);
        NameInWindow(data[..], len, start, end, paramNameLength);
        if paramName != [] {
          newLen := SubstituteInStream(data, len, start, end, callback(paramName));
        }
      } else {
        newLen, next := Unescape(data, len, start);
      }
    }

    /** A pass that sees no closing '%' in the window but may find it behind. */
    method ReplaceAhead(data: array<char>, len: nat, start: nat) returns (newLen: nat, next: nat)
      requires start < len <= data.Length && data[start] == PLACEHOLDER && len - start < NAME_LENGTH + 2
      requires forall i :: start < i < len ==> data[i] != PLACEHOLDER
      modifies this, data
      ensures start <= next <= newLen <= data.Length
      ensures data[..start] == old(data[..start])
      ensures Pass(callback, eager, data.Length, old(data[..len] + Tail()), len, start, data[..newLen] + Tail(), next)
      ensures eager && old(Filled(data, len)) ==>
        Filled(data, newLen) || PassLoses(callback, data.Length, old(data[..len] + Tail()), len, start)
    {
      hide Pass, PassLoses, Kept, Loses, Closes;
      ghost var window, tail := data[..len], Tail();
      newLen, next := len, start;
      var found, between := ReadAhead(data, len, start);
      if found {
        ghost var rest := Tail();
        var paramName := CString(between);
        if paramName != [] {
          newLen := SubstituteInStream(data, len, start, len - 1, callback(paramName));
        }
        assert between[..Min(NAME_LENGTH, |between|)] == between;
        PassAhead(callback, eager, data.Length, window, tail, start, between, rest, paramName, data[..newLen] + Tail());
      } else {
        next := start + 1;
        PassNotSeen(callback, eager, data.Length, window, tail, start);
      }
    }

    /** One pass of the search loop, at a '%'. */
    method ReplaceAt(data: array<char>, len: nat, start: nat) returns (newLen: nat, next: nat)
      requires start < len <= data.Length && data[start] == PLACEHOLDER
      modifies this, data
      ensures start <= next <= newLen <= data.Length
      ensures data[..start] == old(data[..start])
      ensures Pass(callback, eager, data.Length, old(data[..len] + Tail()), len, start, data[..newLen] + Tail(), next)
      ensures eager && old(Filled(data, len)) ==>
        Filled(data, newLen) || PassLoses(callback, data.Length, old(data[..len] + Tail()), len, start)
    {
      ghost var window, tail := data[..len], Tail();
      var end := if start + 1 < len then start + 1 else len;
      end := Memchr(data, end, len);
      if end < len {
        AroundSeen(window, tail, start, end);
        newLen, next := ReplaceSeen(data, len, start, end);
      } else if len - start < NAME_LENGTH + 2 {
        newLen, next := ReplaceAhead(data, len, start);
      } else {
        newLen, next := len, start + 1;
        NotSeen(eager, window, tail, start);
      }
    }

    /** Two percent signs: the second one is removed. */
    method Unescape(data: array<char>, len: nat, start: nat) returns (newLen: nat, next: nat)
      requires start + 1 < len <= data.Length
      modifies this, data
      ensures next == start + 1 && next <= newLen <= data.Length
      ensures data[..start] == old(data[..start])
      ensures var before := old(data[..len] + Tail());
        data[..newLen] + Tail() == before[..start + 1] + before[start + 2..]
      ensures eager ==> old(Filled(data, len)) ==> Filled(data, newLen)
    {
      RemoveSecond(data, len, start);
      ghost var kept := data[..len - 1];
      newLen := FillRoom(data, len - 1, 1);
      next := start + 1;
      assert data[..start] == kept[..start];
    }

    method RemoveSecond(data: array<char>, len: nat, start: nat)
      requires start + 1 < len <= data.Length
      modifies data
      ensures data[..len - 1][..start] == old(data[..start])
      ensures data[..len - 1] + Tail()
        == old(data[..len] + Tail())[..start + 1] + old(data[..len] + Tail())[start + 2..]
    {
      ghost var d := data[..];
      Memmove(data, start + 1, start + 2, len - start - 2);
      UnescapedParts(d, data[..], Tail(), len, start);
    }

    /** The search step of the loop. */
    method SearchPlaceholder(data: array<char>, len: nat, start: nat, ghost template: string) returns (found: nat)
      requires start <= len <= data.Length
      ensures start <= found <= len && (found < len ==> data[found] == PLACEHOLDER)
      ensures WellFormed(callback, template) && Served(callback, data.Length, template, data[..len] + Tail(), start) ==>
        Served(callback, data.Length, template, data[..len] + Tail(), found)
    {
      found := Memchr(data, start, len);
      ghost var stream := data[..len] + Tail();
      assert forall i :: start <= i < found ==> stream[i] == data[i];
      if WellFormed(callback, template) && Served(callback, data.Length, template, stream, start) {
        ServeLiteral(callback, data.Length, template, stream, start, found);
      }
    }

    /** The template can be served by a window of this size. */
    ghost predicate Serves(size: nat, template: string) {
      eager && WellFormed(callback, template) && !Hazard(callback, template, size)
    }

    /** The search ends in this text whatever it is. */
    ghost predicate Tame(stream: string) {
      Values(callback, 1) && '\0' !in stream
    }

    /** One pass, and what it means for the template being served. */
    method ServePlaceholder(data: array<char>, len: nat, start: nat, ghost template: string)
      returns (newLen: nat, next: nat)
      requires start < len <= data.Length && data[start] == PLACEHOLDER
      requires || Tame(data[..len] + Tail())
        || (Serves(data.Length, template) && Filled(data, len)
            && Served(callback, data.Length, template, data[..len] + Tail(), start))
      modifies this, data
      ensures start <= next <= newLen <= data.Length
      ensures Tame(old(data[..len] + Tail())) ==> Tame(data[..newLen] + Tail())
      ensures Percents(data[..newLen] + Tail()) < Percents(old(data[..len] + Tail()))
        || (Percents(data[..newLen] + Tail()) == Percents(old(data[..len] + Tail())) && next == start + 1)
      ensures (Serves(data.Length, template) && old(Filled(data, len))
               && Served(callback, data.Length, template, old(data[..len] + Tail()), start))
        ==> Served(callback, data.Length, template, data[..newLen] + Tail(), next) && Filled(data, newLen)
    {
      hide Served, WellFormed, Hazard, Values, Percents, Pass, PassLoses;
      ghost var before, full := data[..len] + Tail(), Filled(data, len);
      assert before[start] == PLACEHOLDER;
      newLen, next := ReplaceAt(data, len, start);
      ghost var after := data[..newLen] + Tail();
      if Tame(before) {
        PassMakesProgress(callback, eager, data.Length, before, len, start, after, next);
      }
      if Serves(data.Length, template) && full && Served(callback, data.Length, template, before, start) {
        PassOnTemplate(callback, data.Length, template, before, len, start, after, next);
      }
    }

    /** _fillBufferAndProcessTemplates on a buffer of data.Length characters.  Called with a
        template left to serve and a buffer that does not end at a hazard, it puts into the
        buffer exactly the next part of the text that the template stands for.  It ends there,
        and also in any other text as long as no value has two percent signs. */
    method FillBufferAndProcessTemplates(data: array<char>) returns (len: nat)
      requires processing ==> Tame(Tail()) || Serves(data.Length, Tail())
      modifies this, data
      ensures len <= data.Length
      ensures processing && Tame(old(Tail())) ==> Tame(Tail())
      ensures !processing ==> cache == old(cache) && data[..len] + unread == old(unread)
      ensures processing && Serves(data.Length, old(Tail())) ==>
        WindowServed(callback, old(Tail()), data[..len], Tail()) && Filled(data, len)
    {
      if !processing {
        ghost var source := unread;
        len := FillBuffer(data, 0, data.Length);
        SplitAndJoin([], source, len);
      } else {
        len := ProcessTemplates(data);
      }
    }

    /** The search loop. */
    method ProcessTemplates(data: array<char>) returns (len: nat)
      requires Tame(Tail()) || Serves(data.Length, Tail())
      modifies this, data
      ensures len <= data.Length
      ensures Tame(old(Tail())) ==> Tame(Tail())
      ensures Serves(data.Length, old(Tail())) ==>
        WindowServed(callback, old(Tail()), data[..len], Tail()) && Filled(data, len)
    {
      hide Served, WellFormed, Hazard, Values, Percents, WindowServed;
      ghost var template := Tail();
      len := FillRoom(data, 0, data.Length);
      StartServing(callback, data.Length, template, data[..len] + Tail());
      var start: nat := SearchPlaceholder(data, len, 0, template);
      while start < len
        invariant start <= len <= data.Length && (start < len ==> data[start] == PLACEHOLDER)
        invariant Tame(template) ==> Tame(data[..len] + Tail())
        invariant Serves(data.Length, template) ==>
          Served(callback, data.Length, template, data[..len] + Tail(), start) && Filled(data, len)
        decreases Percents(data[..len] + Tail()), data.Length - start
      {
        len, start := ServePlaceholder(data, len, start, template);
        start := SearchPlaceholder(data, len, start, template);
      }
      ghost var out := data[..len];
      if Tame(template) {
        NulFreeRest(out, Tail());
      }
      if Serves(data.Length, template) {
        EndServing(callback, data.Length, template, out, Tail());
      }
    }
  }

  lemma NulFreeRest(head: string, rest: string)
    requires '\0' !in head + rest
    ensures '\0' !in rest
  {
    JoinParts(head, rest, 0);
  }

  /** What CutName finds, told about the window and what follows it. */
  lemma AheadOfWindow(shown: string, tail: string, n: nat, seen: string, found: bool, between: string, rest: string)
    requires n <= |tail| && seen == shown + tail[..n] && PLACEHOLDER !in shown
    requires found ==>
      && |shown| <= |between| < |seen| && between == seen[..|between|] && PLACEHOLDER !in between[|shown|..]
      && seen + tail[n..] == between + [PLACEHOLDER] + rest
    requires !found ==> rest == seen[|shown|..] + tail[n..] && PLACEHOLDER !in seen[|shown|..]
    ensures found ==> shown + tail == between + [PLACEHOLDER] + rest && PLACEHOLDER !in between
    ensures !found ==> rest == tail && PLACEHOLDER !in tail[..n]
  {
    assert tail == tail[..n] + tail[n..];
    assert shown + tail == seen + tail[n..];
    assert seen[|shown|..] == tail[..n];
    if found {
      assert between[..|shown|] == shown;
      assert between == shown + between[|shown|..];
    }
  }

  lemma SplitAndJoin(head: string, tail: string, n: nat)
    requires n <= |tail|
    ensures head + tail[..n] + tail[n..] == head + tail
  {
    assert tail == tail[..n] + tail[n..];
  }

  lemma StreamParts(d: string, tail: string, len: nat, start: nat, end: nat)
    requires start <= end < len <= |d|
    ensures (d[..len] + tail)[..start] == d[..start]
    ensures (d[..len] + tail)[end + 1..] == d[end + 1..len] + tail
    ensures end + 1 == len ==> d[end + 1..len] + tail == tail
  {
  }

  lemma UnescapedParts(d: string, d1: string, tail: string, len: nat, start: nat)
    requires start + 1 < len <= |d|
    requires d1 == d[..start + 1] + d[start + 2..start + 2 + (len - start - 2)] + d[start + 1 + (len - start - 2)..]
    ensures |d1| == |d| && d1[..len - 1][..start] == d[..start]
    ensures d1[..len - 1] + tail == (d[..len] + tail)[..start + 1] + (d[..len] + tail)[start + 2..]
  {
    assert d1[..len - 1] == d[..start + 1] + d[start + 2..len];
    assert (d[..len] + tail)[start + 2..] == d[start + 2..len] + tail;
  }

  /** A pass whose closing '%' came from behind the window. */
  lemma ClosedAhead(callback: string -> string, room: nat, window: string, tail: string, start: nat,
                    between: string, rest: string, name: string, after: string)
    requires start < |window| <= room && window[start] == PLACEHOLDER
    requires window[start + 1..] + tail == between + [PLACEHOLDER] + rest && PLACEHOLDER !in between
    requires |window| - start - 1 <= |between| <= NAME_LENGTH
    requires name == [] ==> after == window + rest
    requires name != [] ==>
      after == (window + rest)[..start] + Kept(callback(name), room, |window|, start, |window| - 1)
               + (window + rest)[|window|..]
    ensures var e := start + 1 + |between|;
      && Closes(window + tail, start, e)
      && (window + tail)[start + 1..e] == between
      && PassClosed(callback, room, window + tail, |window|, start, e, name, after, start)
  {
    ClosesAhead(window + tail, window, tail, start, between, rest);
    JoinParts(window, rest, start);
    JoinParts(window, tail, start);
  }

  lemma PassAhead(callback: string -> string, eager: bool, room: nat, window: string, tail: string, start: nat,
                  between: string, rest: string, name: string, after: string)
    requires start < |window| <= room && window[start] == PLACEHOLDER
    requires window[start + 1..] + tail == between + [PLACEHOLDER] + rest && PLACEHOLDER !in between
    requires |window| - start - 1 <= |between| <= NAME_LENGTH && name == ParamName(between)
    requires name == [] ==> after == window + rest
    requires name != [] ==>
      after == (window + rest)[..start] + Kept(callback(name), room, |window|, start, |window| - 1)
               + (window + rest)[|window|..]
    ensures Pass(callback, eager, room, window + tail, |window|, start, after, start)
    ensures name != [] && Loses(callback(name), room, |window|, start, |window| - 1) ==>
      PassLoses(callback, room, window + tail, |window|, start)
  {
    hide ParamName, Kept, PassClosed, Closes;
    ClosedAhead(callback, room, window, tail, start, between, rest, name, after);
    InsideStream(window + tail, start, start + 1 + |between|);
  }

  lemma InsideStream(stream: string, start: int, e: int)
    requires Closes(stream, start, e)
    ensures 0 <= start < e < |stream|
  {
  }

  lemma JoinParts(head: string, rest: string, n: nat)
    requires n <= |head|
    ensures (head + rest)[..n] == head[..n]
    ensures (head + rest)[..|head|] == head && (head + rest)[|head|..] == rest
  {
  }

  /** Both outcomes of a substitution in the one form that Pass uses. */
  lemma SubstitutedStream(head: string, value: string, follows: string, tail: string, after: string,
                          room: nat, len: nat, start: nat, end: nat)
    requires start <= end < len <= room
    requires !Loses(value, room, len, start, end) ==> after == head + value + follows
    requires Loses(value, room, len, start, end) ==>
      after == head + (value[..len - start] + value[room - start..]) + tail && follows == tail
    ensures after == head + Kept(value, room, len, start, end) + follows
  {
  }

  /** A placeholder inside the window is one of the stream. */
  lemma AroundSeen(window: string, tail: string, start: nat, end: nat)
    requires Closes(window, start, end)
    ensures var before := window + tail;
      Closes(before, start, end) && before[start + 1..end] == window[start + 1..end]
      && before[..start] == window[..start] && before[..start + 1] == window[..start + 1]
      && before[end + 1..] == window[end + 1..] + tail
  {
  }

  lemma NameInWindow(d: string, len: nat, start: nat, end: nat, n: nat)
    requires start < end < len <= |d| && n == Min(NAME_LENGTH, end - start - 1)
    ensures CString(d[start + 1..start + 1 + n]) == ParamName(d[..len][start + 1..end])
  {
    assert d[..len][start + 1..end] == d[start + 1..end];
    assert d[start + 1..end][..n] == d[start + 1..start + 1 + n];
  }

  /** No closing '%' in the window, and none where an eager source would show it. */
  lemma NotSeen(eager: bool, window: string, tail: string, start: nat)
    requires start < |window| && forall i :: start < i < |window| ==> window[i] != PLACEHOLDER
    requires eager && |window| - start < NAME_LENGTH + 2 ==>
      PLACEHOLDER !in tail[..Min(NAME_LENGTH + 2 - (|window| - start), |tail|)]
    ensures forall e :: Closes(window + tail, start, e) ==>
      e >= |window| && (eager ==> e > start + NAME_LENGTH + 1)
  {
    var before := window + tail;
    assert forall i :: start < i < |window| ==> before[i] == window[i];
    assert forall i :: |window| <= i < |before| ==> before[i] == tail[i - |window|];
    if eager && |window| - start < NAME_LENGTH + 2 {
      var ahead := tail[..Min(NAME_LENGTH + 2 - (|window| - start), |tail|)];
      assert forall i :: |window| <= i < |window| + |ahead| ==> before[i] == ahead[i - |window|];
    }
  }

  lemma PassNotSeen(callback: string -> string, eager: bool, room: nat, window: string, tail: string, start: nat)
    requires start < |window| && forall i :: start < i < |window| ==> window[i] != PLACEHOLDER
    requires eager && |window| - start < NAME_LENGTH + 2 ==>
      PLACEHOLDER !in tail[..Min(NAME_LENGTH + 2 - (|window| - start), |tail|)]
    ensures Pass(callback, eager, room, window + tail, |window|, start, window + tail, start + 1)
  {
    NotSeen(eager, window, tail, start);
  }

  /** What was read ahead continues the window. */
  lemma ClosesAhead(before: string, window: string, tail: string, start: nat, between: string, rest: string)
    requires before == window + tail && start < |window| && window[start] == PLACEHOLDER
    requires window[start + 1..] + tail == between + [PLACEHOLDER] + rest && PLACEHOLDER !in between
    ensures var e := start + 1 + |between|;
      Closes(before, start, e) && before[start + 1..e] == between && before[e + 1..] == rest
      && before[..start] == window[..start] && before[..start + 1] == window[..start + 1]
  {
    var seen := between + [PLACEHOLDER] + rest;
    assert before[start + 1..] == seen;
    var e := start + 1 + |between|;
    assert before[start + 1..e] == seen[..|between|] == between;
    assert before[e + 1..] == seen[|between| + 1..] == rest;
    assert before[e] == seen[|between|];
    assert forall i :: start < i < e ==> before[i] == between[i - start - 1];
  }

  // ---------------------------------------------------------------- all windows together

  /** Where in the text the first k windows of these sizes end. */
  function Edge(size: nat -> nat, k: nat): nat {
    if k == 0 then 0 else Edge(size, k - 1) + size(k - 1)
  }

  /** No window from the k-th on ends at a hazard of what is left for it. */
  ghost predicate GoodEdges(callback: string -> string, size: nat -> nat, k: nat, left: string)
    requires WellFormed(callback, left)
  {
    forall j :: j >= k ==> !Hazard(callback, left, Edge(size, j) - Edge(size, k))
  }

  lemma WindowAdds(callback: string -> string, size: nat -> nat, k: nat, text: string, left: string,
                   out: string, rest: string)
    requires WindowServed(callback, left, out, rest) && GoodEdges(callback, size, k, left)
    requires |out| == size(k) || rest == []
    ensures text + Expand(callback, left) == text + out + Expand(callback, rest)
    ensures |Expand(callback, rest)| == |Expand(callback, left)| - |out|
    ensures GoodEdges(callback, size, k + 1, rest)
  {
    hide WellFormed, Expand, Hazard;
    assert text + (out + Expand(callback, rest)) == text + out + Expand(callback, rest);
    if rest == [] {
      NoHazard(callback);
    } else {
      forall j | j >= k + 1 ensures !Hazard(callback, rest, Edge(size, j) - Edge(size, k + 1)) {
        assert !Hazard(callback, left, Edge(size, j) - Edge(size, k));
      }
    }
  }

  lemma NoHazard(callback: string -> string)
    ensures Expand(callback, []) == [] && forall edge: int :: !Hazard(callback, [], edge)
  {
  }

  /** The caller: windows of any sizes until one stays empty.  If none of them ends at a
      hazard of the template, they are together the text that the template stands for. */
  method ServeAll(r: AbstractResponse, size: nat -> nat) returns (text: string)
    requires r.processing && r.eager && WellFormed(r.callback, r.Tail())
    requires forall k :: size(k) > 0
    requires GoodEdges(r.callback, size, 0, r.Tail())
    modifies r
    ensures text == Expand(r.callback, old(r.Tail()))
  {
    hide WellFormed, Expand, Hazard, WindowServed, Values;
    text := [];
    var k, len := 0, 1;
    assert text + Expand(r.callback, r.Tail()) == Expand(r.callback, r.Tail());
    while len != 0
      invariant WellFormed(r.callback, r.Tail())
      invariant text + Expand(r.callback, r.Tail()) == Expand(r.callback, old(r.Tail()))
      invariant GoodEdges(r.callback, size, k, r.Tail())
      invariant len == 0 ==> r.Tail() == []
      decreases |Expand(r.callback, r.Tail())|, len
    {
      ghost var left := r.Tail();
      FirstEdge(r.callback, size, k, left);
      var data := new char[size(k)];
      len := r.FillBufferAndProcessTemplates(data);
      ghost var out := data[..len];
      StillWellFormed(r.callback, left, out, r.Tail());
      WindowAdds(r.callback, size, k, text, left, out, r.Tail());
      text := text + data[..len];
      k := k + 1;
    }
    NoHazard(r.callback);
  }

  lemma FirstEdge(callback: string -> string, size: nat -> nat, k: nat, left: string)
    requires WellFormed(callback, left) && GoodEdges(callback, size, k, left)
    ensures !Hazard(callback, left, size(k))
  {
    assert Edge(size, k + 1) - Edge(size, k) == size(k);
  }

  lemma StillWellFormed(callback: string -> string, left: string, out: string, rest: string)
    requires WindowServed(callback, left, out, rest)
    ensures WellFormed(callback, rest)
  {
  }

  /** No escaped percent sign has another '%' within reach, and text is behind every
      placeholder. */
  predicate Spaced(text: string)
    decreases |text|
  {
    if text == [] then true
    else if text[0] != PLACEHOLDER then Spaced(text[1..])
    else
      var e := Find(text, 1);
      e == |text| || ((if e == 1 then !Near(text[2..]) else e + 1 < |text|) && Spaced(text[e + 1..]))
  }

  /** Then there are no hazards, and windows of any sizes will do. */
  lemma {:induction false} NoHazardWhenSpaced(callback: string -> string, text: string, edge: int)
    requires WellFormed(callback, text) && Spaced(text)
    ensures !Hazard(callback, text, edge)
    decreases |text|
  {
    if text == [] {
    } else if text[0] != PLACEHOLDER {
      NoHazardWhenSpaced(callback, text[1..], edge - 1);
    } else {
      var e := Find(text, 1);
      if e < |text| {
        NoHazardWhenSpaced(callback, text[e + 1..], edge - |Value(callback, text[1..e])|);
      }
    }
  }
}
