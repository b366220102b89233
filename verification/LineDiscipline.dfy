/**
 The canonical mode of procv_read: one call either returns one byte of a completed line or takes
 one keystroke. The reference is an editor that turns the keystrokes into lines.

 The rings are first taken for bounded queues that forget their oldest item, then the queues are
 compared with the editor.
*/
module LineDiscipline {
  import opened RingBuffer

  const NEWLINE: int := 0x0A
  const BACKSPACE: int := 0x08
  const DELETE: int := 0x7F

  // ---- the reference: keystrokes edited into lines ----------------------------------------

  // The text of all completed lines, and the line being edited.
  datatype Edited = Edited(lines: seq<int>, partial: seq<int>)

  // What a keystroke appends to the line.
  function Typed(c: int): seq<int> {
    if c == DELETE then [0x1B, '[' as int, '3' as int, '~' as int] else [c]
  }

  function Keystroke(e: Edited, c: int): Edited {
    if c == BACKSPACE then Edited(e.lines, if e.partial == [] then [] else e.partial[..|e.partial| - 1])
    else if c == NEWLINE then Edited(e.lines + e.partial + [NEWLINE], [])
    else Edited(e.lines, e.partial + Typed(c))
  }

  function Edit(keys: seq<int>): Edited {
    if keys == [] then Edited([], []) else Keystroke(Edit(keys[..|keys| - 1]), keys[|keys| - 1])
  }

  lemma EditSnoc(keys: seq<int>, c: int)
    ensures Edit(keys + [c]) == Keystroke(Edit(keys), c)
  {
    assert (keys + [c])[..|keys|] == keys;
  }

  // Completed lines end with a newline, and a line being edited holds none.
  lemma {:induction false} LinesEnd(keys: seq<int>)
    ensures var e := Edit(keys);
            NEWLINE !in e.partial && (e.lines == [] || e.lines[|e.lines| - 1] == NEWLINE)
  {
    if keys != [] {
      LinesEnd(keys[..|keys| - 1]);
    }
  }

  // More keystrokes, backspaces among them, only add to the completed lines.
  lemma {:induction false} LinesGrow(keys: seq<int>, more: seq<int>)
    ensures Edit(keys).lines <= Edit(keys + more).lines
    decreases |more|
  {
    if more == [] {
      assert keys + more == keys;
    } else {
      var init := more[..|more| - 1];
      assert keys + more == (keys + init) + [more[|more| - 1]];
      EditSnoc(keys + init, more[|more| - 1]);
      LinesGrow(keys, init);
    }
  }

  // A backspace takes the last character back, but never a completed line.
  lemma BackspaceErases(keys: seq<int>, c: int)
    ensures c != BACKSPACE && c != NEWLINE && c != DELETE ==> Edit(keys + [c] + [BACKSPACE]) == Edit(keys)
    ensures Edit(keys + [NEWLINE] + [BACKSPACE]) == Edit(keys + [NEWLINE])
    ensures Edit([BACKSPACE]) == Edit([]) == Edited([], [])
  {
    EditSnoc(keys, c);
    EditSnoc(keys + [c], BACKSPACE);
    EditSnoc(keys, NEWLINE);
    EditSnoc(keys + [NEWLINE], BACKSPACE);
    EditSnoc([], BACKSPACE);
    assert [] + [BACKSPACE] == [BACKSPACE];
    var partial := Edit(keys).partial;
    assert (partial + [c])[..|partial|] == partial;
  }

  // Characters other than backspace, newline and delete are what the line is made of.
  lemma {:induction false} LineTyped(keys: seq<int>, text: seq<int>)
    requires forall k :: 0 <= k < |text| ==> text[k] != 0x08 && text[k] != 0x0A && text[k] != 0x7F
    ensures Edit(keys + text) == Edited(Edit(keys).lines, Edit(keys).partial + text)
    decreases |text|
  {
    hide Edit;
    if text == [] {
      assert keys + text == keys && Edit(keys).partial + text == Edit(keys).partial;
    } else {
      var init, c := text[..|text| - 1], text[|text| - 1];
      LineTyped(keys, init);
      assert keys + text == keys + init + [c] && Edit(keys).partial + text == Edit(keys).partial + init + [c];
      EditSnoc(keys + init, c);
    }
  }

  // Newline completes the line, and delete is kept as its escape sequence.
  lemma LineCompleted(keys: seq<int>)
    ensures Edit(keys + [0x0A]) == Edited(Edit(keys).lines + Edit(keys).partial + [0x0A], [])
    ensures Edit(keys + [0x7F]) == Edited(Edit(keys).lines, Edit(keys).partial + [0x1B, 0x5B, 0x33, 0x7E])
  {
    EditSnoc(keys, 0x0A);
    EditSnoc(keys, 0x7F);
  }

  // No line grew beyond the 255 characters that the buffer can hold.
  ghost predicate Short(keys: seq<int>) {
    keys == [] ||
    var init, c := keys[..|keys| - 1], keys[|keys| - 1];
    Short(init) && (c == BACKSPACE || |Edit(init).partial| + |Typed(c)| <= 255)
  }

  lemma ShortSnoc(keys: seq<int>, c: int)
    ensures Short(keys + [c]) <==> Short(keys) && (c == BACKSPACE || |Edit(keys).partial| + |Typed(c)| <= 255)
  {
    assert (keys + [c])[..|keys|] == keys;
  }

  lemma Typing(text: seq<int>)
    requires forall k :: 0 <= k < |text| ==> text[k] != 0x08 && text[k] != 0x0A && text[k] != 0x7F
    ensures Edit(text).partial == text && Short([])
  {
    LineTyped([], text);
    assert [] + text == text;
  }

  // A line of up to 255 characters, its newline included, is not too long.
  lemma {:induction false} ShortMeans(text: seq<int>)
    requires forall k :: 0 <= k < |text| ==> text[k] != 0x08 && text[k] != 0x0A && text[k] != 0x7F
    ensures Short(text) <==> |text| <= 255
    ensures Short(text + [0x0A]) <==> |text| <= 254
  {
    hide Edit, Short;
    Typing(text);
    ShortSnoc(text, 0x0A);
    if text != [] {
      var init, c := text[..|text| - 1], text[|text| - 1];
      assert text == init + [c];
      Typing(init);
      ShortMeans(init);
      ShortSnoc(init, c);
    }
  }

  // ---- the buffer against the editor ------------------------------------------------------

  ghost predicate Complete(contents: seq<int>) {
    contents != [] && contents[|contents| - 1] == NEWLINE
  }

  // `out` has been returned, and the buffer holds the rest of a completed line or the line being edited.
  ghost predicate InStep(out: seq<int>, contents: seq<int>, e: Edited) {
    if Complete(contents) then e.lines == out + contents && e.partial == []
    else e.lines == out && e.partial == contents
  }

  lemma Drain(out: seq<int>, contents: seq<int>, rest: seq<int>, b: int, e: Edited)
    requires InStep(out, contents, e) && Complete(contents) && [b] + rest == contents
    ensures InStep(out + [b], rest, e)
  {
    assert out + contents == out + [b] + rest;
    if rest != [] {
      assert rest[|rest| - 1] == contents[|contents| - 1];
    }
  }

  lemma Erase(out: seq<int>, contents: seq<int>, e: Edited)
    requires InStep(out, contents, e) && !Complete(contents) && NEWLINE !in e.partial
    ensures InStep(out, if contents == [] then [] else contents[..|contents| - 1], Keystroke(e, BACKSPACE))
  {
  }

  lemma Append(out: seq<int>, contents: seq<int>, c: int, e: Edited)
    requires InStep(out, contents, e) && !Complete(contents) && c != BACKSPACE
    ensures InStep(out, contents + Typed(c), Keystroke(e, c))
  {
    var after := contents + Typed(c);
    assert after[|after| - 1] == Typed(c)[|Typed(c)| - 1];
    assert out + contents + [NEWLINE] == out + (contents + [NEWLINE]);
  }

  ghost predicate AllBytes(s: seq<int>) {
    forall k :: 0 <= k < |s| ==> 0 <= s[k] < 256
  }

  // What every run keeps: unless a line was too long, the buffer is in step with the editor.
  ghost predicate Faithful(out: seq<int>, contents: seq<int>, keys: seq<int>) {
    AllBytes(contents) && (Short(keys) ==> InStep(out, contents, Edit(keys)))
  }

  lemma DrainFaithful(out: seq<int>, contents: seq<int>, rest: seq<int>, b: int, keys: seq<int>)
    requires Faithful(out, contents, keys) && Complete(contents) && b == contents[0] && rest == contents[1..]
    ensures Faithful(out + [b], rest, keys) && 0 <= b < 256
  {
    assert contents == [b] + rest;
    if Short(keys) {
      Drain(out, contents, rest, b, Edit(keys));
    }
  }

  lemma EraseFaithful(out: seq<int>, contents: seq<int>, rest: seq<int>, keys: seq<int>)
    requires Faithful(out, contents, keys) && !Complete(contents)
    requires rest == if contents == [] then [] else contents[..|contents| - 1]
    ensures Faithful(out, rest, keys + [BACKSPACE])
  {
    hide Short, Edit;
    LinesEnd(keys);
    ShortSnoc(keys, BACKSPACE);
    EditSnoc(keys, BACKSPACE);
    if Short(keys) {
      Erase(out, contents, Edit(keys));
    }
  }

  lemma AppendFaithful(out: seq<int>, contents: seq<int>, after: seq<int>, c: int, keys: seq<int>)
    requires Faithful(out, contents, keys) && !Complete(contents) && c != BACKSPACE && AllBytes(after)
    requires |contents| + |Typed(c)| <= 255 ==> after == contents + Typed(c)
    ensures Faithful(out, after, keys + [c])
  {
    hide Short, Edit, Keystroke;
    ShortSnoc(keys, c);
    EditSnoc(keys, c);
    if Short(keys + [c]) {
      Append(out, contents, c, Edit(keys));
    }
  }

  // ---- the queues -------------------------------------------------------------------------

  const ROOM: nat := 255

  // A full queue forgets its oldest item.
  function Push(q: seq<int>, item: int): seq<int> {
    (if |q| == ROOM then q[1..] else q) + [item]
  }

  function PushAll(q: seq<int>, items: seq<int>): seq<int>
    decreases |items|
  {
    if items == [] then q else PushAll(Push(q, items[0]), items[1..])
  }

  // The buffer after a keystroke.
  function Took(buffer: seq<int>, c: int): seq<int> {
    if c != BACKSPACE then PushAll(buffer, Typed(c)) else if buffer == [] then [] else buffer[..|buffer| - 1]
  }

  lemma {:induction false} PushAllFacts(q: seq<int>, items: seq<int>)
    requires AllBytes(q) && AllBytes(items) && |q| <= ROOM
    ensures AllBytes(PushAll(q, items)) && |PushAll(q, items)| <= ROOM
    ensures |q| + |items| <= ROOM ==> PushAll(q, items) == q + items
    decreases |items|
  {
    if items == [] {
      assert q + items == q;
    } else {
      PushAllFacts(Push(q, items[0]), items[1..]);
      assert q + [items[0]] + items[1..] == q + items;
    }
  }

  lemma TookFaithful(out: seq<int>, buffer: seq<int>, keys: seq<int>, c: int)
    requires Faithful(out, buffer, keys) && !Complete(buffer) && 0 <= c < 256 && |buffer| <= ROOM
    ensures Faithful(out, Took(buffer, c), keys + [c]) && |Took(buffer, c)| <= ROOM
  {
    hide Short, Edit, InStep;
    if c == BACKSPACE {
      EraseFaithful(out, buffer, Took(buffer, c), keys);
    } else {
      PushAllFacts(buffer, Typed(c));
      AppendFaithful(out, buffer, Took(buffer, c), c, keys);
    }
  }

  // A keystroke arrives, or the process reads.
  datatype Event = Key(scancode: int) | Call

  // The keyboard queue, the line buffer, the keystrokes taken so far and the bytes returned.
  datatype Desk = Desk(pending: seq<int>, buffer: seq<int>, keys: seq<int>, out: seq<int>)

  ghost function Next(d: Desk, event: Event): Desk {
    match event
    case Key(scancode) => if scancode < 0 then d else d.(pending := Push(d.pending, scancode))
    case Call =>
      if Complete(d.buffer) then d.(buffer := d.buffer[1..], out := d.out + [d.buffer[0]])
      else if d.pending == [] then d
      else
        var c := d.pending[0] % 0x100;
        Desk(d.pending[1..], Took(d.buffer, c), d.keys + [c], d.out)
  }

  ghost function Run(d: Desk, events: seq<Event>): Desk {
    if events == [] then d else Next(Run(d, events[..|events| - 1]), events[|events| - 1])
  }

  ghost predicate Orderly(d: Desk) {
    && |d.pending| <= ROOM && |d.buffer| <= ROOM
    && (forall k :: 0 <= k < |d.pending| ==> d.pending[k] >= 0)
    && Faithful(d.out, d.buffer, d.keys)
  }

  lemma NextOrderly(d: Desk, event: Event)
    requires Orderly(d)
    ensures Orderly(Next(d, event))
  {
    hide Faithful, Took;
    if event.Call? && Complete(d.buffer) {
      DrainFaithful(d.out, d.buffer, d.buffer[1..], d.buffer[0], d.keys);
    } else if event.Call? && d.pending != [] {
      TookFaithful(d.out, d.buffer, d.keys, d.pending[0] % 0x100);
    }
  }

  lemma {:induction false} RunOrderly(d: Desk, events: seq<Event>)
    requires Orderly(d)
    ensures Orderly(Run(d, events))
  {
    if events != [] {
      RunOrderly(d, events[..|events| - 1]);
      NextOrderly(Run(d, events[..|events| - 1]), events[|events| - 1]);
    }
  }

  lemma RunSnoc(d: Desk, events: seq<Event>, n: nat)
    requires n < |events|
    ensures Run(d, events[..n + 1]) == Next(Run(d, events[..n]), events[n])
  {
    assert events[..n + 1][..n] == events[..n];
  }

  // ---- what becomes of the keystrokes -----------------------------------------------------

  // The scancodes that arrive, and the characters that they stand for.
  function Arrivals(events: seq<Event>): seq<int> {
    if events == [] then []
    else
      var last := events[|events| - 1];
      Arrivals(events[..|events| - 1]) + if last.Key? && last.scancode >= 0 then [last.scancode] else []
  }

  function Chars(codes: seq<int>): seq<int> {
    seq(|codes|, k requires 0 <= k < |codes| => codes[k] % 0x100)
  }

  lemma CharsConcat(a: seq<int>, b: seq<int>)
    ensures Chars(a + b) == Chars(a) + Chars(b)
  {
  }

  lemma LowByte(c: int, h: nat)
    requires 0 <= c <= 255
    ensures (c + 256 * h) % 0x100 == c
  {
  }

  // The character of a scancode is its low byte.
  lemma CharsMeans(codes: seq<int>, high: seq<nat>)
    requires |high| == |codes| && forall k :: 0 <= k < |codes| ==> 0 <= codes[k] <= 255
    ensures Chars(codes) == codes
    ensures Chars(seq(|codes|, k requires 0 <= k < |codes| => codes[k] + 256 * high[k])) == codes
  {
    forall k | 0 <= k < |codes|
      ensures (codes[k] + 256 * high[k]) % 0x100 == codes[k]
    {
      LowByte(codes[k], high[k]);
    }
  }

  // The keystrokes taken, followed by those that wait.
  function Stream(d: Desk): seq<int> {
    d.keys + Chars(d.pending)
  }

  // The number of keystrokes that a full keyboard queue forgets.
  ghost function Lost(d: Desk, events: seq<Event>): nat {
    if events == [] then 0
    else
      var init, last := events[..|events| - 1], events[|events| - 1];
      Lost(d, init) + if last.Key? && last.scancode >= 0 && |Run(d, init).pending| == ROOM then 1 else 0
  }

  lemma StreamNext(d: Desk, event: Event)
    requires |d.pending| <= ROOM
    ensures |Next(d, event).pending| <= ROOM
    ensures event.Call? || event.scancode < 0 ==> Stream(Next(d, event)) == Stream(d)
    ensures event.Key? && event.scancode >= 0 && |d.pending| < ROOM ==>
              Stream(Next(d, event)) == Stream(d) + [event.scancode % 0x100]
    ensures event.Key? && event.scancode >= 0 && |d.pending| == ROOM ==> |Stream(Next(d, event))| == |Stream(d)|
  {
    match event
    case Key(scancode) =>
      CharsConcat(d.pending, [scancode]);
      assert Chars([scancode]) == [scancode % 0x100];
      assert d.keys + (Chars(d.pending) + [scancode % 0x100]) == Stream(d) + [scancode % 0x100];
    case Call =>
      if !Complete(d.buffer) && d.pending != [] {
        assert d.pending == [d.pending[0]] + d.pending[1..];
        CharsConcat([d.pending[0]], d.pending[1..]);
        assert Chars([d.pending[0]]) == [d.pending[0] % 0x100];
      }
  }

  lemma CharsLength(codes: seq<int>)
    ensures |Chars(codes)| == |codes|
  {
  }

  lemma ArrivalsMore(d: Desk, init: seq<Event>, last: Event)
    ensures var all := init + [last];
            if last.Key? && last.scancode >= 0 then
              && |Arrivals(all)| == |Arrivals(init)| + 1
              && Stream(d) + Chars(Arrivals(all)) == (Stream(d) + Chars(Arrivals(init))) + [last.scancode % 0x100]
            else Arrivals(all) == Arrivals(init)
  {
    hide Stream;
    var all := init + [last];
    assert all[..|all| - 1] == init;
    if last.Key? && last.scancode >= 0 {
      CharsConcat(Arrivals(init), [last.scancode]);
      assert Chars([last.scancode]) == [last.scancode % 0x100];
    }
  }

  // Every keystroke that arrives is taken once, in order, or waits, exactly if none is forgotten.
  lemma {:induction false} Conserved(d: Desk, events: seq<Event>)
    requires |d.pending| <= ROOM
    ensures |Run(d, events).pending| <= ROOM
    ensures |Stream(Run(d, events))| + Lost(d, events) == |Stream(d)| + |Arrivals(events)|
    ensures Stream(Run(d, events)) == Stream(d) + Chars(Arrivals(events)) <==> Lost(d, events) == 0
  {
    if events == [] {
      assert Stream(d) + [] == Stream(d);
    } else {
      hide Stream, Next, Chars;
      var init, last := events[..|events| - 1], events[|events| - 1];
      Conserved(d, init);
      StreamNext(Run(d, init), last);
      ArrivalsMore(d, init, last);
      CharsLength(Arrivals(events));
    }
  }

  lemma {:induction false} ShortPrefix(keys: seq<int>, more: seq<int>)
    requires Short(keys + more)
    ensures Short(keys)
    decreases |more|
  {
    if more == [] {
      assert keys + more == keys;
    } else {
      assert (keys + more)[..|keys + more| - 1] == keys + more[..|more| - 1];
      ShortPrefix(keys, more[..|more| - 1]);
    }
  }

  // The bytes against all keystrokes, taken or waiting.
  lemma Delivered(d: Desk, all: seq<int>)
    requires Orderly(d) && Stream(d) == all && Short(all)
    ensures d.out <= Edit(all).lines
    ensures d.pending == [] && !Complete(d.buffer) ==> d.out == Edit(all).lines && d.buffer == Edit(all).partial
  {
    hide Short, Edit;
    ShortPrefix(d.keys, Chars(d.pending));
    LinesGrow(d.keys, Chars(d.pending));
    if d.pending == [] {
      assert Chars(d.pending) == [] && all == d.keys;
    }
  }

  lemma EscapeUnfolds(q: seq<int>)
    ensures PushAll(q, Typed(DELETE)) == Push(Push(Push(Push(q, 0x1B), '[' as int), '3' as int), '~' as int)
  {
    var t := Typed(DELETE);
    var q1, q2 := Push(q, t[0]), Push(Push(q, t[0]), t[1]);
    assert t[1..][1..] == t[2..] && t[2..][1..] == t[3..] && t[3..][1..] == [];
    assert PushAll(q, t) == PushAll(q1, t[1..]);
    assert PushAll(q1, t[1..]) == PushAll(q2, t[2..]);
    assert PushAll(q2, t[2..]) == PushAll(Push(q2, t[2]), t[3..]) == Push(Push(q2, t[2]), t[3]);
  }

  lemma PlainKey(q: seq<int>, c: int)
    requires c != DELETE && c != BACKSPACE
    ensures Took(q, c) == Push(q, c)
  {
    assert Typed(c) == [c] && [c][1..] == [];
    assert PushAll(q, [c]) == PushAll(Push(q, c), []) == Push(q, c);
  }

  lemma BytesOf(d: Desk)
    requires Orderly(d)
    ensures AllBytes(d.buffer)
  {
  }

  lemma RunNothing(d: Desk)
    ensures Run(d, []) == d
  {
  }

  // What an event adds to the keystrokes taken and the bytes returned.
  lemma NextGrows(d: Desk, event: Event)
    ensures d.keys <= Next(d, event).keys
    ensures Next(d, event).out
            == if event.Call? && Complete(d.buffer) then d.out + [d.buffer[0]] else d.out
  {
  }

  lemma OrderlyFacts(d: Desk)
    requires Orderly(d)
    ensures |d.pending| <= ROOM && (Short(d.keys) ==> InStep(d.out, d.buffer, Edit(d.keys)))
  {
  }

  // What a run leaves behind.
  lemma SessionEnds(start: Desk, events: seq<Event>)
    requires Orderly(start)
    ensures var d := Run(start, events);
            var all := Stream(start) + Chars(Arrivals(events));
            && (Short(d.keys) ==> d.out <= Edit(d.keys).lines)
            && (Short(d.keys) && !Complete(d.buffer) ==>
                  d.out == Edit(d.keys).lines && d.buffer == Edit(d.keys).partial)
            && (Stream(d) == all <==> Lost(start, events) == 0)
            && (Lost(start, events) == 0 && Short(all) ==>
                  && d.out <= Edit(all).lines
                  && (d.pending == [] && !Complete(d.buffer) ==> d.out == Edit(all).lines))
  {
    hide Orderly, Next, Run, Lost, Arrivals, Short, Edit, Stream, Chars;
    var d, all := Run(start, events), Stream(start) + Chars(Arrivals(events));
    OrderlyFacts(start);
    RunOrderly(start, events);
    OrderlyFacts(d);
    Conserved(start, events);
    if Lost(start, events) == 0 && Short(all) {
      Delivered(d, all);
    }
  }

  class Terminal {
    const rb: Ring           // keyboard_rb of the process
    const keyboard: Ring     // the scancodes of the keyboard driver
    ghost var keys: seq<int> // the keystrokes taken from the keyboard
    ghost var out: seq<int>  // the bytes returned

    ghost predicate Valid()
      reads this, rb, rb.buffer, keyboard, keyboard.buffer
    {
      && rb != keyboard && rb.buffer != keyboard.buffer
      && rb.Valid() && rb.size == 256 && keyboard.Valid() && keyboard.size == 256 && keyboard.init == -1
      && Orderly(Now())
    }

    ghost function Now(): Desk
      reads this, rb, keyboard
    {
      Desk(keyboard.contents, rb.contents, keys, out)
    }

    constructor ()
      ensures Valid() && fresh(rb) && fresh(rb.buffer) && fresh(keyboard) && fresh(keyboard.buffer)
      ensures Now() == Desk([], [], [], [])
    {
      rb := new Ring(256, -1);
      keyboard := new Ring(256, -1);
      keys, out := [], [];
    }

    // keyboard_push_front: a keystroke arrives.
    method Type(scancode: int)
      requires Valid()
      modifies keyboard, keyboard.buffer
      ensures Valid() && Now() == Next(old(Now()), Key(scancode))
    {
      hide Orderly;
      NextOrderly(Now(), Key(scancode));
      if scancode >= 0 {
        keyboard.PushFront(scancode);
      }
    }

    // Delete is kept as an escape sequence.
    method PushEscape()
      requires rb.Valid() && rb.size == 256
      modifies rb, rb.buffer
      ensures rb.Valid() && rb.contents == PushAll(old(rb.contents), Typed(DELETE))
    {
      ghost var q := rb.contents;
      EscapeUnfolds(q);
      rb.PushFront(0x1B);
      rb.PushFront('[' as int);
      rb.PushFront('3' as int);
      rb.PushFront('~' as int);
    }

    // A keystroke changes the line being edited.
    method Accept(c: int)
      requires rb.Valid() && rb.size == 256
      modifies rb, rb.buffer
      ensures rb.Valid() && rb.contents == Took(old(rb.contents), c)
    {
      if c == BACKSPACE {
        var dropped := rb.PopFront();
      } else if c == DELETE {
        PushEscape();
      } else {
        PlainKey(rb.contents, c);
        rb.PushFront(c);
      }
    }

    // procv_read with ICANON set.
    method Read() returns (n: int, byte: int)
      requires Valid()
      modifies this`keys, this`out, rb, rb.buffer, keyboard, keyboard.buffer
      ensures Valid() && Now() == Next(old(Now()), Call)
      ensures n == (if old(Complete(rb.contents)) then 1 else 0)
      ensures n == 1 ==> byte == old(rb.contents)[0]
    {
      hide Faithful, Took;
      NextOrderly(Now(), Call);
      n, byte := 0, 0;
      var empty := rb.Empty();
      var front := rb.Front();
      if !empty && front == NEWLINE {
        BytesOf(Now());
        byte := rb.PopBack();
        byte := byte % 0x100;
        out := out + [byte];
        n := 1;
        return;
      }
      var c := keyboard.PopBack();
      if c < 0 {
        return;
      }
      c := c % 0x100;
      Accept(c);
      keys := keys + [c];
    }

    // One event, and the byte that it returns if any.
    method Handle(event: Event) returns (bytes: seq<int>)
      requires Valid()
      modifies this`keys, this`out, rb, rb.buffer, keyboard, keyboard.buffer
      ensures Valid() && Now() == Next(old(Now()), event) && out == old(out) + bytes && old(keys) <= keys
    {
      hide Orderly, Next, Complete;
      NextGrows(Now(), event);
      bytes := [];
      match event
      case Key(scancode) => Type(scancode);
      case Call =>
        var n, byte := Read();
        if n == 1 {
          bytes := [byte];
        }
    }

    // Any interleaving of keystrokes and reads.
    method Session(events: seq<Event>) returns (bytes: seq<int>)
      requires Valid()
      modifies this`keys, this`out, rb, rb.buffer, keyboard, keyboard.buffer
      ensures Valid() && Now() == Run(old(Now()), events)
      ensures out == old(out) + bytes && old(keys) <= keys
      ensures Short(keys) ==> out <= Edit(keys).lines
      ensures Short(keys) && !Complete(rb.contents) ==> out == Edit(keys).lines && rb.contents == Edit(keys).partial
      ensures var all := old(Stream(Now())) + Chars(Arrivals(events));
              && (Stream(Now()) == all <==> Lost(old(Now()), events) == 0)
              && (Lost(old(Now()), events) == 0 && Short(all) ==>
                    && out <= Edit(all).lines
                    && (keyboard.contents == [] && !Complete(rb.contents) ==> out == Edit(all).lines))
    {
      hide Orderly, Next, Run, Lost, Arrivals, Short, Edit, Stream, Chars, Complete;
      ghost var start := Now();
      RunNothing(start);
      bytes := [];
      assert events[..0] == [];
      for i := 0 to |events|
        invariant Valid() && out == old(out) + bytes && old(keys) <= keys
        invariant Now() == Run(start, events[..i])
      {
        RunSnoc(start, events, i);
        var more := Handle(events[i]);
        bytes := bytes + more;
      }
      assert events[..|events|] == events;
      SessionEnds(start, events);
    }
  }
}
