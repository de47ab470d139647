/** What the compiled events do to a pointer: where each button goes down and up. */
module InputReplay {
  import opened Bytes
  import opened InputEvents

  /** A button or a key went down or up, a button at a place. */
  datatype Act =
    | Pressed(button: nat, at: Point)
    | Released(button: nat, at: Point)
    | KeyDown(symbol: nat)
    | KeyUp(symbol: nat)

  datatype Desk = Desk(pointer: Point, acts: seq<Act>)

  function Act1(d: Desk, e: Event): Desk {
    match e
    case Motion(x, y) => d.(pointer := (x, y))
    case Button(n, down) => d.(acts := d.acts + [if down then Pressed(n, d.pointer) else Released(n, d.pointer)])
    case Key(s, down) => d.(acts := d.acts + [if down then KeyDown(s) else KeyUp(s)])
  }

  function Acted(d: Desk, events: seq<Event>): Desk
    decreases |events|
  {
    if events == [] then d else Acted(Act1(d, events[0]), events[1..])
  }

  lemma {:induction false} ActedAppends(d: Desk, a: seq<Event>, b: seq<Event>)
    ensures Acted(d, a + b) == Acted(Acted(d, a), b)
    decreases |a|
  {
    if a == [] {
      assert a + b == b;
    } else {
      assert (a + b)[1..] == a[1..] + b;
      ActedAppends(Act1(d, a[0]), a[1..], b);
    }
  }

  lemma ActedOne(d: Desk, e: Event)
    ensures Acted(d, [e]) == Act1(d, e)
  {
    assert [e][1..] == [];
  }

  function Once(button: nat, at: Point): seq<Act> {
    [Pressed(button, at), Released(button, at)]
  }

  lemma PressActs(d: Desk, number: nat)
    ensures Acted(d, Press(number)) == d.(acts := d.acts + Once(number, d.pointer))
  {
    hide Acted;
    var down, up := Button(number, true), Button(number, false);
    assert Press(number) == [down] + [up];
    ActedAppends(d, [down], [up]);
    ActedOne(d, down);
    ActedOne(Act1(d, down), up);
    assert d.acts + [Pressed(number, d.pointer)] + [Released(number, d.pointer)] == d.acts + Once(number, d.pointer);
  }

  /** What each click does at its place. */
  function ClickActs(c: Click, at: Point): seq<Act> {
    match c
    case Left => Once(1, at)
    case Middle => Once(2, at)
    case Right => Once(3, at)
    case Back => Once(8, at)
    case Forward => Once(9, at)
    case Double => Once(1, at) + Once(1, at)
    case Triple => Once(1, at) + Once(1, at) + Once(1, at)
  }

  lemma PressesAct(d: Desk, number: nat, n: nat)
    requires 1 <= n <= 3
    ensures Acted(d, Presses(number, n)) ==
            d.(acts := d.acts + (var one := Once(number, d.pointer);
                                 if n == 1 then one else if n == 2 then one + one else one + one + one))
  {
    hide Acted;
    var one := Once(number, d.pointer);
    var d1, d2, d3 := d.(acts := d.acts + one), d.(acts := d.acts + (one + one)), d.(acts := d.acts + (one + one + one));
    assert d.acts + one + one == d.acts + (one + one) && d.acts + (one + one) + one == d.acts + (one + one + one);
    assert Presses(number, 0) == [] && [] + Press(number) == Press(number);
    PressActs(d, number);
    assert Presses(number, 1) == Press(number);
    ActedAppends(d, Presses(number, 1), Press(number));
    PressActs(d1, number);
    ActedAppends(d, Presses(number, 2), Press(number));
    PressActs(d2, number);
  }

  /** A click moves the pointer to its place and presses the right button there, as often as it should. */
  lemma ClickActsThere(c: Click, at: Point, d: Desk)
    ensures ClickEvents(c, at).Some? <==> 0 <= at.0 <= 32767 && 0 <= at.1 <= 32767
    ensures ClickEvents(c, at).Some? ==> Acted(d, ClickEvents(c, at).value) == Desk(at, d.acts + ClickActs(c, at))
  {
    hide Acted, Presses;
    if OnScreen(at) {
      var move := [Motion(at.0, at.1)];
      ActedAppends(d, move, Presses(ClickButton(c), ClickCount(c)));
      ActedOne(d, Motion(at.0, at.1));
      PressesAct(Desk(at, d.acts), ClickButton(c), ClickCount(c));
    }
  }

  /* Drags. */

  /** Each interpolated coordinate is the integer nearest to its share of the way, the even one of two. */
  lemma BetweenIsNearest(start: int, end: int, step: nat)
    ensures var exact := 8 * start + (end - start) * step;
            && -4 <= 8 * Between(start, end, step) - exact <= 4
            && (8 * Between(start, end, step) - exact in {-4, 4} ==> Between(start, end, step) % 2 == 0)
  {
  }

  lemma {:induction false} GlidesRefusedExactly(points: seq<Point>)
    ensures Glides(points).Some? <==> forall i | 1 <= i < |points| :: OnScreen(points[i])
  {
    if |points| >= 2 {
      GlidesRefusedExactly(points[1..]);
      assert forall i | 1 <= i < |points| :: points[1..][i - 1] == points[i];
      assert forall i | 1 <= i < |points[1..]| :: points[1..][i] == points[i + 1];
    }
  }

  lemma {:induction false} MotionsAct(d: Desk, events: seq<Event>)
    requires forall e | e in events :: e.Motion?
    ensures Acted(d, events).acts == d.acts
    ensures events != [] ==> var last := events[|events| - 1]; Acted(d, events).pointer == (last.x, last.y)
    decreases |events|
  {
    if events != [] {
      MotionsAct(Act1(d, events[0]), events[1..]);
    }
  }

  /**
   * A drag is refused exactly if it has fewer than two points or one of them is off the screen. It presses its button at
   * the first point and releases it at the last.
   */
  lemma DragActsThere(left: bool, points: seq<Point>, d: Desk)
    ensures DragEvents(left, points).Some? <==>
              |points| >= 2 && forall i | 0 <= i < |points| :: 0 <= points[i].0 <= 32767 && 0 <= points[i].1 <= 32767
    ensures DragEvents(left, points).Some? ==>
              var number, first, last := if left then 1 else 3, points[0], points[|points| - 1];
              Acted(d, DragEvents(left, points).value) == Desk(last, d.acts + [Pressed(number, first), Released(number, last)])
  {
    hide Acted, Glides;
    GlidesRefusedExactly(points);
    assert points != [] && OnScreen(points[0]) && Glides(points).Some? ==> forall i | 0 <= i < |points| :: OnScreen(points[i]);
    if DragEvents(left, points).Some? {
      var number, first, last := if left then 1 else 3, points[0], points[|points| - 1];
      var move, down, up, path := Motion(first.0, first.1), Button(number, true), Button(number, false), Glides(points).value;
      GlidesOnScreen(points);
      ActedOne(d, move);
      ActedAppends(d, [move], [down] + (path + [up]));
      var a := Desk(first, d.acts);
      ActedOne(a, down);
      ActedAppends(a, [down], path + [up]);
      var b := Desk(first, d.acts + [Pressed(number, first)]);
      MotionsAct(b, path);
      ActedAppends(b, path, [up]);
      ActedOne(Desk(last, b.acts), up);
      assert b.acts + [Released(number, last)] == d.acts + [Pressed(number, first), Released(number, last)];
    }
  }

  /* Scrolling. */

  lemma {:induction false} NeverPressed(events: seq<Event>, number: nat)
    requires forall e | e in events :: e.Button? && e.number != number
    ensures Count(events, number) == 0
  {
    if events != [] {
      assert events[0] in events;
      NeverPressed(events[1..], number);
    }
  }

  /**
   * A scroll is refused exactly above 1000 ticks. Else it presses buttons 7 or 6 for ticks to the right or left, 5 or 4
   * for ticks down or up, as many times as there are ticks, and no other.
   */
  lemma ScrollSent(dx: int, dy: int)
    ensures ScrollEvents(dx, dy).Some? <==> -1000 <= dx <= 1000 && -1000 <= dy <= 1000
    ensures ScrollEvents(dx, dy).Some? ==>
              var events := ScrollEvents(dx, dy).value;
              && (forall e | e in events :: e.Button? && e.number in {4, 5, 6, 7})
              && Count(events, 7) == (if dx > 0 then dx else 0) && Count(events, 6) == (if dx < 0 then -dx else 0)
              && Count(events, 5) == (if dy > 0 then dy else 0) && Count(events, 4) == (if dy < 0 then -dy else 0)
              && |events| == 2 * (Count(events, 4) + Count(events, 5) + Count(events, 6) + Count(events, 7))
  {
    hide Count, Scrolled;
    if ScrollEvents(dx, dy).Some? {
      ScrollIsExact(dx, dy);
      var events := ScrollEvents(dx, dy).value;
      NeverPressed(events, if dx > 0 then 6 else 7);
      NeverPressed(events, if dy > 0 then 4 else 5);
    }
  }

  /* Keys and single buttons. */

  /** Keys go down in the order given; a name that is unknown refuses them all. */
  lemma {:induction false} KeysGoDown(keys: seq<string>, names: Names)
    ensures Downs(keys, names).Some? <==> forall k | k in keys :: Keysym(k, names).Some?
    ensures Downs(keys, names).Some? ==>
              var events := Downs(keys, names).value;
              && |events| == |keys|
              && forall i | 0 <= i < |keys| ::
                   Keysym(keys[i], names).Some? && events[i] == Key(Keysym(keys[i], names).value, true)
  {
    hide Keysym;
    if keys != [] {
      KeysGoDown(keys[1..], names);
      assert forall k | k in keys :: k == keys[0] || k in keys[1..];
    }
  }

  /** They come up in the reverse order. */
  lemma {:induction false} KeysComeUp(keys: seq<string>, names: Names)
    ensures Ups(keys, names).Some? <==> forall k | k in keys :: Keysym(k, names).Some?
    ensures Ups(keys, names).Some? ==>
              var events, n := Ups(keys, names).value, |keys|;
              && |events| == n
              && forall i | 0 <= i < n ::
                   Keysym(keys[n - 1 - i], names).Some? && events[i] == Key(Keysym(keys[n - 1 - i], names).value, false)
  {
    hide Keysym;
    if keys != [] {
      KeysComeUp(keys[1..], names);
      assert forall k | k in keys :: k == keys[0] || k in keys[1..];
      var rest := keys[1..];
      assert forall i | 0 <= i < |rest| :: rest[i] == keys[i + 1];
    }
  }

  /** What each keyboard gesture sends. */
  lemma KeysSent(keys: seq<string>, names: Names)
    ensures KeyboardEvents(KeysDown(keys), names) == Downs(keys, names)
    ensures KeyboardEvents(KeysUp(keys), names) == Ups(keys, names)
    ensures KeyboardEvents(Keys(keys), names).Some? <==> forall k | k in keys :: Keysym(k, names).Some?
    ensures KeyboardEvents(Keys(keys), names).Some? ==>
              && Downs(keys, names).Some? && Ups(keys, names).Some?
              && KeyboardEvents(Keys(keys), names).value == Downs(keys, names).value + Ups(keys, names).value
  {
    KeysGoDown(keys, names);
    KeysComeUp(keys, names);
  }

  lemma {:induction false} ButtonsSent(entries: seq<(nat, bool)>)
    ensures |ButtonEvents(entries)| == |entries|
    ensures forall i | 0 <= i < |entries| :: ButtonEvents(entries)[i] == Button(entries[i].0, entries[i].1)
  {
    if entries != [] {
      ButtonsSent(entries[1..]);
    }
  }

  /* Whole batches. */

  type Part = Option<seq<Event>>

  function MouseParts(ms: seq<Mouse>): seq<Part> {
    if ms == [] then [] else [MouseEvents(ms[0])] + MouseParts(ms[1..])
  }

  function KeyboardParts(ks: seq<Keyboard>, names: Names): seq<Part> {
    if ks == [] then [] else [KeyboardEvents(ks[0], names)] + KeyboardParts(ks[1..], names)
  }

  /** Every gesture's events: item by item, in each the mouse before the keyboard, each in its order. */
  function Parts(items: seq<Item>, names: Names): seq<Part> {
    if items == [] then []
    else MouseParts(items[0].mouse) + KeyboardParts(items[0].keyboard, names) + Parts(items[1..], names)
  }

  function Flat(parts: seq<Part>): Part {
    if parts == [] then Some([]) else Both(parts[0], Flat(parts[1..]))
  }

  lemma {:induction false} FlatAppends(a: seq<Part>, b: seq<Part>)
    ensures Flat(a + b) == Both(Flat(a), Flat(b))
  {
    if a == [] {
      assert a + b == b;
      BothNothing(Flat(b));
    } else {
      assert (a + b)[1..] == a[1..] + b;
      FlatAppends(a[1..], b);
      BothTwice(a[0], Flat(a[1..]), Flat(b));
    }
  }

  lemma BothNothing(a: Part)
    ensures Both(Some([]), a) == a && Both(a, Some([])) == a
  {
    if a.Some? {
      assert [] + a.value == a.value && a.value + [] == a.value;
    }
  }

  lemma BothTwice(a: Part, b: Part, c: Part)
    ensures Both(Both(a, b), c) == Both(a, Both(b, c))
  {
    if a.Some? && b.Some? && c.Some? {
      assert a.value + b.value + c.value == a.value + (b.value + c.value);
    }
  }

  lemma {:induction false} MousePartsAppend(ms: seq<Mouse>, m: Mouse)
    ensures MouseParts(ms + [m]) == MouseParts(ms) + [MouseEvents(m)]
  {
    hide MouseEvents;
    if ms == [] {
      assert [m][1..] == [] && ms + [m] == [m];
    } else {
      assert (ms + [m])[1..] == ms[1..] + [m];
      MousePartsAppend(ms[1..], m);
    }
  }

  lemma {:induction false} KeyboardPartsAppend(ks: seq<Keyboard>, k: Keyboard, names: Names)
    ensures KeyboardParts(ks + [k], names) == KeyboardParts(ks, names) + [KeyboardEvents(k, names)]
  {
    hide KeyboardEvents;
    if ks == [] {
      assert [k][1..] == [] && ks + [k] == [k];
    } else {
      assert (ks + [k])[1..] == ks[1..] + [k];
      KeyboardPartsAppend(ks[1..], k, names);
    }
  }

  lemma FlatOne(a: Part)
    ensures Flat([a]) == a
  {
    assert [a][1..] == [];
    BothNothing(a);
  }

  lemma {:induction false} MouseIsFlat(ms: seq<Mouse>)
    ensures AllMouse(ms) == Flat(MouseParts(ms))
    decreases |ms|
  {
    hide MouseEvents, Both, Flat;
    if ms == [] {
      NothingIsFlat();
    } else {
      var front, last := ms[..|ms| - 1], ms[|ms| - 1];
      MouseIsFlat(front);
      assert front + [last] == ms;
      MousePartsAppend(front, last);
      FlatAppends(MouseParts(front), [MouseEvents(last)]);
      FlatOne(MouseEvents(last));
    }
  }

  lemma {:induction false} KeyboardIsFlat(ks: seq<Keyboard>, names: Names)
    ensures AllKeyboard(ks, names) == Flat(KeyboardParts(ks, names))
    decreases |ks|
  {
    hide KeyboardEvents, Both, Flat;
    if ks == [] {
      NothingIsFlat();
    } else {
      var front, last := ks[..|ks| - 1], ks[|ks| - 1];
      KeyboardIsFlat(front, names);
      assert front + [last] == ks;
      KeyboardPartsAppend(front, last, names);
      FlatAppends(KeyboardParts(front, names), [KeyboardEvents(last, names)]);
      FlatOne(KeyboardEvents(last, names));
    }
  }

  lemma NothingIsFlat()
    ensures Flat([]) == Some([])
  {
  }

  lemma {:induction false} PartsAppend(items: seq<Item>, item: Item, names: Names)
    ensures Parts(items + [item], names) ==
            Parts(items, names) + (MouseParts(item.mouse) + KeyboardParts(item.keyboard, names))
  {
    hide MouseParts, KeyboardParts;
    var last := MouseParts(item.mouse) + KeyboardParts(item.keyboard, names);
    if items == [] {
      assert items + [item] == [item] && [item][1..] == [];
      assert last + [] == last && [] + last == last;
    } else {
      assert (items + [item])[1..] == items[1..] + [item];
      PartsAppend(items[1..], item, names);
      var first := MouseParts(items[0].mouse) + KeyboardParts(items[0].keyboard, names);
      assert first + (Parts(items[1..], names) + last) == first + Parts(items[1..], names) + last;
    }
  }

  /** A batch is its gestures' events in order, and refused exactly if a gesture is or if they are more than 8192. */
  lemma {:induction false} BatchIsInOrder(items: seq<Item>, names: Names)
    ensures var all := Flat(Parts(items, names));
            BatchEvents(items, names) == if all.Some? && |all.value| <= 8192 then all else None
    decreases |items|
  {
    hide Parts, MouseParts, KeyboardParts, Flat, AllMouse, AllKeyboard;
    if items == [] {
      NothingIsFlat();
      NoParts(names);
    } else {
      var front, last := items[..|items| - 1], items[|items| - 1];
      BatchIsInOrder(front, names);
      assert front + [last] == items;
      PartsAppend(front, last, names);
      var mouse, keyboard := MouseParts(last.mouse), KeyboardParts(last.keyboard, names);
      FlatAppends(Parts(front, names), mouse + keyboard);
      FlatAppends(mouse, keyboard);
      MouseIsFlat(last.mouse);
      KeyboardIsFlat(last.keyboard, names);
    }
  }

  lemma NoParts(names: Names)
    ensures Parts([], names) == []
  {
  }

  /** One character stands for itself, by its code up to 255 and by Unicode above; every other key is looked up. */
  lemma KeysymExactly(key: string, names: Names)
    ensures Keysym(key, names) ==
            if |key| == 1 then Some(if key[0] as int < 256 then key[0] as int else 0x0100_0000 + key[0] as int)
            else if key != "" && key in names then Some(names[key])
            else None
  {
  }

  /** The keys of the characters that are not typed by themselves. */
  lemma NamedKeys(c: char)
    ensures KeyName('\n') == KeyName('\r') == "Return" && KeyName('\t') == "Tab" && KeyName(8 as char) == "BackSpace"
    ensures SHIFT == "shift"
  {
    hide Lowered;
  }

  /** Text is refused exactly if it is longer than 2048 characters. */
  lemma TextSent(text: string, names: Names)
    requires Keymap(names)
    ensures KeyboardEvents(Text(text), names) == if |text| <= 2048 then TextEvents(text, names) else None
    ensures KeyboardEvents(Text(text), names).Some? <==> |text| <= 2048
  {
    TextIsTyped(text, names, "");
  }
}
