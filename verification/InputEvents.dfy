/** From action dictionaries to the events the input helper replays. */
module InputEvents {
  import opened Bytes

  const LIMIT := 8192
  const MAX_TEXT := 2048
  const MAX_TICKS := 1000
  const MAX_COORDINATE := 32767
  const UNICODE := 0x0100_0000

  datatype Event =
    | Motion(x: int, y: int)
    | Button(number: nat, down: bool)
    | Key(symbol: nat, down: bool)

  type Point = (int, int)

  datatype Click = Left | Middle | Right | Back | Forward | Double | Triple

  datatype Mouse =
    | Move(to: Point)
    | Clicks(click: Click, at: Point)
    | Drag(left: bool, points: seq<Point>)
    | Scroll(dx: int, dy: int)
    | Buttons(entries: seq<(nat, bool)>)

  datatype Keyboard =
    | Text(text: string)
    | Keys(keys: seq<string>)
    | KeysDown(keys: seq<string>)
    | KeysUp(keys: seq<string>)

  datatype Item = Item(mouse: seq<Mouse>, keyboard: seq<Keyboard>)

  /** Key symbols by name, as the X11 headers and the key aliases give them. */
  type Names = map<string, nat>

  const RETURN := "Return"
  const TAB := "Tab"
  const BACKSPACE := "BackSpace"
  const SHIFT := "shift"

  /** One character stands for itself; every other key is looked up. */
  function Keysym(key: string, names: Names): Option<nat> {
    if |key| == 0 then None
    else if |key| == 1 then Some(if key[0] as int < 256 then key[0] as int else UNICODE + key[0] as int)
    else if key in names then Some(names[key]) else None
  }

  /* Text. */

  /** The key that carries a character on its upper half, on a US keyboard. */
  function Lowered(c: char): Option<char> {
    match c
    case '~' => Some('`') case '!' => Some('1') case '@' => Some('2') case '#' => Some('3') case '$' => Some('4')
    case '%' => Some('5') case '^' => Some('6') case '&' => Some('7') case '*' => Some('8') case '(' => Some('9')
    case ')' => Some('0') case '_' => Some('-') case '+' => Some('=') case '{' => Some('[') case '}' => Some(']')
    case '|' => Some('\\') case ':' => Some(';') case '"' => Some('\'') case '<' => Some(',') case '>' => Some('.')
    case '?' => Some('/')
    case _ => if 'A' <= c <= 'Z' then Some(c + 32 as char) else None
  }

  /** What a key types while shift is held. */
  function Raised(c: char): char {
    match c
    case '`' => '~' case '1' => '!' case '2' => '@' case '3' => '#' case '4' => '$'
    case '5' => '%' case '6' => '^' case '7' => '&' case '8' => '*' case '9' => '('
    case '0' => ')' case '-' => '_' case '=' => '+' case '[' => '{' case ']' => '}'
    case '\\' => '|' case ';' => ':' case '\'' => '"' case ',' => '<' case '.' => '>'
    case '/' => '?'
    case _ => if 'a' <= c <= 'z' then c - 32 as char else c
  }

  function KeyName(c: char): string {
    if c == '\n' || c == '\r' then RETURN
    else if c == '\t' then TAB
    else if c == 8 as char then BACKSPACE
    else if Lowered(c).Some? then [Lowered(c).value]
    else [c]
  }

  function Tap(symbol: nat): seq<Event> {
    [Key(symbol, true), Key(symbol, false)]
  }

  function CharEvents(c: char, names: Names): Option<seq<Event>> {
    var key, shift := Keysym(KeyName(c), names), Keysym(SHIFT, names);
    if key.None? then None
    else if Lowered(c).None? then Some(Tap(key.value))
    else if shift.None? then None
    else Some([Key(shift.value, true)] + Tap(key.value) + [Key(shift.value, false)])
  }

  function Both(a: Option<seq<Event>>, b: Option<seq<Event>>): Option<seq<Event>> {
    if a.None? || b.None? then None else Some(a.value + b.value)
  }

  function TextEvents(text: string, names: Names): Option<seq<Event>> {
    if text == [] then Some([]) else Both(CharEvents(text[0], names), TextEvents(text[1..], names))
  }

  /** A keyboard that has typed some text and on which shift may be held. */
  datatype Typist = Typist(shift: bool, typed: string)

  function CharOf(symbol: nat, shift: bool, names: Names): char
    requires Keymap(names)
  {
    if symbol == names[RETURN] then '\n'
    else if symbol == names[TAB] then '\t'
    else if symbol == names[BACKSPACE] then 8 as char
    else
      var code := if UNICODE <= symbol then symbol - UNICODE else symbol;
      var c := if 0 <= code < 0xD800 || 0xE000 <= code < 0x11_0000 then code as char else '?';
      if shift then Raised(c) else c
  }

  /** The named keys that text needs have symbols of their own, apart from those of characters. */
  predicate Keymap(names: Names) {
    && (forall k | k in {RETURN, TAB, BACKSPACE, SHIFT} :: k in names && 256 <= names[k] < UNICODE)
    && (forall k, l | k in {RETURN, TAB, BACKSPACE, SHIFT} && l in {RETURN, TAB, BACKSPACE, SHIFT} && k != l ::
          names[k] != names[l])
  }

  function Strike(t: Typist, e: Event, names: Names): Typist
    requires Keymap(names)
  {
    if !e.Key? then t
    else if e.symbol == names[SHIFT] then t.(shift := e.down)
    else if e.down then t.(typed := t.typed + [CharOf(e.symbol, t.shift, names)])
    else t
  }

  function Replay(t: Typist, events: seq<Event>, names: Names): Typist
    requires Keymap(names)
    decreases |events|
  {
    if events == [] then t else Replay(Strike(t, events[0], names), events[1..], names)
  }

  function LineEnds(text: string): string {
    if text == [] then [] else [if text[0] == '\r' then '\n' else text[0]] + LineEnds(text[1..])
  }

  lemma {:induction false} ReplayAppends(t: Typist, a: seq<Event>, b: seq<Event>, names: Names)
    requires Keymap(names)
    ensures Replay(t, a + b, names) == Replay(Replay(t, a, names), b, names)
    decreases |a|
  {
    if a == [] {
      assert a + b == b;
    } else {
      assert (a + b)[1..] == a[1..] + b;
      ReplayAppends(Strike(t, a[0], names), a[1..], b, names);
    }
  }

  /** Raising undoes lowering in the shift table, and what it leads to needs no shift. */
  lemma RaisedLowered(c: char)
    requires Lowered(c).Some?
    ensures Raised(Lowered(c).value) == c
    ensures Lowered(Lowered(c).value).None?
    ensures c as int < 128 && Lowered(c).value as int < 128
  {
  }

  /** And lowering undoes raising, so every key whose character shift changes is reached. */
  lemma LoweredRaised(k: char)
    requires Raised(k) != k
    ensures Lowered(Raised(k)) == Some(k)
  {
  }

  /** Characters have symbols of their own, apart from one another and from those of the named keys. */
  lemma KeysymsApart(c: char, d: char, names: Names)
    requires Keymap(names)
    ensures Keysym([c], names) == Keysym([d], names) <==> c == d
    ensures forall k | k in {RETURN, TAB, BACKSPACE, SHIFT} :: Keysym([c], names) != Keysym(k, names)
  {
  }

  /** Every character's key types that character, with and without shift as its events have it. */
  lemma CharTyped(c: char, names: Names, typed: string)
    requires Keymap(names)
    ensures CharEvents(c, names).Some?
    ensures Replay(Typist(false, typed), CharEvents(c, names).value, names)
            == Typist(false, typed + [if c == '\r' then '\n' else c])
  {
    KeyTyped(c, names);
    hide CharOf, Lowered, Keysym, KeyName;
    var key, shift, events := Keysym(KeyName(c), names).value, names[SHIFT], CharEvents(c, names).value;
    assert Keysym(SHIFT, names) == Some(shift);
    var start := Typist(false, typed);
    if Lowered(c).None? {
      assert events == [Key(key, true), Key(key, false)];
      assert events[1..] == [Key(key, false)] && events[1..][1..] == [];
      var after := Typist(false, typed + [if c == '\r' then '\n' else c]);
      assert Strike(start, events[0], names) == after && Strike(after, events[1], names) == after;
      assert Replay(after, events[1..], names) == after;
    } else {
      assert events == [Key(shift, true), Key(key, true), Key(key, false), Key(shift, false)];
      var held, after := Typist(true, typed), Typist(true, typed + [c]);
      assert Strike(start, events[0], names) == held;
      assert Strike(held, events[1], names) == after && Strike(after, events[2], names) == after;
      assert Strike(after, events[3], names) == Typist(false, typed + [c]);
      assert events[1..][1..] == events[2..] && events[2..][1..] == events[3..] && events[3..][1..] == [];
      assert Replay(after, events[3..], names) == Typist(false, typed + [c]);
      assert Replay(after, events[2..], names) == Typist(false, typed + [c]);
      assert Replay(held, events[1..], names) == Typist(false, typed + [c]);
    }
  }

  lemma KeyTyped(c: char, names: Names)
    requires Keymap(names)
    ensures Keysym(KeyName(c), names).Some? && Keysym(SHIFT, names) == Some(names[SHIFT])
    ensures Keysym(KeyName(c), names).value != names[SHIFT]
    ensures CharOf(Keysym(KeyName(c), names).value, Lowered(c).Some?, names) == if c == '\r' then '\n' else c
  {
    hide Lowered, Raised;
    if Lowered(c).Some? {
      RaisedLowered(c);
    }
    assert Lowered('\n').None? && Lowered('\r').None? && Lowered('\t').None? && Lowered(8 as char).None? by {
      Unlowered();
    }
  }

  lemma Unlowered()
    ensures Lowered('\n').None? && Lowered('\r').None? && Lowered('\t').None? && Lowered(8 as char).None?
  {
  }

  /** Typing round trip: replaying the events of any text types that text, with CR as LF. */
  lemma {:induction false} TextIsTyped(text: string, names: Names, typed: string)
    requires Keymap(names)
    ensures TextEvents(text, names).Some?
    ensures Replay(Typist(false, typed), TextEvents(text, names).value, names) == Typist(false, typed + LineEnds(text))
    ensures |TextEvents(text, names).value| <= 4 * |text|
  {
    hide CharEvents, Replay, TextEvents, LineEnds, Keymap;
    TextUnfolds(text, names);
    if text == [] {
      assert Replay(Typist(false, typed), [], names) == Typist(false, typed) by {
        NothingStruck(Typist(false, typed), names);
      }
      assert typed + [] == typed;
    } else {
      var c := if text[0] == '\r' then '\n' else text[0];
      CharTyped(text[0], names, typed);
      CharLength(text[0], names);
      TextIsTyped(text[1..], names, typed + [c]);
      ReplayAppends(Typist(false, typed), CharEvents(text[0], names).value, TextEvents(text[1..], names).value, names);
      assert typed + [c] + LineEnds(text[1..]) == typed + ([c] + LineEnds(text[1..]));
    }
  }

  lemma TextUnfolds(text: string, names: Names)
    ensures text == [] ==> TextEvents(text, names) == Some([]) && LineEnds(text) == []
    ensures text != [] ==>
              && TextEvents(text, names) == Both(CharEvents(text[0], names), TextEvents(text[1..], names))
              && LineEnds(text) == [if text[0] == '\r' then '\n' else text[0]] + LineEnds(text[1..])
  {
  }

  lemma NothingStruck(t: Typist, names: Names)
    requires Keymap(names)
    ensures Replay(t, [], names) == t
  {
  }

  lemma CharLength(c: char, names: Names)
    ensures CharEvents(c, names).Some? ==> |CharEvents(c, names).value| <= 4
  {
  }

  /* Pointer gestures. */

  predicate OnScreen(p: Point) {
    0 <= p.0 <= MAX_COORDINATE && 0 <= p.1 <= MAX_COORDINATE
  }

  function MotionTo(p: Point): Option<seq<Event>> {
    if OnScreen(p) then Some([Motion(p.0, p.1)]) else None
  }

  function Press(number: nat): seq<Event> {
    [Button(number, true), Button(number, false)]
  }

  function ClickButton(c: Click): nat {
    match c case Middle => 2 case Right => 3 case Back => 8 case Forward => 9 case _ => 1
  }

  function ClickCount(c: Click): nat {
    match c case Double => 2 case Triple => 3 case _ => 1
  }

  function Presses(number: nat, n: nat): seq<Event> {
    if n == 0 then [] else Presses(number, n - 1) + Press(number)
  }

  function ClickEvents(c: Click, at: Point): Option<seq<Event>> {
    Both(MotionTo(at), Some(Presses(ClickButton(c), ClickCount(c))))
  }

  /** `round(n / 8)`: to the nearest integer, and halves to the even one. */
  function RoundEighths(n: int): int {
    var q, r := n / 8, n % 8;
    if r < 4 || (r == 4 && q % 2 == 0) then q else q + 1
  }

  function Between(start: int, end: int, step: nat): int {
    RoundEighths(8 * start + (end - start) * step)
  }

  /** The first `n` of eight points on the way from one position to the next. */
  function Glide(start: Point, end: Point, n: nat): seq<Event> {
    if n == 0 then [] else Glide(start, end, n - 1) + [Motion(Between(start.0, end.0, n), Between(start.1, end.1, n))]
  }

  function Glides(points: seq<Point>): Option<seq<Event>> {
    if |points| < 2 then Some([])
    else if !OnScreen(points[1]) then None
    else Both(Some(Glide(points[0], points[1], 8)), Glides(points[1..]))
  }

  function DragEvents(left: bool, points: seq<Point>): Option<seq<Event>> {
    var number := if left then 1 else 3;
    if |points| < 2 then None
    else
      Both(MotionTo(points[0]), Both(Some([Button(number, true)]), Both(Glides(points), Some([Button(number, false)]))))
  }

  /** Interpolated points stay between their endpoints, and the last one is the endpoint. */
  lemma GlideStaysBetween(start: int, end: int, step: nat)
    requires step <= 8
    ensures start <= end ==> start <= Between(start, end, step) <= end
    ensures end <= start ==> end <= Between(start, end, step) <= start
    ensures step == 8 ==> Between(start, end, step) == end
  {
    if start <= end {
      EighthWithin(end - start, step);
    } else {
      EighthWithin(start - end, step);
    }
  }

  lemma EighthWithin(d: nat, step: nat)
    requires step <= 8
    ensures 0 <= d * step <= 8 * d
  {
  }

  lemma {:induction false} GlidesOnScreen(points: seq<Point>)
    requires Glides(points).Some? && points != [] && OnScreen(points[0])
    ensures forall e | e in Glides(points).value :: e.Motion? && OnScreen((e.x, e.y))
    ensures |points| >= 2 ==>
              var last := Glides(points).value[|Glides(points).value| - 1];
              Glides(points).value != [] && last == Motion(points[|points| - 1].0, points[|points| - 1].1)
  {
    if |points| >= 2 {
      GlideOnScreen(points[0], points[1], 8);
      GlideStaysBetween(points[0].0, points[1].0, 8);
      GlideStaysBetween(points[0].1, points[1].1, 8);
      GlidesOnScreen(points[1..]);
    }
  }

  lemma {:induction false} GlideOnScreen(start: Point, end: Point, n: nat)
    requires OnScreen(start) && OnScreen(end) && n <= 8
    ensures forall e | e in Glide(start, end, n) :: e.Motion? && OnScreen((e.x, e.y))
  {
    if n > 0 {
      GlideOnScreen(start, end, n - 1);
      GlideStaysBetween(start.0, end.0, n);
      GlideStaysBetween(start.1, end.1, n);
    }
  }

  /* Scrolling. */

  function Abs(n: int): nat {
    if n < 0 then -n else n
  }

  function Steps(dx: int, dy: int): nat {
    if Abs(dx) < Abs(dy) then Abs(dy) else Abs(dx)
  }

  /** How many ticks of one direction are due after `n` of the steps. */
  function Due(n: nat, ticks: int, steps: nat): nat
    requires 0 < steps
  {
    n * Abs(ticks) / steps
  }

  function TickAt(step: nat, ticks: int, number: nat, steps: nat): seq<Event>
    requires 0 < steps
  {
    if Due(step + 1, ticks, steps) > Due(step, ticks, steps) then Press(number) else []
  }

  function ScrollX(dx: int): nat { if dx > 0 then 7 else 6 }
  function ScrollY(dy: int): nat { if dy > 0 then 5 else 4 }

  function Scrolled(dx: int, dy: int, n: nat): seq<Event>
    requires n <= Steps(dx, dy)
  {
    if n == 0 then []
    else
      var steps := Steps(dx, dy);
      Scrolled(dx, dy, n - 1) + TickAt(n - 1, dx, ScrollX(dx), steps) + TickAt(n - 1, dy, ScrollY(dy), steps)
  }

  function ScrollEvents(dx: int, dy: int): Option<seq<Event>> {
    if Abs(dx) > MAX_TICKS || Abs(dy) > MAX_TICKS then None else Some(Scrolled(dx, dy, Steps(dx, dy)))
  }

  function Count(events: seq<Event>, number: nat): nat {
    if events == [] then 0
    else (if events[0] == Button(number, true) then 1 else 0) + Count(events[1..], number)
  }

  lemma {:induction false} CountAppends(a: seq<Event>, b: seq<Event>, number: nat)
    ensures Count(a + b, number) == Count(a, number) + Count(b, number)
  {
    if a == [] {
      assert a + b == b;
    } else {
      assert (a + b)[1..] == a[1..] + b;
      CountAppends(a[1..], b, number);
    }
  }

  lemma CountTick(step: nat, ticks: int, number: nat, steps: nat, other: nat)
    requires 0 < steps
    ensures Count(TickAt(step, ticks, number, steps), other) ==
            if other == number && Due(step + 1, ticks, steps) > Due(step, ticks, steps) then 1 else 0
  {
    var up := [Button(number, false)];
    assert up[1..] == [] && Press(number)[1..] == up;
    assert Count(up, other) == 0;
    assert Count(Press(number), other) == (if number == other then 1 else 0) + Count(up, other);
  }

  lemma Divided(x: nat, a: nat, s: nat)
    requires 0 < s && a <= s
    ensures x / s <= (x + a) / s <= x / s + 1
  {
    var q, r := x / s, x % s;
    assert x == q * s + r && 0 <= r < s;
    if r + a < s {
      Quotient(x + a, q, s, r + a);
    } else {
      Quotient(x + a, q + 1, s, r + a - s);
    }
  }

  lemma Quotient(x: nat, q: nat, s: nat, r: nat)
    requires 0 < s && r < s && x == q * s + r
    ensures x / s == q
  {
    var d := x / s;
    assert x == d * s + x % s;
    if d < q {
      NextMultiple(d, q, s);
    } else if q < d {
      NextMultiple(q, d, s);
    }
  }

  lemma NextMultiple(a: nat, b: nat, s: nat)
    requires a < b
    ensures a * s + s <= b * s
  {
    assert b * s == (a + 1) * s + (b - a - 1) * s;
  }

  lemma DueStep(n: nat, ticks: int, steps: nat)
    requires 0 < steps && Abs(ticks) <= steps
    ensures Due(n, ticks, steps) <= Due(n + 1, ticks, steps) <= Due(n, ticks, steps) + 1
  {
    assert (n + 1) * Abs(ticks) == n * Abs(ticks) + Abs(ticks);
    Divided(n * Abs(ticks), Abs(ticks), steps);
  }

  /** What one step sends, counted. */
  lemma CountStep(dx: int, dy: int, n: nat, number: nat)
    requires 0 < n <= Steps(dx, dy)
    ensures Count(Scrolled(dx, dy, n), number) ==
            Count(Scrolled(dx, dy, n - 1), number) + Count(TickAt(n - 1, dx, ScrollX(dx), Steps(dx, dy)), number)
            + Count(TickAt(n - 1, dy, ScrollY(dy), Steps(dx, dy)), number)
  {
    var before, steps := Scrolled(dx, dy, n - 1), Steps(dx, dy);
    var x, y := TickAt(n - 1, dx, ScrollX(dx), steps), TickAt(n - 1, dy, ScrollY(dy), steps);
    assert Scrolled(dx, dy, n) == before + x + y;
    hide Count, TickAt, Scrolled;
    CountAppends(before + x, y, number);
    CountAppends(before, x, number);
  }

  /** After every step the ticks sent in each direction are the rounded-down share of that direction's total. */
  lemma {:induction false} ScrollIsEven(dx: int, dy: int, n: nat)
    requires n <= Steps(dx, dy) && 0 < Steps(dx, dy)
    ensures Count(Scrolled(dx, dy, n), ScrollX(dx)) == Due(n, dx, Steps(dx, dy))
    ensures Count(Scrolled(dx, dy, n), ScrollY(dy)) == Due(n, dy, Steps(dx, dy))
  {
    hide Count, Due, TickAt, Scrolled;
    var steps := Steps(dx, dy);
    if n == 0 {
      NothingDue(dx, steps);
      NothingDue(dy, steps);
      NothingScrolled(dx, dy, ScrollX(dx));
      NothingScrolled(dx, dy, ScrollY(dy));
    } else {
      ScrollIsEven(dx, dy, n - 1);
      CountStep(dx, dy, n, ScrollX(dx));
      CountStep(dx, dy, n, ScrollY(dy));
      DueStep(n - 1, dx, steps);
      DueStep(n - 1, dy, steps);
      CountTick(n - 1, dx, ScrollX(dx), steps, ScrollX(dx));
      CountTick(n - 1, dx, ScrollX(dx), steps, ScrollY(dy));
      CountTick(n - 1, dy, ScrollY(dy), steps, ScrollX(dx));
      CountTick(n - 1, dy, ScrollY(dy), steps, ScrollY(dy));
    }
  }

  lemma NothingScrolled(dx: int, dy: int, number: nat)
    ensures Scrolled(dx, dy, 0) == [] && Count(Scrolled(dx, dy, 0), number) == 0
  {
  }

  lemma NothingDue(ticks: int, steps: nat)
    requires 0 < steps
    ensures Due(0, ticks, steps) == 0
  {
    assert 0 * Abs(ticks) == 0;
  }

  lemma TickOnly(step: nat, ticks: int, number: nat, steps: nat)
    requires 0 < steps && Abs(ticks) <= steps
    ensures forall e | e in TickAt(step, ticks, number, steps) :: e.Button? && e.number == number
    ensures |TickAt(step, ticks, number, steps)| == 2 * (Due(step + 1, ticks, steps) - Due(step, ticks, steps))
  {
    hide Due;
    DueStep(step, ticks, steps);
  }

  /** Nothing else is sent: every event is a press or a release of one of the two buttons. */
  lemma {:induction false} ScrolledOnlyTicks(dx: int, dy: int, n: nat)
    requires n <= Steps(dx, dy) && 0 < Steps(dx, dy)
    ensures forall e | e in Scrolled(dx, dy, n) :: e.Button? && e.number in {ScrollX(dx), ScrollY(dy)}
    ensures |Scrolled(dx, dy, n)| == 2 * (Due(n, dx, Steps(dx, dy)) + Due(n, dy, Steps(dx, dy)))
  {
    hide Due, TickAt;
    var steps := Steps(dx, dy);
    if n == 0 {
      NothingDue(dx, steps);
      NothingDue(dy, steps);
    } else {
      ScrolledOnlyTicks(dx, dy, n - 1);
      TickOnly(n - 1, dx, ScrollX(dx), steps);
      TickOnly(n - 1, dy, ScrollY(dy), steps);
    }
  }

  lemma AllDue(ticks: int, steps: nat)
    requires 0 < steps
    ensures Due(steps, ticks, steps) == Abs(ticks)
  {
    Quotient(steps * Abs(ticks), Abs(ticks), steps, 0);
  }

  /** A scroll sends exactly |dx| and |dy| ticks, each on the button of its direction, and nothing else. */
  lemma ScrollIsExact(dx: int, dy: int)
    requires ScrollEvents(dx, dy).Some?
    ensures Count(ScrollEvents(dx, dy).value, ScrollX(dx)) == Abs(dx)
    ensures Count(ScrollEvents(dx, dy).value, ScrollY(dy)) == Abs(dy)
    ensures |ScrollEvents(dx, dy).value| == 2 * (Abs(dx) + Abs(dy))
    ensures forall e | e in ScrollEvents(dx, dy).value :: e.Button? && e.number in {ScrollX(dx), ScrollY(dy)}
  {
    hide Count, Due, Scrolled;
    var steps := Steps(dx, dy);
    if steps > 0 {
      ScrollIsEven(dx, dy, steps);
      ScrolledOnlyTicks(dx, dy, steps);
      AllDue(dx, steps);
      AllDue(dy, steps);
    } else {
      NothingScrolled(dx, dy, ScrollX(dx));
      NothingScrolled(dx, dy, ScrollY(dy));
    }
  }

  /* Keys and whole actions. */

  function Downs(keys: seq<string>, names: Names): Option<seq<Event>> {
    if keys == [] then Some([])
    else if Keysym(keys[0], names).None? then None
    else Both(Some([Key(Keysym(keys[0], names).value, true)]), Downs(keys[1..], names))
  }

  /** Releases in the reverse order of the presses. */
  function Ups(keys: seq<string>, names: Names): Option<seq<Event>> {
    if keys == [] then Some([])
    else if Keysym(keys[0], names).None? then None
    else Both(Ups(keys[1..], names), Some([Key(Keysym(keys[0], names).value, false)]))
  }

  function ButtonEvents(entries: seq<(nat, bool)>): seq<Event> {
    if entries == [] then [] else [Button(entries[0].0, entries[0].1)] + ButtonEvents(entries[1..])
  }

  function MouseEvents(m: Mouse): Option<seq<Event>> {
    match m
    case Move(to) => MotionTo(to)
    case Clicks(click, at) => ClickEvents(click, at)
    case Drag(left, points) => DragEvents(left, points)
    case Scroll(dx, dy) => ScrollEvents(dx, dy)
    case Buttons(entries) => Some(ButtonEvents(entries))
  }

  function KeyboardEvents(k: Keyboard, names: Names): Option<seq<Event>> {
    match k
    case Text(text) => if |text| > MAX_TEXT then None else TextEvents(text, names)
    case Keys(keys) => Both(Downs(keys, names), Ups(keys, names))
    case KeysDown(keys) => Downs(keys, names)
    case KeysUp(keys) => Ups(keys, names)
  }

  function AllMouse(ms: seq<Mouse>): Option<seq<Event>> {
    if ms == [] then Some([]) else Both(AllMouse(ms[..|ms| - 1]), MouseEvents(ms[|ms| - 1]))
  }

  function AllKeyboard(ks: seq<Keyboard>, names: Names): Option<seq<Event>> {
    if ks == [] then Some([]) else Both(AllKeyboard(ks[..|ks| - 1], names), KeyboardEvents(ks[|ks| - 1], names))
  }

  function ItemEvents(item: Item, names: Names): Option<seq<Event>> {
    Both(AllMouse(item.mouse), AllKeyboard(item.keyboard, names))
  }

  /** A batch is refused as soon as an item takes it past 8192 events. */
  function BatchEvents(items: seq<Item>, names: Names): Option<seq<Event>> {
    if items == [] then Some([])
    else
      var all := Both(BatchEvents(items[..|items| - 1], names), ItemEvents(items[|items| - 1], names));
      if all.Some? && |all.value| > LIMIT then None else all
  }

  /* Complete gestures leave nothing pressed. */

  datatype Held = Held(isKey: bool, code: nat)

  /** What is pressed after some events, newest last; releasing anything but the newest is not well nested. */
  function Settle(held: seq<Held>, events: seq<Event>): Option<seq<Held>>
    decreases |events|
  {
    if events == [] then Some(held)
    else if events[0].Motion? then Settle(held, events[1..])
    else
      var it := if events[0].Key? then Held(true, events[0].symbol) else Held(false, events[0].number);
      if events[0].down then Settle(held + [it], events[1..])
      else if held != [] && held[|held| - 1] == it then Settle(held[..|held| - 1], events[1..])
      else None
  }

  /** From wherever the events start, they end with the same things pressed. */
  ghost predicate Neutral(events: seq<Event>) {
    forall held :: Settle(held, events) == Some(held)
  }

  lemma {:induction false} SettleAppends(held: seq<Held>, a: seq<Event>, b: seq<Event>)
    ensures Settle(held, a + b) == match Settle(held, a) case None => None case Some(h) => Settle(h, b)
    decreases |a|
  {
    if a == [] {
      assert a + b == b;
    } else {
      assert (a + b)[1..] == a[1..] + b;
      if a[0].Motion? {
        SettleAppends(held, a[1..], b);
      } else {
        var it := if a[0].Key? then Held(true, a[0].symbol) else Held(false, a[0].number);
        if a[0].down {
          SettleAppends(held + [it], a[1..], b);
        } else if held != [] && held[|held| - 1] == it {
          SettleAppends(held[..|held| - 1], a[1..], b);
        }
      }
    }
  }

  lemma NeutralAppends(a: seq<Event>, b: seq<Event>)
    requires Neutral(a) && Neutral(b)
    ensures Neutral(a + b)
  {
    hide Settle;
    forall held ensures Settle(held, a + b) == Some(held) {
      SettleAppends(held, a, b);
    }
  }

  /** Pressing and releasing around something neutral is neutral. */
  lemma NeutralWraps(isKey: bool, code: nat, inner: seq<Event>)
    requires Neutral(inner)
    ensures var down := if isKey then Key(code, true) else Button(code, true);
            var up := if isKey then Key(code, false) else Button(code, false);
            Neutral([down] + inner + [up]) && [down] + inner + [up] == [down] + (inner + [up])
  {
    var down := if isKey then Key(code, true) else Button(code, true);
    var up := if isKey then Key(code, false) else Button(code, false);
    var it := Held(isKey, code);
    forall held ensures Settle(held, [down] + inner + [up]) == Some(held) {
      var events := [down] + (inner + [up]);
      assert [down] + inner + [up] == events;
      assert events[1..] == inner + [up];
      SettleAppends(held + [it], inner, [up]);
      assert Settle(held + [it], inner) == Some(held + [it]);
      assert (held + [it])[..|held|] == held;
      assert [up][1..] == [];
      assert Settle(held + [it], [up]) == Some(held);
      assert Settle(held, events) == Settle(held + [it], inner + [up]);
    }
  }

  lemma NothingIsNeutral()
    ensures Neutral([])
  {
  }

  lemma {:induction false} MotionsAreNeutral(events: seq<Event>)
    requires forall e | e in events :: e.Motion?
    ensures Neutral(events)
  {
    forall held ensures Settle(held, events) == Some(held) {
      MotionsSettle(held, events);
    }
  }

  lemma {:induction false} MotionsSettle(held: seq<Held>, events: seq<Event>)
    requires forall e | e in events :: e.Motion?
    ensures Settle(held, events) == Some(held)
    decreases |events|
  {
    if events != [] {
      MotionsSettle(held, events[1..]);
    }
  }

  lemma TapIsNeutral(isKey: bool, code: nat)
    ensures Neutral(if isKey then Tap(code) else Press(code))
  {
    hide Neutral;
    NothingIsNeutral();
    NeutralWraps(isKey, code, []);
    assert [Key(code, true)] + [] + [Key(code, false)] == Tap(code);
    assert [Button(code, true)] + [] + [Button(code, false)] == Press(code);
  }

  lemma {:induction false} PressesAreNeutral(number: nat, n: nat)
    ensures Neutral(Presses(number, n))
  {
    hide Neutral;
    if n == 0 {
      NothingIsNeutral();
    } else {
      PressesAreNeutral(number, n - 1);
      TapIsNeutral(false, number);
      NeutralAppends(Presses(number, n - 1), Press(number));
    }
  }

  lemma {:induction false} GlideMoves(start: Point, end: Point, n: nat)
    ensures forall e | e in Glide(start, end, n) :: e.Motion?
  {
    if n > 0 {
      GlideMoves(start, end, n - 1);
    }
  }

  lemma {:induction false} GlidesMove(points: seq<Point>)
    requires Glides(points).Some?
    ensures forall e | e in Glides(points).value :: e.Motion?
  {
    if |points| >= 2 {
      GlideMoves(points[0], points[1], 8);
      GlidesMove(points[1..]);
    }
  }

  lemma {:induction false} ScrolledIsNeutral(dx: int, dy: int, n: nat)
    requires n <= Steps(dx, dy)
    ensures Neutral(Scrolled(dx, dy, n))
  {
    hide Neutral;
    NothingIsNeutral();
    if n > 0 {
      ScrolledIsNeutral(dx, dy, n - 1);
      TapIsNeutral(false, ScrollX(dx));
      TapIsNeutral(false, ScrollY(dy));
      var x := TickAt(n - 1, dx, ScrollX(dx), Steps(dx, dy));
      NeutralAppends(Scrolled(dx, dy, n - 1), x);
      NeutralAppends(Scrolled(dx, dy, n - 1) + x, TickAt(n - 1, dy, ScrollY(dy), Steps(dx, dy)));
    }
  }

  lemma {:induction false} TextIsNeutral(text: string, names: Names)
    requires TextEvents(text, names).Some?
    ensures Neutral(TextEvents(text, names).value)
  {
    hide Neutral;
    NothingIsNeutral();
    if text != [] {
      var key := Keysym(KeyName(text[0]), names).value;
      TapIsNeutral(true, key);
      if Lowered(text[0]).Some? {
        NeutralWraps(true, Keysym(SHIFT, names).value, Tap(key));
      }
      TextIsNeutral(text[1..], names);
      NeutralAppends(CharEvents(text[0], names).value, TextEvents(text[1..], names).value);
    }
  }

  lemma {:induction false} KeysAreNeutral(keys: seq<string>, names: Names)
    requires Both(Downs(keys, names), Ups(keys, names)).Some?
    ensures Neutral(Both(Downs(keys, names), Ups(keys, names)).value)
  {
    hide Neutral;
    NothingIsNeutral();
    if keys == [] {
      assert Downs(keys, names).value + Ups(keys, names).value == [];
    } else {
      KeysAreNeutral(keys[1..], names);
      var k, down, up := Keysym(keys[0], names).value, Downs(keys[1..], names).value, Ups(keys[1..], names).value;
      NeutralWraps(true, k, down + up);
      assert [Key(k, true)] + down + (up + [Key(k, false)]) == [Key(k, true)] + (down + up) + [Key(k, false)];
    }
  }

  predicate CompleteMouse(m: Mouse) { !m.Buttons? }

  predicate CompleteKeyboard(k: Keyboard) { k.Text? || k.Keys? }

  lemma DragIsNeutral(left: bool, points: seq<Point>)
    requires DragEvents(left, points).Some?
    ensures Neutral(DragEvents(left, points).value)
  {
    hide Neutral;
    var number := if left then 1 else 3;
    var way := Glides(points).value;
    GlidesMove(points);
    MotionsAreNeutral(way);
    NeutralWraps(false, number, way);
    var first := MotionTo(points[0]).value;
    MotionsAreNeutral(first);
    NeutralAppends(first, [Button(number, true)] + (way + [Button(number, false)]));
  }

  lemma MouseIsNeutral(m: Mouse)
    requires CompleteMouse(m) && MouseEvents(m).Some?
    ensures Neutral(MouseEvents(m).value)
  {
    hide Neutral;
    match m
    case Move(to) => MotionsAreNeutral(MotionTo(to).value);
    case Clicks(click, at) =>
      MotionsAreNeutral(MotionTo(at).value);
      PressesAreNeutral(ClickButton(click), ClickCount(click));
      NeutralAppends(MotionTo(at).value, Presses(ClickButton(click), ClickCount(click)));
    case Drag(left, points) => DragIsNeutral(left, points);
    case Scroll(dx, dy) => ScrolledIsNeutral(dx, dy, Steps(dx, dy));
  }

  lemma KeyboardIsNeutral(k: Keyboard, names: Names)
    requires CompleteKeyboard(k) && KeyboardEvents(k, names).Some?
    ensures Neutral(KeyboardEvents(k, names).value)
  {
    hide Neutral;
    if k.Text? {
      TextIsNeutral(k.text, names);
    } else {
      KeysAreNeutral(k.keys, names);
    }
  }

  lemma {:induction false} AllMouseIsNeutral(ms: seq<Mouse>)
    requires (forall m | m in ms :: CompleteMouse(m)) && AllMouse(ms).Some?
    ensures Neutral(AllMouse(ms).value)
  {
    hide Neutral, MouseEvents;
    NothingIsNeutral();
    if ms != [] {
      AllMouseIsNeutral(ms[..|ms| - 1]);
      MouseIsNeutral(ms[|ms| - 1]);
      NeutralAppends(AllMouse(ms[..|ms| - 1]).value, MouseEvents(ms[|ms| - 1]).value);
    }
  }

  lemma {:induction false} AllKeyboardIsNeutral(ks: seq<Keyboard>, names: Names)
    requires (forall k | k in ks :: CompleteKeyboard(k)) && AllKeyboard(ks, names).Some?
    ensures Neutral(AllKeyboard(ks, names).value)
  {
    hide Neutral, KeyboardEvents;
    NothingIsNeutral();
    if ks != [] {
      AllKeyboardIsNeutral(ks[..|ks| - 1], names);
      KeyboardIsNeutral(ks[|ks| - 1], names);
      NeutralAppends(AllKeyboard(ks[..|ks| - 1], names).value, KeyboardEvents(ks[|ks| - 1], names).value);
    }
  }

  /** A batch of complete gestures is a well-nested word of presses and releases that leaves nothing pressed. */
  lemma {:induction false} CompleteBatchIsNested(items: seq<Item>, names: Names)
    requires forall i | i in items ::
               (forall m | m in i.mouse :: CompleteMouse(m)) && (forall k | k in i.keyboard :: CompleteKeyboard(k))
    requires BatchEvents(items, names).Some?
    ensures Settle([], BatchEvents(items, names).value) == Some([])
    ensures Neutral(BatchEvents(items, names).value)
    ensures |BatchEvents(items, names).value| <= LIMIT
  {
    hide Settle, AllMouse, AllKeyboard;
    NothingIsNeutral();
    if items != [] {
      var front, last := items[..|items| - 1], items[|items| - 1];
      CompleteBatchIsNested(front, names);
      AllMouseIsNeutral(last.mouse);
      AllKeyboardIsNeutral(last.keyboard, names);
      NeutralAppends(AllMouse(last.mouse).value, AllKeyboard(last.keyboard, names).value);
      NeutralAppends(BatchEvents(front, names).value, ItemEvents(last, names).value);
    }
  }

  /* The compiler: every gesture appends to the shared list of events. */

  function Extended(events: seq<Event>, more: Option<seq<Event>>): Option<seq<Event>> {
    Both(Some(events), more)
  }

  lemma ExtendedByNothing(events: seq<Event>)
    ensures Extended(events, Some([])) == Some(events)
  {
    assert events + [] == events;
  }

  lemma ExtendedByBoth(events: seq<Event>, a: seq<Event>, more: Option<seq<Event>>)
    ensures Extended(events, Both(Some(a), more)) == Extended(events + a, more)
  {
    if more.Some? {
      assert events + (a + more.value) == events + a + more.value;
    }
  }

  method AddText(events: seq<Event>, text: string, names: Names) returns (r: Option<seq<Event>>)
    ensures r == Extended(events, if |text| > MAX_TEXT then None else TextEvents(text, names))
  {
    if |text| > MAX_TEXT {
      return None;
    }
    hide CharEvents;
    var all := events;
    assert text[0..] == text;
    for i := 0 to |text|
      invariant Extended(all, TextEvents(text[i..], names)) == Extended(events, TextEvents(text, names))
    {
      assert text[i..][1..] == text[i + 1..];
      var some := CharEvents(text[i], names);
      if some.None? {
        return None;
      }
      ExtendedByBoth(all, some.value, TextEvents(text[i + 1..], names));
      all := all + some.value;
    }
    ExtendedByNothing(all);
    return Some(all);
  }

  method AddGlide(events: seq<Event>, start: Point, end: Point) returns (all: seq<Event>)
    ensures all == events + Glide(start, end, 8)
  {
    all := events;
    for step := 1 to 9
      invariant all == events + Glide(start, end, step - 1)
    {
      all := all + [Motion(Between(start.0, end.0, step), Between(start.1, end.1, step))];
    }
  }

  method AddDrag(events: seq<Event>, left: bool, points: seq<Point>) returns (r: Option<seq<Event>>)
    ensures r == Extended(events, DragEvents(left, points))
  {
    hide Glide;
    if |points| < 2 || !OnScreen(points[0]) {
      return None;
    }
    var number := if left then 1 else 3;
    var move, down, up := [Motion(points[0].0, points[0].1)], [Button(number, true)], [Button(number, false)];
    var all := events + move + down;
    ghost var first := all;
    ExtendedByBoth(events, move, Both(Some(down), Both(Glides(points), Some(up))));
    ExtendedByBoth(events + move, down, Both(Glides(points), Some(up)));
    assert Extended(events, DragEvents(left, points)) == Extended(first, Both(Glides(points), Some(up)));
    hide DragEvents;
    assert points[0..] == points;
    for i := 1 to |points|
      invariant Extended(all, Glides(points[i - 1..])) == Extended(first, Glides(points))
    {
      assert points[i - 1..][1..] == points[i..];
      if !OnScreen(points[i]) {
        return None;
      }
      ExtendedByBoth(all, Glide(points[i - 1], points[i], 8), Glides(points[i..]));
      all := AddGlide(all, points[i - 1], points[i]);
    }
    ExtendedByNothing(all);
    ExtendedByBoth(first, Glides(points).value, Some(up));
    return Some(all + up);
  }

  method AddScroll(events: seq<Event>, dx: int, dy: int) returns (r: Option<seq<Event>>)
    ensures r == Extended(events, ScrollEvents(dx, dy))
  {
    if Abs(dx) > MAX_TICKS || Abs(dy) > MAX_TICKS {
      return None;
    }
    var steps, all := Steps(dx, dy), events;
    for step := 0 to steps
      invariant all == events + Scrolled(dx, dy, step)
    {
      var x := if (step + 1) * Abs(dx) / steps > step * Abs(dx) / steps then Press(ScrollX(dx)) else [];
      var y := if (step + 1) * Abs(dy) / steps > step * Abs(dy) / steps then Press(ScrollY(dy)) else [];
      assert all + x + y == events + (Scrolled(dx, dy, step) + x + y);
      all := all + x + y;
    }
    return Some(all);
  }

  method AddClicks(events: seq<Event>, click: Click, at: Point) returns (r: Option<seq<Event>>)
    ensures r == Extended(events, ClickEvents(click, at))
  {
    if !OnScreen(at) {
      return None;
    }
    var all, first := events + [Motion(at.0, at.1)], [Motion(at.0, at.1)];
    for i := 0 to ClickCount(click)
      invariant all == events + (first + Presses(ClickButton(click), i))
    {
      all := all + Press(ClickButton(click));
    }
    return Some(all);
  }

  method AddButtons(events: seq<Event>, entries: seq<(nat, bool)>) returns (all: seq<Event>)
    ensures all == events + ButtonEvents(entries)
  {
    all := events;
    assert entries[0..] == entries;
    for i := 0 to |entries|
      invariant all + ButtonEvents(entries[i..]) == events + ButtonEvents(entries)
    {
      assert entries[i..][1..] == entries[i + 1..];
      all := all + [Button(entries[i].0, entries[i].1)];
    }
    assert all + [] == all;
  }

  method AddDowns(events: seq<Event>, keys: seq<string>, names: Names) returns (r: Option<seq<Event>>)
    ensures r == Extended(events, Downs(keys, names))
  {
    hide Keysym;
    var all := events;
    assert keys[0..] == keys;
    for i := 0 to |keys|
      invariant Extended(all, Downs(keys[i..], names)) == Extended(events, Downs(keys, names))
    {
      assert keys[i..][1..] == keys[i + 1..];
      var symbol := Keysym(keys[i], names);
      if symbol.None? {
        return None;
      }
      ExtendedByBoth(all, [Key(symbol.value, true)], Downs(keys[i + 1..], names));
      all := all + [Key(symbol.value, true)];
    }
    ExtendedByNothing(all);
    return Some(all);
  }

  lemma {:induction false} UpsKnown(keys: seq<string>, i: nat, names: Names)
    requires i < |keys| && Keysym(keys[i], names).None?
    ensures Ups(keys, names).None?
  {
    if i > 0 {
      UpsKnown(keys[1..], i - 1, names);
    }
  }

  method AddUps(events: seq<Event>, keys: seq<string>, names: Names) returns (r: Option<seq<Event>>)
    ensures r == Extended(events, Ups(keys, names))
  {
    hide Keysym;
    var all, i: nat := events, |keys|;
    ExtendedByNothing(events);
    while i > 0
      invariant i <= |keys| && Some(all) == Extended(events, Ups(keys[i..], names))
    {
      i := i - 1;
      assert keys[i..][1..] == keys[i + 1..];
      var symbol := Keysym(keys[i], names);
      if symbol.None? {
        UpsKnown(keys, i, names);
        return None;
      }
      var more := Ups(keys[i + 1..], names).value;
      assert events + (more + [Key(symbol.value, false)]) == events + more + [Key(symbol.value, false)];
      all := all + [Key(symbol.value, false)];
    }
    assert keys[0..] == keys;
    return Some(all);
  }

  method AddMouse(events: seq<Event>, m: Mouse) returns (r: Option<seq<Event>>)
    ensures r == Extended(events, MouseEvents(m))
  {
    match m
    case Move(to) => return if OnScreen(to) then Some(events + [Motion(to.0, to.1)]) else None;
    case Clicks(click, at) => r := AddClicks(events, click, at);
    case Drag(left, points) => r := AddDrag(events, left, points);
    case Scroll(dx, dy) => r := AddScroll(events, dx, dy);
    case Buttons(entries) =>
      var all := AddButtons(events, entries);
      r := Some(all);
  }

  method AddKeyboard(events: seq<Event>, k: Keyboard, names: Names) returns (r: Option<seq<Event>>)
    ensures r == Extended(events, KeyboardEvents(k, names))
  {
    match k
    case Text(text) => r := AddText(events, text, names);
    case Keys(keys) =>
      r := AddDowns(events, keys, names);
      if r.Some? {
        ExtendedByBoth(events, Downs(keys, names).value, Ups(keys, names));
        r := AddUps(r.value, keys, names);
      }
    case KeysDown(keys) => r := AddDowns(events, keys, names);
    case KeysUp(keys) => r := AddUps(events, keys, names);
  }

  lemma {:induction false} AllMouseKnown(ms: seq<Mouse>, i: nat)
    requires i < |ms| && MouseEvents(ms[i]).None?
    ensures AllMouse(ms).None?
  {
    if i < |ms| - 1 {
      AllMouseKnown(ms[..|ms| - 1], i);
    }
  }

  lemma {:induction false} AllKeyboardKnown(ks: seq<Keyboard>, i: nat, names: Names)
    requires i < |ks| && KeyboardEvents(ks[i], names).None?
    ensures AllKeyboard(ks, names).None?
  {
    if i < |ks| - 1 {
      AllKeyboardKnown(ks[..|ks| - 1], i, names);
    }
  }

  method AddItem(events: seq<Event>, item: Item, names: Names) returns (r: Option<seq<Event>>)
    ensures r == Extended(events, ItemEvents(item, names))
  {
    hide MouseEvents, KeyboardEvents;
    var all, ms, ks := events, item.mouse, item.keyboard;
    ExtendedByNothing(events);
    for i := 0 to |ms|
      invariant Some(all) == Extended(events, AllMouse(ms[..i]))
    {
      assert ms[..i + 1][..i] == ms[..i];
      var next := AddMouse(all, ms[i]);
      if next.None? {
        AllMouseKnown(ms, i);
        return None;
      }
      ExtendedByBoth(events, AllMouse(ms[..i]).value, MouseEvents(ms[i]));
      all := next.value;
    }
    assert ms[..|ms|] == ms;
    ghost var first := all;
    ExtendedByNothing(first);
    for i := 0 to |ks|
      invariant Some(all) == Extended(first, AllKeyboard(ks[..i], names))
    {
      assert ks[..i + 1][..i] == ks[..i];
      var next := AddKeyboard(all, ks[i], names);
      if next.None? {
        AllKeyboardKnown(ks, i, names);
        return None;
      }
      ExtendedByBoth(first, AllKeyboard(ks[..i], names).value, KeyboardEvents(ks[i], names));
      all := next.value;
    }
    assert ks[..|ks|] == ks;
    ExtendedByBoth(events, AllMouse(ms).value, AllKeyboard(ks, names));
    return Some(all);
  }

  lemma {:induction false} BatchKnown(items: seq<Item>, i: nat, names: Names)
    requires i <= |items| && BatchEvents(items[..i], names).None?
    ensures BatchEvents(items, names).None?
  {
    if i < |items| {
      assert items[..|items| - 1][..i] == items[..i];
      BatchKnown(items[..|items| - 1], i, names);
    } else {
      assert items[..i] == items;
    }
  }

  method EventsForAction(items: seq<Item>, names: Names) returns (r: Option<seq<Event>>)
    ensures r == BatchEvents(items, names)
  {
    hide ItemEvents;
    var all: seq<Event> := [];
    for i := 0 to |items|
      invariant Some(all) == BatchEvents(items[..i], names)
    {
      assert items[..i + 1][..i] == items[..i];
      var next := AddItem(all, items[i], names);
      if next.None? || |next.value| > LIMIT {
        BatchKnown(items, i + 1, names);
        return None;
      }
      all := next.value;
    }
    assert items[..|items|] == items;
    return Some(all);
  }

  /** The longest text that is accepted never meets the limit on events by itself. */
  lemma TextFits(text: string, names: Names)
    requires Keymap(names) && |text| <= MAX_TEXT
    ensures BatchEvents([Item([], [Text(text)])], names) == TextEvents(text, names)
  {
    hide TextEvents;
    TextIsTyped(text, names, []);
    var k, item := Text(text), Item([], [Text(text)]);
    var events := TextEvents(text, names).value;
    assert [k][..0] == [] && [item][..0] == [];
    assert AllKeyboard([k], names) == Both(Some([]), KeyboardEvents(k, names));
    assert [] + events == events;
    assert ItemEvents(item, names) == Some(events);
  }
}
