// The scancode ring buffer and line reader of cpu/irq/keyboard.hpp.
module Keyboard {
  import opened Options

  const CAP: nat := 256

  type Scancode = c: int | 0 <= c < 256

  // ---------------------------------------------------------------------
  // Modifiers and translation.

  datatype Modifiers = Modifiers(shift: bool, ctrl: bool, alt: bool, caps: bool, ext: bool)

  /** sc & 0x80 marks a key release, sc & 0x7F is the key. */
  function UpdateModifiers(m: Modifiers, sc: Scancode): Modifiers {
    if sc == 0xE0 then m.(ext := true)
    else
      var down, code := sc < 0x80, sc % 0x80;
      var m' := match code
        case 0x2A => m.(shift := down)
        case 0x36 => m.(shift := down)
        case 0x1D => m.(ctrl := down)
        case 0x38 => m.(alt := down)
        case 0x3A => if down then m.(caps := !m.caps) else m
        case _ => m;
      m'.(ext := false)
  }

  const BACKSPACE: char := '\U{08}'

  /** Characters by scancode, without and with shift; codes beyond have none. */
  datatype Tables = Tables(unshifted: string, shifted: string)

  /** A row of the keyboard: four runs of keys, and those that type the same with shift. */
  function Row(digits: string, top: string, home: string, bar: char, low: string): (r: string)
    requires |digits| == |top| == |home| == 12 && |low| == 10
    ensures |r| == 58 && r[0x02..0x0E] == digits && r[0x10..0x1C] == top && r[0x1E..0x2A] == home
    ensures r[0x2B] == bar && r[0x2C..0x36] == low
    ensures r[0x01] == '\U{1B}' && r[0x0E] == BACKSPACE && r[0x0F] == '\t' && r[0x1C] == '\n'
    ensures r[0x37] == '*' && r[0x39] == ' '
    ensures r[0x00] == r[0x1D] == r[0x2A] == r[0x36] == r[0x38] == '\0'
  {
    ['\0', '\U{1B}'] + digits + [BACKSPACE, '\t'] + top + ['\n', '\0'] + home + ['\0', bar] + low
      + ['\0', '*', '\0', ' ']
  }

  const SET1: Tables := Tables(
    Row("1234567890-=", "qwertyuiop[]", "asdfghjkl;'`", '\\', "zxcvbnm,./"),
    Row("!@#$%^&*()_+", "QWERTYUIOP{}", "ASDFGHJKL:\"~", '|', "ZXCVBNM<>?"))

  /** '\0' stands for no character. */
  function Translate(t: Tables, m: Modifiers, sc: Scancode): char {
    if sc >= 0x80 then '\0'
    else
      var table := if m.shift then t.shifted else t.unshifted;
      var ch := if sc < |table| then table[sc] else '\0';
      if m.caps && 'a' <= ch <= 'z' then (ch as int - 32) as char else ch
  }

  /** What a key types: its entry of the plain or the shifted row, nothing when it
      is released or has none. */
  lemma KeyTypes(t: Tables, m: Modifiers, sc: Scancode)
    requires !m.caps
    ensures sc < 0x80 && !m.shift && sc < |t.unshifted| ==> Translate(t, m, sc) == t.unshifted[sc]
    ensures sc < 0x80 && m.shift && sc < |t.shifted| ==> Translate(t, m, sc) == t.shifted[sc]
    ensures 0x80 <= sc || (if m.shift then |t.shifted| <= sc else |t.unshifted| <= sc) ==> Translate(t, m, sc) == '\0'
  {
  }

  /** Caps lock makes capitals of small letters and changes nothing else. */
  lemma CapsLock(t: Tables, m: Modifiers, sc: Scancode)
    ensures var (c, d) := (Translate(t, m.(caps := false), sc), Translate(t, m.(caps := true), sc));
      if 'a' <= c <= 'z' then 'A' <= d <= 'Z' && d as int - 'A' as int == c as int - 'a' as int else d == c
  {
  }

  /** The rows hold 58 keys; where the characters are, small letters over their capitals. */
  lemma RowsOfSet1()
    ensures |SET1.unshifted| == |SET1.shifted| == 58
    ensures SET1.unshifted[0x02..0x0E] == "1234567890-=" && SET1.shifted[0x02..0x0E] == "!@#$%^&*()_+"
    ensures SET1.unshifted[0x10..0x1C] == "qwertyuiop[]" && SET1.shifted[0x10..0x1C] == "QWERTYUIOP{}"
    ensures SET1.unshifted[0x1E..0x2A] == "asdfghjkl;'`" && SET1.shifted[0x1E..0x2A] == "ASDFGHJKL:\"~"
    ensures SET1.unshifted[0x2C..0x36] == "zxcvbnm,./" && SET1.shifted[0x2C..0x36] == "ZXCVBNM<>?"
    ensures SET1.unshifted[0x0E] == SET1.shifted[0x0E] == BACKSPACE && SET1.unshifted[0x39] == SET1.shifted[0x39] == ' '
    ensures SET1.unshifted[0x1C] == SET1.shifted[0x1C] == '\n'
  {
  }

  /** The key right of the caps lock key. */
  lemma KeyOfA()
    ensures var none := Modifiers(false, false, false, false, false);
      && Translate(SET1, none, 0x1E) == 'a' && Translate(SET1, none.(shift := true), 0x1E) == 'A'
      && Translate(SET1, none.(caps := true), 0x1E) == 'A' && Translate(SET1, none, 0x9E) == '\0'
  {
    RowsOfSet1();
    assert SET1.unshifted[0x1E..0x2A][0] == 'a' && SET1.shifted[0x1E..0x2A][0] == 'A';
  }

  // ---------------------------------------------------------------------
  // What the modifiers are after any scancodes.

  function ModifiersAfter(q: seq<Scancode>, m: Modifiers): Modifiers {
    if q == [] then m else ModifiersAfter(q[1..], UpdateModifiers(m, q[0]))
  }

  /** The last of the codes of a key was a press, or there is none and it was down. */
  ghost predicate Down(q: seq<Scancode>, press: set<Scancode>, release: set<Scancode>, before: bool) {
    || (exists i :: 0 <= i < |q| && q[i] in press && NoneOf(q[i + 1..], press + release))
    || (before && NoneOf(q, press + release))
  }

  ghost predicate NoneOf(q: seq<Scancode>, codes: set<Scancode>) { forall j :: 0 <= j < |q| ==> q[j] !in codes }

  lemma DownFirst(q: seq<Scancode>, press: set<Scancode>, release: set<Scancode>, before: bool)
    requires q != [] && press !! release
    ensures Down(q, press, release, before)
      <==> Down(q[1..], press, release, q[0] in press || (before && q[0] !in release))
  {
    var rest, first := q[1..], q[0] in press || (before && q[0] !in release);
    assert NoneOf(q, press + release) <==> q[0] !in press + release && NoneOf(rest, press + release);
    if i :| 0 <= i < |q| && q[i] in press && NoneOf(q[i + 1..], press + release) {
      if i != 0 { assert rest[i - 1] == q[i] && rest[i - 1 + 1..] == q[i + 1..]; }
    }
    if i :| 0 <= i < |rest| && rest[i] in press && NoneOf(rest[i + 1..], press + release) {
      assert q[i + 1] == rest[i] && q[i + 1 + 1..] == rest[i + 1..];
    }
  }

  function Presses(q: seq<Scancode>, sc: Scancode): nat {
    if q == [] then 0 else (if q[0] == sc then 1 else 0) + Presses(q[1..], sc)
  }

  /** Shift, control and alt are down exactly when the last code of their keys was
      a press; caps lock changes with every press of its key; an extended code has
      begun exactly when the last code says so. */
  lemma {:induction false} ModifiersAre(q: seq<Scancode>, m: Modifiers)
    ensures var r := ModifiersAfter(q, m);
      && (r.shift <==> Down(q, {0x2A, 0x36}, {0xAA, 0xB6}, m.shift))
      && (r.ctrl <==> Down(q, {0x1D}, {0x9D}, m.ctrl))
      && (r.alt <==> Down(q, {0x38}, {0xB8}, m.alt))
      && (r.caps <==> m.caps != (Presses(q, 0x3A) % 2 == 1))
      && (r.ext <==> if q == [] then m.ext else q[|q| - 1] == 0xE0)
  {
    if q != [] {
      ModifiersAre(q[1..], UpdateModifiers(m, q[0]));
      UpdateIs(m, q[0]);
      DownFirst(q, {0x2A, 0x36}, {0xAA, 0xB6}, m.shift);
      DownFirst(q, {0x1D}, {0x9D}, m.ctrl);
      DownFirst(q, {0x38}, {0xB8}, m.alt);
    }
  }

  lemma UpdateIs(m: Modifiers, sc: Scancode)
    ensures var r := UpdateModifiers(m, sc);
      && r.shift == (sc in {0x2A, 0x36} || (m.shift && sc !in {0xAA, 0xB6}))
      && r.ctrl == (sc in {0x1D} || (m.ctrl && sc !in {0x9D}))
      && r.alt == (sc in {0x38} || (m.alt && sc !in {0xB8}))
      && r.caps == (m.caps != (sc == 0x3A)) && r.ext == (sc == 0xE0)
  {
  }

  // ---------------------------------------------------------------------
  // The line reader on a queue of scancodes.

  datatype Reading = Reading(line: string, used: nat, mods: Modifiers)

  /** What read_line returns, takes from the queue and leaves behind. */
  function ReadFrom(t: Tables, q: seq<Scancode>, m: Modifiers, line: string, max: nat): Reading
    decreases q
  {
    if max <= |line| || q == [] then Reading(line, 0, m)
    else
      var m' := UpdateModifiers(m, q[0]);
      var ch := Translate(t, m', q[0]);
      if ch == '\0' then Reading(line, 1, m')
      else if ch == '\n' then Reading(line + [ch], 1, m')
      else
        var r := ReadFrom(t, q[1..], m', EditOne(line, ch), max);
        r.(used := r.used + 1)
  }

  /** A reading that had taken k codes before. */
  ghost function After(r: Reading, k: nat): Reading { r.(used := r.used + k) }

  // The same thing said without the reader: type, then edit.

  /** The characters the scancodes type. */
  function Typed(t: Tables, q: seq<Scancode>, m: Modifiers): string {
    if q == [] then ""
    else
      var m' := UpdateModifiers(m, q[0]);
      var ch := Translate(t, m', q[0]);
      (if ch == '\0' then "" else [ch]) + Typed(t, q[1..], m')
  }

  /** Backspace takes back the last character, every other one is appended. */
  function Edit(line: string, typed: string): string
    decreases typed
  {
    if typed == "" then line
    else Edit(EditOne(line, typed[0]), typed[1..])
  }

  function EditOne(line: string, ch: char): string {
    if ch != BACKSPACE then line + [ch] else if line == "" then "" else line[..|line| - 1]
  }

  /** A backspace takes back the last character left by what was typed before. */
  lemma {:induction false} EditLast(line: string, typed: string, ch: char)
    ensures var before := Edit(line, typed);
      Edit(line, typed + [ch])
      == if ch != BACKSPACE then before + [ch] else if before == "" then "" else before[..|before| - 1]
    decreases typed
  {
    if typed == "" {
      assert [ch][1..] == "";
      assert Edit(line, [ch]) == Edit(EditOne(line, ch), "");
    } else {
      assert (typed + [ch])[1..] == typed[1..] + [ch];
      EditLast(EditOne(line, typed[0]), typed[1..], ch);
    }
  }

  /** Without backspaces the line is what was typed. */
  lemma {:induction false} EditPlain(line: string, typed: string)
    requires BACKSPACE !in typed
    ensures Edit(line, typed) == line + typed
    decreases typed
  {
    if typed != "" {
      EditPlain(line + [typed[0]], typed[1..]);
      assert typed == [typed[0]] + typed[1..];
    }
  }

  /** After `k` scancodes there is a reason to stop: the line is full, the queue
      is empty, or the last code typed nothing or a newline. */
  ghost predicate StopsAfter(t: Tables, q: seq<Scancode>, m: Modifiers, line: string, max: nat, k: nat)
    requires k <= |q|
  {
    || max <= |Edit(line, Typed(t, q[..k], m))|
    || k == |q|
    || (0 < k && Translate(t, ModifiersAfter(q[..k], m), q[k - 1]) in {'\0', '\n'})
  }

  /** Takes scancodes up to the first reason to stop, no fewer and no more; the
      line is the backspace-editing of what they type, within the limit, with a
      newline only at its end. */
  ghost predicate IsReading(t: Tables, q: seq<Scancode>, m: Modifiers, line: string, max: nat, r: Reading) {
    && r.used <= |q| && |r.line| <= max
    && r.mods == ModifiersAfter(q[..r.used], m)
    && r.line == Edit(line, Typed(t, q[..r.used], m))
    && '\n' !in r.line[..if |r.line| == 0 then 0 else |r.line| - 1]
    && StopsAfter(t, q, m, line, max, r.used)
    && forall k :: 0 <= k < r.used ==> !StopsAfter(t, q, m, line, max, k)
  }

  lemma TypedFirst(t: Tables, q: seq<Scancode>, m: Modifiers, line: string, k: nat)
    requires k < |q|
    ensures var m' := UpdateModifiers(m, q[0]);
      var (ch, rest) := (Translate(t, m', q[0]), q[1..][..k]);
      && ModifiersAfter(q[..k + 1], m) == ModifiersAfter(rest, m')
      && Edit(line, Typed(t, q[..k + 1], m)) == Edit(if ch == '\0' then line else EditOne(line, ch), Typed(t, rest, m'))
  {
    var m' := UpdateModifiers(m, q[0]);
    var ch, rest := Translate(t, m', q[0]), q[1..][..k];
    assert q[..k + 1][1..] == rest && q[..k + 1][0] == q[0];
    var typed := Typed(t, rest, m');
    assert Typed(t, q[..k + 1], m) == if ch == '\0' then typed else [ch] + typed;
    assert ([ch] + typed)[1..] == typed;
  }

  lemma StopsLater(t: Tables, q: seq<Scancode>, m: Modifiers, line: string, max: nat, k: nat)
    requires k < |q| && Translate(t, UpdateModifiers(m, q[0]), q[0]) !in {'\0', '\n'}
    ensures var m' := UpdateModifiers(m, q[0]);
      StopsAfter(t, q, m, line, max, k + 1)
      <==> StopsAfter(t, q[1..], m', EditOne(line, Translate(t, m', q[0])), max, k)
  {
    TypedFirst(t, q, m, line, k);
  }

  /** There is at most one reading. */
  lemma OnlyReading(t: Tables, q: seq<Scancode>, m: Modifiers, line: string, max: nat, r: Reading, r': Reading)
    requires IsReading(t, q, m, line, max, r) && IsReading(t, q, m, line, max, r')
    ensures r == r'
  {
  }

  /** The reader does not look at the queue. */
  lemma ReadNothing(t: Tables, q: seq<Scancode>, m: Modifiers, line: string, max: nat)
    requires |line| <= max && '\n' !in line && (max <= |line| || q == [])
    ensures IsReading(t, q, m, line, max, Reading(line, 0, m))
  {
    assert q[..0] == [] && Typed(t, [], m) == "" && ModifiersAfter([], m) == m;
  }

  /** The first scancode is the last one read. */
  lemma ReadOne(t: Tables, q: seq<Scancode>, m: Modifiers, line: string, max: nat)
    requires |line| < max && '\n' !in line && q != []
    requires Translate(t, UpdateModifiers(m, q[0]), q[0]) in {'\0', '\n'}
    ensures IsReading(t, q, m, line, max, ReadFrom(t, q, m, line, max))
  {
    var m' := UpdateModifiers(m, q[0]);
    assert q[..0] == [] && Typed(t, [], m) == "" && !StopsAfter(t, q, m, line, max, 0);
    TypedFirst(t, q, m, line, 0);
    assert q[1..][..0] == [] && Typed(t, [], m') == "" && ModifiersAfter([], m') == m';
    assert ModifiersAfter(q[..1], m) == m';
    assert StopsAfter(t, q, m, line, max, 1);
  }

  /** read_line is that reading. */
  lemma {:induction false} ReadIsEdit(t: Tables, q: seq<Scancode>, m: Modifiers, line: string, max: nat)
    requires |line| <= max && '\n' !in line
    ensures IsReading(t, q, m, line, max, ReadFrom(t, q, m, line, max))
    decreases q
  {
    if max <= |line| || q == [] {
      ReadNothing(t, q, m, line, max);
    } else if Translate(t, UpdateModifiers(m, q[0]), q[0]) in {'\0', '\n'} {
      ReadOne(t, q, m, line, max);
    } else {
      ReadOn(t, q, m, line, max);
    }
  }

  /** The case of a character that does not end the line. */
  lemma {:induction false} ReadOn(t: Tables, q: seq<Scancode>, m: Modifiers, line: string, max: nat)
    requires |line| < max && '\n' !in line && q != []
    requires Translate(t, UpdateModifiers(m, q[0]), q[0]) !in {'\0', '\n'}
    ensures IsReading(t, q, m, line, max, ReadFrom(t, q, m, line, max))
    decreases q, 0
  {
    var m' := UpdateModifiers(m, q[0]);
    var line' := EditOne(line, Translate(t, m', q[0]));
    ReadIsEdit(t, q[1..], m', line', max);
    var used := ReadFrom(t, q[1..], m', line', max).used;
    TypedFirst(t, q, m, line, used);
    StopsLater(t, q, m, line, max, used);
    forall k | 0 <= k < used + 1 ensures !StopsAfter(t, q, m, line, max, k) {
      if k == 0 { assert q[..0] == [] && Typed(t, [], m) == ""; } else { StopsLater(t, q, m, line, max, k - 1); }
    }
  }

  // ---------------------------------------------------------------------
  // The driver.

  function Ring(s: seq<Scancode>, tail: nat, head: nat): seq<Scancode>
    requires tail < |s| && head < |s|
  {
    if tail <= head then s[tail..head] else s[tail..] + s[..head]
  }

  lemma RingPops(s: seq<Scancode>, tail: nat, head: nat)
    requires tail < |s| && head < |s| && tail != head
    ensures var next := if tail + 1 == |s| then 0 else tail + 1;
      Ring(s, tail, head) == [s[tail]] + Ring(s, next, head)
  {
  }

  /** The next place in the ring. */
  function Next(i: nat): (r: nat)
    requires i < CAP
    ensures r == if i + 1 == CAP then 0 else i + 1
  {
    (i + 1) % CAP
  }

  /** One turn further on the way to the goal: `r` is left, of the queue from `used` on. */
  lemma TurnTakes(q0: seq<Scancode>, used: nat, r: Reading, goal: Reading)
    requires used <= |q0| && goal == After(r, used) && r.used <= |q0| - used
    ensures goal.used <= |q0| && q0[used..][r.used..] == q0[goal.used..] && goal.line == r.line && goal.mods == r.mods
  {
  }

  class Driver {
    const buf: array<Scancode>
    const tables: Tables
    var head: nat
    var tail: nat
    var mods: Modifiers

    ghost predicate Valid()
      reads this, buf
    {
      buf.Length == CAP && head < CAP && tail < CAP
    }

    /** What has been pushed and not popped, oldest first. */
    ghost function Queue(): seq<Scancode>
      requires Valid()
      reads this, buf
    {
      Ring(buf[..], tail, head)
    }

    constructor ()
      ensures Valid() && Queue() == [] && fresh(buf) && tables == SET1
    {
      tables := SET1;
      buf := new Scancode[CAP](_ => 0);
      head, tail := 0, 0;
      mods := Modifiers(false, false, false, false, false);
    }

    method Push(sc: Scancode) returns (ok: bool)
      requires Valid()
      modifies this`head, buf
      ensures Valid() && (ok <==> |old(Queue())| < CAP - 1)
      ensures Queue() == if ok then old(Queue()) + [sc] else old(Queue())
    {
      var next := Next(head);
      if next == tail { return false; }
      buf[head] := sc;
      head := next;
      return true;
    }

    method Pop() returns (r: Option<Scancode>)
      requires Valid()
      modifies this`tail
      ensures Valid()
      ensures old(Queue()) == [] ==> r == None && Queue() == []
      ensures old(Queue()) != [] ==> r == Some(old(Queue())[0]) && Queue() == old(Queue())[1..]
    {
      if tail == head { return None; }
      RingPops(buf[..], tail, head);
      r := Some(buf[tail]);
      tail := Next(tail);
    }

    method GetChar() returns (r: Option<char>)
      requires Valid()
      modifies this`tail, this`mods
      ensures Valid()
      ensures old(Queue()) == [] ==> r == None && Queue() == [] && mods == old(mods)
      ensures old(Queue()) != [] ==>
        && Queue() == old(Queue())[1..] && mods == UpdateModifiers(old(mods), old(Queue())[0])
        && var ch := Translate(tables, mods, old(Queue())[0]);
        r == if ch == '\0' then None else Some(ch)
    {
      var sc := Pop();
      if sc.None? { return None; }
      mods := UpdateModifiers(mods, sc.value);
      var ch := Translate(tables, mods, sc.value);
      if ch == '\0' { return None; }
      return Some(ch);
    }

    /** One turn of the loop of read_line. */
    method Turn(out: array<char>, n: nat) returns (n': nat, more: bool)
      requires Valid() && n < out.Length - 1
      modifies this`tail, this`mods, out
      ensures Valid() && n' < out.Length
      ensures var q, max := old(Queue()), out.Length - 1;
        var r := ReadFrom(tables, q, old(mods), old(out[..n]), max);
        if more then q != [] && Queue() == q[1..] && r == After(ReadFrom(tables, Queue(), mods, out[..n'], max), 1)
        else r.used <= |q| && Queue() == q[r.used..] && r.line == out[..n'] && r.mods == mods
    {
      ghost var line := out[..n];
      var c := GetChar();
      if c.None? { return n, false; }
      if c.value == '\n' {
        out[n] := c.value;
        assert out[..n + 1] == line + ['\n'];
        return n + 1, false;
      }
      if c.value == BACKSPACE {
        n' := if n != 0 then n - 1 else n;
        assert out[..n'] == EditOne(line, BACKSPACE);
        return n', true;
      }
      out[n] := c.value;
      assert out[..n + 1] == line + [c.value];
      return n + 1, true;
    }

    /** After `used` codes of q0 the goal is what remains to be read, added to the line. */
    ghost predicate Toward(q0: seq<Scancode>, used: nat, goal: Reading, line: string, max: nat)
      requires Valid()
      reads this, buf
    {
      used <= |q0| && Queue() == q0[used..] && goal == After(ReadFrom(tables, Queue(), mods, line, max), used)
    }

    /** The reader has left the queue and the modifiers as the reading says. */
    ghost predicate Took(q: seq<Scancode>, r: Reading, line: string)
      requires Valid()
      reads this, buf
    {
      r.used <= |q| && Queue() == q[r.used..] && mods == r.mods && line == r.line
    }

    method TurnToward(out: array<char>, n: nat, ghost q0: seq<Scancode>, ghost used: nat, ghost goal: Reading)
      returns (n': nat, more: bool)
      requires Valid() && n < out.Length - 1 && Toward(q0, used, goal, out[..n], out.Length - 1)
      modifies this`tail, this`mods, out
      ensures Valid() && n' < out.Length
      ensures if more then used < |q0| && Toward(q0, used + 1, goal, out[..n'], out.Length - 1)
              else Took(q0, goal, out[..n'])
    {
      ghost var r := ReadFrom(tables, Queue(), mods, out[..n], out.Length - 1);
      n', more := Turn(out, n);
      if !more { TurnTakes(q0, used, r, goal); }
    }

    /** The loop may step back in the buffer, but the queue shrinks every turn. */
    method ReadLoop(out: array<char>) returns (n: nat)
      requires Valid() && 0 < out.Length
      modifies this`tail, this`mods, out
      ensures Valid() && n < out.Length
      ensures Took(old(Queue()), ReadFrom(tables, old(Queue()), old(mods), "", out.Length - 1), out[..n])
    {
      ghost var q0, max := Queue(), out.Length - 1;
      ghost var goal, used: nat := ReadFrom(tables, q0, mods, "", max), 0;
      var more := true;
      n := 0;
      assert out[..0] == "" && Toward(q0, 0, goal, "", max) by { NothingTaken(max); }
      while more && n < out.Length - 1
        invariant Valid() && n < out.Length
        invariant if more then Toward(q0, used, goal, out[..n], max) else Took(q0, goal, out[..n])
        decreases more, |q0| - used
      {
        n, more := TurnToward(out, n, q0, used, goal);
        used := if more then used + 1 else used;
      }
      if more { LineIsFull(q0, used, goal, out[..n], max); }
    }

    lemma NothingTaken(max: nat)
      requires Valid()
      ensures Toward(Queue(), 0, ReadFrom(tables, Queue(), mods, "", max), "", max)
    {
    }

    lemma LineIsFull(q0: seq<Scancode>, used: nat, goal: Reading, line: string, max: nat)
      requires Valid() && Toward(q0, used, goal, line, max) && max <= |line|
      ensures Took(q0, goal, line)
    {
    }

    method ReadLine(out: array<char>) returns (n: nat)
      requires Valid()
      modifies this`tail, this`mods, out
      ensures Valid()
      ensures out.Length == 0 ==> n == 0 && Queue() == old(Queue()) && mods == old(mods)
      ensures out.Length != 0 ==>
        && n < out.Length && out[n] == '\0'
        && Took(old(Queue()), ReadFrom(tables, old(Queue()), old(mods), "", out.Length - 1), out[..n])
    {
      if out.Length == 0 { return 0; }
      n := ReadLoop(out);
      out[n] := '\0';
    }
  }
}
