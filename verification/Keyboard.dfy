/** kernel/keyboard.c: the ring between the keyboard interrupt and kgetch, under
    every interleaving of the two. */
module Keyboard {

  const KBD_BUFFER_SIZE := 64
  const SHIFT_PRESSED := 0x2A
  const SHIFT_RELEASED := 0xAA
  const RSHIFT_PRESSED := 0x36
  const RSHIFT_RELEASED := 0xB6

  /** The two scancode tables: a word per scancode, up to 0xFF for a character. */
  datatype Layout = Layout(plain: seq<int>, shifted: seq<int>)

  /** What one interrupt means: the Shift state after it and the key, 0 for none. */
  function Shifted(shift: bool, scancode: int): bool {
    if scancode == SHIFT_PRESSED || scancode == RSHIFT_PRESSED then true
    else if scancode == SHIFT_RELEASED || scancode == RSHIFT_RELEASED then false
    else shift
  }

  function KeyOf(l: Layout, shift: bool, scancode: int): int
    requires |l.plain| == |l.shifted| <= 0x80 && 0 <= scancode
  {
    if scancode >= |l.plain| || scancode == SHIFT_PRESSED || scancode == RSHIFT_PRESSED then 0
    else
      var key := if shift then l.shifted[scancode] else l.plain[scancode];
      if 0 < key <= 0xFF then key else 0
  }

  /** Where kgetch stands between its three accesses to the shared variables. */
  datatype Consumer = Testing | Reading | Advancing(c: int)

  datatype Turn = Interrupt(scancode: int) | Consume

  /** The slot k places after tail, and the number of slots from tail to head. */
  function At(tail: nat, k: nat): (slot: nat)
    ensures slot < KBD_BUFFER_SIZE
  {
    (tail + k) % KBD_BUFFER_SIZE
  }

  function Count(head: nat, tail: nat): nat { (head - tail) % KBD_BUFFER_SIZE }

  /** The keys that enter the ring, taken[i] characters having been delivered when key
      i comes: a key is left out exactly when 63 before it are still undelivered. */
  function Admitted(typed: seq<int>, taken: seq<nat>): seq<int>
    requires |taken| == |typed|
  {
    if typed == [] then []
    else
      var n := |typed| - 1;
      var before := Admitted(typed[..n], taken[..n]);
      if |before| - taken[n] < KBD_BUFFER_SIZE - 1 then before + [typed[n]] else before
  }

  lemma AdmittedNext(typed: seq<int>, taken: seq<nat>, key: int, now: nat)
    requires |taken| == |typed|
    ensures Admitted(typed + [key], taken + [now]) ==
      if |Admitted(typed, taken)| - now < KBD_BUFFER_SIZE - 1 then Admitted(typed, taken) + [key]
        else Admitted(typed, taken)
  {
    assert (typed + [key])[..|typed|] == typed && (taken + [now])[..|taken|] == taken;
  }

  /** No key is lost if and only if at no key 63 typed ones were undelivered. */
  lemma {:induction false} NothingLost(typed: seq<int>, taken: seq<nat>)
    requires |taken| == |typed|
    ensures |Admitted(typed, taken)| <= |typed|
    ensures Admitted(typed, taken) == typed <==>
      forall i {:trigger taken[i]} :: 0 <= i < |taken| ==> i - taken[i] < KBD_BUFFER_SIZE - 1
    decreases |typed|
  {
    if typed != [] {
      var n := |typed| - 1;
      NothingLost(typed[..n], taken[..n]);
      assert typed == typed[..n] + [typed[n]];
      assert forall i {:trigger taken[i]} :: 0 <= i < n ==> taken[..n][i] == taken[i];
      assert (forall i {:trigger taken[..n][i]} :: 0 <= i < n ==> i - taken[..n][i] < KBD_BUFFER_SIZE - 1)
        <==> forall i {:trigger taken[i]} :: 0 <= i < n ==> i - taken[i] < KBD_BUFFER_SIZE - 1;
    }
  }

  /** The keys a turn means, and Shift after it. */
  function KeysOfTurn(l: Layout, shift: bool, turn: Turn): seq<int>
    requires |l.plain| == |l.shifted| <= 0x80
  {
    match turn
    case Consume => []
    case Interrupt(code) => if 0 <= code <= 0xFF && KeyOf(l, shift, code) != 0 then [KeyOf(l, shift, code)] else []
  }

  function ShiftAfterTurn(shift: bool, turn: Turn): bool {
    match turn
    case Consume => shift
    case Interrupt(code) => if 0 <= code <= 0xFF then Shifted(shift, code) else shift
  }

  /** The keys that a run of turns means, whatever kgetch does in between. */
  function KeysOf(l: Layout, shift: bool, turns: seq<Turn>): seq<int>
    requires |l.plain| == |l.shifted| <= 0x80
  {
    if turns == [] then []
    else
      var n := |turns| - 1;
      KeysOf(l, shift, turns[..n]) + KeysOfTurn(l, ShiftAfter(shift, turns[..n]), turns[n])
  }

  function ShiftAfter(shift: bool, turns: seq<Turn>): bool {
    if turns == [] then shift else ShiftAfterTurn(ShiftAfter(shift, turns[..|turns| - 1]), turns[|turns| - 1])
  }

  function CountConsumes(turns: seq<Turn>): nat {
    if turns == [] then 0
    else CountConsumes(turns[..|turns| - 1]) + if turns[|turns| - 1] == Consume then 1 else 0
  }

  /** How many of its three accesses kgetch is through with. */
  function Phase(c: Consumer): nat {
    match c
    case Testing => 0
    case Reading => 1
    case Advancing(_) => 2
  }

  // ----- What the Shift keys do to a run -----

  predicate Presses(turn: Turn) { turn == Interrupt(SHIFT_PRESSED) || turn == Interrupt(RSHIFT_PRESSED) }

  predicate Releases(turn: Turn) { turn == Interrupt(SHIFT_RELEASED) || turn == Interrupt(RSHIFT_RELEASED) }

  predicate NoRelease(turns: seq<Turn>) { forall k {:trigger turns[k]} :: 0 <= k < |turns| ==> !Releases(turns[k]) }

  predicate NoPress(turns: seq<Turn>) { forall k {:trigger turns[k]} :: 0 <= k < |turns| ==> !Presses(turns[k]) }

  /** The characters that one table gives for the codes of a run: its entries from 1
      to 0xFF. The Shift keys have none, and codes past the table neither. */
  function Entries(table: seq<int>, turns: seq<Turn>): seq<int> {
    if turns == [] then []
    else
      Entries(table, turns[..|turns| - 1]) +
      match turns[|turns| - 1]
      case Consume => []
      case Interrupt(c) =>
        if 0 <= c < |table| && c != SHIFT_PRESSED && c != RSHIFT_PRESSED && 1 <= table[c] <= 0xFF then [table[c]]
        else []
  }

  /** Some Shift key was pressed in turn i and none was released since. */
  predicate HeldSince(turns: seq<Turn>, i: nat) {
    i < |turns| && Presses(turns[i]) && NoRelease(turns[i + 1..])
  }

  lemma HeldOn(turns: seq<Turn>, i: nat)
    requires i < |turns| - 1
    ensures HeldSince(turns, i) <==> HeldSince(turns[..|turns| - 1], i) && !Releases(turns[|turns| - 1])
  {
    hide Presses, Releases;
    var shorter := turns[..|turns| - 1];
    assert turns[i + 1..] == shorter[i + 1..] + [turns[|turns| - 1]];
    assert shorter[i] == turns[i];
  }

  /** Shift is down after a run that began with it up exactly if some press was not
      followed by any release: either key lifts what either has pressed. */
  lemma {:induction false} ShiftDown(turns: seq<Turn>)
    ensures ShiftAfter(false, turns) <==> exists i: nat :: HeldSince(turns, i)
    decreases |turns|
  {
    if turns == [] {
    } else {
      var n := |turns| - 1;
      ShiftDown(turns[..n]);
      forall i: nat | i < n ensures HeldSince(turns, i) <==> HeldSince(turns[..n], i) && !Releases(turns[n]) {
        HeldOn(turns, i);
      }
      assert turns[n + 1..] == [];
      assert Presses(turns[n]) ==> HeldSince(turns, n);
      hide HeldSince, NoRelease;
      assert ShiftAfter(false, turns) == ShiftAfterTurn(ShiftAfter(false, turns[..n]), turns[n]);
      if i: nat :| HeldSince(turns[..n], i) && !Releases(turns[n]) {
        HeldWithin(turns[..n], i);
        assert HeldSince(turns, i);
      }
      if i: nat :| HeldSince(turns, i) {
        HeldWithin(turns, i);
        assert i == n || HeldSince(turns[..n], i);
      }
    }
  }

  lemma HeldWithin(turns: seq<Turn>, i: nat)
    requires HeldSince(turns, i)
    ensures i < |turns| && Presses(turns[i])
  {
  }

  /** While Shift is up and not pressed, the plain table says what is typed; while it
      is down and not released, the other one. */
  lemma {:induction false} OneTable(l: Layout, shift: bool, turns: seq<Turn>)
    requires |l.plain| == |l.shifted| <= 0x80 && if shift then NoRelease(turns) else NoPress(turns)
    ensures KeysOf(l, shift, turns) == Entries(if shift then l.shifted else l.plain, turns)
    ensures ShiftAfter(shift, turns) == shift
    decreases |turns|
  {
    if turns != [] {
      OneTable(l, shift, turns[..|turns| - 1]);
    }
  }

  lemma {:induction false} KeysOfTwo(l: Layout, shift: bool, a: seq<Turn>, b: seq<Turn>)
    requires |l.plain| == |l.shifted| <= 0x80
    ensures KeysOf(l, shift, a + b) == KeysOf(l, shift, a) + KeysOf(l, ShiftAfter(shift, a), b)
    ensures ShiftAfter(shift, a + b) == ShiftAfter(ShiftAfter(shift, a), b)
    decreases |b|
  {
    if b == [] {
      assert a + b == a;
    } else {
      hide KeysOf, ShiftAfter, KeysOfTurn, ShiftAfterTurn;
      var c := b[..|b| - 1];
      KeysOfTwo(l, shift, a, c);
      LastTurn(l, shift, a, b);
      Joined(KeysOf(l, shift, a), KeysOf(l, ShiftAfter(shift, a), c),
        KeysOfTurn(l, ShiftAfter(shift, a + c), b[|b| - 1]));
    }
  }

  lemma LastTurn(l: Layout, shift: bool, a: seq<Turn>, b: seq<Turn>)
    requires |l.plain| == |l.shifted| <= 0x80 && b != []
    ensures var c, t := b[..|b| - 1], b[|b| - 1];
      && KeysOf(l, shift, a + b) == KeysOf(l, shift, a + c) + KeysOfTurn(l, ShiftAfter(shift, a + c), t)
      && ShiftAfter(shift, a + b) == ShiftAfterTurn(ShiftAfter(shift, a + c), t)
      && var s := ShiftAfter(shift, a);
         && KeysOf(l, s, b) == KeysOf(l, s, c) + KeysOfTurn(l, ShiftAfter(s, c), t)
         && ShiftAfter(s, b) == ShiftAfterTurn(ShiftAfter(s, c), t)
  {
    hide KeysOfTurn, ShiftAfterTurn;
    assert (a + b)[..|a + b| - 1] == a + b[..|b| - 1];
  }

  lemma Joined(a: seq<int>, b: seq<int>, c: seq<int>)
    ensures a + b + c == a + (b + c)
  {
  }

  /** Shift held down over the middle of a run: the keys before and after it come from
      the plain table and those under it from the other one. */
  lemma ShiftHeld(l: Layout, before: seq<Turn>, press: Turn, under: seq<Turn>, release: Turn, after: seq<Turn>)
    requires |l.plain| == |l.shifted| <= 0x80 && Presses(press) && Releases(release)
    requires NoPress(before) && NoRelease(under) && NoPress(after)
    ensures KeysOf(l, false, before + [press] + under + [release] + after) ==
      Entries(l.plain, before) + Entries(l.shifted, under) + Entries(l.plain, after)
  {
    hide KeysOf, Entries, ShiftAfter;
    OneTable(l, false, before);
    OneTurn(l, false, press);
    OneTable(l, true, under);
    OneTurn(l, true, release);
    OneTable(l, false, after);
    KeysOfTwo(l, false, before, [press]);
    KeysOfTwo(l, false, before + [press], under);
    KeysOfTwo(l, false, before + [press] + under, [release]);
    KeysOfTwo(l, false, before + [press] + under + [release], after);
  }

  /** A Shift code types nothing itself. */
  lemma OneTurn(l: Layout, shift: bool, turn: Turn)
    requires |l.plain| == |l.shifted| <= 0x80 && (Presses(turn) || Releases(turn))
    ensures KeysOf(l, shift, [turn]) == [] && ShiftAfter(shift, [turn]) == Presses(turn)
  {
    assert [turn][..0] == [];
  }

  /** Releases of whatever key type nothing. */
  lemma {:induction false} ReleasesAreSilent(l: Layout, shift: bool, turns: seq<Turn>)
    requires |l.plain| == |l.shifted| <= 0x80
    requires forall k {:trigger turns[k]} :: 0 <= k < |turns| ==> turns[k].Consume? || turns[k].scancode >= 0x80
    ensures KeysOf(l, shift, turns) == []
    decreases |turns|
  {
    if turns != [] {
      ReleasesAreSilent(l, shift, turns[..|turns| - 1]);
    }
  }

  lemma NoTurns(l: Layout, shift: bool, turns: seq<Turn>)
    requires |l.plain| == |l.shifted| <= 0x80
    ensures KeysOf(l, shift, turns[..0]) == [] && ShiftAfter(shift, turns[..0]) == shift
    ensures CountConsumes(turns[..0]) == 0
  {
  }

  lemma OneMoreTurn(l: Layout, shift: bool, turns: seq<Turn>, i: nat)
    requires |l.plain| == |l.shifted| <= 0x80 && i < |turns|
    ensures KeysOf(l, shift, turns[..i + 1]) ==
      KeysOf(l, shift, turns[..i]) + KeysOfTurn(l, ShiftAfter(shift, turns[..i]), turns[i])
    ensures ShiftAfter(shift, turns[..i + 1]) == ShiftAfterTurn(ShiftAfter(shift, turns[..i]), turns[i])
    ensures CountConsumes(turns[..i + 1]) == CountConsumes(turns[..i]) + if turns[i] == Consume then 1 else 0
  {
    hide KeysOfTurn, ShiftAfterTurn;
    assert turns[..i + 1][..i] == turns[..i];
  }

  class Ring {
    const l: Layout
    const buffer: array<int>
    var head: nat
    var tail: nat
    var shift: bool
    var consumer: Consumer
    // history: keys pressed and how many characters were delivered at each, keys that
    // entered the ring, keys kgetch returned
    ghost var typed: seq<int>
    ghost var taken: seq<nat>
    ghost var accepted: seq<int>
    ghost var delivered: seq<int>

    /** The characters in the ring, oldest first. */
    ghost function Pending(): (p: seq<int>)
      requires buffer.Length == KBD_BUFFER_SIZE && head < KBD_BUFFER_SIZE && tail < KBD_BUFFER_SIZE
      reads this, buffer
      ensures |p| == Count(head, tail)
    {
      seq(Count(head, tail),
          k requires 0 <= k && buffer.Length == KBD_BUFFER_SIZE reads this, buffer => buffer[At(tail, k)])
    }

    ghost predicate Shaped()
      reads this
    {
      buffer.Length == KBD_BUFFER_SIZE && head < KBD_BUFFER_SIZE && tail < KBD_BUFFER_SIZE
        && |l.plain| == |l.shifted| <= 0x80
    }

    ghost predicate Valid()
      reads this, buffer
    {
      && Shaped()
      && accepted == delivered + Pending()
      && |Pending()| <= KBD_BUFFER_SIZE - 1
      && |taken| == |typed| && accepted == Admitted(typed, taken)
      && (forall i {:trigger taken[i]} :: 0 <= i < |taken| ==> taken[i] <= |delivered|)
      // what kgetch relies on between its steps
      && (consumer.Reading? ==> Pending() != [])
      && (consumer.Advancing? ==> Pending() != [] && consumer.c == Pending()[0])
    }

    /** The accesses kgetch has made for the characters it returned and for the next. */
    ghost function Progress(): nat
      reads this
    {
      3 * |delivered| + Phase(consumer)
    }

    constructor (l: Layout)
      requires |l.plain| == |l.shifted| <= 0x80
      ensures Valid() && typed == delivered == [] && Pending() == [] && fresh(buffer) && this.l == l
      ensures !shift && consumer == Testing
    {
      this.l := l;
      buffer := new int[KBD_BUFFER_SIZE](_ => 0);
      head, tail, shift, consumer := 0, 0, false, Testing;
      typed, taken, accepted, delivered := [], [], [], [];
    }

    /** kbd_buffer_push(c), called with interrupts off. */
    method Push(c: int)
      requires Shaped()
      modifies `head, buffer
      ensures Shaped() && tail == old(tail)
      ensures if |old(Pending())| < KBD_BUFFER_SIZE - 1 then Pending() == old(Pending()) + [c]
        else Pending() == old(Pending()) && head == old(head)
      // the slots kgetch may be reading are left alone
      ensures forall k {:trigger At(tail, k)} :: 0 <= k < |old(Pending())| ==>
        buffer[At(tail, k)] == old(buffer[At(tail, k)])
    {
      hide At, Count;
      var next := At(head, 1);
      Room(head, tail);
      if next != tail {
        ghost var p := Pending();
        buffer[head] := c;
        head := next;
        forall k: nat | k < |p|
          ensures buffer[At(tail, k)] == p[k]
        {
          SlotBefore(old(head), tail, k);
        }
        LastSlot(old(head), tail);
        assert Pending() == p + [c];
      } else {
        assert Pending() == old(Pending());
      }
    }

    /** A key that is a character is recorded and, if there is room, enters the ring. */
    method Enter(key: int)
      requires Valid()
      modifies `head, `typed, `taken, `accepted, buffer
      ensures Valid() && tail == old(tail) && typed == old(typed) + [key] && taken == old(taken) + [|delivered|]
      ensures accepted == if |old(Pending())| < KBD_BUFFER_SIZE - 1 then old(accepted) + [key] else old(accepted)
    {
      hide At, Count;
      ghost var p := Pending();
      AdmittedNext(typed, taken, key, |delivered|);
      Push(key);
      typed, taken := typed + [key], taken + [|delivered|];
      if |p| < KBD_BUFFER_SIZE - 1 { accepted := accepted + [key]; }
      assert delivered + (p + [key]) == delivered + p + [key];
    }

    /** keyboard_handler_C() for one scancode. */
    method Handle(scancode: int)
      requires Valid() && 0 <= scancode <= 0xFF
      modifies `head, `shift, `typed, `taken, `accepted, buffer
      ensures Valid() && tail == old(tail) && consumer == old(consumer) && delivered == old(delivered)
      ensures shift == Shifted(old(shift), scancode)
      ensures var key := KeyOf(l, old(shift), scancode);
        && typed == (if key != 0 then old(typed) + [key] else old(typed))
        && taken == (if key != 0 then old(taken) + [|delivered|] else old(taken))
        && accepted == (if key != 0 && |old(Pending())| < KBD_BUFFER_SIZE - 1 then old(accepted) + [key]
          else old(accepted))
    {
      hide At, Count;
      if scancode == SHIFT_PRESSED || scancode == RSHIFT_PRESSED {
        shift := true;
        assert Pending() == old(Pending());
        return;
      }
      if scancode == SHIFT_RELEASED || scancode == RSHIFT_RELEASED {
        shift := false;
        assert Pending() == old(Pending());
        return;
      }
      // key released
      if scancode >= 0x80 { return; }
      if scancode >= |l.plain| { return; }
      var key := if shift then l.shifted[scancode] else l.plain[scancode];
      if key != 0 && 0 <= key <= 0xFF { Enter(key); }
    }

    /** kbd_tail = (kbd_tail + 1) & KBD_BUFFER_MASK; return c */
    method Advance()
      requires Valid() && consumer.Advancing?
      modifies `tail, `consumer, `delivered
      ensures Valid() && accepted == old(accepted) && consumer == Testing
      ensures delivered == old(delivered) + [old(consumer).c] && Pending() == old(Pending())[1..]
    {
      hide At, Count;
      ghost var p := Pending();
      Shorter(head, tail);
      tail := At(tail, 1);
      forall k: nat | k < |p| - 1
        ensures Pending()[k] == p[k + 1]
      {
        SlotAfter(old(tail), k);
      }
      assert Pending() == p[1..];
      delivered := delivered + [consumer.c];
      consumer := Testing;
      assert old(delivered) + p == delivered + p[1..];
    }

    /** The next access of kgetch: the test, the read, the advance. */
    method Proceed() returns (got: bool, ghost c: int)
      requires Valid()
      modifies `tail, `consumer, `delivered
      ensures Valid() && accepted == old(accepted) && typed == old(typed) && taken == old(taken) && shift == old(shift)
      ensures delivered == if got then old(delivered) + [c] else old(delivered)
      ensures got ==> old(consumer) == Advancing(c) && Pending() == old(Pending())[1..]
      // each access is progress unless nothing is pending
      ensures Progress() == old(Progress()) + if old(Pending()) == [] then 0 else 1
      ensures !got ==> Pending() == old(Pending())
      ensures old(consumer).Testing? ==> (consumer.Testing? <==> old(Pending()) == [])
    {
      hide At, Count;
      got, c := false, 0;
      match consumer
      case Testing =>
        // while (kbd_head == kbd_tail)
        Emptiness(head, tail);
        if head != tail { consumer := Reading; }
        assert Pending() == old(Pending());
      case Reading =>
        FirstSlot(tail);
        consumer := Advancing(buffer[tail]);
        assert Pending() == old(Pending());
      case Advancing(ch) =>
        Advance();
        got, c := true, ch;
    }

    /** Any interleaving of interrupts and steps of kgetch: no accepted character
        is lost, doubled or put out of order, and the accepted ones are those typed
        without exactly the keys that came while 63 were pending. */
    method Run(turns: seq<Turn>)
      requires Valid()
      modifies this, buffer
      ensures Valid() && delivered <= accepted && old(delivered) <= delivered && old(accepted) <= accepted
      ensures typed == old(typed) + KeysOf(l, old(shift), turns) && accepted == Admitted(typed, taken)
      // with Shift left alone every key typed is the entry of one table
      ensures (if old(shift) then NoRelease(turns) else NoPress(turns)) ==>
        typed == old(typed) + Entries(if old(shift) then l.shifted else l.plain, turns) && shift == old(shift)
      // three accesses deliver a character: what was pending at the start is
      // delivered, however many keys come, once there were three for each
      ensures Progress() <= old(Progress()) + CountConsumes(turns)
      ensures Progress() >= old(Progress()) + CountConsumes(turns) || |delivered| >= |old(accepted)|
      // each key of the run is counted against what was delivered when it came
      ensures |taken| == |typed| && old(taken) <= taken
      ensures forall i {:trigger taken[i]} :: |old(typed)| <= i < |taken| ==>
        |old(delivered)| <= taken[i] <= |delivered|
    {
      hide Admitted, KeysOfTurn, ShiftAfterTurn, Entries, NoPress, NoRelease, Count, At, Phase;
      NoTurns(l, shift, turns);
      hide KeysOf, ShiftAfter, CountConsumes;
      if if shift then NoRelease(turns) else NoPress(turns) { OneTable(l, shift, turns); }
      for i := 0 to |turns|
        invariant Valid() && old(delivered) <= delivered && old(accepted) <= accepted && old(taken) <= taken
        invariant shift == ShiftAfter(old(shift), turns[..i]) && typed == old(typed) + KeysOf(l, old(shift), turns[..i])
        invariant forall k {:trigger taken[k]} :: |old(typed)| <= k < |taken| ==>
          |old(delivered)| <= taken[k] <= |delivered|
        invariant Progress() <= old(Progress()) + CountConsumes(turns[..i])
        invariant Progress() >= old(Progress()) + CountConsumes(turns[..i]) || |delivered| >= |old(accepted)|
      {
        OneMoreTurn(l, old(shift), turns, i);
        Joined(old(typed), KeysOf(l, old(shift), turns[..i]), KeysOfTurn(l, shift, turns[i]));
        Take(turns[i]);
      }
      assert turns[..|turns|] == turns;
    }

    /** One turn. */
    method Take(turn: Turn)
      requires Valid()
      modifies this, buffer
      ensures Valid() && old(delivered) <= delivered && old(accepted) <= accepted
      ensures shift == ShiftAfterTurn(old(shift), turn) && typed == old(typed) + KeysOfTurn(l, old(shift), turn)
      ensures old(taken) <= taken
      ensures Progress() == old(Progress()) + if turn == Consume && old(delivered) != old(accepted) then 1 else 0
      ensures forall k {:trigger taken[k]} :: |old(taken)| <= k < |taken| ==> taken[k] == |old(delivered)|
    {
      hide Admitted, Shifted, KeyOf, Count, At;
      match turn
      case Interrupt(code) => if 0 <= code <= 0xFF { Handle(code); }
      case Consume => var _, _ := Proceed();
    }
  }

  // ----- Ring arithmetic -----

  lemma Room(head: nat, tail: nat)
    requires head < KBD_BUFFER_SIZE && tail < KBD_BUFFER_SIZE
    ensures Count(head, tail) < KBD_BUFFER_SIZE
    ensures At(head, 1) == tail <==> Count(head, tail) == KBD_BUFFER_SIZE - 1
    ensures At(head, 1) != tail ==> Count(At(head, 1), tail) == Count(head, tail) + 1
  {
  }

  lemma SlotBefore(head: nat, tail: nat, k: nat)
    requires head < KBD_BUFFER_SIZE && tail < KBD_BUFFER_SIZE && k < Count(head, tail)
    ensures At(tail, k) != head
  {
  }

  lemma LastSlot(head: nat, tail: nat)
    requires head < KBD_BUFFER_SIZE && tail < KBD_BUFFER_SIZE
    ensures At(tail, Count(head, tail)) == head
  {
  }

  lemma FirstSlot(tail: nat)
    requires tail < KBD_BUFFER_SIZE
    ensures At(tail, 0) == tail
  {
  }

  lemma Emptiness(head: nat, tail: nat)
    requires head < KBD_BUFFER_SIZE && tail < KBD_BUFFER_SIZE
    ensures Count(head, tail) == 0 <==> head == tail
  {
  }

  lemma Shorter(head: nat, tail: nat)
    requires head < KBD_BUFFER_SIZE && tail < KBD_BUFFER_SIZE && Count(head, tail) > 0
    ensures Count(head, At(tail, 1)) == Count(head, tail) - 1
  {
  }

  lemma SlotAfter(tail: nat, k: nat)
    requires tail < KBD_BUFFER_SIZE
    ensures At(At(tail, 1), k) == At(tail, k + 1)
  {
  }
}
