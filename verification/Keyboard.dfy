/** The keyboard: edge detection on boot-protocol reports, and the ring of typed characters. */
module Keyboard {
  import opened Bytes

  // ---- The character queue ----

  /** What a bounded queue with room for 255 characters does. */
  function Enqueue(q: seq<char>, c: char): seq<char> {
    if |q| < 255 then q + [c] else q
  }

  function EnqueueAll(q: seq<char>, cs: seq<char>): seq<char>
    decreases |cs|
  {
    if cs == [] then q else EnqueueAll(Enqueue(q, cs[0]), cs[1..])
  }

  datatype Op = Push(c: char) | Pop

  /** The queue with everything it ever took in and gave out. */
  datatype Log = Log(queue: seq<char>, accepted: seq<char>, popped: seq<char>)

  function Step(l: Log, op: Op): Log {
    match op
    case Push(c) => if |l.queue| < 255 then Log(l.queue + [c], l.accepted + [c], l.popped) else l
    case Pop => if l.queue == [] then l else Log(l.queue[1..], l.accepted, l.popped + [l.queue[0]])
  }

  function Run(ops: seq<Op>): Log {
    if ops == [] then Log([], [], []) else Step(Run(ops[..|ops| - 1]), ops[|ops| - 1])
  }

  /** What was pushed, whether or not there was room. */
  function Pushes(ops: seq<Op>): seq<char> {
    if ops == [] then []
    else
      var last := ops[|ops| - 1];
      Pushes(ops[..|ops| - 1]) + if last.Push? then [last.c] else []
  }

  /** How many characters would be waiting if there were always room. */
  function Backlog(ops: seq<Op>): nat {
    if ops == [] then 0
    else
      var b := Backlog(ops[..|ops| - 1]);
      if ops[|ops| - 1].Push? then b + 1 else if b == 0 then 0 else b - 1
  }

  /** In every interleaving, readers get a prefix of what was accepted and the rest is waiting. */
  lemma {:induction false} PoppedIsPrefixOfAccepted(ops: seq<Op>)
    ensures Run(ops).accepted == Run(ops).popped + Run(ops).queue
    ensures |Run(ops).queue| <= 255 && |Run(ops).accepted| <= |Pushes(ops)|
  {
    if ops != [] {
      PoppedIsPrefixOfAccepted(ops[..|ops| - 1]);
    }
  }

  ghost predicate NeverOverfull(ops: seq<Op>) {
    forall n :: 0 <= n <= |ops| ==> Backlog(ops[..n]) <= 255
  }

  lemma {:induction false} NoLossSoFar(ops: seq<Op>)
    requires NeverOverfull(ops)
    ensures Run(ops).accepted == Pushes(ops) && |Run(ops).queue| == Backlog(ops)
  {
    if ops != [] {
      var front := ops[..|ops| - 1];
      forall n | 0 <= n <= |front|
        ensures Backlog(front[..n]) <= 255
      {
        assert front[..n] == ops[..n];
      }
      NoLossSoFar(front);
      assert ops[..|ops|] == ops;
    }
  }

  lemma {:induction false} LossStays(ops: seq<Op>, n: nat)
    requires n <= |ops|
    ensures |Pushes(ops)| - |Run(ops).accepted| >= |Pushes(ops[..n])| - |Run(ops[..n]).accepted|
    decreases |ops|
  {
    if n < |ops| {
      var front := ops[..|ops| - 1];
      LossStays(front, n);
      assert front[..n] == ops[..n];
    } else {
      assert ops[..n] == ops;
    }
  }

  /** The first backlog over 255 is a push that is dropped. */
  lemma {:induction false} OverfullLoses(ops: seq<Op>)
    requires !NeverOverfull(ops)
    ensures |Run(ops).accepted| < |Pushes(ops)|
  {
    if ops != [] {
      var front := ops[..|ops| - 1];
      if NeverOverfull(front) {
        NoLossSoFar(front);
        forall n | 0 <= n < |ops|
          ensures Backlog(ops[..n]) <= 255
        {
          assert front[..n] == ops[..n];
        }
        assert ops[..|ops|] == ops;
        assert front[..|front|] == front;
      } else {
        OverfullLoses(front);
        LossStays(ops, |front|);
      }
    }
  }

  /** Nothing is lost exactly when an unbounded queue would never have held more than 255 characters. */
  lemma AllAcceptedIff(ops: seq<Op>)
    ensures Run(ops).accepted == Pushes(ops) <==> NeverOverfull(ops)
  {
    if NeverOverfull(ops) {
      NoLossSoFar(ops);
    } else {
      OverfullLoses(ops);
    }
  }

  lemma {:induction false} EnqueueAllAppend(q: seq<char>, cs: seq<char>, c: char)
    ensures EnqueueAll(q, cs + [c]) == Enqueue(EnqueueAll(q, cs), c)
    decreases |cs|
  {
    if cs == [] {
      assert ([c])[1..] == [];
    } else {
      assert (cs + [c])[1..] == cs[1..] + [c];
      EnqueueAllAppend(Enqueue(q, cs[0]), cs[1..], c);
    }
  }

  // ---- The ring ----

  function Held(r: nat, w: nat): nat
    requires r < 256 && w < 256
  {
    (w + 256 - r) % 256
  }

  function Window(ring: seq<char>, r: nat, w: nat): (s: seq<char>)
    requires |ring| == 256 && r < 256 && w < 256
    ensures |s| == Held(r, w)
  {
    seq(Held(r, w), i requires 0 <= i => ring[(r + i) % 256])
  }

  lemma WindowPush(ring: seq<char>, r: nat, w: nat, c: char)
    requires |ring| == 256 && r < 256 && w < 256 && (w + 1) % 256 != r
    ensures Window(ring[w := c], r, (w + 1) % 256) == Window(ring, r, w) + [c]
    ensures Held(r, w) < 255
  {
    var a, b := Window(ring, r, w), Window(ring[w := c], r, (w + 1) % 256);
    assert |b| == |a| + 1;
    forall i | 0 <= i < |b|
      ensures b[i] == (a + [c])[i]
    {
      assert (r + i) % 256 == w <==> i == |a|;
    }
  }

  lemma WindowEmptyIff(ring: seq<char>, r: nat, w: nat)
    requires |ring| == 256 && r < 256 && w < 256
    ensures Window(ring, r, w) == [] <==> r == w
  {
  }

  lemma WindowPop(ring: seq<char>, r: nat, w: nat)
    requires |ring| == 256 && r < 256 && w < 256 && r != w
    ensures Held(r, w) > 0
    ensures Window(ring, (r + 1) % 256, w) == Window(ring, r, w)[1..] && Window(ring, r, w)[0] == ring[r]
  {
    var a, b := Window(ring, r, w), Window(ring, (r + 1) % 256, w);
    assert |b| == |a| - 1;
    forall i | 0 <= i < |b|
      ensures b[i] == a[1..][i]
    {
      assert ((r + 1) % 256 + i) % 256 == (r + (i + 1)) % 256;
    }
  }

  class CharRing {
    const q: array<char>
    var r: nat
    var w: nat

    ghost predicate Valid()
      reads this
    {
      q.Length == 256 && r < 256 && w < 256
    }

    ghost function Contents(): seq<char>
      reads this, q
      requires Valid()
    {
      Window(q[..], r, w)
    }

    constructor ()
      ensures Valid() && fresh(q) && Contents() == []
    {
      q := new char[256];
      r, w := 0, 0;
    }

    /** `input_kbd_push_char` */
    method PushChar(c: char)
      requires Valid()
      modifies this`w, q
      ensures Valid() && Contents() == Enqueue(old(Contents()), c)
    {
      hide Window;
      var next := (w + 1) % 256;
      if next == r % 256 {
        return;
      }
      WindowPush(q[..], r, w, c);
      ghost var before := q[..];
      q[w % 256] := c;
      assert q[..] == before[w := c];
      w := next;
    }

    /** `input_kbd_pop_char` */
    method PopChar() returns (ok: bool, c: char)
      requires Valid()
      modifies this`r
      ensures Valid() && (ok <==> old(Contents()) != [])
      ensures Contents() == if ok then old(Contents())[1..] else old(Contents())
      ensures ok ==> c == old(Contents())[0]
    {
      hide Window, Held;
      WindowEmptyIff(q[..], r, w);
      if r % 256 == w % 256 {
        return false, '\0';
      }
      WindowPop(q[..], r, w);
      c := q[r % 256];
      r := (r + 1) % 256;
      ok := true;
    }
  }

  // ---- Key codes ----

  /** `xhci_kbd_keycode_to_ascii`: the character of a key, or NUL. */
  function Ascii(key: byte, shift: bool): char {
    if 0x04 <= key <= 0x1D then (if shift then 'A' else 'a') + (key - 0x04) as char
    else if 0x1E <= key <= 0x27 then
      if shift then "!@#$%^&*()"[key - 0x1E] else "1234567890"[key - 0x1E]
    else if key == 0x28 then '\n'
    else if key == 0x2A then 8 as char
    else if key == 0x2B then '\t'
    else if key == 0x2C then ' '
    else if key == 0x2D then if shift then '_' else '-'
    else if key == 0x2E then if shift then '+' else '='
    else if key == 0x2F then if shift then '{' else '['
    else if key == 0x30 then if shift then '}' else ']'
    else if key == 0x31 then if shift then '|' else '\\'
    else if key == 0x33 then if shift then ':' else ';'
    else if key == 0x34 then if shift then '"' else '\''
    else if key == 0x35 then if shift then '~' else '`'
    else if key == 0x36 then if shift then '<' else ','
    else if key == 0x37 then if shift then '>' else '.'
    else if key == 0x38 then if shift then '?' else '/'
    else '\0'
  }

  // ---- The keyboard page of the USB HID Usage Tables (section 10), for a US keyboard ----

  /** What the keys 0x04 to 0x38 type, and with shift; 0x29 (escape) and 0x32 type nothing. */
  const PLAIN: string := "abcdefghijklmnopqrstuvwxyz" + "1234567890" + "\n\0\U{8}\t -=[]\\\0;'`,./"
  const SHIFTED: string := "ABCDEFGHIJKLMNOPQRSTUVWXYZ" + "!@#$%^&*()" + "\n\0\U{8}\t _+{}|\0:\"~<>?"

  function KeyCap(key: byte, shift: bool): char {
    if 0x04 <= key <= 0x38 then (if shift then SHIFTED else PLAIN)[key - 0x04] else '\0'
  }

  /** The kernel's cases give the characters of the table. */
  lemma AsciiIsKeyCap(key: byte, shift: bool)
    ensures Ascii(key, shift) == KeyCap(key, shift)
  {
    if 0x04 <= key <= 0x1D {
      LetterIs(key - 0x04);
    }
  }

  lemma LetterIs(i: nat)
    requires i < 26
    ensures PLAIN[i] == 'a' + i as char && SHIFTED[i] == 'A' + i as char
  {
    var plain, shifted := "abcdefghijklmnopqrstuvwxyz", "ABCDEFGHIJKLMNOPQRSTUVWXYZ";
    assert i in {0, 1, 2, 3, 4, 5, 6, 7, 8, 9, 10, 11, 12, 13, 14, 15, 16, 17, 18, 19, 20, 21, 22, 23, 24, 25};
    assert plain[i] as int == 97 + i && shifted[i] as int == 65 + i;
  }

  predicate Mapped(key: byte) {
    0x04 <= key <= 0x38 && key != 0x29 && key != 0x32
  }

  /** Exactly the mapped keys type something. */
  lemma TypesIffMapped(a: byte, s: bool)
    ensures KeyCap(a, s) != '\0' <==> Mapped(a)
  {
    hide KeyCap;
    AsciiIsKeyCap(a, s);
    assert forall i :: 0 <= i < 10 ==> "!@#$%^&*()"[i] != '\0';
  }

  /** No two keys type the same character, whatever the shift state. */
  lemma CharactersIdentifyKeys(a: byte, s: bool, b: byte, t: bool)
    ensures Mapped(a) && KeyCap(a, s) == KeyCap(b, t) ==> a == b
  {
    hide KeyCap;
    AsciiIsKeyCap(a, s);
    AsciiIsKeyCap(b, t);
    if 0x1E <= a <= 0x27 {
      var c := if s then "!@#$%^&*()"[a - 0x1E] else "1234567890"[a - 0x1E];
      assert Ascii(a, s) == c;
    }
  }

  // ---- Reports ----

  /** A boot-protocol report: modifiers and the six keys that are down. */
  datatype Report = Report(mod: byte, keys: seq<byte>)

  predicate Shift(mod: byte) { mod / 2 % 2 == 1 || mod / 0x20 % 2 == 1 }

  /** Bits 1 and 5 of the modifiers are the left and the right shift key. */
  lemma ShiftKeys(mod: byte)
    ensures Shift(mod) <==> mod % 4 >= 2 || mod % 0x40 >= 0x20
  {
    assert mod == 4 * (mod / 4) + mod % 4 && mod == 0x40 * (mod / 0x40) + mod % 0x40;
  }

  /** `xhci_kbd_has_key`: key code 0 counts as present. */
  predicate HasKey(keys: seq<byte>, k: byte) { k == 0 || k in keys }

  /** The keys of a report that were not down before, in the order the report lists them. */
  function Strokes(prev: seq<byte>, keys: seq<byte>): seq<byte> {
    if keys == [] then []
    else
      var rest, k := keys[..|keys| - 1], keys[|keys| - 1];
      Strokes(prev, rest) + if k != 0 && !HasKey(prev, k) then [k] else []
  }

  /** The characters of some strokes; unmapped keys type nothing. */
  function Typed(ks: seq<byte>, shift: bool): seq<char> {
    if ks == [] then []
    else
      var c := KeyCap(ks[|ks| - 1], shift);
      Typed(ks[..|ks| - 1], shift) + if c != '\0' then [c] else []
  }

  predicate Pressed(prev: seq<byte>, keys: seq<byte>, k: byte) { k != 0 && k in keys && k !in prev }

  /** No key that goes down is listed twice. */
  ghost predicate NoRepeats(prev: seq<byte>, keys: seq<byte>) {
    forall i, j :: 0 <= i < j < |keys| && Pressed(prev, keys, keys[i]) ==> keys[i] != keys[j]
  }

  lemma {:induction false} StrokesCount(prev: seq<byte>, keys: seq<byte>, k: byte)
    ensures multiset(Strokes(prev, keys))[k] == if k != 0 && k !in prev then multiset(keys)[k] else 0
  {
    if keys != [] {
      var rest, last := keys[..|keys| - 1], keys[|keys| - 1];
      StrokesCount(prev, rest, k);
      assert keys == rest + [last];
    }
  }

  /** Order is kept: strokes of a first part come before strokes of a second. */
  lemma {:induction false} StrokesInOrder(prev: seq<byte>, a: seq<byte>, b: seq<byte>)
    ensures Strokes(prev, a + b) == Strokes(prev, a) + Strokes(prev, b)
    decreases |b|
  {
    if b == [] {
      assert a + b == a;
    } else {
      assert (a + b)[..|a + b| - 1] == a + b[..|b| - 1];
      StrokesInOrder(prev, a, b[..|b| - 1]);
    }
  }

  lemma {:induction false} CountTwo(keys: seq<byte>, i: nat, j: nat)
    requires i < j < |keys| && keys[i] == keys[j]
    ensures multiset(keys)[keys[i]] >= 2
  {
    assert keys == keys[..j] + keys[j..];
    assert keys[i] == keys[..j][i] && keys[j] == keys[j..][0];
    assert keys[i] in keys[..j] && keys[i] in keys[j..];
  }

  lemma {:induction false} CountOne(keys: seq<byte>, i: nat)
    requires i < |keys| && forall j :: 0 <= j < |keys| && j != i ==> keys[j] != keys[i]
    ensures multiset(keys)[keys[i]] == 1
  {
    var k := keys[i];
    assert keys == keys[..i] + [k] + keys[i + 1..];
    assert k !in keys[..i] && k !in keys[i + 1..];
  }

  function Once(p: bool): nat { if p then 1 else 0 }

  /** Each key types once for going down, exactly when the report lists no such key twice. */
  lemma OneStrokePerPressIff(prev: seq<byte>, keys: seq<byte>)
    ensures NoRepeats(prev, keys) <==>
      forall k: byte :: multiset(Strokes(prev, keys))[k] == Once(Pressed(prev, keys, k))
  {
    forall k: byte
      ensures multiset(Strokes(prev, keys))[k] == if k != 0 && k !in prev then multiset(keys)[k] else 0
    {
      StrokesCount(prev, keys, k);
    }
    if NoRepeats(prev, keys) {
      forall k: byte
        ensures multiset(Strokes(prev, keys))[k] == Once(Pressed(prev, keys, k))
      {
        if Pressed(prev, keys, k) {
          var i :| 0 <= i < |keys| && keys[i] == k;
          CountOne(keys, i);
        }
      }
    } else {
      var i, j :| 0 <= i < j < |keys| && Pressed(prev, keys, keys[i]) && keys[i] == keys[j];
      CountTwo(keys, i, j);
    }
  }

  /** What a report types after one with the keys `prev`. */
  function TypedBy(prev: seq<byte>, keys: seq<byte>, shift: bool): seq<char> {
    Typed(Strokes(prev, keys), shift)
  }

  lemma NothingTyped(prev: seq<byte>, shift: bool)
    ensures TypedBy(prev, [], shift) == []
  {
  }

  lemma TypedNext(prev: seq<byte>, keys: seq<byte>, i: nat, shift: bool)
    requires i < |keys|
    ensures var k, so := keys[i], TypedBy(prev, keys[..i], shift);
      TypedBy(prev, keys[..i + 1], shift) ==
      if k != 0 && !HasKey(prev, k) && KeyCap(k, shift) != '\0' then so + [KeyCap(k, shift)] else so
  {
    hide KeyCap, HasKey;
    var k := keys[i];
    assert keys[..i + 1][..i] == keys[..i];
    var ks := Strokes(prev, keys[..i]);
    assert (ks + [k])[..|ks|] == ks;
    if k != 0 && !HasKey(prev, k) {
      assert Strokes(prev, keys[..i + 1]) == ks + [k];
    } else {
      assert Strokes(prev, keys[..i + 1]) == ks;
    }
  }

  lemma {:induction false} TypedCount(ks: seq<byte>, shift: bool, k: byte, c: char)
    requires Mapped(k) && c in {KeyCap(k, false), KeyCap(k, true)}
    ensures multiset(Typed(ks, shift))[c] == if KeyCap(k, shift) == c then multiset(ks)[k] else 0
  {
    hide KeyCap;
    CharactersIdentifyKeys(k, false, k, true);
    CharactersIdentifyKeys(k, true, k, false);
    TypesIffMapped(k, shift);
    if ks != [] {
      var front, last := ks[..|ks| - 1], ks[|ks| - 1];
      assert ks == front + [last];
      TypedCount(front, shift, k, c);
      CharactersIdentifyKeys(k, false, last, shift);
      CharactersIdentifyKeys(k, true, last, shift);
    }
  }

  // ---- Runs of reports ----

  function Before(first: seq<byte>, rs: seq<Report>): seq<byte> {
    if rs == [] then first else rs[|rs| - 1].keys
  }

  /** Everything a run of reports types, the first one compared with `first`. */
  function AllTyped(first: seq<byte>, rs: seq<Report>): seq<char> {
    if rs == [] then []
    else
      var front, last := rs[..|rs| - 1], rs[|rs| - 1];
      AllTyped(first, front) + TypedBy(Before(first, front), last.keys, Shift(last.mod))
  }

  /** How often a key goes from up to down in a run while the shift state makes it mean `c`. */
  function Presses(first: seq<byte>, rs: seq<Report>, k: byte, c: char): nat {
    if rs == [] then 0
    else
      var front, last := rs[..|rs| - 1], rs[|rs| - 1];
      Presses(first, front, k, c) +
      Once(Pressed(Before(first, front), last.keys, k) && KeyCap(k, Shift(last.mod)) == c)
  }

  ghost predicate RunNoRepeats(first: seq<byte>, rs: seq<Report>) {
    forall n :: 0 <= n < |rs| ==> NoRepeats(Before(first, rs[..n]), rs[n].keys)
  }

  /** Over a whole run every mapped key types its character once for each time it goes down. */
  lemma {:induction false} TypedOncePerPress(first: seq<byte>, rs: seq<Report>, k: byte, c: char)
    requires RunNoRepeats(first, rs) && Mapped(k) && c in {KeyCap(k, false), KeyCap(k, true)}
    ensures multiset(AllTyped(first, rs))[c] == Presses(first, rs, k, c)
  {
    hide KeyCap, Strokes, Typed, NoRepeats, Pressed;
    if rs != [] {
      var front, last := rs[..|rs| - 1], rs[|rs| - 1];
      forall n | 0 <= n < |front|
        ensures NoRepeats(Before(first, front[..n]), front[n].keys)
      {
        assert front[..n] == rs[..n];
      }
      TypedOncePerPress(first, front, k, c);
      var prev := Before(first, front);
      OneStrokePerPressIff(prev, last.keys);
      TypedCount(Strokes(prev, last.keys), Shift(last.mod), k, c);
    }
  }

  // ---- Reports and readers together ----

  datatype Event = Hear(report: Report) | Read

  function Reports(evs: seq<Event>): seq<Report> {
    if evs == [] then []
    else
      var last := evs[|evs| - 1];
      Reports(evs[..|evs| - 1]) + if last.Hear? then [last.report] else []
  }

  function PushEach(cs: seq<char>): (ops: seq<Op>)
    ensures |ops| == |cs|
  {
    if cs == [] then [] else PushEach(cs[..|cs| - 1]) + [Push(cs[|cs| - 1])]
  }

  /** The queue operations of a run of reports and reads. */
  function Ops(first: seq<byte>, evs: seq<Event>): seq<Op> {
    if evs == [] then []
    else
      var front, last := evs[..|evs| - 1], evs[|evs| - 1];
      Ops(first, front) +
      match last
      case Hear(r) => PushEach(TypedBy(Before(first, Reports(front)), r.keys, Shift(r.mod)))
      case Read => [Pop]
  }

  lemma {:induction false} PushesConcat(a: seq<Op>, b: seq<Op>)
    ensures Pushes(a + b) == Pushes(a) + Pushes(b)
    decreases |b|
  {
    if b == [] {
      assert a + b == a;
    } else {
      assert (a + b)[..|a + b| - 1] == a + b[..|b| - 1];
      PushesConcat(a, b[..|b| - 1]);
    }
  }

  lemma {:induction false} PushesOfEach(cs: seq<char>)
    ensures Pushes(PushEach(cs)) == cs
  {
    if cs != [] {
      PushesOfEach(cs[..|cs| - 1]);
      assert PushEach(cs)[..|cs| - 1] == PushEach(cs[..|cs| - 1]);
    }
  }

  lemma RunConcat(a: seq<Op>, b: seq<Op>, op: Op)
    ensures Run(a + (b + [op])) == Step(Run(a + b), op)
  {
    assert (a + (b + [op]))[..|a + b|] == a + b;
  }

  /** Pushing characters one by one in a run is what the driver does to the queue with a report. */
  lemma {:induction false} RunEnqueuesAll(ops: seq<Op>, cs: seq<char>)
    ensures Run(ops + PushEach(cs)).queue == EnqueueAll(Run(ops).queue, cs)
    decreases |cs|
  {
    hide Run;
    if cs == [] {
      assert ops + PushEach(cs) == ops;
    } else {
      var front, c := cs[..|cs| - 1], cs[|cs| - 1];
      assert cs == front + [c];
      RunEnqueuesAll(ops, front);
      EnqueueAllAppend(Run(ops).queue, front, c);
      RunConcat(ops, PushEach(front), Push(c));
    }
  }

  lemma {:induction false} PushesAreTyped(first: seq<byte>, evs: seq<Event>)
    ensures Pushes(Ops(first, evs)) == AllTyped(first, Reports(evs))
  {
    hide TypedBy, Shift, PushEach, Before;
    if evs != [] {
      var front, last := evs[..|evs| - 1], evs[|evs| - 1];
      PushesAreTyped(first, front);
      match last
      case Hear(r) =>
        var cs := TypedBy(Before(first, Reports(front)), r.keys, Shift(r.mod));
        PushesConcat(Ops(first, front), PushEach(cs));
        PushesOfEach(cs);
        assert Reports(evs) == Reports(front) + [r];
        assert (Reports(front) + [r])[..|Reports(front)|] == Reports(front);
      case Read =>
        PushesConcat(Ops(first, front), [Pop]);
        assert [Pop][..0] == [];
        assert Pushes([Pop]) == [];
        assert Reports(evs) == Reports(front);
    }
  }

  /**
   * Every press is delivered: in any interleaving of reports and reads that never has more than 255
   * characters outstanding, what was read followed by what waits is what the reports type, in order,
   * with one character for each time a mapped key went down.
   */
  lemma KeystrokesDelivered(first: seq<byte>, evs: seq<Event>, k: byte, c: char)
    requires NeverOverfull(Ops(first, evs)) && RunNoRepeats(first, Reports(evs))
    requires Mapped(k) && c in {KeyCap(k, false), KeyCap(k, true)}
    ensures var l := Run(Ops(first, evs));
      && l.popped + l.queue == AllTyped(first, Reports(evs))
      && multiset(l.popped + l.queue)[c] == Presses(first, Reports(evs), k, c)
  {
    hide KeyCap, Ops, Run, Pushes, AllTyped, Presses;
    PushesAreTyped(first, evs);
    AllAcceptedIff(Ops(first, evs));
    PoppedIsPrefixOfAccepted(Ops(first, evs));
    TypedOncePerPress(first, Reports(evs), k, c);
  }

  // ---- The driver ----

  /** The keyboard state of a device record. */
  class KeyboardDevice {
    var prevMod: byte
    var prevKeys: seq<byte>

    constructor ()
      ensures prevMod == 0 && prevKeys == [0, 0, 0, 0, 0, 0]
    {
      prevMod, prevKeys := 0, [0, 0, 0, 0, 0, 0];
    }

    /** The keyboard branch of the event loop, for a transfer of `len` bytes into the report buffer. */
    method HandleReport(buf: seq<byte>, len: nat, ring: CharRing)
      requires ring.Valid() && |buf| >= 8
      modifies this, ring`w, ring.q
      ensures ring.Valid()
      ensures len < 8 ==> prevKeys == old(prevKeys) && prevMod == old(prevMod)
      ensures len >= 8 ==> prevKeys == buf[2..8] && prevMod == buf[0]
      ensures var shift := buf[0] % 4 >= 2 || buf[0] % 0x40 >= 0x20;
        var typed := if len < 8 then [] else TypedBy(old(prevKeys), buf[2..8], shift);
        ring.Contents() == EnqueueAll(old(ring.Contents()), typed)
    {
      hide Ascii, KeyCap, Window, TypedBy, Enqueue, Shift;
      if len < 8 {
        return;
      }
      var mod := buf[0];
      var shift := Shift(mod);
      ShiftKeys(mod);
      var keys := buf[2..8];
      assert keys[..0] == [];
      NothingTyped(prevKeys, shift);
      for i := 0 to 6
        invariant ring.Valid() && unchanged(this)
        invariant ring.Contents() == EnqueueAll(old(ring.Contents()), TypedBy(prevKeys, keys[..i], shift))
      {
        var k := keys[i];
        TypedNext(prevKeys, keys, i, shift);
        if k != 0 && !HasKey(prevKeys, k) {
          var c := Ascii(k, shift);
          AsciiIsKeyCap(k, shift);
          if c != '\0' {
            EnqueueAllAppend(old(ring.Contents()), TypedBy(prevKeys, keys[..i], shift), c);
            ring.PushChar(c);
          }
        }
      }
      assert keys[..6] == keys;
      prevMod := mod;
      prevKeys := keys;
    }
  }
}
