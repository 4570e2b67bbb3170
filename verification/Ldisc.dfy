/**
 The canonical-mode line editor of the console (kernel/src/core/ldisc.c).

 `LineDiscipline` is the C structure with its buffer edited in place.  `Line` is the value it
 holds.  The laws at the end relate any interleaving of typed bytes and partial reads to a
 reference editor that looks at the typed bytes alone.
 */
module Ldisc {
  import opened Base

  const BUF_SIZE: nat := 256
  const BS: Byte := 0x08
  const DEL: Byte := 0x7f
  const CR: Byte := 0x0d
  const LF: Byte := 0x0a
  const SPACE: Byte := 0x20

  predicate IsErase(b: Byte) { b == BS || b == DEL }
  predicate IsNewline(b: Byte) { b == CR || b == LF }
  predicate IsText(b: Byte) { b >= SPACE && b != DEL }

  /** What the structure holds: the line so far, how much of it was read, and whether it is finished. */
  datatype Line = Line(text: seq<Byte>, consumed: nat, complete: bool)

  const EMPTY_LINE := Line([], 0, false)

  /** A finished line is never empty, ends in the newline, and still has something to read. */
  ghost predicate ValidLine(l: Line) {
    if l.complete then
      l.consumed < |l.text| <= BUF_SIZE && l.text[|l.text| - 1] == LF
    else
      l.consumed == 0 && |l.text| < BUF_SIZE
  }

  function Feed(l: Line, b: Byte): (r: Line)
    requires ValidLine(l)
    ensures ValidLine(r)
  {
    if l.complete then l
    else if IsErase(b) then if |l.text| > 0 then l.(text := l.text[..|l.text| - 1]) else l
    else if IsNewline(b) then Line(l.text + [LF], 0, true)
    else if b < SPACE || |l.text| >= BUF_SIZE - 1 then l
    else l.(text := l.text + [b])
  }

  /** The bytes handed to the echo callback while `b` is fed. */
  function Echo(l: Line, b: Byte): (out: seq<Byte>) {
    if l.complete then []
    else if IsErase(b) then if |l.text| > 0 then [BS, SPACE, BS] else []
    else if IsNewline(b) then [LF]
    else if b < SPACE || |l.text| >= BUF_SIZE - 1 then []
    else [b]
  }

  /** What a read of at most `size` bytes returns. */
  function Taken(l: Line, size: nat): (out: seq<Byte>)
    requires ValidLine(l)
  {
    if !l.complete then [] else l.text[l.consumed..l.consumed + Min(size, |l.text| - l.consumed)]
  }

  function Drain(l: Line, size: nat): (r: Line)
    requires ValidLine(l)
    ensures ValidLine(r)
  {
    if !l.complete then l
    else if size >= |l.text| - l.consumed then EMPTY_LINE
    else l.(consumed := l.consumed + size)
  }

  /** The part of a finished line that no reader has taken yet. */
  function Unread(l: Line): (out: seq<Byte>)
    requires ValidLine(l)
  {
    if l.complete then l.text[l.consumed..] else []
  }

  // ---------------------------------------------------------------------------------------------
  // The structure edited in place

  class LineDiscipline {
    const buf: array<Byte>
    var len: nat
    var consumed: nat
    var complete: bool
    /** Everything the echo callback was given, in order. */
    var echoed: seq<Byte>

    ghost predicate Valid()
      reads this, buf
    {
      && buf.Length == BUF_SIZE
      && len <= BUF_SIZE
      && ValidLine(Line(buf[..len], consumed, complete))
    }

    ghost function View(): Line
      requires Valid()
      reads this, buf
    {
      Line(buf[..len], consumed, complete)
    }

    constructor ()
      ensures Valid() && fresh(buf)
      ensures View() == EMPTY_LINE && echoed == []
    {
      buf := new Byte[BUF_SIZE](_ => NUL);
      len, consumed, complete, echoed := 0, 0, false, [];
    }

    method FeedByte(byte: Byte) returns (ready: bool)
      requires Valid()
      modifies this, buf
      ensures Valid()
      ensures View() == Feed(old(View()), byte)
      ensures echoed == old(echoed) + Echo(old(View()), byte)
      ensures ready == View().complete
    {
      ghost var was := View();
      if complete { return true; }
      if IsErase(byte) {
        if len > 0 {
          len := len - 1;
          echoed := echoed + [BS, SPACE, BS];
          assert buf[..len] == was.text[..|was.text| - 1];
        }
        return false;
      } else if IsNewline(byte) {
        if len < BUF_SIZE {
          buf[len] := LF;
          len := len + 1;
        }
        echoed := echoed + [LF];
        complete := true;
        assert buf[..len] == was.text + [LF];
        return true;
      } else {
        if byte < SPACE { return false; }
        if len >= BUF_SIZE - 1 { return false; }
        buf[len] := byte;
        len := len + 1;
        echoed := echoed + [byte];
        assert buf[..len] == was.text + [byte];
        return false;
      }
    }

    /** The copy loop of ldisc_drain. */
    method CopyOut(out: array<Byte>, n: nat)
      requires out != buf && n <= out.Length && consumed + n <= buf.Length
      modifies out
      ensures out[..n] == buf[consumed..consumed + n] && out[n..] == old(out[n..])
    {
      var i := 0;
      while i < n
        invariant 0 <= i <= n
        invariant forall k :: 0 <= k < i ==> out[k] == buf[consumed + k]
        invariant forall k :: i <= k < out.Length ==> out[k] == old(out[k])
      {
        out[i] := buf[consumed + i];
        i := i + 1;
      }
    }

    method DrainInto(out: array<Byte>, size: nat) returns (n: nat)
      requires Valid() && out != buf
      requires size <= out.Length
      modifies this, out
      ensures Valid()
      ensures View() == Drain(old(View()), size)
      ensures n == |Taken(old(View()), size)| && out[..n] == Taken(old(View()), size)
      ensures out[n..] == old(out[n..]) && echoed == old(echoed)
    {
      if !complete { return 0; }
      ghost var text := buf[..len];
      var avail := len - consumed;
      n := if size < avail then size else avail;
      CopyOut(out, n);
      assert buf[..len] == text && buf[consumed..consumed + n] == text[consumed..consumed + n];
      consumed := consumed + n;
      if consumed == len {
        len, consumed, complete := 0, 0, false;
      }
    }
  }

  // ---------------------------------------------------------------------------------------------
  // Histories, and the reference editor

  datatype Event = Typed(byte: Byte) | Read(size: nat)

  function Step(l: Line, e: Event): (r: Line)
    requires ValidLine(l)
    ensures ValidLine(r)
  {
    match e
    case Typed(b) => Feed(l, b)
    case Read(n) => Drain(l, n)
  }

  /** The line after a whole history. */
  function After(h: seq<Event>): (l: Line)
    ensures ValidLine(l)
  {
    if h == [] then EMPTY_LINE else Step(After(h[..|h| - 1]), h[|h| - 1])
  }

  /** What a reader gets in one step. */
  function Got(l: Line, e: Event): seq<Byte>
    requires ValidLine(l)
  {
    if e.Read? then Taken(l, e.size) else []
  }

  /** Everything the readers got, concatenated. */
  function Drained(h: seq<Event>): seq<Byte> {
    if h == [] then [] else Drained(h[..|h| - 1]) + Got(After(h[..|h| - 1]), h[|h| - 1])
  }

  function TypedBytes(h: seq<Event>): seq<Byte> {
    if h == [] then []
    else TypedBytes(h[..|h| - 1]) + (if h[|h| - 1].Typed? then [h[|h| - 1].byte] else [])
  }

  /** Reference editor: what one unfinished line reads after `keys`, none of which ends the line. */
  function Edit(keys: seq<Byte>): (text: seq<Byte>)
    ensures |text| < BUF_SIZE
  {
    if keys == [] then []
    else
      var before, k := Edit(keys[..|keys| - 1]), keys[|keys| - 1];
      if IsErase(k) then (if before == [] then [] else before[..|before| - 1])
      else if IsText(k) && |before| < BUF_SIZE - 1 then before + [k]
      else before
  }

  /** The keys typed since the last newline. */
  function OpenKeys(keys: seq<Byte>): (r: seq<Byte>)
    ensures |r| <= |keys|
  {
    if keys == [] || IsNewline(keys[|keys| - 1]) then []
    else OpenKeys(keys[..|keys| - 1]) + [keys[|keys| - 1]]
  }

  /** Reference output: every finished line, edited, each with its newline. */
  function Transcript(keys: seq<Byte>): seq<Byte> {
    if keys == [] then []
    else
      var before, k := keys[..|keys| - 1], keys[|keys| - 1];
      if IsNewline(k) then Transcript(before) + Edit(OpenKeys(before)) + [LF] else Transcript(before)
  }

  /** The reference reader: the keys it has accepted, and how many bytes of their transcript it has handed out. */
  datatype Reference = Reference(keys: seq<Byte>, got: nat)

  /** A finished line has not been handed out in full. */
  predicate Pending(r: Reference) { r.got < |Transcript(r.keys)| }

  /** While a line is pending keys are ignored, and a read takes as much of it as fits. */
  function ReferNext(r: Reference, e: Event): Reference {
    match e
    case Typed(b) => if Pending(r) then r else r.(keys := r.keys + [b])
    case Read(n) => if Pending(r) then r.(got := r.got + Min(n, |Transcript(r.keys)| - r.got)) else r
  }

  /** The reference after a history. */
  function Refer(h: seq<Event>): Reference {
    if h == [] then Reference([], 0) else ReferNext(Refer(h[..|h| - 1]), h[|h| - 1])
  }

  /** The keys that count. */
  function Accepted(h: seq<Event>): seq<Byte> { Refer(h).keys }

  /** One more key on the reference side. */
  lemma NextKey(keys: seq<Byte>, k: Byte)
    ensures IsNewline(k) ==> OpenKeys(keys + [k]) == []
    ensures IsNewline(k) ==> Transcript(keys + [k]) == Transcript(keys) + Edit(OpenKeys(keys)) + [LF]
    ensures !IsNewline(k) ==> OpenKeys(keys + [k]) == OpenKeys(keys) + [k]
    ensures !IsNewline(k) ==> Transcript(keys + [k]) == Transcript(keys)
  {
    assert (keys + [k])[..|keys|] == keys;
  }

  /** One more key on both sides: feeding the buffer is appending to the reference edit. */
  lemma FeedIsEdit(l: Line, open: seq<Byte>, k: Byte)
    requires ValidLine(l) && !l.complete && l.text == Edit(open) && !IsNewline(k)
    ensures Feed(l, k).text == Edit(open + [k]) && !Feed(l, k).complete
  {
    assert (open + [k])[..|open|] == open;
  }

  /** A key makes new bytes wait only when it finishes the line, and then the edited line waits. */
  lemma FeedAndUnread(l: Line, keys: seq<Byte>, k: Byte)
    requires ValidLine(l) && !l.complete && l.text == Edit(OpenKeys(keys))
    ensures Transcript(keys + [k]) == Transcript(keys) + Unread(Feed(l, k))
  {
    NextKey(keys, k);
    if IsNewline(k) {
      assert Unread(Feed(l, k)) == l.text + [LF];
      assert Transcript(keys) + (l.text + [LF]) == Transcript(keys) + l.text + [LF];
    } else {
      assert Unread(Feed(l, k)) == [];
    }
  }

  /** The line and what was read, where `t` is the transcript, `got` how much of it was read, `open` the open line. */
  ghost predicate Matches(l: Line, drained: seq<Byte>, t: seq<Byte>, got: nat, open: seq<Byte>)
    requires ValidLine(l)
  {
    && got <= |t| && (l.complete <==> got < |t|) && open == (if l.complete then [] else l.text)
    && drained == t[..got] && Unread(l) == t[got..]
  }

  /** The line and what was read of it, as the reference has them. */
  ghost predicate Agrees(l: Line, drained: seq<Byte>, r: Reference)
    requires ValidLine(l)
  {
    Matches(l, drained, Transcript(r.keys), r.got, Edit(OpenKeys(r.keys)))
  }

  /** A read moves the front of the waiting bytes to the reader and leaves the rest waiting; then the line is open. */
  lemma DrainParts(l: Line, size: nat)
    requires ValidLine(l) && l.complete
    ensures var m := Min(size, |Unread(l)|);
            && Taken(l, size) == Unread(l)[..m] && Unread(Drain(l, size)) == Unread(l)[m..]
            && (Drain(l, size).complete <==> m < |Unread(l)|)
            && (!Drain(l, size).complete ==> Drain(l, size).text == [])
  {
  }

  lemma Advance(t: seq<Byte>, n: nat, m: nat)
    requires n + m <= |t|
    ensures t[..n] + t[n..][..m] == t[..n + m] && t[n..][m..] == t[n + m..]
  {
  }

  lemma MatchesAfterRead(l: Line, d: seq<Byte>, t: seq<Byte>, got: nat, open: seq<Byte>, size: nat)
    requires ValidLine(l) && Matches(l, d, t, got, open) && l.complete
    ensures Matches(Drain(l, size), d + Taken(l, size), t, got + Min(size, |t| - got), open)
  {
    DrainParts(l, size);
    Advance(t, got, Min(size, |t| - got));
  }

  lemma MatchesAfterKey(l: Line, d: seq<Byte>, t: seq<Byte>, got: nat, l': Line, t': seq<Byte>, open': seq<Byte>)
    requires ValidLine(l) && ValidLine(l') && !l.complete && got == |t| && d == t[..got]
    requires t' == t + Unread(l') && open' == if l'.complete then [] else l'.text
    ensures Matches(l', d, t', got, open')
  {
  }

  lemma AgreesAfterKey(l: Line, d: seq<Byte>, r: Reference, k: Byte)
    requires ValidLine(l) && Agrees(l, d, r) && !l.complete
    ensures Agrees(Feed(l, k), d, r.(keys := r.keys + [k]))
  {
    NextKey(r.keys, k);
    FeedAndUnread(l, r.keys, k);
    if !IsNewline(k) { FeedIsEdit(l, OpenKeys(r.keys), k); }
    MatchesAfterKey(l, d, Transcript(r.keys), r.got, Feed(l, k), Transcript(r.keys + [k]),
                    Edit(OpenKeys(r.keys + [k])));
  }

  /** One step keeps the line, and what was read of it, as the reference has them. */
  lemma AgreesNext(l: Line, d: seq<Byte>, r: Reference, e: Event)
    requires ValidLine(l) && Agrees(l, d, r)
    ensures Agrees(Step(l, e), d + Got(l, e), ReferNext(r, e))
  {
    if e.Read? && l.complete {
      MatchesAfterRead(l, d, Transcript(r.keys), r.got, Edit(OpenKeys(r.keys)), e.size);
    } else if e.Typed? && !l.complete {
      AgreesAfterKey(l, d, r, e.byte);
    }
    assert d + [] == d;
  }

  /** After every history the buffer, and what the readers got of it, are as the reference has them. */
  lemma {:induction false} BufferIsReference(h: seq<Event>)
    ensures Agrees(After(h), Drained(h), Refer(h))
  {
    if h != [] {
      var h0, e := h[..|h| - 1], h[|h| - 1];
      BufferIsReference(h0);
      AgreesNext(After(h0), Drained(h0), Refer(h0), e);
    }
  }

  lemma AgreesWhole(l: Line, d: seq<Byte>, r: Reference)
    requires ValidLine(l) && Agrees(l, d, r)
    ensures d + Unread(l) == Transcript(r.keys)
  {
    var t := Transcript(r.keys);
    assert t[..r.got] + t[r.got..] == t;
  }

  /**
   Conservation over every history: what was read, followed by what is still waiting, is the
   reference transcript of the accepted keys.  No byte is lost, repeated or reordered, however
   the reads are sized.
   */
  lemma DrainedIsTranscript(h: seq<Event>)
    ensures Refer(h).got <= |Transcript(Accepted(h))| && Drained(h) == Transcript(Accepted(h))[..Refer(h).got]
    ensures Drained(h) + Unread(After(h)) == Transcript(Accepted(h))
  {
    BufferIsReference(h);
    AgreesWhole(After(h), Drained(h), Refer(h));
  }

  /** A history in which nobody types while a finished line is waiting. */
  ghost predicate ReadBeforeTyping(h: seq<Event>) {
    forall i :: 0 <= i < |h| && h[i].Typed? ==> !Pending(Refer(h[..i]))
  }

  /** Then nothing typed is ignored, and the readers see the transcript of everything typed. */
  lemma {:induction false} PromptReadersSeeEverything(h: seq<Event>)
    requires ReadBeforeTyping(h)
    ensures Accepted(h) == TypedBytes(h)
    ensures Drained(h) + Unread(After(h)) == Transcript(TypedBytes(h))
  {
    DrainedIsTranscript(h);
    if h != [] {
      var h0 := h[..|h| - 1];
      forall i | 0 <= i < |h0| && h0[i].Typed? ensures !Pending(Refer(h0[..i])) {
        assert h0[..i] == h[..i] && h0[i] == h[i];
      }
      PromptReadersSeeEverything(h0);
    }
  }

  /**
   Typing a character and erasing it is as if it had never been typed, whatever comes next,
   exactly when the line was not already full.  On a full line the character is dropped but
   the erase still takes the character before it.
   */
  lemma EraseUndoesTypingIffRoom(keys: seq<Byte>, c: Byte, e: Byte)
    requires IsText(c) && IsErase(e)
    ensures Edit(keys + [c, e]) == Edit(keys) <==> |Edit(keys)| < BUF_SIZE - 1
    ensures |Edit(keys)| == BUF_SIZE - 1 ==> Edit(keys + [c, e]) == Edit(keys)[..BUF_SIZE - 2]
  {
    var one, two := keys + [c], keys + [c, e];
    assert two[..|two| - 1] == one && one[..|one| - 1] == keys;
    var t := Edit(keys);
    if |t| < BUF_SIZE - 1 {
      assert (t + [c])[..|t|] == t;
    }
  }

  lemma {:induction false} EditDependsOnTextOnly(a: seq<Byte>, b: seq<Byte>, rest: seq<Byte>)
    requires Edit(a) == Edit(b)
    ensures Edit(a + rest) == Edit(b + rest)
  {
    if rest == [] {
      assert a + rest == a && b + rest == b;
    } else {
      var r0 := rest[..|rest| - 1];
      EditDependsOnTextOnly(a, b, r0);
      assert (a + rest)[..|a + rest| - 1] == a + r0;
      assert (b + rest)[..|b + rest| - 1] == b + r0;
    }
  }

  /** The same, with anything typed afterwards. */
  lemma EraseUndoesTyping(keys: seq<Byte>, c: Byte, e: Byte, rest: seq<Byte>)
    requires IsText(c) && IsErase(e) && |Edit(keys)| < BUF_SIZE - 1
    ensures Edit(keys + [c, e] + rest) == Edit(keys + rest)
  {
    EraseUndoesTypingIffRoom(keys, c, e);
    EditDependsOnTextOnly(keys + [c, e], keys, rest);
  }

  // ---------------------------------------------------------------------------------------------
  // The echo, replayed on a terminal

  /** One line of a terminal: the cells written so far and the cursor among them. */
  datatype Screen = Screen(cells: seq<Byte>, cursor: nat)

  function Put(t: Screen, b: Byte): Screen
    requires t.cursor <= |t.cells|
    ensures Put(t, b).cursor <= |Put(t, b).cells|
  {
    if b == BS then t.(cursor := if t.cursor > 0 then t.cursor - 1 else 0)
    else if b == LF then Screen([], 0)
    else if t.cursor < |t.cells| then Screen(t.cells[t.cursor := b], t.cursor + 1)
    else Screen(t.cells + [b], t.cursor + 1)
  }

  function Show(t: Screen, out: seq<Byte>): Screen
    requires t.cursor <= |t.cells|
    ensures Show(t, out).cursor <= |Show(t, out).cells|
  {
    if out == [] then t else Put(Show(t, out[..|out| - 1]), out[|out| - 1])
  }

  /** The screen shows `text`: the cells up to the cursor are the text, all others are blank. */
  ghost predicate Displays(t: Screen, text: seq<Byte>) {
    && t.cursor == |text| <= |t.cells|
    && t.cells[..t.cursor] == text
    && forall i :: t.cursor <= i < |t.cells| ==> t.cells[i] == SPACE
  }

  function Echoed(h: seq<Event>): seq<Byte> {
    if h == [] then []
    else
      var last := h[|h| - 1];
      Echoed(h[..|h| - 1]) + (if last.Typed? then Echo(After(h[..|h| - 1]), last.byte) else [])
  }

  lemma {:induction false} ShowAppend(t: Screen, a: seq<Byte>, b: seq<Byte>)
    requires t.cursor <= |t.cells|
    ensures Show(t, a + b) == Show(Show(t, a), b)
  {
    if b == [] {
      assert a + b == a;
    } else {
      ShowAppend(t, a, b[..|b| - 1]);
      assert (a + b)[..|a + b| - 1] == a + b[..|b| - 1];
    }
  }

  lemma EchoOneKey(t: Screen, l: Line, b: Byte)
    requires ValidLine(l) && !l.complete && Displays(t, l.text)
    ensures Displays(Show(t, Echo(l, b)), if IsNewline(b) then [] else Feed(l, b).text)
  {
    var out := Echo(l, b);
    if IsErase(b) && |l.text| > 0 {
      assert out[..2] == [BS, SPACE] && out[..2][..1] == [BS] && [BS][..0] == [];
      assert Show(t, [BS]) == Put(t, BS);
      assert Show(t, [BS, SPACE]) == Put(Put(t, BS), SPACE);
      var r := Put(Put(Put(t, BS), SPACE), BS);
      assert Show(t, out) == r;
      var k := |l.text| - 1;
      assert r.cells == t.cells[k := SPACE] && r.cursor == k;
      assert r.cells[..k] == l.text[..k];
    } else if out != [] {
      assert out == [if IsNewline(b) then LF else b] && out[..0] == [];
      assert Show(t, out) == Put(t, out[0]);
      var r := Put(t, out[0]);
      if !IsNewline(b) {
        assert r.cells[..r.cursor] == l.text + [b];
      }
    }
  }

  /** After every history, a terminal fed the echo shows exactly the line being typed. */
  lemma {:induction false} EchoShowsTheLine(h: seq<Event>)
    ensures var t := Show(Screen([], 0), Echoed(h));
            Displays(t, if After(h).complete then [] else After(h).text)
  {
    if h != [] {
      var h0, e := h[..|h| - 1], h[|h| - 1];
      EchoShowsTheLine(h0);
      var l, t0 := After(h0), Show(Screen([], 0), Echoed(h0));
      if e.Typed? {
        ShowAppend(Screen([], 0), Echoed(h0), Echo(l, e.byte));
        if !l.complete { EchoOneKey(t0, l, e.byte); }
      } else {
        assert Echoed(h) == Echoed(h0);
      }
    }
  }
}
