/** The echo device: one message buffer that is rewritten from the start or appended to. */
module Echo {
  import opened Kernel

  const BUFFERSIZE: nat := 255
  const NUL: char := '\0'

  // What uiomove does when it copies in: all of it, or a fault after `moved` bytes were accounted
  // for; past those, `landed` may already have been put into the buffer.
  datatype Move = Whole | Fault(moved: nat, landed: seq<char>)

  // The message device as its users see it: the text before the terminating NUL.
  type Text = seq<char>

  // What a write leaves: the text, and where the writer's offset stands.
  datatype Wrote = Wrote(text: Text, offset: nat, ret: Ret)

  function Write(text: Text, offset: nat, data: seq<char>, move: Move): (w: Wrote)
    requires |text| <= BUFFERSIZE
    ensures |w.text| <= BUFFERSIZE
  {
    if offset != 0 && offset != |text| then
      Wrote(text, offset, Err(EINVAL))
    else
      var kept := text[..offset];
      var amt := Min(|data|, BUFFERSIZE - offset);
      match move
      case Whole => Wrote(kept + data[..amt], offset + amt, Ok(amt))
      case Fault(moved, _) =>
        var done := Min(moved, amt);
        Wrote(kept + data[..done], offset + done, Err(EFAULT))
  }

  // ---------- reads ----------

  // The message with its NUL, which is what a reader is offered.
  function Offered(text: Text): seq<char> {
    text + [NUL]
  }

  function Delivered(text: Text, offset: nat, resid: nat): seq<char> {
    Offered(text)[..Min(resid, if offset >= |text| + 1 then 0 else |text| + 1 - offset)]
  }

  // What a read hands over: bytes and result.
  datatype Got = Got(out: seq<char>, ret: Ret)

  // The outgoing uiomove may fault after some bytes too.
  function Read(text: Text, offset: nat, resid: nat, fault: Option<nat>): Got {
    var whole := Delivered(text, offset, resid);
    match fault
    case None => Got(whole, Ok(|whole|))
    case Some(moved) => Got(whole[..Min(moved, |whole|)], Err(EFAULT))
  }

  // What a reader at this offset should get.
  function Due(text: Text, offset: nat, resid: nat): seq<char> {
    if offset >= |text| + 1 then []
    else Offered(text)[offset..][..Min(resid, |text| + 1 - offset)]
  }

  // ---------- the driver ----------

  class EchoDev {
    var msg: array<char>
    var len: nat

    ghost predicate Valid()
      reads this, msg
    {
      msg.Length == BUFFERSIZE + 1 && len <= BUFFERSIZE && msg[len] == NUL
    }

    ghost function Contents(): Text
      requires Valid()
      reads this, msg
    {
      msg[..len]
    }

    // malloc with M_ZERO
    constructor ()
      ensures Valid() && Contents() == [] && fresh(msg)
    {
      msg := new char[256](_ => NUL);
      len := 0;
    }

    // uiomove into the buffer: copies n bytes of data to position at, or faults on the way.
    method UioMoveIn(at: nat, data: seq<char>, n: nat, move: Move) returns (moved: nat, error: bool)
      requires msg.Length == BUFFERSIZE + 1 && n <= |data| && at + n <= BUFFERSIZE
      modifies msg
      ensures error <==> move.Fault?
      ensures moved == if move.Fault? then Min(move.moved, n) else n
      ensures forall i | 0 <= i < msg.Length ::
                && (i < at || at + n <= i ==> msg[i] == old(msg[i]))
                && (at <= i < at + moved ==> msg[i] == data[i - at])
    {
      error := move.Fault?;
      moved := if error then Min(move.moved, n) else n;
      forall i | 0 <= i < moved {
        msg[at + i] := data[i];
      }
      if error {
        forall i | moved <= i < n && i < |move.landed| {
          msg[at + i] := move.landed[i];
        }
      }
    }

    method WriteAt(offset: nat, data: seq<char>, move: Move) returns (offset': nat, ret: Ret)
      requires Valid()
      modifies this, msg
      ensures Valid() && msg == old(msg)
      ensures Wrote(Contents(), offset', ret) == Write(old(Contents()), offset, data, move)
    {
      if offset != 0 && offset != len {
        return offset, Err(EINVAL);
      }
      if offset == 0 {
        len := 0;
      }
      var amt := Min(|data|, BUFFERSIZE - len);
      var moved, error := UioMoveIn(offset, data, amt, move);
      offset' := offset + moved;
      len := offset';
      msg[len] := NUL;
      ret := if error then Err(EFAULT) else Ok(amt);
      assert msg[..len] == old(msg[..len])[..offset] + data[..moved] by {
        assert forall i | 0 <= i < offset :: msg[i] == old(msg[i]);
      }
    }

    // The copy always starts at the beginning of the buffer, whatever the offset.
    method ReadAt(offset: nat, resid: nat, fault: Option<nat>) returns (out: seq<char>, ret: Ret)
      requires Valid()
      ensures Got(out, ret) == Read(Contents(), offset, resid, fault)
    {
      var amt := Min(resid, if offset >= len + 1 then 0 else len + 1 - offset);
      assert msg[..len + 1] == Offered(Contents());
      match fault
      case None =>
        out, ret := msg[..amt], Ok(amt);
        assert out == msg[..len + 1][..amt];
      case Some(moved) =>
        var done := Min(moved, amt);
        out, ret := msg[..done], Err(EFAULT);
        assert msg[..amt] == msg[..len + 1][..amt];
        assert out == msg[..amt][..done];
    }
  }

  // ---------- what one call does ----------

  // A write off both ends of the message is refused and changes nothing.  Any other leaves the text up
  // to its offset, followed by the bytes that were moved: as many as there is room for below 255, or
  // those before a fault, which is answered with -EFAULT even so.  The offset then stands at the end.
  lemma WriteAnswers(text: Text, offset: nat, data: seq<char>, move: Move)
    requires |text| <= 255
    ensures var w := Write(text, offset, data, move);
            if offset != 0 && offset != |text| then
              w == Wrote(text, offset, Err(EINVAL))
            else
              var n := if |data| < 255 - offset then |data| else 255 - offset;
              && w.ret == (if move.Fault? then Err(EFAULT) else Ok(n))
              && w.offset == |w.text| == offset + (if move.Fault? && move.moved < n then move.moved else n)
              && w.text[..offset] == text[..offset]
              && forall i | offset <= i < |w.text| :: w.text[i] == data[i - offset]
  {
  }

  // A read hands over bytes from the start of the message, as many as remain from its offset to past
  // the NUL, or those before a fault, which is answered with -EFAULT.
  lemma ReadAnswers(text: Text, offset: nat, resid: nat, fault: Option<nat>)
    ensures var g := Read(text, offset, resid, fault);
            var left := if offset > |text| then 0 else |text| + 1 - offset;
            var n := if resid < left then resid else left;
            && g.ret == (if fault.Some? then Err(EFAULT) else Ok(n))
            && |g.out| == (if fault.Some? && fault.value < n then fault.value else n)
            && forall i | 0 <= i < |g.out| :: g.out[i] == if i < |text| then text[i] else '\0'
  {
  }

  // ---------- right reads ----------

  // The bytes delivered are the bytes due, for every message of the length, exactly where the
  // read starts at the beginning or delivers nothing: the copy never skips to the offset.
  lemma ReadsRightIff(len: nat, offset: nat, resid: nat)
    ensures (forall text: Text | |text| == len :: Delivered(text, offset, resid) == Due(text, offset, resid))
            <==> offset == 0 || resid == 0 || offset > len
  {
    if offset == 0 || resid == 0 || offset > len {
      forall text: Text | |text| == len
        ensures Delivered(text, offset, resid) == Due(text, offset, resid)
      {
        assert offset == 0 ==> Offered(text)[offset..] == Offered(text);
      }
    } else {
      var text: Text := seq(len, i => if i == 0 then 'a' else 'b');
      assert |text| == len;
      assert Delivered(text, offset, resid)[0] == 'a';
      assert Due(text, offset, resid)[0] == Offered(text)[offset] != 'a';
    }
  }

  // ---------- chunked writes ----------

  // An append never disturbs what is already there, faults or not, and leaves the writer's
  // offset at the end of the message, where the next append is accepted.
  lemma AppendKeeps(text: Text, data: seq<char>, move: Move)
    requires |text| <= BUFFERSIZE
    ensures var w := Write(text, |text|, data, move);
            && text <= w.text <= text + data
            && w.offset == |w.text|
            && (move.Whole? ==> w.text == (text + data)[..Min(|text| + |data|, BUFFERSIZE)])
  {
    assert text[..|text|] == text;
  }

  // A writer that starts afresh and appends each further chunk where the last one ended.
  function Chunks(text: Text, offset: nat, chunks: seq<seq<char>>): (r: Text)
    requires |text| <= BUFFERSIZE
    decreases |chunks|
  {
    if chunks == [] then text
    else
      var w := Write(text, offset, chunks[0], Whole);
      Chunks(w.text, w.offset, chunks[1..])
  }

  function Concat(chunks: seq<seq<char>>): seq<char> {
    if chunks == [] then [] else chunks[0] + Concat(chunks[1..])
  }

  lemma {:induction false} ChunksAppend(text: Text, chunks: seq<seq<char>>)
    requires |text| <= BUFFERSIZE
    ensures Chunks(text, |text|, chunks) == (text + Concat(chunks))[..Min(|text| + |Concat(chunks)|, BUFFERSIZE)]
    decreases |chunks|
  {
    hide Write;
    if chunks == [] {
      assert text + [] == text;
    } else {
      AppendKeeps(text, chunks[0], Whole);
      var w := Write(text, |text|, chunks[0], Whole);
      ChunksAppend(w.text, chunks[1..]);
      CutTwice(text + chunks[0], Concat(chunks[1..]));
      assert text + Concat(chunks) == (text + chunks[0]) + Concat(chunks[1..]);
    }
  }

  // Cutting early and again is cutting once.
  lemma CutTwice(front: seq<char>, back: seq<char>)
    ensures var cut := front[..Min(|front|, BUFFERSIZE)];
            (cut + back)[..Min(|cut| + |back|, BUFFERSIZE)] == (front + back)[..Min(|front| + |back|, BUFFERSIZE)]
  {
  }

  // Whatever was there before: a fresh write followed by appends, in any chunking, leaves the
  // whole string cut at 255 bytes, and a large enough read at offset 0 returns it and its NUL.
  lemma ChunkedRoundTrip(text: Text, chunks: seq<seq<char>>, resid: nat)
    requires |text| <= BUFFERSIZE
    requires chunks != [] && resid > BUFFERSIZE
    ensures var whole := Concat(chunks);
            && Chunks(text, 0, chunks) == whole[..Min(|whole|, BUFFERSIZE)]
            && Delivered(Chunks(text, 0, chunks), 0, resid) == whole[..Min(|whole|, BUFFERSIZE)] + [NUL]
  {
    var w := Write(text, 0, chunks[0], Whole);
    AppendKeeps([], chunks[0], Whole);
    assert w.text == Write([], 0, chunks[0], Whole).text;
    ChunksAppend([], chunks);
    assert Chunks(text, 0, chunks) == Chunks([], 0, chunks);
    assert [] + Concat(chunks) == Concat(chunks);
  }

  // Chunking does not matter.
  lemma ChunkingIrrelevant(text: Text, text': Text, chunks: seq<seq<char>>, chunks': seq<seq<char>>)
    requires |text| <= BUFFERSIZE && |text'| <= BUFFERSIZE
    requires chunks != [] && chunks' != [] && Concat(chunks) == Concat(chunks')
    ensures Chunks(text, 0, chunks) == Chunks(text', 0, chunks')
  {
    ChunkedRoundTrip(text, chunks, BUFFERSIZE + 1);
    ChunkedRoundTrip(text', chunks', BUFFERSIZE + 1);
  }

  // ---------- whole runs ----------

  datatype Call = Call(offset: nat, data: seq<char>, move: Move)

  // The text after any writes, in order.
  function Run(text: Text, calls: seq<Call>): (r: Text)
    requires |text| <= BUFFERSIZE
    ensures |r| <= BUFFERSIZE
  {
    if calls == [] then text else
      var last := calls[|calls| - 1];
      Write(Run(text, calls[..|calls| - 1]), last.offset, last.data, last.move).text
  }

  function Cut(s: seq<char>): Text {
    s[..Min(|s|, BUFFERSIZE)]
  }

  // The bytes of a call that were copied before a fault, if it faulted.
  function Taken(call: Call): seq<char> {
    if call.move.Whole? then call.data else call.data[..Min(call.move.moved, |call.data|)]
  }

  // What the writers have sent since the last fresh start, as a buffer without bounds records it:
  // everything taken from the calls that were accepted.
  function Sent(text: Text, calls: seq<Call>): seq<char> {
    if calls == [] then text else
      var before, last := Sent(text, calls[..|calls| - 1]), calls[|calls| - 1];
      if last.offset == 0 then Taken(last)
      else if last.offset == |Cut(before)| then before + Taken(last)
      else before
  }

  lemma WriteCuts(sent: seq<char>, call: Call)
    ensures Write(Cut(sent), call.offset, call.data, call.move).text
            == if call.offset == 0 then Cut(Taken(call))
               else if call.offset == |Cut(sent)| then Cut(sent + Taken(call))
               else Cut(sent)
  {
    if call.offset == 0 {
      assert Cut(sent)[..0] == [];
    } else if call.offset == |Cut(sent)| {
      assert Cut(sent)[..call.offset] == Cut(sent);
    }
  }

  lemma {:induction false} RunCuts(text: Text, calls: seq<Call>)
    requires |text| <= BUFFERSIZE
    ensures Run(text, calls) == Cut(Sent(text, calls))
    decreases |calls|
  {
    hide Write, Taken, Cut;
    if calls == [] {
      NothingToCut(text);
    } else {
      var init, last := calls[..|calls| - 1], calls[|calls| - 1];
      RunCuts(text, init);
      WriteCuts(Sent(text, init), last);
    }
  }

  lemma NothingToCut(text: Text)
    requires |text| <= BUFFERSIZE
    ensures Cut(text) == text
  {
  }

  // In every run of fresh, appended, refused and faulting writes the message is what was sent, cut
  // once at the end: no refused call, no fault and no full buffer ever damages an accepted byte.
  // The next write is refused exactly off the message's two ends, and the next read at the start,
  // if it is large enough and does not fault, returns all of it with the NUL.
  lemma RunIsSent(text: Text, calls: seq<Call>, next: Call, resid: nat)
    requires |text| <= BUFFERSIZE && resid > BUFFERSIZE
    ensures var now := Run(text, calls);
            && now == Cut(Sent(text, calls))
            && (Write(now, next.offset, next.data, next.move).ret == Err(EINVAL)
                <==> next.offset !in {0, Min(|Sent(text, calls)|, BUFFERSIZE)})
            && Read(now, 0, resid, None) == Got(now + [NUL], Ok(|now| + 1))
  {
    hide Run, Sent;
    RunCuts(text, calls);
  }
}
