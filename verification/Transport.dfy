/** `write_frame` over a device that may take any part of what it is offered, and the wire it leaves. */
module Transport {
  import opened Bytes
  import opened Protocol
  import opened Scanner
  import opened ParserRuns

  /** One answer of `::write`: EINTR, another error, or the number of bytes it took. */
  datatype WriteResult = Interrupted | Failed | Took(n: nat)

  /** Returned true, returned false, or still in the loop when the answers ran out. */
  datatype Result = Sent | Lost | Blocked

  /** How many bytes reached the wire, and how the call ended. */
  datatype Transfer = Transfer(count: nat, result: Result)

  /** Sending from `written` on; `::write` never takes more than it is offered. */
  function Transmit(size: nat, written: nat, answers: seq<WriteResult>): (t: Transfer)
    requires written <= size
    ensures written <= t.count <= size
    ensures t.result == Sent <==> t.count == size
    decreases |answers|
  {
    if written == size then Transfer(written, Sent)
    else if answers == [] then Transfer(written, Blocked)
    else
      match answers[0]
      case Interrupted => Transmit(size, written, answers[1..])
      case Failed => Transfer(written, Lost)
      case Took(n) =>
        Transmit(size, if n <= size - written then written + n else size, answers[1..])
  }

  /** The bytes taken by a series of answers. */
  function Taken(answers: seq<WriteResult>): nat {
    if answers == [] then 0 else (if answers[0].Took? then answers[0].n else 0) + Taken(answers[1..])
  }

  /**
   What the call amounts to: it takes in answers up to the first real error, interruptions
   costing nothing; it is lost exactly if that error comes before enough bytes are taken.
   */
  lemma {:induction false} TransmitMeaning(size: nat, written: nat, answers: seq<WriteResult>) returns (k: nat)
    requires written <= size
    ensures k <= |answers| && Failed !in answers[..k] && (k < |answers| ==> answers[k] == Failed)
    ensures var t, total := Transmit(size, written, answers), written + Taken(answers[..k]);
            && t.count == (if total < size then total else size)
            && (t.result == Lost <==> k < |answers| && total < size)
            && (t.result == Blocked <==> k == |answers| && total < size)
    decreases |answers|
  {
    if answers == [] {
      k := 0;
    } else if answers[0] == Failed {
      k := 0;
      assert answers[..0] == [];
    } else {
      var took := if answers[0].Took? then answers[0].n else 0;
      var next := if took <= size - written then written + took else size;
      k := TransmitMeaning(size, next, answers[1..]);
      assert answers[..k + 1] == [answers[0]] + answers[1..][..k];
      assert answers[..k + 1][1..] == answers[1..][..k];
      k := k + 1;
    }
  }

  /** A call is still in its loop only if the device has neither failed nor taken everything. */
  lemma BlockedIff(size: nat, answers: seq<WriteResult>)
    ensures Transmit(size, 0, answers).result == Blocked <==> Failed !in answers && Taken(answers) < size
  {
    hide Transmit, Taken;
    var k := TransmitMeaning(size, 0, answers);
    assert answers[..|answers|] == answers;
    if k < |answers| {
      assert answers[k] in answers;
    }
  }

  class SerialTransport {
    var isOpen: bool
    /** Every byte the device has taken. */
    ghost var wire: seq<byte>

    constructor ()
      ensures !isOpen && wire == []
    {
      isOpen, wire := false, [];
    }

    /** A successful open; whether it succeeds is up to the device. */
    method Open()
      modifies this`isOpen
      ensures isOpen
    {
      isOpen := true;
    }

    method Close()
      modifies this`isOpen
      ensures !isOpen
    {
      isOpen := false;
    }

    method WriteFrame(frame: seq<byte>, answers: seq<WriteResult>) returns (result: Result)
      modifies this`wire
      ensures var t := if isOpen then Transmit(|frame|, 0, answers) else Transfer(0, Lost);
              result == t.result && wire == old(wire) + frame[..t.count]
      ensures result == Blocked <==> isOpen && Failed !in answers && Taken(answers) < |frame|
    {
      hide Taken;
      BlockedIff(|frame|, answers);
      if !isOpen {
        return Lost;
      }
      var written: nat, i: nat := 0, 0;
      while written < |frame|
        invariant 0 <= written <= |frame| && i <= |answers|
        invariant Transmit(|frame|, 0, answers) == Transmit(|frame|, written, answers[i..])
        invariant wire == old(wire) + frame[..written]
        decreases |answers| - i
      {
        if i == |answers| {
          return Blocked;
        }
        var answer := answers[i];
        assert answers[i..][1..] == answers[i + 1..];
        i := i + 1;
        if answer == Interrupted {
          continue;
        }
        if answer == Failed {
          return Lost;
        }
        var n := if answer.n <= |frame| - written then answer.n else |frame| - written;
        wire := wire + frame[written..written + n];
        assert frame[..written] + frame[written..written + n] == frame[..written + n];
        written := written + n;
      }
      result := Sent;
    }
  }

  // ---- What a receiver makes of the wire ---------------------------------------------------------

  /** A frame handed to `write_frame`, and how many of its bytes got out. */
  datatype Attempt = Attempt(frame: Frame, count: nat)

  predicate Whole(a: Attempt) {
    a.count == FrameSize(a.frame)
  }

  predicate AllPossible(attempts: seq<Attempt>) {
    forall i :: 0 <= i < |attempts| ==> attempts[i].count <= FrameSize(attempts[i].frame)
  }

  function Wire(attempts: seq<Attempt>): seq<byte>
    requires AllPossible(attempts)
  {
    if attempts == [] then []
    else Wire(attempts[..|attempts| - 1]) + Encode(attempts[|attempts| - 1].frame)[..attempts[|attempts| - 1].count]
  }

  lemma {:induction false} WirePrefix(attempts: seq<Attempt>, i: nat)
    requires AllPossible(attempts) && i <= |attempts|
    ensures Wire(attempts[..i]) <= Wire(attempts)
    decreases |attempts|
  {
    hide Encode;
    if i < |attempts| {
      var before := attempts[..|attempts| - 1];
      WirePrefix(before, i);
      assert before[..i] == attempts[..i];
    } else {
      assert attempts[..i] == attempts;
    }
  }

  /** A frame that went out whole stands on the wire behind what went out before it. */
  lemma WholeFrameOnWire(attempts: seq<Attempt>, i: nat)
    requires AllPossible(attempts) && i < |attempts| && Whole(attempts[i])
    ensures var p := |Wire(attempts[..i])|;
            p <= |Wire(attempts)| && Encode(attempts[i].frame) <= Wire(attempts)[p..]
  {
    hide Encode;
    var w, upTo, f := Wire(attempts[..i]), Wire(attempts[..i + 1]), attempts[i].frame;
    assert attempts[..i + 1][..i] == attempts[..i];
    assert Encode(f)[..FrameSize(f)] == Encode(f);
    assert upTo == w + Encode(f);
    WirePrefix(attempts, i + 1);
    assert Wire(attempts)[..|upTo|] == upTo;
    assert Wire(attempts)[|w|..|w| + FrameSize(f)] == Encode(f);
  }

  /**
   Torn writes do no lasting harm.  Whatever was cut short before or after it, a frame that
   went out whole is emitted by the parser at the other end, however its reads fall, once
   8203 bytes follow from its start, unless a valid frame straddles it.
   */
  lemma WholeFramesArrive(attempts: seq<Attempt>, i: nat, chunks: seq<seq<byte>>) returns (k: nat)
    requires AllPossible(attempts) && i < |attempts| && Whole(attempts[i]) && Sendable(attempts[i].frame)
    requires |Wire(attempts[..i])| + RESYNC_BYTES <= |Wire(attempts)|
    requires !Straddled(Wire(attempts), |Wire(attempts[..i])|)
    requires Flatten(chunks) == Wire(attempts) && AllWithin(chunks, 4097)
    ensures EmitsAt(Wire(attempts), |Wire(attempts[..i])|, attempts[i].frame)
    ensures k < |Run([], chunks).frames| && Run([], chunks).frames[k] == attempts[i].frame
  {
    hide Encode, Wire, EmitsAt, Straddled, Run, Scan, Flatten;
    var w, p := Wire(attempts), |Wire(attempts[..i])|;
    WholeFrameOnWire(attempts, i);
    Resynchronises(w, p, attempts[i].frame);
    k := EmittedAtIsEmitted(w, p, attempts[i].frame);
    ChunkingIndependence(chunks);
  }

  function FramesSent(attempts: seq<Attempt>): seq<Frame> {
    if attempts == [] then [] else FramesSent(attempts[..|attempts| - 1]) + [attempts[|attempts| - 1].frame]
  }

  lemma {:induction false} EncodeAllConcat(a: seq<Frame>, f: Frame)
    ensures EncodeAll(a + [f]) == EncodeAll(a) + Encode(f)
  {
    hide Encode;
    if a == [] {
      assert a + [f] == [f];
      assert EncodeAll([f][1..]) == [];
    } else {
      assert (a + [f])[1..] == a[1..] + [f];
      EncodeAllConcat(a[1..], f);
    }
  }

  lemma {:induction false} WireOfWholeFrames(attempts: seq<Attempt>)
    requires AllPossible(attempts) && forall a :: a in attempts ==> Whole(a)
    ensures Wire(attempts) == EncodeAll(FramesSent(attempts))
  {
    hide Encode;
    if attempts != [] {
      var before, last := attempts[..|attempts| - 1], attempts[|attempts| - 1];
      WireOfWholeFrames(before);
      EncodeAllConcat(FramesSent(before), last.frame);
      assert last in attempts;
      assert Encode(last.frame)[..last.count] == Encode(last.frame);
    }
  }

  lemma {:induction false} SentAreSendable(attempts: seq<Attempt>)
    requires forall a :: a in attempts ==> Sendable(a.frame)
    ensures AllSendable(FramesSent(attempts))
  {
    if attempts != [] {
      SentAreSendable(attempts[..|attempts| - 1]);
      assert attempts[|attempts| - 1] in attempts;
    }
  }

  /** Without torn writes the receiver gets exactly the frames sent, in order. */
  lemma UntornWireArrives(attempts: seq<Attempt>, chunks: seq<seq<byte>>)
    requires AllPossible(attempts) && forall a :: a in attempts ==> Whole(a) && Sendable(a.frame)
    requires Flatten(chunks) == Wire(attempts) && AllWithin(chunks, 4097)
    ensures Run([], chunks).frames == FramesSent(attempts) && Run([], chunks).bad == 0
  {
    hide Encode, Wire, Run, Scan, Flatten, EncodeAll, FramesSent;
    WireOfWholeFrames(attempts);
    SentAreSendable(attempts);
    ScanOfEncoded(FramesSent(attempts));
    ChunkingIndependence(chunks);
  }
}
