/** One edge of the endpoint, without reference to its code: reset, abort, framing, and the done pulse. */
module EdgeLaws {
  import opened Outcomes
  import opened Bytes
  import opened Protocol
  import opened Wire
  import opened Requests
  import opened Frames
  import opened Transitions
  import Crc32
  import Endpoint

  /** A reset edge restores everything, whatever else is driven. */
  lemma ResetLaw(e: Endpoint.State, i: Endpoint.Input)
    requires e.Valid() && !i.resetN
    ensures var e' := Endpoint.Step(e, i);
            && e'.staged == None && e'.rx == [] && e'.tx == [] && !e'.done && e'.profile == INTERPRETER_COMPAT
            && e'.Committed() == (0, 0, false, 0) && e'.serviceSeq == 0 && e'.abortCount == 0
            && e'.lastStatus == OK && e'.lastFault == OK
    ensures !Endpoint.RecordOf(e, i).rxCommitted && !Endpoint.RecordOf(e, i).txCommitted
  {
  }

  /** An abort edge drops what is staged and both buffers, says so in both status registers, and keeps the
      committed state, the profile and the service counter; no byte crosses. */
  lemma AbortLaw(e: Endpoint.State, i: Endpoint.Input)
    requires e.Valid() && i.resetN && i.abort
    ensures var e' := Endpoint.Step(e, i);
            && e'.staged == None && e'.rx == [] && e'.tx == [] && !e'.done && e'.profile == e.profile
            && e'.Committed() == e.Committed() && e'.serviceSeq == e.serviceSeq && e'.abortCount == e.abortCount + 1
            && e'.lastStatus == ABORTED && e'.lastFault == ABORTED
    ensures !Endpoint.RecordOf(e, i).rxCommitted && !Endpoint.RecordOf(e, i).txCommitted
  {
  }

  /** While a response waits nothing is accepted, and its first byte leaves exactly if it is taken. */
  lemma SendingLaw(e: Endpoint.State, i: Endpoint.Input)
    requires e.Valid() && i.resetN && !i.abort && e.tx != []
    ensures Endpoint.Step(e, i) == e.(done := false, tx := if i.txReady then e.tx[1..] else e.tx)
    ensures !Endpoint.RecordOf(e, i).rxCommitted && (Endpoint.RecordOf(e, i).txCommitted <==> i.txReady)
  {
  }

  /** A fault reply under id zero: the two status registers and the response, nothing else. */
  function Complains(e: Endpoint.State, status: Status, detail: byte): Endpoint.State {
    var r := Response(status, [0, 0, 0, 0, detail]);
    e.(done := false, lastStatus := status, lastFault := status, tx := EncodeResponse(r))
  }

  /** A byte that does not complete a frame: outside a frame only 0xA1 is taken, anything else is answered
      at once; a length above 256 drops the frame; any other byte is stored. */
  lemma FramingLaw(e: Endpoint.State, i: Endpoint.Input)
    requires e.Valid() && Endpoint.Accepting(e, i) && !Endpoint.CompletesFrame(e)
    ensures var e', b := Endpoint.Step(e, i), i.rxData;
            if e.rx == [] && b != 0xA1 then e' == Complains(e, BAD_SOF, 0)
            else if |e.rx| == 5 && e.rx[4] as nat + 0x100 * b > 256 then e' == Complains(e.(rx := []), BAD_LENGTH, 1)
            else
              && e'.rx == e.rx + [b] && e'.expected == (if |e.rx| == 5 then e.rx[4] as nat + 0x100 * b + 10 else e.expected)
              && e' == e.(done := false, rx := e'.rx, expected := e'.expected)
  {
    hide EncodeResponse;
    Complaint(e.(done := false), BAD_SOF, 0);
    Complaint(e.(done := false, rx := []), BAD_LENGTH, 1);
  }

  lemma Complaint(e: Endpoint.State, status: Status, detail: byte)
    requires e.tx == [] && !e.done && status.IsFault()
    ensures Endpoint.EmitFault(e, status, 0, detail) == Complains(e, status, detail)
  {
    hide EncodeResponse;
    ZeroWord();
    assert Endpoint.FaultResponse(status, 0, detail).payload == [0, 0, 0, 0, detail];
    assert [] + EncodeResponse(Response(status, [0, 0, 0, 0, detail])) == EncodeResponse(Response(status, [0, 0, 0, 0, detail]));
  }

  lemma ZeroWord()
    ensures U32Bytes(0) == [0, 0, 0, 0]
  {
  }

  /** A frame ends exactly where its own length says. */
  lemma FrameEnds(e: Endpoint.State)
    requires e.Valid()
    ensures Endpoint.CompletesFrame(e) <==> |e.rx| >= 6 && var low: nat, high: nat := e.rx[4], e.rx[5]; |e.rx| == low + 0x100 * high + 9
  {
  }

  /** The done pulse is one edge long and means exactly that a transaction has just been retired. */
  lemma DoneLaw(e: Endpoint.State, i: Endpoint.Input)
    requires e.Valid() && i.resetN
    ensures Endpoint.Step(e, i).done <==> Endpoint.Step(e, i).retireSeq == e.retireSeq + 1
    ensures !Endpoint.Step(e, i).done ==> Endpoint.Step(e, i).Committed() == e.Committed()
  {
    hide EncodeResponse, Decide, DecideBlake3, Endpoint.ResultPayload, Suspension.Valid, Crc32.Crc, Endpoint.NegotiatePayload,
      Endpoint.StatusPayload, Request.Valid, Endpoint.Inspect, Resume;
    Endpoint.StepCommits(e, i);
  }
}
