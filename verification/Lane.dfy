/** The host's byte driver. The endpoint is a transducer of the byte stream: whatever
    the stall pattern, the driver collects the same response and leaves the endpoint
    in the same state. */
module Lane {
  import opened Outcomes
  import opened Bytes
  import opened Protocol
  import opened Requests
  import opened Frames
  import opened Transitions
  import opened Endpoint
  import opened LaneEndpoint

  // ----- the stream semantics, without any clock -----

  /** What accepting the byte adds to the response. */
  function Reply(e: State, b: byte): seq<byte>
    requires e.Valid() && e.tx == []
  {
    Accept(Drained(e), b).tx
  }

  /** Feeding bytes one by one, draining every response before the next byte. */
  function Feed(e: State, data: seq<byte>): (r: State)
    requires e.Valid()
    ensures r.Valid() && r.tx == []
    decreases |data|
  {
    if data == [] then Drained(e)
    else
      AcceptKeepsValid(Drained(e), data[0]);
      Feed(Drained(Accept(Drained(e), data[0])), data[1..])
  }

  function Responses(e: State, data: seq<byte>): seq<byte>
    requires e.Valid() && e.tx == []
    decreases |data|
  {
    if data == [] then []
    else
      AcceptKeepsValid(Drained(e), data[0]);
      Reply(e, data[0]) + Responses(Drained(Accept(Drained(e), data[0])), data[1..])
  }

  /** The done pulse accompanies a response, so it is gone once the response has left. */
  lemma DoneMeansReply(e: State, b: byte)
    requires e.Valid() && e.tx == [] && !e.done
    ensures Accept(e, b).done ==> Accept(e, b).tx != []
  {
    AcceptCases(e, b);
    if CompletesFrame(e) {
      hide Accept, Inspect, ResultPayload, EncodeResponse, Answer, State.Valid;
      match Inspect(e.rx + [b])
      case BadFrame(_, _, _) =>
      case GoodRequest(r) => AnswerDone(Cleared(e), r);
    } else {
      hide Dispatch, ResultPayload;
    }
  }

  lemma AnswerDone(e: State, r: Request)
    requires e.Valid() && r.Valid() && !e.done
    ensures Answer(e, r).tx != [] || !Answer(e, r).done
  {
    hide ResultPayload, ServicePayload, StatusPayload, NegotiatePayload, RetiredPayload, Decide, DecideBlake3, Resume, State.Valid;
  }

  /** The cost of `n` transfers with at most `gap` stalled cycles before each. */
  function Cost(n: nat, gap: nat): nat {
    if n == 0 then 0 else 1 + gap + Cost(n - 1, gap)
  }

  function MaxGap(pattern: seq<nat>): (g: nat)
    ensures forall i :: 0 <= i < |pattern| ==> pattern[i] <= g
  {
    if pattern == [] then 0
    else
      var rest := MaxGap(pattern[1..]);
      assert forall i :: 0 < i < |pattern| ==> pattern[i] == pattern[1..][i - 1];
      if pattern[0] > rest then pattern[0] else rest
  }

  function Pattern(gaps: seq<nat>): (p: seq<nat>)
    ensures |p| > 0
  {
    if gaps == [] then [0] else gaps
  }

  /** Everything that will leave the lane while `frame` is driven. */
  function WholeResponse(e: State, frame: seq<byte>): seq<byte>
    requires e.Valid()
  {
    e.tx + Responses(Drained(e), frame)
  }

  function CyclesNeeded(e: State, frame: seq<byte>, rxGaps: seq<nat>, txGaps: seq<nat>): nat
    requires e.Valid()
  {
    Pattern(rxGaps)[0] + Pattern(txGaps)[0]
    + Cost(|frame|, MaxGap(Pattern(rxGaps)))
    + Cost(|WholeResponse(e, frame)|, MaxGap(Pattern(txGaps)))
  }

  /** The driver has sent `sent` bytes and collected `response`; the rest is still to come. */
  ghost predicate OnTrack(e0: State, frame: seq<byte>, e: State, sent: nat, response: seq<byte>) {
    && e0.Valid() && e.Valid() && sent <= |frame|
    && Feed(e, frame[sent..]) == Feed(e0, frame)
    && response + WholeResponse(e, frame[sent..]) == WholeResponse(e0, frame)
  }

  lemma FeedOfDrained(e: State, e': State, data: seq<byte>)
    requires e.Valid() && e'.Valid() && Drained(e) == Drained(e')
    ensures Feed(e, data) == Feed(e', data)
  {
    hide Accept, State.Valid;
  }

  lemma FeedUnfolds(e: State, data: seq<byte>)
    requires e.Valid() && data != []
    ensures var e' := Accept(Drained(e), data[0]);
            e'.Valid() && Drained(e').Valid() && Feed(e, data) == Feed(Drained(e'), data[1..])
  {
    AcceptKeepsValid(Drained(e), data[0]);
    hide Accept;
  }

  /** Accepting a byte is the first step of feeding it. */
  lemma FeedOne(e: State, data: seq<byte>)
    requires e.Valid() && e.tx == [] && data != []
    ensures var e' := Accept(Drained(e), data[0]);
            && e'.Valid()
            && Feed(e, data) == Feed(e', data[1..])
            && WholeResponse(e, data) == WholeResponse(e', data[1..])
  {
    var e' := Accept(Drained(e), data[0]);
    hide Accept, State.Valid, Feed, WholeResponse;
    FeedUnfolds(e, data);
    RespondOne(e, data);
    FeedOfDrained(e', Drained(e'), data[1..]);
  }

  lemma RespondOne(e: State, data: seq<byte>)
    requires e.Valid() && e.tx == [] && data != [] && Accept(Drained(e), data[0]).Valid()
    ensures WholeResponse(e, data) == WholeResponse(Accept(Drained(e), data[0]), data[1..])
  {
    AcceptKeepsValid(Drained(e), data[0]);
    hide Accept, State.Valid, Feed;
    assert Drained(Drained(e)) == Drained(e);
    assert WholeResponse(e, data) == Responses(Drained(e), data);
  }

  lemma AcceptingKeepsTrack(e0: State, frame: seq<byte>, e: State, sent: nat, response: seq<byte>)
    requires OnTrack(e0, frame, e, sent, response) && e.tx == [] && sent < |frame|
    ensures var e' := Accept(Drained(e), frame[sent]);
            OnTrack(e0, frame, e', sent + 1, response) && (e'.done ==> e'.tx != [])
  {
    var rest := frame[sent..];
    assert rest[0] == frame[sent] && rest[1..] == frame[sent + 1..];
    var e' := Accept(Drained(e), frame[sent]);
    hide Accept, Feed, WholeResponse, Responses, State.StagedValid, State.ReceiveValid;
    FeedOne(e, rest);
    DoneMeansReply(Drained(e), frame[sent]);
  }

  /** Response bytes may leave at any time. */
  lemma FewerPending(e: State, tx: seq<byte>)
    requires e.Valid() && (e.tx == [] ==> tx == [])
    ensures e.(done := false, tx := tx).Valid()
  {
    hide ResultPayload;
  }

  lemma DrainingKeepsTrack(e0: State, frame: seq<byte>, e: State, sent: nat, response: seq<byte>, ready: bool)
    requires OnTrack(e0, frame, e, sent, response) && (ready ==> e.tx != [])
    ensures var e' := e.(done := false, tx := if ready then e.tx[1..] else e.tx);
            OnTrack(e0, frame, e', sent, if ready then response + [e.tx[0]] else response)
  {
    var e' := e.(done := false, tx := if ready then e.tx[1..] else e.tx);
    var rest := frame[sent..];
    FewerPending(e, e'.tx);
    SameAhead(e, e', rest);
    hide State.Valid, Feed, Responses, WholeResponse, Drained;
    if ready {
      ByteMoves(response, e.tx, Responses(Drained(e), rest));
    }
  }

  /** What has yet to be fed does not depend on what is still pending. */
  lemma SameAhead(e: State, e': State, rest: seq<byte>)
    requires e.Valid() && e'.Valid() && Drained(e) == Drained(e')
    ensures Drained(e).Valid() && Feed(e, rest) == Feed(e', rest)
    ensures WholeResponse(e, rest) == e.tx + Responses(Drained(e), rest)
    ensures WholeResponse(e', rest) == e'.tx + Responses(Drained(e), rest)
  {
    FeedOfDrained(e, e', rest);
    hide Feed, Responses, Accept;
  }

  lemma ByteMoves(response: seq<byte>, tx: seq<byte>, later: seq<byte>)
    requires tx != []
    ensures response + (tx + later) == response + [tx[0]] + (tx[1..] + later)
  {
  }

  /** One edge keeps the driver on track, whatever it offers. */
  lemma EdgeKeepsTrack(e0: State, frame: seq<byte>, e: State, sent: nat, response: seq<byte>, i: Input)
    requires OnTrack(e0, frame, e, sent, response)
    requires i.resetN && !i.abort
    requires i.rxValid ==> sent < |frame| && i.rxData == frame[sent]
    ensures var record := RecordOf(e, i);
            OnTrack(e0, frame, Step(e, i),
                    if record.rxCommitted then sent + 1 else sent,
                    if record.txCommitted then response + [record.pins.txData] else response)
    ensures Step(e, i).done ==> Step(e, i).tx != []
  {
    if Accepting(e, i) {
      AcceptingKeepsTrack(e0, frame, e, sent, response);
      assert e.(done := false) == Drained(e);
    } else {
      DrainingKeepsTrack(e0, frame, e, sent, response, e.tx != [] && i.txReady);
    }
    hide Accept, State.Valid, OnTrack;
  }

  /** What being on track says about lengths, and about having sent everything. */
  lemma OnTrackFacts(e0: State, frame: seq<byte>, e: State, sent: nat, response: seq<byte>)
    requires OnTrack(e0, frame, e, sent, response)
    ensures e.Valid() && e0.Valid() && sent <= |frame|
    ensures |response| + |e.tx| <= |WholeResponse(e0, frame)|
    ensures sent == |frame| ==> Drained(e) == Feed(e0, frame) && response + e.tx == WholeResponse(e0, frame)
  {
    hide Accept, State.Valid;
    assert sent == |frame| ==> frame[sent..] == [];
  }

  /** An upper bound on the edges still needed. */
  function Remaining(bytes: int, rxHold: nat, rxGap: nat, reply: int, txHold: nat, txGap: nat): nat {
    rxHold + txHold + (if bytes >= 0 then Cost(bytes, rxGap) else 0) + (if reply >= 0 then Cost(reply, txGap) else 0)
  }

  /** `drive`: `None` when the lane did not settle within `maxCycles`. */
  method Drive(endpoint: Lsc1Endpoint, frame: seq<byte>, rxGaps: seq<nat>, txGaps: seq<nat>, maxCycles: nat)
    returns (r: Option<seq<byte>>)
    requires endpoint.View().Valid() && endpoint.retireSeq + |frame| < U32_MAX
    modifies endpoint
    ensures endpoint.View().Valid()
    ensures r.Some? ==> r.value == old(WholeResponse(endpoint.View(), frame))
    ensures r.Some? ==> endpoint.View() == old(Feed(endpoint.View(), frame))
    ensures r.None? ==>
      || old(WholeResponse(endpoint.View(), frame)) == []
      || maxCycles < old(CyclesNeeded(endpoint.View(), frame, rxGaps, txGaps))
    ensures endpoint.retireSeq <= old(endpoint.retireSeq) + |frame|
  {
    hide Feed, Responses, WholeResponse, Step, OnTrack, State.Valid, CyclesNeeded;
    var rxPattern, txPattern := Pattern(rxGaps), Pattern(txGaps);
    ghost var e0 := endpoint.View();
    ghost var whole := WholeResponse(e0, frame);
    ghost var rxGap, txGap := MaxGap(rxPattern), MaxGap(txPattern);
    var sent, response := 0, [];
    var rxHold, txHold := rxPattern[0], txPattern[0];
    var cycles := 0;
    DriveStarts(e0, frame, rxGaps, txGaps);
    while cycles < maxCycles
      invariant OnTrack(e0, frame, endpoint.View(), sent, response)
      invariant endpoint.View().Valid() && endpoint.retireSeq <= old(endpoint.retireSeq) + sent
      invariant sent <= |frame| && |response| <= |whole|
      invariant !(sent == |frame| && response != [] && endpoint.tx == [])
      invariant whole != [] ==>
        cycles + Remaining(|frame| - sent, rxHold, rxGap, |whole| - |response|, txHold, txGap)
          <= CyclesNeeded(e0, frame, rxGaps, txGaps)
    {
      var i := Input(if sent < |frame| then frame[sent] else 0, sent < |frame| && rxHold == 0, txHold == 0, false, true);
      EdgeKeepsTrack(e0, frame, endpoint.View(), sent, response, i);
      OnTrackFacts(e0, frame, endpoint.View(), sent, response);
      var record := endpoint.Tick(i);
      cycles := cycles + 1;
      if record.rxCommitted {
        sent := sent + 1;
        rxHold := rxPattern[sent % |rxPattern|];
      } else if rxHold > 0 {
        rxHold := rxHold - 1;
      }
      if record.txCommitted {
        response := response + [record.pins.txData];
        txHold := txPattern[|response| % |txPattern|];
      } else if txHold > 0 {
        txHold := txHold - 1;
      }
      OnTrackFacts(e0, frame, endpoint.View(), sent, response);
      if sent == |frame| && response != [] && endpoint.tx == [] {
        assert endpoint.View() == Drained(endpoint.View());
        return Some(response);
      }
    }
    OnTrackFacts(e0, frame, endpoint.View(), sent, response);
    return None;
  }

  lemma DriveStarts(e0: State, frame: seq<byte>, rxGaps: seq<nat>, txGaps: seq<nat>)
    requires e0.Valid()
    ensures OnTrack(e0, frame, e0, 0, [])
    ensures CyclesNeeded(e0, frame, rxGaps, txGaps)
         == Remaining(|frame|, Pattern(rxGaps)[0], MaxGap(Pattern(rxGaps)),
                      |WholeResponse(e0, frame)|, Pattern(txGaps)[0], MaxGap(Pattern(txGaps)))
  {
    hide Feed, Responses, State.Valid;
    assert frame[0..] == frame;
    assert [] + WholeResponse(e0, frame) == WholeResponse(e0, frame);
  }
}
