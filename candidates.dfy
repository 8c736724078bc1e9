/**
 * The ICE candidate buffer of one peer connection, as values: whether a remote
 * description is set, the candidates waiting in `pendingIceCandidates`, and the
 * candidates `addIceCandidate` has taken so far. The browser's verdict on a
 * candidate (accept it, or throw) is a parameter.
 */
module Candidates {
  import opened Wire

  /** Whether `addIceCandidate(c)` succeeds (true) or throws (false). */
  type Verdict = Candidate -> bool

  /** The buffer state of one peer connection. */
  datatype Negotiation = Negotiation(remoteSet: bool, pending: seq<Candidate>, applied: seq<Candidate>)

  /** A new `RTCPeerConnection`: no remote description, nothing buffered, nothing applied. */
  function Fresh(): Negotiation
  {
    Negotiation(false, [], [])
  }

  /** The candidates of `cs` the browser accepts, in the order of `cs`. */
  function Accepted(cs: seq<Candidate>, accepts: Verdict): (r: seq<Candidate>)
    ensures |r| <= |cs|
    ensures forall c :: c in r <==> c in cs && accepts(c)
  {
    if cs == [] then []
    else (if accepts(cs[0]) then [cs[0]] else []) + Accepted(cs[1..], accepts)
  }

  /** Filtering a concatenation filters each part. */
  lemma {:induction false} AcceptedConcat(a: seq<Candidate>, b: seq<Candidate>, accepts: Verdict)
    ensures Accepted(a + b, accepts) == Accepted(a, accepts) + Accepted(b, accepts)
  {
    if a == [] {
      assert a + b == b;
    } else {
      assert (a + b)[0] == a[0];
      assert (a + b)[1..] == a[1..] + b;
      AcceptedConcat(a[1..], b, accepts);
    }
  }

  /** Concatenation regroups freely. */
  lemma ConcatAssociates(a: seq<Candidate>, b: seq<Candidate>, c: seq<Candidate>)
    ensures a + (b + c) == (a + b) + c
  {
  }

  /** Filtering one more candidate at the end adds it exactly when it is accepted. */
  lemma AcceptedSnoc(cs: seq<Candidate>, c: Candidate, accepts: Verdict)
    ensures Accepted(cs + [c], accepts) == Accepted(cs, accepts) + (if accepts(c) then [c] else [])
  {
    AcceptedConcat(cs, [c], accepts);
  }

  /**
   * `handleIceCandidate` on a known peer: with a remote description the candidate
   * goes to `addIceCandidate` at once (a failure is caught and dropped); without
   * one it is appended to the buffer.
   */
  function Receive(b: Negotiation, c: Candidate, accepts: Verdict): (r: Negotiation)
    ensures r.remoteSet == b.remoteSet
    ensures b.remoteSet ==> r.pending == b.pending && r.applied == b.applied + (if accepts(c) then [c] else [])
    ensures !b.remoteSet ==> r.applied == b.applied && r.pending == b.pending + [c]
    ensures Settled(b) ==>
              r.applied + Accepted(r.pending, accepts) == b.applied + Accepted(b.pending + [c], accepts)
  {
    AcceptedSnoc(b.pending, c, accepts);
    if b.remoteSet then b.(applied := b.applied + (if accepts(c) then [c] else []))
    else b.(pending := b.pending + [c])
  }

  /**
   * `setRemoteDescription` followed by the drain of `handleOffer`: every buffered
   * candidate goes to `addIceCandidate` in arrival order, a failure on one does not
   * stop the rest, and the buffer is emptied.
   */
  function SetRemoteAndDrain(b: Negotiation, accepts: Verdict): (r: Negotiation)
    ensures r.remoteSet && r.pending == []
    ensures r.applied + Accepted(r.pending, accepts) == b.applied + Accepted(b.pending, accepts)
  {
    Negotiation(true, [], b.applied + Accepted(b.pending, accepts))
  }

  /** `setRemoteDescription` alone, as `handleAnswer` does it: the buffer is left as it is. */
  function SetRemoteOnly(b: Negotiation): (r: Negotiation)
    ensures r.remoteSet && r.pending == b.pending && r.applied == b.applied
  {
    b.(remoteSet := true)
  }

  /**
   * The ledger of received candidates: of the candidates received so far, the
   * accepted ones are the applied ones followed by the accepted buffered ones, in
   * arrival order.
   */
  predicate Conserved(b: Negotiation, received: seq<Candidate>, accepts: Verdict)
  {
    b.applied + Accepted(b.pending, accepts) == Accepted(received, accepts)
  }

  /** Nothing waits in the buffer once a remote description is set. */
  predicate Settled(b: Negotiation)
  {
    b.remoteSet ==> b.pending == []
  }

  /** Receiving a candidate on a settled buffer keeps the ledger of received candidates. */
  lemma ReceiveConserves(b: Negotiation, received: seq<Candidate>, c: Candidate, accepts: Verdict)
    requires Conserved(b, received, accepts) && Settled(b)
    ensures Conserved(Receive(b, c, accepts), received + [c], accepts)
  {
    var r := Receive(b, c, accepts);
    var x := if accepts(c) then [c] else [];
    AcceptedSnoc(b.pending, c, accepts);
    AcceptedSnoc(received, c, accepts);
    assert r.applied + Accepted(r.pending, accepts) == b.applied + (Accepted(b.pending, accepts) + x);
    ConcatAssociates(b.applied, Accepted(b.pending, accepts), x);
  }

  /** Receiving a candidate and the draining remote description keep the buffer settled. */
  lemma ReceiveAndDrainSettle(b: Negotiation, c: Candidate, accepts: Verdict)
    requires Settled(b)
    ensures Settled(Receive(b, c, accepts))
    ensures Settled(SetRemoteAndDrain(b, accepts))
  {
  }

  /**
   * Once the remote description is set and the buffer settled, exactly the
   * accepted candidates received so far have been applied, in arrival order.
   */
  lemma SettledDelivers(b: Negotiation, received: seq<Candidate>, accepts: Verdict)
    requires Conserved(b, received, accepts) && Settled(b) && b.remoteSet
    ensures b.applied == Accepted(received, accepts)
  {
    assert Accepted(b.pending, accepts) == [];
    assert b.applied + [] == b.applied;
  }

  /**
   * `handleAnswer` as written: a candidate buffered while the answer's remote
   * description is still pending is never applied. The remote description is set,
   * the candidate waits, and later candidates skip the buffer.
   */
  lemma AnswerStrandsCandidate(c: Candidate, d: Candidate, accepts: Verdict)
    requires accepts(c) && accepts(d) && c != d
    ensures var b := Receive(SetRemoteOnly(Receive(Fresh(), c, accepts)), d, accepts);
      && b.remoteSet && !Settled(b)
      && b.pending == [c] && b.applied == [d]
      && !Conserved(b, [c, d], accepts)
  {
    assert Accepted([c, d], accepts) == [c, d] by {
      assert [c, d][1..] == [d];
    }
    assert [d] + Accepted([c], accepts) == [d, c];
  }

  /** Once set without a drain, a buffered candidate stays buffered whatever candidates follow. */
  lemma {:induction false} StrandedStaysBuffered(b: Negotiation, later: seq<Candidate>, accepts: Verdict)
    requires b.remoteSet
    ensures ReceiveAll(b, later, accepts).pending == b.pending
    decreases |later|
  {
    if later != [] {
      StrandedStaysBuffered(Receive(b, later[0], accepts), later[1..], accepts);
    }
  }

  /** A run of `handleIceCandidate` calls on one peer. */
  function ReceiveAll(b: Negotiation, cs: seq<Candidate>, accepts: Verdict): (r: Negotiation)
    ensures r.remoteSet == b.remoteSet
    ensures |r.pending| <= |b.pending| + |cs|
    decreases |cs|
  {
    if cs == [] then b else ReceiveAll(Receive(b, cs[0], accepts), cs[1..], accepts)
  }

  /** `ReceiveAll` keeps the ledger from any starting point. */
  lemma {:induction false} ReceiveAllFrom(b: Negotiation, received: seq<Candidate>, cs: seq<Candidate>, accepts: Verdict)
    requires Conserved(b, received, accepts) && Settled(b)
    ensures Conserved(ReceiveAll(b, cs, accepts), received + cs, accepts)
    ensures Settled(ReceiveAll(b, cs, accepts))
    decreases |cs|
  {
    if cs == [] {
      assert received + cs == received;
    } else {
      ReceiveConserves(b, received, cs[0], accepts);
      ReceiveAllFrom(Receive(b, cs[0], accepts), received + [cs[0]], cs[1..], accepts);
      assert received + [cs[0]] + cs[1..] == received + cs;
    }
  }

  /**
   * The intended `handleAnswer`, which drains like `handleOffer`: a candidate
   * buffered before the answer is applied, and a peer that follows the protocol
   * ends up having applied exactly the accepted candidates, in arrival order.
   */
  lemma {:induction false} DrainingAnswerDelivers(before: seq<Candidate>, after: seq<Candidate>, accepts: Verdict)
    ensures var b := ReceiveAll(SetRemoteAndDrain(ReceiveAll(Fresh(), before, accepts), accepts), after, accepts);
      b.remoteSet && b.pending == [] && b.applied == Accepted(before + after, accepts)
  {
    var b1 := ReceiveAll(Fresh(), before, accepts);
    ReceiveAllFrom(Fresh(), [], before, accepts);
    assert [] + before == before;
    var b2 := SetRemoteAndDrain(b1, accepts);
    var b := ReceiveAll(b2, after, accepts);
    ReceiveAllFrom(b2, before, after, accepts);
    SettledDelivers(b, before + after, accepts);
  }
}
