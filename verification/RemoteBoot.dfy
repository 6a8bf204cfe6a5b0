/** The remote-boot part of `run_network`: a request arms a boot, a later poll fires it. */
module RemoteBoot {
  import opened Prelude
  import Http

  type Selection = Http.BootSelection

  datatype SocketState =
    | Closed | Listen | SynSent | SynReceived | Established | FinWait1
    | FinWait2 | CloseWait | Closing | LastAck | TimeWait

  /** What one iteration of the loop sees once the network is up: the clock, the socket after the
      packets have been processed, the selection, if any, of the request answered, if any, and what
      is then left to send. */
  datatype Input = Input(ms: nat, socket: SocketState, answered: Option<Option<Selection>>, sendQueue: nat)

  /** The two variables that live across iterations. */
  datatype State = State(pendingBoot: Option<Selection>, pendingBootTime: Option<nat>)

  const IDLE := State(None, None)

  // ---- The socket within one iteration ----

  predicate IsOpen(socket: SocketState) {
    !socket.Closed? && !socket.TimeWait?
  }

  /** A socket that is not open is made to listen again. */
  function Relistened(socket: SocketState): SocketState {
    if IsOpen(socket) then socket else Listen
  }

  /** The CLOSE call of section 3.10.4 of RFC 9293. */
  function AfterClose(socket: SocketState): SocketState {
    match socket
    case Listen => Closed
    case SynSent => Closed
    case SynReceived => FinWait1
    case Established => FinWait1
    case CloseWait => LastAck
    case _ => socket
  }

  /** The state that the check for the end of the connection sees: the answer to a request closes
      the socket. */
  function SocketAtCheck(input: Input): SocketState {
    if input.answered.Some? then AfterClose(Relistened(input.socket)) else Relistened(input.socket)
  }

  predicate Unconnected(socket: SocketState) {
    socket.Closed? || socket.TimeWait? || socket.Listen? || socket.SynSent?
  }

  // ---- One iteration ----

  /** The boot that an accepted request selects. */
  function Posted(input: Input): Option<Selection> {
    if input.answered.Some? then input.answered.value else None
  }

  function Arm(s: State, input: Input): State {
    if Posted(input).Some? then State(Posted(input), Some(input.ms)) else s
  }

  /** `saturating_sub` */
  function Since(now: nat, start: nat): nat {
    if now >= start then now - start else 0
  }

  function Elapsed(s: State, input: Input): nat {
    if s.pendingBootTime.Some? then Since(input.ms, s.pendingBootTime.value) else 0
  }

  predicate Due(input: Input, elapsed: nat) {
    || SocketAtCheck(input).Closed?
    || SocketAtCheck(input).TimeWait?
    || (input.sendQueue == 0 && elapsed >= 100)
    || elapsed >= 500
  }

  /** The new state, and the boot that is fired. */
  function Step(s: State, input: Input): (State, Option<Selection>) {
    var armed := Arm(s, input);
    if armed.pendingBoot.Some? && Due(input, Elapsed(armed, input))
    then (IDLE, armed.pendingBoot)
    else (armed, None)
  }

  class NetworkTask {
    var pendingBoot: Option<Selection>
    var pendingBootTime: Option<nat>

    constructor ()
      ensures State(pendingBoot, pendingBootTime) == IDLE
    {
      pendingBoot, pendingBootTime := None, None;
    }

    /** `network` is `None` while the network is not set up. */
    method Iterate(network: Option<Input>) returns (bootSel: Option<Selection>)
      modifies this
      ensures network.None? ==>
                bootSel == None && State(pendingBoot, pendingBootTime) == old(State(pendingBoot, pendingBootTime))
      ensures network.Some? ==>
                (State(pendingBoot, pendingBootTime), bootSel) ==
                Step(old(State(pendingBoot, pendingBootTime)), network.value)
    {
      bootSel := None;
      if network.Some? {
        var input := network.value;
        var socket := input.socket;
        if !IsOpen(socket) {
          socket := Listen;
        }
        if input.answered.Some? {
          socket := AfterClose(socket);
          var selection := input.answered.value;
          if selection.Some? {
            pendingBoot := selection;
            pendingBootTime := Some(input.ms);
          }
        }
        if pendingBoot.Some? {
          var elapsed := 0;
          if pendingBootTime.Some? {
            elapsed := Since(input.ms, pendingBootTime.value);
          }
          if socket.Closed? || socket.TimeWait? || (input.sendQueue == 0 && elapsed >= 100) || elapsed >= 500 {
            bootSel := pendingBoot;
            pendingBoot := None;
            pendingBootTime := None;
          }
        }
      }
    }
  }

  /** The exit for a connection that is gone is taken only if a request was answered on a socket
      that had no connection, because a closed socket is made to listen again before the check. */
  lemma ConnectionGoneIff(input: Input)
    ensures SocketAtCheck(input).Closed? || SocketAtCheck(input).TimeWait? <==>
            input.answered.Some? && Unconnected(input.socket)
  {
  }

  // ---- Whole runs ----

  function After(inputs: seq<Input>): State {
    if inputs == [] then IDLE else Step(After(inputs[..|inputs| - 1]), inputs[|inputs| - 1]).0
  }

  /** The boot fired by iteration `i`. */
  function BootAt(inputs: seq<Input>, i: nat): Option<Selection>
    requires i < |inputs|
  {
    Step(After(inputs[..i]), inputs[i]).1
  }

  predicate PostAt(inputs: seq<Input>, i: nat)
    requires i < |inputs|
  {
    Posted(inputs[i]).Some?
  }

  /** When a request is due: if one was answered without a connection, if all is sent after 100 ms, and
      after 500 ms in any case. */
  lemma DueSinceIff(inputs: seq<Input>, p: nat, i: nat)
    requires p < |inputs| && i < |inputs|
    ensures DueSince(inputs, p, i) <==>
            || (inputs[i].answered.Some? && Unconnected(inputs[i].socket))
            || (inputs[i].sendQueue == 0 && inputs[i].ms >= inputs[p].ms + 100)
            || inputs[i].ms >= inputs[p].ms + 500
  {
    ConnectionGoneIff(inputs[i]);
  }

  /** Iteration `p` accepts a request, and none after it until `i` accepts another. */
  predicate LatestAt(inputs: seq<Input>, p: nat, i: nat) {
    p <= i < |inputs| && PostAt(inputs, p) && forall j :: p < j <= i ==> !PostAt(inputs, j)
  }

  /** Is a request accepted at `p` due at iteration `i`? */
  predicate DueSince(inputs: seq<Input>, p: nat, i: nat)
    requires p < |inputs| && i < |inputs|
  {
    Due(inputs[i], Since(inputs[i].ms, inputs[p].ms))
  }

  /** Iteration `i` is the first at which the request accepted at `p`, not overridden, is due. */
  predicate FirstDue(inputs: seq<Input>, p: nat, i: nat) {
    && LatestAt(inputs, p, i)
    && DueSince(inputs, p, i)
    && forall j :: p <= j < i ==> !DueSince(inputs, p, j)
  }

  /** Iteration `p` is the last accepted request before `n`, and nothing has fired since. */
  ghost predicate ArmedBy(inputs: seq<Input>, p: nat, n: nat) {
    && p < n <= |inputs|
    && LatestAt(inputs, p, n - 1)
    && (forall i :: p <= i < n ==> BootAt(inputs, i).None?)
  }

  /** The two variables say exactly which request is armed, if any: they are set together, to the
      selection and the time of that request. */
  lemma {:induction false} ArmedIff(inputs: seq<Input>, n: nat)
    requires n <= |inputs|
    ensures var s := After(inputs[..n]);
            && (s.pendingBoot.Some? <==> s.pendingBootTime.Some?)
            && (s.pendingBoot.Some? <==> exists p: nat :: ArmedBy(inputs, p, n))
            && (forall p: nat :: ArmedBy(inputs, p, n) ==>
                  s == State(Posted(inputs[p]), Some(inputs[p].ms)))
  {
    if n > 0 {
      ArmedIff(inputs, n - 1);
      assert inputs[..n][..n - 1] == inputs[..n - 1];
      var s := After(inputs[..n]);
      if PostAt(inputs, n - 1) {
        if s.pendingBoot.Some? {
          assert ArmedBy(inputs, n - 1, n);
        }
      } else if s.pendingBoot.Some? {
        var p: nat :| ArmedBy(inputs, p, n - 1);
        assert ArmedBy(inputs, p, n);
      }
      forall p: nat | ArmedBy(inputs, p, n) ensures s == State(Posted(inputs[p]), Some(inputs[p].ms)) {
        assert BootAt(inputs, n - 1).None?;
        if p < n - 1 {
          assert ArmedBy(inputs, p, n - 1);
          assert !PostAt(inputs, n - 1);
        }
      }
    }
  }

  /** A boot is for the most recent selection: it was accepted at some iteration `p`, no other was
      accepted after it, and no boot has fired from `p` until now. */
  lemma BootUsesLatestSelection(inputs: seq<Input>, i: nat) returns (p: nat)
    requires i < |inputs| && BootAt(inputs, i).Some?
    ensures LatestAt(inputs, p, i) && BootAt(inputs, i) == Posted(inputs[p])
    ensures DueSince(inputs, p, i)
    ensures forall j :: p <= j < i ==> BootAt(inputs, j).None?
  {
    ArmedIff(inputs, i);
    if PostAt(inputs, i) {
      p := i;
    } else {
      p :| ArmedBy(inputs, p, i);
    }
  }

  /** A request that is still armed and due is booted. */
  lemma ArmedAndDueBoots(inputs: seq<Input>, p: nat, i: nat)
    requires LatestAt(inputs, p, i) && DueSince(inputs, p, i)
    requires forall j :: p <= j < i ==> BootAt(inputs, j).None?
    ensures BootAt(inputs, i) == Posted(inputs[p])
  {
    if p < i {
      assert ArmedBy(inputs, p, i);
      ArmedIff(inputs, i);
      assert !PostAt(inputs, i);
    }
    assert Arm(After(inputs[..i]), inputs[i]) == State(Posted(inputs[p]), Some(inputs[p].ms));
  }

  lemma LatestUnique(inputs: seq<Input>, p: nat, q: nat, i: nat, j: nat)
    requires LatestAt(inputs, p, i) && LatestAt(inputs, q, j) && p <= j <= i
    ensures q == p
  {
  }

  lemma NotDueNotFired(inputs: seq<Input>, p: nat, i: nat)
    requires LatestAt(inputs, p, i)
    requires forall j :: p <= j < i ==> !DueSince(inputs, p, j)
    ensures forall j :: p <= j < i ==> BootAt(inputs, j).None?
  {
    forall j | p <= j < i ensures BootAt(inputs, j).None? {
      if BootAt(inputs, j).Some? {
        var q := BootUsesLatestSelection(inputs, j);
        LatestUnique(inputs, p, q, i, j);
      }
    }
  }

  lemma FiredNotDue(inputs: seq<Input>, p: nat, i: nat)
    requires LatestAt(inputs, p, i)
    requires forall j :: p <= j < i ==> BootAt(inputs, j).None?
    ensures forall j :: p <= j < i ==> !DueSince(inputs, p, j)
  {
    forall j | p <= j < i ensures !DueSince(inputs, p, j) {
      if DueSince(inputs, p, j) {
        ArmedAndDueBoots(inputs, p, j);
      }
    }
  }

  /** Exactly when a boot fires, and which: at the first iteration at which the latest request is
      due, and at no other. */
  lemma BootsExactlyWhenFirstDue(inputs: seq<Input>, i: nat, selection: Selection)
    requires i < |inputs|
    ensures BootAt(inputs, i) == Some(selection) <==>
            exists p: nat :: FirstDue(inputs, p, i) && inputs[p].answered == Some(Some(selection))
  {
    if BootAt(inputs, i) == Some(selection) {
      var p := BootUsesLatestSelection(inputs, i);
      FiredNotDue(inputs, p, i);
      assert FirstDue(inputs, p, i);
    }
    if p: nat :| FirstDue(inputs, p, i) && inputs[p].answered == Some(Some(selection)) {
      NotDueNotFired(inputs, p, i);
      ArmedAndDueBoots(inputs, p, i);
    }
  }

  lemma {:induction false} LeastDue(inputs: seq<Input>, p: nat, from: nat, i: nat) returns (j: nat)
    requires from <= i && LatestAt(inputs, p, i) && DueSince(inputs, p, i)
    requires p <= from && forall k :: p <= k < from ==> !DueSince(inputs, p, k)
    ensures j <= i && FirstDue(inputs, p, j)
    decreases i - from
  {
    if DueSince(inputs, p, from) {
      j := from;
    } else {
      j := LeastDue(inputs, p, from + 1, i);
    }
  }

  /** Is the request of `p`, not yet overridden, booted before `n`? */
  ghost predicate BootedBefore(inputs: seq<Input>, p: nat, n: nat) {
    exists j :: p <= j < n && LatestAt(inputs, p, j) && BootAt(inputs, j) == Posted(inputs[p])
  }

  ghost predicate DueBefore(inputs: seq<Input>, p: nat, n: nat) {
    exists j :: p <= j < n && LatestAt(inputs, p, j) && DueSince(inputs, p, j)
  }

  /** An accepted request is booted if and only if it becomes due before another one overrides it. */
  lemma RequestBootsIff(inputs: seq<Input>, p: nat, n: nat)
    requires p < n <= |inputs| && PostAt(inputs, p)
    ensures BootedBefore(inputs, p, n) <==> DueBefore(inputs, p, n)
  {
    if BootedBefore(inputs, p, n) {
      var j :| p <= j < n && LatestAt(inputs, p, j) && BootAt(inputs, j) == Posted(inputs[p]);
      var q := BootUsesLatestSelection(inputs, j);
      LatestUnique(inputs, p, q, j, j);
    }
    if DueBefore(inputs, p, n) {
      var i :| p <= i < n && LatestAt(inputs, p, i) && DueSince(inputs, p, i);
      var j := LeastDue(inputs, p, p, i);
      BootsExactlyWhenFirstDue(inputs, j, Posted(inputs[p]).value);
    }
  }

  ghost function Posts(inputs: seq<Input>, n: nat): nat
    requires n <= |inputs|
  {
    if n == 0 then 0 else Posts(inputs, n - 1) + if PostAt(inputs, n - 1) then 1 else 0
  }

  ghost function BootCount(inputs: seq<Input>, n: nat): nat
    requires n <= |inputs|
  {
    if n == 0 then 0 else BootCount(inputs, n - 1) + if BootAt(inputs, n - 1).Some? then 1 else 0
  }

  /** Boots never outnumber accepted requests; while one is armed they are fewer. */
  lemma {:induction false} BootsNeverOutnumberPosts(inputs: seq<Input>, n: nat)
    requires n <= |inputs|
    ensures BootCount(inputs, n) + (if After(inputs[..n]).pendingBoot.Some? then 1 else 0) <= Posts(inputs, n)
  {
    if n > 0 {
      BootsNeverOutnumberPosts(inputs, n - 1);
      assert inputs[..n][..n - 1] == inputs[..n - 1];
    }
  }

  /** A request accepted at `p` and not overridden has fired by the first iteration `i` that is
      500 ms or more later. */
  lemma FiresByDeadline(inputs: seq<Input>, p: nat, i: nat)
    requires LatestAt(inputs, p, i)
    requires inputs[i].ms >= inputs[p].ms + 500
    ensures exists j :: p <= j <= i && BootAt(inputs, j) == Posted(inputs[p])
  {
    assert DueSince(inputs, p, i);
    assert DueBefore(inputs, p, i + 1);
    RequestBootsIff(inputs, p, i + 1);
    assert BootedBefore(inputs, p, i + 1);
  }

  /** It fires earlier only if everything has been sent and 100 ms have passed since the request, or
      a request was answered on a socket without a connection. */
  lemma EarlyOnlyWhenSent(inputs: seq<Input>, i: nat) returns (p: nat)
    requires i < |inputs| && BootAt(inputs, i).Some?
    ensures LatestAt(inputs, p, i) && BootAt(inputs, i) == Posted(inputs[p])
    ensures
      || (inputs[i].answered.Some? && Unconnected(inputs[i].socket))
      || (inputs[i].sendQueue == 0 && inputs[i].ms >= inputs[p].ms + 100)
      || inputs[i].ms >= inputs[p].ms + 500
  {
    p := BootUsesLatestSelection(inputs, i);
    ConnectionGoneIff(inputs[i]);
  }

  ghost predicate NeverDue(inputs: seq<Input>, n: nat) {
    forall p, i :: 0 <= p <= i < n && LatestAt(inputs, p, i) ==> !DueSince(inputs, p, i)
  }

  lemma {:induction false} NoBoots(inputs: seq<Input>, n: nat)
    requires n <= |inputs|
    ensures BootCount(inputs, n) == 0 <==> forall i :: 0 <= i < n ==> BootAt(inputs, i).None?
  {
    if n > 0 {
      NoBoots(inputs, n - 1);
    }
  }

  /** Nothing at all is booted in `n` iterations if and only if at none of them the latest request
      is due. */
  lemma NoBootIff(inputs: seq<Input>, n: nat)
    requires n <= |inputs|
    ensures BootCount(inputs, n) == 0 <==> NeverDue(inputs, n)
  {
    NoBoots(inputs, n);
    if NeverDue(inputs, n) {
      forall i | 0 <= i < n ensures BootAt(inputs, i).None? {
        if BootAt(inputs, i).Some? {
          var p := BootUsesLatestSelection(inputs, i);
        }
      }
    } else {
      var p, i :| 0 <= p <= i < n && LatestAt(inputs, p, i) && DueSince(inputs, p, i);
      var j := LeastDue(inputs, p, p, i);
      BootsExactlyWhenFirstDue(inputs, j, Posted(inputs[p]).value);
    }
  }

  /** Accepting a new request at every iteration postpones the boot for ever, each one restarting the
      clock, if and only if each of them comes over a connection. */
  lemma RequestsPostponeIff(inputs: seq<Input>, n: nat)
    requires n <= |inputs|
    requires forall i :: 0 <= i < n ==> PostAt(inputs, i)
    ensures BootCount(inputs, n) == 0 <==> forall i :: 0 <= i < n ==> !Unconnected(inputs[i].socket)
  {
    NoBootIff(inputs, n);
    forall p, i | 0 <= p <= i < n && LatestAt(inputs, p, i)
      ensures DueSince(inputs, p, i) <==> Unconnected(inputs[i].socket)
    {
      assert PostAt(inputs, i);
      ConnectionGoneIff(inputs[i]);
    }
    if i :| 0 <= i < n && Unconnected(inputs[i].socket) {
      assert LatestAt(inputs, i, i) && DueSince(inputs, i, i);
    }
  }

  // ---- What the network can bring ----

  /** What a segment or a timeout can do to the socket (section 3.10.7 of RFC 9293). */
  predicate SegmentStep(before: SocketState, after: SocketState) {
    match before
    case Closed => false
    case Listen => after.SynReceived?
    case SynSent => after.SynReceived? || after.Established? || after.Closed?
    case SynReceived => after.Established? || after.CloseWait? || after.Listen? || after.Closed?
    case Established => after.CloseWait? || after.Closed?
    case FinWait1 => after.FinWait2? || after.Closing? || after.TimeWait? || after.Closed?
    case FinWait2 => after.TimeWait? || after.Closed?
    case CloseWait => after.Closed?
    case Closing => after.TimeWait? || after.Closed?
    case LastAck => after.Closed?
    case TimeWait => after.Closed?
  }

  ghost predicate Leads(before: SocketState, after: SocketState, steps: nat)
    decreases steps
  {
    if steps == 0 then before == after
    else exists via: SocketState :: SegmentStep(before, via) && Leads(via, after, steps - 1)
  }

  ghost predicate ComesAfter(before: SocketState, after: SocketState) {
    exists steps: nat :: Leads(before, after, steps)
  }

  /** Nothing is received without a connection (section 3.10.3 of RFC 9293), and a socket that was
      closed has nothing left to send. */
  predicate Delivers(input: Input) {
    && (input.answered.Some? ==> !Unconnected(input.socket))
    && (!IsOpen(input.socket) ==> input.sendQueue == 0)
  }

  /** The socket of iteration `i` comes about from what the iteration before left. */
  ghost predicate Follows(inputs: seq<Input>, i: nat)
    requires 0 < i < |inputs|
  {
    ComesAfter(SocketAtCheck(inputs[i - 1]), inputs[i].socket)
  }

  /** Inputs that can really come: the one socket starts closed and then takes its course. */
  ghost predicate Possible(inputs: seq<Input>) {
    && (inputs != [] ==> inputs[0].socket.Closed?)
    && (forall i :: 0 <= i < |inputs| ==> Delivers(inputs[i]))
    && (forall i :: 0 < i < |inputs| ==> Follows(inputs, i))
  }

  /** The exit for a connection that is gone is then never taken: a request is due exactly when
      everything has been sent and 100 ms have passed, or 500 ms have. */
  lemma ExitNeverTaken(inputs: seq<Input>, p: nat, i: nat)
    requires p < |inputs| && i < |inputs| && Delivers(inputs[i])
    ensures !SocketAtCheck(inputs[i]).Closed? && !SocketAtCheck(inputs[i]).TimeWait?
    ensures DueSince(inputs, p, i) <==>
            || (inputs[i].sendQueue == 0 && inputs[i].ms >= inputs[p].ms + 100)
            || inputs[i].ms >= inputs[p].ms + 500
  {
    ConnectionGoneIff(inputs[i]);
  }

  /** So a request at every iteration always postpones the boot. */
  lemma RequestsAlwaysPostpone(inputs: seq<Input>, n: nat)
    requires n <= |inputs|
    requires forall i :: 0 <= i < n ==> PostAt(inputs, i) && Delivers(inputs[i])
    ensures BootCount(inputs, n) == 0
  {
    RequestsPostponeIff(inputs, n);
  }

  /** The states of a connection that this side has closed, or that is over. */
  predicate Down(socket: SocketState) {
    !socket.Listen? && !socket.SynSent? && !socket.SynReceived? && !socket.Established? && !socket.CloseWait?
  }

  /** Closed by this side, but not yet over. */
  predicate HalfClosed(socket: SocketState) {
    Down(socket) && IsOpen(socket)
  }

  lemma {:induction false} DownStaysDown(before: SocketState, after: SocketState, steps: nat)
    requires Down(before) && Leads(before, after, steps)
    ensures Down(after)
    decreases steps
  {
    if steps > 0 {
      var via: SocketState :| SegmentStep(before, via) && Leads(via, after, steps - 1);
      DownStaysDown(via, after, steps - 1);
    }
  }

  /** A connection that was closed stays so until an iteration finds the socket closed. */
  lemma {:induction false} NoReopening(inputs: seq<Input>, i: nat, j: nat)
    requires Possible(inputs) && i < j < |inputs| && Down(SocketAtCheck(inputs[i]))
    requires forall m :: i < m <= j ==> IsOpen(inputs[m].socket)
    ensures HalfClosed(inputs[j].socket) && Down(SocketAtCheck(inputs[j]))
  {
    if i < j - 1 {
      NoReopening(inputs, i, j - 1);
    }
    assert Follows(inputs, j);
    var steps: nat :| Leads(SocketAtCheck(inputs[j - 1]), inputs[j].socket, steps);
    DownStaysDown(SocketAtCheck(inputs[j - 1]), inputs[j].socket, steps);
  }

  /** Once its connection is over, 100 ms after the request, the request has been booted. */
  lemma BootedWhenOver(inputs: seq<Input>, p: nat, m: nat)
    requires Possible(inputs) && LatestAt(inputs, p, m)
    requires !IsOpen(inputs[m].socket) && inputs[m].ms >= inputs[p].ms + 100
    ensures BootedBefore(inputs, p, m + 1)
  {
    assert Delivers(inputs[m]);
    assert DueSince(inputs, p, m);
    assert DueBefore(inputs, p, m + 1);
    RequestBootsIff(inputs, p, m + 1);
  }

  lemma BootedEarlier(inputs: seq<Input>, p: nat, m: nat, n: nat)
    requires m <= n
    ensures BootedBefore(inputs, p, m) ==> BootedBefore(inputs, p, n)
  {
    if BootedBefore(inputs, p, m) {
      var j :| p <= j < m && LatestAt(inputs, p, j) && BootAt(inputs, j) == Posted(inputs[p]);
      assert p <= j < n;
    }
  }

  /** A request is overridden without having been booted only by a later one over the same, half-closed
      connection, or over a new one for which the socket was free within 100 ms. */
  lemma OverriddenOverSameConnection(inputs: seq<Input>, p: nat, q: nat)
    requires Possible(inputs) && p < q < |inputs| && LatestAt(inputs, p, q - 1) && PostAt(inputs, q)
    requires !BootedBefore(inputs, p, q)
    ensures
      || HalfClosed(inputs[q].socket)
      || exists m :: p < m < q && !IsOpen(inputs[m].socket) && inputs[m].ms < inputs[p].ms + 100
  {
    assert Delivers(inputs[p]) && Delivers(inputs[q]);
    if forall m :: p < m <= q ==> IsOpen(inputs[m].socket) {
      NoReopening(inputs, p, q);
    } else {
      var m: nat :| p < m <= q && !IsOpen(inputs[m].socket);
      BootedEarlier(inputs, p, m + 1, q);
      if inputs[m].ms >= inputs[p].ms + 100 {
        BootedWhenOver(inputs, p, m);
      }
    }
  }

  // ---- A client that is kept waiting ----

  /** A client that never acknowledges the answer and sends a request for Linux every 400 ms over the
      one connection, which the first answer has half closed; the loop wakes every 10 ms. */
  function EagerInput(i: nat): Input {
    var socket := if i == 0 then Closed else if i == 1 then Established else FinWait1;
    Input(10 * i, socket, if i % 40 == 1 then Some(Some(Http.Linux)) else None, if i == 0 then 0 else 1)
  }

  function EagerClient(n: nat): seq<Input> {
    seq(n, i requires 0 <= i < n => EagerInput(i))
  }

  lemma EagerClientPossible(n: nat)
    ensures Possible(EagerClient(n))
  {
    var inputs := EagerClient(n);
    forall i | 0 < i < n ensures Follows(inputs, i) {
      assert inputs[i] == EagerInput(i) && inputs[i - 1] == EagerInput(i - 1);
      if i == 1 {
        assert Leads(Established, Established, 0);
        assert SegmentStep(SynReceived, Established) && Leads(SynReceived, Established, 1);
        assert SegmentStep(Listen, SynReceived) && Leads(Listen, Established, 2);
        assert SocketAtCheck(inputs[0]) == Listen;
      } else {
        assert SocketAtCheck(inputs[i - 1]) == FinWait1;
        assert Leads(FinWait1, FinWait1, 0);
      }
    }
  }

  lemma EagerRequestRecent(n: nat, p: nat, i: nat)
    requires LatestAt(EagerClient(n), p, i)
    ensures p % 40 == 1 && i - p < 40
  {
    assert PostAt(EagerClient(n), p);
    assert p + 40 > i || PostAt(EagerClient(n), p + 40);
  }

  /** None of its requests is ever booted, though all this can come. */
  lemma EagerClientWaits(n: nat)
    ensures Possible(EagerClient(n)) && BootCount(EagerClient(n), n) == 0
  {
    var inputs := EagerClient(n);
    EagerClientPossible(n);
    forall p, i | 0 <= p <= i < n && LatestAt(inputs, p, i) ensures !DueSince(inputs, p, i) {
      EagerRequestRecent(n, p, i);
    }
    NoBootIff(inputs, n);
  }

  /** But it would be if the client stopped after any of them. */
  lemma EagerClientServed(n: nat, silence: Input)
    requires n >= 2 && silence.answered.None? && silence.ms >= 10 * n + 500
    ensures BootAt(EagerClient(n) + [silence], n) == Some(Http.Linux)
  {
    var inputs := EagerClient(n) + [silence];
    var p := (n - 2) / 40 * 40 + 1;
    assert inputs[n] == silence;
    assert forall j :: 0 <= j < n ==> inputs[j] == EagerInput(j);
    assert LatestAt(inputs, p, n) && DueSince(inputs, p, n);
    forall j | p <= j < n ensures !DueSince(inputs, p, j) {
    }
    NotDueNotFired(inputs, p, n);
    ArmedAndDueBoots(inputs, p, n);
  }
}
