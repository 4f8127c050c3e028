/** The frame scanner of the Modbus-RTU slave (one pass of the polling loop in
    modbus_slave.c), stated on values: the receive buffer is the sequence of
    bytes received so far, and one pass either answers a request, waits on an
    incomplete candidate, or resets. The class in modbus_slave.dfy runs the
    same pass on arrays and is proved to agree with `StepSpec`. */
module FrameScanner {
  import opened ModbusDriver

  /** Passes the slave waits on an incomplete candidate before giving up (MAXWAITCOUNT). */
  const MAX_WAIT_COUNT: nat := 1000

  /** The session state the scanner works on: the bytes received so far
      (`uiRxBuff[0..uiRxIndex)`), the cursor, the wait counter and the error flag. */
  datatype Scanner = Scanner(rx: seq<byte>, checkIndex: nat, waitCount: nat, errorFlag: bool)

  /** The state MODBUS_ResetState leaves behind. */
  const Idle := Scanner([], 0, 0, false)

  /** The bounds the firmware's state always keeps. */
  predicate Wf(s: Scanner)
  {
    |s.rx| <= BUFFER_SIZE && s.checkIndex <= |s.rx| && s.waitCount <= MAX_WAIT_COUNT
  }

  datatype Option<T> = None | Some(value: T)

  // ---------------------------------------------------------------------------
  // Where a pass stops

  /** A complete Read Holding Registers request for this slave with a valid CRC starts at `k`. */
  predicate IsRequestAt(rx: seq<byte>, k: nat)
  {
    k + PACKET_SIZE <= |rx| && rx[k] == DEVICE_ID && rx[k + 1] == READ_COMMAND
    && ChecksumOk(rx, k)
  }

  /** This slave's id sits at `k` but fewer than eight bytes have arrived from there on. */
  predicate IsPendingAt(rx: seq<byte>, k: nat)
  {
    k < |rx| < k + PACKET_SIZE && rx[k] == DEVICE_ID
  }

  /** A pass that reaches `k` stops there. */
  predicate StopsAt(rx: seq<byte>, k: nat)
  {
    IsRequestAt(rx, k) || IsPendingAt(rx, k)
  }

  /** A pass from the start of `rx` finds nothing to stop at before `c`. */
  ghost predicate NoStopBefore(rx: seq<byte>, c: nat)
  {
    forall k :: 0 <= k < c ==> !StopsAt(rx, k)
  }

  /** What a pass finds: a request to answer, an incomplete candidate, or nothing. */
  datatype Verdict = Respond(at: nat) | Pending(at: nat) | NoFrame

  /** The verdict of a pass whose cursor is at `c`: the first position from `c`
      on where the pass stops, and what it finds there. The cursor moves one
      byte on anything else: a byte that is not the id, an unknown function
      code, or a CRC mismatch. */
  function Scan(rx: seq<byte>, c: nat): (v: Verdict)
    requires c <= |rx|
    decreases |rx| - c
    ensures v.Respond? ==> c <= v.at && IsRequestAt(rx, v.at)
    ensures v.Pending? ==> c <= v.at && IsPendingAt(rx, v.at)
    ensures v.NoFrame? ==> forall k :: c <= k < |rx| ==> !StopsAt(rx, k)
    ensures !v.NoFrame? ==> forall k :: c <= k < v.at ==> !StopsAt(rx, k)
  {
    if c == |rx| then NoFrame
    else if rx[c] != DEVICE_ID then
      assert !StopsAt(rx, c);
      Scan(rx, c + 1)
    else if |rx| <= c + 7 then Pending(c)
    else if rx[c + 1] == READ_COMMAND && ChecksumOk(rx, c) then Respond(c)
    else
      assert !StopsAt(rx, c);
      Scan(rx, c + 1)
  }

  /** The request header (first six bytes) of the frame at `at`. */
  function Header(rx: seq<byte>, at: nat): (h: seq<byte>)
    requires at + 6 <= |rx|
    ensures |h| == 6 && forall i :: 0 <= i < 6 ==> h[i] == rx[at + i]
  {
    rx[at..at + 6]
  }

  /** The request names existing registers and its reply fits the transmit buffer. */
  predicate Answerable(req: seq<byte>, regs: seq<uint16>)
    requires |req| >= 6
  {
    InRange(req, regs) && 2 * RequestCount(req) + 5 <= BUFFER_SIZE
  }

  /** The firmware does not bound-check the registers a request names: a pass
      is defined only when the request it would answer, if any, is answerable. */
  predicate Serviceable(regs: seq<uint16>, s: Scanner)
  {
    !s.errorFlag && PACKET_SIZE <= |s.rx| && Scan(s.rx, 0).Respond? ==>
      Answerable(Header(s.rx, Scan(s.rx, 0).at), regs)
  }

  /** For the slave's own table, a request that is in range always fits the buffer. */
  lemma InRangeIsAnswerable(req: seq<byte>)
    requires |req| >= 6 && InRange(req, Registers)
    ensures Answerable(req, Registers)
  {
  }

  // ---------------------------------------------------------------------------
  // One pass of the polling loop, and the receive interrupt

  /** The state after a pass, and the frame handed to UART_transmit if any. */
  datatype StepResult = StepResult(next: Scanner, reply: Option<seq<byte>>)

  /** One pass of the polling loop: an error resets; fewer than eight bytes
      leave everything alone; otherwise the scan from 0 answers the first
      request and resets, waits on an incomplete candidate (resetting once
      the wait counter has reached its limit), or resets when nothing stops it. */
  function StepSpec(regs: seq<uint16>, s: Scanner): (r: StepResult)
    requires Serviceable(regs, s)
    ensures Serviceable(regs, r.next)
    ensures r.reply.Some? ==>
              Sealed(r.reply.value) && 5 <= |r.reply.value| <= BUFFER_SIZE
              && r.reply.value[0] == DEVICE_ID && r.reply.value[1] == READ_COMMAND
              && r.next == Idle
  {
    if s.errorFlag then StepResult(Idle, None)
    else if |s.rx| < PACKET_SIZE then StepResult(s, None)
    else match Scan(s.rx, 0)
      case Respond(at) =>
        var req := Header(s.rx, at);
        ResponseLayout(req, regs);
        StepResult(Idle, Some(Response(req, regs)))
      case Pending(at) =>
        if s.waitCount >= MAX_WAIT_COUNT then StepResult(Idle, None)
        else StepResult(s.(checkIndex := at, waitCount := s.waitCount + 1), None)
      case NoFrame => StepResult(Idle, None)
  }

  /** A pass keeps the bounds of the firmware's state. */
  lemma StepKeepsBounds(regs: seq<uint16>, s: Scanner)
    requires Wf(s) && Serviceable(regs, s)
    ensures Wf(StepSpec(regs, s).next)
  {
  }

  /** The receive branch of the UART interrupt: the byte is appended while
      there is room, and otherwise the error flag is raised. */
  function Receive(s: Scanner, b: byte): (r: Scanner)
    requires Wf(s)
    ensures Wf(r)
    ensures |s.rx| < BUFFER_SIZE ==> r.rx == s.rx + [b] && r.errorFlag == s.errorFlag
    ensures |s.rx| == BUFFER_SIZE ==> r.rx == s.rx && r.errorFlag
    ensures r.checkIndex == s.checkIndex && r.waitCount == s.waitCount
  {
    if |s.rx| != BUFFER_SIZE then s.(rx := s.rx + [b]) else s.(errorFlag := true)
  }

  /** `n` passes in a row with no interrupt between them. */
  function Run(regs: seq<uint16>, s: Scanner, n: nat): (t: Scanner)
    requires Serviceable(regs, s)
    ensures Serviceable(regs, t)
    decreases n
  {
    if n == 0 then s else Run(regs, StepSpec(regs, s).next, n - 1)
  }

  // ---------------------------------------------------------------------------
  // Properties of a pass

  /** An error flag resets the whole session before any scanning. */
  lemma ErrorFlagForcesReset(regs: seq<uint16>, s: Scanner)
    requires s.errorFlag
    ensures StepSpec(regs, s) == StepResult(Idle, None)
  {
  }

  /** With fewer than eight bytes received and no error, a pass changes nothing. */
  lemma ShortBufferUntouched(regs: seq<uint16>, s: Scanner)
    requires !s.errorFlag && |s.rx| < PACKET_SIZE
    ensures StepSpec(regs, s) == StepResult(s, None)
  {
  }

  /** A pass answers exactly when the buffer holds a request before any
      incomplete candidate, and the answer is the reply to the first such request. */
  lemma ScanRespondsIff(rx: seq<byte>, c: nat)
    requires c <= |rx|
    ensures Scan(rx, c).Respond? <==>
              exists j :: c <= j && IsRequestAt(rx, j) && forall k :: c <= k < j ==> !IsPendingAt(rx, k)
  {
    var v := Scan(rx, c);
    if v.Respond? {
      assert c <= v.at && IsRequestAt(rx, v.at) && forall k :: c <= k < v.at ==> !IsPendingAt(rx, k);
    } else if exists j :: c <= j && IsRequestAt(rx, j) && forall k :: c <= k < j ==> !IsPendingAt(rx, k) {
      var j :| c <= j && IsRequestAt(rx, j) && forall k :: c <= k < j ==> !IsPendingAt(rx, k);
      assert StopsAt(rx, j);
    }
  }

  /** The cursor moves on past a byte that is not this slave's id, and past a
      complete candidate with another function code or a bad CRC. */
  lemma PassesOver(rx: seq<byte>, c: nat)
    requires NoStopBefore(rx, c) && !StopsAt(rx, c)
    ensures NoStopBefore(rx, c + 1)
  {
  }


  /** A pass stops at the first position where it can stop: a request there
      is answered, an incomplete candidate there is waited on. */
  lemma {:induction false} ScanFindsFirstStop(rx: seq<byte>, i: nat, c: nat)
    requires i <= c < |rx| && StopsAt(rx, c)
    requires forall k :: i <= k < c ==> !StopsAt(rx, k)
    ensures Scan(rx, i) == if IsRequestAt(rx, c) then Respond(c) else Pending(c)
    decreases c - i
  {
    if i < c {
      assert !StopsAt(rx, i);
      ScanFindsFirstStop(rx, i + 1, c);
    }
  }

  /** A false match does not hide a later frame: when `j` is the first complete
      request in the buffer, a pass answers it, whatever id bytes with an
      unknown function code or a bad CRC come before it. */
  lemma FirstRequestAnswered(rx: seq<byte>, j: nat)
    requires IsRequestAt(rx, j)
    requires forall k :: 0 <= k < j ==> !IsRequestAt(rx, k)
    ensures Scan(rx, 0) == Respond(j)
  {
    forall k | 0 <= k < j
      ensures !StopsAt(rx, k)
    {
      assert !IsPendingAt(rx, k);
    }
    ScanFindsFirstStop(rx, 0, j);
  }

  /** The pass that sees the first request of the buffer transmits its reply and resets. */
  lemma StepAnswersFirstRequest(regs: seq<uint16>, s: Scanner, j: nat)
    requires !s.errorFlag && IsRequestAt(s.rx, j)
    requires forall k :: 0 <= k < j ==> !IsRequestAt(s.rx, k)
    requires Answerable(Header(s.rx, j), regs)
    ensures Serviceable(regs, s)
    ensures StepSpec(regs, s) == StepResult(Idle, Some(Response(Header(s.rx, j), regs)))
  {
    FirstRequestAnswered(s.rx, j);
  }

  /** When nothing before `c` stops a pass, the pass stops at `c` exactly
      when there is a request or an incomplete candidate there. */
  lemma ScanAt(rx: seq<byte>, c: nat)
    requires c < |rx| && NoStopBefore(rx, c)
    ensures IsRequestAt(rx, c) ==> Scan(rx, 0) == Respond(c)
    ensures IsPendingAt(rx, c) ==> Scan(rx, 0) == Pending(c)
  {
    if StopsAt(rx, c) {
      ScanFindsFirstStop(rx, 0, c);
    }
  }

  /** A pass that meets nothing to stop at finds no frame. */
  lemma ScanFindsNothing(rx: seq<byte>)
    requires NoStopBefore(rx, |rx|)
    ensures Scan(rx, 0) == NoFrame
  {
    var v := Scan(rx, 0);
    assert !v.NoFrame? ==> StopsAt(rx, v.at);
  }

  /** A pass whose first stop is an incomplete candidate at `c` waits on it:
      it counts one more wait and leaves the cursor on the candidate, or
      resets once the counter has reached its limit. */
  lemma StepWaitsOnFirstCandidate(regs: seq<uint16>, s: Scanner, c: nat)
    requires !s.errorFlag && PACKET_SIZE <= |s.rx| && IsPendingAt(s.rx, c)
    requires NoStopBefore(s.rx, c)
    ensures Serviceable(regs, s)
    ensures StepSpec(regs, s)
            == if s.waitCount >= MAX_WAIT_COUNT then StepResult(Idle, None)
               else StepResult(s.(checkIndex := c, waitCount := s.waitCount + 1), None)
  {
    ScanFindsFirstStop(s.rx, 0, c);
  }

  /** A pass that finds nothing to stop at resets the session. */
  lemma NoCandidateResets(regs: seq<uint16>, s: Scanner)
    requires !s.errorFlag && PACKET_SIZE <= |s.rx|
    requires NoStopBefore(s.rx, |s.rx|)
    ensures Serviceable(regs, s) && StepSpec(regs, s) == StepResult(Idle, None)
  {
    ScanFindsNothing(s.rx);
  }


  /** An incomplete candidate below the wait limit does not reset: the pass
      only counts one more wait and leaves the cursor on the candidate. */
  lemma {:induction false} PendingWaits(regs: seq<uint16>, s: Scanner, n: nat)
    requires !s.errorFlag && PACKET_SIZE <= |s.rx| && Scan(s.rx, 0).Pending?
    requires s.waitCount + n <= MAX_WAIT_COUNT
    ensures Run(regs, s, n).rx == s.rx
    ensures Run(regs, s, n).waitCount == s.waitCount + n
    ensures !Run(regs, s, n).errorFlag
    ensures 0 < n ==> Run(regs, s, n).checkIndex == Scan(s.rx, 0).at
    decreases n
  {
    if n > 0 {
      var t := StepSpec(regs, s).next;
      assert t == s.(checkIndex := Scan(s.rx, 0).at, waitCount := s.waitCount + 1);
      PendingWaits(regs, t, n - 1);
    }
  }

  /** Waiting is bounded: with no further byte, an incomplete candidate is
      dropped and the session reset after the counter has run up to the limit. */
  lemma PendingTimesOut(regs: seq<uint16>, s: Scanner)
    requires !s.errorFlag && PACKET_SIZE <= |s.rx| && Scan(s.rx, 0).Pending?
    requires s.waitCount <= MAX_WAIT_COUNT
    ensures Run(regs, s, MAX_WAIT_COUNT - s.waitCount + 1) == Idle
  {
    var n := MAX_WAIT_COUNT - s.waitCount;
    PendingWaits(regs, s, n);
    RunSplit(regs, s, n, 1);
  }

  /** `a + b` passes are `a` passes followed by `b`. */
  lemma {:induction false} RunSplit(regs: seq<uint16>, s: Scanner, a: nat, b: nat)
    requires Serviceable(regs, s)
    ensures Run(regs, s, a + b) == Run(regs, Run(regs, s, a), b)
    decreases a
  {
    if a > 0 {
      RunSplit(regs, StepSpec(regs, s).next, a - 1, b);
    }
  }

  /** Bytes that arrive while a candidate waits complete it: once the eight
      bytes from the candidate form a request, the next pass answers it. */
  lemma CompletedCandidateAnswered(rx: seq<byte>, more: seq<byte>)
    requires Scan(rx, 0).Pending?
    requires IsRequestAt(rx + more, Scan(rx, 0).at)
    ensures Scan(rx + more, 0) == Respond(Scan(rx, 0).at)
  {
    var at := Scan(rx, 0).at;
    forall k | 0 <= k < at
      ensures !IsRequestAt(rx + more, k)
    {
      ExtensionKeepsNonStop(rx, more, k);
    }
    FirstRequestAnswered(rx + more, at);
  }

  /** A position where a pass does not stop is no request either once more
      bytes have arrived: its eight bytes were all there already. */
  lemma ExtensionKeepsNonStop(rx: seq<byte>, more: seq<byte>, k: nat)
    requires k < |rx| && !StopsAt(rx, k)
    ensures !IsRequestAt(rx + more, k)
  {
    if (rx + more)[k] == DEVICE_ID {
      assert (rx + more)[k..k + PACKET_SIZE] == rx[k..k + PACKET_SIZE];
      ChecksumOkIsSealed(rx, k);
      ChecksumOkIsSealed(rx + more, k);
    }
  }
}
