/** The Modbus-RTU slave session: the globals of modbus_slave.c and
    uart_driver.h as the fields of one object, one pass of the polling loop as
    `Step`, and each kind of UART interrupt as a method of its own, run
    atomically between passes. What goes out on the line is recorded in two
    ghost fields: every frame handed to UART_transmit, and every byte written
    to the transmit register. */
module ModbusSlave {
  import opened ModbusDriver
  import opened FrameScanner

  class Session {
    /** uiRxBuff: bytes received from the master. */
    const rxBuff: array<byte>
    /** uiTxBuff: the reply being sent. */
    const txBuff: array<byte>
    /** uiModbusRegister: the holding registers. */
    const registers: seq<uint16>

    /** uiRxIndex: number of bytes received since the last reset. */
    var rxIndex: nat
    /** uiTxIndex: next byte of `txBuff` to send. */
    var txIndex: nat
    /** uiTxBuffLength: length of the reply being sent. */
    var txBuffLength: nat
    /** bErrorFlag: an overflow, parity or overrun error happened. */
    var errorFlag: bool
    /** uiCheckIndex: the scan cursor. */
    var checkIndex: nat
    /** uiWaitCount: passes spent waiting on an incomplete candidate. */
    var waitCount: nat
    /** uiTxLength: length of the last reply prepared. */
    var txLength: nat

    /** Every frame handed to UART_transmit, oldest first. */
    ghost var frames: seq<seq<byte>>
    /** Every byte written to the transmit register, oldest first. */
    ghost var wire: seq<byte>

    /** The bounds the firmware keeps on the receive side and on its counters. */
    ghost predicate Shape()
      reads this`rxIndex, this`checkIndex, this`waitCount, this`txIndex, this`txBuffLength
    {
      rxBuff.Length == BUFFER_SIZE && txBuff.Length == BUFFER_SIZE && rxBuff != txBuff
      && rxIndex <= BUFFER_SIZE && checkIndex <= rxIndex && waitCount <= MAX_WAIT_COUNT
      && txIndex <= BUFFER_SIZE && txBuffLength <= BUFFER_SIZE
    }

    /** The transmit side: the bytes of the current reply sent so far are the
        newest bytes on the line, in order, and the reply being sent is the
        last frame handed to UART_transmit. A transmission of length 0 still
        sends `txBuff[0]`. */
    ghost predicate Sending()
      reads this`txIndex, this`txBuffLength, this`wire, this`frames, txBuff
    {
      (txIndex <= txBuffLength || (txIndex == 1 && txBuffLength == 0))
      && txIndex <= |wire| && txIndex <= txBuff.Length && txBuffLength <= txBuff.Length
      && wire[|wire| - txIndex..] == txBuff[..txIndex]
      && (0 < txBuffLength ==> 0 < |frames| && frames[|frames| - 1] == txBuff[..txBuffLength])
    }

    ghost predicate Valid()
      reads this, txBuff
    {
      Shape() && Sending()
    }

    /** The state MODBUS_ResetState leaves behind. */
    ghost predicate Cleared()
      reads this`rxIndex, this`checkIndex, this`waitCount, this`errorFlag
    {
      rxIndex == 0 && checkIndex == 0 && waitCount == 0 && !errorFlag
    }

    /** The session as the frame scanner sees it. */
    ghost function Abstract(): Scanner
      reads this`rxIndex, this`checkIndex, this`waitCount, this`errorFlag, rxBuff
      requires rxIndex <= rxBuff.Length
    {
      Scanner(rxBuff[..rxIndex], checkIndex, waitCount, errorFlag)
    }

    /** Power-up: zero-initialised globals and the fixed register table. */
    constructor ()
      ensures Valid() && Abstract() == Idle && registers == Registers
      ensures txIndex == 0 && txBuffLength == 0 && txLength == 0 && frames == [] && wire == []
    {
      rxBuff := new byte[BUFFER_SIZE](_ => 0);
      txBuff := new byte[BUFFER_SIZE](_ => 0);
      registers := Registers;
      rxIndex, txIndex, txBuffLength, errorFlag := 0, 0, 0, false;
      checkIndex, waitCount, txLength := 0, 0, 0;
      frames, wire := [], [];
    }

    /** MODBUS_ResetState: empties the receive buffer, rewinds the cursor,
        clears the error flag and the wait counter; nothing else changes. */
    method ResetState()
      requires Valid()
      modifies this`rxIndex, this`checkIndex, this`errorFlag, this`waitCount
      ensures Valid()
      ensures Cleared() && Abstract() == Idle
    {
      rxIndex := 0;
      checkIndex := 0;
      errorFlag := false;
      waitCount := 0;
    }

    /** UART_transmit: starts sending the first `len` bytes of `txBuff` by
        writing the first of them to the transmit register. */
    method Transmit(len: nat)
      requires Shape() && len <= BUFFER_SIZE
      modifies this`txIndex, this`txBuffLength, this`wire, this`frames
      ensures Valid()
      ensures txBuffLength == len && txIndex == 1
      ensures wire == old(wire) + [txBuff[0]]
      ensures frames == old(frames) + [txBuff[..len]]
    {
      txIndex := 0;
      txBuffLength := len;
      frames := frames + [txBuff[..len]];
      wire := wire + [txBuff[txIndex]];
      txIndex := txIndex + 1;
    }

    /** The receive branch of the UART interrupt: stores the byte while the
        buffer has room, and raises the error flag otherwise. */
    method RxInterrupt(b: byte)
      requires Valid()
      modifies this`rxIndex, this`errorFlag, rxBuff
      ensures Valid()
      ensures Abstract() == Receive(old(Abstract()), b)
      ensures old(rxIndex) != BUFFER_SIZE ==>
                rxIndex == old(rxIndex) + 1 && rxBuff[..] == old(rxBuff[..])[old(rxIndex) := b]
                && errorFlag == old(errorFlag)
      ensures old(rxIndex) == BUFFER_SIZE ==>
                errorFlag && rxIndex == old(rxIndex) && rxBuff[..] == old(rxBuff[..])
    {
      if rxIndex != BUFFER_SIZE {
        rxBuff[rxIndex] := b;
        rxIndex := rxIndex + 1;
        assert rxBuff[..rxIndex] == old(rxBuff[..rxIndex]) + [b];
      } else {
        errorFlag := true;
      }
    }

    /** The transmit branch of the UART interrupt: sends the next byte of the
        reply, or, once all have gone, clears the index and the length. */
    method TxInterrupt()
      requires Valid()
      modifies this`txIndex, this`txBuffLength, this`wire
      ensures Valid()
      ensures old(txIndex) < old(txBuffLength) ==>
                txIndex == old(txIndex) + 1 && txBuffLength == old(txBuffLength)
                && wire == old(wire) + [txBuff[old(txIndex)]]
      ensures old(txBuffLength) <= old(txIndex) ==>
                txIndex == 0 && txBuffLength == 0 && wire == old(wire)
    {
      if txIndex < txBuffLength {
        wire := wire + [txBuff[txIndex]];
        txIndex := txIndex + 1;
        assert wire[|wire| - txIndex..] == old(wire[|wire| - txIndex..]) + [txBuff[txIndex - 1]];
      } else {
        txIndex := 0;
        txBuffLength := 0;
      }
    }

    /** The parity-error and overrun branches of the UART interrupt. */
    method LineErrorInterrupt()
      requires Valid()
      modifies this`errorFlag
      ensures Valid()
      ensures errorFlag
      ensures Abstract() == old(Abstract()).(errorFlag := true)
    {
      errorFlag := true;
    }

    /** Once every byte of the current reply has been sent, the line ends
        with that reply exactly as UART_transmit was given it. */
    lemma ReplyOnWire()
      requires Valid() && 0 < txBuffLength && txIndex == txBuffLength
      ensures wire[|wire| - txBuffLength..] == frames[|frames| - 1]
    {
    }

    /** The answer to a request found at the cursor: MODBUS_PrepareResponse
        writes the reply, UART_transmit starts sending it, MODBUS_ResetState
        empties the session. */
    method Answer()
      requires Shape() && checkIndex + PACKET_SIZE <= rxIndex
      requires Answerable(Header(rxBuff[..rxIndex], checkIndex), registers)
      modifies this`txLength, this`txIndex, this`txBuffLength, this`wire, this`frames, txBuff
      modifies this`rxIndex, this`checkIndex, this`errorFlag, this`waitCount
      ensures Valid() && Cleared()
      ensures var reply := Response(Header(old(rxBuff[..rxIndex]), old(checkIndex)), registers);
              frames == old(frames) + [reply] && wire == old(wire) + [reply[0]]
              && txIndex == 1 && txBuffLength == |reply| && txLength == |reply|
    {
      assert Header(rxBuff[..rxIndex], checkIndex) == rxBuff[checkIndex..checkIndex + 6];
      txLength := PrepareResponse(checkIndex, rxBuff, txBuff, registers);
      Transmit(txLength);
      ResetState();
    }

    /** The function-code switch on a complete candidate at the cursor: a
        Read Holding Registers request with a valid CRC is answered; anything
        else moves the cursor on. */
    method ExamineRequest() returns (answered: bool)
      requires Valid() && !errorFlag && checkIndex + PACKET_SIZE <= rxIndex
      requires rxBuff[checkIndex] == DEVICE_ID
      requires IsRequestAt(rxBuff[..rxIndex], checkIndex) ==>
                 Answerable(Header(rxBuff[..rxIndex], checkIndex), registers)
      modifies this`txLength, this`txIndex, this`txBuffLength, this`wire, this`frames, txBuff
      modifies this`rxIndex, this`checkIndex, this`errorFlag, this`waitCount
      ensures Valid()
      ensures answered == IsRequestAt(old(rxBuff[..rxIndex]), old(checkIndex))
      ensures answered ==>
                var reply := Response(Header(old(rxBuff[..rxIndex]), old(checkIndex)), registers);
                Cleared()
                && frames == old(frames) + [reply] && wire == old(wire) + [reply[0]]
                && txIndex == 1 && txBuffLength == |reply| && txLength == |reply|
      ensures !answered ==>
                unchanged(this`frames, this`wire, this`txIndex, this`txBuffLength, this`txLength)
                && unchanged(txBuff)
                && rxIndex == old(rxIndex) && checkIndex == old(checkIndex) + 1
                && waitCount == old(waitCount) && !errorFlag
    {
      ghost var rx := rxBuff[..rxIndex];
      answered := false;
      if rxBuff[checkIndex + 1] == READ_COMMAND {
        var ok := VerifyChecksum(checkIndex, rxBuff);
        SameCandidate(rxBuff[..], rxIndex, checkIndex);
        assert ok == IsRequestAt(rx, checkIndex);
        if ok {
          Answer();
          answered := true;
        } else {
          checkIndex := checkIndex + 1;
        }
      } else {
        checkIndex := checkIndex + 1;
      }
    }
    /** The wait on an incomplete candidate: one more pass is counted, or,
        once the counter has reached its limit, the session is emptied. */
    method Wait()
      requires Valid()
      modifies this`rxIndex, this`checkIndex, this`errorFlag, this`waitCount
      ensures Valid()
      ensures old(waitCount) >= MAX_WAIT_COUNT ==> Cleared()
      ensures old(waitCount) < MAX_WAIT_COUNT ==>
                waitCount == old(waitCount) + 1
                && unchanged(this`rxIndex, this`checkIndex, this`errorFlag)
    {
      if waitCount >= MAX_WAIT_COUNT {
        ResetState();
      } else {
        waitCount := waitCount + 1;
      }
    }

    /** One turn of the scan loop: the byte under the cursor starts a request
        that is answered, or an incomplete candidate that is waited on, and the
        pass is `done` (after a reply the buffer is empty, so the loop test
        fails; on a candidate the loop breaks); or it starts neither, and the
        cursor moves on. */
    method Examine() returns (done: bool)
      requires Valid() && !errorFlag && checkIndex < rxIndex
      requires NoStopBefore(rxBuff[..rxIndex], checkIndex)
      requires IsRequestAt(rxBuff[..rxIndex], checkIndex) ==>
                 Answerable(Header(rxBuff[..rxIndex], checkIndex), registers)
      modifies this`txLength, this`txIndex, this`txBuffLength, this`wire, this`frames, txBuff
      modifies this`rxIndex, this`checkIndex, this`errorFlag, this`waitCount
      ensures Valid()
      ensures done == StopsAt(old(rxBuff[..rxIndex]), old(checkIndex))
      ensures IsRequestAt(old(rxBuff[..rxIndex]), old(checkIndex)) ==>
                var reply := Response(Header(old(rxBuff[..rxIndex]), old(checkIndex)), registers);
                Cleared()
                && frames == old(frames) + [reply] && wire == old(wire) + [reply[0]]
                && txIndex == 1 && txBuffLength == |reply| && txLength == |reply|
      ensures !IsRequestAt(old(rxBuff[..rxIndex]), old(checkIndex)) ==>
                unchanged(this`frames, this`wire, this`txIndex, this`txBuffLength, this`txLength)
                && unchanged(txBuff)
      ensures IsPendingAt(old(rxBuff[..rxIndex]), old(checkIndex)) ==>
                (old(waitCount) >= MAX_WAIT_COUNT ==> Cleared())
                && (old(waitCount) < MAX_WAIT_COUNT ==>
                      rxIndex == old(rxIndex) && checkIndex == old(checkIndex)
                      && waitCount == old(waitCount) + 1 && !errorFlag)
      ensures !done ==>
                rxIndex == old(rxIndex) && checkIndex == old(checkIndex) + 1
                && waitCount == old(waitCount) && !errorFlag
                && NoStopBefore(old(rxBuff[..rxIndex]), checkIndex)
    {
      ghost var rx := rxBuff[..rxIndex];
      if rxBuff[checkIndex] == DEVICE_ID {
        if checkIndex + 7 < rxIndex {
          done := ExamineRequest();
          if !done {
            PassesOver(rx, checkIndex - 1);
          }
        } else {
          Wait();
          done := true;
        }
      } else {
        PassesOver(rx, checkIndex);
        checkIndex := checkIndex + 1;
        done := false;
      }
    }

    /** The scan loop: the cursor walks the buffer from the start and ends
        where `Scan` says a pass stops. A request found there is answered; an
        incomplete candidate is waited on, or the session is emptied once the
        wait has lasted too long; a walk that meets neither stops at the end of
        the buffer. */
    method ScanBuffer()
      requires Valid() && !errorFlag && PACKET_SIZE <= rxIndex
      requires Serviceable(registers, Abstract())
      modifies this`txLength, this`txIndex, this`txBuffLength, this`wire, this`frames, txBuff
      modifies this`rxIndex, this`checkIndex, this`errorFlag, this`waitCount
      ensures Valid()
      ensures Scan(old(rxBuff[..rxIndex]), 0).Respond? ==>
                var reply := Response(Header(old(rxBuff[..rxIndex]), Scan(old(rxBuff[..rxIndex]), 0).at), registers);
                Cleared()
                && frames == old(frames) + [reply] && wire == old(wire) + [reply[0]]
                && txIndex == 1 && txBuffLength == |reply| && txLength == |reply|
      ensures !Scan(old(rxBuff[..rxIndex]), 0).Respond? ==>
                unchanged(this`frames, this`wire, this`txIndex, this`txBuffLength, this`txLength)
                && unchanged(txBuff)
      ensures Scan(old(rxBuff[..rxIndex]), 0).Pending? ==>
                (old(waitCount) >= MAX_WAIT_COUNT ==> Cleared())
                && (old(waitCount) < MAX_WAIT_COUNT ==>
                      rxIndex == old(rxIndex) && rxBuff[..rxIndex] == old(rxBuff[..rxIndex])
                      && checkIndex == Scan(old(rxBuff[..rxIndex]), 0).at
                      && waitCount == old(waitCount) + 1 && !errorFlag)
      ensures Scan(old(rxBuff[..rxIndex]), 0).NoFrame? ==>
                rxIndex == old(rxIndex) && checkIndex == rxIndex
    {
      ghost var rx0 := rxBuff[..rxIndex];
      ghost var w0 := waitCount;
      checkIndex := 0;
      while checkIndex < rxIndex
        invariant Valid()
        invariant rxIndex == |rx0| && rx0 == rxBuff[..rxIndex] && waitCount == w0
        invariant !errorFlag && NoStopBefore(rx0, checkIndex)
        invariant unchanged(this`frames, this`wire, this`txIndex, this`txBuffLength, this`txLength)
        invariant unchanged(txBuff)
        decreases rxIndex - checkIndex
      {
        ScanAt(rx0, checkIndex);
        var done := Examine();
        if done {
          return;
        }
      }
      ScanFindsNothing(rx0);
    }

    /** The scan of a buffer holding at least a frame's worth of bytes: the
        scan loop, then, when the cursor has reached the end of the buffer,
        the session is emptied. */
    method ProcessPackets()
      requires Valid() && !errorFlag && PACKET_SIZE <= rxIndex
      requires Serviceable(registers, Abstract())
      modifies this, txBuff
      ensures Valid()
      ensures Abstract() == StepSpec(registers, old(Abstract())).next
      ensures StepSpec(registers, old(Abstract())).reply.Some? ==>
                var reply := StepSpec(registers, old(Abstract())).reply.value;
                frames == old(frames) + [reply] && wire == old(wire) + [reply[0]]
                && txIndex == 1 && txBuffLength == |reply| && txLength == |reply|
      ensures StepSpec(registers, old(Abstract())).reply.None? ==>
                frames == old(frames) && wire == old(wire) && txIndex == old(txIndex)
                && txBuffLength == old(txBuffLength) && txLength == old(txLength)
                && unchanged(txBuff)
    {
      ghost var s0 := Abstract();
      ghost var r0 := StepSpec(registers, s0);
      ghost var v := Scan(s0.rx, 0);
      assert v.Respond? ==> r0 == StepResult(Idle, Some(Response(Header(s0.rx, v.at), registers)));
      assert v.Pending? ==> r0.reply.None? && r0.next == if s0.waitCount >= MAX_WAIT_COUNT then Idle
               else s0.(checkIndex := v.at, waitCount := s0.waitCount + 1);
      assert v.NoFrame? ==> r0 == StepResult(Idle, None);
      ScanBuffer();
      if checkIndex == rxIndex {
        ResetState();
      }
    }

    /** One pass of the polling loop in modbus_slave.c: a pending line error
        empties the session, then a buffer holding a frame's worth of bytes
        is scanned. */
    method Step()
      requires Valid() && Serviceable(registers, Abstract())
      modifies this, txBuff
      ensures Valid()
      ensures Abstract() == StepSpec(registers, old(Abstract())).next
      ensures StepSpec(registers, old(Abstract())).reply.Some? ==>
                var reply := StepSpec(registers, old(Abstract())).reply.value;
                frames == old(frames) + [reply] && wire == old(wire) + [reply[0]]
                && txIndex == 1 && txBuffLength == |reply| && txLength == |reply|
      ensures StepSpec(registers, old(Abstract())).reply.None? ==>
                frames == old(frames) && wire == old(wire) && txIndex == old(txIndex)
                && txBuffLength == old(txBuffLength) && txLength == old(txLength)
                && unchanged(txBuff)
    {
      ghost var s0 := Abstract();
      if errorFlag {
        ResetState();
        ErrorFlagForcesReset(registers, s0);
      }
      if PACKET_SIZE <= rxIndex {
        ProcessPackets();
      }
    }
  }

  /** The candidate at `c` reads the same in the whole buffer and in the bytes received so far. */
  lemma SameCandidate(buf: seq<byte>, n: nat, c: nat)
    requires c + PACKET_SIZE <= n <= |buf|
    ensures buf[c..c + 6] == Header(buf[..n], c)
    ensures ChecksumOk(buf, c) <==> ChecksumOk(buf[..n], c)
  {
    assert buf[c..c + PACKET_SIZE] == buf[..n][c..c + PACKET_SIZE];
    ChecksumOkIsSealed(buf, c);
    ChecksumOkIsSealed(buf[..n], c);
  }
}
