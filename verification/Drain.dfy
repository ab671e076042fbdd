/** The poll on the real ring: bytes leave the interrupt's queue and enter the parser. */
module Drain {
  import opened Bytes
  import Board
  import Ring
  import Parser

  /** The bytes that interrupts store in each of the three gaps of one read; what arrives
      while a byte is being processed falls into the first gap of the next read. */
  datatype Gaps = Gaps(before: seq<byte>, between: seq<byte>, after: seq<byte>)

  /** Reads until the ring is empty when looked at, but never more than one buffer's worth.
      The board does what a poll does that finds exactly the bytes taken, and these are
      the oldest of the queue, in order: `uart.Valid()` ties them to what was accepted. */
  method PollRing(pm: Board.ProtocolManager, uart: Ring.Uart, arrivals: nat -> Gaps, nowMs: u32)
    returns (drained: seq<byte>)
    requires pm.Valid() && uart.Valid() && uart.rxBuf != pm.rxFrame && uart.rxBuf != pm.flash.mem
    modifies pm, pm.rxFrame, pm.flash`faults, pm.flash`erases, pm.flash.mem
    modifies uart, uart.rxBuf
    ensures pm.Valid() && uart.Valid()
    ensures |drained| <= Board.UART_RX_BUFFER_SIZE && uart.taken == old(uart.taken) + drained
    ensures |drained| < Board.UART_RX_BUFFER_SIZE ==> uart.Pending() == []
    ensures pm.Abs() == Board.PollOnce(old(pm.Abs()), drained, nowMs)
  {
    hide Board.FeedBoard, Parser.Rx.Ok, Ring.PushAll, Ring.Unread;
    ghost var before := pm.Abs();
    drained := [];
    var budget := Board.UART_RX_BUFFER_SIZE;
    while budget > 0
      invariant 0 <= budget && budget + |drained| == Board.UART_RX_BUFFER_SIZE
      invariant pm.Valid() && uart.Valid() && before.Ok()
      invariant uart.taken == old(uart.taken) + drained
      invariant pm.Abs() == Board.FeedBytes(before, drained)
    {
      var gaps := arrivals(|drained|);
      var ok, b := uart.Getc(gaps.before, gaps.between, gaps.after);
      if !ok {
        break;
      }
      pm.Feed(b);
      assert (drained + [b])[..|drained|] == drained;
      drained := drained + [b];
      budget := budget - 1;
    }
    pm.Settle(drained != [], nowMs);
    assert drained[..|drained|] == drained;
  }
}
