/** Which frames may be repeated. The host repeats a frame whose reply it did not get, on
    the understanding that processing it twice is the same as processing it once. */
module Retransmission {
  import opened Bytes
  import opened Flash
  import opened Metadata
  import opened Frames
  import opened Protocol
  import opened LazyErase
  import Crc

  /** An expected block of proper length that the board cannot take: it goes beyond the
      announced size, or it meets cells that the lazy erase has not cleared. */
  ghost predicate Unstorable(dev: Device, f: Frame)
    requires DeviceInv(dev) && dev.s.state == Receiving && f.Fits()
  {
    && 0 < |f.data| && |f.data| % 8 == 0
    && (dev.s.written as int + |f.data| > dev.s.size
        || !AllFit(LazilyErased(dev.fs, dev.s.target, dev.s.written).0.mem,
                   SlotOffset(dev.s.target) + dev.s.written, f.data))
  }

  /** Frames that end the transfer in progress and give a reason, or complete it. */
  ghost predicate Concludes(dev: Device, f: Frame)
    requires DeviceInv(dev) && f.Fits()
  {
    && dev.s.state == Receiving
    && (f.cmd == CMD_END_UPDATE
        || (f.cmd == CMD_DATA && f.num != dev.s.lastNum && (f.num != dev.s.expectedNum || Unstorable(dev, f))))
  }

  ghost predicate Harmless(dev: Device, f: Frame)
    requires dev.s.Ok() && f.Fits()
  {
    var (d, r) := Dispatch(dev, f); var (e, r') := Dispatch(d, f);
    r' == r && SameUpToCounter(d, e)
  }

  /** Every frame, in every state: processing it a second time gives the same answer and
      leaves the same state exactly when the first time did not conclude a transfer. A
      concluded transfer answers the repetition with ERR_STATE. */
  lemma RetransmissionHarmlessIff(dev: Device, f: Frame)
    requires DeviceInv(dev) && f.Fits() && dev.fs.faults == []
    requires Counter(dev.fs.mem) + 2 <= MAX_COUNTER
    ensures Harmless(dev, f) <==> !Concludes(dev, f)
    ensures Concludes(dev, f) ==> Dispatch(Dispatch(dev, f).0, f).1 == Nack(f.num, ERR_STATE)
  {
    hide Read, OnStartUpdate, OnData, OnEndUpdate, OnGetInfo, Counter, DeviceInv, StartAcceptable, Unstorable;
    if f.cmd == CMD_START_UPDATE {
      StartTwice(dev, f.num, f.data);
    } else if f.cmd == CMD_DATA {
      DataTwice(dev, f);
    } else if f.cmd == CMD_END_UPDATE {
      EndTwice(dev, f.num);
    } else {
      GetInfoChangesNothing(dev, f.num);
    }
  }

  lemma StartTwice(dev: Device, num: u16, data: seq<byte>)
    requires dev.fs.faults == [] && Counter(dev.fs.mem) + 2 <= MAX_COUNTER
    ensures var (d, r) := OnStartUpdate(dev, num, data); var (e, r') := OnStartUpdate(d, num, data);
            r' == r && SameUpToCounter(d, e)
  {
    hide Read, Stamped, Le32, Metadata.Write, StartRecord, Counter;
    CountLeavesRoom(dev.fs.mem);
    StartEffect(dev, num, data);
    if OnStartUpdate(dev, num, data).1.cmd == RSP_ACK {
      StartRepeated(dev, num, data);
    }
  }

  lemma EndTwice(dev: Device, num: u16)
    requires DeviceInv(dev)
    ensures var (d, r) := OnEndUpdate(dev, num); var (e, r') := OnEndUpdate(d, num);
            && (r' == r && SameUpToCounter(d, e) <==> dev.s.state != Receiving)
            && r' == Nack(num, ERR_STATE)
  {
    hide Read, Metadata.Write, Crc.Crc32, Record.WithSlot;
  }

  lemma DataTwice(dev: Device, f: Frame)
    requires DeviceInv(dev) && f.Fits() && dev.fs.faults == []
    ensures var (d, r) := OnData(dev, f.num, f.data); var (e, r') := OnData(d, f.num, f.data);
            var concludes := dev.s.state == Receiving && f.num != dev.s.lastNum
                             && (f.num != dev.s.expectedNum || Unstorable(dev, f));
            && (r' == r && SameUpToCounter(d, e) <==> !concludes)
            && (concludes ==> r' == Nack(f.num, ERR_STATE))
  {
    hide Read, StoreBlock, AllFit, LazilyErased;
    if DataExpected(dev.s, f) {
      BlockStoredIff(dev.fs, dev.s.target, dev.s.written, f.data);
    }
  }
}
