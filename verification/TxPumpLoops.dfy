/**
  The transmit side of the firmware's main loop as it is written, over the session object and the
  static staging buffer, proved to perform the steps of `MainLoopRuns`.
*/
module TxPumpLoops {
  import opened Bytes
  import opened LinkCodec
  import opened LinkSession
  import opened TxMux
  import opened TxPump
  import opened MainLoopRuns
  import LinkSessionRuns
  import LinkSessionLoops

  class MainLoop {
    const link: LinkSessionLoops.Link
    const linkPending: array<byte>
    var pendingLen: nat
    var pendingPos: nat
    var serverTx: seq<byte>

    ghost predicate Valid()
      reads this, link, link.parser, link.parser.buf, linkPending
    {
      && link.Valid()
      && linkPending != link.parser.buf && linkPending != link.parser.scratch
      && pendingPos <= pendingLen <= linkPending.Length
      && (pendingPos == pendingLen ==> pendingLen == 0)
    }

    ghost function State(): Loop
      requires pendingLen <= linkPending.Length
      reads this, link, linkPending
    {
      Loop(link.State(), linkPending[..pendingLen], pendingPos)
    }

    constructor (link: LinkSessionLoops.Link, linkPending: array<byte>)
      requires link.Valid() && linkPending != link.parser.buf && linkPending != link.parser.scratch
      ensures Valid() && this.link == link && this.linkPending == linkPending
      ensures State() == Loop(link.State(), [], 0) && serverTx == []
    {
      this.link, this.linkPending := link, linkPending;
      pendingLen, pendingPos, serverTx := 0, 0, [];
    }

    /** Offer the unwritten staged bytes to the UART, which takes at most `accepted` of them. */
    method WriteOut(budget: nat, accepted: nat) returns (uart: seq<byte>)
      requires Valid()
      modifies this`pendingLen, this`pendingPos
      ensures Valid()
      ensures var e := WriteStaged(PumpOf(old(State())), budget, accepted);
              State() == SetPump(old(State()), e.pump) && uart == e.uart
    {
      var toWrite := pendingLen - pendingPos;
      if toWrite > budget {
        toWrite := budget;
      }
      var written := Min(toWrite, accepted);
      uart := linkPending[pendingPos..pendingPos + written];
      assert uart == linkPending[..pendingLen][pendingPos..pendingPos + written];
      pendingPos := pendingPos + written;
      if pendingPos >= pendingLen {
        pendingLen, pendingPos := 0, 0;
      }
    }

    /** Queue server data, read the next piece of the rings into the staging buffer, and write some of it. */
    method Refill(budget: nat, second: nat) returns (uart: seq<byte>)
      requires Valid() && pendingLen == 0
      modifies this, link, linkPending
      ensures Valid()
      ensures Progress(State(), uart)
           == QueueAndStage(old(State()), budget, linkPending.Length, second, old(serverTx))
      ensures serverTx == QueueServerTx(old(link.State()), old(serverTx)).serverTx
    {
      hide Read, QueueServerTx, WriteStaged;
      LinkSessionRuns.TakeIsPut(link.State(), serverTx);
      var ok;
      ok, serverTx := link.TakeServerTx(serverTx);
      var bytes := link.ReadTx(linkPending.Length);
      forall i | 0 <= i < |bytes| {
        linkPending[i] := bytes[i];
      }
      pendingLen := |bytes|;
      assert linkPending[..pendingLen] == bytes;
      uart := WriteOut(budget, second);
    }

    /** `pump_link_tx` */
    method PumpLinkTx(budget: nat, first: nat, second: nat) returns (uart: seq<byte>)
      requires Valid()
      modifies this, link, linkPending
      ensures Valid()
      ensures Progress(State(), uart)
           == LoopStep(old(State()), Transmit(budget, first, second, old(serverTx)), linkPending.Length)
      ensures serverTx == if Stages(PumpOf(old(State())), budget, first)
                          then QueueServerTx(old(link.State()), old(serverTx)).serverTx else old(serverTx)
    {
      hide WriteStaged, QueueAndStage, QueueServerTx;
      if pendingPos < pendingLen {
        uart := WriteOut(budget, first);
        var left := budget - |uart|;
        if pendingPos < pendingLen {
          return;
        }
        if left == 0 {
          return;
        }
        var more := Refill(left, second);
        uart := uart + more;
      } else {
        uart := Refill(budget, second);
      }
    }

    /** `link_pending_is_data_m2c` */
    method StagedIsData() returns (yes: bool)
      requires Valid()
      ensures yes == PendingIsData(PumpOf(State()))
    {
      hide Unwire;
      if pendingLen == 0 || pendingPos > 0 || pendingLen > linkPending.Length {
        return false;
      }
      var body := new byte[MAX_BODY_LEN];
      var frame := DecodeWithScratch(linkPending[..pendingLen], body);
      return frame.Some? && frame.value.kind == DATA_M2C;
    }

    /** `drop_stale_link_tx_data` */
    method DropStaleLinkTxData()
      requires Valid()
      modifies this`pendingLen, this`pendingPos, link
      ensures Valid()
      ensures Progress(State(), []) == LoopStep(old(State()), OutputReset, linkPending.Length)
    {
      hide PendingIsData, DropData;
      link.DropQueuedData();
      if pendingPos == 0 && link.active != Sending(Data) {
        var stale := StagedIsData();
        if stale {
          pendingLen, pendingPos := 0, 0;
        }
      }
    }
  }
}
