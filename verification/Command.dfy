/** The adapter's command register (doc/ne2kReg:16-35, include/net/ne2k/ne2k.h:78-101). */
module Command {

  const STOP: int := 0x01
  const START: int := 0x02
  const SEND: int := 0x04
  const READ_DMA: int := 0x08
  const WRITE_DMA: int := 0x10
  const DMA_ABORT: int := 0x20
  const PAGE01: int := 0x40

  /** The commands that the driver leaves behind: ready, remote read, remote write. */
  const READY: int := START + DMA_ABORT
  const READING: int := START + READ_DMA
  const WRITING: int := START + WRITE_DMA

  predicate Sends(cmd: int) { cmd / SEND % 2 == 1 }

  function WithoutSend(cmd: int): int { if Sends(cmd) then cmd - SEND else cmd }

  /** The transmit bit stays set until the adapter has sent the packet; writing 0 does not clear it.
      The other bits read as they were written last. */
  class CommandRegister {
    var written: int
    var txp: bool

    /** As `neInit` leaves it (net/ne2k/ne2k.c:140). */
    constructor ()
      ensures written == READY && !txp
    {
      written, txp := READY, false;
    }

    method Write(cmd: int)
      modifies this
      ensures written == WithoutSend(cmd) && txp == (old(txp) || Sends(cmd))
    {
      written := WithoutSend(cmd);
      txp := txp || Sends(cmd);
    }

    method Read() returns (v: int)
      ensures v == written + if txp then SEND else 0
    {
      v := if txp then written + SEND else written;
    }
  }
}
