/** The whole driver: clients, the adapter and the interrupt handler in any order. */
module Ne2k {
  import opened ByteOrder
  import opened Ring
  import opened Messages
  import opened SendQueue
  import opened Command
  import opened NeRecv
  import opened NeSend
  import opened Ne2kSpec

  /** The messages are single pieces with the bytes of the packets, one for one and in order. */
  ghost predicate Carry(msgs: seq<Msg>, packets: seq<seq<byte>>)
  {
    && |msgs| == |packets|
    && forall i :: 0 <= i < |msgs| ==> Carries(msgs[i], packets[i])
  }

  predicate Carries(m: Msg, p: seq<byte>)
  {
    m.Piece? && m.len == |p| <= |m.msg| && m.msg[..m.len] == p && m.next == Nil
  }

  function Returned(m: Msg): seq<Msg> { if m == Nil then [] else [m] }

  class Driver {
    const rx: Receiver
    const tx: Transmitter

    constructor (rx: Receiver, tx: Transmitter)
      requires rx.ram == tx.ram && rx.cr == tx.cr && rx.Valid() && tx.Valid() && !tx.cr.txp && tx.nodes == []
      ensures this.rx == rx && this.tx == tx && Valid()
      ensures View() == State(rx.pending, rx.deposited, rx.returned, [], Nil, tx.sent, tx.lost, tx.cr.written)
    {
      this.rx, this.tx := rx, tx;
    }

    /** Receive ring and transmit side are sound, and no message still to be sent can reach the
        receive pages. */
    ghost predicate Valid()
      reads this, rx, tx, rx.ram, tx.ram, tx.cr, tx.repr, tx.nodes
    {
      && rx.ram == tx.ram && rx.cr == tx.cr && rx.Valid() && tx.Valid()
      && tx.AllWithin(TRANS_BYTES) && (tx.cr.txp ==> Extent(tx.inFlight) <= TRANS_BYTES)
    }

    ghost function View(): State
      reads this, rx, tx, tx.cr, tx.nodes
    {
      State(rx.pending, rx.deposited, rx.returned,
            Queued(tx.nodes), if tx.cr.txp then tx.inFlight else Nil, tx.sent, tx.lost, tx.cr.written)
    }

    /** A client calls `neSend`. */
    method DoSubmit(buf: Msg)
      requires Valid() && Fits(buf)
      modifies tx, tx.ram, tx.cr, tx.repr
      ensures Valid() && View() == Submitting(old(View()), buf)
      ensures fresh(tx.repr - old(tx.repr))
    {
      tx.Send(buf);
      rx.RingKept();
    }

    /** A packet comes in from the wire; the adapter drops it if the ring has no room. */
    method DoArrive(packet: seq<byte>, status: byte)
      requires Valid() && |packet| >= 1
      modifies rx, rx.ram
      ensures Valid() && View() == After(old(View()), Arrive(packet, status))
    {
      ghost var ram0 := rx.ram[..];
      LaidPages(ram0, Reader(rx.bnry), 0, rx.pending, rx.used);
      if tx.cr.txp { ConcatLength(tx.inFlight); }
      var ok := rx.Deposit(packet, status);
      assert tx.cr.txp ==> Holds(tx.ram[..], tx.inFlight) by {
        if tx.cr.txp {
          var lo, hi := 256 * TRANS_PAGE, 256 * TRANS_PAGE + Length(tx.inFlight);
          assert tx.ram[..][lo..hi] == ram0[lo..hi];
        }
      }
    }

    /** The adapter has sent the packet. */
    method DoFinish()
      requires Valid() && tx.cr.txp
      modifies tx, tx.cr
      ensures Valid() && View() == Finishing(old(View())) && tx.repr == old(tx.repr)
    {
      tx.Complete();
    }

    /** net/ne2k/ne2k.c:251-252. What becomes of a received message in the protocol stack is not part
        of this model. */
    method DoReceive(ptx: bool, memory: bool) returns (msg: Msg)
      requires Valid()
      modifies rx, tx.cr
      ensures Valid() && View() == Receiving(old(View()), memory)
      ensures Carry(Returned(msg), HandedBy(old(View()), Interrupt(true, ptx, memory)))
    {
      msg := rx.Recv(memory);
      assert Queued(tx.nodes) == old(Queued(tx.nodes));
    }

    /** net/ne2k/ne2k.c:259-262. */
    method DoAdvance()
      requires Valid()
      modifies tx, tx.ram, tx.cr, tx.repr
      ensures Valid() && View() == Advancing(old(View()))
      ensures fresh(tx.repr - old(tx.repr))
    {
      tx.Next();
      rx.RingKept();
    }

    /** net/ne2k/ne2k.c:250-263. */
    method DoInterrupt(prx: bool, ptx: bool, memory: bool) returns (msg: Msg)
      requires Valid()
      modifies rx, tx, tx.ram, tx.cr, tx.repr
      ensures Valid() && View() == After(old(View()), Interrupt(prx, ptx, memory))
      ensures Carry(Returned(msg), HandedBy(old(View()), Interrupt(prx, ptx, memory)))
      ensures fresh(tx.repr - old(tx.repr))
    {
      msg := Nil;
      if prx {
        msg := DoReceive(ptx, memory);
      } else if ptx {
        DoAdvance();
      }
    }

    method Step(e: Event) returns (msg: Msg)
      requires Valid()
      modifies rx, tx, tx.ram, tx.cr, tx.repr
      ensures Valid() && View() == After(old(View()), e)
      ensures Carry(Returned(msg), HandedBy(old(View()), e))
      ensures fresh(tx.repr - old(tx.repr))
    {
      msg := Nil;
      match e {
        case Submit(buf) => if Fits(buf) { DoSubmit(buf); }
        case Arrive(packet, status) => if |packet| >= 1 { DoArrive(packet, status); }
        case Finish => if tx.cr.txp { DoFinish(); }
        case Interrupt(prx, ptx, memory) => msg := DoInterrupt(prx, ptx, memory);
      }
    }

    /** What the views of all valid drivers have in common. */
    lemma ViewSound()
      requires Valid()
      ensures View().Sound() && InOrder(View())
    {
      assert forall i :: 0 <= i < |tx.nodes| ==> Transmittable(tx.nodes[i].msg);
    }

    /** Any run of events does what the view of it says. */
    method RunEvents(events: seq<Event>) returns (msgs: seq<Msg>)
      requires Valid()
      modifies rx, tx, tx.ram, tx.cr, tx.repr
      ensures Valid() && View() == AfterAll(old(View()), events)
      ensures Carry(msgs, Handed(old(View()), events))
      decreases |events|
    {
      msgs := [];
      if events != [] {
        var msg := Step(events[0]);
        var rest := RunEvents(events[1..]);
        msgs := Returned(msg) + rest;
      }
    }

    /** So what `neRecv` returned are, byte for byte and in order, the packets handed on, and what went
        over the wire are the messages sent. Messages are conserved exactly when none was overwritten
        under way, and packets exactly when the ring was never reset. */
    method Run(events: seq<Event>) returns (msgs: seq<Msg>)
      requires Valid()
      modifies rx, tx, tx.ram, tx.cr, tx.repr
      ensures Valid() && Carry(msgs, Handed(old(View()), events)) && tx.wire == Wires(View().sent)
      ensures View().InSystem() == old(View()).InSystem() + multiset(Submitted(events))
              <==> Overwritten(old(View()), events) == []
      ensures old(View()).pending + Stored(old(View()), events) == Handed(old(View()), events) + View().pending
              <==> NoReset(old(View()), events)
      ensures View().returned <= View().deposited
      ensures IsTail(View().returned, old(View()).returned + Handed(old(View()), events))
    {
      ghost var v := View();
      ViewSound();
      RunConserves(v, events);
      RunDelivers(v, events);
      RunKeepsOrder(v, events);
      msgs := RunEvents(events);
    }
  }

  /** net/ne2k/ne2k.c:115-143: a driver with nothing in it. */
  method NeInit(ram: array<int>) returns (driver: Driver)
    requires ram.Length == RAM
    ensures driver.Valid() && driver.rx.ram == ram
    ensures driver.View() == State([], [], [], [], Nil, [], [], 0x22)
  {
    var cr := new CommandRegister();
    var rx := new Receiver(ram, cr);
    var tx := new Transmitter(ram, cr);
    driver := new Driver(rx, tx);
  }
}
