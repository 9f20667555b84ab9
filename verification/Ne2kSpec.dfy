/** What the driver does, seen from outside: queues of packets and messages and the last command,
    without RAM or nodes. */
module Ne2kSpec {
  import opened ByteOrder
  import opened Ring
  import opened Messages
  import opened Command
  import opened NeSend

  datatype Event =
    | Submit(buf: Msg)
    | Arrive(packet: seq<byte>, status: byte)
    | Finish
    | Interrupt(prx: bool, ptx: bool, memory: bool)

  /** Packets that wait in the ring, those stored and those handed to the kernel since the last reset;
      messages that wait, the one under way (or Nil), those that went out, and those overwritten under
      way; the last command. */
  datatype State = State(
    pending: seq<seq<byte>>, deposited: seq<seq<byte>>, returned: seq<seq<byte>>,
    queue: seq<Msg>, flight: Msg, sent: seq<Msg>, lost: seq<Msg>, command: int)
  {
    /** The test of `neSend`. */
    predicate ReadsBusy() { flight != Nil && command == READY }

    function Under(): seq<Msg> { if flight == Nil then [] else [flight] }

    /** The messages in the order in which they go out if nothing else happens. */
    function Line(): seq<Msg> { sent + Under() + queue }

    /** The messages that wait, that are under way, and that are through. */
    function InSystem(): multiset<Msg> { multiset(queue) + multiset(Under()) + multiset(sent) }

    /** NULL is never queued. */
    predicate Sound() { Nil !in queue }
  }

  /** A message that may be sent without spilling into the receive pages. */
  predicate Fits(m: Msg) { Transmittable(m) && Extent(m) <= TRANS_BYTES }

  /** Those are the chains of 1 to 0x600 bytes, an odd last piece being counted with its pad byte. */
  lemma FitsExact(m: Msg)
    requires Sendable(m)
    ensures Fits(m) <==> m.Piece? && Length(m) + LastLength(m) % 2 <= 0x600
  {
    if m.Piece? { ExtentExact(m, TRANS_BYTES); }
  }

  /** Pages of the ring that packets take. */
  function Pages(packets: seq<seq<byte>>): nat
  {
    if packets == [] then 0 else PagesFor(|packets[0]|) + Pages(packets[1..])
  }

  lemma {:induction false} LaidPages(ram: Ram, base: int, off: nat, pending: seq<seq<byte>>, used: nat)
    requires |ram| == RAM && InRing(base) && Laid(ram, base, off, pending, used)
    ensures used == off + Pages(pending)
    decreases |pending|
  {
    if pending != [] { LaidPages(ram, base, off + PagesFor(|pending[0]|), pending[1..], used); }
  }

  // ----- the events -----

  /** `m` goes to the adapter, over whatever was under way. */
  function Starting(s: State, m: Msg): State
  {
    s.(flight := m, lost := s.lost + s.Under(), command := READY)
  }

  function Submitting(s: State, buf: Msg): State
  {
    if !Fits(buf) then s
    else if s.ReadsBusy() then s.(queue := s.queue + [buf])
    else Starting(s, buf)
  }

  /** A packet is lost if its pages would reach the one that is read next. */
  predicate Stores(s: State, e: Event)
  {
    e.Arrive? && |e.packet| >= 1 && Pages(s.pending) + PagesFor(|e.packet|) < RING_PAGES
  }

  function Arriving(s: State, p: seq<byte>): State
  {
    s.(pending := s.pending + [p], deposited := s.deposited + [p])
  }

  function Finishing(s: State): State
  {
    s.(flight := Nil, sent := s.sent + s.Under())
  }

  /** The oldest packet is looked at, and a remote read stays in the command register. */
  predicate Reads(s: State, e: Event)
  {
    e.Interrupt? && e.prx && s.pending != [] && |s.pending[0]| <= 0x600
  }

  /** The oldest packet is too long for the driver, which empties the ring. */
  predicate Resets(s: State, e: Event)
  {
    e.Interrupt? && e.prx && s.pending != [] && |s.pending[0]| > 0x600
  }

  function Receiving(s: State, memory: bool): State
  {
    if s.pending == [] then s.(command := READY)
    else if |s.pending[0]| > 0x600 then s.(pending := [], deposited := [], returned := [], command := READY)
    else if !memory then s.(command := READING)
    else s.(pending := s.pending[1..], returned := s.returned + [s.pending[0]], command := READING)
  }

  /** The front of the queue is sent, or goes to its end. */
  function Advancing(s: State): State
  {
    if s.queue == [] then s
    else if s.ReadsBusy() then s.(queue := s.queue[1..] + [s.queue[0]])
    else Starting(s.(queue := s.queue[1..]), s.queue[0])
  }

  /** Completion of a transmission is not looked at when a reception is reported as well. */
  function After(s: State, e: Event): State
  {
    match e
    case Submit(buf) => Submitting(s, buf)
    case Arrive(packet, _) => if Stores(s, e) then Arriving(s, packet) else s
    case Finish => Finishing(s)
    case Interrupt(prx, ptx, memory) =>
      if prx then Receiving(s, memory) else if ptx then Advancing(s) else s
  }

  /** A status with both bits set serves the reception only: no message is started or turned. */
  lemma ReceptionFirst(s: State, ptx: bool, memory: bool)
    ensures var s' := After(s, Interrupt(true, ptx, memory));
            s' == Receiving(s, memory) && s'.queue == s.queue && s'.flight == s.flight && s'.lost == s.lost
  {
  }

  function AfterAll(s: State, events: seq<Event>): State
    decreases |events|
  {
    if events == [] then s else AfterAll(After(s, events[0]), events[1..])
  }

  /** The messages that an event, or a run, hands to `neSend`. */
  function One(e: Event): seq<Msg> { if e.Submit? && Fits(e.buf) then [e.buf] else [] }

  function Submitted(events: seq<Event>): seq<Msg>
    decreases |events|
  {
    if events == [] then [] else One(events[0]) + Submitted(events[1..])
  }

  // ----- conservation of messages -----

  /** A message is started while another is under way: the command register did not show it. */
  predicate Overwrites(s: State, e: Event)
  {
    && s.flight != Nil && s.command != READY
    && (One(e) != [] || (e.Interrupt? && !e.prx && e.ptx && s.queue != []))
  }

  /** The messages that an event, or a run, overwrites under way. */
  function Overwriting(s: State, e: Event): seq<Msg> { if Overwrites(s, e) then [s.flight] else [] }

  function Overwritten(s: State, events: seq<Event>): seq<Msg>
    decreases |events|
  {
    if events == [] then []
    else Overwriting(s, events[0]) + Overwritten(After(s, events[0]), events[1..])
  }

  lemma FrontAndRest(q: seq<Msg>)
    requires q != []
    ensures multiset(q) == multiset{q[0]} + multiset(q[1..]) == multiset(q[1..] + [q[0]])
    ensures forall m :: m in q[1..] + [q[0]] ==> m in q
  {
    assert q == [q[0]] + q[1..];
  }

  /** `s'` follows `s` with the message `over` overwritten and the messages `added` submitted. */
  predicate Accounted(s: State, s': State, over: seq<Msg>, added: seq<Msg>)
  {
    && s'.Sound() && s'.lost == s.lost + over
    && s'.InSystem() + multiset(over) == s.InSystem() + multiset(added)
  }

  lemma StartAccounts(s: State, m: Msg)
    requires s.Sound() && m != Nil
    ensures Accounted(s, Starting(s, m), s.Under(), [m])
  {
  }

  lemma SubmitAccounts(s: State, buf: Msg)
    requires s.Sound() && Fits(buf)
    ensures Accounted(s, Submitting(s, buf), if s.ReadsBusy() then [] else s.Under(), [buf])
  {
    if s.ReadsBusy() {
      assert multiset(s.queue + [buf]) == multiset(s.queue) + multiset{buf};
    } else {
      StartAccounts(s, buf);
    }
  }

  lemma AdvanceAccounts(s: State)
    requires s.Sound()
    ensures Accounted(s, Advancing(s), if s.queue == [] || s.ReadsBusy() then [] else s.Under(), [])
  {
    if s.queue != [] {
      FrontAndRest(s.queue);
      if !s.ReadsBusy() {
        var s1 := s.(queue := s.queue[1..]);
        StartAccounts(s1, s.queue[0]);
        assert s1.InSystem() + multiset{s.queue[0]} == s.InSystem();
      }
    }
  }

  lemma FinishAccounts(s: State)
    requires s.Sound()
    ensures Accounted(s, Finishing(s), [], [])
  {
    assert multiset(s.sent + s.Under()) == multiset(s.sent) + multiset(s.Under());
  }

  lemma SameAccounts(s: State, s': State)
    requires s.Sound() && s'.queue == s.queue && s'.flight == s.flight && s'.sent == s.sent && s'.lost == s.lost
    ensures Accounted(s, s', [], [])
  {
  }

  /** Every message is waiting, under way, through or overwritten. */
  lemma StepAccounts(s: State, e: Event)
    requires s.Sound()
    ensures Accounted(s, After(s, e), Overwriting(s, e), One(e))
  {
    var s' := After(s, e);
    if One(e) != [] {
      SubmitAccounts(s, e.buf);
      assert Overwriting(s, e) == if s.ReadsBusy() then [] else s.Under();
    } else if e.Finish? {
      FinishAccounts(s);
    } else if e.Interrupt? && !e.prx && e.ptx {
      AdvanceAccounts(s);
      assert Overwriting(s, e) == if s.queue == [] || s.ReadsBusy() then [] else s.Under();
    } else {
      SameAccounts(s, s');
    }
  }

  lemma AccountedTrans(s: State, s1: State, s2: State, o1: seq<Msg>, o2: seq<Msg>, n1: seq<Msg>, n2: seq<Msg>)
    requires Accounted(s, s1, o1, n1) && Accounted(s1, s2, o2, n2)
    ensures Accounted(s, s2, o1 + o2, n1 + n2)
  {
    var a, b, c := s.InSystem(), s1.InSystem(), s2.InSystem();
    assert multiset(o1 + o2) == multiset(o1) + multiset(o2) && multiset(n1 + n2) == multiset(n1) + multiset(n2);
    Regroup(a, b, c, multiset(o1), multiset(o2), multiset(n1), multiset(n2));
  }

  lemma Regroup(a: multiset<Msg>, b: multiset<Msg>, c: multiset<Msg>,
                o1: multiset<Msg>, o2: multiset<Msg>, n1: multiset<Msg>, n2: multiset<Msg>)
    requires b + o1 == a + n1 && c + o2 == b + n2
    ensures c + (o1 + o2) == a + (n1 + n2)
  {
    assert c + (o1 + o2) == (c + o2) + o1 && (b + n2) + o1 == (b + o1) + n2 && (a + n1) + n2 == a + (n1 + n2);
  }

  lemma {:induction false} RunAccounts(s: State, events: seq<Event>)
    requires s.Sound()
    ensures Accounted(s, AfterAll(s, events), Overwritten(s, events), Submitted(events))
    decreases |events|
  {
    if events == [] {
      SameAccounts(s, s);
    } else {
      var e, rest := events[0], events[1..];
      var s1 := After(s, e);
      StepAccounts(s, e);
      RunAccounts(s1, rest);
      AccountedTrans(s, s1, AfterAll(s1, rest), Overwriting(s, e), Overwritten(s1, rest), One(e), Submitted(rest));
    }
  }

  /** A run conserves messages exactly when it overwrites none. */
  lemma RunConserves(s: State, events: seq<Event>)
    requires s.Sound()
    ensures AfterAll(s, events).InSystem() == s.InSystem() + multiset(Submitted(events))
            <==> Overwritten(s, events) == []
  {
    RunAccounts(s, events);
    NoneOver(AfterAll(s, events).InSystem(), s.InSystem() + multiset(Submitted(events)), Overwritten(s, events));
  }

  lemma NoneOver(x: multiset<Msg>, y: multiset<Msg>, over: seq<Msg>)
    requires x + multiset(over) == y
    ensures x == y <==> over == []
  {
    assert |y| == |x| + |over|;
    if over == [] { assert x + multiset{} == x; }
  }

  /** No packet is read while a message is under way. */
  predicate ReadsApart(s: State, events: seq<Event>)
    decreases |events|
  {
    events != [] ==> !(s.flight != Nil && Reads(s, events[0])) && ReadsApart(After(s, events[0]), events[1..])
  }

  /** Then nothing is overwritten. */
  lemma {:induction false} ReadsApartConserve(s: State, events: seq<Event>)
    requires s.Sound() && (s.flight == Nil || s.command == READY) && ReadsApart(s, events)
    ensures Overwritten(s, events) == []
    decreases |events|
  {
    if events != [] {
      StepAccounts(s, events[0]);
      ReadsApartConserve(After(s, events[0]), events[1..]);
    }
  }

  /** But one packet read under way, and the next submission overwrites the message, in every state. */
  lemma ReadThenSubmit(s: State, ptx: bool, memory: bool, buf: Msg)
    requires s.flight != Nil && Reads(s, Interrupt(true, ptx, memory)) && Fits(buf)
    ensures var s' := AfterAll(s, [Interrupt(true, ptx, memory), Submit(buf)]);
            s'.flight == buf && s'.lost == s.lost + [s.flight] && s'.queue == s.queue && s'.sent == s.sent
  {
    var e := [Interrupt(true, ptx, memory), Submit(buf)];
    var s1 := After(s, e[0]);
    assert e[1..] == [Submit(buf)] && e[1..][1..] == [];
    assert AfterAll(s, e) == AfterAll(s1, [Submit(buf)]) == AfterAll(After(s1, Submit(buf)), []);
  }

  // ----- order of transmission -----

  /** All messages in `q` are `m`. */
  predicate AllAre(q: seq<Msg>, m: Msg) { forall x :: x in q ==> x == m }

  lemma {:induction false} SameBothWays(q: seq<Msg>, m: Msg)
    ensures [m] + q == q + [m] <==> AllAre(q, m)
  {
    if AllAre(q, m) {
      assert forall i :: 0 <= i < |q| ==> q[i] in q;
      assert [m] + q == q + [m];
    }
    if [m] + q == q + [m] {
      forall i | 0 <= i < |q|
        ensures q[i] == m
      {
        SameUpTo(q, m, i);
      }
    }
  }

  lemma {:induction false} SameUpTo(q: seq<Msg>, m: Msg, i: nat)
    requires [m] + q == q + [m] && i < |q|
    ensures q[i] == m
  {
    assert (q + [m])[i] == q[i] && ([m] + q)[i] == if i == 0 then m else q[i - 1];
    if i > 0 { SameUpTo(q, m, i - 1); }
  }

  lemma SamePrefix<T>(p: seq<T>, x: seq<T>, y: seq<T>)
    ensures p + x == p + y <==> x == y
  {
    assert x == (p + x)[|p|..] && y == (p + y)[|p|..];
  }

  lemma Assoc<T>(x: seq<T>, y: seq<T>, z: seq<T>)
    ensures x + y + z == x + (y + z)
  {
  }

  /** A message comes behind all others exactly when it waits, or when the adapter is idle and none
      but equal ones wait. */
  lemma SubmitInLine(s: State, buf: Msg)
    requires Fits(buf)
    ensures Submitting(s, buf).Line() == s.Line() + [buf]
            <==> s.ReadsBusy() || (s.flight == Nil && AllAre(s.queue, buf))
  {
    var s' := Submitting(s, buf);
    if s.ReadsBusy() {
      assert s'.Line() == s.Line() + [buf];
    } else if s.flight == Nil {
      assert s'.Line() == s.sent + ([buf] + s.queue) && s.Line() + [buf] == s.sent + (s.queue + [buf]);
      SamePrefix(s.sent, [buf] + s.queue, s.queue + [buf]);
      SameBothWays(s.queue, buf);
    } else {
      assert |s'.Line()| == |s.Line()|;
    }
  }

  /** The handler keeps the order exactly when nothing waits, when the adapter is idle, or when it
      reads busy and all that wait are equal. */
  lemma AdvanceInLine(s: State)
    requires s.Sound()
    ensures Advancing(s).Line() == s.Line()
            <==> s.queue == [] || s.flight == Nil || (s.ReadsBusy() && AllAre(s.queue, s.queue[0]))
  {
    if s.queue != [] {
      var s', first, rest := Advancing(s), s.queue[0], s.queue[1..];
      assert s.queue == [first] + rest;
      if s.ReadsBusy() {
        var front := s.sent + s.Under();
        SamePrefix(front, rest + [first], [first] + rest);
        SameBothWays(rest, first);
        assert forall x :: x in s.queue <==> x == first || x in rest;
      } else if s.flight == Nil {
        assert s'.Line() == s.Line();
      } else {
        assert |s'.Line()| == |s.Line()| - 1;
      }
    }
  }

  /** What a caller and the handler have to look at before they act. */
  predicate InTurn(s: State, e: Event)
  {
    && (One(e) != [] ==> s.ReadsBusy() || (s.flight == Nil && AllAre(s.queue, e.buf)))
    && (e.Interrupt? && !e.prx && e.ptx ==>
          s.queue == [] || s.flight == Nil || (s.ReadsBusy() && AllAre(s.queue, s.queue[0])))
  }

  /** A step keeps the order of submission exactly when its guard holds. */
  lemma StepInLine(s: State, e: Event)
    requires s.Sound()
    ensures After(s, e).Line() == s.Line() + One(e) <==> InTurn(s, e)
  {
    if One(e) != [] {
      SubmitInLine(s, e.buf);
    } else {
      AdvanceInLine(s);
      assert Finishing(s).Line() == s.Line() && s.Line() + [] == s.Line();
    }
  }

  predicate AllInTurn(s: State, events: seq<Event>)
    decreases |events|
  {
    events != [] ==> InTurn(s, events[0]) && AllInTurn(After(s, events[0]), events[1..])
  }

  /** The run is in order after each of its events. */
  ghost predicate InLineThroughout(s: State, events: seq<Event>)
  {
    forall i {:trigger InLineAfter(s, events, i)} :: 0 <= i <= |events| ==> InLineAfter(s, events, i)
  }

  predicate InLineAfter(s: State, events: seq<Event>, i: int)
    requires 0 <= i <= |events|
  {
    AfterAll(s, events[..i]).Line() == s.Line() + Submitted(events[..i])
  }

  lemma AfterMore(s: State, events: seq<Event>, i: nat)
    requires 1 <= i <= |events|
    ensures AfterAll(s, events[..i]) == AfterAll(After(s, events[0]), events[1..][..i - 1])
    ensures Submitted(events[..i]) == One(events[0]) + Submitted(events[1..][..i - 1])
  {
    assert events[..i][1..] == events[1..][..i - 1];
  }

  lemma InLineShift(s: State, events: seq<Event>, i: nat)
    requires 1 <= i <= |events| && After(s, events[0]).Line() == s.Line() + One(events[0])
    ensures InLineAfter(s, events, i) <==> InLineAfter(After(s, events[0]), events[1..], i - 1)
  {
    AfterMore(s, events, i);
    Assoc(s.Line(), One(events[0]), Submitted(events[1..][..i - 1]));
  }

  /** The guards of all steps hold exactly when the order of submission is kept throughout. */
  lemma {:induction false} RunInLineExact(s: State, events: seq<Event>)
    requires s.Sound()
    ensures InLineThroughout(s, events) <==> AllInTurn(s, events)
    decreases |events|
  {
    assert s.Line() + [] == s.Line() && events[..0] == [];
    if events != [] {
      var e, rest := events[0], events[1..];
      var s1 := After(s, e);
      StepAccounts(s, e);
      StepInLine(s, e);
      RunInLineExact(s1, rest);
      AfterMore(s, events, 1);
      if InTurn(s, e) {
        forall i | 1 <= i <= |events|
          ensures InLineAfter(s, events, i) <==> InLineAfter(s1, rest, i - 1)
        {
          InLineShift(s, events, i);
        }
        assert forall i :: 0 <= i <= |rest| ==> (InLineAfter(s1, rest, i) <==> InLineAfter(s, events, i + 1));
      } else {
        assert rest[..0] == [] && One(e) + [] == One(e);
        assert !InLineAfter(s, events, 1);
      }
    }
  }

  /** A run whose every step meets its guard sends in the order of submission. */
  lemma RunInLine(s: State, events: seq<Event>)
    requires s.Sound() && AllInTurn(s, events)
    ensures AfterAll(s, events).Line() == s.Line() + Submitted(events)
  {
    RunInLineExact(s, events);
    assert InLineAfter(s, events, |events|) && events[..|events|] == events;
  }

  lemma SentInLine(s: State, events: seq<Event>)
    requires s.Sound() && AllInTurn(s, events)
    ensures AfterAll(s, events).sent <= s.Line() + Submitted(events)
  {
    RunInLine(s, events);
  }

  lemma AfterFirst(s: State, e: Event, rest: seq<Event>)
    ensures AfterAll(s, [e] + rest) == AfterAll(After(s, e), rest)
  {
    assert ([e] + rest)[1..] == rest;
  }

  /** A message that comes when the adapter has finished and the handler has not run yet goes out before
      those that wait. */
  lemma OvertakingExample(s: State, a: Msg, b: Msg)
    requires Fits(a) && Fits(b) && s.ReadsBusy() && s.queue == []
    ensures AfterAll(s,
              [Submit(a)] + ([Finish] + ([Submit(b)] + ([Finish] + ([Interrupt(false, true, true)] + [Finish])))))
            == s.(flight := Nil, sent := s.sent + [s.flight] + [b] + [a])
  {
    var after := s.(flight := Nil, sent := s.sent + [s.flight]);
    var s1, s2, s3 := s.(queue := [a]), after.(queue := [a]), after.(queue := [a], flight := b);
    var s4, s5 := s2.(sent := after.sent + [b]), s3.(queue := [], flight := a, sent := after.sent + [b]);
    assert After(s, Submit(a)) == s1 && After(s1, Finish) == s2 && After(s2, Submit(b)) == s3;
    assert After(s3, Finish) == s4 && After(s4, Interrupt(false, true, true)) == s5;
    AfterFirst(s, Submit(a), [Finish] + ([Submit(b)] + ([Finish] + ([Interrupt(false, true, true)] + [Finish]))));
    AfterFirst(s1, Finish, [Submit(b)] + ([Finish] + ([Interrupt(false, true, true)] + [Finish])));
    AfterFirst(s2, Submit(b), [Finish] + ([Interrupt(false, true, true)] + [Finish]));
    AfterFirst(s3, Finish, [Interrupt(false, true, true)] + [Finish]);
    AfterFirst(s4, Interrupt(false, true, true), [Finish]);
    assert [Finish] == [Finish] + [];
    AfterFirst(s5, Finish, []);
  }

  /** The guards cannot be read off the outcome of a run: two rotations of two messages cancel. */
  lemma RotationsCancel(s: State)
    requires s.ReadsBusy() && |s.queue| == 2 && s.queue[0] != s.queue[1]
    ensures Advancing(Advancing(s)) == s && !InTurn(s, Interrupt(false, true, true))
  {
    assert Advancing(s).queue == [s.queue[1], s.queue[0]];
    assert Advancing(Advancing(s)).queue == s.queue;
    assert s.queue[1] in s.queue;
  }

  // ----- packets -----

  /** What was handed on since the last reset is the beginning of what was stored, in order. */
  predicate InOrder(s: State) { s.deposited == s.returned + s.pending }

  /** The packets that an event, or a run, hands to the kernel. */
  function HandedBy(s: State, e: Event): seq<seq<byte>>
  {
    if Reads(s, e) && e.memory then [s.pending[0]] else []
  }

  function Handed(s: State, events: seq<Event>): seq<seq<byte>>
    decreases |events|
  {
    if events == [] then [] else HandedBy(s, events[0]) + Handed(After(s, events[0]), events[1..])
  }

  /** The packets that an event, or a run, stores in the ring. */
  function StoredBy(s: State, e: Event): seq<seq<byte>> { if Stores(s, e) then [e.packet] else [] }

  function Stored(s: State, events: seq<Event>): seq<seq<byte>>
    decreases |events|
  {
    if events == [] then []
    else StoredBy(s, events[0]) + Stored(After(s, events[0]), events[1..])
  }

  predicate NoReset(s: State, events: seq<Event>)
    decreases |events|
  {
    events != [] ==> !Resets(s, events[0]) && NoReset(After(s, events[0]), events[1..])
  }

  predicate IsTail<T(==)>(t: seq<T>, s: seq<T>) { |t| <= |s| && t == s[|s| - |t|..] }

  lemma StepDelivers(s: State, e: Event)
    requires !Resets(s, e)
    ensures s.pending + StoredBy(s, e) == HandedBy(s, e) + After(s, e).pending
    ensures After(s, e).returned == s.returned + HandedBy(s, e) && After(s, e).deposited == s.deposited + StoredBy(s, e)
  {
    var s' := After(s, e);
    if HandedBy(s, e) != [] {
      assert s.pending == [s.pending[0]] + s.pending[1..];
    } else {
      assert s'.pending == s.pending + StoredBy(s, e) && s'.returned == s.returned
             && s'.deposited == s.deposited + StoredBy(s, e);
    }
  }

  lemma StepKeepsOrder(s: State, e: Event)
    requires InOrder(s)
    ensures InOrder(After(s, e))
  {
    if !Resets(s, e) {
      StepDelivers(s, e);
      Assoc(s.returned, s.pending, StoredBy(s, e));
      Assoc(s.returned, HandedBy(s, e), After(s, e).pending);
    }
  }

  /** The log of what was handed on since the last reset is the end of all that was handed on, and
      the beginning of what was stored since. */
  lemma {:induction false} RunKeepsOrder(s: State, events: seq<Event>)
    requires InOrder(s)
    ensures var s' := AfterAll(s, events);
            InOrder(s') && s'.returned <= s'.deposited && IsTail(s'.returned, s.returned + Handed(s, events))
    decreases |events|
  {
    if events == [] {
      assert s.returned + [] == s.returned;
    } else {
      var e, rest := events[0], events[1..];
      var s1 := After(s, e);
      StepKeepsOrder(s, e);
      RunKeepsOrder(s1, rest);
      Assoc(s.returned, HandedBy(s, e), Handed(s1, rest));
      if !Resets(s, e) {
        StepDelivers(s, e);
      } else {
        TailOfMore(AfterAll(s1, rest).returned, s.returned + HandedBy(s, e), Handed(s1, rest));
      }
    }
  }

  lemma TailOfMore<T>(t: seq<T>, x: seq<T>, y: seq<T>)
    requires IsTail(t, [] + y)
    ensures IsTail(t, x + y)
  {
    assert [] + y == y;
    assert (x + y)[|x + y| - |t|..] == y[|y| - |t|..];
  }

  /** Over a run, the packets handed on and those left are, in order, those that were there and those
      stored, exactly when the ring was never reset. */
  lemma {:induction false} RunDelivers(s: State, events: seq<Event>)
    ensures var before, after := s.pending + Stored(s, events), Handed(s, events) + AfterAll(s, events).pending;
            (before == after <==> NoReset(s, events))
                && (if NoReset(s, events) then |before| == |after| else |before| > |after|)
    decreases |events|
  {
    if events == [] {
      assert s.pending + [] == s.pending == [] + s.pending;
    } else {
      var e, rest := events[0], events[1..];
      var s1, got, handed := After(s, e), StoredBy(s, e), HandedBy(s, e);
      var stored, later := Stored(s1, rest), Handed(s1, rest) + AfterAll(s1, rest).pending;
      RunDelivers(s1, rest);
      Assoc(s.pending, got, stored);
      Assoc(handed, Handed(s1, rest), AfterAll(s1, rest).pending);
      if !Resets(s, e) {
        StepDelivers(s, e);
        Assoc(handed, s1.pending, stored);
        SamePrefix(handed, s1.pending + stored, later);
      }
    }
  }
}
