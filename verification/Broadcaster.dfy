/**
 The event broadcaster (server/internal/httpapi/sse.go): buffered channels, non-blocking sends and
 a shared set of subscribers. Every operation holds the mutex throughout and a receive is
 atomic, so an interleaving is a sequence of operations.
 */
module Broadcaster {
  import opened Common

  const BUF_SIZE := 16

  // ---- One channel ----

  /** What is buffered, whether the channel is closed, and what its receiver has taken so far. */
  datatype Chan = Chan(buf: seq<string>, closed: bool, got: seq<string>)

  function Offered(c: Chan, e: string): Chan {
    if |c.buf| < BUF_SIZE then c.(buf := c.buf + [e]) else c
  }

  function Taken(c: Chan): Chan {
    if c.buf == [] then c else c.(buf := c.buf[1..], got := c.got + [c.buf[0]])
  }

  /** A Go channel: sending on a closed one, or closing it again, would panic. */
  class Channel {
    var buf: seq<string>
    var closed: bool
    ghost var got: seq<string>

    ghost function View(): Chan
      reads this
    {
      Chan(buf, closed, got)
    }

    constructor ()
      ensures View() == Chan([], false, [])
    {
      buf, closed, got := [], false, [];
    }

    method TrySend(e: string)
      requires !closed
      modifies this
      ensures View() == Offered(old(View()), e)
    {
      if |buf| < BUF_SIZE { buf := buf + [e]; }
    }

    method Close()
      requires !closed
      modifies this`closed
      ensures closed
    {
      closed := true;
    }

    /** None when nothing is buffered: the receiver waits, or learns that the channel is closed. */
    method Receive() returns (e: Option<string>)
      modifies this
      ensures e == if old(buf) == [] then None else Some(old(buf)[0])
      ensures View() == Taken(old(View()))
    {
      if buf == [] { return None; }
      e := Some(buf[0]);
      buf, got := buf[1..], got + [buf[0]];
    }
  }

  // ---- All interleavings ----

  /** Channels are numbered in the order they are made. */
  datatype Event = Subscribe | Unsubscribe(id: nat) | Send(event: string) | Shutdown | Receive(id: nat)

  datatype System = System(chans: seq<Chan>, subs: set<nat>, panicked: bool)

  function CloseAll(chans: seq<Chan>, ids: set<nat>): seq<Chan> {
    seq(|chans|, i requires 0 <= i < |chans| => if i in ids then chans[i].(closed := true) else chans[i])
  }

  function SendAll(chans: seq<Chan>, ids: set<nat>, e: string): seq<Chan> {
    seq(|chans|, i requires 0 <= i < |chans| => if i in ids then Offered(chans[i], e) else chans[i])
  }

  predicate AnyClosed(chans: seq<Chan>, ids: set<nat>) {
    exists i | i in ids :: i < |chans| && chans[i].closed
  }

  function Step(s: System, e: Event): System {
    match e
    case Subscribe => s.(chans := s.chans + [Chan([], false, [])], subs := s.subs + {|s.chans|})
    case Unsubscribe(id) =>
      if id in s.subs then System(CloseAll(s.chans, {id}), s.subs - {id}, s.panicked || AnyClosed(s.chans, {id})) else s
    case Send(event) => s.(chans := SendAll(s.chans, s.subs, event), panicked := s.panicked || AnyClosed(s.chans, s.subs))
    case Shutdown => System(CloseAll(s.chans, s.subs), {}, s.panicked || AnyClosed(s.chans, s.subs))
    case Receive(id) => if id < |s.chans| then s.(chans := s.chans[id := Taken(s.chans[id])]) else s
  }

  function Run(events: seq<Event>): System {
    if events == [] then System([], {}, false) else Step(Run(events[..|events| - 1]), events[|events| - 1])
  }

  // ---- The broadcaster ----

  class SSEBroadcaster {
    var subs: set<Channel>
    ghost var made: seq<Channel>  // every channel ever subscribed, in order

    /** A channel is open exactly while it is subscribed: this is what rules the panics out. */
    ghost predicate Valid()
      reads this, made
    {
      && (forall i, j | 0 <= i < j < |made| :: made[i] != made[j])
      && (forall ch | ch in subs :: ch in made)
      && (forall ch | ch in made :: ch.closed <==> ch !in subs)
    }

    ghost function View(): System
      reads this, made
    {
      System(seq(|made|, i requires 0 <= i < |made| reads this, made => made[i].View()), SubIds(), false)
    }

    ghost function SubIds(): set<nat>
      reads this
    {
      set i: nat | i < |made| && made[i] in subs
    }

    constructor ()
      ensures Valid() && View() == Run([])
    {
      subs, made := {}, [];
    }

    method Subscribe() returns (ch: Channel)
      requires Valid()
      modifies this
      ensures Valid() && fresh(ch) && made == old(made) + [ch] && ch in subs
      ensures View() == Step(old(View()), Event.Subscribe)
    {
      ch := new Channel();
      subs, made := subs + {ch}, made + [ch];
      assert SubIds() == old(SubIds()) + {|old(made)|};
    }

    method Unsubscribe(ch: Channel, ghost id: nat)
      requires Valid() && id < |made| && made[id] == ch
      modifies this`subs, ch`closed
      ensures Valid() && View() == Step(old(View()), Event.Unsubscribe(id))
    {
      if ch in subs {
        assert !AnyClosed(View().chans, {id});
        subs := subs - {ch};
        ch.Close();
        assert SubIds() == old(SubIds()) - {id};
      }
    }

    method Send(e: string)
      requires Valid()
      modifies subs
      ensures Valid() && View() == Step(old(View()), Event.Send(e))
    {
      assert !AnyClosed(View().chans, SubIds());
      var todo := subs;
      while todo != {}
        invariant todo <= subs && Valid()
        invariant forall ch | ch in subs - todo :: ch.View() == Offered(old(ch.View()), e)
        invariant forall ch | ch in made && (ch in todo || ch !in subs) :: ch.View() == old(ch.View())
        decreases |todo|
      {
        var ch :| ch in todo;
        ch.TrySend(e);
        todo := todo - {ch};
      }
    }

    method Shutdown()
      requires Valid()
      modifies this`subs, subs`closed
      ensures Valid() && View() == Step(old(View()), Event.Shutdown)
    {
      assert !AnyClosed(View().chans, SubIds());
      while subs != {}
        invariant subs <= old(subs) && Valid()
        invariant forall ch | ch in made :: ch.View() == old(ch.View()).(closed := ch !in subs)
        decreases |subs|
      {
        var ch :| ch in subs;
        subs := subs - {ch};
        ch.Close();
      }
      assert SubIds() == {};
    }

    /** A subscriber's receive from its channel, subscribed or not. */
    method Receive(ch: Channel, ghost id: nat) returns (e: Option<string>)
      requires Valid() && id < |made| && made[id] == ch
      modifies ch
      ensures Valid() && View() == Step(old(View()), Event.Receive(id))
      ensures e == if old(ch.buf) == [] then None else Some(old(ch.buf)[0])
    {
      e := ch.Receive();
    }
  }

  predicate Inv(s: System) {
    && !s.panicked
    && (forall id | id in s.subs :: id < |s.chans|)
    && (forall id | 0 <= id < |s.chans| :: s.chans[id].closed <==> id !in s.subs)
    && (forall id | 0 <= id < |s.chans| :: |s.chans[id].buf| <= BUF_SIZE)
  }

  lemma InvStep(s: System, e: Event)
    requires Inv(s)
    ensures Inv(Step(s, e))
  {
    assert !AnyClosed(s.chans, s.subs);
    if e.Unsubscribe? { assert e.id in s.subs ==> !AnyClosed(s.chans, {e.id}); }
  }

  /**
   In every interleaving no channel is closed twice or sent to after it was closed; a channel
   is open exactly while it is subscribed, and never holds more than its slots.
   */
  lemma {:induction false} NoPanic(events: seq<Event>)
    ensures Inv(Run(events))
  {
    if events != [] {
      NoPanic(events[..|events| - 1]);
      InvStep(Run(events[..|events| - 1]), events[|events| - 1]);
    }
  }

  function Made(events: seq<Event>): nat {
    if events == [] then 0
    else Made(events[..|events| - 1]) + if events[|events| - 1].Subscribe? then 1 else 0
  }

  /** Read off the operations alone: made, and not unsubscribed or shut down since. */
  predicate Live(events: seq<Event>, id: nat) {
    events != [] &&
    var before := events[..|events| - 1];
    match events[|events| - 1]
    case Subscribe => Made(before) == id || Live(before, id)
    case Unsubscribe(other) => other != id && Live(before, id)
    case Shutdown => false
    case _ => Live(before, id)
  }

  lemma {:induction false} SubscribedWhenLive(events: seq<Event>, id: nat)
    ensures |Run(events).chans| == Made(events)
    ensures id in Run(events).subs <==> Live(events, id)
  {
    if events != [] { SubscribedWhenLive(events[..|events| - 1], id); }
  }

  // ---- What a subscriber gets ----

  /** An event sent while the channel was subscribed, and how much was buffered then. */
  datatype Offer = Offer(event: string, backlog: nat)

  function Offers(events: seq<Event>, id: nat): seq<Offer> {
    if events == [] then []
    else
      var before, e := events[..|events| - 1], events[|events| - 1];
      var s := Run(before);
      Offers(before, id) +
      (if e.Send? && Live(before, id) && id < |s.chans| then [Offer(e.event, |s.chans[id].buf|)] else [])
  }

  function Sent(offers: seq<Offer>): seq<string> {
    if offers == [] then [] else Sent(offers[..|offers| - 1]) + [offers[|offers| - 1].event]
  }

  /** The offers that found a free slot. */
  function Kept(offers: seq<Offer>): seq<string> {
    if offers == [] then []
    else
      var before, o := offers[..|offers| - 1], offers[|offers| - 1];
      Kept(before) + (if o.backlog < BUF_SIZE then [o.event] else [])
  }

  lemma KeptAppend(offers: seq<Offer>, o: Offer)
    ensures Kept(offers + [o]) == Kept(offers) + (if o.backlog < BUF_SIZE then [o.event] else [])
    ensures Sent(offers + [o]) == Sent(offers) + [o.event]
  {
    assert (offers + [o])[..|offers|] == offers;
  }

  /** Received and buffered events together are those sent while subscribed, less those that met a full buffer. */
  lemma {:induction false} Delivery(events: seq<Event>, id: nat)
    ensures var s := Run(events);
      if id < |s.chans| then s.chans[id].got + s.chans[id].buf == Kept(Offers(events, id)) else Offers(events, id) == []
    ensures forall o | o in Offers(events, id) :: o.backlog <= BUF_SIZE
  {
    if events != [] {
      var before, e := events[..|events| - 1], events[|events| - 1];
      Delivery(before, id);
      SubscribedWhenLive(before, id);
      NoPanic(before);
      DeliveryStep(Run(before), e, id, Offers(before, id));
    }
  }

  lemma DeliveryStep(s: System, e: Event, id: nat, offers: seq<Offer>)
    requires Inv(s)
    requires if id < |s.chans| then s.chans[id].got + s.chans[id].buf == Kept(offers) else offers == []
    ensures var t := Step(s, e);
      var offered := offers + (if e.Send? && id in s.subs then [Offer(e.event, |s.chans[id].buf|)] else []);
      if id < |t.chans| then t.chans[id].got + t.chans[id].buf == Kept(offered) else offered == []
  {
    assert offers + [] == offers;
    if id < |s.chans| {
      var c := s.chans[id];
      if e.Send? && id in s.subs {
        KeptAppend(offers, Offer(e.event, |c.buf|));
        assert c.got + (c.buf + [e.event]) == (c.got + c.buf) + [e.event];
      }
      if c.buf != [] { assert (c.got + [c.buf[0]]) + c.buf[1..] == c.got + c.buf; }
    }
  }

  /** `a` is `b` with some places left out. */
  predicate Subsequence(a: seq<string>, b: seq<string>)
    decreases |b|
  {
    || a == []
    || (b != [] && a[|a| - 1] == b[|b| - 1] && Subsequence(a[..|a| - 1], b[..|b| - 1]))
    || (b != [] && Subsequence(a, b[..|b| - 1]))
  }

  lemma {:induction false} KeptInOrder(offers: seq<Offer>)
    ensures Subsequence(Kept(offers), Sent(offers)) && |Kept(offers)| <= |Sent(offers)|
  {
    if offers != [] {
      var n := |offers| - 1;
      KeptInOrder(offers[..n]);
      KeptOne(Kept(offers[..n]), Sent(offers[..n]), offers[n]);
      assert offers[n].backlog >= BUF_SIZE ==> Kept(offers) == Kept(offers[..n]);
    }
  }

  lemma {:induction false} KeptWhole(offers: seq<Offer>)
    ensures (forall o | o in offers :: o.backlog < BUF_SIZE) <==> Kept(offers) == Sent(offers)
  {
    if offers != [] {
      var n := |offers| - 1;
      KeptWhole(offers[..n]);
      KeptInOrder(offers[..n]);
      assert offers == offers[..n] + [offers[n]];
      KeptOne(Kept(offers[..n]), Sent(offers[..n]), offers[n]);
      assert offers[n].backlog >= BUF_SIZE ==> Kept(offers) == Kept(offers[..n]);
    }
  }

  lemma KeptOne(kept: seq<string>, sent: seq<string>, o: Offer)
    requires Subsequence(kept, sent) && |kept| <= |sent|
    ensures var more := sent + [o.event];
      && Subsequence(kept, more) && Subsequence(kept + [o.event], more)
      && kept != more && (kept + [o.event] == more <==> kept == sent)
  {
    var more := sent + [o.event];
    assert more[..|sent|] == sent && (kept + [o.event])[..|kept|] == kept;
  }

  /**
   What a subscriber received and still has buffered is an in-order subsequence of what was
   sent while it was subscribed, and all of it exactly when no such event met 16 waiting ones.
   */
  lemma ReceivedInOrder(events: seq<Event>, id: nat)
    requires id < |Run(events).chans|
    ensures var c, offers := Run(events).chans[id], Offers(events, id);
      && Subsequence(c.got + c.buf, Sent(offers))
      && (c.got + c.buf == Sent(offers) <==> forall o | o in offers :: o.backlog != 16)
  {
    Delivery(events, id);
    KeptInOrder(Offers(events, id));
    KeptWhole(Offers(events, id));
  }
}
