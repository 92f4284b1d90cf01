/** The offline queue over whole runs: which messages are lost, and when the order of submission is kept. */
module QueueRuns {
  import opened Bytes
  import opened NetworkCache

  function Run(s: State, events: seq<Event>): State
    decreases |events|
  {
    if events == [] then s else Run(Step(s, events[0]), events[1..])
  }

  function New(e: Event): seq<Packet> {
    match e
    case Submit(p, _) => [p]
    case Changed(_, _) => []
  }

  function Submitted(events: seq<Event>): seq<Packet> {
    if events == [] then [] else New(events[0]) + Submitted(events[1..])
  }

  /** The messages that went to at least one connection, in order. */
  function Sent(handed: seq<Handed>): seq<Packet> {
    if handed == [] then []
    else
      var last := |handed| - 1;
      Sent(handed[..last]) + (if handed[last].takers == [] then [] else [handed[last].p])
  }

  /** The messages that were neither sent nor cached. */
  function Lost(handed: seq<Handed>): seq<Packet> {
    if handed == [] then []
    else
      var last := |handed| - 1;
      Lost(handed[..last]) + (if handed[last].takers == [] then [handed[last].p] else [])
  }

  lemma {:induction false} HandedAppend(a: seq<Handed>, b: seq<Handed>)
    ensures Sent(a + b) == Sent(a) + Sent(b) && Lost(a + b) == Lost(a) + Lost(b)
  {
    if b == [] {
      assert a + b == a;
    } else {
      var last := |b| - 1;
      assert (a + b)[..|a + b| - 1] == a + b[..last];
      HandedAppend(a, b[..last]);
    }
  }

  lemma HandedOne(p: Packet, takers: seq<nat>)
    ensures Sent([Handed(p, takers)]) == if takers == [] then [] else [p]
    ensures Lost([Handed(p, takers)]) == if takers == [] then [p] else []
  {
    assert [Handed(p, takers)][..0] == [];
  }

  // ----- One flush, turn by turn -----

  /** A turn that finds an active connection finds one that takes messages. */
  predicate Served(links: Links) {
    AnyActive(links) ==> Takers(links) != []
  }

  function SentTurns(q: seq<Packet>, turns: nat -> Links): seq<Packet> {
    Sent(HandedTurns(q, turns))
  }

  function LostTurns(q: seq<Packet>, turns: nat -> Links): seq<Packet> {
    Lost(HandedTurns(q, turns))
  }

  lemma LastTurn(q: seq<Packet>, turns: nat -> Links)
    requires q != []
    ensures var last := |q| - 1;
            var active, taken := AnyActive(turns(last)), Takers(turns(last)) != [];
            && SentTurns(q, turns) == SentTurns(q[..last], turns) + (if active && taken then [q[last]] else [])
            && LostTurns(q, turns) == LostTurns(q[..last], turns) + (if active && !taken then [q[last]] else [])
            && CachedTurns(q, turns) == CachedTurns(q[..last], turns) + (if active then [] else [q[last]])
  {
    hide AnyActive, Takers, Sent, Lost;
    var last := |q| - 1;
    var before := HandedTurns(q[..last], turns);
    if AnyActive(turns(last)) {
      var h := Handed(q[last], Takers(turns(last)));
      assert HandedTurns(q, turns) == before + [h];
      HandedAppend(before, [h]);
      HandedOne(h.p, h.takers);
    } else {
      assert HandedTurns(q, turns) == before + [] == before;
    }
  }

  lemma NoTurn(turns: nat -> Links)
    ensures SentTurns([], turns) == [] && LostTurns([], turns) == [] && CachedTurns([], turns) == []
  {
  }

  /** Every packet of a flush is sent, lost or cached again. */
  lemma {:induction false} TurnsPartition(q: seq<Packet>, turns: nat -> Links)
    ensures multiset(SentTurns(q, turns)) + multiset(LostTurns(q, turns)) + multiset(CachedTurns(q, turns)) == multiset(q)
    ensures |SentTurns(q, turns)| + |LostTurns(q, turns)| + |CachedTurns(q, turns)| == |q|
  {
    hide SentTurns, LostTurns, CachedTurns;
    NoTurn(turns);
    if q != [] {
      var last := |q| - 1;
      TurnsPartition(q[..last], turns);
      LastTurn(q, turns);
      assert q == q[..last] + [q[last]];
    }
  }

  lemma {:induction false} NoneLostExactly(q: seq<Packet>, turns: nat -> Links)
    ensures LostTurns(q, turns) == [] <==> forall i :: 0 <= i < |q| ==> Served(turns(i))
  {
    hide SentTurns, LostTurns, CachedTurns;
    NoTurn(turns);
    if q != [] {
      NoneLostExactly(q[..|q| - 1], turns);
      LastTurn(q, turns);
    }
  }

  /** r lists, in ascending order, exactly the turns below n that find an active connection, or none. */
  ghost predicate Picks(r: seq<nat>, turns: nat -> Links, n: nat, active: bool) {
    && (forall j :: 0 <= j < |r| ==> r[j] < n && AnyActive(turns(r[j])) == active)
    && (forall i, j :: 0 <= i < j < |r| ==> r[i] < r[j])
    && (forall i: nat :: i < n && AnyActive(turns(i)) == active ==> i in r)
  }

  /** h are the messages of q at the turns a, each with exactly the takers of its turn. */
  ghost predicate HandedAt(h: seq<Handed>, a: seq<nat>, q: seq<Packet>, turns: nat -> Links) {
    |h| == |a| && forall j :: 0 <= j < |h| ==> a[j] < |q| && h[j].p == q[a[j]] && TakesExactly(h[j].takers, turns(a[j]))
  }

  ghost predicate CachedAt(k: seq<Packet>, b: seq<nat>, q: seq<Packet>) {
    |k| == |b| && forall j :: 0 <= j < |k| ==> b[j] < |q| && k[j] == q[b[j]]
  }

  lemma OneMoreTurn(h: seq<Handed>, a: seq<nat>, k: seq<Packet>, b: seq<nat>, q: seq<Packet>, turns: nat -> Links, takers: seq<nat>)
    requires q != [] && HandedAt(h, a, q[..|q| - 1], turns) && CachedAt(k, b, q[..|q| - 1])
    requires TakesExactly(takers, turns(|q| - 1))
    ensures var last := |q| - 1;
            && HandedAt(h, a, q, turns) && HandedAt(h + [Handed(q[last], takers)], a + [last], q, turns)
            && CachedAt(k, b, q) && CachedAt(k + [q[last]], b + [last], q)
  {
    hide TakesExactly;
  }

  /**
   What a flush hands over are the messages whose turn finds an active
   connection, in order, each to exactly the takers of its turn; what it caches
   again are the others, in order.
   */
  lemma {:induction false} FlushExactly(q: seq<Packet>, turns: nat -> Links) returns (a: seq<nat>, b: seq<nat>)
    ensures Picks(a, turns, |q|, true) && HandedAt(HandedTurns(q, turns), a, q, turns)
    ensures Picks(b, turns, |q|, false) && CachedAt(CachedTurns(q, turns), b, q)
  {
    if q == [] {
      a, b := [], [];
    } else {
      hide TakesExactly, Takers, AnyActive, HandedAt, CachedAt, Picks;
      var last := |q| - 1;
      var before := q[..last];
      a, b := FlushExactly(before, turns);
      TakersExactly(turns(last));
      OneMoreTurn(HandedTurns(before, turns), a, CachedTurns(before, turns), b, q, turns, Takers(turns(last)));
      assert HandedTurns(before, turns) + [] == HandedTurns(before, turns);
      assert CachedTurns(before, turns) + [] == CachedTurns(before, turns);
      if AnyActive(turns(last)) {
        a := PickMore(a, turns, last, true);
        PickNoMore(b, turns, last, false);
      } else {
        b := PickMore(b, turns, last, false);
        PickNoMore(a, turns, last, true);
      }
    }
  }

  lemma PickMore(r: seq<nat>, turns: nat -> Links, n: nat, active: bool) returns (t: seq<nat>)
    requires Picks(r, turns, n, active) && AnyActive(turns(n)) == active
    ensures t == r + [n] && Picks(t, turns, n + 1, active)
  {
    hide AnyActive;
    t := r + [n];
    forall i: nat | i < n + 1 && AnyActive(turns(i)) == active
      ensures i in t
    {
      assert t[|r|] == n;
      if i < n {
        var j :| 0 <= j < |r| && r[j] == i;
        assert t[j] == i;
      }
    }
  }

  lemma PickNoMore(r: seq<nat>, turns: nat -> Links, n: nat, active: bool)
    requires Picks(r, turns, n, active) && AnyActive(turns(n)) != active
    ensures Picks(r, turns, n + 1, active)
  {
    hide AnyActive;
  }

  // ----- Nothing lost -----

  /** Every turn of the run that finds an active connection finds one that takes messages. */
  ghost predicate AllServed(s: State, events: seq<Event>)
    decreases |events|
  {
    events != [] ==>
      && (match events[0]
          case Submit(_, now) => Served(now)
          case Changed(now, turns) => AnyActive(now) ==> forall i :: 0 <= i < |s.queue| ==> Served(turns(i)))
      && AllServed(Step(s, events[0]), events[1..])
  }

  /** What one event adds to the messages sent and lost. */
  function NewlySent(s: State, e: Event): seq<Packet> {
    match e
    case Submit(p, now) => if AnyActive(now) && Takers(now) != [] then [p] else []
    case Changed(now, turns) => if AnyActive(now) then SentTurns(s.queue, turns) else []
  }

  function NewlyLost(s: State, e: Event): seq<Packet> {
    match e
    case Submit(p, now) => if AnyActive(now) && Takers(now) == [] then [p] else []
    case Changed(now, turns) => if AnyActive(now) then LostTurns(s.queue, turns) else []
  }

  /** All messages of a state, sent, lost or cached. */
  ghost function Owned(s: State): multiset<Packet> {
    multiset(Sent(s.handed)) + multiset(Lost(s.handed)) + multiset(s.queue)
  }

  lemma StepAdds(s: State, e: Event)
    ensures Sent(Step(s, e).handed) == Sent(s.handed) + NewlySent(s, e)
    ensures Lost(Step(s, e).handed) == Lost(s.handed) + NewlyLost(s, e)
    ensures |NewlySent(s, e)| + |NewlyLost(s, e)| + |Step(s, e).queue| == |s.queue| + |New(e)|
  {
    hide Sent, Lost, AnyActive, Takers;
    match e {
      case Submit(p, now) =>
        if AnyActive(now) {
          HandedAppend(s.handed, [Handed(p, Takers(now))]);
          HandedOne(p, Takers(now));
        }
      case Changed(now, turns) =>
        if AnyActive(now) {
          HandedAppend(s.handed, HandedTurns(s.queue, turns));
          TurnsPartition(s.queue, turns);
        }
    }
  }

  lemma StepOwns(s: State, e: Event)
    ensures Owned(Step(s, e)) == Owned(s) + multiset(New(e))
  {
    hide Sent, Lost, AnyActive, Takers;
    StepAdds(s, e);
    if e.Changed? && AnyActive(e.now) {
      TurnsPartition(s.queue, e.turns);
    }
  }

  /** Over any run each message is sent, lost or still cached, as often as it was submitted. */
  lemma {:induction false} Accounted(s: State, events: seq<Event>)
    ensures Owned(Run(s, events)) == Owned(s) + multiset(Submitted(events))
    decreases |events|
  {
    hide Step, Owned;
    if events != [] {
      StepOwns(s, events[0]);
      Accounted(Step(s, events[0]), events[1..]);
    }
  }

  /** What is sent or lost stays so, and no message disappears from the count. */
  lemma {:induction false} RunOnlyAdds(s: State, events: seq<Event>)
    ensures Sent(s.handed) <= Sent(Run(s, events).handed) && Lost(s.handed) <= Lost(Run(s, events).handed)
    ensures var t := Run(s, events);
            |Sent(t.handed)| + |Lost(t.handed)| + |t.queue|
            == |Sent(s.handed)| + |Lost(s.handed)| + |s.queue| + |Submitted(events)|
    decreases |events|
  {
    hide Step, Sent, Lost, NewlySent, NewlyLost;
    if events != [] {
      StepAdds(s, events[0]);
      RunOnlyAdds(Step(s, events[0]), events[1..]);
    }
  }

  /** Nothing is lost over a run exactly when every turn with an active connection has one that takes messages. */
  lemma {:induction false} NothingLostExactly(s: State, events: seq<Event>)
    ensures Lost(Run(s, events).handed) == Lost(s.handed) <==> AllServed(s, events)
    decreases |events|
  {
    hide Step, Sent, Lost, LostTurns, AnyActive, Takers;
    if events != [] {
      var t := Step(s, events[0]);
      StepAdds(s, events[0]);
      NothingLostExactly(t, events[1..]);
      RunOnlyAdds(t, events[1..]);
      if events[0].Changed? {
        NoneLostExactly(s.queue, events[0].turns);
      }
    }
  }

  /** Only then do the sent and the cached messages make up all that was submitted. */
  lemma ConservedExactly(s: State, events: seq<Event>)
    ensures var t := Run(s, events);
            multiset(Sent(t.handed)) + multiset(t.queue)
            == multiset(Sent(s.handed)) + multiset(s.queue) + multiset(Submitted(events))
            <==> AllServed(s, events)
  {
    hide Run, Sent, Lost, AllServed;
    var t := Run(s, events);
    Accounted(s, events);
    RunOnlyAdds(s, events);
    NothingLostExactly(s, events);
    var more := Lost(t.handed)[|Lost(s.handed)|..];
    assert Lost(t.handed) == Lost(s.handed) + more;
    assert multiset(Lost(t.handed)) == multiset(Lost(s.handed)) + multiset(more);
    Cancel(multiset(Sent(t.handed)), multiset(more), multiset(t.queue), multiset(Lost(s.handed)),
           multiset(Sent(s.handed)), multiset(s.queue), multiset(Submitted(events)));
    if more != [] {
      assert more[0] in multiset(more);
    }
  }

  lemma Cancel(sent: multiset<Packet>, more: multiset<Packet>, queue: multiset<Packet>, before: multiset<Packet>,
               sent0: multiset<Packet>, queue0: multiset<Packet>, new0: multiset<Packet>)
    requires sent + (before + more) + queue == sent0 + before + queue0 + new0
    ensures sent + queue == sent0 + queue0 + new0 <==> more == multiset{}
  {
    forall x
      ensures sent[x] + more[x] + queue[x] == sent0[x] + queue0[x] + new0[x]
    {
      assert (sent + (before + more) + queue)[x] == (sent0 + before + queue0 + new0)[x];
    }
    if sent + queue == sent0 + queue0 + new0 {
      forall x
        ensures more[x] == 0
      {
        assert (sent + queue)[x] == (sent0 + queue0 + new0)[x];
      }
    }
  }

  /** A sole peer that takes no messages, once active, empties the queue: every message in it is lost. */
  lemma SolePeerLosesQueue(s: State)
    ensures var links := [Connection(true, SEND_NONE)];
            var t := Step(s, Changed(links, _ => links));
            t.queue == [] && Sent(t.handed) == Sent(s.handed) && Lost(t.handed) == Lost(s.handed) + s.queue
  {
    hide Sent, Lost;
    var links := [Connection(true, SEND_NONE)];
    assert links[0].active;
    assert links[..0] == [] && Takers(links) == [];
    StepAdds(s, Changed(links, _ => links));
    AllTurnsLost(s.queue, _ => links);
  }

  lemma {:induction false} AllTurnsLost(q: seq<Packet>, turns: nat -> Links)
    requires forall i: nat :: AnyActive(turns(i)) && Takers(turns(i)) == []
    ensures SentTurns(q, turns) == [] && LostTurns(q, turns) == q && CachedTurns(q, turns) == []
  {
    hide SentTurns, LostTurns, CachedTurns;
    NoTurn(turns);
    if q != [] {
      AllTurnsLost(q[..|q| - 1], turns);
      LastTurn(q, turns);
      assert q == q[..|q| - 1] + [q[|q| - 1]];
    }
  }

  // ----- Order -----

  /** Sent messages followed by cached ones. */
  function InOrder(s: State): seq<Packet> {
    Sent(s.handed) + s.queue
  }

  /** In the first n turns every active connection set is served, and once none is active none becomes active again. */
  ghost predicate NoReturn(turns: nat -> Links, n: nat) {
    && (forall i :: 0 <= i < n ==> Served(turns(i)))
    && (forall i, j :: 0 <= i < j < n && AnyActive(turns(j)) ==> AnyActive(turns(i)))
  }

  lemma {:induction false} FlushKeepsOrder(q: seq<Packet>, turns: nat -> Links)
    requires NoReturn(turns, |q|)
    ensures SentTurns(q, turns) + CachedTurns(q, turns) == q
    ensures q != [] && AnyActive(turns(|q| - 1)) ==> CachedTurns(q, turns) == []
  {
    hide SentTurns, LostTurns, CachedTurns, AnyActive, Takers;
    NoTurn(turns);
    if q != [] {
      var last := |q| - 1;
      FlushKeepsOrder(q[..last], turns);
      LastTurn(q, turns);
      assert Served(turns(last));
      assert q == q[..last] + [q[last]];
      if AnyActive(turns(last)) {
        assert last > 0 ==> AnyActive(turns(last - 1));
      }
    }
  }

  ghost predicate Distinct(q: seq<Packet>) {
    forall i, j :: 0 <= i < j < |q| ==> q[i] != q[j]
  }

  /** With distinct messages, a turn's message is sent exactly when the turn finds a taker. */
  lemma {:induction false} SentAt(q: seq<Packet>, turns: nat -> Links, i: nat)
    requires Distinct(q) && i < |q|
    ensures q[i] in SentTurns(q, turns) <==> AnyActive(turns(i)) && Takers(turns(i)) != []
  {
    hide SentTurns, LostTurns, CachedTurns, AnyActive, Takers;
    var last := |q| - 1;
    LastTurn(q, turns);
    if i < last {
      SentAt(q[..last], turns, i);
    } else if q[i] in SentTurns(q[..last], turns) {
      SentIsFrom(q[..last], turns, q[i]);
    }
  }

  lemma {:induction false} SentIsFrom(q: seq<Packet>, turns: nat -> Links, p: Packet)
    requires p in SentTurns(q, turns)
    ensures p in q
  {
    hide SentTurns, LostTurns, CachedTurns, AnyActive, Takers;
    NoTurn(turns);
    LastTurn(q, turns);
    if p in SentTurns(q[..|q| - 1], turns) {
      SentIsFrom(q[..|q| - 1], turns, p);
    }
  }

  /** If a flush of distinct messages loses none and sends a prefix of them, no connection came back. */
  lemma PrefixSentExactly(q: seq<Packet>, turns: nat -> Links, m: nat)
    requires Distinct(q) && m <= |q| && SentTurns(q, turns) == q[..m] && LostTurns(q, turns) == []
    ensures NoReturn(turns, |q|)
  {
    hide SentTurns, LostTurns, AnyActive, Takers;
    NoneLostExactly(q, turns);
    forall i, j | 0 <= i < j < |q| && AnyActive(turns(j))
      ensures AnyActive(turns(i))
    {
      assert Served(turns(j));
      SentAt(q, turns, j);
      var k :| 0 <= k < m && q[..m][k] == q[j];
      assert q[k] == q[j];
      SentAt(q, turns, i);
      assert q[..m][i] == q[i];
    }
  }

  function Texts(n: nat): (q: seq<Packet>)
    ensures |q| == n && forall i :: 0 <= i < n ==> |q[i].message| == i
  {
    if n == 0 then [] else Texts(n - 1) + [Packet(seq(n - 1, _ => 0), All, [])]
  }

  /**
   For every n: a flush keeps the order of every queue of n messages exactly
   when all its turns are served and no connection comes back after a turn
   without one.
   */
  lemma FlushOrderExactly(n: nat, turns: nat -> Links)
    ensures (forall q: seq<Packet> :: |q| == n ==> SentTurns(q, turns) + CachedTurns(q, turns) == q) <==> NoReturn(turns, n)
  {
    hide SentTurns, LostTurns, CachedTurns, NoReturn;
    if NoReturn(turns, n) {
      forall q: seq<Packet> | |q| == n
        ensures SentTurns(q, turns) + CachedTurns(q, turns) == q
      {
        FlushKeepsOrder(q, turns);
      }
    } else {
      var q := Texts(n);
      forall i, j | 0 <= i < j < n
        ensures q[i] != q[j]
      {
        assert |q[i].message| != |q[j].message|;
      }
      if SentTurns(q, turns) + CachedTurns(q, turns) == q {
        TurnsPartition(q, turns);
        PrefixSentExactly(q, turns, |SentTurns(q, turns)|);
      }
    }
  }

  /** The failing flush exists: the connection is away for the first of two messages and back for the second. */
  lemma ReturnSwapsTwo(a: Packet, b: Packet)
    ensures var turns := (i: nat) => [Connection(i == 1, SEND_ALL)];
            SentTurns([a, b], turns) == [b] && CachedTurns([a, b], turns) == [a]
  {
    var turns := (i: nat) => [Connection(i == 1, SEND_ALL)];
    hide SentTurns, LostTurns, CachedTurns;
    var off, on := turns(0), turns(1);
    assert !AnyActive(off) && on[0].active;
    assert on[..0] == [] && Takers(on) == [0];
    NoTurn(turns);
    assert [a][..0] == [] && [a, b][..1] == [a];
    LastTurn([a], turns);
    LastTurn([a, b], turns);
  }

  lemma {:induction false} PushedFrontIsBack(p: Packet, q: seq<Packet>)
    ensures [p] + q == q + [p] <==> forall i :: 0 <= i < |q| ==> q[i] == p
  {
    if q != [] {
      PushedFrontIsBack(p, q[1..]);
      if [p] + q == q + [p] {
        assert ([p] + q)[0] == p && (q + [p])[0] == q[0];
        assert ([p] + q)[1..] == q && (q + [p])[1..] == q[1..] + [p];
        assert q == [p] + q[1..];
        assert forall i :: 0 < i < |q| ==> q[i] == q[1..][i - 1];
      }
      if forall i :: 0 <= i < |q| ==> q[i] == p {
        assert forall i :: 0 <= i <= |q| ==> ([p] + q)[i] == p && (q + [p])[i] == p;
      }
    }
  }

  /**
   A submitted message keeps the order exactly when it is cached, or it finds a
   taker and nothing but messages equal to it is waiting.
   */
  lemma SubmitOrderExactly(s: State, p: Packet, now: Links)
    ensures InOrder(Step(s, Submit(p, now))) == InOrder(s) + [p]
       <==> !AnyActive(now) || (Takers(now) != [] && forall i :: 0 <= i < |s.queue| ==> s.queue[i] == p)
  {
    hide Sent, Lost, AnyActive, Takers;
    var t, e, sent := Step(s, Submit(p, now)), Submit(p, now), Sent(s.handed);
    StepAdds(s, e);
    PushedFrontIsBack(p, s.queue);
    if AnyActive(now) && Takers(now) != [] {
      assert InOrder(t) == sent + ([p] + s.queue) && InOrder(s) + [p] == sent + (s.queue + [p]);
      SplitEqualPackets(sent, [p] + s.queue, s.queue + [p]);
    } else if AnyActive(now) {
      assert |InOrder(t)| == |InOrder(s)|;
    }
  }

  lemma SplitEqualPackets(a: seq<Packet>, x: seq<Packet>, y: seq<Packet>)
    ensures a + x == a + y <==> x == y
  {
    assert (a + x)[|a|..] == x && (a + y)[|a|..] == y;
  }

  /** No message overtakes the queue, none is lost, and no connection comes back during a flush. */
  ghost predicate Orderly(s: State, events: seq<Event>)
    decreases |events|
  {
    events != [] ==>
      && (match events[0]
          case Submit(_, now) => AnyActive(now) ==> Takers(now) != [] && s.queue == []
          case Changed(now, turns) => AnyActive(now) ==> NoReturn(turns, |s.queue|))
      && Orderly(Step(s, events[0]), events[1..])
  }

  lemma OrderlyStep(s: State, e: Event)
    requires Orderly(s, [e])
    ensures InOrder(Step(s, e)) == InOrder(s) + New(e)
  {
    hide Sent, Lost, AnyActive, Takers, SentTurns, CachedTurns;
    assert [e][1..] == [];
    StepAdds(s, e);
    if e.Changed? && AnyActive(e.now) {
      FlushKeepsOrder(s.queue, e.turns);
    }
  }

  /** First in, first out: on an orderly run, what was sent followed by what is cached is what was submitted, in order. */
  lemma {:induction false} FirstInFirstOut(s: State, events: seq<Event>)
    requires Orderly(s, events)
    ensures InOrder(Run(s, events)) == InOrder(s) + Submitted(events)
    decreases |events|
  {
    hide InOrder, Step;
    if events != [] {
      var e, t := events[0], Step(s, events[0]);
      assert [e][1..] == [];
      OrderlyStep(s, e);
      FirstInFirstOut(t, events[1..]);
      AppendAssoc(InOrder(s), New(e), Submitted(events[1..]));
    } else {
      assert InOrder(s) + [] == InOrder(s);
    }
  }

  lemma AppendAssoc(a: seq<Packet>, b: seq<Packet>, c: seq<Packet>)
    ensures a + b + c == a + (b + c)
  {
  }

  /** If a run ends in order, its first event sent a prefix of all that was waiting or came later, and lost nothing. */
  lemma FirstStepOfOrdered(s: State, events: seq<Event>)
    requires events != [] && InOrder(Run(s, events)) == InOrder(s) + Submitted(events)
    ensures NewlySent(s, events[0]) <= s.queue + Submitted(events)
    ensures NewlyLost(s, events[0]) == []
  {
    hide Sent, Lost, Step, NewlySent, NewlyLost, Submitted;
    var t, r := Step(s, events[0]), Run(s, events);
    var x, all := NewlySent(s, events[0]), s.queue + Submitted(events);
    StepAdds(s, events[0]);
    RunOnlyAdds(t, events[1..]);
    RunOnlyAdds(s, events);
    assert r == Run(t, events[1..]);
    var y := Sent(r.handed)[|Sent(t.handed)|..];
    assert Sent(r.handed) == Sent(s.handed) + x + y;
    assert InOrder(r) == Sent(s.handed) + (x + y + r.queue);
    assert InOrder(s) + Submitted(events) == Sent(s.handed) + all;
    SplitEqualPackets(Sent(s.handed), x + y + r.queue, all);
    assert x == (x + y + r.queue)[..|x|];
  }

  /** The first event of a run that ends in order is orderly. */
  lemma FirstStepOrderly(s: State, e: Event, later: seq<Packet>)
    requires Distinct(s.queue + (New(e) + later))
    requires NewlySent(s, e) <= s.queue + (New(e) + later) && NewlyLost(s, e) == []
    ensures Orderly(s, [e])
  {
    hide Sent, Lost, AnyActive, Takers, SentTurns, LostTurns, CachedTurns;
    assert [e][1..] == [];
    var all := s.queue + (New(e) + later);
    match e {
      case Submit(p, now) =>
        assert all[|s.queue|] == p;
        assert s.queue != [] ==> all[0] != all[|s.queue|];
        assert AnyActive(now) ==> NewlySent(s, e) == [p];
      case Changed(now, turns) =>
        if AnyActive(now) {
          var x := SentTurns(s.queue, turns);
          TurnsPartition(s.queue, turns);
          DistinctPrefix(s.queue, New(e) + later);
          assert x == s.queue[..|x|];
          PrefixSentExactly(s.queue, turns, |x|);
        }
    }
  }

  lemma DistinctPrefix(a: seq<Packet>, b: seq<Packet>)
    requires Distinct(a + b)
    ensures Distinct(a)
  {
    forall i, j | 0 <= i < j < |a|
      ensures a[i] != a[j]
    {
      assert (a + b)[i] == a[i] && (a + b)[j] == a[j];
    }
  }

  /** After an orderly event what waits or comes later is still distinct. */
  lemma StillDistinct(s: State, e: Event, later: seq<Packet>)
    requires Orderly(s, [e]) && Distinct(s.queue + (New(e) + later))
    ensures Distinct(Step(s, e).queue + later)
  {
    hide Sent, Lost, Step;
    var t, all := Step(s, e), s.queue + (New(e) + later);
    OrderlyStep(s, e);
    StepAdds(s, e);
    var x := NewlySent(s, e);
    assert Sent(s.handed) + (x + t.queue) == InOrder(t) == Sent(s.handed) + (s.queue + New(e));
    SplitEqualPackets(Sent(s.handed), x + t.queue, s.queue + New(e));
    AppendAssoc(s.queue, New(e), later);
    AppendAssoc(x, t.queue, later);
    assert all == x + (t.queue + later);
    forall i, j | 0 <= i < j < |t.queue + later|
      ensures (t.queue + later)[i] != (t.queue + later)[j]
    {
      assert all[|x| + i] == (t.queue + later)[i] && all[|x| + j] == (t.queue + later)[j];
    }
  }

  /**
   With pairwise distinct messages a run ends in order exactly when it is
   orderly: disorder and loss are never made good later.
   */
  lemma {:induction false} OrderExactly(s: State, events: seq<Event>)
    requires Distinct(s.queue + Submitted(events))
    ensures InOrder(Run(s, events)) == InOrder(s) + Submitted(events) <==> Orderly(s, events)
    decreases |events|
  {
    hide Step, InOrder, Distinct, NewlySent, NewlyLost;
    if Orderly(s, events) {
      FirstInFirstOut(s, events);
    } else if events != [] && InOrder(Run(s, events)) == InOrder(s) + Submitted(events) {
      var e, rest := events[0], events[1..];
      var t := Step(s, e);
      assert [e][1..] == [];
      FirstStepOfOrdered(s, events);
      FirstStepOrderly(s, e, Submitted(rest));
      OrderlyStep(s, e);
      StillDistinct(s, e, Submitted(rest));
      AppendAssoc(InOrder(s), New(e), Submitted(rest));
      OrderExactly(t, rest);
      assert false;
    }
  }
}
