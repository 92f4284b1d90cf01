/**
 NetworkManager's offline queue: messages sent while no connection is active
 are kept in a cache file and sent again once a connection becomes active. What
 the connections are at each turn is the environment's choice.
 */
module NetworkCache {
  import opened Wrappers
  import opened Bytes
  import Base64
  import Framing

  datatype TypeSend = All | Except | Focused

  datatype Packet = Packet(message: Bytes, typeSend: TypeSend, receiver: Bytes)

  const TEXT_ALL: Bytes := [65, 108, 108]
  const TEXT_EXCEPT: Bytes := [69, 120, 99, 101, 112, 116]
  const TEXT_FOCUSED: Bytes := [70, 111, 99, 117, 115, 101, 100]

  function TypeSendToString(t: TypeSend): Bytes {
    match t
    case All => TEXT_ALL
    case Except => TEXT_EXCEPT
    case Focused => TEXT_FOCUSED
  }

  /** Any other text counts as All. */
  function TypeSendFromString(s: Bytes): TypeSend {
    if s == TEXT_ALL then All
    else if s == TEXT_EXCEPT then Except
    else if s == TEXT_FOCUSED then Focused
    else All
  }

  function Fields(p: Packet): seq<Bytes> {
    [p.message, TypeSendToString(p.typeSend), p.receiver]
  }

  /** The three-field inner serializations of a queue. */
  function Packages(queue: seq<Packet>): seq<Bytes> {
    if queue == [] then [] else [Framing.Encoded(Fields(queue[0]))] + Packages(queue[1..])
  }

  lemma {:induction false} PackagesAppend(a: seq<Packet>, b: seq<Packet>)
    ensures Packages(a + b) == Packages(a) + Packages(b)
  {
    if a == [] {
      assert a + b == b;
    } else {
      assert (a + b)[1..] == a[1..] + b;
      PackagesAppend(a[1..], b);
    }
  }

  lemma {:induction false} PackagesAt(queue: seq<Packet>, i: nat)
    requires i < |queue|
    ensures |Packages(queue)| == |queue| && Packages(queue)[i] == Framing.Encoded(Fields(queue[i]))
  {
    if i == 0 {
      PackagesLength(queue);
    } else {
      PackagesAt(queue[1..], i - 1);
    }
  }

  lemma {:induction false} PackagesLength(queue: seq<Packet>)
    ensures |Packages(queue)| == |queue|
  {
    if queue != [] {
      PackagesLength(queue[1..]);
    }
  }

  // ----- Reading the file with operator>> -----

  /** What `file >> data` reads: leading white space is skipped and reading stops at the next one. */
  function FirstToken(s: Bytes): Bytes {
    if s == [] then [] else if IsSpace(s[0]) then FirstToken(s[1..]) else UntilSpace(s)
  }

  function UntilSpace(s: Bytes): Bytes {
    if s == [] || IsSpace(s[0]) then [] else [s[0]] + UntilSpace(s[1..])
  }

  lemma {:induction false} TokenIsAll(s: Bytes)
    requires forall i :: 0 <= i < |s| ==> !IsSpace(s[i])
    ensures UntilSpace(s) == s && FirstToken(s) == s
  {
    if s != [] {
      TokenIsAll(s[1..]);
    }
  }

  predicate NoSpace(s: Bytes) {
    forall i :: 0 <= i < |s| ==> !IsSpace(s[i])
  }

  lemma EncodingHasNoSpace(s: Bytes)
    ensures NoSpace(Base64.Encode(s, false))
  {
    var e := Base64.Encode(s, false);
    Base64.EncodeAlphabet(s, false);
    forall i | 0 <= i < |e|
      ensures !IsSpace(e[i])
    {
      assert Base64.IsBase64Char(e[i]);
    }
  }

  lemma {:induction false} SerializedHasNoSpace(list: seq<Bytes>)
    ensures NoSpace(Framing.Join(Framing.EncodeAll(list)))
  {
    if list != [] {
      EncodingHasNoSpace(list[0]);
      SerializedHasNoSpace(list[1..]);
      assert Framing.EncodeAll(list)[1..] == Framing.EncodeAll(list[1..]);
    }
  }

  /** A non-empty queue of packages never serializes to an empty file. */
  lemma QueueFileNotEmpty(queue: seq<Packet>)
    requires queue != []
    ensures Framing.Encoded(Packages(queue)) != []
  {
    var inner := Framing.Encoded(Fields(queue[0]));
    var parts := Framing.EncodeAll(Fields(queue[0]));
    Framing.DecodeEncodeAll(Fields(queue[0]));
    assert inner == parts[0] + [BAR] + Framing.Join(parts[1..]);
    Base64.EncodeLength(inner, false);
  }

  /** An empty file, or an empty package, reads as one empty item. */
  lemma EmptyFile()
    ensures Framing.Decoded([]) == Some([[]])
  {
    Framing.RoundTrip([]);
    assert Framing.Encoded([]) == [];
  }

  // ----- Connections -----

  /** A connection; its send type is the number the peer put into its first message. */
  datatype Connection = Connection(active: bool, sendType: int)

  /** SocketService::SendType. */
  const SEND_ALL: int := 0
  const SEND_NONE: int := 1

  type Links = seq<Connection>

  predicate AnyActive(links: Links) {
    exists i :: 0 <= i < |links| && links[i].active
  }

  /** The connections a message is handed to: active and of send type All. */
  function Takers(links: Links): seq<nat> {
    if links == [] then []
    else
      var last := |links| - 1;
      Takers(links[..last]) + (if links[last].active && links[last].sendType == SEND_ALL then [last] else [])
  }

  /** Exactly the active connections of send type 0, each once, in the order of the list. */
  ghost predicate TakesExactly(takers: seq<nat>, links: Links) {
    && (forall i: nat :: i in takers <==> i < |links| && links[i].active && links[i].sendType == 0)
    && (forall i, j :: 0 <= i < j < |takers| ==> takers[i] < takers[j])
  }

  lemma {:induction false} TakersExactly(links: Links)
    ensures TakesExactly(Takers(links), links)
  {
    if links != [] {
      var last := |links| - 1;
      var before := Takers(links[..last]);
      TakersExactly(links[..last]);
      assert forall j :: 0 <= j < |before| ==> before[j] in before;
      forall i: nat
        ensures i in Takers(links) <==> i < |links| && links[i].active && links[i].sendType == 0
      {
        assert i < last ==> links[..last][i] == links[i];
      }
    }
  }

  // ----- The queue as a value -----

  /** A message that was not cached, with the connections it was handed to. */
  datatype Handed = Handed(p: Packet, takers: seq<nat>)

  /** The packets of q that are not cached again, when links(i) are the connections at turn i. */
  function HandedTurns(q: seq<Packet>, links: nat -> Links): seq<Handed> {
    if q == [] then []
    else
      var last := |q| - 1;
      HandedTurns(q[..last], links)
      + (if AnyActive(links(last)) then [Handed(q[last], Takers(links(last)))] else [])
  }

  /** The packets of q that are cached again. */
  function CachedTurns(q: seq<Packet>, links: nat -> Links): seq<Packet> {
    if q == [] then []
    else
      var last := |q| - 1;
      CachedTurns(q[..last], links) + (if AnyActive(links(last)) then [] else [q[last]])
  }

  /** A message from the node, or a change of the connections with what they are at each turn of the flush. */
  datatype Event = Submit(p: Packet, now: Links) | Changed(now: Links, turns: nat -> Links)

  datatype State = State(handed: seq<Handed>, queue: seq<Packet>)

  /** sendMessage, and checkConnectionsStatus with sendFromCache, on the queue as a value. */
  function Step(s: State, e: Event): State {
    match e
    case Submit(p, links) =>
      if AnyActive(links) then s.(handed := s.handed + [Handed(p, Takers(links))])
      else s.(queue := s.queue + [p])
    case Changed(now, links) =>
      if AnyActive(now) then State(s.handed + HandedTurns(s.queue, links), CachedTurns(s.queue, links))
      else s
  }

  /** What the cache file of q splits into: its packages, or one empty item. */
  function CacheItems(q: seq<Packet>): (r: seq<Bytes>)
    ensures |r| == if q == [] then 1 else |q|
  {
    PackagesLength(q);
    if q == [] then [[]] else Packages(q)
  }

  function Turned(q: seq<Packet>, i: nat): seq<Packet> {
    if i <= |q| then q[..i] else q
  }

  lemma CacheReads(q: seq<Packet>, file: Bytes)
    requires FileOf(Some(file), q)
    ensures Framing.Decoded(file) == Some(CacheItems(q))
  {
    if q == [] {
      EmptyFile();
    } else {
      PackagesLength(q);
      Framing.RoundTrip(Packages(q));
    }
  }

  /**
   Each package reads back as message, type ("All", "Except" or "Focused") and
   receiver of its packet; the empty item has one field.
   */
  lemma PackageReads(q: seq<Packet>, i: nat)
    requires i < |CacheItems(q)|
    ensures var fields := Framing.Decoded(CacheItems(q)[i]);
            if q == [] then fields == Some([[]])
            else
              var text := match q[i].typeSend
                          case All => [65, 108, 108]
                          case Except => [69, 120, 99, 101, 112, 116]
                          case Focused => [70, 111, 99, 117, 115, 101, 100];
              fields == Some([q[i].message, text, q[i].receiver]) && TypeSendFromString(text) == q[i].typeSend
  {
    if q == [] {
      EmptyFile();
    } else {
      PackagesAt(q, i);
      Framing.RoundTrip(Fields(q[i]));
    }
  }

  lemma TurnsStep(q: seq<Packet>, i: nat, links: nat -> Links)
    ensures i >= |q| ==> Turned(q, i + 1) == Turned(q, i)
    ensures i < |q| ==>
              && HandedTurns(Turned(q, i + 1), links)
                 == HandedTurns(Turned(q, i), links)
                    + (if AnyActive(links(i)) then [Handed(q[i], Takers(links(i)))] else [])
              && CachedTurns(Turned(q, i + 1), links)
                 == CachedTurns(Turned(q, i), links) + (if AnyActive(links(i)) then [] else [q[i]])
  {
    if i < |q| {
      assert Turned(q, i + 1)[..i] == Turned(q, i);
    }
  }

  lemma NoTurns(links: nat -> Links)
    ensures HandedTurns([], links) == [] && CachedTurns([], links) == []
  {
  }

  /** The cache file, None when it does not exist, stands for the queue. */
  ghost predicate FileOf(file: Option<Bytes>, queue: seq<Packet>) {
    if queue == [] then file == None || file == Some([])
    else file == Some(Framing.Encoded(Packages(queue)))
  }

  class NetworkManager {
    /** tmp/network.cache. */
    var cacheFile: Option<Bytes>
    /** Every message that was not cached, in order. */
    var handed: seq<Handed>
    /** The queue the file stands for. */
    ghost var queue: seq<Packet>

    ghost predicate Valid()
      reads this
    {
      FileOf(cacheFile, queue)
    }

    ghost function View(): State
      reads this
    {
      State(handed, queue)
    }

    /** A node that starts finds some cache file; if an earlier run has written it, it stands for what was left. */
    constructor (file: Option<Bytes>, ghost left: seq<Packet>)
      ensures cacheFile == file && View() == State([], left)
      ensures Valid() <==> FileOf(file, left)
    {
      cacheFile, handed, queue := file, [], left;
    }

    method SaveToCache(p: Packet)
      requires Valid()
      modifies this`cacheFile, this`queue
      ensures Valid() && queue == old(queue) + [p]
    {
      // opening for append creates the file
      var content := if cacheFile.Some? then cacheFile.value else [];
      if queue != [] {
        QueueFileNotEmpty(queue);
      }
      PackagesAppend(queue, [p]);
      var serializedMessage := Framing.Serialize(Fields(p));
      assert Packages([p]) == [serializedMessage];
      if |content| == 0 {
        var package := Framing.Serialize([serializedMessage]);
        assert queue + [p] == [p];
        cacheFile := Some(package);
      } else {
        var data := FirstToken(content);
        SerializedHasNoSpace(Packages(queue));
        TokenIsAll(content);
        var list := Framing.Deserialize(data);
        Framing.RoundTrip(Packages(queue));
        var whole := Framing.Serialize(list.value + [serializedMessage]);
        cacheFile := Some(whole);
      }
      queue := queue + [p];
    }

    method IsActiveConnectionExists(links: Links) returns (r: bool)
      ensures r == AnyActive(links)
    {
      for i := 0 to |links|
        invariant forall j :: 0 <= j < i ==> !links[j].active
      {
        if links[i].active {
          return true;
        }
      }
      return false;
    }

    /** sendMessage; the type and the receiver of the packet do not decide who gets it. */
    method SendMessage(p: Packet, links: Links)
      requires Valid()
      modifies this
      ensures Valid()
      ensures View() == Step(old(View()), Submit(p, links))
      ensures if forall i :: 0 <= i < |links| ==> !links[i].active
              then handed == old(handed) && queue == old(queue) + [p]
              else
                && queue == old(queue)
                && |handed| == |old(handed)| + 1 && handed[..|old(handed)|] == old(handed)
                && handed[|old(handed)|].p == p && TakesExactly(handed[|old(handed)|].takers, links)
    {
      hide TakesExactly;
      TakersExactly(links);
      var active := IsActiveConnectionExists(links);
      if !active {
        SaveToCache(p);
        return;
      }
      var takers: seq<nat> := [];
      for i := 0 to |links|
        invariant takers == Takers(links[..i])
      {
        assert links[..i + 1][..i] == links[..i];
        if links[i].active && links[i].sendType == SEND_ALL {
          takers := takers + [i];
        }
      }
      assert links[..|links|] == links;
      handed := handed + [Handed(p, takers)];
    }

    /** checkConnectionsStatus: any active connection starts the replay of the cache file. */
    method CheckConnectionsStatus(now: Links, links: nat -> Links)
      requires Valid()
      modifies this
      ensures Valid()
      ensures View() == Step(old(View()), Changed(now, links))
      ensures if forall i :: 0 <= i < |now| ==> !now[i].active
              then handed == old(handed) && queue == old(queue)
              else handed == old(handed) + HandedTurns(old(queue), links) && queue == CachedTurns(old(queue), links)
    {
      var flag := IsActiveConnectionExists(now);
      if flag {
        SendFromCache(links);
      }
    }

    /** Replays the cache file; links(i) are the connections when the i-th package is sent. */
    method SendFromCache(links: nat -> Links)
      requires Valid()
      modifies this
      ensures Valid()
      ensures handed == old(handed) + HandedTurns(old(queue), links) && queue == CachedTurns(old(queue), links)
    {
      if cacheFile == None {
        return;
      }
      ghost var q := queue;
      CacheReads(q, cacheFile.value);
      var read := Framing.Deserialize(cacheFile.value);
      var allPackages := read.value;
      cacheFile := None;
      queue := [];
      SendPackages(q, allPackages, links);
    }

    /** The loop of sendFromCache over the packages read from the removed file. */
    method SendPackages(ghost q: seq<Packet>, allPackages: seq<Bytes>, links: nat -> Links)
      requires Valid() && queue == [] && allPackages == CacheItems(q)
      modifies this
      ensures Valid()
      ensures handed == old(handed) + HandedTurns(q, links) && queue == CachedTurns(q, links)
    {
      hide HandedTurns, CachedTurns, CacheItems, Framing.Decoded, AnyActive, FileOf;
      NoTurns(links);
      for i := 0 to |allPackages|
        invariant Valid()
        invariant handed == old(handed) + HandedTurns(Turned(q, i), links)
        invariant queue == CachedTurns(Turned(q, i), links)
      {
        PackageReads(q, i);
        TurnsStep(q, i, links);
        var fields := Framing.Deserialize(allPackages[i]);
        if |fields.value| < 3 {
          continue;
        }
        var p := Packet(fields.value[0], TypeSendFromString(fields.value[1]), fields.value[2]);
        SendMessage(p, links(i));
      }
      assert Turned(q, |allPackages|) == q;
    }
  }
}
