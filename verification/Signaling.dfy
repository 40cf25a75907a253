/** The signaling directory: peers register their addresses and look each other up. */
module Signaling {
  import opened Bytes

  const REGISTER: byte := 0x01
  const REGISTER_ACK: byte := 0x02
  const PEER_REQUEST: byte := 0x03
  const PEER_RESPONSE: byte := 0x04
  const ERROR: byte := 0xFF

  /** The longest message body either side reads. */
  const MAX_BODY: nat := 1024

  /** Five minutes, in nanoseconds: the age beyond which a tick drops an entry. */
  const EXPIRY: int := 300_000_000_000

  /** Strings are byte strings; times are nanoseconds. */
  datatype PeerInfo = PeerInfo(publicAddr: Bytes, localAddr: Bytes, lastSeen: int)

  // ------------------------------------------------------------------------------------------
  // Messages
  // ------------------------------------------------------------------------------------------

  /** Type, four bytes of length, body. */
  function Frame(kind: byte, body: Bytes): Bytes {
    [kind] + BigEndian(4, |body|) + body
  }

  /** A string with two bytes of length, which wrap for long strings. */
  function Field(s: Bytes): (r: Bytes)
    ensures |r| == 2 + |s|
  {
    BigEndian(2, |s|) + s
  }

  function RegisterBody(id: Bytes, pub: Bytes, local: Bytes): Bytes {
    Field(id) + Field(pub) + Field(local)
  }

  /** The string at `pos` and the position behind it. */
  function ReadField(body: Bytes, pos: nat): (r: Option<(Bytes, nat)>)
    ensures r.Some? ==> pos + 2 <= r.value.1 <= |body|
  {
    if pos + 2 > |body| then None else
      var len := FromBigEndian(body[pos..pos + 2]);
      if pos + 2 + len > |body| then None
      else Some((body[pos + 2..pos + 2 + len], pos + 2 + len))
  }

  lemma FieldReads(before: Bytes, s: Bytes, after: Bytes)
    requires |s| < 0x1_0000
    ensures ReadField(before + Field(s) + after, |before|) == Some((s, |before| + 2 + |s|))
  {
    hide FromBigEndian, BigEndian;
    var body, pos := before + Field(s) + after, |before|;
    assert body[pos..pos + 2] == BigEndian(2, |s|);
    BigEndianFits(|s|);
    assert body[pos + 2..pos + 2 + |s|] == s;
  }

  datatype Message = Message(kind: byte, body: Bytes)

  datatype FrameRead = Good(message: Message) | TooLarge | Cut

  /** Reads a frame: five bytes of header, then the body, unless it is announced as too large. */
  function ReadFrame(stream: Bytes): FrameRead {
    if |stream| < 5 then Cut else
      var len := FromBigEndian(stream[1..5]);
      if len > MAX_BODY then TooLarge
      else if |stream| < 5 + len then Cut
      else Good(Message(stream[0], stream[5..5 + len]))
  }

  /** A frame reads back exactly when its body keeps to the limit; a longer one is refused by its header. */
  lemma FrameReads(kind: byte, body: Bytes)
    requires |body| < TWO_32
    ensures ReadFrame(Frame(kind, body)) == if |body| <= 1024 then Good(Message(kind, body)) else TooLarge
  {
    var stream := Frame(kind, body);
    assert stream[1..5] == BigEndian(4, |body|);
    BigEndianFits(|body|);
    assert stream[5..5 + |body|] == body;
  }

  // ------------------------------------------------------------------------------------------
  // The server
  // ------------------------------------------------------------------------------------------

  datatype Registration = Registration(id: Bytes, pub: Bytes, local: Bytes)

  function ParseRegister(body: Bytes): Option<Registration> {
    if |body| < 6 then None else
      match ReadField(body, 0)
      case None => None
      case Some((id, pos)) =>
        match ReadField(body, pos)
        case None => None
        case Some((pub, pos')) =>
          match ReadField(body, pos')
          case None => None
          case Some((local, _)) => Some(Registration(id, pub, local))
  }

  function ParseRequest(body: Bytes): Option<Bytes> {
    match ReadField(body, 0)
    case None => None
    case Some((id, _)) => Some(id)
  }

  function ResponseBody(peer: PeerInfo): Bytes {
    Field(peer.publicAddr) + Field(peer.localAddr)
  }

  type Directory = map<Bytes, PeerInfo>

  /** What a message does to the directory. */
  function AfterMessage(peers: Directory, stream: Bytes, now: int): Directory {
    match Accepted(stream)
    case None => peers
    case Some(reg) => peers[reg.id := PeerInfo(reg.pub, reg.local, now)]
  }

  /** The registration a stream carries, if the server accepts it. */
  function Accepted(stream: Bytes): Option<Registration> {
    match ReadFrame(stream)
    case Good(Message(kind, body)) => if kind == REGISTER then ParseRegister(body) else None
    case _ => None
  }

  /** What a cleanup tick leaves. */
  function AfterTick(peers: Directory, now: int): Directory {
    map id | id in peers && now - peers[id].lastSeen <= EXPIRY :: peers[id]
  }

  /** The answer to a lookup. */
  function LookupReply(peers: Directory, id: Bytes): Bytes {
    if id in peers then Frame(PEER_RESPONSE, ResponseBody(peers[id])) else Frame(ERROR, NOT_FOUND)
  }

  class SignalingServer {
    var peers: Directory

    constructor ()
      ensures peers == map[]
    {
      peers := map[];
    }

    /** One connection: a frame in, a frame out; nothing comes back for a cut-off one. */
    method HandleConnection(stream: Bytes, now: int) returns (reply: Option<Bytes>)
      modifies this
      ensures peers == AfterMessage(old(peers), stream, now)
      ensures Accepted(stream).Some? ==> reply == Some(Frame(REGISTER_ACK, Accepted(stream).value.id))
      ensures forall id :: IsLookup(stream, id) ==>
                reply == Some(LookupReply(old(peers), id))
      ensures reply == None <==> ReadFrame(stream) == Cut
      ensures reply.Some? && Accepted(stream).None? && (forall id :: !IsLookup(stream, id)) ==>
                reply == Some(Frame(ERROR, MALFORMED))
    {
      match ReadFrame(stream)
      case Cut => return None;
      case TooLarge => return Some(Frame(ERROR, MALFORMED));
      case Good(Message(kind, body)) =>
        if kind == REGISTER {
          reply := HandleRegister(body, now);
        } else if kind == PEER_REQUEST {
          assert ParseRequest(body).Some? ==> IsLookup(stream, ParseRequest(body).value);
          reply := HandlePeerRequest(body);
        } else {
          reply := Some(Frame(ERROR, MALFORMED));
        }
    }

    method HandleRegister(body: Bytes, now: int) returns (reply: Option<Bytes>)
      modifies this
      ensures match ParseRegister(body)
              case None => peers == old(peers) && reply == Some(Frame(ERROR, MALFORMED))
              case Some(reg) =>
                && peers == old(peers)[reg.id := PeerInfo(reg.pub, reg.local, now)]
                && reply == Some(Frame(REGISTER_ACK, reg.id))
    {
      if |body| < 6 {
        return Some(Frame(ERROR, MALFORMED));
      }
      var pos := 0;
      var id := ReadField(body, pos);
      if id.None? {
        return Some(Frame(ERROR, MALFORMED));
      }
      pos := id.value.1;
      var pub := ReadField(body, pos);
      if pub.None? {
        return Some(Frame(ERROR, MALFORMED));
      }
      pos := pub.value.1;
      var local := ReadField(body, pos);
      if local.None? {
        return Some(Frame(ERROR, MALFORMED));
      }
      peers := peers[id.value.0 := PeerInfo(pub.value.0, local.value.0, now)];
      return Some(Frame(REGISTER_ACK, id.value.0));
    }

    method HandlePeerRequest(body: Bytes) returns (reply: Option<Bytes>)
      ensures match ParseRequest(body)
              case None => reply == Some(Frame(ERROR, MALFORMED))
              case Some(id) => reply == Some(LookupReply(peers, id))
    {
      var id := ReadField(body, 0);
      if id.None? {
        return Some(Frame(ERROR, MALFORMED));
      }
      if id.value.0 !in peers {
        return Some(Frame(ERROR, NOT_FOUND));
      }
      return Some(Frame(PEER_RESPONSE, ResponseBody(peers[id.value.0])));
    }

    /** One cleanup tick: drops every entry that is too old, in any order. */
    method Cleanup(now: int)
      modifies this
      ensures peers == AfterTick(old(peers), now)
      ensures forall id :: id in peers <==> id in old(peers) && now - old(peers)[id].lastSeen <= 300_000_000_000
      ensures forall id :: id in peers ==> peers[id] == old(peers)[id]
    {
      var todo := peers.Keys;
      while todo != {}
        invariant todo <= old(peers).Keys
        invariant forall id :: id in peers <==>
                    id in old(peers) && (id in todo || now - old(peers)[id].lastSeen <= EXPIRY)
        invariant forall id :: id in peers ==> peers[id] == old(peers)[id]
        decreases todo
      {
        var id :| id in todo;
        if now - peers[id].lastSeen > EXPIRY {
          peers := peers - {id};
        }
        todo := todo - {id};
      }
    }
  }

  /** The error texts: one that clients look for, one that stands for all the others. */
  const NOT_FOUND: Bytes := [112, 101, 101, 114, 32, 110, 111, 116, 32, 102, 111, 117, 110, 100]
  const MALFORMED: Bytes := [105, 110, 118, 97, 108, 105, 100]

  ghost predicate IsLookup(stream: Bytes, id: Bytes) {
    var frame := ReadFrame(stream);
    frame.Good? && frame.message.kind == PEER_REQUEST && ParseRequest(frame.message.body) == Some(id)
  }

  // ------------------------------------------------------------------------------------------
  // The client
  // ------------------------------------------------------------------------------------------

  function RegisterMessage(id: Bytes, pub: Bytes, local: Bytes): Bytes {
    Frame(REGISTER, RegisterBody(id, pub, local))
  }

  function LookupMessage(id: Bytes): Bytes {
    Frame(PEER_REQUEST, Field(id))
  }

  datatype Lookup = Found(pub: Bytes, local: Bytes) | NotFound | Failed

  /** Reads the server's answer to a lookup. */
  function ReadLookup(stream: Bytes): Lookup {
    match ReadFrame(stream)
    case Good(Message(kind, body)) =>
      if kind == ERROR then if body == NOT_FOUND then NotFound else Failed
      else if kind != PEER_RESPONSE then Failed
      else ParsePeerResponse(body)
    case _ => Failed
  }

  function ParsePeerResponse(body: Bytes): Lookup {
    if |body| < 4 then Failed else
      match ReadField(body, 0)
      case None => Failed
      case Some((pub, pos)) =>
        match ReadField(body, pos)
        case None => Failed
        case Some((local, _)) => Found(pub, local)
  }

  // ------------------------------------------------------------------------------------------
  // Messages arrive
  // ------------------------------------------------------------------------------------------

  lemma RegisterBodyParses(id: Bytes, pub: Bytes, local: Bytes, rest: Bytes)
    requires |id| < 0x1_0000 && |pub| < 0x1_0000 && |local| < 0x1_0000
    ensures ParseRegister(RegisterBody(id, pub, local) + rest) == Some(Registration(id, pub, local))
  {
    hide Field, ReadField;
    var f, g, h := Field(id), Field(pub), Field(local);
    var body := f + g + h + rest;
    assert body == [] + f + (g + h + rest);
    FieldReads([], id, g + h + rest);
    assert body == f + g + (h + rest);
    FieldReads(f, pub, h + rest);
    FieldReads(f + g, local, rest);
  }

  lemma ReadFieldExact(body: Bytes, pos: nat)
    requires ReadField(body, pos).Some?
    ensures var (s, next) := ReadField(body, pos).value;
            |s| < 0x1_0000 && next == pos + 2 + |s| && body[pos..next] == Field(s)
  {
    var len := body[pos..pos + 2];
    FromBigEndianBounds(len);
    BytesRoundTrip(len);
    hide FromBigEndian, BigEndian;
    var (s, next) := ReadField(body, pos).value;
    assert body[pos..next] == len + s;
  }

  /** A body registers exactly what it spells: three strings with their lengths, whatever comes behind them. */
  lemma RegisterExact(body: Bytes, reg: Registration)
    ensures ParseRegister(body) == Some(reg)
            <==> && |reg.id| < 0x1_0000 && |reg.pub| < 0x1_0000 && |reg.local| < 0x1_0000
                 && RegisterBody(reg.id, reg.pub, reg.local) <= body
  {
    hide ParseRegister, RegisterBody;
    if ParseRegister(body) == Some(reg) {
      RegisterSpells(body, reg);
    }
    var spelled := RegisterBody(reg.id, reg.pub, reg.local);
    if |reg.id| < 0x1_0000 && |reg.pub| < 0x1_0000 && |reg.local| < 0x1_0000 && spelled <= body {
      RegisterBodyParses(reg.id, reg.pub, reg.local, body[|spelled|..]);
      assert spelled + body[|spelled|..] == body;
    }
  }

  lemma RegisterSpells(body: Bytes, reg: Registration)
    requires ParseRegister(body) == Some(reg)
    ensures |reg.id| < 0x1_0000 && |reg.pub| < 0x1_0000 && |reg.local| < 0x1_0000
    ensures RegisterBody(reg.id, reg.pub, reg.local) <= body
  {
    hide Field, ReadField;
    ReadFieldExact(body, 0);
    var p := ReadField(body, 0).value.1;
    ReadFieldExact(body, p);
    var q := ReadField(body, p).value.1;
    ReadFieldExact(body, q);
    var r := ReadField(body, q).value.1;
    assert body[..r] == body[0..p] + body[p..q] + body[q..r];
  }

  /** The same for a lookup. */
  lemma LookupSpells(body: Bytes, id: Bytes)
    ensures ParseRequest(body) == Some(id) <==> |id| < 0x1_0000 && Field(id) <= body
    ensures Field(id) == BigEndian(2, |id|) + id
  {
    hide BigEndian, FromBigEndian;
    if ParseRequest(body) == Some(id) {
      ReadFieldExact(body, 0);
      FieldStarts(body, id, 2 + |id|);
    }
    if |id| < 0x1_0000 && Field(id) <= body {
      FieldFirst(body, id);
    }
  }

  lemma FieldStarts(body: Bytes, id: Bytes, n: nat)
    requires n <= |body| && body[0..n] == Field(id)
    ensures Field(id) <= body
  {
    hide Field;
  }

  lemma FieldFirst(body: Bytes, id: Bytes)
    requires |id| < 0x1_0000 && Field(id) <= body
    ensures ReadField(body, 0) == Some((id, 2 + |id|))
  {
    hide Field, ReadField;
    var rest := body[|Field(id)|..];
    assert body == [] + Field(id) + rest;
    FieldReads([], id, rest);
  }

  /** A registration is accepted, with exactly what the client put in, if and only if it keeps to the server's
      limit. */
  lemma RegisterArrives(id: Bytes, pub: Bytes, local: Bytes)
    requires 6 + |id| + |pub| + |local| < TWO_32
    ensures Accepted(RegisterMessage(id, pub, local)) ==
            if 6 + |id| + |pub| + |local| <= 1024 then Some(Registration(id, pub, local)) else None
  {
    var body := RegisterBody(id, pub, local);
    FrameReads(REGISTER, body);
    if |body| <= MAX_BODY {
      RegisterBodyParses(id, pub, local, []);
      assert body + [] == body;
    }
  }

  lemma LookupArrives(id: Bytes)
    requires 2 + |id| <= 1024
    ensures IsLookup(LookupMessage(id), id)
  {
    FrameReads(PEER_REQUEST, Field(id));
    hide ReadField, ReadFrame, Frame, BigEndian, Field;
    FieldReads([], id, []);
    assert [] + Field(id) + [] == Field(id);
  }

  /** The answer for an entry within the client's limit reads back as the entry's addresses. */
  lemma ResponseArrives(peer: PeerInfo)
    requires 4 + |peer.publicAddr| + |peer.localAddr| <= 1024
    ensures ReadLookup(Frame(PEER_RESPONSE, ResponseBody(peer))) == Found(peer.publicAddr, peer.localAddr)
  {
    var body := ResponseBody(peer);
    FrameReads(PEER_RESPONSE, body);
    assert body == [] + Field(peer.publicAddr) + Field(peer.localAddr);
    FieldReads([], peer.publicAddr, Field(peer.localAddr));
    assert body == Field(peer.publicAddr) + Field(peer.localAddr) + [];
    FieldReads(Field(peer.publicAddr), peer.localAddr, []);
  }

  lemma NotFoundArrives()
    ensures ReadLookup(Frame(ERROR, NOT_FOUND)) == NotFound
  {
    FrameReads(ERROR, NOT_FOUND);
  }

  // ------------------------------------------------------------------------------------------
  // Whole runs
  // ------------------------------------------------------------------------------------------

  /** What happens to a server: connections carrying any bytes, and cleanup ticks. */
  datatype Event = Connection(stream: Bytes, time: int) | Tick(time: int)

  function Play(events: seq<Event>): Directory {
    if events == [] then map[] else
      var last := |events| - 1;
      match events[last]
      case Connection(stream, time) => AfterMessage(Play(events[..last]), stream, time)
      case Tick(time) => AfterTick(Play(events[..last]), time)
  }

  /** Event `k` is an accepted registration of `id`. */
  predicate Registers(events: seq<Event>, k: nat, id: Bytes)
    requires k < |events|
  {
    events[k].Connection? && Accepted(events[k].stream).Some? && Accepted(events[k].stream).value.id == id
  }

  function EntryOf(events: seq<Event>, k: nat, id: Bytes): PeerInfo
    requires k < |events| && Registers(events, k, id)
  {
    var reg := Accepted(events[k].stream).value;
    PeerInfo(reg.pub, reg.local, events[k].time)
  }

  /** Event `k` is the latest accepted registration of `id`, and no tick since found it too old. */
  ghost predicate Current(events: seq<Event>, k: nat, id: Bytes) {
    && k < |events| && Registers(events, k, id)
    && (forall j :: k < j < |events| ==> !Registers(events, j, id))
    && (forall j :: k < j < |events| && events[j].Tick? ==> events[j].time - events[k].time <= 300_000_000_000)
  }

  lemma CurrentEarlier(events: seq<Event>, k: nat, id: Bytes)
    requires events != [] && k < |events| - 1
    ensures var init := events[..|events| - 1];
            Current(events, k, id) <==>
              && Current(init, k, id) && !Registers(events, |events| - 1, id)
              && (events[|events| - 1].Tick? ==> events[|events| - 1].time - events[k].time <= EXPIRY)
  {
    hide Accepted;
    var init := events[..|events| - 1];
    forall j: nat | j < |init| ensures init[j] == events[j] && (Registers(init, j, id) <==> Registers(events, j, id)) {}
  }

  /** The directory, without replaying the run: `id` is there exactly when some registration of it is current,
      and its entry is what that registration said. */
  lemma {:induction false} DirectoryIsCurrent(events: seq<Event>, id: Bytes)
    ensures id in Play(events) <==> exists k :: Current(events, k, id)
    ensures forall k :: Current(events, k, id) ==> Play(events)[id] == EntryOf(events, k, id)
  {
    hide Accepted, AfterTick;
    if events != [] {
      var last := |events| - 1;
      var init := events[..last];
      DirectoryIsCurrent(init, id);
      forall k: nat | k < last ensures Registers(init, k, id) <==> Registers(events, k, id) {}
      if Registers(events, last, id) {
        assert Current(events, last, id);
        assert forall k :: Current(events, k, id) ==> k == last;
      } else {
        forall k: nat | k < last
          ensures Current(events, k, id) <==>
                    Current(init, k, id) && (events[last].Tick? ==> events[last].time - events[k].time <= EXPIRY)
        {
          CurrentEarlier(events, k, id);
        }
        OthersUntouched(events, id);
        if k :| Current(init, k, id) {
          assert Play(init)[id] == EntryOf(init, k, id);
        }
      }
    }
  }

  /** The last event, if it does not register `id`, keeps its entry or drops it for age. */
  lemma OthersUntouched(events: seq<Event>, id: Bytes)
    requires events != [] && !Registers(events, |events| - 1, id)
    ensures var last := |events| - 1; var before := Play(events[..last]);
            && (id in Play(events) <==>
                  id in before && (events[last].Tick? ==> events[last].time - before[id].lastSeen <= EXPIRY))
            && (id in Play(events) ==> Play(events)[id] == before[id])
  {
  }

  /** Whatever bytes a server accepts as a registration, the answers about it keep to the client's limit. */
  lemma AcceptedFits(stream: Bytes)
    ensures var reg := Accepted(stream);
            reg.Some? ==> 6 + |reg.value.id| + |reg.value.pub| + |reg.value.local| <= 1024
  {
  }

  /** The directory law, over every run of connections and ticks and for every name: a lookup decodes to the
      addresses of the current registration, and to "not found" when there is none. */
  lemma LookupExact(events: seq<Event>, id: Bytes)
    ensures forall k :: Current(events, k, id) ==>
              var e := EntryOf(events, k, id);
              ReadLookup(LookupReply(Play(events), id)) == Found(e.publicAddr, e.localAddr)
    ensures !(exists k :: Current(events, k, id)) ==>
              ReadLookup(LookupReply(Play(events), id)) == NotFound
  {
    DirectoryIsCurrent(events, id);
    NotFoundArrives();
    hide ReadLookup, Accepted;
    forall k: nat | Current(events, k, id)
      ensures var e := EntryOf(events, k, id);
              ReadLookup(LookupReply(Play(events), id)) == Found(e.publicAddr, e.localAddr)
    {
      AcceptedFits(events[k].stream);
      ResponseArrives(EntryOf(events, k, id));
    }
  }

  /** The client's messages in numbers: a type, four bytes of length, and strings with two bytes of length each. */
  lemma RequestBytes(id: Bytes, pub: Bytes, local: Bytes)
    ensures RegisterMessage(id, pub, local)
            == [0x01] + BigEndian(4, 6 + |id| + |pub| + |local|)
               + ((BigEndian(2, |id|) + id) + (BigEndian(2, |pub|) + pub) + (BigEndian(2, |local|) + local))
    ensures LookupMessage(id) == [0x03] + BigEndian(4, 2 + |id|) + (BigEndian(2, |id|) + id)
  {
    hide BigEndian;
    var body := RegisterBody(id, pub, local);
    assert |body| == 6 + |id| + |pub| + |local|;
    assert body == (BigEndian(2, |id|) + id) + (BigEndian(2, |pub|) + pub) + (BigEndian(2, |local|) + local);
    hide RegisterBody, Field;
    assert Frame(REGISTER, body) == [0x01] + BigEndian(4, |body|) + body;
  }

  /** The server's messages in numbers. */
  lemma ReplyBytes(id: Bytes, peer: PeerInfo)
    ensures Frame(REGISTER_ACK, id) == [0x02] + BigEndian(4, |id|) + id
    ensures LookupReply(map[id := peer], id)
            == [0x04] + BigEndian(4, 4 + |peer.publicAddr| + |peer.localAddr|)
               + ((BigEndian(2, |peer.publicAddr|) + peer.publicAddr)
                  + (BigEndian(2, |peer.localAddr|) + peer.localAddr))
    ensures LookupReply(map[], id) == [0xFF] + BigEndian(4, 14) + NOT_FOUND
    ensures forall i :: 0 <= i < 14 ==> NOT_FOUND[i] == "peer not found"[i] as int
  {
    hide BigEndian;
  }

  /** A registration that a tick finds more than five minutes old is gone, until the name registers again. */
  lemma GoneAfterFiveMinutes(events: seq<Event>, k: nat, j: nat, id: Bytes)
    requires k < j < |events| && events[j].Tick? && events[j].time - events[k].time > 300_000_000_000
    requires Registers(events, k, id)
    requires forall l :: k < l < |events| ==> !Registers(events, l, id)
    ensures ReadLookup(LookupReply(Play(events), id)) == NotFound
  {
    hide ReadLookup, Registers, Play, LookupReply, Current;
    forall l: nat ensures !Current(events, l, id) {
      NotCurrent(events, k, j, id, l);
    }
    LookupExact(events, id);
  }

  lemma NotCurrent(events: seq<Event>, k: nat, j: nat, id: Bytes, l: nat)
    requires k < j < |events| && events[j].Tick? && events[j].time - events[k].time > 300_000_000_000
    requires Registers(events, k, id)
    requires forall l :: k < l < |events| ==> !Registers(events, l, id)
    ensures !Current(events, l, id)
  {
    hide Registers;
  }

  ghost predicate Chronological(events: seq<Event>, now: int) {
    && (forall i, j :: 0 <= i < j < |events| ==> events[i].time <= events[j].time)
    && (forall i :: 0 <= i < |events| ==> events[i].time <= now)
  }

  /** A peer that registered within the limit and did not register again is found, with exactly the addresses
      it gave, for five minutes. */
  lemma FoundForFiveMinutes(events: seq<Event>, k: nat, id: Bytes, pub: Bytes, local: Bytes, now: int)
    requires k < |events| && 6 + |id| + |pub| + |local| <= 1024
    requires events[k].Connection? && events[k].stream == RegisterMessage(id, pub, local)
    requires forall j :: k < j < |events| ==> !Registers(events, j, id)
    requires Chronological(events, now) && now - events[k].time <= 300_000_000_000
    ensures IsLookup(LookupMessage(id), id)
    ensures ReadLookup(LookupReply(Play(events), id)) == Found(pub, local)
  {
    LookupArrives(id);
    RegisterArrives(id, pub, local);
    LookupExact(events, id);
    assert Current(events, k, id);
  }
}
