/** The server loop: which received frames are answered, and with what. */
module DhcpServer {
  import opened Common
  import opened Dhcp

  // ----- building a reply -----

  /** The first `k` items of the list have been written into a zeroed buffer. */
  ghost predicate Prefix(buf: array<byte>, pos: nat, items: seq<Item>, k: nat)
    reads buf
  {
    && buf.Length == OPTIONS_LEN && pos <= OPTIONS_LEN && k <= |items| && ListOk(items)
    && buf[..pos] == Encode(items[..k]) && buf[pos..] == Zeros(OPTIONS_LEN - pos)
  }

  /** opt_put of item `k`. */
  method AppendOption(buf: array<byte>, pos: nat, code: byte, data: seq<byte>, ghost items: seq<Item>, ghost k: nat) returns (pos': nat)
    requires Prefix(buf, pos, items, k) && k < |items| && items[k] == Opt(code, data)
    requires pos + 2 + |data| <= OPTIONS_LEN
    modifies buf
    ensures pos' == pos + 2 + |data| && Prefix(buf, pos', items, k + 1)
  {
    EncodeAppend(items[..k], items[k]);
    assert items[..k] + [items[k]] == items[..k + 1];
    var ok;
    pos', ok := OptPut(buf, pos, code, data);
    assert buf[pos'..] == old(buf[pos..])[2 + |data|..];
  }

  lemma ItemsAre(ctx: Context, msgType: byte)
    ensures var its := ReplyItems(ctx, msgType);
      && |its| == (if Dns(ctx).Some? then 8 else 7)
      && its[0] == Opt(OPT_MSG_TYPE, [msgType]) && its[1] == Opt(OPT_SERVER_ID, ctx.gwIp)
      && its[2] == Opt(OPT_LEASE_TIME, LEASE) && its[3] == Opt(OPT_RENEWAL_T1, T1)
      && its[4] == Opt(OPT_REBIND_T2, T2) && its[5] == Opt(OPT_SUBNET_MASK, ctx.netmask)
      && its[6] == Opt(OPT_ROUTER, ctx.gwIp)
      && (Dns(ctx).Some? ==> its[7] == Opt(OPT_DNS, Dns(ctx).value))
  {
  }

  /** Up to two servers, packed as one option. */
  method PutDns(options: array<byte>, pos: nat, ctx: Context, ghost items: seq<Item>) returns (pos': nat)
    requires Prefix(options, pos, items, 7) && pos <= 39
    requires |items| == (if Dns(ctx).Some? then 8 else 7) && (Dns(ctx).Some? ==> items[7] == Opt(OPT_DNS, Dns(ctx).value))
    modifies options
    ensures pos' <= 49 && Prefix(options, pos', items, |items|)
  {
    pos' := pos;
    if ctx.dns1 != NO_ADDR {
      var dns: seq<byte> := ctx.dns1;
      assert ctx.dns1 + [] == ctx.dns1;
      if ctx.dns2 != NO_ADDR {
        dns := dns + ctx.dns2;
      }
      pos' := AppendOption(options, pos, OPT_DNS, dns, items, 7);
    }
  }

  lemma StartsEmpty(options: array<byte>, items: seq<Item>)
    requires options.Length == OPTIONS_LEN && options[..] == Zeros(OPTIONS_LEN) && ListOk(items)
    ensures Prefix(options, 0, items, 0)
  {
    assert options[0..] == options[..] && items[..0] == [];
  }

  method PutOptions(options: array<byte>, msgType: byte, ctx: Context) returns (pos: nat)
    requires options.Length == OPTIONS_LEN && options[..] == Zeros(OPTIONS_LEN)
    modifies options
    ensures pos <= 49 && Prefix(options, pos, ReplyItems(ctx, msgType), |ReplyItems(ctx, msgType)|)
  {
    hide Prefix, ReplyItems, Dns;
    ghost var items := ReplyItems(ctx, msgType);
    pos := 0;
    StartsEmpty(options, items);
    ItemsAre(ctx, msgType);
    pos := AppendOption(options, pos, OPT_MSG_TYPE, [msgType], items, 0);
    pos := AppendOption(options, pos, OPT_SERVER_ID, ctx.gwIp, items, 1);
    pos := AppendOption(options, pos, OPT_LEASE_TIME, LEASE, items, 2);
    pos := AppendOption(options, pos, OPT_RENEWAL_T1, T1, items, 3);
    pos := AppendOption(options, pos, OPT_REBIND_T2, T2, items, 4);
    pos := AppendOption(options, pos, OPT_SUBNET_MASK, ctx.netmask, items, 5);
    pos := AppendOption(options, pos, OPT_ROUTER, ctx.gwIp, items, 6);
    pos := PutDns(options, pos, ctx, items);
  }

  lemma Closed(before: seq<byte>, after: seq<byte>, pos: nat)
    requires |before| == OPTIONS_LEN && pos < OPTIONS_LEN && after == before[pos := OPT_END]
    requires before[pos..] == Zeros(OPTIONS_LEN - pos)
    ensures after == before[..pos] + ([OPT_END] + Zeros(OPTIONS_LEN - pos - 1))
  {
    assert before[pos + 1..] == before[pos..][1..];
  }

  method BuildReply(req: Request, msgType: byte, ctx: Context) returns (reply: Reply)
    ensures reply == ReplyOf(req, msgType, ctx)
  {
    var options := new byte[OPTIONS_LEN](_ => 0);
    assert options[..] == Zeros(OPTIONS_LEN);
    var pos := PutOptions(options, msgType, ctx);
    ghost var items := ReplyItems(ctx, msgType);
    assert items[..|items|] == items;
    ghost var before := options[..];
    options[pos] := OPT_END;
    Closed(before, options[..], pos);
    reply := Reply(2, 1, req.hlen, 0, req.xid, req.flags, NO_ADDR, ctx.offerIp, ctx.gwIp, NO_ADDR, req.chaddr,
                   options[..], HEADER_LEN + pos + 1);
  }

  // ----- the frame around a reply -----

  function BigEndian(n: nat): seq<byte>
    requires n < 65536
  {
    [n / 256, n % 256]
  }

  const BROADCAST: Addr := [255, 255, 255, 255]

  /** The IPv4 header of a reply of `len` bytes, its check field still zero. */
  function IpHeader(ctx: Context, len: nat): (h: seq<byte>)
    requires len < 65000
    ensures |h| == 20 && h[10] == 0 && h[11] == 0
  {
    [0x45, 0x10] + BigEndian(28 + len) + [0, 0, 0, 0, 64, 17, 0, 0] + ctx.gwIp + BROADCAST
  }

  /** The header goes out with a checksum that makes it sum to all ones. */
  method FinishIpHeader(ctx: Context, len: nat) returns (h: seq<byte>)
    requires len < 65000
    ensures |h| == 20 && h[..10] == IpHeader(ctx, len)[..10] && h[12..] == IpHeader(ctx, len)[12..]
    ensures h[0] == 0x45 && (h[2] as int) * 256 + (h[3] as int) == 20 + 8 + len && h[8] == 64 && h[9] == 17
    ensures h[12..16] == ctx.gwIp && h[16..20] == [255, 255, 255, 255]
    ensures Fold(WordSum(h) % 0x1_0000_0000) == 0xFFFF && Fold(BigSum(h)) == 0xFFFF
  {
    hide WordSum, BigSum, Fold;
    var ip := IpHeader(ctx, len);
    var c := Checksum(ip);
    ChecksumVerifies(ip, 10, c);
    ReceiverVerifies(ip, 10, c);
    h := Store(ip, 10, c);
    assert h[12..16] == ip[12..16] && h[16..20] == ip[16..20];
  }

  // ----- which frames are requests -----

  datatype Rx = Rx(ifindex: int, outgoing: bool, bytes: seq<byte>)

  const ETH_HLEN := 14
  const PACKET_LEN := 548   // HEADER_LEN + OPTIONS_LEN
  const MAGIC: seq<byte> := [0x63, 0x82, 0x53, 0x63]

  /** The DHCP message in a frame, cut to the size of a packet: the frame came in
      on our own interface and carries IPv4, UDP and port 67. */
  function Payload(ifindex: int, rx: Rx): Option<seq<byte>> {
    var b := rx.bytes;
    if rx.ifindex != ifindex || rx.outgoing || |b| < ETH_HLEN + 28 || b[12..14] != [8, 0] then None else
    var ihl := b[ETH_HLEN] % 16;
    if b[ETH_HLEN + 9] != 17 || ihl < 5 then None else
    var udp := ETH_HLEN + ihl * 4;
    if |b| < udp + 8 || b[udp + 2..udp + 4] != [0, 67] then None else
    var len := |b| - udp - 8;
    Some(b[udp + 8..udp + 8 + if len > PACKET_LEN then PACKET_LEN else len])
  }

  /** A BOOTP request with the DHCP cookie. */
  function Parse(ifindex: int, rx: Rx): Option<Request> {
    match Payload(ifindex, rx)
    case None => None
    case Some(p) =>
      if |p| < HEADER_LEN || p[236..240] != MAGIC || p[0] != 1 then None
      else Some(Request(p[2], p[4..8], p[10..12], p[28..44], p[HEADER_LEN..]))
  }

  /** A frame taken apart: two MAC addresses, an IP header as long as it says, a UDP
      header and the DHCP message. */
  datatype Layers = Layers(macs: seq<byte>, ip: seq<byte>, udp: seq<byte>, message: seq<byte>)

  ghost predicate Carries(b: seq<byte>, l: Layers) {
    && b == l.macs + [8, 0] + l.ip + l.udp + l.message
    && |l.macs| == 12
    && |l.ip| >= 20 && |l.ip| == 4 * (l.ip[0] % 16) && l.ip[9] == 17
    && |l.udp| == 8 && l.udp[2] == 0 && l.udp[3] == 67
  }

  /** The message is a BOOTP request with the cookie, `req` its fields; what does not
      fit a packet is not read. */
  ghost predicate Asks(m: seq<byte>, req: Request) {
    && |m| >= 240 && m[0] == 1 && m[236..240] == [99, 130, 83, 99]
    && req.hlen == m[2] && req.xid == m[4..8] && req.flags == m[10..12] && req.chaddr == m[28..44]
    && req.options == m[240..if |m| > 548 then 548 else |m|]
  }

  ghost predicate IsRequest(ifindex: int, rx: Rx, req: Request) {
    && rx.ifindex == ifindex && !rx.outgoing
    && exists l: Layers :: Carries(rx.bytes, l) && Asks(l.message, req)
  }

  lemma LayersFound(b: seq<byte>, l: Layers)
    requires Carries(b, l)
    ensures |b| >= 42 && b[12..14] == [8, 0] && b[14] % 16 >= 5 && b[14 + 9] == 17
    ensures var udp := 14 + 4 * (b[14] % 16);
      |b| >= udp + 8 && b[udp + 2..udp + 4] == [0, 67] && b[udp + 8..] == l.message
  {
    var udp := 14 + |l.ip|;
    assert b[14] == l.ip[0] && b[23] == l.ip[9];
    assert b == (l.macs + [8, 0] + l.ip + l.udp) + l.message;
    assert b[udp + 2] == l.udp[2] && b[udp + 3] == l.udp[3];
  }

  /** The part of a message that fits a packet. */
  function Read(m: seq<byte>): seq<byte> {
    if |m| > 548 then m[..548] else m
  }

  lemma PayloadOf(ifindex: int, rx: Rx, l: Layers)
    requires rx.ifindex == ifindex && !rx.outgoing && Carries(rx.bytes, l)
    ensures Payload(ifindex, rx) == Some(Read(l.message))
  {
    hide Carries;
    var b, m := rx.bytes, l.message;
    LayersFound(b, l);
    var at := 14 + 4 * (b[14] % 16) + 8;
    assert |m| == |b[at..]| == |b| - at;
    var n := if |m| > 548 then 548 else |m|;
    assert b[at..at + n] == b[at..][..n];
    assert m[..n] == Read(m);
  }

  lemma FrameSplits(b: seq<byte>, udp: nat)
    requires 14 <= udp && udp + 8 <= |b|
    ensures b == b[..12] + b[12..14] + b[14..udp] + b[udp..udp + 8] + b[udp + 8..]
  {
  }

  lemma LayersOf(ifindex: int, rx: Rx) returns (l: Layers)
    requires Payload(ifindex, rx).Some?
    ensures rx.ifindex == ifindex && !rx.outgoing && Carries(rx.bytes, l)
  {
    var b := rx.bytes;
    var udp := 14 + 4 * (b[14] % 16);
    FrameSplits(b, udp);
    l := Layers(b[..12], b[14..udp], b[udp..udp + 8], b[udp + 8..]);
    assert l.ip[0] == b[14] && l.ip[9] == b[23] && |l.ip| == 4 * (b[14] % 16);
    var port := b[udp + 2..udp + 4];
    assert port[0] == b[udp + 2] == l.udp[2] && port[1] == b[udp + 3] == l.udp[3];
  }

  lemma ReadKeeps(m: seq<byte>, i: nat, j: nat)
    requires i <= j <= |Read(m)|
    ensures Read(m)[i..j] == m[i..j]
  {
  }

  lemma RequestRead(m: seq<byte>, req: Request)
    ensures Asks(m, req) <==>
      var p := Read(m);
      && |p| >= HEADER_LEN && p[236..240] == MAGIC && p[0] == 1
      && req == Request(p[2], p[4..8], p[10..12], p[28..44], p[HEADER_LEN..])
  {
    var p := Read(m);
    if |m| >= 240 {
      ReadKeeps(m, 236, 240);
      ReadKeeps(m, 4, 8);
      ReadKeeps(m, 10, 12);
      ReadKeeps(m, 28, 44);
      ReadKeeps(m, 240, |p|);
    }
  }

  /** Exactly which frames are read as which requests. */
  lemma ParsedExactly(ifindex: int, rx: Rx, req: Request)
    ensures Parse(ifindex, rx) == Some(req) <==> IsRequest(ifindex, rx, req)
  {
    hide Payload, Carries, Asks, Read;
    if IsRequest(ifindex, rx, req) {
      var l: Layers :| Carries(rx.bytes, l) && Asks(l.message, req);
      PayloadOf(ifindex, rx, l);
      RequestRead(l.message, req);
    }
    if Parse(ifindex, rx) == Some(req) {
      var l := LayersOf(ifindex, rx);
      PayloadOf(ifindex, rx, l);
      RequestRead(l.message, req);
    }
  }

  /** The message type, or 0 when the option is there but empty. */
  function MessageType(req: Request): Option<byte> {
    match Lookup(req.options, OPT_MSG_TYPE)
    case None => None
    case Some(v) => Some(if v == [] then 0 else v[0])
  }

  /** The client asks another server: it names one, properly, and it is not us. */
  predicate AsksAnother(req: Request, ctx: Context) {
    match Lookup(req.options, OPT_SERVER_ID)
    case None => false
    case Some(v) => |v| == 4 && v != ctx.gwIp
  }

  /** The message type a request is answered with, if it is answered. */
  function AnswerType(req: Request, ctx: Context): Option<byte> {
    match MessageType(req)
    case None => None
    case Some(t) =>
      if t == DISCOVER then Some(OFFER)
      else if t == REQUEST && !AsksAnother(req, ctx) then Some(ACK)
      else None
  }

  function Answer(ctx: Context, ifindex: int, rx: Rx): Option<Reply> {
    match Parse(ifindex, rx)
    case None => None
    case Some(req) =>
      match AnswerType(req, ctx)
      case None => None
      case Some(t) => Some(ReplyOf(req, t, ctx))
  }

  // ----- what is answered, in terms of the options received -----

  /** The message type option is there and starts with `t`. */
  ghost predicate HasType(req: Request, t: byte) {
    var v := Lookup(req.options, 53);
    v.Some? && v.value != [] && v.value[0] == t
  }

  /** Section 9.6 of RFC 2132: DISCOVER is 1, OFFER 2, REQUEST 3, ACK 5. */
  ghost predicate IsDiscover(req: Request) {
    HasType(req, 1)
  }

  ghost predicate IsDhcpRequest(req: Request) {
    HasType(req, 3)
  }

  /** No server is named, or not by an address, or it is the gateway. */
  ghost predicate ForUs(req: Request, ctx: Context) {
    var v := Lookup(req.options, 54);
    v.None? || |v.value| != 4 || v.value == ctx.gwIp
  }

  /** A request that deserves an answer: a DISCOVER, or a REQUEST for this server. */
  ghost predicate Proper(req: Request, ctx: Context) {
    IsDiscover(req) || (IsDhcpRequest(req) && ForUs(req, ctx))
  }

  /** A reply to `req` as sections 4.3.1 and 4.3.2 of RFC 2131 allow: OFFER to a
      DISCOVER, ACK to a REQUEST for this server, with the one address offered and
      the client's own fields echoed. */
  ghost predicate Answers(req: Request, r: Reply, ctx: Context) {
    && r.op == 2 && r.htype == 1 && r.hlen == req.hlen && r.hops == 0
    && r.xid == req.xid && r.flags == req.flags && r.chaddr == req.chaddr
    && r.ciaddr == NO_ADDR && r.yiaddr == ctx.offerIp && r.siaddr == ctx.gwIp && r.giaddr == NO_ADDR
    && (|| (Lookup(r.options, 53) == Some([2]) && IsDiscover(req))
        || (Lookup(r.options, 53) == Some([5]) && IsDhcpRequest(req) && ForUs(req, ctx)))
  }

  /** Exactly which requests are answered, and how. */
  lemma AnsweredExactly(req: Request, ctx: Context)
    ensures AnswerType(req, ctx).Some? <==> Proper(req, ctx)
    ensures AnswerType(req, ctx).Some? ==> Answers(req, ReplyOf(req, AnswerType(req, ctx).value, ctx), ctx)
  {
    hide Lookup;
    if AnswerType(req, ctx).Some? {
      ReplyOptionsReadBack(req, AnswerType(req, ctx).value, ctx);
    }
  }

  /** Frame `rx` carries a request that deserves an answer. */
  ghost predicate ProperFrame(ctx: Context, ifindex: int, rx: Rx) {
    exists req: Request :: IsRequest(ifindex, rx, req) && Proper(req, ctx)
  }

  ghost predicate AnswersFrame(ctx: Context, ifindex: int, rx: Rx, r: Reply) {
    exists req: Request :: IsRequest(ifindex, rx, req) && Answers(req, r, ctx)
  }

  lemma FrameAnsweredExactly(ctx: Context, ifindex: int, rx: Rx)
    ensures Answer(ctx, ifindex, rx).Some? <==> ProperFrame(ctx, ifindex, rx)
    ensures Answer(ctx, ifindex, rx).Some? ==> AnswersFrame(ctx, ifindex, rx, Answer(ctx, ifindex, rx).value)
  {
    hide Parse, AnswerType, IsRequest, Proper, Answers, ReplyOf;
    if ProperFrame(ctx, ifindex, rx) {
      var req: Request :| IsRequest(ifindex, rx, req) && Proper(req, ctx);
      ParsedExactly(ifindex, rx, req);
      AnsweredExactly(req, ctx);
    }
    if Parse(ifindex, rx).Some? {
      var req := Parse(ifindex, rx).value;
      ParsedExactly(ifindex, rx, req);
      AnsweredExactly(req, ctx);
    }
  }

  method Dispatch(ctx: Context, req: Request) returns (answer: Option<Reply>)
    ensures answer == match AnswerType(req, ctx) case None => None case Some(t) => Some(ReplyOf(req, t, ctx))
  {
    var typeByte: byte := 0;
    var n, out := OptGet(req.options, OPT_MSG_TYPE, 1);
    if n < 0 {
      return None;
    }
    if |out| > 0 {
      typeByte := out[0];
    }
    if typeByte == DISCOVER {
      var reply := BuildReply(req, OFFER, ctx);
      return Some(reply);
    } else if typeByte == REQUEST {
      var m, sid := OptGet(req.options, OPT_SERVER_ID, 4);
      if m == 4 {
        if sid != ctx.gwIp {
          return None;
        }
      }
      var reply := BuildReply(req, ACK, ctx);
      return Some(reply);
    }
    return None;
  }

  method HandleFrame(ctx: Context, ifindex: int, rx: Rx) returns (answer: Option<Reply>)
    ensures answer == Answer(ctx, ifindex, rx)
    ensures answer.Some? <==> ProperFrame(ctx, ifindex, rx)
    ensures answer.Some? ==> AnswersFrame(ctx, ifindex, rx, answer.value)
  {
    hide ProperFrame, AnswersFrame, MessageType, AsksAnother, ReplyOf, Lookup;
    FrameAnsweredExactly(ctx, ifindex, rx);
    var b := rx.bytes;
    if rx.ifindex != ifindex {
      return None;
    }
    if rx.outgoing {
      return None;
    }
    if |b| < ETH_HLEN + 28 {
      return None;
    }
    if b[12..14] != [8, 0] {
      return None;
    }
    var ihl := b[ETH_HLEN] % 16;
    if b[ETH_HLEN + 9] != 17 || ihl < 5 {
      return None;
    }
    var ipHdrLen := ihl * 4;
    if |b| < ETH_HLEN + ipHdrLen + 8 {
      return None;
    }
    var udp := ETH_HLEN + ipHdrLen;
    if b[udp + 2..udp + 4] != [0, 67] {
      return None;
    }
    var payloadOff := udp + 8;
    var reqLen := |b| - payloadOff;
    if reqLen < HEADER_LEN {
      return None;
    }
    if reqLen > PACKET_LEN {
      reqLen := PACKET_LEN;
    }
    var p := b[payloadOff..payloadOff + reqLen];
    if p[236..240] != MAGIC {
      return None;
    }
    if p[0] != 1 {
      return None;
    }
    var req := Request(p[2], p[4..8], p[10..12], p[28..44], p[HEADER_LEN..]);
    assert Parse(ifindex, rx) == Some(req);
    answer := Dispatch(ctx, req);
  }

  // ----- the loop -----

  /** What one turn of the loop meets. `again` is an error after which the loop
      goes on (EINTR, EAGAIN); any other error ends it, and so does a stop. */
  datatype Event = Stop | PollError(again: bool) | NotReady | RecvError(again: bool) | Frame(rx: Rx)

  predicate Ends(e: Event) {
    e.Stop? || (e.PollError? && !e.again) || (e.RecvError? && !e.again)
  }

  /** A reply together with the turn of the loop that sent it. */
  datatype Sent = Sent(turn: nat, reply: Reply)

  /** What one turn sends: nothing or one reply. */
  function TurnSends(ctx: Context, ifindex: int, e: Event, turn: nat): (r: seq<Sent>)
    ensures |r| <= 1
    ensures |r| == 1 <==> e.Frame? && Answer(ctx, ifindex, e.rx).Some?
    ensures |r| == 1 ==> r[0] == Sent(turn, Answer(ctx, ifindex, e.rx).value)
  {
    if e.Frame? && Answer(ctx, ifindex, e.rx).Some? then [Sent(turn, Answer(ctx, ifindex, e.rx).value)] else []
  }

  function Served(ctx: Context, ifindex: int, events: seq<Event>, turn: nat): seq<Sent>
    requires turn <= |events|
    decreases |events| - turn
  {
    if turn == |events| || Ends(events[turn]) then []
    else TurnSends(ctx, ifindex, events[turn], turn) + Served(ctx, ifindex, events, turn + 1)
  }

  method ServerLoop(ctx: Context, ifindex: int, events: seq<Event>) returns (sent: seq<Sent>)
    ensures sent == Served(ctx, ifindex, events, 0)
  {
    hide Answer, ProperFrame, AnswersFrame;
    sent := [];
    var turn := 0;
    while turn < |events|
      invariant turn <= |events|
      invariant Served(ctx, ifindex, events, 0) == sent + Served(ctx, ifindex, events, turn)
    {
      var e := events[turn];
      if Ends(e) {
        break;
      }
      ghost var before, later := sent, Served(ctx, ifindex, events, turn + 1);
      if e.Frame? {
        var answer := HandleFrame(ctx, ifindex, e.rx);
        if answer.Some? {
          sent := sent + [Sent(turn, answer.value)];
        }
      }
      assert sent == before + TurnSends(ctx, ifindex, e, turn);
      Assoc(before, TurnSends(ctx, ifindex, e, turn), later);
      turn := turn + 1;
    }
  }

  /** After `e` the loop goes on: no stop, no error but an interrupted call. */
  ghost predicate GoesOn(e: Event) {
    e.NotReady? || e.Frame? || (e.PollError? && e.again) || (e.RecvError? && e.again)
  }

  /** The loop that is about to take event `from` gets as far as event `to`. */
  ghost predicate GetsTo(events: seq<Event>, from: nat, to: nat) {
    to <= |events| && forall j :: from <= j < to ==> GoesOn(events[j])
  }

  lemma EndsExactly(e: Event)
    ensures Ends(e) <==> !GoesOn(e)
  {
  }

  /** `s` answers the frame that arrived at its turn. */
  ghost predicate Justified(ctx: Context, ifindex: int, events: seq<Event>, s: Sent) {
    s.turn < |events| && events[s.turn].Frame? && AnswersFrame(ctx, ifindex, events[s.turn].rx, s.reply)
  }

  /** Every reply is justified by the frame of its own turn, up to which the loop
      ran, and no turn sends two. */
  ghost predicate SoundLog(ctx: Context, ifindex: int, events: seq<Event>, sent: seq<Sent>, turn: nat) {
    && (forall k :: 0 <= k < |sent| ==>
          sent[k].turn >= turn && Justified(ctx, ifindex, events, sent[k]) && GetsTo(events, turn, sent[k].turn))
    && (forall j, k :: 0 <= j < k < |sent| ==> sent[j].turn < sent[k].turn)
  }

  lemma LogGrows(ctx: Context, ifindex: int, events: seq<Event>, now: seq<Sent>, later: seq<Sent>, turn: nat)
    requires turn < |events| && GoesOn(events[turn])
    requires |now| <= 1 && (|now| == 1 ==> now[0].turn == turn && Justified(ctx, ifindex, events, now[0]))
    requires SoundLog(ctx, ifindex, events, later, turn + 1)
    ensures SoundLog(ctx, ifindex, events, now + later, turn)
  {
    hide Justified, GoesOn;
    var sent := now + later;
    forall k | 0 <= k < |sent|
      ensures sent[k].turn >= turn && Justified(ctx, ifindex, events, sent[k]) && GetsTo(events, turn, sent[k].turn)
    {
      assert sent[k] == if k < |now| then now[k] else later[k - |now|];
    }
    forall j, k | 0 <= j < k < |sent| ensures sent[j].turn < sent[k].turn {
      assert sent[j] == if j < |now| then now[j] else later[j - |now|];
      assert sent[k] == later[k - |now|];
    }
  }

  /** Over any sequence of events the log of replies is sound. */
  lemma {:induction false} RepliesJustified(ctx: Context, ifindex: int, events: seq<Event>, turn: nat)
    requires turn <= |events|
    ensures SoundLog(ctx, ifindex, events, Served(ctx, ifindex, events, turn), turn)
    decreases |events| - turn
  {
    if turn < |events| && !Ends(events[turn]) {
      RepliesJustified(ctx, ifindex, events, turn + 1);
      EndsExactly(events[turn]);
      hide SoundLog, Justified, Answer;
      var now := TurnSends(ctx, ifindex, events[turn], turn);
      if |now| == 1 {
        FrameAnsweredExactly(ctx, ifindex, events[turn].rx);
        assert Justified(ctx, ifindex, events, now[0]);
      }
      LogGrows(ctx, ifindex, events, now, Served(ctx, ifindex, events, turn + 1), turn);
    }
  }

  /** And conversely: a proper DISCOVER, or a REQUEST for this server, is answered in
      its turn if the loop gets there. */
  lemma {:induction false} RequestsServed(ctx: Context, ifindex: int, events: seq<Event>, turn: nat, i: nat)
    requires turn <= i < |events| && events[i].Frame?
    requires GetsTo(events, turn, i) && ProperFrame(ctx, ifindex, events[i].rx)
    ensures exists k :: 0 <= k < |Served(ctx, ifindex, events, turn)| && Served(ctx, ifindex, events, turn)[k].turn == i
    decreases i - turn
  {
    hide Answer, ProperFrame, TurnSends;
    var sent := Served(ctx, ifindex, events, turn);
    EndsExactly(events[turn]);
    if turn == i {
      FrameAnsweredExactly(ctx, ifindex, events[i].rx);
      assert sent[0].turn == i;
    } else {
      RequestsServed(ctx, ifindex, events, turn + 1, i);
      var later := Served(ctx, ifindex, events, turn + 1);
      var k :| 0 <= k < |later| && later[k].turn == i;
      assert sent[k + |sent| - |later|] == later[k];
    }
  }
}
