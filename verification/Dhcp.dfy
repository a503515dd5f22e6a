/** The single-lease DHCP server: its option list, its checksum, the replies it
    builds and the loop that decides which frames it answers. */
module Dhcp {
  import opened Common

  const OPT_PAD: byte := 0
  const OPT_SUBNET_MASK: byte := 1
  const OPT_ROUTER: byte := 3
  const OPT_DNS: byte := 6
  const OPT_LEASE_TIME: byte := 51
  const OPT_MSG_TYPE: byte := 53
  const OPT_SERVER_ID: byte := 54
  const OPT_RENEWAL_T1: byte := 58
  const OPT_REBIND_T2: byte := 59
  const OPT_END: byte := 255

  const DISCOVER: byte := 1
  const OFFER: byte := 2
  const REQUEST: byte := 3
  const ACK: byte := 5

  // ----- options (section 2 of RFC 2132) -----

  /** One item of an option list as the standard describes it. */
  datatype Item = Pad | Opt(code: byte, data: seq<byte>)

  predicate ItemOk(i: Item) {
    i.Opt? ==> i.code != OPT_PAD && i.code != OPT_END && |i.data| < 256
  }

  ghost predicate ListOk(items: seq<Item>) {
    forall i :: 0 <= i < |items| ==> ItemOk(items[i])
  }

  function EncodeItem(i: Item): seq<byte>
    requires ItemOk(i)
  {
    if i.Pad? then [OPT_PAD] else [i.code, |i.data|] + i.data
  }

  function Encode(items: seq<Item>): seq<byte>
    requires forall i :: 0 <= i < |items| ==> ItemOk(items[i])
  {
    if items == [] then [] else EncodeItem(items[0]) + Encode(items[1..])
  }

  /** The data of the first option with the given code. */
  function First(items: seq<Item>, code: byte): Option<seq<byte>> {
    if items == [] then None
    else if items[0].Opt? && items[0].code == code then Some(items[0].data)
    else First(items[1..], code)
  }

  /** What a reader finds in arbitrary bytes. */
  function Lookup(opts: seq<byte>, code: byte): (r: Option<seq<byte>>)
    ensures r.Some? ==> |r.value| < 256 && |r.value| + 2 <= |opts| && code != OPT_PAD && code != OPT_END
    decreases |opts|
  {
    if opts == [] || opts[0] == OPT_END then None
    else if opts[0] == OPT_PAD then Lookup(opts[1..], code)
    else if |opts| < 2 || 2 + opts[1] > |opts| then None
    else if opts[0] == code then Some(opts[2..2 + opts[1]])
    else Lookup(opts[2 + opts[1]..], code)
  }

  lemma LookupStep(i: Item, tail: seq<byte>, code: byte)
    requires ItemOk(i)
    ensures Lookup(EncodeItem(i) + tail, code) ==
      if i.Opt? && i.code == code then Some(i.data) else Lookup(tail, code)
  {
    var all := EncodeItem(i) + tail;
    if i.Pad? {
      assert all[1..] == tail;
    } else {
      var n := |i.data|;
      assert all[0] == i.code && all[1] == n;
      assert all[2..2 + n] == i.data && all[2 + n..] == tail;
    }
  }

  /** Looking a code up in a written list, closed with End and followed by
      anything, finds the first option of that code, or nothing if there is none. */
  lemma {:induction false} LookupInvertsEncode(items: seq<Item>, rest: seq<byte>, code: byte)
    requires ListOk(items)
    ensures Lookup(Encode(items) + ([OPT_END] + rest), code) == First(items, code)
    decreases |items|
  {
    if items == [] {
      assert (Encode(items) + ([OPT_END] + rest))[0] == OPT_END;
    } else {
      LookupInvertsEncode(items[1..], rest, code);
      var end := [OPT_END] + rest;
      LookupStep(items[0], Encode(items[1..]) + end, code);
      Assoc(EncodeItem(items[0]), Encode(items[1..]), end);
    }
  }

  lemma {:induction false} EncodeAppend(items: seq<Item>, i: Item)
    requires ListOk(items) && ItemOk(i)
    ensures ListOk(items + [i])
    ensures Encode(items + [i]) == Encode(items) + EncodeItem(i)
    decreases |items|
  {
    if items == [] {
      assert items + [i] == [i];
      assert Encode([i]) == EncodeItem(i) + Encode([]);
    } else {
      EncodeAppend(items[1..], i);
      assert (items + [i])[1..] == items[1..] + [i];
      Assoc(EncodeItem(items[0]), Encode(items[1..]), EncodeItem(i));
    }
  }

  /** Append one option at `pos`; refused, with no effect, if it does not fit. */
  method OptPut(buf: array<byte>, pos: nat, code: byte, data: seq<byte>) returns (pos': nat, ok: bool)
    requires pos <= buf.Length && |data| < 256
    modifies buf
    ensures ok == (pos + 2 + |data| <= buf.Length)
    ensures pos' == if ok then pos + 2 + |data| else pos
    ensures buf[..pos'] == old(buf[..pos]) + if ok then [code, |data|] + data else []
    ensures buf[pos'..] == old(buf[..])[pos'..]
  {
    if pos + 2 + |data| > buf.Length {
      return pos, false;
    }
    buf[pos] := code;
    buf[pos + 1] := |data|;
    var i := 0;
    while i < |data|
      invariant i <= |data|
      invariant forall j :: 0 <= j < i ==> buf[pos + 2 + j] == data[j]
      invariant forall j :: 0 <= j < pos ==> buf[j] == old(buf[j])
      invariant forall j :: pos + 2 + i <= j < buf.Length ==> buf[j] == old(buf[j])
      invariant buf[pos] == code && buf[pos + 1] == |data|
    {
      buf[pos + 2 + i] := data[i];
      i := i + 1;
    }
    return pos + 2 + |data|, true;
  }

  /** One step of the scan, by index. */
  lemma LookupAt(opts: seq<byte>, i: nat, code: byte)
    requires i < |opts|
    ensures Lookup(opts[i..], code) ==
      if opts[i] == OPT_END then None
      else if opts[i] == OPT_PAD then Lookup(opts[i + 1..], code)
      else if i + 1 >= |opts| || i + 2 + opts[i + 1] > |opts| then None
      else if opts[i] == code then Some(opts[i + 2..i + 2 + opts[i + 1]])
      else Lookup(opts[i + 2 + opts[i + 1]..], code)
  {
    var o := opts[i..];
    assert o[0] == opts[i] && o[1..] == opts[i + 1..];
    if i + 1 < |opts| {
      var l := opts[i + 1];
      assert o[1] == l;
      if i + 2 + l <= |opts| {
        assert o[2..2 + l] == opts[i + 2..i + 2 + l] && o[2 + l..] == opts[i + 2 + l..];
      }
    }
  }

  /** The length of the option found, or -1; at most `maxLen` bytes come out. */
  method OptGet(opts: seq<byte>, code: byte, maxLen: nat) returns (len: int, out: seq<byte>)
    ensures match Lookup(opts, code)
      case None => len == -1 && out == []
      case Some(v) => len == |v| && out == v[..if |v| < maxLen then |v| else maxLen]
  {
    assert opts[0..] == opts;
    assert Lookup([], code) == None;
    hide Lookup;
    var i := 0;
    while i < |opts|
      invariant i <= |opts|
      invariant Lookup(opts, code) == Lookup(opts[i..], code)
    {
      LookupAt(opts, i, code);
      var c := opts[i];
      i := i + 1;
      if c == OPT_END {
        break;
      }
      if c == OPT_PAD {
        continue;
      }
      if i >= |opts| {
        break;
      }
      var l := opts[i];
      i := i + 1;
      if i + l > |opts| {
        break;
      }
      if c == code {
        var copy := if l < maxLen then l else maxLen;
        assert opts[i..i + l][..copy] == opts[i..i + copy];
        return l, opts[i..i + copy];
      }
      i := i + l;
    }
    return -1, [];
  }

  // ----- the Internet checksum (section 1 of RFC 1071) -----

  /** A 16-bit word as a little-endian host loads it. */
  function Word(lo: int, hi: int): int {
    lo + 256 * hi
  }

  /** The sum of 16-bit little-endian words; an odd last byte counts alone. */
  function WordSum(d: seq<byte>): nat {
    if |d| == 0 then 0 else if |d| == 1 then d[0] else Word(d[0], d[1]) + WordSum(d[2..])
  }

  function Fold(s: nat): (r: nat)
    ensures r < 65536
    decreases s
  {
    if s < 65536 then s else Fold(s % 65536 + s / 65536)
  }

  lemma {:induction false} ModShift(q: nat, x: nat)
    ensures (65535 * q + x) % 65535 == x % 65535
    decreases q
  {
    if q > 0 {
      ModShift(q - 1, x);
      assert 65535 * q + x == (65535 * (q - 1) + x) + 65535;
    }
  }

  /** Folding keeps the value modulo 65535 and turns only zero into zero. */
  lemma {:induction false} FoldMod(s: nat)
    ensures Fold(s) % 65535 == s % 65535
    ensures Fold(s) == 0 <==> s == 0
    decreases s
  {
    if s >= 65536 {
      var q, r := s / 65536, s % 65536;
      assert s == 65535 * q + (r + q);
      FoldMod(r + q);
      ModShift(q, r + q);
    }
  }

  lemma WrapAdd(a: int, b: nat)
    ensures (a % 0x1_0000_0000 + b) % 0x1_0000_0000 == (a + b) % 0x1_0000_0000
  {
  }

  /** The 32-bit accumulator and the fold loop. */
  method Checksum(data: seq<byte>) returns (c: nat)
    ensures c == 65535 - Fold(WordSum(data) % 0x1_0000_0000)
  {
    var sum: int, i: int, len: int := 0, 0, |data|;
    while len > 1
      invariant 0 <= i && 0 <= len && i + len == |data| && 0 <= sum < 0x1_0000_0000
      invariant sum == (WordSum(data) - WordSum(data[i..])) % 0x1_0000_0000
    {
      assert data[i..][2..] == data[i + 2..];
      ghost var w: int := Word(data[i], data[i + 1]);
      WrapAdd(WordSum(data) - WordSum(data[i..]), w);
      sum := (sum + Word(data[i], data[i + 1])) % 0x1_0000_0000;
      i := i + 2;
      len := len - 2;
    }
    if len == 1 {
      WrapAdd(WordSum(data) - WordSum(data[i..]), data[i]);
      sum := (sum + data[i]) % 0x1_0000_0000;
    }
    ghost var total: int := sum;
    while sum / 65536 != 0
      invariant sum >= 0 && Fold(sum) == Fold(total)
      decreases sum
    {
      sum := sum % 65536 + sum / 65536;
    }
    c := 65535 - sum;
  }

  /** The 16-bit field at offset `k`, stored the way the host stores it. */
  function Store(d: seq<byte>, k: nat, c: nat): (r: seq<byte>)
    requires k + 1 < |d| && c < 65536
    ensures |r| == |d|
  {
    d[k := c % 256][k + 1 := c / 256]
  }

  lemma {:induction false} StoreSum(d: seq<byte>, k: nat, c: nat)
    requires k % 2 == 0 && k + 1 < |d| && c < 65536 && d[k] == 0 && d[k + 1] == 0
    ensures WordSum(Store(d, k, c)) == WordSum(d) + c
    decreases |d|
  {
    if k == 0 {
      assert Store(d, k, c)[2..] == d[2..];
    } else {
      assert Store(d, k, c)[2..] == Store(d[2..], k - 2, c);
      StoreSum(d[2..], k - 2, c);
    }
  }

  lemma {:induction false} SumBound(d: seq<byte>)
    requires |d| % 2 == 0
    ensures WordSum(d) <= 65535 * (|d| / 2)
    ensures |d| <= 131074 ==> WordSum(d) <= 0xFFFF_FFFF
    decreases |d|
  {
    if |d| > 0 {
      SumBound(d[2..]);
    }
  }

  lemma ComplementMod(s: nat, f: nat)
    requires f <= 65535 && f % 65535 == s % 65535
    ensures (s + (65535 - f)) % 65535 == 0
  {
    var q := s / 65535;
    if f == 65535 {
      assert s + (65535 - f) == 65535 * q + 0;
      ModShift(q, 0);
    } else {
      assert s + (65535 - f) == 65535 * (q + 1) + 0;
      ModShift(q + 1, 0);
    }
  }

  /** Adding the complement of its fold makes any sum fold to all ones. */
  lemma FoldComplement(s: nat)
    ensures Fold(s + (65535 - Fold(s))) == 0xFFFF
  {
    var t := s + (65535 - Fold(s));
    FoldMod(s);
    FoldMod(t);
    ComplementMod(s, Fold(s));
    hide Fold;
    assert Fold(t) % 65535 == 0 && Fold(t) != 0;
  }

  lemma SmallMod(x: nat)
    requires x <= 0xFFFF_FFFF
    ensures x % 0x1_0000_0000 == x
  {
  }

  /** A header with its checksum stored sums to all ones: for every even length
      up to 131074 bytes, the largest whose word sum fits 32 bits. */
  lemma ChecksumVerifies(d: seq<byte>, k: nat, c: nat)
    requires |d| % 2 == 0 && |d| <= 131074
    requires k % 2 == 0 && k + 1 < |d| && d[k] == 0 && d[k + 1] == 0
    requires c == 65535 - Fold(WordSum(d) % 0x1_0000_0000)
    ensures Fold(WordSum(Store(d, k, c)) % 0x1_0000_0000) == 0xFFFF
  {
    var e := Store(d, k, c);
    StoreSum(d, k, c);
    SumBound(d);
    SumBound(e);
    hide WordSum, Store, Fold;
    SmallMod(WordSum(d));
    SmallMod(WordSum(e));
    FoldComplement(WordSum(d));
  }

  /** The same words read in network order, as a receiver of either kind may. */
  function BigSum(d: seq<byte>): nat {
    if |d| < 2 then 0 else 256 * d[0] + d[1] + BigSum(d[2..])
  }

  /** Reading in the other byte order multiplies the sum by 256, modulo 65535. */
  lemma {:induction false} ByteOrder(d: seq<byte>) returns (q: nat)
    requires |d| % 2 == 0
    ensures 256 * WordSum(d) == BigSum(d) + 65535 * q
    ensures BigSum(d) == 0 <==> WordSum(d) == 0
    decreases |d|
  {
    if |d| == 0 {
      q := 0;
    } else {
      var p := ByteOrder(d[2..]);
      q := p + d[1];
    }
  }

  lemma ScaledMultiple(w: nat, b: nat, q: nat)
    requires w % 65535 == 0 && 256 * w == b + 65535 * q
    ensures b % 65535 == 0
  {
    var m := w / 65535;
    assert 256 * w == 65535 * (256 * m) + 0;
    ModShift(256 * m, 0);
    ModShift(q, b);
  }

  lemma AllOnesEitherWay(d: seq<byte>)
    requires |d| % 2 == 0 && Fold(WordSum(d)) == 0xFFFF
    ensures Fold(BigSum(d)) == 0xFFFF
  {
    hide Fold, WordSum, BigSum;
    var q := ByteOrder(d);
    FoldMod(WordSum(d));
    FoldMod(BigSum(d));
    ScaledMultiple(WordSum(d), BigSum(d), q);
  }

  /** So it does for a receiver that reads its words in network order. */
  lemma ReceiverVerifies(d: seq<byte>, k: nat, c: nat)
    requires |d| % 2 == 0 && |d| <= 131074
    requires k % 2 == 0 && k + 1 < |d| && d[k] == 0 && d[k + 1] == 0
    requires c == 65535 - Fold(WordSum(d) % 0x1_0000_0000)
    ensures Fold(BigSum(Store(d, k, c))) == 0xFFFF
  {
    hide WordSum, Fold, BigSum, Store;
    ChecksumVerifies(d, k, c);
    SumBound(Store(d, k, c));
    SmallMod(WordSum(Store(d, k, c)));
    AllOnesEitherWay(Store(d, k, c));
  }

  // ----- packets -----

  /** Addresses are kept as the four bytes on the wire. */
  type Addr = a: seq<byte> | |a| == 4 witness [0, 0, 0, 0]

  const NO_ADDR: Addr := [0, 0, 0, 0]

  /** The fields of a request that a reply depends on, and its options. */
  datatype Request = Request(hlen: byte, xid: seq<byte>, flags: seq<byte>, chaddr: seq<byte>, options: seq<byte>)

  datatype Reply = Reply(
    op: byte, htype: byte, hlen: byte, hops: byte, xid: seq<byte>, flags: seq<byte>,
    ciaddr: Addr, yiaddr: Addr, siaddr: Addr, giaddr: Addr, chaddr: seq<byte>, options: seq<byte>, len: nat)

  datatype Context = Context(offerIp: Addr, gwIp: Addr, netmask: Addr, dns1: Addr, dns2: Addr)

  const HEADER_LEN := 240   // bytes before the options
  const OPTIONS_LEN := 308
  const LEASE: Addr := [0, 1, 81, 128]    // 86400 s, network order
  const T1: Addr := [0, 0, 168, 192]      // 43200 s
  const T2: Addr := [0, 1, 39, 80]        // 75600 s

  /** The number on the wire. */
  function Seconds(a: Addr): nat {
    (((a[0] as int) * 256 + (a[1] as int)) * 256 + (a[2] as int)) * 256 + (a[3] as int)
  }

  function Dns(ctx: Context): Option<seq<byte>> {
    if ctx.dns1 == NO_ADDR then None else Some(ctx.dns1 + if ctx.dns2 == NO_ADDR then [] else ctx.dns2)
  }

  function ReplyItems(ctx: Context, msgType: byte): (r: seq<Item>)
    ensures forall i :: 0 <= i < |r| ==> ItemOk(r[i])
  {
    [Opt(OPT_MSG_TYPE, [msgType]), Opt(OPT_SERVER_ID, ctx.gwIp), Opt(OPT_LEASE_TIME, LEASE), Opt(OPT_RENEWAL_T1, T1),
     Opt(OPT_REBIND_T2, T2), Opt(OPT_SUBNET_MASK, ctx.netmask), Opt(OPT_ROUTER, ctx.gwIp)]
    + match Dns(ctx) case None => [] case Some(d) => [Opt(OPT_DNS, d)]
  }

  function Zeros(n: nat): (r: seq<byte>)
    ensures |r| == n
  {
    seq(n, _ => 0)
  }

  /** The first option takes 3 bytes, the next six take 6 each, the last at most 10. */
  lemma {:induction false} SizeFrom(items: seq<Item>, k: nat)
    requires k <= |items| <= 8 && ListOk(items)
    requires forall i :: k <= i < |items| ==> items[i].Opt? && |items[i].data| <= if i == 0 then 1 else if i < 7 then 4 else 8
    ensures |Encode(items[k..])| <= if k == 0 then 49 else if k <= 7 then 6 * (7 - k) + 10 else 0
    decreases |items| - k
  {
    if k < |items| {
      SizeFrom(items, k + 1);
      assert items[k..][1..] == items[k + 1..];
    }
  }

  lemma {:induction false} ReplySize(ctx: Context, msgType: byte)
    ensures |Encode(ReplyItems(ctx, msgType))| <= 49
  {
    var items := ReplyItems(ctx, msgType);
    SizeFrom(items, 0);
  }

  /** The reply: fields echoed or fixed, options a closed list padded with zeros. */
  function ReplyOf(req: Request, msgType: byte, ctx: Context): Reply {
    ReplySize(ctx, msgType);
    var e := Encode(ReplyItems(ctx, msgType));
    Reply(2, 1, req.hlen, 0, req.xid, req.flags, NO_ADDR, ctx.offerIp, ctx.gwIp, NO_ADDR, req.chaddr,
          e + ([OPT_END] + Zeros(OPTIONS_LEN - |e| - 1)), HEADER_LEN + |e| + 1)
  }

  lemma {:induction false} FirstAt(items: seq<Item>, k: nat, code: byte)
    requires k <= |items|
    requires forall i :: 0 <= i < k ==> !(items[i].Opt? && items[i].code == code)
    requires k < |items| ==> items[k].Opt? && items[k].code == code
    ensures First(items, code) == if k < |items| then Some(items[k].data) else None
    decreases k
  {
    if k > 0 {
      FirstAt(items[1..], k - 1, code);
    }
  }

  lemma ItemsFound(ctx: Context, msgType: byte)
    ensures var items := ReplyItems(ctx, msgType);
      && First(items, OPT_MSG_TYPE) == Some([msgType])
      && First(items, OPT_SERVER_ID) == Some(ctx.gwIp) && First(items, OPT_ROUTER) == Some(ctx.gwIp)
      && First(items, OPT_LEASE_TIME) == Some(LEASE) && First(items, OPT_SUBNET_MASK) == Some(ctx.netmask)
      && First(items, OPT_RENEWAL_T1) == Some(T1) && First(items, OPT_REBIND_T2) == Some(T2)
      && First(items, OPT_DNS) == Dns(ctx)
  {
    var items := ReplyItems(ctx, msgType);
    FirstAt(items, 0, OPT_MSG_TYPE);
    FirstAt(items, 1, OPT_SERVER_ID);
    FirstAt(items, 2, OPT_LEASE_TIME);
    FirstAt(items, 3, OPT_RENEWAL_T1);
    FirstAt(items, 4, OPT_REBIND_T2);
    FirstAt(items, 5, OPT_SUBNET_MASK);
    FirstAt(items, 6, OPT_ROUTER);
    FirstAt(items, 7, OPT_DNS);
  }

  /** The options in use end with the End option, and what lies behind them in the
      buffer hides nothing. */
  lemma ReplyLength(req: Request, msgType: byte, ctx: Context)
    ensures var r := ReplyOf(req, msgType, ctx);
      && HEADER_LEN < r.len <= HEADER_LEN + OPTIONS_LEN == HEADER_LEN + |r.options|
      && r.options[r.len - HEADER_LEN - 1] == OPT_END
      && forall code: byte :: Lookup(r.options[..r.len - HEADER_LEN], code) == Lookup(r.options, code)
  {
    ReplySize(ctx, msgType);
    var items, r := ReplyItems(ctx, msgType), ReplyOf(req, msgType, ctx);
    var e := Encode(items);
    assert r.options[..|e| + 1] == e + ([OPT_END] + []);
    forall code: byte ensures Lookup(r.options[..r.len - HEADER_LEN], code) == Lookup(r.options, code) {
      LookupInvertsEncode(items, [], code);
      LookupInvertsEncode(items, Zeros(OPTIONS_LEN - |e| - 1), code);
    }
  }

  lemma WrittenOptionsFound(req: Request, msgType: byte, ctx: Context, code: byte)
    ensures Lookup(ReplyOf(req, msgType, ctx).options, code) == First(ReplyItems(ctx, msgType), code)
  {
    ReplySize(ctx, msgType);
    var items := ReplyItems(ctx, msgType);
    LookupInvertsEncode(items, Zeros(OPTIONS_LEN - |Encode(items)| - 1), code);
  }

  lemma NameServers(ctx: Context)
    ensures Dns(ctx) == if ctx.dns1 == NO_ADDR then None else if ctx.dns2 == NO_ADDR then Some(ctx.dns1) else Some(ctx.dns1 + ctx.dns2)
  {
    assert ctx.dns1 + [] == ctx.dns1;
  }

  /** A client that looks into a reply finds every promised option. */
  lemma ReplyOptionsReadBack(req: Request, msgType: byte, ctx: Context)
    ensures var o := ReplyOf(req, msgType, ctx).options;
      && Lookup(o, 53) == Some([msgType])
      && Lookup(o, 54) == Some(ctx.gwIp) && Lookup(o, 3) == Some(ctx.gwIp) && Lookup(o, 1) == Some(ctx.netmask)
      && Lookup(o, 51) == Some(LEASE) && Lookup(o, 58) == Some(T1) && Lookup(o, 59) == Some(T2)
      && Seconds(LEASE) == 86400 && Seconds(T1) == 43200 && Seconds(T2) == 75600
      && Lookup(o, 6) ==
         if ctx.dns1 == NO_ADDR then None else if ctx.dns2 == NO_ADDR then Some(ctx.dns1) else Some(ctx.dns1 + ctx.dns2)
  {
    hide ReplyOf, ReplyItems, Dns, Lookup, First;
    forall code: byte ensures Lookup(ReplyOf(req, msgType, ctx).options, code) == First(ReplyItems(ctx, msgType), code) {
      WrittenOptionsFound(req, msgType, ctx, code);
    }
    ItemsFound(ctx, msgType);
    NameServers(ctx);
  }
}
