/** The DHCP client's DISCOVER and REQUEST frames, built in place. */
module Dhcp {
  import opened ByteMemory
  import opened Checksum
  import opened Seqs

  const ETH := 14
  const IPV4 := 20
  const UDP := 8
  const BOOTP := 300
  const FRAME := 342
  const REQUEST: Byte := 3
  const MAGIC := 0x6382_5363
  const UDP_PROTO: Byte := 17
  /** Pseudo-header: source 0.0.0.0, destination 255.255.255.255, protocol 17, UDP length. */
  const SEED := 0xFFFF + 0xFFFF + 17 + 308

  function Zeros(n: nat): (s: seq<Byte>)
    ensures |s| == n && forall i :: 0 <= i < n ==> s[i] == 0
  {
    Repeat(n, 0)
  }

  /** The options: message type; for a REQUEST the wanted address and the server; the
      parameter list (subnet, router, DNS); end. */
  function Options(msg: Byte, ip: nat, server: nat): (o: seq<Byte>)
    ensures |o| <= 21
  {
    [53, 1, msg] +
    (if msg == REQUEST then [50, 4] + Be32(ip) + [54, 4] + Be32(server) else []) +
    [55, 3, 1, 3, 6, 255]
  }

  /** The BOOTP message: request over Ethernet with our transaction id and hardware address,
      broadcast flag, magic cookie and options, padded to 300 bytes. */
  function Message(msg: Byte, ip: nat, server: nat, xid: nat, mac: seq<Byte>): (m: seq<Byte>)
    requires |mac| == 6
    ensures |m| == BOOTP
  {
    var o := Options(msg, ip, server);
    [1, 1, 6] + Zeros(1) + Be32(xid) + Zeros(2) + Be16(0x8000) + Zeros(16) + mac + Zeros(202) + Be32(MAGIC) +
    o + Zeros(60 - |o|)
  }

  function UdpHeader(c: nat): seq<Byte> { Be16(68) + Be16(67) + Be16(308) + Be16(c) }

  function IpHeader(c: nat): seq<Byte> {
    [0x45, 0] + Be16(328) + [0, 0, 0, 0, 64, UDP_PROTO] + Be16(c) + [0, 0, 0, 0, 255, 255, 255, 255]
  }

  function EthHeader(mac: seq<Byte>): seq<Byte> { [255, 255, 255, 255, 255, 255] + mac + Be16(0x800) }

  /** The frame: each header's checksum is that of the packet with a zero field. */
  function Frame(msg: Byte, ip: nat, server: nat, xid: nat, mac: seq<Byte>): seq<Byte>
    requires |mac| == 6
  {
    var m := Message(msg, ip, server, xid, mac);
    EthHeader(mac) + IpHeader(Csum(IpHeader(0), 0)) + UdpHeader(Csum(UdpHeader(0) + m, SEED)) + m
  }

  /** A receiver's checksum tests over the IP header and over the UDP datagram with its
      pseudo-header both pass, for every message, address, server, transaction and MAC. */
  lemma BothChecksumsVerify(msg: Byte, ip: nat, server: nat, xid: nat, mac: seq<Byte>)
    requires |mac| == 6
    ensures var f := Frame(msg, ip, server, xid, mac);
            |f| == FRAME && Csum(f[14..34], 0) == 0 && Csum(f[34..342], SEED) == 0
  {
    hide Csum, Message;
    var m := Message(msg, ip, server, xid, mac);
    var f := Frame(msg, ip, server, xid, mac);
    UdpVerifies(m);
    IpVerifies();
    var i, u := IpHeader(Csum(IpHeader(0), 0)), UdpHeader(Csum(UdpHeader(0) + m, SEED));
    assert f[14..34] == i;
    assert f[34..342] == u + m;
  }

  lemma UdpVerifies(m: seq<Byte>)
    requires |m| == BOOTP
    ensures Csum(UdpHeader(Csum(UdpHeader(0) + m, SEED)) + m, SEED) == 0
  {
    hide Csum, Sum, Be16;
    var pre := Be16(68) + Be16(67) + Be16(308);
    Be16Facts();
    SumBound(pre + [0, 0] + m);
    StoredVerifies(pre, m, SEED);
    assert UdpHeader(0) + m == pre + [0, 0] + m;
  }

  lemma Be16Facts()
    ensures Be16(0) == [0, 0] && forall v :: |Be16(v)| == 2
  {
  }

  lemma IpVerifies()
    ensures Csum(IpHeader(Csum(IpHeader(0), 0)), 0) == 0
  {
    hide Csum, Sum, Be16;
    Be16Facts();
    var pre: seq<Byte> := [0x45, 0] + Be16(328) + [0, 0, 0, 0, 64, UDP_PROTO];
    var post: seq<Byte> := [0, 0, 0, 0, 255, 255, 255, 255];
    SumBound(pre + [0, 0] + post);
    StoredVerifies(pre, post, 0);
  }

  // ---- when the UDP checksum is sent as 0 ----

  /** The 16-bit words of the options, for a REQUEST and for anything else. */
  function OptionWords(msg: Byte, ip: nat, server: nat): nat {
    if msg == REQUEST then
      var i, s := Be32(ip), Be32(server);
      Word(53, 1) + Word(msg, 50) + Word(4, i[0]) + Word(i[1], i[2]) + Word(i[3], 54) + Word(4, s[0]) +
          Word(s[1], s[2]) +
      Word(s[3], 55) + Word(3, 1) + Word(3, 6) + Word(255, 0)
    else Word(53, 1) + Word(msg, 55) + Word(3, 1) + Word(3, 6) + Word(255, 0)
  }

  /** The sum of pseudo-header, UDP header and message, read off the inputs. */
  function DatagramSum(msg: Byte, ip: nat, server: nat, xid: nat, mac: seq<Byte>): nat
    requires |mac| == 6
  {
    var x := Be32(xid);
    SEED + 68 + 67 + 308 + 0x0101 + 0x0600 + Word(x[0], x[1]) + Word(x[2], x[3]) + 0x8000 +
    Word(mac[0], mac[1]) + Word(mac[2], mac[3]) + Word(mac[4], mac[5]) + 0x6382 + 0x5363 + OptionWords(msg, ip, server)
  }

  lemma {:induction false} SumZeros(n: nat)
    ensures Sum(Zeros(n)) == 0
    decreases n
  {
    if n >= 2 {
      assert Zeros(n)[2..] == Zeros(n - 2);
      SumZeros(n - 2);
    }
  }

  /** Sums of short pieces, word by word. */
  lemma SumShort(b: seq<Byte>)
    requires |b| % 2 == 0 && |b| <= 6
    ensures |b| == 2 ==> Sum(b) == Word(b[0], b[1])
    ensures |b| == 4 ==> Sum(b) == Word(b[0], b[1]) + Word(b[2], b[3])
    ensures |b| == 6 ==> Sum(b) == Word(b[0], b[1]) + Word(b[2], b[3]) + Word(b[4], b[5])
  {
    hide Word;
    assert |b| == 2 ==> b[2..] == [];
    if |b| == 4 {
      assert b[2..][2..] == [];
      assert Sum(b[2..]) == Word(b[2], b[3]) + Sum([]);
    } else if |b| == 6 {
      assert b[2..][2..] == b[4..] && b[4..][2..] == [];
      assert Sum(b[4..]) == Word(b[4], b[5]) + Sum([]);
      assert Sum(b[2..]) == Word(b[2], b[3]) + Sum(b[4..]);
    }
  }

  lemma SumRequest(ip: nat, server: nat)
    ensures var o := Options(REQUEST, ip, server);
            |o| <= 59 && Sum(o + Zeros(60 - |o|)) == OptionWords(REQUEST, ip, server)
  {
    hide Word, Be32, Sum;
    BeLengths(ip, server);
    var o, i, s := Options(REQUEST, ip, server), Be32(ip), Be32(server);
    var n := 60 - |o|;
    var a, b, c := [53, 1, REQUEST, 50, 4, i[0]], [i[1], i[2], i[3], 54, 4, s[0]], [s[1], s[2], s[3], 55, 3, 1];
    var d := [3, 6, 255, 0];
    assert Zeros(n) == [0] + Zeros(n - 1);
    assert o + [0] == a + b + c + d;
    assert o + Zeros(n) == a + b + c + d + Zeros(n - 1);
    hide Options, Zeros;
    SumFour(a, b, c, d, n - 1);
    SumShort(a);
    SumShort(b);
    SumShort(c);
    SumShort(d);
  }

  lemma SumFour(a: seq<Byte>, b: seq<Byte>, c: seq<Byte>, d: seq<Byte>, n: nat)
    requires |a| == |b| == |c| == 6 && |d| == 4
    ensures Sum(a + b + c + d + Zeros(n)) == Sum(a) + Sum(b) + Sum(c) + Sum(d)
  {
    hide Sum, Zeros;
    SumZeros(n);
    SumConcat(a + b + c + d, Zeros(n));
    SumConcat(a + b + c, d);
    SumThree(a, b, c);
  }

  lemma SumThree(a: seq<Byte>, b: seq<Byte>, c: seq<Byte>)
    requires |a| == |b| == |c| == 6
    ensures Sum(a + b + c) == Sum(a) + Sum(b) + Sum(c)
  {
    hide Sum;
    SumConcat(a + b, c);
    SumConcat(a, b);
  }

  lemma SumOptions(msg: Byte, ip: nat, server: nat)
    ensures var o := Options(msg, ip, server); Sum(o + Zeros(60 - |o|)) == OptionWords(msg, ip, server)
  {
    hide Word, Be32, Sum;
    if msg == REQUEST {
      SumRequest(ip, server);
    } else {
      var o := Options(msg, ip, server);
      var n := 60 - |o|;
      SumZeros(n - 1);
      assert Zeros(n) == [0] + Zeros(n - 1);
      var a, d := [53, 1, msg, 55, 3, 1], [3, 6, 255, 0];
      assert o + Zeros(n) == a + d + Zeros(n - 1);
      SumShort(a);
      SumShort(d);
      SumConcat(a + d, Zeros(n - 1));
      SumConcat(a, d);
    }
  }

  /** The sum of the fixed BOOTP part. */
  lemma SumFixed(xid: nat, mac: seq<Byte>)
    requires |mac| == 6
    ensures var x := Be32(xid);
            var f := [1, 1, 6] + Zeros(1) + Be32(xid) + Zeros(2) + Be16(0x8000) + Zeros(16) + mac + Zeros(202) +
                Be32(MAGIC);
            |f| == 240 &&
            Sum(f) == 0x0101 + 0x0600 + Word(x[0], x[1]) + Word(x[2], x[3]) + 0x8000 +
                      Word(mac[0], mac[1]) + Word(mac[2], mac[3]) + Word(mac[4], mac[5]) + 0x6382 + 0x5363
  {
    hide Sum, Word, Zeros;
    var a: seq<Byte> := [1, 1, 6, 0];
    var x, y, g := Be32(xid), Be16(0x8000), Be32(MAGIC);
    SmallPieces();
    SumShort(a);
    SumShort(x);
    SumShort(y);
    SumShort(mac);
    SumShort(g);
    SumZeros(2);
    SumZeros(16);
    SumZeros(202);
    SumPieces(a, x, Zeros(2), y, Zeros(16), mac, Zeros(202), g);
  }

  lemma SmallPieces()
    ensures [1, 1, 6] + Zeros(1) == [1, 1, 6, 0] && Be16(0x8000) == [0x80, 0] && Be32(MAGIC) == [0x63, 0x82, 0x53, 0x63]
    ensures Word(1, 1) == 0x0101 && Word(6, 0) == 0x0600 && Word(0x80, 0) == 0x8000
    ensures Word(0x63, 0x82) == 0x6382 && Word(0x53, 0x63) == 0x5363
  {
  }

  /** The sum of pieces of even length, one after another. */
  lemma SumPieces(a: seq<Byte>, b: seq<Byte>, c: seq<Byte>, d: seq<Byte>, e: seq<Byte>, f: seq<Byte>, g: seq<Byte>,
                h: seq<Byte>)
    requires |a| % 2 == |b| % 2 == |c| % 2 == |d| % 2 == |e| % 2 == |f| % 2 == |g| % 2 == 0
    ensures Sum(a + b + c + d + e + f + g + h) == Sum(a) + Sum(b) + Sum(c) + Sum(d) + Sum(e) + Sum(f) + Sum(g) + Sum(h)
  {
    hide Sum;
    SumConcat(a, b);
    SumConcat(a + b, c);
    SumConcat(a + b + c, d);
    SumConcat(a + b + c + d, e);
    SumConcat(a + b + c + d + e, f);
    SumConcat(a + b + c + d + e + f, g);
    SumConcat(a + b + c + d + e + f + g, h);
  }

  lemma DatagramSumIs(msg: Byte, ip: nat, server: nat, xid: nat, mac: seq<Byte>)
    requires |mac| == 6
    ensures SEED + Sum(UdpHeader(0) + Message(msg, ip, server, xid, mac)) == DatagramSum(msg, ip, server, xid, mac)
  {
    hide Sum, Zeros, OptionWords, Options;
    var o := Options(msg, ip, server);
    var f := [1, 1, 6] + Zeros(1) + Be32(xid) + Zeros(2) + Be16(0x8000) + Zeros(16) + mac + Zeros(202) + Be32(MAGIC);
    SumFixed(xid, mac);
    SumOptions(msg, ip, server);
    assert Message(msg, ip, server, xid, mac) == f + (o + Zeros(60 - |o|));
    SumConcat(f, o + Zeros(60 - |o|));
    SumUdp();
    SumConcat(UdpHeader(0), Message(msg, ip, server, xid, mac));
  }

  lemma SumUdp()
    ensures |UdpHeader(0)| == 8 && Sum(UdpHeader(0)) == 68 + 67 + 308
  {
    hide Sum;
    SumBe16(68);
    SumBe16(67);
    SumBe16(308);
    SumBe16(0);
    SumConcat(Be16(68), Be16(67));
    SumConcat(Be16(68) + Be16(67), Be16(308));
    SumConcat(Be16(68) + Be16(67) + Be16(308), Be16(0));
  }

  /** The UDP checksum field is sent as 0, meaning none, exactly when the sum that can be read
      off the inputs is a multiple of 65535. */
  lemma UdpFieldZeroIff(msg: Byte, ip: nat, server: nat, xid: nat, mac: seq<Byte>)
    requires |mac| == 6
    ensures Csum(UdpHeader(0) + Message(msg, ip, server, xid, mac), SEED) == 0
       <==> DatagramSum(msg, ip, server, xid, mac) % 0xFFFF == 0
  {
    hide Csum, Sum, UdpHeader, DatagramSum, Message;
    var m := Message(msg, ip, server, xid, mac);
    DatagramSumIs(msg, ip, server, xid, mac);
    SumBound(UdpHeader(0) + m);
    SumUdp();
    ZeroIff(UdpHeader(0) + m, SEED);
  }

  /** A DISCOVER with the client's first transaction id from MAC 02:00:00:00:b0:35 goes out
      with a zero UDP checksum. */
  lemma UdpFieldZeroCase()
    ensures Csum(UdpHeader(0) + Message(1, 0, 0, 0xd1a1_0001, [2, 0, 0, 0, 0xb0, 0x35]), SEED) == 0
  {
    hide Csum, UdpHeader, Message;
    var mac: seq<Byte> := [2, 0, 0, 0, 0xb0, 0x35];
    assert Be32(0xd1a1_0001) == [0xd1, 0xa1, 0, 1];
    assert DatagramSum(1, 0, 0, 0xd1a1_0001, mac) == 0x5_fffa;
    UdpFieldZeroIff(1, 0, 0, 0xd1a1_0001, mac);
  }

  // ---- in place ----

  /** Store bytes at `at`; everything else keeps its value. */
  method Put(f: array<Byte>, at: nat, bytes: seq<Byte>)
    requires at + |bytes| <= f.Length
    modifies f
    ensures f[..] == old(f[..at]) + bytes + old(f[at + |bytes|..])
  {
    var k := 0;
    while k < |bytes|
      invariant k <= |bytes| && f[..] == old(f[..at]) + bytes[..k] + old(f[at + k..])
    {
      f[at + k] := bytes[k];
      k := k + 1;
    }
    assert bytes[..k] == bytes;
  }

  lemma {:induction false} ZerosSplit(n: nat, k: nat)
    requires k <= n
    ensures Zeros(n) == Zeros(k) + Zeros(n - k)
  {
  }

  /** Writing past `skip` zeros extends the written part. */
  lemma Extend(s: seq<Byte>, at: nat, head: seq<Byte>, skip: nat, bytes: seq<Byte>, n: nat, tail: seq<Byte>)
    requires skip + |bytes| <= n && at <= |s| && s[at..] == head + Zeros(n) + tail
    ensures var p := at + |head| + skip;
            && p + |bytes| <= |s|
            && (s[..p] + bytes + s[p + |bytes|..])[..at] == s[..at]
            && (s[..p] + bytes + s[p + |bytes|..])[at..] ==
                (head + Zeros(skip) + bytes) + Zeros(n - skip - |bytes|) + tail
  {
    hide Zeros;
    var k := |bytes|;
    var z := n - skip - k;
    ZerosSplit(n, skip);
    ZerosSplit(n - skip, k);
    Overlay(s, at, head + Zeros(skip), Zeros(k), Zeros(z) + tail, bytes);
    assert head + Zeros(n) + tail == (head + Zeros(skip)) + Zeros(k) + (Zeros(z) + tail);
    assert (head + Zeros(skip)) + bytes + (Zeros(z) + tail) == (head + Zeros(skip) + bytes) + Zeros(z) + tail;
  }

  /** Replacing a middle piece by one of the same length. */
  lemma Overlay(s: seq<Byte>, at: nat, a: seq<Byte>, b: seq<Byte>, c: seq<Byte>, b': seq<Byte>)
    requires at <= |s| && s[at..] == a + b + c && |b'| == |b|
    ensures var p := at + |a|;
            && p + |b| <= |s|
            && (s[..p] + b' + s[p + |b|..])[..at] == s[..at]
            && (s[..p] + b' + s[p + |b|..])[at..] == a + b' + c
  {
    var p := at + |a|;
    assert s[..p][at..] == s[at..][..|a|] == a;
    assert s[p + |b|..] == s[at..][|a| + |b|..] == c;
  }

  /** Fill a field of the section at `at`: the section's written part `head` grows by the gap
      up to `off` and the field; what is before and after the section stays. */
  method Field(f: array<Byte>, at: nat, off: nat, bytes: seq<Byte>, ghost head: seq<Byte>, ghost n: nat,
      ghost tail: seq<Byte>)
    requires at <= f.Length && |head| <= off && off + |bytes| <= |head| + n && f[at..] == head + Zeros(n) + tail
    modifies f
    ensures f[..at] == old(f[..at])
    ensures f[at..] == (head + Zeros(off - |head|) + bytes) + Zeros(|head| + n - off - |bytes|) + tail
  {
    Extend(f[..], at, head, off - |head|, bytes, n, tail);
    assert f[..][..at] == f[..at] && f[..][at..] == f[at..];
    ghost var was := f[..];
    Put(f, at + off, bytes);
    assert f[..] == was[..at + off] + bytes + was[at + off + |bytes|..];
    assert f[at..] == f[..][at..] && f[..at] == f[..][..at];
  }

  method Clear(f: array<Byte>, n: nat)
    requires n <= f.Length
    modifies f
    ensures f[..n] == Zeros(n) && f[n..] == old(f[n..])
  {
    var k := 0;
    while k < n
      invariant k <= n && (forall i :: 0 <= i < k ==> f[i] == 0) && f[n..] == old(f[n..])
    {
      f[k] := 0;
      k := k + 1;
    }
  }

  lemma OptionsJoin(h: seq<Byte>, msg: Byte, ip: nat, server: nat)
    ensures msg == REQUEST ==>
              h + [53, 1, msg] + ([50, 4] + Be32(ip)) + ([54, 4] + Be32(server)) + [55, 3, 1, 3, 6, 255] ==
                  h + Options(msg, ip, server)
    ensures msg != REQUEST ==> h + [53, 1, msg] + [55, 3, 1, 3, 6, 255] == h + Options(msg, ip, server)
  {
  }

  /** The options, in order, at the write position. */
  method FillOptions(f: array<Byte>, msg: Byte, ip: nat, server: nat, ghost h: seq<Byte>, ghost tail: seq<Byte>)
    requires 42 <= f.Length && |h| == 240 && f[42..] == h + Zeros(60) + tail
    modifies f
    ensures f[..42] == old(f[..42])
    ensures f[42..] == h + Options(msg, ip, server) + Zeros(60 - |Options(msg, ip, server)|) + tail
  {
    hide Be32;
    var o := 240;
    OptionsJoin(h, msg, ip, server);
    BeLengths(ip, server);
    Field(f, 42, o, [53, 1, msg], h, 60, tail);
    ghost var w := h + [53, 1, msg];
    assert h + Zeros(0) + [53, 1, msg] == w;
    o := o + 3;
    if msg == REQUEST {
      Field(f, 42, o, [50, 4] + Be32(ip), w, 57, tail);
      assert w + Zeros(0) + ([50, 4] + Be32(ip)) == w + ([50, 4] + Be32(ip));
      w := w + ([50, 4] + Be32(ip));
      o := o + 6;
      Field(f, 42, o, [54, 4] + Be32(server), w, 51, tail);
      assert w + Zeros(0) + ([54, 4] + Be32(server)) == w + ([54, 4] + Be32(server));
      w := w + ([54, 4] + Be32(server));
      o := o + 6;
    }
    Field(f, 42, o, [55, 3, 1, 3, 6, 255], w, 300 - o, tail);
    assert w + Zeros(0) + [55, 3, 1, 3, 6, 255] == w + [55, 3, 1, 3, 6, 255];
  }

  lemma BeLengths(ip: nat, server: nat)
    ensures |Be32(ip)| == 4 && |Be32(server)| == 4
  {
  }

  /** The fixed BOOTP part through the magic cookie. */
  method FillMessage(f: array<Byte>, msg: Byte, ip: nat, server: nat, xid: nat, mac: seq<Byte>, ghost tail: seq<Byte>)
    requires 42 <= f.Length && |mac| == 6 && f[42..] == Zeros(300) + tail
    modifies f
    ensures f[..42] == old(f[..42]) && f[42..] == Message(msg, ip, server, xid, mac) + tail
  {
    hide Zeros, Be32, Be16, Options;
    BeLengths(xid, MAGIC);
    Be16Facts();
    assert [] + Zeros(300) + tail == f[42..];
    Field(f, 42, 0, [1, 1, 6], [], 300, tail);
    ghost var h := [1, 1, 6];
    assert [] + Zeros(0) + h == h;
    Field(f, 42, 4, Be32(xid), h, 297, tail);
    h := h + Zeros(1) + Be32(xid);
    Field(f, 42, 10, Be16(0x8000), h, 292, tail);
    h := h + Zeros(2) + Be16(0x8000);
    Field(f, 42, 28, mac, h, 288, tail);
    h := h + Zeros(16) + mac;
    Field(f, 42, 236, Be32(MAGIC), h, 266, tail);
    h := h + Zeros(202) + Be32(MAGIC);
    FillOptions(f, msg, ip, server, h, tail);
  }

  /** The UDP header, its checksum last. */
  method FillUdp(f: array<Byte>, ghost m: seq<Byte>, ghost tail: seq<Byte>)
    requires FRAME <= f.Length && |m| == 300 && f[34..] == Zeros(8) + m + tail
    modifies f
    ensures f[..34] == old(f[..34]) && f[34..] == UdpHeader(Csum(UdpHeader(0) + m, SEED)) + m + tail
  {
    hide Zeros, Be16, Csum;
    Be16Facts();
    ghost var rest := m + tail;
    assert [] + Zeros(8) + rest == f[34..];
    Field(f, 34, 0, Be16(68), [], 8, rest);
    ghost var h := Be16(68);
    assert [] + Zeros(0) + h == h;
    Field(f, 34, 2, Be16(67), h, 6, rest);
    assert h + Zeros(0) + Be16(67) == h + Be16(67);
    h := h + Be16(67);
    Field(f, 34, 4, Be16(308), h, 4, rest);
    assert h + Zeros(0) + Be16(308) == h + Be16(308);
    h := h + Be16(308);
    assert Zeros(2) == [0, 0];
    assert f[34..342] == f[34..][..308] == UdpHeader(0) + m;
    var c := Csum16(f, 34, 308, SEED);
    Field(f, 34, 6, Be16(c), h, 2, rest);
    assert h + Zeros(0) + Be16(c) == UdpHeader(c);
    assert Zeros(0) == [];
    assert UdpHeader(c) + [] + rest == UdpHeader(c) + m + tail;
  }

  function IpFront(): (h: seq<Byte>)
    ensures |h| == 10
  {
    [0x45] + Zeros(1) + Be16(328) + Zeros(4) + [64, UDP_PROTO]
  }

  lemma IpShape(c: nat)
    ensures IpFront() + Zeros(6) + [255, 255, 255, 255] == IpHeader(0)
    ensures IpFront() + Zeros(0) + Be16(c) + Zeros(4) + [255, 255, 255, 255] == IpHeader(c)
  {
    hide Be16;
    Be16Facts();
    assert Zeros(0) == [];
    assert Zeros(1) == [0];
    assert Zeros(4) == [0, 0, 0, 0];
    assert Zeros(6) == [0, 0, 0, 0, 0, 0];
  }

  /** The IP header: source address stays zero, checksum last. */
  method FillIp(f: array<Byte>, ghost tail: seq<Byte>)
    requires FRAME <= f.Length && f[14..] == Zeros(20) + tail
    modifies f
    ensures f[..14] == old(f[..14]) && f[14..] == IpHeader(Csum(IpHeader(0), 0)) + tail
  {
    hide Csum, Be16, Zeros, IpHeader;
    Be16Facts();
    ghost var h := [0x45];
    assert [] + Zeros(20) + tail == f[14..];
    Field(f, 14, 0, [0x45], [], 20, tail);
    assert [] + Zeros(0) + h == h;
    Field(f, 14, 2, Be16(328), h, 19, tail);
    h := h + Zeros(1) + Be16(328);
    Field(f, 14, 8, [64, UDP_PROTO], h, 16, tail);
    h := IpFront();
    Field(f, 14, 16, [255, 255, 255, 255], h, 10, tail);
    var c := IpChecksum(f, tail);
    assert f[14..] == h + Zeros(6) + ([255, 255, 255, 255] + tail);
    Field(f, 14, 10, Be16(c), h, 6, [255, 255, 255, 255] + tail);
    IpShape(c);
    assert h + Zeros(0) + Be16(c) + Zeros(4) + ([255, 255, 255, 255] + tail) ==
           h + Zeros(0) + Be16(c) + Zeros(4) + [255, 255, 255, 255] + tail;
  }

  method IpChecksum(f: array<Byte>, ghost tail: seq<Byte>) returns (c: nat)
    requires FRAME <= f.Length && f[14..] == IpFront() + Zeros(6) + [255, 255, 255, 255] + Zeros(0) + tail
    ensures c == Csum(IpHeader(0), 0)
  {
    hide Csum, Zeros, IpHeader, IpFront;
    IpShape(0);
    c := Csum16(f, 14, 20, 0);
    assert f[14..34] == f[14..][..20] == IpFront() + Zeros(6) + [255, 255, 255, 255];
  }

  method FillEth(f: array<Byte>, mac: seq<Byte>, ghost tail: seq<Byte>)
    requires |mac| == 6 && f[..] == Zeros(14) + tail
    modifies f
    ensures f[..] == EthHeader(mac) + tail
  {
    hide Be16;
    Be16Facts();
    ghost var h: seq<Byte> := [255, 255, 255, 255, 255, 255];
    assert f[0..] == [] + Zeros(14) + tail;
    Field(f, 0, 0, [255, 255, 255, 255, 255, 255], [], 14, tail);
    assert [] + Zeros(0) + h == h;
    Field(f, 0, 6, mac, h, 8, tail);
    assert h + Zeros(0) + mac == h + mac;
    h := h + mac;
    Field(f, 0, 12, Be16(0x800), h, 2, tail);
    assert h + Zeros(0) + Be16(0x800) == EthHeader(mac);
    assert f[0..] == f[..];
  }

  /** build_dhcp: the frame in `f`, nothing beyond it, and its length. */
  method BuildDhcp(f: array<Byte>, msg: Byte, ip: nat, server: nat, xid: nat, mac: seq<Byte>) returns (len: nat)
    requires f.Length >= FRAME && |mac| == 6
    modifies f
    ensures len == FRAME && f[..] == Frame(msg, ip, server, xid, mac) + old(f[FRAME..])
  {
    hide Message, UdpHeader, IpHeader, EthHeader, Csum, Zeros;
    ghost var tail := f[FRAME..];
    ghost var m := Message(msg, ip, server, xid, mac);
    Clear(f, FRAME);
    ZerosBefore(f, 42, FRAME, tail);
    FillMessage(f, msg, ip, server, xid, mac, tail);
    ZerosBefore(f, 34, 42, m + tail);
    Assoc([], [], Zeros(8), m, tail);
    FillUdp(f, m, tail);
    ghost var u := UdpHeader(Csum(UdpHeader(0) + m, SEED));
    ZerosBefore(f, 14, 34, u + m + tail);
    FillIp(f, u + m + tail);
    ghost var i := IpHeader(Csum(IpHeader(0), 0));
    ZerosBefore(f, 0, 14, i + (u + m + tail));
    assert f[0..] == f[..];
    FillEth(f, mac, i + (u + m + tail));
    Assoc(EthHeader(mac), i, u, m, tail);
    len := FRAME;
  }

  /** The zeros before a section, cut at `k`. */
  lemma ZerosBefore(f: array<Byte>, k: nat, n: nat, rest: seq<Byte>)
    requires k <= n <= f.Length && f[..n] == Zeros(n) && f[n..] == rest
    ensures f[k..] == Zeros(n - k) + rest && f[..k] == Zeros(k)
  {
    assert f[k..] == f[..n][k..] + f[n..];
    assert f[..k] == f[..n][..k];
  }

  lemma Assoc(e: seq<Byte>, i: seq<Byte>, u: seq<Byte>, m: seq<Byte>, t: seq<Byte>)
    ensures u + (m + t) == u + m + t && e + (i + (u + m + t)) == e + i + u + m + t
  {
  }
}
