/** The DHCP client's frames read back: every field at its place on the wire, and the options
    as a receiver scans them. */
module DhcpRead {
  import opened Bits
  import opened ByteMemory
  import opened Checksum
  import opened Dhcp

  /** rd16 and rd32. */
  function Rd16(f: seq<Byte>, k: nat): nat
    requires k + 2 <= |f|
  {
    f[k] as nat * 256 + f[k + 1] as nat
  }

  function Rd32(f: seq<Byte>, k: nat): nat
    requires k + 4 <= |f|
  {
    Rd16(f, k) * 0x1_0000 + Rd16(f, k + 2)
  }

  ghost predicate ZeroAt(f: seq<Byte>, k: nat, n: nat) { k + n <= |f| && forall i :: k <= i < k + n ==> f[i] == 0 }

  lemma Read16(v: nat)
    ensures |Be16(v)| == 2 && Rd16(Be16(v), 0) == v % 0x1_0000
  {
    var q, r := v / 256, v % 256;
    DivModUnique(v, 0x1_0000, q / 256, q % 256 * 256 + r);
  }

  lemma Read32(v: nat)
    ensures |Be32(v)| == 4 && Rd32(Be32(v), 0) == v % 0x1_0000_0000
  {
    var hi, lo := v / 0x1_0000, v % 0x1_0000;
    DivMod(v, 0x1_0000);
    assert Be32(v) == Be16(hi) + Be16(lo) by { Halves(v, hi, lo); }
    Read16(hi);
    Read16(lo);
    DivModUnique(lo, 0x1_0000, 0, lo);
    DivModUnique(v, 0x1_0000_0000, hi / 0x1_0000, hi % 0x1_0000 * 0x1_0000 + lo);
  }

  lemma Halves(v: nat, hi: nat, lo: nat)
    requires v == hi * 0x1_0000 + lo && lo < 0x1_0000
    ensures v / 0x100_0000 % 256 == hi / 256 % 256 && v / 0x1_0000 % 256 == hi % 256
    ensures v / 256 % 256 == lo / 256 % 256 && v % 256 == lo % 256
  {
    var a, b, c, d := hi / 256, hi % 256, lo / 256, lo % 256;
    DivModUnique(v, 0x100_0000, a, b * 0x1_0000 + lo);
    DivModUnique(v, 0x1_0000, hi, lo);
    DivModUnique(v, 256, hi * 256 + c, d);
    DivModUnique(hi * 256 + c, 256, hi, c);
    DivModUnique(c, 256, 0, c);
  }

  // ---- section by section ----

  /** Broadcast, our address, IPv4. */
  ghost predicate EthSays(e: seq<Byte>, mac: seq<Byte>) {
    |e| == 14 && (forall i :: 0 <= i < 6 ==> e[i] == 255) && e[6..12] == mac && Rd16(e, 12) == 0x800
  }

  /** Version and header length, total length, TTL, UDP, from 0.0.0.0 to 255.255.255.255. */
  ghost predicate IpSays(h: seq<Byte>) {
    && |h| == 20 && h[0] == 0x45 && h[1] == 0 && Rd16(h, 2) == 328 && ZeroAt(h, 4, 4) && h[8] == 64 && h[9] == 17
    && ZeroAt(h, 12, 4) && Rd32(h, 16) == 0xffff_ffff
  }

  /** From the client port to the server port. */
  ghost predicate UdpSays(u: seq<Byte>) {
    |u| == 8 && Rd16(u, 0) == 68 && Rd16(u, 2) == 67 && Rd16(u, 4) == 308
  }

  /** A request over Ethernet: transaction, broadcast flag, no addresses yet. */
  ghost predicate HeadSays(h: seq<Byte>, xid: nat) {
    && |h| == 28 && h[..3] == [1, 1, 6] && h[3] == 0 && Rd32(h, 4) == xid % 0x1_0000_0000 && ZeroAt(h, 8, 2)
    && Rd16(h, 10) == 0x8000 && ZeroAt(h, 12, 16)
  }

  /** Our address, empty names, the cookie. */
  ghost predicate RestSays(t: seq<Byte>, mac: seq<Byte>) {
    |t| == 212 && t[..6] == mac && ZeroAt(t, 6, 202) && Rd32(t, 208) == 0x6382_5363
  }

  ghost predicate BootpSays(m: seq<Byte>, msg: Byte, ip: nat, server: nat, xid: nat, mac: seq<Byte>) {
    |m| == 300 && HeadSays(m[..28], xid) && RestSays(m[28..240], mac) && OptionsSay(Scan(m[240..]), msg, ip, server)
  }

  lemma EthRead(mac: seq<Byte>)
    requires |mac| == 6
    ensures EthSays(EthHeader(mac), mac)
  {
    hide Be16;
    Read16(0x800);
    assert EthHeader(mac)[12..] == Be16(0x800);
  }

  lemma IpRead(c: nat)
    ensures IpSays(IpHeader(c)) && Rd16(IpHeader(c), 10) == c % 0x1_0000
  {
    hide Be16;
    Read16(328);
    Read16(c);
    var h := IpHeader(c);
    assert h[2..4] == Be16(328) && h[10..12] == Be16(c);
    assert h[4..10] == [0, 0, 0, 0, 64, UDP_PROTO] && h[12..20] == [0, 0, 0, 0, 255, 255, 255, 255];
    assert h[4] == h[4..10][0] && h[5] == h[4..10][1] && h[6] == h[4..10][2] && h[7] == h[4..10][3];
    assert h[8] == h[4..10][4] && h[9] == h[4..10][5];
    assert h[12] == h[12..20][0] && h[13] == h[12..20][1] && h[14] == h[12..20][2] && h[15] == h[12..20][3];
    assert h[16] == h[12..20][4] && h[17] == h[12..20][5] && h[18] == h[12..20][6] && h[19] == h[12..20][7];
  }

  lemma UdpRead(c: nat)
    ensures UdpSays(UdpHeader(c)) && Rd16(UdpHeader(c), 6) == c % 0x1_0000
  {
    hide Be16;
    Read16(68);
    Read16(67);
    Read16(308);
    Read16(c);
    var u := UdpHeader(c);
    assert u[0..2] == Be16(68) && u[2..4] == Be16(67) && u[4..6] == Be16(308) && u[6..8] == Be16(c);
  }

  function Head(xid: nat): seq<Byte> {
    [1, 1, 6] + Zeros(1) + Be32(xid) + Zeros(2) + Be16(0x8000) + Zeros(16)
  }

  lemma HeadRead(xid: nat)
    ensures HeadSays(Head(xid), xid)
  {
    hide Be16, Be32, Zeros;
    Read32(xid);
    Read16(0x8000);
    var h := Head(xid);
    assert h[4..8] == Be32(xid) && h[10..12] == Be16(0x8000);
    assert h[3..4] == Zeros(1) && h[8..10] == Zeros(2) && h[12..28] == Zeros(16);
    assert h[3] == h[3..4][0];
    forall i | 8 <= i < 10 ensures h[i] == 0 { assert h[i] == h[8..10][i - 8]; }
    forall i | 12 <= i < 28 ensures h[i] == 0 { assert h[i] == h[12..28][i - 12]; }
  }

  lemma RestRead(mac: seq<Byte>)
    requires |mac| == 6
    ensures RestSays(mac + Zeros(202) + Be32(MAGIC), mac)
  {
    hide Be32, Zeros;
    Read32(MAGIC);
    var t := mac + Zeros(202) + Be32(MAGIC);
    assert t[6..208] == Zeros(202) && t[208..212] == Be32(MAGIC);
    forall i | 6 <= i < 208 ensures t[i] == 0 { assert t[i] == t[6..208][i - 6]; }
  }

  lemma MessageRead(msg: Byte, ip: nat, server: nat, xid: nat, mac: seq<Byte>)
    requires |mac| == 6
    ensures BootpSays(Message(msg, ip, server, xid, mac), msg, ip, server, xid, mac)
  {
    hide Be16, Be32, Options, Scan, OptionsSay, HeadSays, RestSays, Zeros;
    var m, o := Message(msg, ip, server, xid, mac), Options(msg, ip, server);
    var h, t := Head(xid), mac + Zeros(202) + Be32(MAGIC);
    Read32(xid);
    Read32(MAGIC);
    Read16(0x8000);
    assert m == h + t + (o + Zeros(60 - |o|));
    hide Message, Head;
    HeadRead(xid);
    RestRead(mac);
    OptionsSaid(msg, ip, server, Zeros(60 - |o|));
    assert |h| == 28 by { HeadSize(xid); }
    assert m[..28] == h && m[28..240] == t && m[240..] == o + Zeros(60 - |o|);
  }

  lemma HeadSize(xid: nat)
    ensures |Head(xid)| == 28
  {
  }

  // ---- options ----

  /** The options a receiver finds: pads skipped, up to the end mark or the first that does
      not fit. */
  function Scan(f: seq<Byte>): seq<(Byte, seq<Byte>)>
    decreases |f|
  {
    if f == [] || f[0] == 255 then []
    else if f[0] == 0 then Scan(f[1..])
    else if |f| < 2 || 2 + f[1] as nat > |f| then []
    else [(f[0], f[2..2 + f[1] as nat])] + Scan(f[2 + f[1] as nat..])
  }

  lemma ScanOne(code: Byte, n: Byte, v: seq<Byte>, rest: seq<Byte>)
    requires code != 0 && code != 255 && |v| == n as nat
    ensures Scan([code, n] + v + rest) == [(code, v)] + Scan(rest)
  {
    var f := [code, n] + v + rest;
    assert f[2..2 + n as nat] == v && f[2 + n as nat..] == rest;
  }

  /** The options of a message: its type; for a REQUEST the address asked for and the server;
      the parameters wanted. */
  lemma OptionsRead(msg: Byte, ip: nat, server: nat, pad: seq<Byte>)
    ensures Scan(Options(msg, ip, server) + pad) ==
            [(53, [msg])] + (if msg == REQUEST then [(50, Be32(ip)), (54, Be32(server))] else []) + [(55, [1, 3, 6])]
  {
    hide Be32, Scan;
    BeLengths(ip, server);
    var tail: seq<Byte> := [255] + pad;
    ScanEnd(pad);
    ScanOne(55, 3, [1, 3, 6], tail);
    var last := [55, 3] + [1, 3, 6] + tail;
    if msg == REQUEST {
      var second := [54, 4] + Be32(server) + last;
      var first := [50, 4] + Be32(ip) + second;
      ScanOne(54, 4, Be32(server), last);
      ScanOne(50, 4, Be32(ip), second);
      ScanOne(53, 1, [msg], first);
      assert Options(msg, ip, server) + pad == [53, 1] + [msg] + first;
    } else {
      ScanOne(53, 1, [msg], last);
      assert Options(msg, ip, server) + pad == [53, 1] + [msg] + last;
    }
  }

  lemma ScanEnd(pad: seq<Byte>)
    ensures Scan([255] + pad) == []
  {
  }

  // ---- the whole frame ----

  /** A frame as a receiver reads it, from the Ethernet header to the last option. */
  ghost predicate Reads(f: seq<Byte>, msg: Byte, ip: nat, server: nat, xid: nat, mac: seq<Byte>) {
    && |f| == 342 && EthSays(f[..14], mac) && IpSays(f[14..34]) && UdpSays(f[34..42])
    && BootpSays(f[42..], msg, ip, server, xid, mac)
  }

  /** The options name the message type and, in a REQUEST, the address and the server. */
  ghost predicate OptionsSay(os: seq<(Byte, seq<Byte>)>, msg: Byte, ip: nat, server: nat) {
    && os != [] && os[0] == (53, [msg]) && os[|os| - 1] == (55, [1, 3, 6])
    && if msg != 3 then |os| == 2
       else
         && |os| == 4
         && os[1].0 == 50 && |os[1].1| == 4 && Rd32(os[1].1, 0) == ip % 0x1_0000_0000
         && os[2].0 == 54 && |os[2].1| == 4 && Rd32(os[2].1, 0) == server % 0x1_0000_0000
  }

  lemma OptionsSaid(msg: Byte, ip: nat, server: nat, pad: seq<Byte>)
    ensures OptionsSay(Scan(Options(msg, ip, server) + pad), msg, ip, server)
  {
    hide Be32, Scan, Options;
    OptionsRead(msg, ip, server, pad);
    Read32(ip);
    Read32(server);
  }

  /** Every frame the client builds reads back as it was meant. */
  lemma FrameReads(msg: Byte, ip: nat, server: nat, xid: nat, mac: seq<Byte>)
    requires |mac| == 6
    ensures Reads(Frame(msg, ip, server, xid, mac), msg, ip, server, xid, mac)
  {
    hide EthHeader, IpHeader, UdpHeader, Message, Csum, EthSays, IpSays, UdpSays, BootpSays;
    var m := Message(msg, ip, server, xid, mac);
    var ic, uc := Csum(IpHeader(0), 0), Csum(UdpHeader(0) + m, SEED);
    var f := Frame(msg, ip, server, xid, mac);
    EthRead(mac);
    IpRead(ic);
    UdpRead(uc);
    MessageRead(msg, ip, server, xid, mac);
    HeaderSizes(mac, ic, uc);
    assert f[..14] == EthHeader(mac) && f[14..34] == IpHeader(ic);
    assert f[34..42] == UdpHeader(uc) && f[42..] == m;
  }

  lemma HeaderSizes(mac: seq<Byte>, ic: nat, uc: nat)
    requires |mac| == 6
    ensures |EthHeader(mac)| == 14 && |IpHeader(ic)| == 20 && |UdpHeader(uc)| == 8
  {
  }

  // ---- the receiver's checksum tests ----

  /** The UDP pseudo-header, taken from the frame: addresses, a zero, protocol, UDP length. */
  function Pseudo(f: seq<Byte>): seq<Byte>
    requires |f| == 342
  {
    f[26..34] + [0, f[23]] + f[38..40]
  }

  lemma PseudoIs(msg: Byte, ip: nat, server: nat, xid: nat, mac: seq<Byte>)
    requires |mac| == 6
    ensures var f := Frame(msg, ip, server, xid, mac);
            |f| == 342 && Pseudo(f) == [0, 0, 0, 0, 255, 255] + [255, 255, 0, 17, 1, 52]
  {
    hide EthHeader, Message, Csum, Be16;
    var m := Message(msg, ip, server, xid, mac);
    var ic, uc := Csum(IpHeader(0), 0), Csum(UdpHeader(0) + m, SEED);
    var f := Frame(msg, ip, server, xid, mac);
    HeaderSizes(mac, ic, uc);
    Lengths();
    var h, u := IpHeader(ic), UdpHeader(uc);
    assert h[9] == 17 && h[12..20] == [0, 0, 0, 0, 255, 255, 255, 255] && u[4..6] == Be16(308);
    hide IpHeader, UdpHeader;
    assert f[14..34] == h && f[34..42] == u;
    assert f[26..34] == f[14..34][12..20] && f[23] == f[14..34][9] && f[38..40] == f[34..42][4..6];
  }

  lemma Lengths()
    ensures Be16(308) == [1, 52] && forall v :: |Be16(v)| == 2
  {
  }

  lemma PseudoSum()
    ensures Sum([0, 0, 0, 0, 255, 255] + [255, 255, 0, 17, 1, 52]) == SEED
  {
    hide Sum;
    SumShort([0, 0, 0, 0, 255, 255]);
    SumShort([255, 255, 0, 17, 1, 52]);
    SumConcat([0, 0, 0, 0, 255, 255], [255, 255, 0, 17, 1, 52]);
  }

  /** Both tests of a receiver pass for every frame, the pseudo-header taken from the frame. */
  lemma ReceiverAccepts(msg: Byte, ip: nat, server: nat, xid: nat, mac: seq<Byte>)
    requires |mac| == 6
    ensures var f := Frame(msg, ip, server, xid, mac);
            |f| == 342 && Csum(f[14..34], 0) == 0 && Csum(Pseudo(f) + f[34..], 0) == 0
  {
    hide Frame, Sum, Fold, Pseudo;
    var f := Frame(msg, ip, server, xid, mac);
    BothChecksumsVerify(msg, ip, server, xid, mac);
    PseudoIs(msg, ip, server, xid, mac);
    PseudoSum();
    assert f[34..342] == f[34..];
    SumConcat(Pseudo(f), f[34..]);
  }
}
