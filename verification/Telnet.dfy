/** The telnet input filter: strips IAC sequences (RFC 854) and the NUL of CR NUL from a
    byte stream that arrives in arbitrary segments. Proved to invert the encoder a client uses. */
module Telnet {
  import opened ByteMemory

  const IAC: Byte := 0xFF
  const DONT: Byte := 0xFE
  const DO: Byte := 0xFD
  const WONT: Byte := 0xFC
  const WILL: Byte := 0xFB
  const SB: Byte := 0xFA
  const SE: Byte := 0xF0
  const CR: Byte := 0x0D
  const LF: Byte := 0x0A
  const ECHO: Byte := 1
  const SUPPGA: Byte := 3
  const REPLY_MAX := 30

  datatype State = Normal | SawIac | SawVerb | InSb

  datatype Filter = Filter(state: State, verb: Byte, reply: seq<Byte>, lastCr: bool)

  predicate IsVerb(c: Byte) { c == WILL || c == WONT || c == DO || c == DONT }

  /** The refusal queued for option `c`, if any. */
  function Refusal(f: Filter, c: Byte): seq<Byte> {
    if f.verb == WILL && c != SUPPGA && |f.reply| + 3 <= REPLY_MAX then [IAC, DONT, c]
    else if f.verb == DO && c != ECHO && c != SUPPGA && |f.reply| + 3 <= REPLY_MAX then [IAC, WONT, c]
    else []
  }

  /** One input byte: the next filter state. */
  function Next(f: Filter, c: Byte): Filter {
    match f.state
    case Normal =>
      if c == IAC then f.(state := SawIac)
      else if c == 0 && f.lastCr then f.(lastCr := false)
      else f.(lastCr := c == CR)
    case SawIac =>
      f.(state := if c == IAC then Normal else if c == SB then InSb else if IsVerb(c) then SawVerb else Normal)
    case SawVerb => f.(state := Normal, reply := f.reply + Refusal(f, c))
    case InSb => if c == IAC then f.(state := SawIac) else f
  }

  /** One input byte: the bytes passed on. */
  function Emit(f: Filter, c: Byte): (out: seq<Byte>)
    ensures |out| <= 1
  {
    match f.state
    case Normal => if c == IAC || (c == 0 && f.lastCr) then [] else [c]
    case SawIac => if c == IAC then [IAC] else []
    case SawVerb => []
    case InSb => []
  }

  function After(f: Filter, s: seq<Byte>): Filter
    decreases |s|
  {
    if s == [] then f else After(Next(f, s[0]), s[1..])
  }

  function Output(f: Filter, s: seq<Byte>): (out: seq<Byte>)
    ensures |out| <= |s|
    decreases |s|
  {
    if s == [] then [] else Emit(f, s[0]) + Output(Next(f, s[0]), s[1..])
  }

  /** Where the stream is cut does not matter. */
  lemma {:induction false} FeedConcat(f: Filter, a: seq<Byte>, b: seq<Byte>)
    ensures After(f, a + b) == After(After(f, a), b)
    ensures Output(f, a + b) == Output(f, a) + Output(After(f, a), b)
    decreases |a|
  {
    if a == [] {
      assert a + b == b;
    } else {
      assert (a + b)[1..] == a[1..] + b;
      FeedConcat(Next(f, a[0]), a[1..], b);
    }
  }

  // ---- streams without commands ----

  /** The byte at `i` is the NUL of a CR NUL; `cr` says whether a CR came just before. */
  predicate Swallowed(s: seq<Byte>, i: nat, cr: bool)
    requires i < |s|
  {
    s[i] == 0 && if i == 0 then cr else s[i - 1] == CR
  }

  /** `s` without the bytes swallowed, from `i` on. */
  function Plain(s: seq<Byte>, i: nat, cr: bool): seq<Byte>
    requires i <= |s|
    decreases |s| - i
  {
    if i == |s| then [] else (if Swallowed(s, i, cr) then [] else [s[i]]) + Plain(s, i + 1, cr)
  }

  lemma OneByte(f: Filter, c: Byte)
    ensures After(f, [c]) == Next(f, c) && Output(f, [c]) == Emit(f, c)
  {
    assert [c][1..] == [];
  }

  /** Outside commands every byte is passed on but the NUL right after a CR, whatever follows
      a CR otherwise; and the filter remembers just whether the last byte was a CR. */
  lemma {:induction false} PlainStream(f: Filter, s: seq<Byte>, i: nat)
    requires f.state == Normal && IAC !in s && i <= |s|
    ensures var g := After(f, s[..i]);
            && g.state == Normal && g.verb == f.verb && g.reply == f.reply
            && g.lastCr == (if i == 0 then f.lastCr else s[i - 1] == CR)
    ensures Output(f, s[..i]) + Plain(s, i, f.lastCr) == Plain(s, 0, f.lastCr)
    decreases i
  {
    hide After, Output, Next, Emit, Plain;
    if i > 0 {
      PlainStream(f, s, i - 1);
      var c, g := s[i - 1], After(f, s[..i - 1]);
      assert s[..i] == s[..i - 1] + [c] && c in s;
      FeedConcat(f, s[..i - 1], [c]);
      OneByte(g, c);
      PlainByte(g, c);
      PlainUnfolds(s, i - 1, f.lastCr);
    } else {
      assert s[..0] == [];
      Nothing(f);
    }
  }

  lemma PlainByte(g: Filter, c: Byte)
    requires g.state == Normal && c != IAC
    ensures Next(g, c) == g.(lastCr := c == CR) && Emit(g, c) == if c == 0 && g.lastCr then [] else [c]
  {
  }

  lemma PlainUnfolds(s: seq<Byte>, i: nat, cr: bool)
    requires i < |s|
    ensures Plain(s, i, cr) == (if Swallowed(s, i, cr) then [] else [s[i]]) + Plain(s, i + 1, cr)
  {
  }

  /** Such a stream comes out whole but for those NULs. */
  lemma PlainOutput(f: Filter, s: seq<Byte>)
    requires f.state == Normal && IAC !in s
    ensures Output(f, s) == Plain(s, 0, f.lastCr)
  {
    PlainStream(f, s, |s|);
    assert s[..|s|] == s;
  }

  // ---- what a client sends ----

  /** Data, an end of line, an option negotiation, a two-byte command, a subnegotiation. */
  datatype Item = Data(bytes: seq<Byte>) | Line | Negotiate(verb: Byte, opt: Byte) | Command(code: Byte)
      | Sub(body: seq<Byte>)

  predicate Sendable(i: Item) {
    match i
    case Negotiate(verb, _) => IsVerb(verb)
    case Command(code) => code != IAC && code != SB && !IsVerb(code)
    case Sub(body) => IAC !in body
    case _ => true
  }

  /** RFC 854: 0xFF is doubled, a bare carriage return is sent as CR NUL. */
  function Escape(s: seq<Byte>): seq<Byte> {
    if s == [] then [] else
    (if s[0] == IAC then [IAC, IAC] else if s[0] == CR then [CR, 0] else [s[0]]) + Escape(s[1..])
  }

  function EncodeItem(i: Item): seq<Byte> {
    match i
    case Data(bytes) => Escape(bytes)
    case Line => [CR, LF]
    case Negotiate(verb, opt) => [IAC, verb, opt]
    case Command(code) => [IAC, code]
    case Sub(body) => [IAC, SB] + body + [IAC, SE]
  }

  function Encode(items: seq<Item>): seq<Byte> {
    if items == [] then [] else EncodeItem(items[0]) + Encode(items[1..])
  }

  /** The data the items carry. */
  function Payload(items: seq<Item>): seq<Byte> {
    if items == [] then [] else
    (match items[0] case Data(bytes) => bytes case Line => [CR, LF] case _ => []) + Payload(items[1..])
  }

  /** Between items: no sequence open, no padding NUL expected. */
  predicate Rest(f: Filter) { f.state.Normal? && !f.lastCr }

  lemma {:induction false} EscapeInverts(f: Filter, s: seq<Byte>)
    requires Rest(f)
    ensures Output(f, Escape(s)) == s && After(f, Escape(s)) == f
    decreases |s|
  {
    if s != [] {
      var e := if s[0] == IAC then [IAC, IAC] else if s[0] == CR then [CR, 0] else [s[0]];
      Two(f, e);
      FeedConcat(f, e, Escape(s[1..]));
      EscapeInverts(f, s[1..]);
    }
  }

  /** Feeding one or two bytes, spelled out. */
  lemma Two(f: Filter, s: seq<Byte>)
    requires 1 <= |s| <= 2
    ensures |s| == 1 ==> Output(f, s) == Emit(f, s[0]) && After(f, s) == Next(f, s[0])
    ensures |s| == 2 ==> Output(f, s) == Emit(f, s[0]) + Emit(Next(f, s[0]), s[1])
    ensures |s| == 2 ==> After(f, s) == Next(Next(f, s[0]), s[1])
  {
    var g := Next(f, s[0]);
    if |s| == 2 {
      assert s[1..] == [s[1]];
      assert Output(g, [s[1]]) == Emit(g, s[1]) + Output(Next(g, s[1]), []) == Emit(g, s[1]);
      assert After(g, [s[1]]) == After(Next(g, s[1]), []) == Next(g, s[1]);
    } else {
      assert s[1..] == [];
    }
  }

  /** A subnegotiation body without 0xFF is eaten. */
  lemma {:induction false} BodyEaten(f: Filter, body: seq<Byte>)
    requires f.state.InSb? && IAC !in body
    ensures Output(f, body) == [] && After(f, body) == f
    decreases |body|
  {
    if body != [] {
      assert body[0] in body;
      BodyEaten(f, body[1..]);
    }
  }

  lemma ItemInverts(f: Filter, i: Item)
    requires Rest(f) && Sendable(i)
    ensures Output(f, EncodeItem(i)) == Payload([i])
    ensures Rest(After(f, EncodeItem(i)))
  {
    assert [i][1..] == [] && Payload([]) == [];
    hide After, Output;
    match i
    case Data(bytes) => EscapeInverts(f, bytes);
    case Line => Two(f, [CR, LF]);
    case Negotiate(verb, opt) => NegotiationEaten(f, verb, opt);
    case Command(code) => Two(f, [IAC, code]);
    case Sub(body) => SubEaten(f, body);
  }

  lemma NegotiationEaten(f: Filter, verb: Byte, opt: Byte)
    requires f.state.Normal? && IsVerb(verb)
    ensures var g := After(f, [IAC, verb, opt]);
            Output(f, [IAC, verb, opt]) == [] && g.state.Normal? && g.lastCr == f.lastCr
  {
    hide After, Output;
    Two(f, [IAC, verb]);
    Two(After(f, [IAC, verb]), [opt]);
    FeedConcat(f, [IAC, verb], [opt]);
    assert [IAC, verb] + [opt] == [IAC, verb, opt];
  }

  lemma SubEaten(f: Filter, body: seq<Byte>)
    requires f.state.Normal? && IAC !in body
    ensures var s := [IAC, SB] + body + [IAC, SE];
            Output(f, s) == [] && After(f, s).state.Normal? && After(f, s).lastCr == f.lastCr
  {
    hide After, Output;
    var g := After(f, [IAC, SB]);
    Two(f, [IAC, SB]);
    BodyEaten(g, body);
    Two(g, [IAC, SE]);
    FeedConcat(f, [IAC, SB] + body, [IAC, SE]);
    FeedConcat(f, [IAC, SB], body);
  }

  /** A command between a CR and the byte after it makes no difference to that byte; a doubled
      0xFF is one data byte. */
  lemma CommandsKeepCr(f: Filter, i: Item)
    requires f.state.Normal? && Sendable(i) && (i.Negotiate? || i.Command? || i.Sub?)
    ensures var g := After(f, EncodeItem(i));
            Output(f, EncodeItem(i)) == [] && g.state.Normal? && g.lastCr == f.lastCr
    ensures Output(f, [IAC, IAC]) == [IAC] && After(f, [IAC, IAC]) == f
  {
    hide After, Output;
    Two(f, [IAC, IAC]);
    match i
    case Negotiate(verb, opt) => NegotiationEaten(f, verb, opt);
    case Command(code) => Two(f, [IAC, code]);
    case Sub(body) => SubEaten(f, body);
  }

  lemma Nothing(f: Filter)
    ensures Output(f, []) == [] && After(f, []) == f
  {
  }

  lemma PayloadFirst(items: seq<Item>)
    requires items != []
    ensures Payload(items) == Payload([items[0]]) + Payload(items[1..])
  {
    assert [items[0]][1..] == [];
    assert Payload([]) == [];
  }

  /** The filter inverts the encoder. */
  lemma {:induction false} DecodeInvertsEncode(f: Filter, items: seq<Item>)
    requires Rest(f) && forall i :: i in items ==> Sendable(i)
    ensures Output(f, Encode(items)) == Payload(items) && Rest(After(f, Encode(items)))
    decreases |items|
  {
    hide EncodeItem, Next, Emit, After, Output, Sendable;
    if items == [] {
      Nothing(f);
    } else {
      var e := EncodeItem(items[0]);
      assert Payload(items) == Payload([items[0]]) + Payload(items[1..]) by { PayloadFirst(items); }
      ItemInverts(f, items[0]);
      FeedConcat(f, e, Encode(items[1..]));
      DecodeInvertsEncode(After(f, e), items[1..]);
    }
  }

  function Flatten(parts: seq<seq<Byte>>): seq<Byte> {
    if parts == [] then [] else parts[0] + Flatten(parts[1..])
  }

  /** The outputs of one call per segment, the filter carried across calls with its reply
      queue emptied before each. */
  function Session(f: Filter, segments: seq<seq<Byte>>): seq<Byte>
    decreases |segments|
  {
    if segments == [] then [] else
    var g := f.(reply := []);
    Output(g, segments[0]) + Session(After(g, segments[0]), segments[1..])
  }

  /** The reply queue does not influence what is passed on. */
  lemma {:induction false} ReplyIrrelevant(f: Filter, g: Filter, s: seq<Byte>)
    requires f.state == g.state && f.lastCr == g.lastCr
    ensures Output(f, s) == Output(g, s)
    ensures After(f, s).state == After(g, s).state && After(f, s).lastCr == After(g, s).lastCr
    decreases |s|
  {
    if s != [] {
      ReplyIrrelevant(Next(f, s[0]), Next(g, s[0]), s[1..]);
    }
  }

  lemma {:induction false} SessionIsStream(f: Filter, g: Filter, segments: seq<seq<Byte>>)
    requires f.state == g.state && f.lastCr == g.lastCr
    ensures Session(f, segments) == Output(g, Flatten(segments))
    decreases |segments|
  {
    if segments != [] {
      var h := f.(reply := []);
      ReplyIrrelevant(h, g, segments[0]);
      FeedConcat(g, segments[0], Flatten(segments[1..]));
      SessionIsStream(After(h, segments[0]), After(g, segments[0]), segments[1..]);
    }
  }

  const FRESH := Filter(Normal, 0, [], false)

  /** However the encoding of the items is cut into segments, the session passes on exactly
      their data. */
  lemma SessionInverts(items: seq<Item>, segments: seq<seq<Byte>>)
    requires (forall i :: i in items ==> Sendable(i)) && Flatten(segments) == Encode(items)
    ensures Session(FRESH, segments) == Payload(items)
  {
    SessionIsStream(FRESH, FRESH, segments);
    DecodeInvertsEncode(FRESH, items);
  }

  // ---- where the code departs from its documentation ----

  function Doubled(s: seq<Byte>): seq<Byte> {
    if s == [] then [] else (if s[0] == IAC then [IAC, IAC] else [s[0]]) + Doubled(s[1..])
  }

  /** A subnegotiation whose body is escaped as RFC 855 requires is dropped exactly when the
      body has no 0xFF; otherwise part of it reaches the shell. */
  lemma SubnegotiationIff(f: Filter, body: seq<Byte>)
    requires Rest(f)
    ensures Output(f, [IAC, SB] + Doubled(body) + [IAC, SE]) == [] <==> IAC !in body
  {
    var g := After(f, [IAC, SB]);
    Two(f, [IAC, SB]);
    FeedConcat(f, [IAC, SB] + Doubled(body), [IAC, SE]);
    FeedConcat(f, [IAC, SB], Doubled(body));
    if IAC in body {
      BodyLeaks(g, body);
    } else {
      DoubledPlain(body);
      BodyEaten(g, body);
      Two(g, [IAC, SE]);
    }
  }

  /** A body of one 0xFF byte, escaped: that byte comes out of the filter. */
  lemma SubnegotiationCase()
    ensures Output(FRESH, [IAC, SB] + Doubled([IAC]) + [IAC, SE]) == [IAC]
  {
    assert Doubled([IAC]) == [IAC, IAC] by { assert [IAC][1..] == []; }
    var g := After(FRESH, [IAC, SB]);
    Two(FRESH, [IAC, SB]);
    Two(g, [IAC, IAC]);
    var h := After(g, [IAC, IAC]);
    Two(h, [IAC, SE]);
    FeedConcat(FRESH, [IAC, SB] + [IAC, IAC], [IAC, SE]);
    FeedConcat(FRESH, [IAC, SB], [IAC, IAC]);
  }

  lemma {:induction false} DoubledPlain(s: seq<Byte>)
    requires IAC !in s
    ensures Doubled(s) == s
  {
    if s != [] {
      assert s[0] in s;
      DoubledPlain(s[1..]);
    }
  }

  lemma {:induction false} BodyLeaks(g: Filter, body: seq<Byte>)
    requires g.state.InSb? && IAC in body
    ensures Output(g, Doubled(body)) != []
    decreases |body|
  {
    if body[0] == IAC {
      Two(g, [IAC, IAC]);
      FeedConcat(g, [IAC, IAC], Doubled(body[1..]));
    } else {
      assert body[1..] + [] == body[1..] && body == [body[0]] + body[1..];
      assert Doubled(body)[1..] == Doubled(body[1..]);
      BodyLeaks(g, body[1..]);
    }
  }

  /** `verb` is never assigned, so from a fresh filter no refusal is ever queued. */
  lemma {:induction false} NeverRefuses(f: Filter, s: seq<Byte>)
    requires f.verb == 0
    ensures After(f, s).verb == 0 && After(f, s).reply == f.reply
    decreases |s|
  {
    if s != [] {
      NeverRefuses(Next(f, s[0]), s[1..]);
    }
  }

  // ---- the filter in place ----

  class IacFilter {
    var state: State
    var verb: Byte
    const reply: array<Byte>
    var nreply: nat
    var lastCr: bool

    ghost predicate Valid()
      reads this
    {
      reply.Length == REPLY_MAX && nreply <= REPLY_MAX
    }

    function View(): Filter
      reads this, reply
      requires nreply <= reply.Length
    {
      Filter(state, verb, reply[..nreply], lastCr)
    }

    constructor ()
      ensures Valid() && View() == FRESH && fresh(reply)
    {
      state, verb, nreply, lastCr := Normal, 0, 0, false;
      reply := new Byte[REPLY_MAX](_ => 0);
    }

    method Queue(a: Byte, b: Byte, c: Byte)
      requires Valid() && nreply + 3 <= REPLY_MAX
      modifies this`nreply, reply
      ensures Valid() && View() == old(View()).(reply := old(View()).reply + [a, b, c])
    {
      reply[nreply], reply[nreply + 1], reply[nreply + 2] := a, b, c;
      nreply := nreply + 3;
    }

    /** iac_strip: filter `input` into `out`; the filter keeps its state across calls. */
    method IacStrip(input: seq<Byte>, out: array<Byte>) returns (op: nat)
      requires Valid() && out != reply && |input| <= out.Length
      modifies this, reply, out
      ensures Valid() && op <= |input|
      ensures out[..op] == Output(old(View()), input) && View() == After(old(View()), input)
    {
      hide Emit, Next;
      op := 0;
      var i := 0;
      while i < |input|
        invariant i <= |input| && Valid() && op <= i
        invariant View() == After(old(View()), input[..i]) && out[..op] == Output(old(View()), input[..i])
      {
        ghost var f := View();
        FeedConcat(old(View()), input[..i], [input[i]]);
        Two(f, [input[i]]);
        assert input[..i + 1] == input[..i] + [input[i]];
        op := StripByte(input[i], out, op);
        i := i + 1;
      }
      assert input[..i] == input;
    }

    /** The body of the loop: one byte. */
    method StripByte(c: Byte, out: array<Byte>, at: nat) returns (op: nat)
      requires Valid() && out != reply && at < out.Length
      modifies this, reply, out
      ensures Valid() && at <= op <= at + 1
      ensures View() == Next(old(View()), c) && out[..op] == old(out[..at]) + Emit(old(View()), c)
    {
      op := at;
      match state
      case Normal =>
        if c == IAC {
          state := SawIac;
        } else if c == 0 && lastCr {
          lastCr := false;
        } else {
          lastCr := c == CR;
          out[op] := c;
          op := op + 1;
        }
      case SawIac =>
        if c == IAC {
          out[op] := IAC;
          op := op + 1;
          state := Normal;
        } else if c == SB {
          state := InSb;
        } else if IsVerb(c) {
          state := SawVerb;
        } else {
          state := Normal;
        }
      case SawVerb =>
        if verb == WILL && c != SUPPGA && nreply + 3 <= REPLY_MAX {
          Queue(IAC, DONT, c);
        } else if verb == DO && c != ECHO && c != SUPPGA && nreply + 3 <= REPLY_MAX {
          Queue(IAC, WONT, c);
        }
        state := Normal;
      case InSb =>
        if c == IAC { state := SawIac; }
    }
  }
}
