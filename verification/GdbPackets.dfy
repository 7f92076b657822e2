/** Packet framing of the debug server: hexadecimal bytes, sending and receiving packets. */
module GdbPackets {
  import opened Bytes

  const BUFMAX: nat := 400
  const DOLLAR: byte := 36
  const HASH: byte := 35
  const PLUS: byte := 43
  const MINUS: byte := 45
  const COLON: byte := 58

  // Hexadecimal digits

  function HexChar(n: nat): byte
    requires n < 16
  {
    if n < 10 then 48 + n else 87 + n
  }

  /** The value of a digit; 255 for any other character. */
  function Hex(ch: byte): byte
  {
    if 97 <= ch <= 102 then ch - 87 else if 48 <= ch <= 57 then ch - 48 else if 65 <= ch <= 70 then ch - 55 else 255
  }

  /** The digits, by their characters. */
  lemma HexIs(n: nat)
    requires n < 16
    ensures HexChar(n) == "0123456789abcdef"[n] as int
    ensures Hex("0123456789abcdef"[n] as int) == n == Hex("0123456789ABCDEF"[n] as int)
  {
  }

  /** No other character is a digit. */
  lemma NoHex(ch: byte)
    requires forall n :: 0 <= n < 16 ==> "0123456789abcdef"[n] as int != ch && "0123456789ABCDEF"[n] as int != ch
    ensures Hex(ch) == 255
  {
    var n := if 97 <= ch <= 102 then ch - 87 else if 48 <= ch <= 57 then ch - 48 else if 65 <= ch <= 70 then ch - 55
      else 0;
    HexIs(n);
    assert "0123456789abcdef"[n] as int != ch && "0123456789ABCDEF"[n] as int != ch;
  }

  function Hexed(m: seq<byte>): (r: seq<byte>)
    ensures |r| == 2 * |m|
  {
    if m == [] then [] else Hexed(m[..|m| - 1]) + [HexChar(m[|m| - 1] / 16), HexChar(m[|m| - 1] % 16)]
  }

  /** The bytes two digits each stand for, in 8-bit arithmetic. */
  function Unhexed(b: seq<byte>, count: nat): (r: seq<byte>)
    requires 2 * count <= |b|
    ensures |r| == count
  {
    if count == 0 then [] else Unhexed(b, count - 1) + [Pair(b[2 * count - 2], b[2 * count - 1])]
  }

  function Pair(a: byte, b: byte): byte
  {
    (Hex(a) * 16 % 256 + Hex(b)) % 256
  }

  lemma PairBack(x: byte)
    ensures Pair(HexChar(x / 16), HexChar(x % 16)) == x
  {
    hide Hex, HexChar, Pair;
    HexBack(x / 16);
    HexBack(x % 16);
    PairIs(HexChar(x / 16), HexChar(x % 16));
  }

  lemma HexBack(n: nat)
    requires n < 16
    ensures Hex(HexChar(n)) == n
  {
  }

  lemma PairIs(a: byte, b: byte)
    requires Hex(a) < 16 && Hex(b) < 16
    ensures Pair(a, b) == 16 * Hex(a) + Hex(b)
  {
    hide Hex;
  }

  /** mem2hex: writes the digits and a terminator behind them. */
  method Mem2Hex(mem: seq<byte>, buf: array<byte>)
    requires 2 * |mem| < buf.Length
    modifies buf
    ensures buf[..2 * |mem|] == Hexed(mem) && buf[2 * |mem|] == 0
    ensures forall i :: 2 * |mem| < i < buf.Length ==> buf[i] == old(buf[i])
  {
    var i: nat := 0;
    while i < |mem|
      invariant i <= |mem| && buf[..2 * i] == Hexed(mem[..i])
      invariant forall j :: 2 * |mem| < j < buf.Length ==> buf[j] == old(buf[j])
    {
      var ch := mem[i];
      ghost var done := buf[..2 * i];
      buf[2 * i] := HexChar(ch / 16);
      buf[2 * i + 1] := HexChar(ch % 16);
      i := i + 1;
      assert mem[..i][..i - 1] == mem[..i - 1];
      assert buf[..2 * i] == done + [HexChar(ch / 16), HexChar(ch % 16)];
    }
    assert mem[..i] == mem;
    ghost var done := buf[..2 * i];
    buf[2 * i] := 0;
    assert buf[..2 * i] == done;
  }

  /** hex2mem: writes the bytes the digits stand for. */
  method Hex2Mem(b: seq<byte>, mem: array<byte>, count: nat)
    requires 2 * count <= |b| && count <= mem.Length
    modifies mem
    ensures mem[..count] == Unhexed(b, count)
    ensures forall i :: count <= i < mem.Length ==> mem[i] == old(mem[i])
  {
    var i: nat := 0;
    while i < count
      invariant i <= count && mem[..i] == Unhexed(b, i)
      invariant forall j :: count <= j < mem.Length ==> mem[j] == old(mem[j])
    {
      var ch := Hex(b[2 * i]) * 16 % 256;
      ghost var done := mem[..i];
      mem[i] := (ch + Hex(b[2 * i + 1])) % 256;
      i := i + 1;
      assert mem[..i] == done + [mem[i - 1]];
    }
  }

  /** The digit of the high half comes first. */
  lemma {:induction false} HexedAt(m: seq<byte>, i: nat)
    requires i < |m|
    ensures Hexed(m)[2 * i] == "0123456789abcdef"[m[i] / 16] as int
    ensures Hexed(m)[2 * i + 1] == "0123456789abcdef"[m[i] % 16] as int
    decreases |m|
  {
    hide HexChar;
    var n := |m| - 1;
    if i == n {
      HexIs(m[n] / 16);
      HexIs(m[n] % 16);
    } else {
      HexedAt(m[..n], i);
    }
  }

  lemma {:induction false} UnhexedAt(b: seq<byte>, count: nat, i: nat, hi: nat, lo: nat)
    requires i < count && 2 * count <= |b| && hi < 16 && lo < 16
    requires b[2 * i] in {"0123456789abcdef"[hi] as int, "0123456789ABCDEF"[hi] as int}
    requires b[2 * i + 1] in {"0123456789abcdef"[lo] as int, "0123456789ABCDEF"[lo] as int}
    ensures Unhexed(b, count)[i] == 16 * hi + lo
    decreases count
  {
    hide Hex, Pair;
    if i == count - 1 {
      HexIs(hi);
      HexIs(lo);
      PairIs(b[2 * i], b[2 * i + 1]);
    } else {
      UnhexedAt(b, count - 1, i, hi, lo);
    }
  }

  /** Reading back the digits of bytes gives the bytes. */
  lemma {:induction false} HexRoundTrip(m: seq<byte>, b: seq<byte>)
    requires 2 * |m| <= |b| && b[..2 * |m|] == Hexed(m)
    ensures Unhexed(b, |m|) == m
    decreases |m|
  {
    hide Pair, HexChar;
    if m != [] {
      var n := |m| - 1;
      var h := Hexed(m);
      assert h[..2 * n] == Hexed(m[..n]);
      assert b[..2 * n] == b[..2 * |m|][..2 * n];
      HexRoundTrip(m[..n], b);
      assert b[2 * n] == h[2 * n] && b[2 * n + 1] == h[2 * n + 1];
      PairBack(m[n]);
    }
  }

  // Packets

  function Sum(p: seq<byte>): byte
  {
    if p == [] then 0 else (Sum(p[..|p| - 1]) + p[|p| - 1]) % 256
  }

  lemma SumMore(p: seq<byte>, n: nat)
    requires n <= |p|
    ensures Sum(p[..0]) == 0 && (n < |p| ==> Sum(p[..n + 1]) == (Sum(p[..n]) + p[n]) % 256)
  {
    if n < |p| {
      assert p[..n + 1][..n] == p[..n];
    }
  }

  /** A payload as it is sent. */
  function Frame(p: seq<byte>): seq<byte>
  {
    [DOLLAR] + p + [HASH, HexChar(Sum(p) / 16), HexChar(Sum(p) % 16)]
  }

  /** The sum of all characters. */
  function Total(p: seq<byte>): nat
  {
    if p == [] then 0 else p[0] + Total(p[1..])
  }

  /** A frame by its characters: `$`, the payload, `#`, and two digits with the sum of its characters modulo 256. */
  ghost predicate IsFrame(p: seq<byte>, f: seq<byte>)
  {
    && |f| == |p| + 4 && f[0] == '$' as int && f[1..|p| + 1] == p && f[|p| + 1] == '#' as int
    && f[|p| + 2] == "0123456789abcdef"[Total(p) / 16 % 16] as int
    && f[|p| + 3] == "0123456789abcdef"[Total(p) % 16] as int
  }

  lemma {:induction false} TotalAppend(p: seq<byte>, b: byte)
    ensures Total(p + [b]) == Total(p) + b
  {
    if p != [] {
      assert (p + [b])[1..] == p[1..] + [b];
      TotalAppend(p[1..], b);
    }
  }

  lemma {:induction false} SumIs(p: seq<byte>)
    ensures Sum(p) == Total(p) % 256
    decreases |p|
  {
    if p != [] {
      var n := |p| - 1;
      SumIs(p[..n]);
      assert p == p[..n] + [p[n]];
      TotalAppend(p[..n], p[n]);
    }
  }

  lemma FrameIs(p: seq<byte>)
    ensures IsFrame(p, Frame(p))
  {
    hide Sum, Total, HexChar;
    SumIs(p);
    var t := Total(p);
    LowByte(t);
    HexIs(t / 16 % 16);
    HexIs(t % 16);
    assert Frame(p)[1..|p| + 1] == p;
  }

  lemma LowByte(t: nat)
    ensures t % 256 / 16 == t / 16 % 16 && t % 256 % 16 == t % 16
  {
  }

  /** There is one frame for every payload. */
  lemma OneFrame(p: seq<byte>, f: seq<byte>)
    requires IsFrame(p, f)
    ensures f == Frame(p)
  {
    FrameIs(p);
    var g, n := Frame(p), |p| + 1;
    assert f == [f[0]] + f[1..n] + [f[n], f[n + 1], f[n + 2]] && g == [g[0]] + g[1..n] + [g[n], g[n + 1], g[n + 2]];
  }

  /** What receiving comes to: no packet before the input ends, or a packet in the buffer from `start` on; `sent` is
      what was answered. */
  datatype Outcome = Starved(sent: seq<byte>) | Packet(start: nat, buf: seq<byte>, rest: seq<byte>, sent: seq<byte>)

  function Answered(a: byte, o: Outcome): Outcome
  {
    o.(sent := [a] + o.sent)
  }

  /** Waiting for the start of a packet. */
  function Receive(inp: seq<byte>, buf: seq<byte>): Outcome
    requires |buf| == BUFMAX
    decreases |inp|, 1
  {
    if inp == [] then Starved([])
    else if inp[0] != DOLLAR then Receive(inp[1..], buf)
    else Body(inp[1..], buf, 0, 0)
  }

  /** Inside a packet, of which `count` characters have come. */
  function Body(inp: seq<byte>, buf: seq<byte>, count: nat, sum: byte): Outcome
    requires |buf| == BUFMAX && count < BUFMAX
    decreases |inp|, 2
  {
    if count >= BUFMAX - 1 then Receive(inp, buf[count := 0])
    else if inp == [] then Starved([])
    else if inp[0] == DOLLAR then Body(inp[1..], buf, 0, 0)
    else if inp[0] == HASH then Verify(inp[1..], buf[count := 0], sum)
    else Body(inp[1..], buf[count := inp[0]], count + 1, (sum + inp[0]) % 256)
  }

  /** Behind the end of a packet: the checksum and the answer. */
  function Verify(inp: seq<byte>, buf: seq<byte>, sum: byte): Outcome
    requires |buf| == BUFMAX
    decreases |inp|, 0
  {
    if |inp| < 2 then Starved([])
    else if Pair(inp[0], inp[1]) != sum then Answered(MINUS, Receive(inp[2..], buf))
    else if buf[2] == COLON then Packet(3, buf, inp[2..], [PLUS, buf[0], buf[1]])
    else Packet(0, buf, inp[2..], [PLUS])
  }

  /** The line to the debugger. */
  class Port {
    var input: seq<byte>
    var output: seq<byte>

    constructor (input: seq<byte>)
      ensures this.input == input && output == []
    {
      this.input, output := input, [];
    }

    method ReadChar() returns (ok: bool, ch: byte)
      modifies this`input
      ensures ok <==> old(input) != []
      ensures ok ==> ch == old(input)[0] && input == old(input)[1..]
      ensures !ok ==> input == []
    {
      ok, ch := input != [], 0;
      if ok {
        ch, input := input[0], input[1..];
      }
    }

    method SendChar(ch: byte)
      modifies this`output
      ensures output == old(output) + [ch]
    {
      output := output + [ch];
    }
  }

  /** getPacket, up to the end of the body: fills the buffer; `ended` says whether the end mark came in time. */
  method ReadBody(port: Port, buffer: array<byte>) returns (ok: bool, ended: bool, sum: byte)
    requires buffer.Length == BUFMAX
    modifies port`input, buffer
    ensures !ok ==> Body(old(port.input), old(buffer[..]), 0, 0) == Starved([])
    ensures ok && ended ==> Body(old(port.input), old(buffer[..]), 0, 0) == Verify(port.input, buffer[..], sum)
    ensures ok && !ended ==> Body(old(port.input), old(buffer[..]), 0, 0) == Receive(port.input, buffer[..])
    ensures |port.input| <= |old(port.input)|
  {
    hide Receive, Verify;
    ghost var goal := Body(port.input, buffer[..], 0, 0);
    var count: nat, ch: byte;
    sum, count, ch := 0, 0, 0;
    while count < BUFMAX - 1
      invariant count <= BUFMAX - 1 && ch != HASH && |port.input| <= |old(port.input)|
      invariant goal == Body(port.input, buffer[..], count, sum)
      decreases |port.input|
    {
      ok, ch := port.ReadChar();
      if !ok {
        return false, false, sum;
      }
      if ch == DOLLAR {
        sum, count := 0, 0;
      } else if ch == HASH {
        ghost var b := buffer[..];
        buffer[count] := 0;
        assert buffer[..] == b[count := 0];
        return true, true, sum;
      } else {
        ghost var b := buffer[..];
        sum := (sum + ch) % 256;
        buffer[count] := ch;
        assert buffer[..] == b[count := ch];
        count := count + 1;
      }
    }
    ghost var b := buffer[..];
    buffer[count] := 0;
    assert buffer[..] == b[count := 0];
    return true, false, sum;
  }

  /** An outcome after something was answered before. */
  function After(sent: seq<byte>, o: Outcome): Outcome
  {
    o.(sent := sent + o.sent)
  }

  lemma AfterLast(sent: seq<byte>, start: nat, buf: seq<byte>, rest: seq<byte>, last: seq<byte>)
    ensures After(sent, Packet(start, buf, rest, last)) == Packet(start, buf, rest, sent + last)
    ensures After(sent, Starved([])) == Starved(sent)
  {
    assert sent + [] == sent;
  }

  lemma AfterMore(sent: seq<byte>, a: byte, o: Outcome)
    ensures After(sent, Answered(a, o)) == After(sent + [a], o) && After([], o) == o
  {
    assert sent + ([a] + o.sent) == (sent + [a]) + o.sent;
    assert [] + o.sent == o.sent;
  }

  /** Skips what is not the start of a packet. */
  method AwaitStart(port: Port, ghost buf: seq<byte>) returns (ok: bool)
    requires |buf| == BUFMAX
    modifies port`input
    ensures Receive(old(port.input), buf) == if ok then Body(port.input, buf, 0, 0) else Starved([])
    ensures |port.input| <= |old(port.input)| && (ok ==> |port.input| < |old(port.input)|)
  {
    hide Body;
    ghost var goal := Receive(port.input, buf);
    while true
      invariant goal == Receive(port.input, buf) && |port.input| <= |old(port.input)|
      decreases |port.input|
    {
      var ch;
      ok, ch := port.ReadChar();
      if !ok || ch == DOLLAR {
        return;
      }
    }
  }

  /** Reads the checksum behind a packet and answers; a packet that starts with a sequence number is answered with
      it. */
  method Acknowledge(port: Port, buffer: array<byte>, sum: byte) returns (ok: bool, good: bool, start: nat)
    requires buffer.Length == BUFMAX
    modifies port
    ensures |port.input| <= |old(port.input)|
    ensures !ok ==> Verify(old(port.input), buffer[..], sum) == Starved([]) && port.output == old(port.output)
    ensures ok && !good ==>
      && Verify(old(port.input), buffer[..], sum) == Answered(MINUS, Receive(port.input, buffer[..]))
      && port.output == old(port.output) + [MINUS]
    ensures ok && good ==>
      exists sent :: Verify(old(port.input), buffer[..], sum) == Packet(start, buffer[..], port.input, sent) &&
        port.output == old(port.output) + sent
  {
    hide Receive;
    good, start := false, 0;
    var a, b;
    ok, a := port.ReadChar();
    if !ok {
      return;
    }
    ok, b := port.ReadChar();
    if !ok {
      return;
    }
    if sum != Pair(a, b) {
      port.SendChar(MINUS);
    } else {
      good := true;
      ghost var sent := if buffer[2] == COLON then [PLUS, buffer[0], buffer[1]] else [PLUS];
      port.SendChar(PLUS);
      if buffer[2] == COLON {
        port.SendChar(buffer[0]);
        port.SendChar(buffer[1]);
        start := 3;
      }
      assert port.output == old(port.output) + sent;
    }
  }

  /** getPacket: the next packet that arrives whole; none if the line falls silent before. */
  method GetPacket(port: Port, buffer: array<byte>) returns (ok: bool, start: nat)
    requires buffer.Length == BUFMAX
    modifies port, buffer
    ensures var goal := Receive(old(port.input), old(buffer[..]));
      && port.output == old(port.output) + goal.sent
      && (ok <==> goal.Packet?) && (ok ==> goal == Packet(start, buffer[..], port.input, goal.sent))
  {
    hide Receive, Verify, Body, After, Answered;
    ghost var goal := Receive(port.input, buffer[..]);
    ghost var sent: seq<byte> := [];
    AfterMore([], 0, goal);
    assert port.output == old(port.output) + sent;
    while true
      invariant goal == After(sent, Receive(port.input, buffer[..])) && port.output == old(port.output) + sent
      decreases |port.input|
    {
      AfterLast(sent, 0, [], [], []);
      ok := AwaitStart(port, buffer[..]);
      if !ok {
        return false, 0;
      }
      var ended, sum;
      ok, ended, sum := ReadBody(port, buffer);
      if !ok {
        return false, 0;
      }
      if ended {
        var good;
        ghost var now := Verify(port.input, buffer[..], sum);
        ok, good, start := Acknowledge(port, buffer, sum);
        if !ok {
          return;
        }
        if good {
          ghost var last :| now == Packet(start, buffer[..], port.input, last) &&
            port.output == old(port.output) + sent + last;
          AfterLast(sent, start, buffer[..], port.input, last);
          assert port.output == old(port.output) + (sent + last);
          return;
        }
        AfterMore(sent, MINUS, Receive(port.input, buffer[..]));
        sent := sent + [MINUS];
        assert port.output == old(port.output) + sent;
      }
    }
  }

  /** putPacket: sends the payload until it is acknowledged. `tries` is how often it was sent. */
  method PutPacket(port: Port, buffer: array<byte>, ghost p: seq<byte>) returns (ok: bool, ghost tries: nat)
    requires |p| < buffer.Length && buffer[..|p|] == p && buffer[|p|] == 0 && 0 !in p
    modifies port
    ensures port.output == old(port.output) + Repeated(Frame(p), tries) && IsFrame(p, Frame(p))
    ensures ok ==>
      && 0 < tries <= |old(port.input)| && old(port.input)[tries - 1] == '+' as int
      && '+' as int !in old(port.input)[..tries - 1] && port.input == old(port.input)[tries..]
    ensures !ok ==> '+' as int !in old(port.input) && tries == |old(port.input)| + 1
  {
    hide Frame, IsFrame;
    FrameIs(p);
    tries := 0;
    assert port.output == old(port.output) + Repeated(Frame(p), 0);
    while true
      invariant tries <= |old(port.input)| && port.input == old(port.input)[tries..]
      invariant PLUS !in old(port.input)[..tries]
      invariant port.output == old(port.output) + Repeated(Frame(p), tries)
      decreases |port.input|
    {
      SendFrame(port, buffer, p);
      ghost var all := old(port.output) + Repeated(Frame(p), tries) + Frame(p);
      assert all == old(port.output) + Repeated(Frame(p), tries + 1);
      var ch;
      ok, ch := port.ReadChar();
      if ok {
        assert old(port.input)[..tries + 1] == old(port.input)[..tries] + [ch];
      } else {
        assert old(port.input)[..tries] == old(port.input);
      }
      tries := tries + 1;
      if !ok || ch == PLUS {
        return;
      }
    }
  }

  function Repeated(f: seq<byte>, n: nat): seq<byte>
  {
    if n == 0 then [] else Repeated(f, n - 1) + f
  }

  method SendFrame(port: Port, buffer: array<byte>, ghost p: seq<byte>)
    requires |p| < buffer.Length && buffer[..|p|] == p && buffer[|p|] == 0 && 0 !in p
    modifies port`output
    ensures port.output == old(port.output) + Frame(p)
  {
    hide HexChar, Sum;
    assert forall i :: 0 <= i < |p| ==> buffer[i] == buffer[..|p|][i] == p[i] && p[i] in p;
    SumMore(p, 0);
    port.SendChar(DOLLAR);
    var sum: byte, count: nat := 0, 0;
    while buffer[count] != 0
      invariant count <= |p| && sum == Sum(p[..count]) && port.output == old(port.output) + [DOLLAR] + p[..count]
      decreases |p| - count
    {
      port.SendChar(buffer[count]);
      sum := (sum + buffer[count]) % 256;
      SumMore(p, count);
      count := count + 1;
    }
    assert p[..count] == p;
    port.SendChar(HASH);
    port.SendChar(HexChar(sum / 16));
    port.SendChar(HexChar(sum % 16));
  }

  // Round trips

  /** Characters a packet may have. */
  predicate Plain(p: seq<byte>)
  {
    DOLLAR !in p && HASH !in p
  }

  /** The buffer after a payload was received. */
  function Filled(buf: seq<byte>, p: seq<byte>): (r: seq<byte>)
    requires |p| < |buf|
    ensures |r| == |buf|
  {
    p + [0] + buf[|p| + 1..]
  }

  lemma {:induction false} NoiseSkipped(noise: seq<byte>, inp: seq<byte>, buf: seq<byte>)
    requires DOLLAR !in noise && |buf| == BUFMAX
    ensures Receive(noise + inp, buf) == Receive(inp, buf)
    decreases |noise|
  {
    hide Body;
    if noise == [] {
      assert noise + inp == inp;
    } else {
      assert (noise + inp)[1..] == noise[1..] + inp;
      NoiseSkipped(noise[1..], inp, buf);
    }
  }

  /** The rest of a body is read into the buffer. */
  lemma {:induction false} BodyRead(p: seq<byte>, k: nat, inp: seq<byte>, b: seq<byte>, buf: seq<byte>)
    requires Plain(p) && k <= |p| <= BUFMAX - 2 && |b| == |buf| == BUFMAX && b == p[..k] + buf[k..]
    ensures Body(p[k..] + ([HASH] + inp), b, k, Sum(p[..k])) == Verify(inp, Filled(buf, p), Sum(p))
    decreases |p| - k
  {
    hide Verify, Receive;
    var s := p[k..] + ([HASH] + inp);
    if k == |p| {
      assert p[..k] == p && s == [HASH] + inp && s[1..] == inp;
      assert b[k := 0] == Filled(buf, p);
    } else {
      assert p[k] in p && s[0] == p[k] && s[1..] == p[k + 1..] + ([HASH] + inp);
      assert p[..k + 1][..k] == p[..k];
      var c := b[k := p[k]];
      assert c == p[..k + 1] + buf[k + 1..];
      BodyRead(p, k + 1, inp, c, buf);
    }
  }

  /** A whole transmission: payload, end mark and two digits. */
  lemma TransmissionRead(p: seq<byte>, inp: seq<byte>, buf: seq<byte>)
    requires Plain(p) && |p| <= BUFMAX - 2 && |buf| == BUFMAX
    ensures Receive([DOLLAR] + p + [HASH] + inp, buf) == Verify(inp, Filled(buf, p), Sum(p))
  {
    hide Verify, Body;
    var s := [DOLLAR] + p + [HASH] + inp;
    assert s[0] == DOLLAR && s[1..] == p[0..] + ([HASH] + inp);
    assert p[..0] == [] && buf == p[..0] + buf[0..];
    BodyRead(p, 0, inp, buf, buf);
  }

  /** A transmission that breaks off is forgotten when the next one starts. */
  lemma {:induction false} BrokenOff(q: seq<byte>, k: nat, inp: seq<byte>, b: seq<byte>, sum: byte)
    returns (c: seq<byte>)
    requires '$' as int !in q && '#' as int !in q && k + |q| <= 398 && |b| == 400
    ensures |c| == 400 && Body(q + (['$' as int] + inp), b, k, sum) == Receive(['$' as int] + inp, c)
    decreases |q|
  {
    hide Verify;
    var s := q + (['$' as int] + inp);
    if q == [] {
      c := b;
      assert s == ['$' as int] + inp && s[1..] == inp;
    } else {
      assert q[0] in q && s[0] == q[0] && s[1..] == q[1..] + (['$' as int] + inp);
      c := BrokenOff(q[1..], k + 1, inp, b[k := q[0]], (sum + q[0]) % 256);
    }
  }

  /** A transmission whose digits are not its checksum, with what came before it. */
  datatype Garbled = Garbled(noise: seq<byte>, body: seq<byte>, a: byte, b: byte)

  predicate IsGarbled(t: Garbled)
  {
    DOLLAR !in t.noise && Plain(t.body) && |t.body| <= BUFMAX - 2 && Pair(t.a, t.b) != Sum(t.body)
  }

  function Transmitted(ts: seq<Garbled>): seq<byte>
  {
    if ts == [] then [] else ts[0].noise + ([DOLLAR] + ts[0].body + [HASH] + [ts[0].a, ts[0].b]) + Transmitted(ts[1..])
  }

  /** A garbled transmission is refused, and the next one awaited. */
  lemma GarbledRefused(t: Garbled, inp: seq<byte>, buf: seq<byte>)
    requires IsGarbled(t) && |buf| == BUFMAX
    ensures Receive(t.noise + ([DOLLAR] + t.body + [HASH] + [t.a, t.b]) + inp, buf) ==
      Answered(MINUS, Receive(inp, Filled(buf, t.body)))
  {
    hide Receive, Body;
    var s := [DOLLAR] + t.body + [HASH] + ([t.a, t.b] + inp);
    assert t.noise + ([DOLLAR] + t.body + [HASH] + [t.a, t.b]) + inp == t.noise + s;
    NoiseSkipped(t.noise, s, buf);
    TransmissionRead(t.body, [t.a, t.b] + inp, buf);
    assert ([t.a, t.b] + inp)[2..] == inp;
  }

  lemma {:induction false} AllRefused(ts: seq<Garbled>, inp: seq<byte>, buf: seq<byte>) returns (b: seq<byte>)
    requires (forall t :: t in ts ==> IsGarbled(t)) && |buf| == BUFMAX
    ensures |b| == BUFMAX && Receive(Transmitted(ts) + inp, buf) == After(seq(|ts|, _ => MINUS), Receive(inp, b))
    ensures ts == [] ==> b == buf
    decreases |ts|
  {
    hide Receive, Body, Verify;
    if ts == [] {
      b := buf;
      assert Transmitted(ts) + inp == inp;
      assert seq(|ts|, _ => MINUS) + Receive(inp, b).sent == Receive(inp, b).sent;
    } else {
      var t := ts[0];
      var more := Transmitted(ts[1..]) + inp;
      assert Transmitted(ts) + inp == t.noise + ([DOLLAR] + t.body + [HASH] + [t.a, t.b]) + more;
      GarbledRefused(t, more, buf);
      b := AllRefused(ts[1..], inp, Filled(buf, t.body));
      assert [MINUS] + (seq(|ts| - 1, _ => MINUS) + Receive(inp, b).sent) ==
        seq(|ts|, _ => MINUS) + Receive(inp, b).sent;
    }
  }

  /** What a receiver makes of the frame of a payload that fits: it is accepted, and handed over from its start unless
      its third character is a colon. With fewer than two characters, the third one is what an earlier packet left in
      the buffer. */
  lemma FrameRead(p: seq<byte>, noise: seq<byte>, rest: seq<byte>, buf: seq<byte>)
    requires Plain(p) && |p| <= BUFMAX - 2 && DOLLAR !in noise && |buf| == BUFMAX
    ensures var f := Filled(buf, p);
      Receive(noise + Frame(p) + rest, buf) == if f[2] == ':' as int then Packet(3, f, rest, ['+' as int, f[0], f[1]])
        else Packet(0, f, rest, ['+' as int])
  {
    hide Receive, Body, HexChar, Pair;
    var digits := [HexChar(Sum(p) / 16), HexChar(Sum(p) % 16)];
    var s := [DOLLAR] + p + [HASH] + (digits + rest);
    assert noise + Frame(p) + rest == noise + s;
    NoiseSkipped(noise, s, buf);
    TransmissionRead(p, digits + rest, buf);
    PairBack(Sum(p));
    assert (digits + rest)[2..] == rest;
  }

  /** Packet round trip: a payload of 2 to 398 characters other than 0, `$` and `#`, whose third is no colon, is
      received exactly, after any noise and any number of garbled transmissions, each of which is refused once. */
  lemma PacketRoundTrip(p: seq<byte>, ts: seq<Garbled>, noise: seq<byte>, frame: seq<byte>, rest: seq<byte>,
                        buf: seq<byte>)
    returns (f: seq<byte>)
    requires IsFrame(p, frame) && '$' as int !in p && '#' as int !in p && 0 !in p && '$' as int !in noise
    requires 2 <= |p| <= 398 && (|p| > 2 ==> p[2] != ':' as int)
    requires (forall t :: t in ts ==> IsGarbled(t)) && |buf| == 400
    ensures Receive(Transmitted(ts) + (noise + frame + rest), buf) ==
      Packet(0, f, rest, seq(|ts|, _ => '-' as int) + ['+' as int])
    ensures |f| == 400 && f[..|p|] == p && f[|p|] == 0
  {
    hide Receive, Frame, IsFrame;
    OneFrame(p, frame);
    var b := AllRefused(ts, noise + Frame(p) + rest, buf);
    FrameRead(p, noise, rest, b);
    f := Filled(b, p);
  }

  lemma {:induction false} BodyOverflows(p: seq<byte>, k: nat, inp: seq<byte>, b: seq<byte>) returns (c: seq<byte>)
    requires Plain(p) && k <= BUFMAX - 1 <= |p| && |b| == BUFMAX
    ensures |c| == BUFMAX && Body(p[k..] + inp, b, k, Sum(p[..k])) == Receive(p[BUFMAX - 1..] + inp, c)
    decreases |p| - k
  {
    hide Verify, Receive;
    if k == BUFMAX - 1 {
      c := b[k := 0];
    } else {
      var s := p[k..] + inp;
      assert p[k] in p && s[0] == p[k] && s[1..] == p[k + 1..] + inp;
      assert p[..k + 1][..k] == p[..k];
      c := BodyOverflows(p, k + 1, inp, b[k := p[k]]);
    }
  }

  /** A payload of 399 characters or more is dropped without an answer. */
  lemma TooLong(p: seq<byte>, rest: seq<byte>, buf: seq<byte>) returns (c: seq<byte>)
    requires Plain(p) && |p| >= 399 && |buf| == BUFMAX
    ensures |c| == BUFMAX && Receive(Frame(p) + rest, buf) == Receive(rest, c)
  {
    hide Body, Verify;
    var digits := [HASH, HexChar(Sum(p) / 16), HexChar(Sum(p) % 16)];
    var s := Frame(p) + rest;
    assert s[0] == DOLLAR && s[1..] == p[0..] + (digits + rest);
    assert p[..0] == [];
    c := BodyOverflows(p, 0, digits + rest, buf);
    var noise := p[BUFMAX - 1..] + digits;
    assert p[BUFMAX - 1..] + (digits + rest) == noise + rest;
    NoDollar(p, digits);
    NoiseSkipped(noise, rest, c);
  }

  lemma NoDollar(p: seq<byte>, digits: seq<byte>)
    requires DOLLAR !in p && |p| >= BUFMAX - 1 && DOLLAR !in digits
    ensures DOLLAR !in p[BUFMAX - 1..] + digits
  {
  }
}
