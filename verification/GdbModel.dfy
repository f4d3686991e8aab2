/**
 The packet layer of the GDB remote stub: framing, checksums, acknowledgements and retransmission.
 */
module GdbModel {
  import opened Values

  const GDB_MAXLEN := 512

  /** -1 as a character. */
  const EOF_CHAR: byte := 0xFF
  const CTRL_C: byte := 0x03
  const START: byte := 0x24
  const HASH: byte := 0x23
  const ACK: byte := 0x2B
  const NACK: byte := 0x2D

  /** `input` holds the characters still to arrive, a zero standing for a timeout; `pending` is a
      character that was read and put back, or zero; `tx` is the last packet sent. */
  datatype Gdb = Gdb(input: seq<byte>, pending: byte, output: seq<byte>, tx: seq<byte>)

  // ---- characters ----

  function Left(s: Gdb): nat { |s.input| + if s.pending != 0 then 1 else 0 }

  /** The character the next read returns; zero when none arrives. */
  function Char(s: Gdb): byte {
    if s.pending != 0 then s.pending else if s.input == [] then 0 else s.input[0]
  }

  function Read(s: Gdb): (r: Gdb)
    ensures Left(r) == if Left(s) == 0 then 0 else Left(s) - 1
  {
    if s.pending != 0 then s.(pending := 0) else if s.input == [] then s else s.(input := s.input[1..])
  }

  function Put(s: Gdb, text: seq<byte>): Gdb { s.(output := s.output + text) }

  // ---- hexadecimal ----

  function HexDigit(v: byte): byte
    requires v < 16
  {
    if v > 9 then v - 10 + 0x61 else v + 0x30
  }

  /** The value of a digit; anything else counts as zero. */
  function HexValue(c: byte): (v: byte)
    ensures v < 16
  {
    if 0x30 <= c <= 0x39 then c - 0x30
    else if 0x41 <= c <= 0x46 then c - 0x41 + 10
    else if 0x61 <= c <= 0x66 then c - 0x61 + 10
    else 0
  }

  function HexByte(v: byte): seq<byte> { [HexDigit(v / 16), HexDigit(v % 16)] }

  function ByteOf(hi: byte, lo: byte): byte {
    HexValue(hi) * 16 + HexValue(lo)
  }

  lemma ByteRoundTrip(v: byte)
    ensures ByteOf(HexByte(v)[0], HexByte(v)[1]) == v
  {
    assert HexValue(HexDigit(v / 16)) == v / 16 && HexValue(HexDigit(v % 16)) == v % 16;
  }

  // ---- sending ----

  function Checksum(data: seq<byte>): byte {
    if data == [] then 0 else (Checksum(data[..|data| - 1]) + data[|data| - 1]) % 256
  }

  function Frame(data: seq<byte>, sum: byte): seq<byte> {
    [START] + data + [HASH] + HexByte(sum)
  }

  datatype Status = Eof | Code(c: byte)

  datatype Answer = Answer(status: Status, s: Gdb)

  /** Sends a packet and waits for its acknowledgement; every NACK sends it again. */
  function SendPacket(s: Gdb, data: seq<byte>): (r: Answer)
    ensures Left(r.s) <= Left(s)
    ensures s.output <= r.s.output
    decreases Left(s), 1
  {
    if |data| > GDB_MAXLEN - 1 then Answer(Eof, s)
    else RecvAck(Put(s, Frame(data, Checksum(data))).(tx := data))
  }

  function RecvAck(s: Gdb): (r: Answer)
    ensures Left(r.s) <= Left(s)
    ensures s.output <= r.s.output
    decreases Left(s), 0
  {
    var c, s1 := Char(s), Read(s);
    if c == ACK then Answer(Code(0), s1)
    else if c == NACK then SendPacket(s1, s1.tx)
    else Answer(if c == EOF_CHAR then Eof else Code(c), s1.(pending := c))
  }

  // ---- receiving ----

  /** What a call returns; `Starved` stands for a call that is still polling. */
  datatype Outcome = Starved | Returns(status: Status)

  /** The outcome of a receive, with the caller's packet buffer and length afterwards. */
  datatype Receipt = Receipt(outcome: Outcome, pkt: seq<byte>, len: nat, s: Gdb)

  predicate IsBuffer(pkt: seq<byte>) { |pkt| == GDB_MAXLEN }

  /** Reads up to the start of a packet, then the packet. `len` is the caller's length variable. */
  function RecvPacket(s: Gdb, pkt: seq<byte>, len: nat, stale: (byte, byte)): (r: Receipt)
    requires IsBuffer(pkt)
    ensures IsBuffer(r.pkt) && Left(r.s) <= Left(s) && (r.outcome.Returns? ==> Left(r.s) < Left(s))
    decreases Left(s)
  {
    if Left(s) == 0 then Receipt(Starved, pkt, len, s)
    else
      var c, s1 := Char(s), Read(s);
      if c == EOF_CHAR then Receipt(Returns(Eof), pkt, len, s1)
      else if c == CTRL_C then Receipt(Returns(Code(CTRL_C)), pkt, len, s1)
      else if c == NACK then RecvPacket(SendPacket(s1, s1.tx).s, pkt, len, stale)
      else if c == START then RecvBody(s1, pkt, 0, len, stale)
      else RecvPacket(s1, pkt, len, stale)
  }

  /** Reads the payload; `n` bytes of it are in the buffer. */
  function RecvBody(s: Gdb, pkt: seq<byte>, n: nat, len: nat, stale: (byte, byte)): (r: Receipt)
    requires IsBuffer(pkt) && n < GDB_MAXLEN
    ensures IsBuffer(r.pkt) && Left(r.s) <= Left(s)
    decreases Left(s)
  {
    if Left(s) == 0 then Receipt(Starved, pkt, len, s)
    else
      var c, s1 := Char(s), Read(s);
      if c == EOF_CHAR then Receipt(Returns(Eof), pkt, len, s1)
      else if c == HASH then RecvSum(s1, pkt[n := 0], n, len, stale)
      else if c == 0 then RecvBody(s1, pkt, n, len, stale)
      else if n >= GDB_MAXLEN - 1 then Receipt(Returns(Eof), pkt, len, s1)
      else RecvBody(s1, pkt[n := c], n + 1, len, stale)
  }

  /** A digit that does not arrive in time leaves the uninitialised buffer as it was. */
  function RecvSum(s: Gdb, pkt: seq<byte>, n: nat, len: nat, stale: (byte, byte)): (r: Receipt)
    requires IsBuffer(pkt) && n < GDB_MAXLEN
    ensures IsBuffer(r.pkt) && Left(r.s) <= Left(s)
  {
    var c0, s1 := Char(s), Read(s);
    if c0 == EOF_CHAR then Receipt(Returns(Eof), pkt, len, s1)
    else
      var c1, s2 := Char(s1), Read(s1);
      if c1 == EOF_CHAR then Receipt(Returns(Eof), pkt, len, s2)
      else Verify(s2, pkt, n, len, ByteOf(if c0 == 0 then stale.0 else c0, if c1 == 0 then stale.1 else c1))
  }

  /** Right and wrong checksums return the same status; only a right one sets the length. */
  function Verify(s: Gdb, pkt: seq<byte>, n: nat, len: nat, sum: byte): (r: Receipt)
    requires IsBuffer(pkt) && n < GDB_MAXLEN
  {
    if Checksum(pkt[..n]) == sum then Receipt(Returns(Code(0)), pkt, n, Put(s, [ACK]))
    else Receipt(Returns(Code(0)), pkt, len, Put(s, [NACK]))
  }

  // ---- properties ----

  /** Bytes that a payload may hold: no packet end, no timeout, no end of file. */
  predicate Legal(c: byte) { c != HASH && c != 0 && c != EOF_CHAR }

  /** A payload that can be framed and received. */
  ghost predicate GoodPayload(data: seq<byte>) {
    |data| <= GDB_MAXLEN - 1 && forall i | 0 <= i < |data| :: Legal(data[i])
  }

  // ---- the bytes of a frame ----

  /** The sum of all bytes. */
  function Total(data: seq<byte>): nat { if data == [] then 0 else data[0] + Total(data[1..]) }

  lemma {:induction false} TotalLast(data: seq<byte>)
    requires data != []
    ensures Total(data) == Total(data[..|data| - 1]) + data[|data| - 1]
  {
    if |data| > 1 {
      TotalLast(data[1..]);
      assert data[1..][..|data| - 2] == data[..|data| - 1][1..];
    }
  }

  /** The checksum is the sum of the bytes modulo 256. */
  lemma {:induction false} ChecksumIsSum(data: seq<byte>)
    ensures Checksum(data) == Total(data) % 256
  {
    if data != [] {
      ChecksumIsSum(data[..|data| - 1]);
      TotalLast(data);
    }
  }

  /** The small hexadecimal digits `0` to `9` and `a` to `f`. */
  const DIGITS: seq<byte> := [0x30, 0x31, 0x32, 0x33, 0x34, 0x35, 0x36, 0x37, 0x38, 0x39, 0x61, 0x62, 0x63, 0x64, 0x65, 0x66]

  /** Small digits are sent; small and capital ones are understood. */
  lemma DigitTable(v: byte)
    requires v < 16
    ensures HexDigit(v) == DIGITS[v] && HexValue(DIGITS[v]) == v
    ensures v >= 10 ==> HexValue(DIGITS[v] - 0x20) == v
  {
  }

  /** The frame of a payload: `$`, the payload, `#`, and the sum of the payload's bytes modulo 256 as two
      small hexadecimal digits, the high one first. */
  lemma FrameBytes(data: seq<byte>)
    ensures var f, sum := Frame(data, Checksum(data)), Total(data) % 256;
            f == [0x24] + data + [0x23, DIGITS[sum / 16], DIGITS[sum % 16]]
  {
    ChecksumIsSum(data);
    DigitTable(Checksum(data) / 16);
    DigitTable(Checksum(data) % 16);
  }

  /** For instance: an acknowledged `OK` goes out as `$OK#9a`. */
  lemma OkFrame(s: Gdb, rest: seq<byte>)
    requires s.pending == 0 && s.input == [0x2B] + rest
    ensures SendPacket(s, [0x4F, 0x4B]) ==
              Answer(Code(0), Gdb(rest, 0, s.output + [0x24, 0x4F, 0x4B, 0x23, 0x39, 0x61], [0x4F, 0x4B]))
  {
    var ok: seq<byte> := [0x4F, 0x4B];
    assert ok[1..] == [0x4B] && ok[1..][1..] == [];
    assert Total(ok) == 0x9A;
    FrameBytes(ok);
    AckEnds(s, ok, rest);
  }

  /** A payload of more than 511 bytes is not sent at all. */
  lemma LongNotSent(s: Gdb, data: seq<byte>)
    ensures |data| > 511 <==> SendPacket(s, data) == Answer(Eof, s)
  {
    if |data| <= 511 { assert |RecvAck(Put(s, Frame(data, Checksum(data))).(tx := data)).s.output| > |s.output|; }
  }

  /** The reader gives up at the 512th byte of a payload, without an answer. */
  lemma {:induction false} LongNotReceived(s: Gdb, pkt: seq<byte>, n: nat, more: seq<byte>, rest: seq<byte>, len: nat, stale: (byte, byte))
    requires IsBuffer(pkt) && n + |more| == 512 && more != [] && forall i | 0 <= i < |more| :: Legal(more[i])
    requires s.pending == 0 && s.input == more + rest
    ensures var r := RecvBody(s, pkt, n, len, stale);
            r.outcome == Returns(Eof) && r.len == len && r.s == s.(input := rest)
    decreases |more|
  {
    var s1 := Read(s);
    assert Legal(more[0]) && Char(s) == more[0];
    assert s1.input == more[1..] + rest;
    if |more| > 1 { LongNotReceived(s1, pkt[n := more[0]], n + 1, more[1..], rest, len, stale); }
  }

  /** Between packets: 0xFF ends the session, 0x03 is passed on, a `-` that is followed by a `+` has the
      last packet sent once more. */
  lemma BetweenPackets(s: Gdb, rest: seq<byte>, pkt: seq<byte>, len: nat, stale: (byte, byte))
    requires IsBuffer(pkt) && s.pending == 0
    ensures s.input == [0xFF] + rest ==> RecvPacket(s, pkt, len, stale) == Receipt(Returns(Eof), pkt, len, s.(input := rest))
    ensures s.input == [0x03] + rest ==> RecvPacket(s, pkt, len, stale) == Receipt(Returns(Code(3)), pkt, len, s.(input := rest))
    ensures s.input == [0x2D] + ([0x2B] + rest) && |s.tx| < 512 ==>
              RecvPacket(s, pkt, len, stale) == RecvPacket(s.(input := rest, output := s.output + Frame(s.tx, Checksum(s.tx))), pkt, len, stale)
  {
    var s1 := Read(s);
    if s.input == [0x2D] + ([0x2B] + rest) {
      assert s1.input == [ACK] + rest;
      if |s.tx| < 512 { AckEnds(s1, s1.tx, rest); }
    } else if |s.input| > 0 {
      assert s.input == [s.input[0]] + s1.input;
    }
  }

  /** Anything else in place of an acknowledgement is put back and read again: a packet that arrives
      instead of one is not lost. */
  lemma PutBack(s: Gdb, data: seq<byte>, c: byte, rest: seq<byte>, pkt: seq<byte>, len: nat, stale: (byte, byte))
    requires |data| < 512 && s.pending == 0 && s.input == [c] + rest && c != 0x2B && c != 0x2D && IsBuffer(pkt)
    ensures var a := SendPacket(s, data);
            && a.status == (if c == 0xFF then Eof else Code(c)) && a.s.output == s.output + Frame(data, Checksum(data))
            && (c != 0 ==> RecvPacket(a.s, pkt, len, stale) == RecvPacket(a.s.(pending := 0, input := [c] + rest), pkt, len, stale))
  {
    var s1 := Put(s, Frame(data, Checksum(data))).(tx := data);
    assert Char(s1) == c && Read(s1) == s1.(input := rest);
    assert SendPacket(s, data) == RecvAck(s1);
    var a := SendPacket(s, data).s;
    assert a == s1.(input := rest, pending := c);
    if c != 0 { SameNext(a, a.(pending := 0, input := [c] + rest), pkt, len, stale); }
  }

  lemma SameNext(a: Gdb, b: Gdb, pkt: seq<byte>, len: nat, stale: (byte, byte))
    requires IsBuffer(pkt) && Left(a) == Left(b) > 0 && Char(a) == Char(b) && Read(a) == Read(b)
    ensures RecvPacket(a, pkt, len, stale) == RecvPacket(b, pkt, len, stale)
  {
  }

  /** A timeout within a payload makes no difference. Within the checksum it leaves what its digit held
      before; an end of file there is an error. */
  lemma Timeouts(s: Gdb, rest: seq<byte>, pkt: seq<byte>, n: nat, len: nat, stale: (byte, byte), d: byte)
    requires IsBuffer(pkt) && n < 512 && s.pending == 0 && d != 0 && d != 0xFF
    ensures s.input == [0] + rest ==> RecvBody(s, pkt, n, len, stale) == RecvBody(s.(input := rest), pkt, n, len, stale)
    ensures s.input == [0, d] + rest ==> RecvSum(s, pkt, n, len, stale) == Verify(s.(input := rest), pkt, n, len, ByteOf(stale.0, d))
    ensures s.input == [d, 0] + rest ==> RecvSum(s, pkt, n, len, stale) == Verify(s.(input := rest), pkt, n, len, ByteOf(d, stale.1))
    ensures s.input == [0xFF] + rest ==> RecvSum(s, pkt, n, len, stale) == Receipt(Returns(Eof), pkt, len, s.(input := rest))
    ensures s.input == [d, 0xFF] + rest ==> RecvSum(s, pkt, n, len, stale) == Receipt(Returns(Eof), pkt, len, s.(input := rest))
  {
    var s1 := Read(s);
    var s2 := Read(s1);
    if |s.input| > 0 { assert s.input[1..] == s1.input; }
    if |s.input| > 1 { assert s1.input[1..] == s2.input; }
    if s.input == [0] + rest || s.input == [0xFF] + rest { assert s1.input == rest; }
    if s.input == [0, d] + rest || s.input == [d, 0] + rest || s.input == [d, 0xFF] + rest { assert s2.input == rest; }
  }

  /** Bytes that are skipped between packets. */
  predicate Ignorable(c: byte) { c != START && c != EOF_CHAR && c != CTRL_C && c != NACK }

  /** The buffer after `data` and a NUL have been stored from position `n` on. */
  function Holding(pkt: seq<byte>, n: nat, data: seq<byte>): (r: seq<byte>)
    requires IsBuffer(pkt) && n + |data| < GDB_MAXLEN
    ensures IsBuffer(r) && r[..n] == pkt[..n] && r[n..n + |data|] == data && r[n + |data|] == 0
  {
    pkt[..n] + data + [0] + pkt[n + |data| + 1..]
  }

  lemma HoldingMore(pkt: seq<byte>, n: nat, more: seq<byte>)
    requires IsBuffer(pkt) && n + |more| < GDB_MAXLEN
    ensures more == [] ==> pkt[n := 0] == Holding(pkt, n, more)
    ensures more != [] ==> Holding(pkt[n := more[0]], n + 1, more[1..]) == Holding(pkt, n, more)
  {
  }

  /** Noise in front of a packet makes no difference. */
  lemma {:induction false} NoiseIgnored(s: Gdb, noise: seq<byte>, rest: seq<byte>, pkt: seq<byte>, len: nat, stale: (byte, byte))
    requires IsBuffer(pkt)
    requires s.pending == 0 && s.input == noise + rest && forall i | 0 <= i < |noise| :: Ignorable(noise[i])
    ensures RecvPacket(s, pkt, len, stale) == RecvPacket(s.(input := rest), pkt, len, stale)
    decreases |noise|
  {
    if noise == [] {
      assert s.input == rest;
    } else {
      var s1 := Read(s);
      assert s1.input == noise[1..] + rest;
      NoiseIgnored(s1, noise[1..], rest, pkt, len, stale);
      assert Ignorable(noise[0]) && Char(s) == noise[0];
    }
  }

  /** A legal payload is read whole, up to the end mark. */
  lemma {:induction false} BodyRead(s: Gdb, pkt: seq<byte>, n: nat, more: seq<byte>, rest: seq<byte>, len: nat, stale: (byte, byte))
    requires IsBuffer(pkt) && n + |more| < GDB_MAXLEN
    requires s.pending == 0 && s.input == more + [HASH] + rest && forall i | 0 <= i < |more| :: Legal(more[i])
    ensures RecvBody(s, pkt, n, len, stale) == RecvSum(s.(input := rest), Holding(pkt, n, more), n + |more|, len, stale)
    decreases |more|
  {
    if more == [] {
      assert s.input == [HASH] + rest && s.input[1..] == rest;
      HoldingMore(pkt, n, more);
    } else {
      var s1 := Read(s);
      assert Legal(more[0]) && Char(s) == more[0];
      assert s1.input == more[1..] + [HASH] + rest;
      BodyRead(s1, pkt[n := more[0]], n + 1, more[1..], rest, len, stale);
      HoldingMore(pkt, n, more);
    }
  }

  lemma SumRead(s: Gdb, pkt: seq<byte>, n: nat, len: nat, sum: byte, rest: seq<byte>, stale: (byte, byte))
    requires IsBuffer(pkt) && n < GDB_MAXLEN && s.pending == 0 && s.input == HexByte(sum) + rest
    ensures RecvSum(s, pkt, n, len, stale) == Verify(s.(input := rest), pkt, n, len, sum)
  {
    ByteRoundTrip(sum);
    var s1 := Read(s);
    assert s1.input == HexByte(sum)[1..] + rest;
    assert Read(s1).input == rest;
  }

  /** What receiving a frame with payload `data` and checksum `sum` leaves. */
  function FrameReceipt(s: Gdb, data: seq<byte>, sum: byte, rest: seq<byte>, pkt: seq<byte>, len: nat): Receipt
    requires IsBuffer(pkt) && |data| < GDB_MAXLEN
  {
    var right := Checksum(data) == sum;
    Receipt(Returns(Code(0)), Holding(pkt, 0, data), if right then |data| else len,
            s.(input := rest, output := s.output + [if right then ACK else NACK]))
  }

  /** A framed packet after any noise: the payload is put in the buffer and status 0 returned
      whatever the checksum. A right one is answered with an ACK and sets the length; a wrong one is
      answered with a NACK and leaves the length as it was. */
  lemma FrameReceived(s: Gdb, noise: seq<byte>, data: seq<byte>, sum: byte, rest: seq<byte>, pkt: seq<byte>, len: nat, stale: (byte, byte))
    requires IsBuffer(pkt) && s.pending == 0 && s.input == noise + Frame(data, sum) + rest && GoodPayload(data)
    requires forall i | 0 <= i < |noise| :: Ignorable(noise[i])
    ensures RecvPacket(s, pkt, len, stale) == FrameReceipt(s, data, sum, rest, pkt, len)
  {
    var tail := HexByte(sum) + rest;
    assert s.input == noise + ([START] + (data + [HASH] + tail));
    NoiseIgnored(s, noise, [START] + (data + [HASH] + tail), pkt, len, stale);
    var s1 := s.(input := [START] + (data + [HASH] + tail));
    assert Read(s1).input == data + [HASH] + tail;
    BodyRead(Read(s1), pkt, 0, data, tail, len, stale);
    SumRead(s.(input := tail), Holding(pkt, 0, data), |data|, len, sum, rest, stale);
    assert Holding(pkt, 0, data)[..|data|] == data;
  }

  /** What one side sends, the other receives. */
  lemma SendThenReceive(s: Gdb, data: seq<byte>, r: Gdb, noise: seq<byte>, rest: seq<byte>, pkt: seq<byte>, len: nat, stale: (byte, byte))
    requires IsBuffer(pkt) && GoodPayload(data) && forall i | 0 <= i < |noise| :: Ignorable(noise[i])
    requires r.pending == 0 && r.input == noise + Frame(data, Checksum(data)) + rest
    ensures s.output + Frame(data, Checksum(data)) <= SendPacket(s, data).s.output
    ensures RecvPacket(r, pkt, len, stale) ==
              Receipt(Returns(Code(0)), Holding(pkt, 0, data), |data|, r.(input := rest, output := r.output + [ACK]))
  {
    FrameReceived(r, noise, data, Checksum(data), rest, pkt, len, stale);
  }

  /** Addition modulo 256 tells bytes apart. */
  lemma SumsDiffer(x: byte, y: byte, c: byte)
    requires x != y
    ensures (x + c) % 256 != (y + c) % 256 && (c + x) % 256 != (c + y) % 256
  {
  }

  lemma {:induction false} ChecksumChange(data: seq<byte>, i: nat, c: byte)
    requires i < |data| && c != data[i]
    ensures Checksum(data[i := c]) != Checksum(data)
  {
    var n := |data| - 1;
    if i < n {
      ChecksumChange(data[..n], i, c);
      assert data[i := c][..n] == data[..n][i := c];
      SumsDiffer(Checksum(data[..n][i := c]), Checksum(data[..n]), data[n]);
    } else {
      assert data[i := c][..n] == data[..n];
      SumsDiffer(c, data[i], Checksum(data[..n]));
    }
  }

  /** Replacing one payload byte by another legal one is always answered with a NACK. The caller
      is not told: it gets status 0 and the length it had. */
  lemma OneByteRefused(s: Gdb, noise: seq<byte>, data: seq<byte>, i: nat, c: byte, rest: seq<byte>, pkt: seq<byte>, len: nat, stale: (byte, byte))
    requires IsBuffer(pkt) && GoodPayload(data) && i < |data| && c != data[i] && Legal(c)
    requires forall i | 0 <= i < |noise| :: Ignorable(noise[i])
    requires s.pending == 0 && s.input == noise + Frame(data[i := c], Checksum(data)) + rest
    ensures RecvPacket(s, pkt, len, stale) ==
              Receipt(Returns(Code(0)), Holding(pkt, 0, data[i := c]), len, s.(input := rest, output := s.output + [NACK]))
  {
    ChecksumChange(data, i, c);
    FrameReceived(s, noise, data[i := c], Checksum(data), rest, pkt, len, stale);
  }

  function Times(text: seq<byte>, k: nat): seq<byte> {
    if k == 0 then [] else text + Times(text, k - 1)
  }

  /** A NACK sends the last packet again, from the shortened input. */
  lemma NackResends(s: Gdb, data: seq<byte>, more: seq<byte>)
    requires |data| <= GDB_MAXLEN - 1 && s.pending == 0 && s.input == [NACK] + more
    ensures SendPacket(s, data) == SendPacket(Gdb(more, 0, s.output + Frame(data, Checksum(data)), data), data)
  {
    var s1 := Put(s, Frame(data, Checksum(data))).(tx := data);
    assert Char(s1) == NACK && Read(s1).input == more;
  }

  lemma AckEnds(s: Gdb, data: seq<byte>, rest: seq<byte>)
    requires |data| <= GDB_MAXLEN - 1 && s.pending == 0 && s.input == [ACK] + rest
    ensures SendPacket(s, data) == Answer(Code(0), Gdb(rest, 0, s.output + Frame(data, Checksum(data)), data))
  {
    var s1 := Put(s, Frame(data, Checksum(data))).(tx := data);
    assert Char(s1) == ACK && Read(s1).input == rest;
  }

  /** After any number of NACKs the packet has been sent that many times more, byte for byte. */
  lemma {:induction false} Retransmits(s: Gdb, data: seq<byte>, k: nat, rest: seq<byte>)
    requires |data| <= GDB_MAXLEN - 1 && s.pending == 0 && s.input == Times([NACK], k) + [ACK] + rest
    ensures SendPacket(s, data) ==
              Answer(Code(0), Gdb(rest, 0, s.output + Times(Frame(data, Checksum(data)), k + 1), data))
    decreases k
  {
    var f := Frame(data, Checksum(data));
    TimesMore(s.output, f, k, rest);
    if k == 0 {
      AckEnds(s, data, rest);
    } else {
      var more := Times([NACK], k - 1) + [ACK] + rest;
      NackResends(s, data, more);
      Retransmits(Gdb(more, 0, s.output + f, data), data, k - 1, rest);
    }
  }

  lemma TimesMore(out: seq<byte>, f: seq<byte>, k: nat, rest: seq<byte>)
    ensures out + Times(f, k + 1) == out + f + Times(f, k)
    ensures k == 0 ==> out + f + Times(f, k) == out + f
    ensures k == 0 ==> Times([NACK], k) + [ACK] + rest == [ACK] + rest
    ensures k > 0 ==> Times([NACK], k) + [ACK] + rest == [NACK] + (Times([NACK], k - 1) + [ACK] + rest)
  {
  }

  // ---- the command loop ----

  /** The caller goes on to the command in `pkt[0]`. */
  predicate Dispatches(r: Receipt) { r.outcome == Returns(Code(0)) && r.len != 0 }

  /** A framed packet is dispatched exactly when its checksum is right and it is not empty, or its
      checksum is wrong and the length left from before is not zero. The command is the first byte
      of the payload either way. */
  lemma DispatchedExactly(s: Gdb, data: seq<byte>, sum: byte, rest: seq<byte>, pkt: seq<byte>, len: nat, stale: (byte, byte))
    requires IsBuffer(pkt) && GoodPayload(data) && s.pending == 0 && s.input == Frame(data, sum) + rest
    ensures var r := RecvPacket(s, pkt, len, stale);
            && (Dispatches(r) <==> if Checksum(data) == sum then data != [] else len != 0)
            && r.pkt[0] == if data == [] then 0 else data[0]
  {
    assert s.input == [] + Frame(data, sum) + rest;
    FrameReceived(s, [], data, sum, rest, pkt, len, stale);
    assert Holding(pkt, 0, data)[0] == if data == [] then 0 else data[0];
  }

  /** The loop of gdb_main up to the next dispatch or the end of the session: packets that return
      status 0 with length 0 are passed over. */
  function Await(s: Gdb, pkt: seq<byte>, len: nat, stale: (byte, byte)): (r: Receipt)
    requires IsBuffer(pkt)
    ensures IsBuffer(r.pkt)
    decreases Left(s)
  {
    var r := RecvPacket(s, pkt, len, stale);
    if r.outcome == Returns(Code(0)) && r.len == 0 then Await(r.s, r.pkt, r.len, stale) else r
  }

  /** The frames as they arrive: some damaged payloads under the checksum `sum`, then `data`. */
  function Arriving(bad: seq<seq<byte>>, data: seq<byte>, sum: byte): seq<byte> {
    if bad == [] then Frame(data, sum) else Frame(bad[0], sum) + Arriving(bad[1..], data, sum)
  }

  /** Payloads that the checksum of `data` does not match. */
  ghost predicate Damaged(bad: seq<seq<byte>>, data: seq<byte>) {
    forall i | 0 <= i < |bad| :: GoodPayload(bad[i]) && Checksum(bad[i]) != Checksum(data)
  }

  /** While the length is zero, every damaged copy is answered with a NACK and passed over, and the
      first good one is answered with an ACK and dispatched. */
  lemma {:induction false} NackedThenDispatched(r: Gdb, bad: seq<seq<byte>>, data: seq<byte>, rest: seq<byte>, pkt: seq<byte>, stale: (byte, byte))
    requires IsBuffer(pkt) && GoodPayload(data) && data != [] && Damaged(bad, data)
    requires r.pending == 0 && r.input == Arriving(bad, data, Checksum(data)) + rest
    ensures var a := Await(r, pkt, 0, stale);
            && Dispatches(a) && a.len == |data| && a.pkt[..|data|] == data
            && a.s == Gdb(rest, 0, r.output + (Times([NACK], |bad|) + [ACK]), r.tx)
    decreases |bad|
  {
    var sum := Checksum(data);
    if bad == [] {
      assert r.input == [] + Frame(data, sum) + rest;
      FrameReceived(r, [], data, sum, rest, pkt, 0, stale);
      assert Times([NACK], 0) + [ACK] == [ACK];
      assert Holding(pkt, 0, data)[..|data|] == data;
    } else {
      var more := Arriving(bad[1..], data, sum) + rest;
      assert r.input == [] + Frame(bad[0], sum) + more;
      FrameReceived(r, [], bad[0], sum, more, pkt, 0, stale);
      NackedThenDispatched(Gdb(more, 0, r.output + [NACK], r.tx), bad[1..], data, rest, Holding(pkt, 0, bad[0]), stale);
      assert r.output + [NACK] + (Times([NACK], |bad| - 1) + [ACK]) == r.output + ([NACK] + Times([NACK], |bad| - 1) + [ACK]);
    }
  }

  /** Once the length is not zero, the first damaged copy is dispatched as it is, with that length. */
  lemma DamagedDispatched(r: Gdb, bad: seq<seq<byte>>, data: seq<byte>, rest: seq<byte>, pkt: seq<byte>, len: nat, stale: (byte, byte))
    requires IsBuffer(pkt) && GoodPayload(data) && Damaged(bad, data) && bad != [] && len > 0
    requires r.pending == 0 && r.input == Arriving(bad, data, Checksum(data)) + rest
    ensures var a := Await(r, pkt, len, stale);
            && Dispatches(a) && a.len == len && a.pkt == Holding(pkt, 0, bad[0]) && a.s.output == r.output + [NACK]
  {
    var sum := Checksum(data);
    var more := Arriving(bad[1..], data, sum) + rest;
    assert r.input == [] + Frame(bad[0], sum) + more;
    FrameReceived(r, [], bad[0], sum, more, pkt, len, stale);
  }

  /** For instance: the host asks `?` and acknowledges the stub's reply; its next packet `g` is
      damaged into `c`. The stub answers that with a NACK, and continues the program. */
  lemma DamagedContinues(reply: seq<byte>, pkt: seq<byte>, len: nat, stale: (byte, byte))
    requires IsBuffer(pkt) && |reply| < GDB_MAXLEN
    ensures var good, bad := Frame([0x3F], Checksum([0x3F])), Frame([0x63], Checksum([0x67]));
            var a := Await(Gdb(good + ([ACK] + bad), 0, [], []), pkt, len, stale);
            var b := Await(SendPacket(a.s, reply).s, a.pkt, a.len, stale);
            && Dispatches(a) && a.pkt[0] == 0x3F
            && Dispatches(b) && b.pkt[0] == 0x63
            && b.s.output == [ACK] + Frame(reply, Checksum(reply)) + [NACK]
  {
    var good, bad := Frame([0x3F], Checksum([0x3F])), Frame([0x63], Checksum([0x67]));
    var s := Gdb(good + ([ACK] + bad), 0, [], []);
    assert [0x67][0 := 0x63] == [0x63];
    ChecksumChange([0x67], 0, 0x63);
    assert s.input == [] + good + ([ACK] + bad);
    FrameReceived(s, [], [0x3F], Checksum([0x3F]), [ACK] + bad, pkt, len, stale);
    var a := Await(s, pkt, len, stale);
    assert Holding(pkt, 0, [0x3F])[0] == 0x3F && a.s.output == [ACK];
    AckEnds(a.s, reply, bad);
    var t := SendPacket(a.s, reply).s;
    assert t.input == [] + bad + [];
    FrameReceived(t, [], [0x63], Checksum([0x67]), [], a.pkt, a.len, stale);
    assert Holding(a.pkt, 0, [0x63])[0] == 0x63;
  }

  /** Sending `data` ends well after `n` identical frames, with no answer left over. */
  ghost predicate SendsTimes(s: Gdb, data: seq<byte>, n: nat) {
    SendPacket(s, data) == Answer(Code(0), Gdb([], 0, s.output + Times(Frame(data, Checksum(data)), n), data))
  }

  /** The sender's side: these answers make it transmit one frame per answer and stop. */
  lemma AnswersSuffice(s: Gdb, data: seq<byte>, k: nat)
    requires GoodPayload(data) && s.pending == 0 && s.input == [] + (Times([NACK], k) + [ACK])
    ensures SendsTimes(s, data, k + 1)
  {
    assert s.input == Times([NACK], k) + [ACK] + [];
    Retransmits(s, data, k, []);
  }

  /** Sender and receiver together, from a receiver whose length happens to be zero; the code leaves
      it uninitialised, and any other value makes it act on a damaged copy. If the channel damages
      some copies and then delivers one, the first packet dispatched is the one sent, and the
      answers make the sender transmit exactly one frame per copy and stop. */
  lemma Exchange(s: Gdb, r: Gdb, bad: seq<seq<byte>>, data: seq<byte>, pkt: seq<byte>, stale: (byte, byte), a: Receipt)
    requires IsBuffer(pkt) && GoodPayload(data) && data != [] && Damaged(bad, data)
    requires r.pending == 0 && r.input == Arriving(bad, data, Checksum(data)) + [] && r.output == []
    requires a == Await(r, pkt, 0, stale) && s.pending == 0 && s.input == a.s.output
    ensures Dispatches(a) && a.len == |data| && a.pkt[..|data|] == data
    ensures SendsTimes(s, data, |bad| + 1)
  {
    NackedThenDispatched(r, bad, data, [], pkt, stale);
    AnswersSuffice(s, data, |bad|);
  }

  // ---- hexadecimal payloads ----

  function Hex(data: seq<byte>): (r: seq<byte>)
    ensures |r| == 2 * |data|
  {
    if data == [] then [] else Hex(data[..|data| - 1]) + HexByte(data[|data| - 1])
  }

  /** The first `n` bytes that the text `hex` stands for. */
  function Unhex(hex: seq<byte>, n: nat): (r: seq<byte>)
    requires 2 * n <= |hex|
    ensures |r| == n
  {
    if n == 0 then [] else Unhex(hex, n - 1) + [ByteOf(hex[2 * n - 2], hex[2 * n - 1])]
  }

  lemma {:induction false} UnhexPrefix(hex: seq<byte>, more: seq<byte>, n: nat)
    requires 2 * n <= |hex|
    ensures Unhex(hex + more, n) == Unhex(hex, n)
  {
    if n > 0 { UnhexPrefix(hex, more, n - 1); }
  }

  /** Decoding undoes encoding. */
  lemma {:induction false} HexRoundTrip(data: seq<byte>)
    ensures Unhex(Hex(data), |data|) == data
  {
    if data != [] {
      var n := |data| - 1;
      HexRoundTrip(data[..n]);
      UnhexPrefix(Hex(data[..n]), HexByte(data[n]), n);
      ByteRoundTrip(data[n]);
    }
  }
}
