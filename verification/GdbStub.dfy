/**
 The packet layer of the GDB stub in its imperative form.
 */
module GdbStub {
  import opened Values
  import opened GdbModel

  lemma ChecksumMore(data: seq<byte>, i: nat)
    requires i < |data|
    ensures Checksum(data[..i + 1]) == (Checksum(data[..i]) + data[i]) % 256
  {
    assert data[..i + 1][..i] == data[..i];
  }

  datatype Option<T> = None | Some(value: T)

  /** Writes two digits per byte; fails when they do not fit. */
  method EncodeHex(data: seq<byte>, bufsiz: nat) returns (r: Option<seq<byte>>)
    ensures r == if 2 * |data| > bufsiz then None else Some(Hex(data))
  {
    if 2 * |data| > bufsiz { return None; }
    var text := [];
    for i := 0 to |data|
      invariant text == Hex(data[..i])
    {
      assert data[..i + 1][..i] == data[..i];
      text := text + [HexDigit(data[i] / 16), HexDigit(data[i] % 16)];
    }
    assert data[..|data|] == data;
    r := Some(text);
  }

  /** Reads `n` bytes of two digits each; fails when there are too few digits. */
  method DecodeHex(hex: seq<byte>, n: nat) returns (r: Option<seq<byte>>)
    ensures r == if 2 * n > |hex| then None else Some(Unhex(hex, n))
  {
    if 2 * n > |hex| { return None; }
    var data := [];
    for i := 0 to n
      invariant data == Unhex(hex, i)
    {
      data := data + [ByteOf(hex[2 * i], hex[2 * i + 1])];
    }
    r := Some(data);
  }

  class Stub {
    var input: seq<byte>
    var pending: byte
    var output: seq<byte>
    const txBuf: array<byte>
    var txLen: nat

    ghost predicate Valid()
      reads this
    {
      txBuf.Length == GDB_MAXLEN && txLen < GDB_MAXLEN
    }

    ghost function View(): Gdb
      requires Valid()
      reads this, txBuf
    {
      Gdb(input, pending, output, txBuf[..txLen])
    }

    constructor (input: seq<byte>)
      ensures Valid() && View() == Gdb(input, 0, [], [])
    {
      this.input, pending, output := input, 0, [];
      txBuf, txLen := new byte[GDB_MAXLEN](_ => 0), 0;
    }

    method GetC() returns (c: byte)
      requires Valid()
      modifies this`input, this`pending
      ensures Valid() && c == Char(old(View())) && View() == Read(old(View()))
    {
      if pending != 0 {
        c := pending;
        pending := 0;
        return;
      }
      c := 0;
      if input != [] {
        c := input[0];
        input := input[1..];
      }
    }

    method PutC(c: byte)
      requires Valid()
      modifies this`output
      ensures Valid() && View() == Put(old(View()), [c])
    {
      output := output + [c];
    }

    /** Copies the packet to the retransmit buffer while sending it, then waits for the answer. */
    method GdbSendPacket(data: seq<byte>) returns (r: Status)
      requires Valid()
      modifies this, txBuf
      ensures Valid() && Answer(r, View()) == SendPacket(old(View()), data)
      decreases Left(View()), 1
    {
      if |data| > GDB_MAXLEN - 1 { return Eof; }
      Transmit(data);
      r := GdbRecvAck();
    }

    method Transmit(data: seq<byte>)
      requires Valid() && |data| < GDB_MAXLEN
      modifies this`output, this`txLen, txBuf
      ensures Valid() && View() == Put(old(View()), Frame(data, Checksum(data))).(tx := data)
    {
      PutC(START);
      var sum := SendData(data);
      PutC(HASH);
      PutC(HexDigit(sum / 16));
      PutC(HexDigit(sum % 16));
      assert output == old(output) + Frame(data, sum);
    }

    method SendData(data: seq<byte>) returns (sum: byte)
      requires Valid() && |data| < GDB_MAXLEN
      modifies this`output, this`txLen, txBuf
      ensures Valid() && sum == Checksum(data) && output == old(output) + data && txBuf[..txLen] == data
    {
      sum := 0;
      var i := 0;
      while i < |data|
        invariant i <= |data| && sum == Checksum(data[..i])
        invariant output == old(output) + data[..i] && txBuf[..i] == data[..i]
      {
        txBuf[i] := data[i];
        output := output + [txBuf[i]];
        ChecksumMore(data, i);
        sum := (sum + data[i]) % 256;
        i := i + 1;
      }
      assert data[..i] == data;
      txBuf[i] := 0;
      txLen := i;
    }

    method GdbRecvAck() returns (r: Status)
      requires Valid()
      modifies this, txBuf
      ensures Valid() && Answer(r, View()) == RecvAck(old(View()))
      decreases Left(View()), 0
    {
      var c := GetC();
      if c == ACK { return Code(0); }
      if c == NACK {
        r := GdbHandleNack();
        return;
      }
      pending := c;
      r := if c == EOF_CHAR then Eof else Code(c);
    }

    method GdbHandleNack() returns (r: Status)
      requires Valid()
      modifies this, txBuf
      ensures Valid() && Answer(r, View()) == SendPacket(old(View()), old(View()).tx)
      decreases Left(View()), 2
    {
      r := GdbSendPacket(txBuf[..txLen]);
    }

    /** Receives one packet into `buf`; the new length is `len` unless a packet with the right
        checksum arrives. `stale` is what the uninitialised checksum buffer holds. */
    method GdbRecvPacket(buf: array<byte>, len: nat, stale: (byte, byte)) returns (r: Outcome, len': nat)
      requires Valid() && buf != txBuf && buf.Length == GDB_MAXLEN
      modifies this, txBuf, buf
      ensures Valid() && Receipt(r, buf[..], len', View()) == RecvPacket(old(View()), old(buf[..]), len, stale)
    {
      ghost var all := RecvPacket(View(), buf[..], len, stale);
      while Waiting()
        invariant Valid() && buf[..] == old(buf[..]) && RecvPacket(View(), buf[..], len, stale) == all
        decreases Left(View())
      {
        var c := GetC();
        if c == EOF_CHAR { return Returns(Eof), len; }
        if c == CTRL_C { return Returns(Code(CTRL_C)), len; }
        if c == NACK {
          var _ := GdbHandleNack();
        } else if c == START {
          r, len' := GdbRecvBody(buf, len, stale);
          return;
        }
      }
      return Starved, len;
    }

    /** Some character is still to come. */
    predicate Waiting()
      reads this
    {
      pending != 0 || input != []
    }

    method GdbRecvBody(buf: array<byte>, len: nat, stale: (byte, byte)) returns (r: Outcome, len': nat)
      requires Valid() && buf != txBuf && buf.Length == GDB_MAXLEN
      modifies this`input, this`pending, this`output, buf
      ensures Valid() && Receipt(r, buf[..], len', View()) == RecvBody(old(View()), old(buf[..]), 0, len, stale)
    {
      var n, sum: byte := 0, 0;
      ghost var all := RecvBody(View(), buf[..], 0, len, stale);
      while Waiting()
        invariant Valid() && n < GDB_MAXLEN && sum == Checksum(buf[..n]) && RecvBody(View(), buf[..], n, len, stale) == all
        decreases Left(View())
      {
        var c := GetC();
        if c == EOF_CHAR { return Returns(Eof), len; }
        if c == HASH {
          ghost var data := buf[..n];
          buf[n] := 0;
          assert buf[..n] == data;
          r, len' := GdbRecvSum(buf, n, sum, len, stale);
          return;
        }
        if c != 0 {
          if n >= GDB_MAXLEN - 1 { return Returns(Eof), len; }
          sum := StoreByte(buf, n, c, sum);
          n := n + 1;
        }
      }
      return Starved, len;
    }

    method StoreByte(buf: array<byte>, n: nat, c: byte, sum: byte) returns (sum': byte)
      requires n < buf.Length && sum == Checksum(buf[..n])
      modifies buf
      ensures buf[..] == old(buf[..])[n := c] && sum' == Checksum(buf[..n + 1])
    {
      ghost var data := buf[..n];
      buf[n] := c;
      assert buf[..n + 1] == data + [c] && (data + [c])[..n] == data;
      sum' := (sum + c) % 256;
    }

    method GdbRecvSum(buf: array<byte>, n: nat, sum: byte, len: nat, stale: (byte, byte)) returns (r: Outcome, len': nat)
      requires Valid() && buf.Length == GDB_MAXLEN && n < GDB_MAXLEN && sum == Checksum(buf[..n])
      modifies this`input, this`pending, this`output
      ensures Valid() && Receipt(r, buf[..], len', View()) == RecvSum(old(View()), buf[..], n, len, stale)
    {
      var hi, lo := stale.0, stale.1;
      var c := GetC();
      if c == EOF_CHAR { return Returns(Eof), len; }
      if c != 0 { hi := c; }
      c := GetC();
      if c == EOF_CHAR { return Returns(Eof), len; }
      if c != 0 { lo := c; }
      assert buf[..][..n] == buf[..n];
      if sum != ByteOf(hi, lo) {
        PutC(NACK);
        return Returns(Code(0)), len;
      }
      PutC(ACK);
      return Returns(Code(0)), n;
    }

    /** The loop of gdb_main up to the next command: `len` is whatever it was before. */
    method AwaitCommand(pkt: array<byte>, len: nat, stale: (byte, byte)) returns (r: Outcome, len': nat)
      requires Valid() && pkt != txBuf && pkt.Length == GDB_MAXLEN
      modifies this, txBuf, pkt
      ensures Valid() && Receipt(r, pkt[..], len', View()) == Await(old(View()), old(pkt[..]), len, stale)
    {
      len' := len;
      ghost var all := Await(View(), pkt[..], len, stale);
      while true
        invariant Valid() && Await(View(), pkt[..], len', stale) == all
        decreases Left(View())
      {
        r, len' := GdbRecvPacket(pkt, len', stale);
        if r != Returns(Code(0)) || len' != 0 { return; }
      }
    }
  }
}
