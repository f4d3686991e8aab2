/**
 The serial driver in its imperative form: each entry point changes the port as one step of the
 state machine.
 */
module SerialPort {
  import opened Values
  import opened SerialModel
  import opened Ring

  class Port {
    const cfg: Config
    const ring: Ring
    var thre: bool
    var stopped: bool
    var hwStopped: bool
    var xchar: char
    var rts: bool
    ghost var accepted: string
    ghost var wire: seq<Sent>

    ghost predicate Valid()
      reads this, ring
    {
      ring.Valid() && ring.buf.Length == TX_SIZE
    }

    ghost function View(): (s: Line)
      requires Valid()
      reads this, ring, ring.buf
    {
      Line(ring.Contents(), thre, stopped, hwStopped, xchar, rts, accepted, wire)
    }

    constructor (cfg: Config)
      ensures Valid() && View() == Initial && this.cfg == cfg && fresh(ring) && fresh(ring.buf)
    {
      this.cfg := cfg;
      ring := new Ring(TX_SIZE);
      thre, stopped, hwStopped, xchar, rts := false, false, false, NUL, true;
      accepted, wire := [], [];
    }

    /** serial_flush, and the tail of serial_write. */
    method SerialFlush()
      requires Valid()
      modifies this
      ensures Valid() && View() == Step(cfg, old(View()), Flush)
    {
      var empty := ring.Empty();
      if !empty && !stopped && !hwStopped { thre := true; }
    }

    /** Queues as much of the text as fits and returns how much that was. */
    method SerialWrite(text: string) returns (n: nat)
      requires Valid()
      modifies this, ring, ring.buf
      ensures Valid() && View() == Step(cfg, old(View()), Write(text))
      ensures n == |Fits(old(View()), text)|
    {
      n := SerialWriteRoom();
      if n > |text| { n := |text|; }
      FillQueue(text, n);
      assert text[..n] == Fits(old(View()), text);
      accepted := accepted + text[..n];
      SerialFlush();
    }

    method FillQueue(text: string, n: nat)
      requires Valid() && n <= |text| && |ring.Contents()| + n <= TX_SIZE
      modifies ring, ring.buf
      ensures Valid() && ring.Contents() == old(ring.Contents()) + text[..n]
    {
      var i := 0;
      while i < n
        invariant i <= n && Valid() && ring.Contents() == old(ring.Contents()) + text[..i]
      {
        var _ := ring.Put(text[i]);
        i := i + 1;
      }
    }

    method SerialWriteRoom() returns (n: nat)
      requires Valid()
      ensures n == Room(View())
    {
      n := ring.buf.Length - ring.count;
    }

    /** start_tty followed by serial_start. */
    method StartTty()
      requires Valid()
      modifies this
      ensures Valid() && View() == Step(cfg, old(View()), Start)
    {
      if !stopped { return; }
      stopped := false;
      var empty := ring.Empty();
      if !empty { thre := true; }
    }

    /** stop_tty followed by serial_stop. */
    method StopTty()
      requires Valid()
      modifies this
      ensures Valid() && View() == Step(cfg, old(View()), Stop)
    {
      if stopped { return; }
      stopped := true;
      thre := false;
    }

    method SerialThrottle()
      requires Valid()
      modifies this
      ensures Valid() && View() == Step(cfg, old(View()), Throttle)
    {
      if cfg.ixoff {
        xchar := STOP_CHAR;
        thre := true;
      }
      if cfg.crtscts { rts := false; }
    }

    method SerialUnthrottle()
      requires Valid()
      modifies this
      ensures Valid() && View() == Step(cfg, old(View()), Unthrottle)
    {
      if cfg.ixoff {
        xchar := START_CHAR;
        thre := true;
      }
      if cfg.crtscts { rts := true; }
    }

    method CheckModemStatus(cts: bool)
      requires Valid()
      modifies this
      ensures Valid() && View() == Step(cfg, old(View()), ModemStatus(cts))
    {
      if cfg.crtscts {
        if hwStopped {
          if cts {
            hwStopped := false;
            thre := false;
          }
        } else if !cts {
          hwStopped := true;
          thre := true;
        }
      }
    }

    /** Sends a pending flow-control character, then up to XMIT_MAX queued ones. */
    method SendChars()
      requires Valid()
      modifies this, ring
      ensures Valid() && View() == Step(cfg, old(View()), Transmit)
    {
      SendControl();
      SendData();
    }

    method SendControl()
      requires Valid()
      modifies this`xchar, this`wire
      ensures Valid() && View() == AfterControl(old(View()))
    {
      if xchar != NUL {
        wire := wire + [Control(xchar)];
        xchar := NUL;
      }
    }

    method SendData()
      requires Valid()
      modifies this, ring
      ensures Valid() && View() == AfterData(old(View()))
    {
      var empty := ring.Empty();
      if empty || stopped || hwStopped {
        thre := false;
        return;
      }
      SendQueued();
      empty := ring.Empty();
      if empty { thre := false; }
    }

    method SendQueued()
      requires Valid() && ring.Contents() != []
      modifies this`wire, ring
      ensures Valid()
      ensures var q := old(ring.Contents());
              var n := if |q| <= XMIT_MAX then |q| else XMIT_MAX;
              ring.Contents() == q[n..] && wire == old(wire) + AsData(q[..n])
    {
      ghost var q := ring.Contents();
      ghost var n := 0;
      var count, more := XMIT_MAX, true;
      while more
        invariant Valid() && 0 <= n <= |q| && ring.Contents() == q[n..] && wire == old(wire) + AsData(q[..n])
        invariant n == XMIT_MAX - count && 0 <= count
        invariant if more then n < |q| && count > 0 else n == |q| || n == XMIT_MAX
        decreases count, more
      {
        var c := ring.Get();
        wire := wire + [Data(c)];
        assert AsData(q[..n + 1]) == AsData(q[..n]) + [Data(q[n])];
        n := n + 1;
        count := count - 1;
        var empty := ring.Empty();
        more := !empty && count > 0;
      }
    }
  }
}
