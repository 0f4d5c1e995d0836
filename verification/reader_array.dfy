/** `readResponse` written the way the C code runs it: a 255-slot char array
    filled in place by a polling loop with an inner drain loop, proved to
    compute exactly the functional reader `Reader.ReadResponse`. */
module ReaderArray {
  import opened Text
  import opened Engine
  import opened Reader

  method ReadResponseInPlace(timeout: u16, s: Session) returns (r: Run<string>)
    ensures r == ReadResponse(timeout, s)
  {
    var a := new char[BUFFSIZE](k requires 0 <= k < BUFFSIZE => s.buffer[k]);
    assert a[..] == s.buffer;
    var l := ReadLoopInPlace(a, timeout, 0, s.chan, s.ip);
    ResponseOfLoop(timeout, s);
    if l.LoopOverrun? || l.last.index >= BUFFSIZE {
      return Overrun;
    }
    var index := l.last.index;
    var reply := CString(a[..index]);
    a[index] := NUL;
    r := Ran(reply, s.(buffer := a[..], ip := l.last.ip, chan := l.last.chan));
  }

  /** The outer polling loop over the array: `while (--timeout)`, stop when
      the store index passes `BUFFSIZE - 1`, drain this round's bytes, run
      the IP check, stop after an LF. */
  method ReadLoopInPlace(a: array<char>, timeout: u16, index0: nat, chan0: Channel, ip0: string) returns (l: LoopEnd)
    requires a.Length == BUFFSIZE && index0 <= BUFFSIZE
    modifies a
    ensures l == ReadLoop(timeout, ReadState(old(a[..]), index0, chan0, ip0))
    ensures l.Finished? ==> l.last.buf == a[..]
  {
    var index: nat, t: u16, chan: Channel, ip: string := index0, timeout, chan0, ip0;
    ghost var target := ReadLoop(timeout, ReadState(a[..], index0, chan0, ip0));
    while true
      invariant index <= BUFFSIZE
      invariant ReadLoop(t, ReadState(a[..], index, chan, ip)) == target
      decreases if t == 0 then 0x1_0000 else t
    {
      var next := U16(t - 1);   // while (--timeout)
      if next == 0 || index > BUFFSIZE - 1 {
        return Finished(ReadState(a[..], index, chan, ip));
      }
      var d := DrainInto(a, index, chan.avail + NextChunk(chan));
      if d.DrainOverrun? {
        return LoopOverrun;
      }
      index := d.index;
      ip := CaptureIp(a[..], ip);
      chan := chan.(avail := d.rest, arrivals := LaterChunks(chan));
      if d.ended {
        return Finished(ReadState(a[..], index, chan, ip));
      }
      t := next;
    }
  }

  /** How `readResponse` finishes after its polling loop: an overrun in the
      loop or a full buffer is an overrun; otherwise the reply is the C string
      of the stored bytes and a NUL is written after them. */
  lemma ResponseOfLoop(timeout: u16, s: Session)
    ensures var l := ReadLoop(timeout, ReadState(s.buffer, 0, s.chan, s.ip));
      ReadResponse(timeout, s) ==
        if l.LoopOverrun? || l.last.index >= BUFFSIZE then Overrun
        else Ran(CString(l.last.buf[..l.last.index]),
                 s.(buffer := l.last.buf[l.last.index := NUL], ip := l.last.ip, chan := l.last.chan))
  {
  }

  /** The inner `while (Serial2.available())` loop over the array. */
  method DrainInto(a: array<char>, index0: nat, avail0: string) returns (d: Drained)
    requires a.Length == BUFFSIZE && index0 <= BUFFSIZE
    modifies a
    ensures d == Drain(old(a[..]), index0, avail0)
    ensures d.Drained? ==> d.buf == a[..]
  {
    ghost var b0 := a[..];
    var index := index0;
    var avail := avail0;
    while avail != []
      invariant index0 <= index <= BUFFSIZE
      invariant Drain(a[..], index, avail) == Drain(b0, index0, avail0)
      decreases |avail|
    {
      var c := avail[0];
      if c == CR {
        avail := avail[1..];
        continue;
      }
      if c == LF {
        if index == 0 {
          avail := avail[1..];
          continue;
        }
        return Drained(a[..], index, avail[1..], true);
      }
      if index == BUFFSIZE {
        return DrainOverrun;
      }
      a[index] := c;
      index := index + 1;
      avail := avail[1..];
    }
    return Drained(a[..], index, [], false);
  }
}
