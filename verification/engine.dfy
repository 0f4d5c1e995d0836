/** The engine's state: the byte channel to the modem, the 255-slot reply
    buffer and the session fields, together with the constructor, the plain
    accessors and the command dispatcher (`sendCommand` / `sendData`). */
module Engine {
  import opened Text

  /** Capacity of the reply buffer (`BUFFSIZE`). */
  const BUFFSIZE: nat := 0xFF
  /** Per-read polling budget used by the keyword wait (`DEFAULT_RESPONSE_CHECK`). */
  const DEFAULT_RESPONSE_CHECK: u16 := 1000
  /** Default number of ordinary replies a keyword wait tolerates (`DEFAULT_RESPONSE_TRIAL`). */
  const DEFAULT_RESPONSE_TRIAL: u16 := 50
  /** Default inter-command wait in milliseconds (`DEFAULT_WAIT`). */
  const DEFAULT_WAIT: u16 := 200
  /** Line terminator `Serial2.println` appends. */
  const CRLF: string := [CR, LF]

  type u16 = x: nat | x < 0x1_0000

  /** The reply buffer: exactly `BUFFSIZE` chars, reused across reads. */
  type Buffer = b: string | |b| == BUFFSIZE witness seq(BUFFSIZE, _ => NUL)

  /** The serial link, seen from the engine.
      `avail`: bytes already received and not yet read;
      `arrivals`: bytes the modem will deliver, one chunk per polling round;
      `out`: everything written to the modem so far. */
  datatype Channel = Channel(avail: string, arrivals: seq<string>, out: string)

  /** Total number of bytes still to be read from the channel. */
  function Pending(c: Channel): nat {
    |c.avail| + TotalLength(c.arrivals)
  }

  function TotalLength(chunks: seq<string>): nat {
    if chunks == [] then 0 else |chunks[0]| + TotalLength(chunks[1..])
  }

  /** All chunks joined into one byte stream. */
  function Concat(chunks: seq<string>): (r: string)
    ensures |r| == TotalLength(chunks)
  {
    if chunks == [] then [] else chunks[0] + Concat(chunks[1..])
  }

  /** One engine instance (the fields of `ESP8266ATLib`). */
  datatype Session = Session(
    buffer: Buffer,     // mReplyBuffer
    ip: string,         // mIpAddress
    debug: bool,        // mDebug
    softAP: bool,       // mSoftAP
    ssid: string,       // mSSID
    pass: string,       // mPASS
    waitTime: u16,      // mWaitTime
    chan: Channel)

  /** The outcome of an engine operation: its value and the session after it,
      or `Overrun` when the C code would store past the end of the reply
      buffer (undefined behaviour, where the model stops). */
  datatype Run<T> = Ran(value: T, session: Session) | Overrun

  /** The constructor: a zeroed buffer, empty strings, station mode, no debug
      output and the default wait time. */
  function Init(chan: Channel): (s: Session)
    ensures forall k :: 0 <= k < BUFFSIZE ==> s.buffer[k] == NUL
    ensures CString(s.buffer) == []
    ensures s.ip == [] && s.ssid == [] && s.pass == []
    ensures !s.softAP && !s.debug && s.waitTime == DEFAULT_WAIT
    ensures s.chan == chan
  {
    Session(seq(BUFFSIZE, _ => NUL), [], false, false, [], [], DEFAULT_WAIT, chan)
  }

  function SetDebug(s: Session): Session { s.(debug := true) }
  function IsDebug(s: Session): bool { s.debug }
  function SetWaitTime(s: Session, w: u16): Session { s.(waitTime := w) }
  function GetWaitTime(s: Session): u16 { s.waitTime }
  function IsSoftAP(s: Session): bool { s.softAP }
  function GetSSID(s: Session): string { s.ssid }
  function GetIpAddress(s: Session): string { s.ip }

  /** `setWaitTime` is read back by `getWaitTime` and changes nothing else;
      `setDebug` is read back by `isDebug`. */
  lemma AccessorsRoundTrip(s: Session, w: u16)
    ensures GetWaitTime(SetWaitTime(s, w)) == w
    ensures SetWaitTime(s, w).(waitTime := s.waitTime) == s
    ensures IsDebug(SetDebug(s))
    ensures SetDebug(s).(debug := s.debug) == s
  {
  }

  /** Drops the bytes waiting on the link (the drain loop at the start of
      `sendCommand` and `sendData`). */
  function Discard(c: Channel): Channel { c.(avail := []) }

  /** `sendCommand`: discard pending input, then write `cmd` and the line
      terminator. */
  function SendCommand(s: Session, cmd: string): (s': Session)
    ensures s'.chan.avail == [] && s'.chan.arrivals == s.chan.arrivals
    ensures s'.chan.out == s.chan.out + cmd + CRLF
    ensures s'.(chan := s.chan) == s
  {
    s.(chan := Discard(s.chan).(out := s.chan.out + cmd + CRLF))
  }

  /** `sendData`: discard pending input, then write the raw bytes. */
  function SendData(s: Session, data: string): (s': Session)
    ensures s'.chan.avail == [] && s'.chan.arrivals == s.chan.arrivals
    ensures s'.chan.out == s.chan.out + data
    ensures s'.(chan := s.chan) == s
  {
    s.(chan := Discard(s.chan).(out := s.chan.out + data))
  }
}
