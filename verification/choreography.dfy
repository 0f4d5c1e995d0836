/** The command choreographies: each public operation sends a fixed list of
    AT commands, waiting after each for its keyword with the default trial
    budget, and gives up at the first wait that fails. */
module Choreography {
  import opened Text
  import opened Engine
  import opened Reader
  import opened Classifier

  /** One command and the keyword its reply must carry. */
  datatype Step = Step(cmd: string, key: string)

  /** A command as `sendCommand` writes it. */
  function Line(cmd: string): string { cmd + CRLF }

  /** What a list of steps writes when every command is sent. */
  function Sent(steps: seq<Step>): string {
    if steps == [] then [] else Line(steps[0].cmd) + Sent(steps[1..])
  }

  /** Regrouping a transcript. Stated once here, because proving it inside
      the larger transcript lemmas makes the solver search the whole
      context for the sequence extensionality step. */
  lemma Assoc(a: string, b: string, c: string)
    ensures a + b + c == a + (b + c)
  {
  }

  /** `sendCommand(cmd)` followed by `waitForResponse(key)`. */
  function Exchange(s: Session, cmd: string, key: string): (r: Run<bool>)
    ensures r.Ran? ==> r.session.chan.out == s.chan.out + Line(cmd)
    ensures r.Ran? ==> r.session.(buffer := s.buffer, ip := s.ip, chan := s.chan) == s
  {
    Assoc(s.chan.out, cmd, CRLF);
    WaitForResponse(key, DEFAULT_RESPONSE_TRIAL, SendCommand(s, cmd))
  }

  /** The steps in order, stopping at the first failed wait. */
  function RunSteps(steps: seq<Step>, s: Session): (r: Run<bool>)
    ensures steps == [] ==> r == Ran(true, s)
    ensures r.Ran? ==> r.session.(buffer := s.buffer, ip := s.ip, chan := s.chan) == s
    decreases |steps|
  {
    if steps == [] then Ran(true, s)
    else
      var e := Exchange(s, steps[0].cmd, steps[0].key);
      if e.Overrun? || !e.value then e
      else RunSteps(steps[1..], e.session)
  }

  /** A successful run wrote every command of the list, in order. */
  lemma {:induction false} RunStepsWrites(steps: seq<Step>, s: Session)
    ensures RunSteps(steps, s).Ran? && RunSteps(steps, s).value ==>
      RunSteps(steps, s).session.chan.out == s.chan.out + Sent(steps)
    decreases |steps|
  {
    if steps != [] {
      var e := Exchange(s, steps[0].cmd, steps[0].key);
      if e.Ran? && e.value {
        RunStepsWrites(steps[1..], e.session);
      }
    }
  }

  /** Run `first`, then, only when it succeeded, `rest`. */
  function AndThen(r: Run<bool>, rest: seq<Step>): Run<bool> {
    if r.Ran? && r.value then RunSteps(rest, r.session) else r
  }

  lemma SentOne(a: Step)
    ensures Sent([a]) == Line(a.cmd)
  {
    assert [a][1..] == [];
  }

  lemma SentTwo(a: Step, b: Step)
    ensures Sent([a, b]) == Line(a.cmd) + Line(b.cmd)
  {
    assert [a, b][1..] == [b];
    SentOne(b);
  }

  lemma SentAppend(a: seq<Step>, b: seq<Step>)
    ensures Sent(a + b) == Sent(a) + Sent(b)
  {
    if a != [] {
      assert (a + b)[1..] == a[1..] + b;
      SentAppend(a[1..], b);
    } else {
      assert a + b == b;
    }
  }

  /** Running two lists back to back is running their concatenation. */
  lemma {:induction false} RunStepsAppend(a: seq<Step>, b: seq<Step>, s: Session)
    ensures RunSteps(a + b, s) == AndThen(RunSteps(a, s), b)
    decreases |a|
  {
    if a == [] {
      assert a + b == b;
    } else {
      assert (a + b)[0] == a[0];
      assert (a + b)[1..] == a[1..] + b;
      match Exchange(s, a[0].cmd, a[0].key)
      case Overrun =>
      case Ran(ok, s') =>
        if ok {
          RunStepsAppend(a[1..], b, s');
        }
    }
  }

  predicate Succeeds(r: Run<bool>) { r.Ran? && r.value }

  /** Step `k` is where a run stops: the first `k` steps succeed and the
      wait of step `k` fails (or overruns). */
  predicate FailsAt(steps: seq<Step>, s: Session, k: nat)
    requires k < |steps|
  {
    var p := RunSteps(steps[..k], s);
    Succeeds(p) && !Succeeds(Exchange(p.session, steps[k].cmd, steps[k].key))
  }

  /** Stopping at step `k` of the tail, after a successful first step, is
      stopping at step `k + 1` of the whole list. */
  lemma FailsAtShift(steps: seq<Step>, s: Session, k: nat)
    requires k + 1 < |steps|
    requires Succeeds(Exchange(s, steps[0].cmd, steps[0].key))
    requires FailsAt(steps[1..], Exchange(s, steps[0].cmd, steps[0].key).session, k)
    ensures FailsAt(steps, s, k + 1)
  {
    assert steps[..k + 1][0] == steps[0] && steps[..k + 1][1..] == steps[1..][..k];
    assert steps[k + 1] == steps[1..][k];
  }

  /** Running a list that stops at step `k` is running its first `k` steps
      and then step `k` alone. */
  lemma {:induction false} FailsAtResult(steps: seq<Step>, s: Session, k: nat)
    requires k < |steps| && FailsAt(steps, s, k)
    ensures RunSteps(steps, s) == Exchange(RunSteps(steps[..k], s).session, steps[k].cmd, steps[k].key)
    decreases k
  {
    var e := Exchange(s, steps[0].cmd, steps[0].key);
    if k == 0 {
      assert steps[..0] == [];
      assert !Succeeds(e);
    } else {
      var pre := steps[..k];
      assert pre[0] == steps[0] && pre[1..] == steps[1..][..k - 1];
      assert Succeeds(e) && RunSteps(pre, s) == RunSteps(pre[1..], e.session);
      assert steps[1..][k - 1] == steps[k];
      assert FailsAt(steps[1..], e.session, k - 1);
      FailsAtResult(steps[1..], e.session, k - 1);
      assert RunSteps(steps, s) == RunSteps(steps[1..], e.session);
    }
  }

  /** Stop at the first failure: a run that fails stops at some step. */
  lemma {:induction false} RunStepsFailure(steps: seq<Step>, s: Session)
    requires RunSteps(steps, s).Ran? && !RunSteps(steps, s).value
    ensures exists k: nat :: k < |steps| && FailsAt(steps, s, k)
    decreases |steps|
  {
    var e := Exchange(s, steps[0].cmd, steps[0].key);
    if Succeeds(e) {
      RunStepsFailure(steps[1..], e.session);
      var k: nat :| k < |steps| - 1 && FailsAt(steps[1..], e.session, k);
      FailsAtShift(steps, s, k);
    } else {
      assert steps[..0] == [];
      assert FailsAt(steps, s, 0);
    }
  }

  lemma SentSnoc(steps: seq<Step>, k: nat)
    requires k < |steps|
    ensures Sent(steps[..k + 1]) == Sent(steps[..k]) + Line(steps[k].cmd)
  {
    assert steps[..k + 1] == steps[..k] + [steps[k]];
    SentAppend(steps[..k], [steps[k]]);
    SentOne(steps[k]);
  }

  /** A run that stops at step `k` wrote the first `k + 1` commands and
      nothing after them. */
  lemma FailsAtWrites(steps: seq<Step>, s: Session, k: nat)
    requires k < |steps| && FailsAt(steps, s, k)
    ensures RunSteps(steps, s).Ran? ==> RunSteps(steps, s).session.chan.out == s.chan.out + Sent(steps[..k + 1])
  {
    FailsAtResult(steps, s, k);
    RunStepsWrites(steps[..k], s);
    SentSnoc(steps, k);
    Assoc(s.chan.out, Sent(steps[..k]), Line(steps[k].cmd));
  }

  // ---- Setup --------------------------------------------------------------

  function ResetSteps(): seq<Step> { [Step("AT+RST", "OK"), Step("ATE0", "OK")] }
  function VersionSteps(): seq<Step> { [Step("AT+GMR", "OK")] }
  function BeginSteps(): seq<Step> { [Step("AT", "OK")] + ResetSteps() + VersionSteps() }

  /** `espReset`: soft reset, then echo off. */
  function EspReset(s: Session): (r: Run<bool>)
    ensures r.Ran? ==> r.session.(buffer := s.buffer, ip := s.ip, chan := s.chan) == s
  {
    RunSteps(ResetSteps(), s)
  }

  /** `espVersion`: ask for the firmware version. */
  function EspVersion(s: Session): (r: Run<bool>)
    ensures r.Ran? ==> r.session.(buffer := s.buffer, ip := s.ip, chan := s.chan) == s
  {
    RunSteps(VersionSteps(), s)
  }

  /** `begin`: `AT`, then `espReset`, then `espVersion`, each result checked. */
  function Begin(s: Session): (r: Run<bool>)
    ensures r.Ran? ==> r.session.(buffer := s.buffer, ip := s.ip, chan := s.chan) == s
  {
    var e := Exchange(s, "AT", "OK");
    if !Succeeds(e) then e
    else
      var e2 := EspReset(e.session);
      if !Succeeds(e2) then e2 else EspVersion(e2.session)
  }

  /** `begin` is the four-step list `AT`, `AT+RST`, `ATE0`, `AT+GMR`. */
  lemma BeginIsSteps(s: Session)
    ensures Begin(s) == RunSteps(BeginSteps(), s)
  {
    var at := [Step("AT", "OK")];
    assert BeginSteps() == at + (ResetSteps() + VersionSteps());
    RunStepsAppend(at, ResetSteps() + VersionSteps(), s);
    assert at[1..] == [];
    var e := Exchange(s, "AT", "OK");
    if Succeeds(e) {
      RunStepsAppend(ResetSteps(), VersionSteps(), e.session);
    }
  }

  /** The bytes a successful `espReset` writes. */
  function ResetText(): string { "AT+RST\r\nATE0\r\n" }

  /** The bytes a successful `begin` writes: `AT`, then what `espReset`
      writes, then `AT+GMR`. */
  function BeginText(): string { "AT\r\n" + ResetText() + "AT+GMR\r\n" }

  lemma BeginSent()
    ensures Sent(BeginSteps()) == BeginText()
  {
    var at := [Step("AT", "OK")];
    SentAppend(at + ResetSteps(), VersionSteps());
    SentAppend(at, ResetSteps());
    SentOne(Step("AT", "OK"));
    SentOne(Step("AT+GMR", "OK"));
    ResetSent();
  }

  /** A successful `begin` wrote exactly its four commands. */
  lemma BeginWrites(s: Session)
    ensures Succeeds(Begin(s)) ==> Begin(s).session.chan.out == s.chan.out + BeginText()
  {
    BeginIsSteps(s);
    RunStepsWrites(BeginSteps(), s);
    BeginSent();
  }

  /** A successful `espReset` wrote `AT+RST` and `ATE0`. */
  lemma EspResetWrites(s: Session)
    ensures Succeeds(EspReset(s)) ==> EspReset(s).session.chan.out == s.chan.out + ResetText()
  {
    RunStepsWrites(ResetSteps(), s);
    ResetSent();
  }

  lemma ResetSent()
    ensures Sent(ResetSteps()) == ResetText()
  {
    SentTwo(Step("AT+RST", "OK"), Step("ATE0", "OK"));
  }

  /** `espVersion` writes `AT+GMR`, whatever its outcome. */
  lemma EspVersionWrites(s: Session)
    ensures EspVersion(s).Ran? ==> EspVersion(s).session.chan.out == s.chan.out + "AT+GMR\r\n"
  {
    assert VersionSteps()[1..] == [];
  }

  /** `begin` stops at its first failed wait: on failure the commands
      written are the first `k + 1` of the four, the first `k` having
      succeeded and the wait of command `k` having failed. */
  lemma BeginStopsAtFailure(s: Session)
    requires Begin(s).Ran? && !Begin(s).value
    ensures exists k: nat :: (k < 4 && FailsAt(BeginSteps(), s, k)
      && Begin(s).session.chan.out == s.chan.out + Sent(BeginSteps()[..k + 1]))
  {
    BeginIsSteps(s);
    RunStepsFailure(BeginSteps(), s);
    var k: nat :| k < |BeginSteps()| && FailsAt(BeginSteps(), s, k);
    FailsAtWrites(BeginSteps(), s, k);
  }

  /** The join command, ssid and password each in double quotes. */
  function JoinCommand(ssid: string, pass: string): string {
    "AT+CWJAP=\"" + ssid + "\",\"" + pass + "\""
  }

  /** The access-point command: channel 1, WPA2-PSK. */
  function SoftApCommand(ssid: string, pass: string): string {
    "AT+CWSAP=\"" + ssid + "\",\"" + pass + "\",1,3"
  }

  function ConnectSteps(ssid: string, pass: string): seq<Step> {
    [Step("AT+CWMODE=1", "OK"), Step(JoinCommand(ssid, pass), "OK")]
  }

  function SoftApSteps(ssid: string, pass: string): seq<Step> {
    [Step("AT+CWMODE=3", "OK"), Step(SoftApCommand(ssid, pass), "OK")]
  }

  /** `getLocalIP`: `AT+CIFSR`, then wait for the station or soft-AP address
      line (whichever mode the session is in); the address field as it stands
      afterwards is returned whether or not the wait succeeded. */
  function GetLocalIP(s: Session): (r: Run<string>)
    ensures r.Ran? ==> r.value == GetIpAddress(r.session)
    ensures r.Ran? ==> r.session.chan.out == s.chan.out + "AT+CIFSR\r\n"
    ensures r.Ran? ==> r.session.(buffer := s.buffer, ip := s.ip, chan := s.chan) == s
  {
    var key := if s.softAP then "APIP" else "STAIP";
    match WaitForResponse(key, DEFAULT_RESPONSE_TRIAL, SendCommand(s, "AT+CIFSR"))
    case Overrun => Overrun
    case Ran(_, s') => Ran(s'.ip, s')
  }

  /** What a successful address wait means for `getLocalIP`: the wait ended
      on a read whose reply mentions the mode's key (`STAIP` in station mode,
      `APIP` in soft-AP mode), and the address returned is the text between
      that reply's first two quotes. */
  lemma LocalIpFromReply(s: Session)
    ensures var key := if s.softAP then "APIP" else "STAIP";
      var w := WaitForResponse(key, DEFAULT_RESPONSE_TRIAL, SendCommand(s, "AT+CIFSR"));
      w.Ran? && w.value ==>
        && GetLocalIP(s).Ran? && GetLocalIP(s).session == w.session
        && exists s0: Session, reply: string ::
          && ReadResponse(DEFAULT_RESPONSE_CHECK, s0) == Ran(reply, w.session)
          && Contains(reply, key)
          && (forall i: nat, j: nat :: FirstTwoQuotes(reply, i, j) ==> GetLocalIP(s).value == reply[i + 1..j])
  {
    var key := if s.softAP then "APIP" else "STAIP";
    var s1 := SendCommand(s, "AT+CIFSR");
    var w := WaitForResponse(key, DEFAULT_RESPONSE_TRIAL, s1);
    if w.Ran? && w.value {
      WaitEndsOnMatch(key, DEFAULT_RESPONSE_TRIAL, s1);
      var s0: Session, reply: string :|
        && ReadResponse(DEFAULT_RESPONSE_CHECK, s0) == Ran(reply, w.session)
        && Classify(reply, key) == Matched;
      AddressOfMatch(key, s0, reply, w.session);
    }
  }

  /** A read whose reply matched `STAIP` or `APIP` leaves the text between
      the reply's first two quotes in the address field. */
  lemma AddressOfMatch(key: string, s0: Session, reply: string, s': Session)
    requires key == "STAIP" || key == "APIP"
    requires ReadResponse(DEFAULT_RESPONSE_CHECK, s0) == Ran(reply, s')
    requires Classify(reply, key) == Matched
    ensures Contains(reply, key)
    ensures forall i: nat, j: nat :: FirstTwoQuotes(reply, i, j) ==> GetIpAddress(s') == reply[i + 1..j]
  {
    ReadResponseEffect(DEFAULT_RESPONSE_CHECK, s0);
    forall i: nat, j: nat | FirstTwoQuotes(reply, i, j)
      ensures GetIpAddress(s') == reply[i + 1..j]
    {
      ReadCapturesIp(DEFAULT_RESPONSE_CHECK, s0, reply, s', i, j);
    }
  }

  /** In station mode, with the reply `+CIFSR:STAIP,"192.168.4.2"` next on
      the line, `getLocalIP` returns `192.168.4.2`. */
  lemma LocalIpExample(s: Session, more: seq<string>)
    requires !s.softAP
    requires s.chan.arrivals == [Reply("+CIFSR:STAIP,\"192.168.4.2\"")] + more
    ensures GetLocalIP(s).Ran? && GetLocalIP(s).value == "192.168.4.2"
  {
    var text := "+CIFSR:STAIP,\"192.168.4.2\"";
    var s1 := SendCommand(s, "AT+CIFSR");
    StationLineShape(text);
    StationLineMatches(text);
    ReadReply(s1, text, more);
    var s2 := ReadResponse(DEFAULT_RESPONSE_CHECK, s1).session;
    WaitStep("STAIP", DEFAULT_RESPONSE_TRIAL, s1, text, s2);
    ReadResponseEffect(DEFAULT_RESPONSE_CHECK, s1);
    ReadCapturesIp(DEFAULT_RESPONSE_CHECK, s1, text, s2, 13, 25);
  }

  /** The station address line is plain and its quotes sit at 13 and 25. */
  lemma StationLineShape(text: string)
    requires text == "+CIFSR:STAIP,\"192.168.4.2\""
    ensures Plain(text) && 0 < |text| < BUFFSIZE
    ensures FirstTwoQuotes(text, 13, 25) && text[14..25] == "192.168.4.2"
  {
    assert text[..13] == "+CIFSR:STAIP,";
    assert text[14..25] == "192.168.4.2";
  }

  /** The station address line matches `STAIP` and carries no error or busy
      marker. */
  lemma StationLineMatches(text: string)
    requires text == "+CIFSR:STAIP,\"192.168.4.2\""
    ensures Classify(text, "STAIP") == Matched
    ensures Contains(text, "STAIP")
  {
    assert forall k :: 0 <= k < |text| ==> text[k] != 'w' && text[k] != 'E' && text[k] != 'b';
    if Contains(text, "wrong syntax") {
      ContainsHead(text, "wrong syntax");
    }
    if Contains(text, "ERROR") {
      ContainsHead(text, "ERROR");
    }
    if Contains(text, "busy s...") {
      ContainsHead(text, "busy s...");
    }
    ContainsAt(text, "STAIP", 7);
  }

  /** Success continues with `getLocalIP` (its result only feeds a debug
      message, but the call is made); failure is passed on. */
  function ThenLocalIP(r: Run<bool>): (r': Run<bool>)
    ensures r.Ran? && !r.value ==> r' == r
    ensures r'.Ran? ==> r.Ran? && r'.value == r.value
    ensures r'.Ran? ==> r'.session.(buffer := r.session.buffer, ip := r.session.ip, chan := r.session.chan) == r.session
    ensures Succeeds(r') ==> r'.session.chan.out == r.session.chan.out + "AT+CIFSR\r\n"
  {
    if Succeeds(r) then
      match GetLocalIP(r.session)
      case Overrun => Overrun
      case Ran(_, s') => Ran(true, s')
    else r
  }

  /** `espConnectAP`: remember the credentials, station mode, join, then
      query the address. */
  function ConnectAP(s: Session, ssid: string, pass: string): (r: Run<bool>)
    ensures r.Ran? ==> r.session == s.(ssid := CString(ssid), pass := CString(pass), buffer := r.session.buffer,
      ip := r.session.ip, chan := r.session.chan)
  {
    var s0 := s.(ssid := CString(ssid), pass := CString(pass));
    ThenLocalIP(RunSteps(ConnectSteps(s0.ssid, s0.pass), s0))
  }

  /** The bytes a successful `espConnectAP` writes. */
  function ConnectText(ssid: string, pass: string): string {
    "AT+CWMODE=1\r\n" + JoinCommand(ssid, pass) + "\r\nAT+CIFSR\r\n"
  }

  lemma ConnectSent(ssid: string, pass: string)
    ensures Sent(ConnectSteps(ssid, pass)) + "AT+CIFSR\r\n" == ConnectText(ssid, pass)
  {
    SentTwo(ConnectSteps(ssid, pass)[0], ConnectSteps(ssid, pass)[1]);
  }

  /** A successful `espConnectAP` wrote the mode command, the join command
      with the stored credentials quoted, and the address query. */
  lemma ConnectAPWrites(s: Session, ssid: string, pass: string)
    ensures Succeeds(ConnectAP(s, ssid, pass)) ==>
      ConnectAP(s, ssid, pass).session.chan.out == s.chan.out + ConnectText(CString(ssid), CString(pass))
  {
    var s0 := s.(ssid := CString(ssid), pass := CString(pass));
    var steps := ConnectSteps(CString(ssid), CString(pass));
    var r := RunSteps(steps, s0);
    assert ConnectAP(s, ssid, pass) == ThenLocalIP(r);
    RunStepsWrites(steps, s0);
    ConnectSent(CString(ssid), CString(pass));
    Assoc(s.chan.out, Sent(steps), "AT+CIFSR\r\n");
  }

  /** `espStartAP`: remember the credentials, mark the session as soft AP
      before anything is sent, AP+station mode, configure the access point,
      then query the address. */
  function StartAP(s: Session, ssid: string, pass: string): (r: Run<bool>)
    ensures r.Ran? ==> r.session == s.(ssid := CString(ssid), pass := CString(pass), softAP := true,
      buffer := r.session.buffer, ip := r.session.ip, chan := r.session.chan)
  {
    var s0 := s.(ssid := CString(ssid), pass := CString(pass), softAP := true);
    ThenLocalIP(RunSteps(SoftApSteps(s0.ssid, s0.pass), s0))
  }

  /** `isSoftAP` reports the mode the access-point operations chose:
      `espStartAP` switches soft-AP mode on, whatever its outcome, and
      `espConnectAP` leaves it as it was. */
  lemma SoftApReported(s: Session, ssid: string, pass: string)
    ensures StartAP(s, ssid, pass).Ran? ==> IsSoftAP(StartAP(s, ssid, pass).session)
    ensures ConnectAP(s, ssid, pass).Ran? ==> IsSoftAP(ConnectAP(s, ssid, pass).session) == IsSoftAP(s)
  {
  }

  /** `getSSID` reports the network name the last access-point operation
      stored, cut at its first NUL as `String` construction does. */
  lemma SsidReported(s: Session, ssid: string, pass: string)
    ensures StartAP(s, ssid, pass).Ran? ==> GetSSID(StartAP(s, ssid, pass).session) == CString(ssid)
    ensures ConnectAP(s, ssid, pass).Ran? ==> GetSSID(ConnectAP(s, ssid, pass).session) == CString(ssid)
  {
  }

  /** The bytes a successful `espStartAP` writes. */
  function SoftApText(ssid: string, pass: string): string {
    "AT+CWMODE=3\r\n" + SoftApCommand(ssid, pass) + "\r\nAT+CIFSR\r\n"
  }

  lemma SoftApSent(ssid: string, pass: string)
    ensures Sent(SoftApSteps(ssid, pass)) + "AT+CIFSR\r\n" == SoftApText(ssid, pass)
  {
    SentTwo(SoftApSteps(ssid, pass)[0], SoftApSteps(ssid, pass)[1]);
  }

  /** A successful `espStartAP` wrote the mode command, the access-point
      command and the address query. */
  lemma StartAPWrites(s: Session, ssid: string, pass: string)
    ensures Succeeds(StartAP(s, ssid, pass)) ==>
      StartAP(s, ssid, pass).session.chan.out == s.chan.out + SoftApText(CString(ssid), CString(pass))
  {
    var s0 := s.(ssid := CString(ssid), pass := CString(pass), softAP := true);
    var steps := SoftApSteps(CString(ssid), CString(pass));
    var r := RunSteps(steps, s0);
    assert StartAP(s, ssid, pass) == ThenLocalIP(r);
    RunStepsWrites(steps, s0);
    SoftApSent(CString(ssid), CString(pass));
    Assoc(s.chan.out, Sent(steps), "AT+CIFSR\r\n");
  }

  function ServerSteps(port: string): seq<Step> {
    [Step("AT+CIPMUX=1", "OK"), Step("AT+CIPSERVER=1," + port, "OK")]
  }

  /** `setupTcpServer`: multi-connection mode, then listen on the port. */
  function SetupTcpServer(s: Session, port: string): (r: Run<bool>)
    ensures r.Ran? ==> r.session.(buffer := s.buffer, ip := s.ip, chan := s.chan) == s
  {
    RunSteps(ServerSteps(port), s)
  }

  lemma ServerSent(port: string)
    ensures Sent(ServerSteps(port)) == "AT+CIPMUX=1\r\n" + ("AT+CIPSERVER=1," + port + "\r\n")
  {
    SentTwo(ServerSteps(port)[0], ServerSteps(port)[1]);
  }

  /** A successful `setupTcpServer` wrote both commands, the port last. */
  lemma SetupTcpServerWrites(s: Session, port: string)
    ensures Succeeds(SetupTcpServer(s, port)) ==>
      SetupTcpServer(s, port).session.chan.out == s.chan.out + "AT+CIPMUX=1\r\n" + ("AT+CIPSERVER=1," + port + "\r\n")
  {
    RunStepsWrites(ServerSteps(port), s);
    ServerSent(port);
    Assoc(s.chan.out, "AT+CIPMUX=1\r\n", "AT+CIPSERVER=1," + port + "\r\n");
  }

  /** The TCP client connect command. */
  function ConnectCommand(server: string, port: string): string {
    "AT+CIPSTART=\"TCP\",\"" + server + "\"," + port
  }

  /** `setupTcpClient`: open a TCP connection to the server. */
  function SetupTcpClient(s: Session, server: string, port: string): (r: Run<bool>)
    ensures r.Ran? ==> r.session.chan.out == s.chan.out + ConnectCommand(server, port) + CRLF
    ensures r.Ran? ==> r.session.(buffer := s.buffer, ip := s.ip, chan := s.chan) == s
  {
    Exchange(s, ConnectCommand(server, port), "OK")
  }

  // ---- Send and close ------------------------------------------------------

  /** `AT+CIPSENDBUF=<id>,<len>` with the source's own CR LF inside it. */
  function ClientSendCommand(link: string, len: nat): string {
    "AT+CIPSENDBUF=" + link + "," + Decimal(len) + "\r\n"
  }

  function ServerSendCommand(len: nat): string {
    "AT+CIPSENDBUF=" + Decimal(len) + "\r\n"
  }

  function CloseCommand(link: string): string {
    "AT+CIPCLOSE=" + link + "\r\n"
  }

  /** `closeClientConnection`: close the link and wait for `CLOSED`; the
      outcome of the wait is not reported. */
  function CloseClientConnection(s: Session, link: string): (r: Run<()>)
    ensures r.Ran? ==> r.session.chan.out == s.chan.out + CloseCommand(link) + CRLF
    ensures r.Ran? ==> r.session.(buffer := s.buffer, ip := s.ip, chan := s.chan) == s
  {
    match Exchange(s, CloseCommand(link), "CLOSED")
    case Overrun => Overrun
    case Ran(_, s') => Ran((), s')
  }

  /** `closeServerConnection`: the escape sequence, as a command line. */
  function CloseServerConnection(s: Session): (s': Session)
    ensures s'.chan.out == s.chan.out + "+++\r\n" + CRLF
    ensures s'.(chan := s.chan) == s
  {
    SendCommand(s, "+++\r\n")
  }

  /** The common shape of the three sends: announce, wait for the `>`
      prompt, write the payload, wait for `SEND OK`; on a failed `SEND OK`
      the given close is run and the send fails. */
  datatype Closer = CloseClient(link: string) | CloseServer

  function Close(s: Session, c: Closer): Run<()> {
    match c
    case CloseClient(link) => CloseClientConnection(s, link)
    case CloseServer => Ran((), CloseServerConnection(s))
  }

  function CloseText(c: Closer): string {
    match c
    case CloseClient(link) => CloseCommand(link) + CRLF
    case CloseServer => "+++\r\n" + CRLF
  }

  lemma CloseWrites(s: Session, c: Closer)
    ensures Close(s, c).Ran? ==> Close(s, c).session.chan.out == s.chan.out + CloseText(c)
    ensures Close(s, c).Ran? ==> Close(s, c).session.(buffer := s.buffer, ip := s.ip, chan := s.chan) == s
  {
  }

  function Send(s: Session, announce: string, payload: string, c: Closer): (r: Run<bool>)
    ensures r.Ran? && r.value ==> r.session.chan.out == s.chan.out + announce + CRLF + payload
    ensures r.Ran? && !r.value ==>
      || r.session.chan.out == s.chan.out + announce + CRLF
      || r.session.chan.out == s.chan.out + announce + CRLF + payload + CloseText(c)
    ensures r.Ran? ==> r.session.(buffer := s.buffer, ip := s.ip, chan := s.chan) == s
  {
    match Exchange(s, announce, ">")
    case Overrun => Overrun
    case Ran(prompt, s1) =>
      if !prompt then Ran(false, s1)
      else
        var s2 := SendData(s1, payload);
        match WaitForResponse("SEND OK", DEFAULT_RESPONSE_TRIAL, s2)
        case Overrun => Overrun
        case Ran(sent, s3) =>
          if sent then Ran(true, s3)
          else
            CloseWrites(s3, c);
            match Close(s3, c)
            case Overrun => Overrun
            case Ran(_, s4) => Ran(false, s4)
  }

  /** A failed `>` wait ends the send before any payload byte is written. */
  lemma PromptFailureWritesNoPayload(s: Session, announce: string, payload: string, c: Closer)
    requires Exchange(s, announce, ">").Ran? && !Exchange(s, announce, ">").value
    ensures Send(s, announce, payload, c) == Exchange(s, announce, ">")
    ensures Send(s, announce, payload, c).session.chan.out == s.chan.out + announce + CRLF
  {
  }

  /** A failed `SEND OK` wait after the payload runs the close and fails. */
  lemma SendOkFailureCloses(s: Session, announce: string, payload: string, c: Closer)
    requires Exchange(s, announce, ">").Ran? && Exchange(s, announce, ">").value
    requires var s2 := SendData(Exchange(s, announce, ">").session, payload);
      WaitForResponse("SEND OK", DEFAULT_RESPONSE_TRIAL, s2).Ran? && !WaitForResponse("SEND OK", DEFAULT_RESPONSE_TRIAL, s2).value
    ensures Send(s, announce, payload, c).Ran? ==>
      && !Send(s, announce, payload, c).value
      && Send(s, announce, payload, c).session.chan.out == s.chan.out + announce + CRLF + payload + CloseText(c)
  {
    var s2 := SendData(Exchange(s, announce, ">").session, payload);
    CloseWrites(WaitForResponse("SEND OK", DEFAULT_RESPONSE_TRIAL, s2).session, c);
  }

  /** `sendMessageToClient`. */
  function SendMessageToClient(s: Session, link: string, msg: string): (r: Run<bool>)
    ensures r.Ran? && r.value ==> r.session.chan.out == s.chan.out + ClientSendCommand(link, |msg|) + CRLF + msg
    ensures r.Ran? && !r.value ==>
      || r.session.chan.out == s.chan.out + ClientSendCommand(link, |msg|) + CRLF
      || r.session.chan.out == s.chan.out + ClientSendCommand(link, |msg|) + CRLF + msg + CloseCommand(link) + CRLF
  {
    Send(s, ClientSendCommand(link, |msg|), msg, CloseClient(link))
  }

  /** The most `sendBinaryToClient` accepts in one send. */
  const MAX_BINARY: nat := 2048

  /** The staging copy `sendBinaryToClient` makes of its payload: `len + 1`
      zeroed slots with the `len` payload bytes copied in, then a NUL stored
      at slot `at`; `StageOverrun` when `at` lies outside the allocation. */
  datatype Staged = Staged(buf: string) | StageOverrun

  function Stage(data: string, at: nat): (r: Staged)
    ensures r.Staged? <==> at <= |data|
    ensures r.Staged? ==> |r.buf| == |data| + 1 && r.buf[at] == NUL
    ensures at == |data| ==> r == Staged(data + [NUL])
  {
    var buf := data + [NUL];
    if at < |buf| then Staged(buf[at := NUL]) else StageOverrun
  }

  /** The staging as written: the terminator goes to slot `len + 1`, one past
      the `len + 1` slots allocated, for every payload. */
  function StageAsWritten(data: string): (r: Staged)
    ensures r == StageOverrun
  {
    Stage(data, |data| + 1)
  }

  /** The staging as intended: the terminator in the last allocated slot,
      which keeps the payload intact as the first `len` bytes. */
  function StageCorrected(data: string): (r: Staged)
    ensures r == Staged(data + [NUL])
    ensures |r.buf| == |data| + 1 && r.buf[..|data|] == data && r.buf[|data|] == NUL
  {
    var r := Stage(data, |data|);
    assert r.buf[..|data|] == data;
    r
  }

  /** `sendBinaryToClient`: `data` stands for the `len` bytes at `binary`.
      Anything over 2048 bytes is refused before a byte is written; the
      payload sent is the first `len` bytes of the (corrected) staging copy. */
  function SendBinaryToClient(s: Session, link: string, data: string): (r: Run<bool>)
    requires |data| < 0x1_0000
    ensures |data| > MAX_BINARY ==> r == Ran(false, s)
    ensures r.Ran? && r.value ==> (|data| <= MAX_BINARY
      && r.session.chan.out == s.chan.out + ClientSendCommand(link, |data|) + CRLF + data)
    ensures r.Ran? && !r.value && |data| <= MAX_BINARY ==>
      || r.session.chan.out == s.chan.out + ClientSendCommand(link, |data|) + CRLF
      || r.session.chan.out == s.chan.out + ClientSendCommand(link, |data|) + CRLF + data + CloseCommand(link) + CRLF
  {
    if |data| > MAX_BINARY then Ran(false, s)
    else
      var staged := StageCorrected(data);
      Send(s, ClientSendCommand(link, |data|), staged.buf[..|data|], CloseClient(link))
  }

  /** `sendMessageToServer`. */
  function SendMessageToServer(s: Session, msg: string): (r: Run<bool>)
    ensures r.Ran? && r.value ==> r.session.chan.out == s.chan.out + ServerSendCommand(|msg|) + CRLF + msg
    ensures r.Ran? && !r.value ==>
      || r.session.chan.out == s.chan.out + ServerSendCommand(|msg|) + CRLF
      || r.session.chan.out == s.chan.out + ServerSendCommand(|msg|) + CRLF + msg + "+++\r\n" + CRLF
  {
    Send(s, ServerSendCommand(|msg|), msg, CloseServer)
  }
}
