/** The reply parsers: the `+IPD` payload extraction of `espListenToServer`,
    the link id of `extractLinkID` / `espListenToClient(String*)`, and the
    plain `espListenToClient`. */
module Parsers {
  import opened Text
  import opened Engine
  import opened Reader
  import opened Classifier

  /** The payload `espListenToServer` cuts out of a reply: nothing unless the
      reply mentions `+IPD`; otherwise the digits from offset 5 up to the
      first colon are read as the length (both stored in 16 bits, so a
      missing colon reads as 65535) and that many bytes after the colon are
      returned, clipped to what is there. */
  function IpdPayload(res: string): (r: string)
    ensures !Contains(res, "+IPD") ==> r == []
    ensures |r| <= |res|
  {
    if !Contains(res, "+IPD") then []
    else
      var index := U16(Find(res, ":", 0));
      var size := U16(ToInt(Substring(res, 5, index)));
      Substring(res, index + 1, size + index + 1)
  }

  /** The single-connection frame the modem sends for a payload. */
  function IpdFrame(payload: string): string {
    "+IPD," + Decimal(|payload|) + ":" + payload
  }

  /** The multi-connection frame: link id digit, then the length. */
  function IpdLinkFrame(link: nat, payload: string): string
    requires link < 10
  {
    "+IPD," + [DigitChar(link)] + "," + Decimal(|payload|) + ":" + payload
  }

  /** No colon in a prefix of digits and `+IPD,` punctuation. */
  lemma ColonAt(head: string, tail: string)
    requires ':' !in head
    ensures Find(head + ":" + tail, ":", 0) == |head|
  {
    var s := head + ":" + tail;
    assert s[|head|..|head| + 1] == ":";
    assert OccursAt(s, ":", |head|);
    forall i | 0 <= i < |head| ensures !OccursAt(s, ":", i) {
      assert s[i] == head[i];
    }
  }

  lemma DigitsNoColon(d: string)
    requires AllDigits(d)
    ensures ':' !in d
  {
    forall k | 0 <= k < |d| ensures d[k] != ':' {
      assert IsDigit(d[k]);
    }
  }

  /** The head of a reply starting with `+IPD` contains it. */
  lemma ContainsIpd(rest: string)
    ensures Contains("+IPD" + rest, "+IPD")
  {
    assert ("+IPD" + rest)[0..4] == "+IPD";
    ContainsAt("+IPD" + rest, "+IPD", 0);
  }

  /** The general shape: a reply mentioning `+IPD` whose first colon ends a
      head of which offset 5 onwards reads as `v`. */
  lemma IpdCut(head: string, payload: string, v: nat)
    requires 5 <= |head| < 0xFFFF && ':' !in head
    requires Contains(head + ":" + payload, "+IPD")
    requires ToInt(head[5..]) == v && v < 0x1_0000
    ensures IpdPayload(head + ":" + payload) == payload[..Min(v, |payload|)]
  {
    var res := head + ":" + payload;
    ColonAt(head, payload);
    var index := |head|;
    assert res[5..index] == head[5..];
    var lo, hi := index + 1, v + index + 1;
    if lo < |res| {
      assert res[lo..] == payload;
      assert res[lo..Min(hi, |res|)] == payload[..Min(v, |payload|)];
    } else {
      assert payload == [];
    }
  }

  /** A single-connection frame yields the first `n` payload bytes, `n` being
      the announced length (clipped to the bytes present). */
  lemma IpdSingleLink(n: nat, payload: string)
    requires n < 0x1_0000
    ensures IpdPayload("+IPD," + Decimal(n) + ":" + payload) == payload[..Min(n, |payload|)]
  {
    var d := Decimal(n);
    var head := "+IPD," + d;
    assert |d| <= 5;
    assert head + ":" + payload == "+IPD" + ("," + d + ":" + payload);
    ContainsIpd("," + d + ":" + payload);
    DigitsNoColon(d);
    assert head[5..] == d + [];
    ToIntDecimal(n, []);
    IpdCut(head, payload, n);
  }

  /** Round trip: the frame built for a payload is parsed back to exactly
      that payload. */
  lemma IpdRoundTrip(payload: string)
    requires |payload| < 0x1_0000
    ensures IpdPayload(IpdFrame(payload)) == payload
  {
    IpdSingleLink(|payload|, payload);
  }

  /** A multi-connection frame reads the link id as the length: the payload
      is cut to as many bytes as the link id's value, whatever length the
      frame announces. */
  lemma IpdMultiLink(link: nat, payload: string)
    requires link < 10 && |payload| < 0x1_0000
    ensures IpdPayload(IpdLinkFrame(link, payload)) == payload[..Min(link, |payload|)]
  {
    var d := Decimal(|payload|);
    var c := DigitChar(link);
    var head := "+IPD," + [c] + "," + d;
    assert |d| <= 5;
    assert IpdLinkFrame(link, payload) == head + ":" + payload;
    assert head + ":" + payload == "+IPD" + ("," + [c] + "," + d + ":" + payload);
    ContainsIpd("," + [c] + "," + d + ":" + payload);
    DigitsNoColon(d);
    assert head[5..] == [c] + ("," + d);
    LeadingDigitsOfDigits([c], "," + d);
    assert DecimalValue([c]) == link by {
      assert [c][..0] == [];
    }
    IpdCut(head, payload, link);
  }

  /** `+IPD,0,5:HELLO` is the multi-connection frame of `HELLO` on link 0. */
  lemma HelloFrame()
    ensures IpdLinkFrame(0, "HELLO") == "+IPD,0,5:HELLO"
  {
    assert Decimal(5) == [DigitChar(5)] == "5";
    assert [DigitChar(0)] == "0";
  }

  /** The frame `+IPD,0,5:HELLO` yields an empty payload. */
  lemma IpdMultiLinkExample()
    ensures IpdPayload("+IPD,0,5:HELLO") == ""
  {
    HelloFrame();
    IpdMultiLink(0, "HELLO");
  }

  /** Without a colon the stored index is 65535 and nothing is returned. */
  lemma IpdNoColon(res: string)
    requires |res| < 0xFFFF
    requires ':' !in res
    ensures IpdPayload(res) == []
  {
    forall i: nat | i + 1 <= |res| ensures !OccursAt(res, ":", i) {
      assert res[i..i + 1] == [res[i]];
    }
  }

  /** `extractLinkID`: the single character at offset 5, or nothing when the
      string is shorter. */
  function ExtractLinkID(s: string): (r: string)
    ensures |s| > 5 ==> r == [s[5]]
    ensures |s| <= 5 ==> r == []
  {
    Substring(s, 5, 6)
  }

  /** On a multi-connection frame the link id is the frame's digit. */
  lemma LinkIdOfFrame(link: nat, payload: string)
    requires link < 10
    ensures ExtractLinkID(IpdLinkFrame(link, payload)) == [DigitChar(link)]
  {
  }

  /** `espListenToServer`: one read, then the `+IPD` payload of the reply. */
  function ListenToServer(s: Session): (r: Run<string>)
    ensures r.Ran? ==> exists line :: ReadEffect(DEFAULT_RESPONSE_CHECK, s, line, r.session) && r.value == IpdPayload(line)
    ensures r.Ran? ==> |r.value| < BUFFSIZE
    ensures r.Ran? ==> r.session.chan.out == s.chan.out
    ensures r.Ran? ==> r.session.(buffer := s.buffer, ip := s.ip, chan := s.chan) == s
  {
    match ReadResponse(DEFAULT_RESPONSE_CHECK, s)
    case Overrun => Overrun
    case Ran(reply, s') =>
      ReadResponseEffect(DEFAULT_RESPONSE_CHECK, s);
      Ran(IpdPayload(reply), s')
  }

  /** `espListenToClient()`: the reply line as read. */
  function ListenToClient(s: Session): (r: Run<string>)
    ensures r.Ran? ==> ReadEffect(DEFAULT_RESPONSE_CHECK, s, r.value, r.session)
    ensures r.Ran? ==> |r.value| < BUFFSIZE && NUL !in r.value
    ensures r.Ran? ==> forall k :: 0 <= k < |r.value| ==> !IsLineEnd(r.value[k])
    ensures r.Ran? ==> r.session.chan.out == s.chan.out
  {
    ReadResponseEffect(DEFAULT_RESPONSE_CHECK, s);
    ReadResponse(DEFAULT_RESPONSE_CHECK, s)
  }

  /** `espListenToClient(String* linkid)`: the reply line and its link id. */
  function ListenToClientWithId(s: Session): (r: Run<(string, string)>)
    ensures r.Ran? ==> ReadEffect(DEFAULT_RESPONSE_CHECK, s, r.value.0, r.session)
    ensures r.Ran? ==> |r.value.1| <= 1
    ensures r.Ran? ==> (|r.value.1| == 1 <==> |r.value.0| > 5)
    ensures r.Ran? && |r.value.0| > 5 ==> r.value.1 == [r.value.0[5]]
    ensures r.Ran? ==> r.session.chan.out == s.chan.out
  {
    match ListenToClient(s)
    case Overrun => Overrun
    case Ran(res, s') => Ran((res, ExtractLinkID(res)), s')
  }

  lemma PlainFrame(link: nat, payload: string)
    requires link < 10 && Plain(payload)
    ensures Plain(IpdLinkFrame(link, payload))
  {
    var d := Decimal(|payload|);
    var f := IpdLinkFrame(link, payload);
    forall k | 0 <= k < |f| ensures !IsLineEnd(f[k]) && f[k] != NUL {
      if 7 <= k < 7 + |d| {
        assert f[k] == d[k - 7];
        assert IsDigit(d[k - 7]);
      } else if k >= 8 + |d| {
        assert f[k] == payload[k - 8 - |d|];
      }
    }
  }

  /** Listening on a multi-connection server: the modem's frame for link
      `link` is read, its link id is the link digit, and the payload handed
      back by `espListenToServer` is cut to `link` bytes. */
  lemma ListenMultiLink(s: Session, link: nat, payload: string, more: seq<string>)
    requires link < 10 && Plain(payload) && |payload| < 200
    requires s.chan.avail == [] && s.chan.arrivals == [Reply(IpdLinkFrame(link, payload))] + more
    ensures ListenToServer(s).Ran?
    ensures ListenToServer(s).value == payload[..Min(link, |payload|)]
    ensures ListenToClientWithId(s).Ran?
    ensures ListenToClientWithId(s).value == (IpdLinkFrame(link, payload), [DigitChar(link)])
  {
    var f := IpdLinkFrame(link, payload);
    PlainFrame(link, payload);
    assert |Decimal(|payload|)| <= 3;
    ReadReply(s, f, more);
    IpdMultiLink(link, payload);
    LinkIdOfFrame(link, payload);
  }
}
