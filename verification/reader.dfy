/** The line reader (`readResponse`): polls the channel round by round,
    drains the available bytes into the reply buffer, drops CR, drops LF
    while nothing is stored yet, ends at the first LF after content, and on
    every round captures the quoted IP address when the buffer mentions
    `STAIP` or `APIP`. */
module Reader {
  import opened Text
  import opened Engine

  /** The buffer with `w` written from slot `i` on and everything else kept. */
  function Overwrite(buf: Buffer, i: nat, w: string): (b: Buffer)
    requires i + |w| <= BUFFSIZE
  {
    buf[..i] + w + buf[i + |w|..]
  }

  /** Where one drain of the available bytes (the inner `while
      (Serial2.available())` loop) stopped: the buffer, the store index, the
      bytes left unread and whether a line-ending LF was seen; or
      `DrainOverrun` when a byte had to be stored at index `BUFFSIZE`. */
  datatype Drained = Drained(buf: Buffer, index: nat, rest: string, ended: bool) | DrainOverrun

  /** The inner drain loop. It has no capacity check of its own. */
  function Drain(buf: Buffer, index: nat, avail: string): (d: Drained)
    requires index <= BUFFSIZE
    ensures d.Drained? ==> index <= d.index <= BUFFSIZE
    ensures d.Drained? ==> |d.rest| + (d.index - index) <= |avail|
    ensures d.Drained? ==> d.rest == avail[|avail| - |d.rest|..]
    ensures d.Drained? && d.ended ==> d.index > 0
    ensures d.Drained? && !d.ended ==> d.rest == []
    decreases |avail|
  {
    if avail == [] then Drained(buf, index, [], false)
    else
      var c := avail[0];
      if c == CR then Drain(buf, index, avail[1..])
      else if c == LF then
        if index == 0 then Drain(buf, index, avail[1..])
        else Drained(buf, index, avail[1..], true)
      else if index == BUFFSIZE then DrainOverrun
      else Drain(buf[index := c], index + 1, avail[1..])
  }

  /** Stripping a consumed prefix one byte at a time. */
  lemma DrainStep(avail: string, m: nat)
    requires 1 <= m <= |avail|
    ensures Strip(avail[..m]) == (if IsLineEnd(avail[0]) then [] else [avail[0]]) + Strip(avail[1..][..m - 1])
  {
    assert avail[..m][1..] == avail[1..][..m - 1];
  }

  /** What a drain stores: the consumed bytes without CR and LF, written from
      the start index on, the slots before and after left as they were; when
      it ends a line, the last consumed byte is that LF. */
  lemma {:induction false} DrainContent(buf: Buffer, index: nat, avail: string)
    requires index <= BUFFSIZE
    requires Drain(buf, index, avail).Drained?
    ensures var d := Drain(buf, index, avail);
      && d.buf[..index] == buf[..index] && d.buf[d.index..] == buf[d.index..]
      && d.buf[index..d.index] == Strip(avail[..|avail| - |d.rest|])
      && (d.ended ==> |d.rest| < |avail| && avail[|avail| - |d.rest| - 1] == LF)
    decreases |avail|
  {
    if avail == [] {
      assert Drain(buf, index, avail) == Drained(buf, index, [], false);
    } else {
      var c := avail[0];
      if c == CR || (c == LF && index == 0) {
        DrainContentSkip(buf, index, avail);
      } else if c == LF {
        assert Drain(buf, index, avail) == Drained(buf, index, avail[1..], true);
        assert avail[..|avail| - |avail[1..]|] == [LF];
        assert Strip([LF]) == [];
      } else {
        DrainContentStore(buf, index, avail);
      }
    }
  }

  lemma {:induction false} DrainContentSkip(buf: Buffer, index: nat, avail: string)
    requires index <= BUFFSIZE
    requires avail != [] && (avail[0] == CR || (avail[0] == LF && index == 0))
    requires Drain(buf, index, avail).Drained?
    ensures var d := Drain(buf, index, avail);
      && d.buf[..index] == buf[..index] && d.buf[d.index..] == buf[d.index..]
      && d.buf[index..d.index] == Strip(avail[..|avail| - |d.rest|])
      && (d.ended ==> |d.rest| < |avail| && avail[|avail| - |d.rest| - 1] == LF)
    decreases |avail|, 0
  {
    var d := Drain(buf, index, avail[1..]);
    assert Drain(buf, index, avail) == d;
    DrainContent(buf, index, avail[1..]);
    DrainStep(avail, |avail| - |d.rest|);
  }

  lemma {:induction false} DrainContentStore(buf: Buffer, index: nat, avail: string)
    requires index < BUFFSIZE
    requires avail != [] && !IsLineEnd(avail[0])
    requires Drain(buf, index, avail).Drained?
    ensures var d := Drain(buf, index, avail);
      && d.buf[..index] == buf[..index] && d.buf[d.index..] == buf[d.index..]
      && d.buf[index..d.index] == Strip(avail[..|avail| - |d.rest|])
      && (d.ended ==> |d.rest| < |avail| && avail[|avail| - |d.rest| - 1] == LF)
    decreases |avail|, 0
  {
    var c := avail[0];
    var d := Drain(buf[index := c], index + 1, avail[1..]);
    assert Drain(buf, index, avail) == d;
    DrainContent(buf[index := c], index + 1, avail[1..]);
    DrainStep(avail, |avail| - |d.rest|);
    StoreFrame(buf, index, c, d.buf, d.index);
  }

  /** Framing arithmetic for one stored byte followed by more stores. */
  lemma StoreFrame(buf: Buffer, index: nat, c: char, b: Buffer, j: nat)
    requires index < j <= BUFFSIZE
    requires b[..index + 1] == buf[index := c][..index + 1]
    ensures b[..index] == buf[..index]
    ensures b[index..j] == [c] + b[index + 1..j]
  {
    assert b[..index] == b[..index + 1][..index];
    assert buf[..index] == buf[index := c][..index + 1][..index];
    assert b[index] == b[..index + 1][index];
  }

  /** The line framing of consumed bytes `C`, read after `i` bytes were
      stored: an LF that is not the last byte of `C` came while nothing was
      stored yet. */
  predicate Framed(i: nat, C: string) {
    forall k :: 0 <= k < |C| - 1 && C[k] == LF ==> i == 0 && Strip(C[..k]) == []
  }

  /** `C` ends with the LF that closes a line: one that follows stored bytes. */
  predicate EndsLine(i: nat, C: string) {
    |C| > 0 && C[|C| - 1] == LF && (i > 0 || Strip(C) != [])
  }

  /** Framing composes over consecutive stretches when the first does not
      end a line. */
  lemma FramedAppend(i: nat, A: string, B: string)
    requires Framed(i, A) && !EndsLine(i, A)
    requires Framed(i + |Strip(A)|, B)
    ensures Framed(i, A + B)
    ensures EndsLine(i, A + B) <==> EndsLine(i + |Strip(A)|, B)
  {
    var C := A + B;
    forall k | 0 <= k < |C| - 1 && C[k] == LF ensures i == 0 && Strip(C[..k]) == [] {
      if k < |A| {
        assert A[k] == C[k];
        FramedInFirst(i, A, B, k);
      } else {
        assert B[k - |A|] == C[k];
        FramedInSecond(i, A, B, k);
      }
    }
    EndsLineAppend(i, A, B);
  }

  /** An LF inside the first stretch. */
  lemma FramedInFirst(i: nat, A: string, B: string, k: nat)
    requires k < |A| && A[k] == LF
    requires k < |A| - 1 ==> i == 0 && Strip(A[..k]) == []
    requires k == |A| - 1 ==> i == 0 && Strip(A) == []
    ensures i == 0 && Strip((A + B)[..k]) == []
  {
    assert (A + B)[..k] == A[..k];
    if k == |A| - 1 {
      assert A == A[..k] + [LF];
      StripAppend(A[..k], [LF]);
      assert Strip([LF]) == [];
    }
  }

  /** An LF inside the second stretch. */
  lemma FramedInSecond(i: nat, A: string, B: string, k: nat)
    requires |A| <= k < |A| + |B|
    requires i + |Strip(A)| == 0 && Strip(B[..k - |A|]) == []
    ensures i == 0 && Strip((A + B)[..k]) == []
  {
    assert (A + B)[..k] == A + B[..k - |A|];
    StripAppend(A, B[..k - |A|]);
  }

  lemma EndsLineAppend(i: nat, A: string, B: string)
    requires !EndsLine(i, A)
    ensures EndsLine(i, A + B) <==> EndsLine(i + |Strip(A)|, B)
  {
    StripAppend(A, B);
    if B == [] {
      assert A + B == A;
    } else {
      assert (A + B)[|A + B| - 1] == B[|B| - 1];
    }
  }

  /** One more leading byte: how framing extends to `avail[..m]`. */
  lemma FramedCons(i: nat, avail: string, rest: nat)
    requires rest < |avail|
    requires !(avail[0] == LF && i > 0)
    requires Framed(if IsLineEnd(avail[0]) then i else i + 1, avail[1..][..|avail[1..]| - rest])
    ensures Framed(i, avail[..|avail| - rest])
    ensures EndsLine(i, avail[..|avail| - rest]) <==> EndsLine(if IsLineEnd(avail[0]) then i else i + 1, avail[1..][..|avail[1..]| - rest])
  {
    var c := avail[0];
    var m := |avail| - rest;
    assert avail[..m] == [c] + avail[1..][..m - 1];
    assert Strip([c]) == (if IsLineEnd(c) then [] else [c]);
    FramedAppend(i, [c], avail[1..][..m - 1]);
  }

  /** `FramedCons` with the drain's verdict carried along. */
  lemma FramedConsEnded(i: nat, avail: string, rest: nat, ended: bool)
    requires rest < |avail|
    requires !(avail[0] == LF && i > 0)
    requires var i' := if IsLineEnd(avail[0]) then i else i + 1;
      var C' := avail[1..][..|avail[1..]| - rest];
      Framed(i', C') && (ended <==> EndsLine(i', C'))
    ensures var C := avail[..|avail| - rest];
      Framed(i, C) && (ended <==> EndsLine(i, C))
  {
    FramedCons(i, avail, rest);
  }

  /** A drain consumes up to and including the first LF after stored bytes
      and no further: it ended exactly when what it consumed ends a line. */
  lemma {:induction false} DrainFraming(buf: Buffer, index: nat, avail: string)
    requires index <= BUFFSIZE
    requires Drain(buf, index, avail).Drained?
    ensures var d := Drain(buf, index, avail);
      var C := avail[..|avail| - |d.rest|];
      Framed(index, C) && (d.ended <==> EndsLine(index, C))
    decreases |avail|, 1
  {
    if avail == [] || (avail[0] == LF && index > 0) {
      DrainFramingEnd(buf, index, avail);
    } else if IsLineEnd(avail[0]) {
      DrainFramingSkip(buf, index, avail);
    } else {
      DrainFramingStore(buf, index, avail);
    }
  }

  /** A drain offered nothing, or offered an LF after stored bytes. */
  lemma DrainFramingEnd(buf: Buffer, index: nat, avail: string)
    requires index <= BUFFSIZE
    requires avail == [] || (avail[0] == LF && index > 0)
    ensures var d := Drain(buf, index, avail);
      var C := avail[..|avail| - |d.rest|];
      d.Drained? && Framed(index, C) && (d.ended <==> EndsLine(index, C))
  {
    if avail == [] {
      assert Drain(buf, index, avail) == Drained(buf, index, [], false);
    } else {
      assert Drain(buf, index, avail) == Drained(buf, index, avail[1..], true);
      assert avail[..|avail| - |avail[1..]|] == [LF];
    }
  }

  /** A drain that did not end a line consumed all it was offered. */
  lemma DrainWhole(buf: Buffer, index: nat, avail: string)
    requires index <= BUFFSIZE
    requires Drain(buf, index, avail).Drained? && !Drain(buf, index, avail).ended
    ensures Framed(index, avail) && !EndsLine(index, avail)
    ensures Drain(buf, index, avail).index == index + |Strip(avail)|
  {
    DrainFraming(buf, index, avail);
    DrainContent(buf, index, avail);
    assert avail[..|avail| - |Drain(buf, index, avail).rest|] == avail;
  }

  lemma {:induction false} DrainFramingSkip(buf: Buffer, index: nat, avail: string)
    requires index <= BUFFSIZE
    requires avail != [] && IsLineEnd(avail[0]) && !(avail[0] == LF && index > 0)
    requires Drain(buf, index, avail).Drained?
    ensures var d := Drain(buf, index, avail);
      var C := avail[..|avail| - |d.rest|];
      Framed(index, C) && (d.ended <==> EndsLine(index, C))
    decreases |avail|, 0
  {
    DrainSkip(buf, index, avail);
    var d := Drain(buf, index, avail[1..]);
    DrainFraming(buf, index, avail[1..]);
    FramedConsEnded(index, avail, |d.rest|, d.ended);
  }

  /** A CR, or an LF before anything is stored, is passed over. */
  lemma DrainSkip(buf: Buffer, index: nat, avail: string)
    requires index <= BUFFSIZE
    requires avail != [] && IsLineEnd(avail[0]) && !(avail[0] == LF && index > 0)
    ensures Drain(buf, index, avail) == Drain(buf, index, avail[1..])
  {
  }

  lemma {:induction false} DrainFramingStore(buf: Buffer, index: nat, avail: string)
    requires index <= BUFFSIZE
    requires avail != [] && !IsLineEnd(avail[0])
    requires Drain(buf, index, avail).Drained?
    ensures var d := Drain(buf, index, avail);
      var C := avail[..|avail| - |d.rest|];
      Framed(index, C) && (d.ended <==> EndsLine(index, C))
    decreases |avail|, 0
  {
    DrainStore(buf, index, avail);
    var d := Drain(buf[index := avail[0]], index + 1, avail[1..]);
    DrainFraming(buf[index := avail[0]], index + 1, avail[1..]);
    FramedConsEnded(index, avail, |d.rest|, d.ended);
  }

  /** Any other byte is stored, when there is room for it. */
  lemma DrainStore(buf: Buffer, index: nat, avail: string)
    requires index <= BUFFSIZE
    requires avail != [] && !IsLineEnd(avail[0])
    requires Drain(buf, index, avail).Drained?
    ensures index < BUFFSIZE
    ensures Drain(buf, index, avail) == Drain(buf[index := avail[0]], index + 1, avail[1..])
  {
  }

  /** Quote positions `i < j` are the first two `"` of `text`. */
  predicate FirstTwoQuotes(text: string, i: nat, j: nat) {
    i < j < |text| && text[i] == QUOTE && text[j] == QUOTE &&
    QUOTE !in text[..i] && QUOTE !in text[i + 1..j]
  }

  /** The IP field `readResponse` cuts out of the buffer text: from just after
      the first `"` up to the second one (`indexOf` results kept in
      `uint16_t`, so a missing quote reads as position 65535). */
  function QuotedField(text: string): (r: string)
    requires |text| <= BUFFSIZE
    ensures QUOTE !in r
    ensures QUOTE !in text ==> r == []
  {
    var start := U16(Find(text, [QUOTE], 0));
    var end := U16(Find(text, [QUOTE], start + 1));
    var r := Substring(text, start + 1, end);
    QuotedFieldNoQuote(text, start, end);
    r
  }

  lemma QuotedFieldNoQuote(text: string, start: nat, end: nat)
    requires |text| <= BUFFSIZE
    requires start == U16(Find(text, [QUOTE], 0))
    requires end == U16(Find(text, [QUOTE], start + 1))
    ensures QUOTE !in Substring(text, start + 1, end)
    ensures QUOTE !in text ==> Substring(text, start + 1, end) == []
  {
    var r := Substring(text, start + 1, end);
    var f0 := Find(text, [QUOTE], 0);
    if f0 == -1 {
      assert r == [];
    } else {
      var f1 := Find(text, [QUOTE], f0 + 1);
      var hi := if f1 == -1 then |text| else f1;
      assert r == text[f0 + 1..hi];
      NoQuoteIn(text, f0 + 1, hi);
    }
  }

  /** A slice with no occurrence of `"` at any of its positions holds no `"`. */
  lemma NoQuoteIn(text: string, a: nat, b: nat)
    requires a <= b <= |text|
    requires forall i :: a <= i < b ==> !OccursAt(text, [QUOTE], i)
    ensures QUOTE !in text[a..b]
  {
    forall k | a <= k < b ensures text[k] != QUOTE {
      assert !OccursAt(text, [QUOTE], k);
      assert text[k..k + 1] == [text[k]];
    }
  }

  /** With two quotes present, the field is exactly the text between them. */
  lemma QuotedFieldBetween(text: string, i: nat, j: nat)
    requires |text| <= BUFFSIZE
    requires FirstTwoQuotes(text, i, j)
    ensures QuotedField(text) == text[i + 1..j]
  {
    assert OccursAt(text, [QUOTE], i);
    forall k | 0 <= k < i ensures !OccursAt(text, [QUOTE], k) {
      assert text[..i][k] == text[k];
    }
    assert Find(text, [QUOTE], 0) == i;
    assert OccursAt(text, [QUOTE], j);
    forall k | i + 1 <= k < j ensures !OccursAt(text, [QUOTE], k) {
      assert text[i + 1..j][k - i - 1] == text[k];
    }
    assert Find(text, [QUOTE], i + 1) == j;
  }

  /** The IP check run at the end of every polling round (the buffer is read
      as a C string, so bytes past the fresh ones up to the old terminator
      take part). */
  function CaptureIp(buf: Buffer, ip: string): string {
    var text := CString(buf);
    if Contains(text, "STAIP") || Contains(text, "APIP") then QuotedField(text) else ip
  }

  /** Polling rounds `while (--timeout)` admits for a `uint16_t` budget. */
  function MaxRounds(timeout: u16): nat {
    if timeout == 0 then 0xFFFF else timeout - 1
  }

  /** The reader's working state between rounds. */
  datatype ReadState = ReadState(buf: Buffer, index: nat, chan: Channel, ip: string)

  datatype LoopEnd = Finished(last: ReadState) | LoopOverrun

  /** First chunk due on the channel (nothing when none is left). */
  function NextChunk(c: Channel): string {
    if c.arrivals == [] then [] else c.arrivals[0]
  }

  function LaterChunks(c: Channel): seq<string> {
    if c.arrivals == [] then [] else c.arrivals[1..]
  }

  /** The outer polling loop of `readResponse`: decrement the 16-bit budget,
      stop on zero or when `index > BUFFSIZE - 1`, otherwise take this
      round's chunk, drain, run the IP check, and stop after an LF. */
  function ReadLoop(timeout: u16, st: ReadState): (r: LoopEnd)
    requires st.index <= BUFFSIZE
    ensures r.Finished? ==> st.index <= r.last.index <= BUFFSIZE
    decreases if timeout == 0 then 0x1_0000 else timeout
  {
    var t := U16(timeout - 1);
    if t == 0 || st.index > BUFFSIZE - 1 then Finished(st)
    else
      match Drain(st.buf, st.index, st.chan.avail + NextChunk(st.chan))
      case DrainOverrun => LoopOverrun
      case Drained(buf', index', rest, ended) =>
        var st' := ReadState(buf', index', st.chan.(avail := rest, arrivals := LaterChunks(st.chan)), CaptureIp(buf', st.ip));
        if ended then Finished(st') else ReadLoop(t, st')
  }

  /** The bytes the first `k` polling rounds can see: what was already
      available followed by the first `k` chunks. */
  function Offered(c: Channel, k: nat): string
    requires k <= |c.arrivals|
  {
    c.avail + Concat(c.arrivals[..k])
  }

  /** What the polling loop does to the channel and the buffer, between the
      start state `st` and the final state `f`: it takes one chunk per round
      and at most `MaxRounds(timeout)` chunks, writes nothing, leaves the
      unread rest of what it was offered in the channel, and stores exactly
      the consumed bytes without CR and LF from the start index on, the slots
      outside untouched. */
  ghost predicate LoopEffect(rounds: nat, st: ReadState, f: ReadState)
  {
    && st.index <= f.index <= BUFFSIZE
    && ChannelEffect(rounds, st.chan, f.chan)
    && StoreEffect(st, f)
  }

  /** Chunks taken: no more than `rounds`, from the front; nothing written;
      the unread rest of the offered bytes left in the channel. */
  ghost predicate ChannelEffect(rounds: nat, c: Channel, c': Channel)
  {
    var k := |c.arrivals| - |c'.arrivals|;
    && |c'.arrivals| <= |c.arrivals|
    && k <= rounds
    && c'.arrivals == c.arrivals[k..]
    && c'.out == c.out
    && |c'.avail| <= |Offered(c, k)|
    && c'.avail == Offered(c, k)[|Offered(c, k)| - |c'.avail|..]
  }

  /** The bytes consumed from the channel, as offered and not left unread. */
  ghost function Consumed(c: Channel, c': Channel): string
    requires |c'.arrivals| <= |c.arrivals|
    requires |c'.avail| <= |Offered(c, |c.arrivals| - |c'.arrivals|)|
  {
    var O := Offered(c, |c.arrivals| - |c'.arrivals|);
    O[..|O| - |c'.avail|]
  }

  /** The stored bytes are the consumed ones without CR and LF; the slots
      before the start index and from the final index on are untouched. */
  ghost predicate StoreEffect(st: ReadState, f: ReadState)
  {
    && st.index <= f.index <= BUFFSIZE
    && |f.chan.arrivals| <= |st.chan.arrivals|
    && |f.chan.avail| <= |Offered(st.chan, |st.chan.arrivals| - |f.chan.arrivals|)|
    && f.buf[st.index..f.index] == Strip(Consumed(st.chan, f.chan))
    && f.buf[..st.index] == st.buf[..st.index]
    && f.buf[f.index..] == st.buf[f.index..]
  }

  lemma {:induction false} ReadLoopFacts(timeout: u16, st: ReadState)
    requires st.index <= BUFFSIZE
    requires ReadLoop(timeout, st).Finished?
    ensures LoopEffect(MaxRounds(timeout), st, ReadLoop(timeout, st).last)
    decreases if timeout == 0 then 0x1_0000 else timeout
  {
    var t := U16(timeout - 1);
    if t == 0 || st.index > BUFFSIZE - 1 {
      NoRound(MaxRounds(timeout), st);
    } else {
      var A := st.chan.avail + NextChunk(st.chan);
      var d := Drain(st.buf, st.index, A);
      DrainContent(st.buf, st.index, A);
      var st' := ReadState(d.buf, d.index, st.chan.(avail := d.rest, arrivals := LaterChunks(st.chan)), CaptureIp(d.buf, st.ip));
      var k1 := if st.chan.arrivals == [] then 0 else 1;
      FirstRound(st.chan, A, k1);
      if d.ended {
        assert ReadLoop(timeout, st).last == st';
        LastRound(MaxRounds(timeout), st, A, k1, st');
      } else {
        assert ReadLoop(timeout, st) == ReadLoop(t, st');
        assert A[..|A| - |d.rest|] == A;
        ReadLoopFacts(t, st');
        LaterRounds(t, timeout, st, A, k1, st', ReadLoop(t, st').last);
      }
    }
  }

  lemma NoRound(rounds: nat, st: ReadState)
    requires st.index <= BUFFSIZE
    ensures LoopEffect(rounds, st, st)
  {
    assert st.chan.arrivals[..0] == [];
  }

  lemma LastRound(rounds: nat, st: ReadState, A: string, k1: nat, st': ReadState)
    requires 1 <= rounds && st.index <= st'.index <= BUFFSIZE
    requires k1 == if st.chan.arrivals == [] then 0 else 1
    requires k1 <= |st.chan.arrivals| && Offered(st.chan, k1) == A
    requires st'.chan == st.chan.(avail := st'.chan.avail, arrivals := LaterChunks(st.chan))
    requires |st'.chan.avail| <= |A| && st'.chan.avail == A[|A| - |st'.chan.avail|..]
    requires st'.buf[..st.index] == st.buf[..st.index] && st'.buf[st'.index..] == st.buf[st'.index..]
    requires st'.buf[st.index..st'.index] == Strip(A[..|A| - |st'.chan.avail|])
    ensures LoopEffect(rounds, st, st')
  {
    assert st'.chan.arrivals == st.chan.arrivals[k1..];
  }

  lemma FirstRound(c: Channel, A: string, k1: nat)
    requires A == c.avail + NextChunk(c)
    requires k1 == if c.arrivals == [] then 0 else 1
    ensures k1 <= |c.arrivals| && Offered(c, k1) == A
  {
    if k1 == 1 {
      assert c.arrivals[..1] == [c.arrivals[0]];
      assert Concat(c.arrivals[..1]) == c.arrivals[0] + Concat([]);
    }
  }

  /** A round that consumed all it was offered, followed by the rest of the
      loop, has the effect the whole loop promises. */
  lemma LaterRounds(t: u16, timeout: u16, st: ReadState, A: string, k1: nat, st': ReadState, f: ReadState)
    requires t >= 1 && MaxRounds(timeout) == t && st.index < BUFFSIZE
    requires k1 == if st.chan.arrivals == [] then 0 else 1
    requires k1 <= |st.chan.arrivals| && Offered(st.chan, k1) == A
    requires st'.chan == st.chan.(avail := [], arrivals := LaterChunks(st.chan))
    requires st.index <= st'.index <= BUFFSIZE
    requires st'.buf[..st.index] == st.buf[..st.index] && st'.buf[st'.index..] == st.buf[st'.index..]
    requires st'.buf[st.index..st'.index] == Strip(A)
    requires LoopEffect(MaxRounds(t), st', f)
    ensures LoopEffect(MaxRounds(timeout), st, f)
  {
    var k' := |st'.chan.arrivals| - |f.chan.arrivals|;
    RoundsCompose(st.chan, st'.chan, A, k1, k');
    LaterRoundsChannel(t, timeout, st.chan, A, k1, st'.chan, f.chan);
    LaterRoundsStore(st, A, k1, st', f);
  }

  lemma LaterRoundsChannel(t: u16, timeout: u16, c: Channel, A: string, k1: nat, c': Channel, f: Channel)
    requires t >= 1 && MaxRounds(timeout) == t
    requires k1 <= |c.arrivals| && k1 <= 1
    requires ChannelEffect(MaxRounds(t), c', f)
    requires k1 + |c'.arrivals| == |c.arrivals|
    requires Offered(c, k1 + |c'.arrivals| - |f.arrivals|) == A + Offered(c', |c'.arrivals| - |f.arrivals|)
    requires c.arrivals[k1 + |c'.arrivals| - |f.arrivals|..] == c'.arrivals[|c'.arrivals| - |f.arrivals|..]
    requires c'.out == c.out
    ensures ChannelEffect(MaxRounds(timeout), c, f)
  {
  }

  lemma LaterRoundsStore(st: ReadState, A: string, k1: nat, st': ReadState, f: ReadState)
    requires st.index <= st'.index <= f.index <= BUFFSIZE
    requires k1 + |st'.chan.arrivals| == |st.chan.arrivals|
    requires |f.chan.arrivals| <= |st'.chan.arrivals|
    requires Offered(st.chan, k1 + |st'.chan.arrivals| - |f.chan.arrivals|)
      == A + Offered(st'.chan, |st'.chan.arrivals| - |f.chan.arrivals|)
    requires st'.buf[..st.index] == st.buf[..st.index] && st'.buf[st'.index..] == st.buf[st'.index..]
    requires st'.buf[st.index..st'.index] == Strip(A)
    requires StoreEffect(st', f)
    ensures StoreEffect(st, f)
  {
    ConsumedCompose(st.chan, A, k1, st'.chan, f.chan);
    StripAppend(A, Consumed(st'.chan, f.chan));
    FrameCompose(st.buf, st.index, st'.buf, st'.index, f.buf, f.index);
  }

  /** What is consumed from `c` is the first rounds' bytes `A`, then what
      is consumed from the later channel `c'`. */
  lemma ConsumedCompose(c: Channel, A: string, k1: nat, c': Channel, e: Channel)
    requires k1 + |c'.arrivals| == |c.arrivals|
    requires |e.arrivals| <= |c'.arrivals|
    requires |e.avail| <= |Offered(c', |c'.arrivals| - |e.arrivals|)|
    requires Offered(c, k1 + |c'.arrivals| - |e.arrivals|) == A + Offered(c', |c'.arrivals| - |e.arrivals|)
    ensures |e.avail| <= |Offered(c, |c.arrivals| - |e.arrivals|)|
    ensures Consumed(c, e) == A + Consumed(c', e)
  {
    var O' := Offered(c', |c'.arrivals| - |e.arrivals|);
    assert Offered(c, |c.arrivals| - |e.arrivals|) == A + O';
    assert (A + O')[..|A + O'| - |e.avail|] == A + O'[..|O'| - |e.avail|];
  }

  /** Offered bytes over `k1 + k'` rounds: the first round's bytes, then
      what the following rounds are offered. */
  lemma RoundsCompose(c: Channel, c': Channel, A: string, k1: nat, k': nat)
    requires k1 <= 1 && k1 <= |c.arrivals|
    requires k1 == 0 ==> c.arrivals == [] && c'.arrivals == []
    requires k1 == 1 ==> c'.arrivals == c.arrivals[1..]
    requires A == Offered(c, k1) && c'.avail == []
    requires k' <= |c'.arrivals|
    ensures k1 + k' <= |c.arrivals|
    ensures Offered(c, k1 + k') == A + Offered(c', k')
    ensures c.arrivals[k1 + k'..] == c'.arrivals[k'..]
  {
    if k1 == 1 {
      var xs := c.arrivals[..1 + k'];
      assert xs[1..] == c'.arrivals[..k'];
      assert Concat(xs) == c.arrivals[0] + Concat(c'.arrivals[..k']);
      assert c.arrivals[..1] == [c.arrivals[0]];
      assert Concat(c.arrivals[..1]) == c.arrivals[0] + Concat([]);
    } else {
      assert c'.arrivals[..k'] == [];
    }
  }

  /** Two successive store phases compose into one. */
  lemma FrameCompose(b0: Buffer, i0: nat, b1: Buffer, i1: nat, b2: Buffer, i2: nat)
    requires i0 <= i1 <= i2 <= BUFFSIZE
    requires b1[..i0] == b0[..i0] && b1[i1..] == b0[i1..]
    requires b2[..i1] == b1[..i1] && b2[i2..] == b1[i2..]
    ensures b2[..i0] == b0[..i0] && b2[i2..] == b0[i2..]
    ensures b2[i0..i2] == b1[i0..i1] + b2[i1..i2]
  {
    assert b2[..i0] == b2[..i1][..i0];
    assert b1[..i0] == b1[..i1][..i0];
    assert b1[i2..] == b1[i1..][i2 - i1..];
    assert b0[i2..] == b0[i1..][i2 - i1..];
    assert b2[i0..i1] == b2[..i1][i0..];
    assert b1[i0..i1] == b1[..i1][i0..];
  }

  /** A loop that did not end a line ran out of input: it took a chunk in
      every round it had while chunks were left, and left nothing it was
      offered unread. */
  ghost predicate RanOut(rounds: nat, c: Channel, c': Channel) {
    && |c.arrivals| - |c'.arrivals| == Min(rounds, |c.arrivals|)
    && (rounds > 0 ==> c'.avail == [])
  }

  /** Where the polling loop stops: it consumes no LF after stored content
      but as its last byte, and unless it consumed such an LF it ran out of
      input. */
  ghost predicate LoopFraming(rounds: nat, st: ReadState, f: ReadState)
    requires ChannelEffect(rounds, st.chan, f.chan)
  {
    var C := Consumed(st.chan, f.chan);
    Framed(st.index, C) && (!EndsLine(st.index, C) ==> RanOut(rounds, st.chan, f.chan))
  }

  /** The framing of a loop that finishes with room for the terminator. */
  lemma {:induction false} ReadLoopFraming(timeout: u16, st: ReadState)
    requires st.index <= BUFFSIZE
    requires ReadLoop(timeout, st).Finished? && ReadLoop(timeout, st).last.index < BUFFSIZE
    ensures LoopEffect(MaxRounds(timeout), st, ReadLoop(timeout, st).last)
    ensures LoopFraming(MaxRounds(timeout), st, ReadLoop(timeout, st).last)
    decreases if timeout == 0 then 0x1_0000 else timeout
  {
    ReadLoopFacts(timeout, st);
    var t := U16(timeout - 1);
    if t == 0 {
      assert ReadLoop(timeout, st) == Finished(st);
      NoRoundFraming(st);
    } else if st.index > BUFFSIZE - 1 {
      assert false;
    } else {
      var A := st.chan.avail + NextChunk(st.chan);
      var d := Drain(st.buf, st.index, A);
      DrainContent(st.buf, st.index, A);
      var st' := ReadState(d.buf, d.index, st.chan.(avail := d.rest, arrivals := LaterChunks(st.chan)), CaptureIp(d.buf, st.ip));
      var k1 := if st.chan.arrivals == [] then 0 else 1;
      FirstRound(st.chan, A, k1);
      if d.ended {
        DrainFraming(st.buf, st.index, A);
        assert ReadLoop(timeout, st).last == st';
        LastRoundFraming(MaxRounds(timeout), st, A, k1, st');
      } else {
        assert ReadLoop(timeout, st) == ReadLoop(t, st');
        DrainWhole(st.buf, st.index, A);
        ReadLoopFraming(t, st');
        var f := ReadLoop(t, st').last;
        if MaxRounds(t) == 0 {
          assert ReadLoop(t, st') == Finished(st');
        }
        LaterRoundsFraming(t, timeout, st, A, k1, st', f);
      }
    }
  }

  lemma NoRoundFraming(st: ReadState)
    ensures ChannelEffect(0, st.chan, st.chan) && LoopFraming(0, st, st)
  {
    assert st.chan.arrivals[..0] == [];
  }

  lemma LastRoundFraming(rounds: nat, st: ReadState, A: string, k1: nat, st': ReadState)
    requires k1 == if st.chan.arrivals == [] then 0 else 1
    requires k1 <= |st.chan.arrivals| && Offered(st.chan, k1) == A
    requires st'.chan == st.chan.(avail := st'.chan.avail, arrivals := LaterChunks(st.chan))
    requires |st'.chan.avail| <= |A|
    requires ChannelEffect(rounds, st.chan, st'.chan)
    requires EndsLine(st.index, A[..|A| - |st'.chan.avail|]) && Framed(st.index, A[..|A| - |st'.chan.avail|])
    ensures LoopFraming(rounds, st, st')
  {
    assert |st.chan.arrivals| - |st'.chan.arrivals| == k1;
    assert Consumed(st.chan, st'.chan) == A[..|A| - |st'.chan.avail|];
  }

  /** A round that consumed all it was offered without ending a line,
      followed by the rest of the loop. */
  lemma LaterRoundsFraming(t: u16, timeout: u16, st: ReadState, A: string, k1: nat, st': ReadState, f: ReadState)
    requires t >= 1 && MaxRounds(timeout) == t
    requires k1 == if st.chan.arrivals == [] then 0 else 1
    requires k1 <= |st.chan.arrivals| && Offered(st.chan, k1) == A
    requires st'.chan == st.chan.(avail := [], arrivals := LaterChunks(st.chan))
    requires st'.index == st.index + |Strip(A)|
    requires Framed(st.index, A) && !EndsLine(st.index, A)
    requires ChannelEffect(MaxRounds(t), st'.chan, f.chan) && LoopFraming(MaxRounds(t), st', f)
    requires MaxRounds(t) == 0 ==> f == st'
    requires ChannelEffect(MaxRounds(timeout), st.chan, f.chan)
    ensures LoopFraming(MaxRounds(timeout), st, f)
  {
    ChannelFraming(MaxRounds(timeout), st.index, st.chan, A, k1, st'.index, st'.chan, f.chan);
  }

  /** The same, stated over the channels alone. */
  lemma ChannelFraming(rounds: nat, i: nat, c: Channel, A: string, k1: nat, i': nat, c': Channel, e: Channel)
    requires rounds >= 1
    requires k1 == if c.arrivals == [] then 0 else 1
    requires k1 <= |c.arrivals| && Offered(c, k1) == A
    requires c' == c.(avail := [], arrivals := LaterChunks(c))
    requires i' == i + |Strip(A)|
    requires Framed(i, A) && !EndsLine(i, A)
    requires ChannelEffect(rounds - 1, c', e)
    requires Framed(i', Consumed(c', e))
    requires !EndsLine(i', Consumed(c', e)) ==> RanOut(rounds - 1, c', e)
    requires rounds == 1 ==> e == c'
    ensures |e.arrivals| <= |c.arrivals| && |e.avail| <= |Offered(c, |c.arrivals| - |e.arrivals|)|
    ensures Framed(i, Consumed(c, e))
    ensures !EndsLine(i, Consumed(c, e)) ==> RanOut(rounds, c, e)
  {
    ChannelsCompose(rounds, c, A, k1, c', e);
    FramedAppend(i, A, Consumed(c', e));
    if !EndsLine(i, A + Consumed(c', e)) {
      LaterRanOut(rounds, c, k1, c', e);
    }
  }

  /** A first round that took `k1` chunks and everything offered, followed by
      later rounds: what the whole consumed is what each consumed in turn. */
  lemma ChannelsCompose(rounds: nat, c: Channel, A: string, k1: nat, c': Channel, e: Channel)
    requires rounds >= 1
    requires k1 == if c.arrivals == [] then 0 else 1
    requires k1 <= |c.arrivals| && Offered(c, k1) == A
    requires c' == c.(avail := [], arrivals := LaterChunks(c))
    requires ChannelEffect(rounds - 1, c', e)
    ensures |c'.arrivals| == |c.arrivals| - k1
    ensures |e.arrivals| <= |c.arrivals| && |e.avail| <= |Offered(c, |c.arrivals| - |e.arrivals|)|
    ensures Consumed(c, e) == A + Consumed(c', e)
  {
    var k' := |c'.arrivals| - |e.arrivals|;
    RoundsCompose(c, c', A, k1, k');
    ConsumedCompose(c, A, k1, c', e);
  }

  /** Running out of input after one round that took `k1` chunks. */
  lemma LaterRanOut(rounds: nat, c: Channel, k1: nat, c': Channel, e: Channel)
    requires rounds >= 1
    requires k1 == if c.arrivals == [] then 0 else 1
    requires |c'.arrivals| == |c.arrivals| - k1
    requires RanOut(rounds - 1, c', e)
    requires rounds == 1 ==> e == c' && c'.avail == []
    ensures RanOut(rounds, c, e)
  {
  }

  /** Concatenated chunks split where the chunk list is split. */
  lemma {:induction false} TotalLengthSplit(chunks: seq<string>, k: nat)
    requires k <= |chunks|
    ensures TotalLength(chunks) == |Concat(chunks[..k])| + TotalLength(chunks[k..])
  {
    if k > 0 {
      TotalLengthSplit(chunks[1..], k - 1);
      assert chunks[1..][..k - 1] == chunks[..k][1..];
      assert chunks[1..][k - 1..] == chunks[k..];
    } else {
      assert chunks[..0] == [];
    }
  }

  /** Every byte the channel loses is a consumed one. */
  lemma ConsumedPending(rounds: nat, c: Channel, c': Channel)
    requires ChannelEffect(rounds, c, c')
    ensures Pending(c') + |Consumed(c, c')| == Pending(c)
  {
    TotalLengthSplit(c.arrivals, |c.arrivals| - |c'.arrivals|);
  }

  /** What a completed `readResponse` promises: the buffer is NUL-terminated
      right after the reply; the reply is the consumed input without CR and
      LF, up to the first NUL byte, and shorter than the buffer; at most
      `MaxRounds(timeout)` chunks were taken; what was not consumed is still
      in the channel; nothing was written; and only the buffer, the IP field
      and the channel changed. The read stops where `readResponse` stops: the
      consumed bytes hold an LF before their last byte only while nothing
      had yet been stored, and unless the last consumed byte is an LF that
      ends a line, the read took every round it was allowed (or every chunk
      there was) and consumed all it was offered. The new buffer is the
      stored bytes over the old contents, NUL-terminated; and the IP field is
      what the IP check of the last round left: untouched when no round ran,
      otherwise the quoted field of that round's buffer whenever the buffer
      mentions `STAIP` or `APIP`, and untouched when no buffer the IP check can
      have read on the way mentions either. */
  ghost predicate ReadEffect(timeout: u16, s: Session, reply: string, s': Session)
  {
    && ReadStoreEffect(timeout, s, reply, s')
    && IpEffect(MaxRounds(timeout), s, Strip(Consumed(s.chan, s'.chan)), s')
  }

  /** The reply, buffer and channel part of `ReadEffect`. */
  ghost predicate ReadStoreEffect(timeout: u16, s: Session, reply: string, s': Session)
  {
    && ChannelEffect(MaxRounds(timeout), s.chan, s'.chan)
    && var C := Consumed(s.chan, s'.chan);
    && reply == CString(Strip(C))
    && CString(s'.buffer) == reply
    && |reply| < BUFFSIZE
    && (forall k :: 0 <= k < |reply| ==> reply[k] != CR && reply[k] != LF)
    && Pending(s'.chan) + |reply| <= Pending(s.chan)
    && s'.(buffer := s.buffer, ip := s.ip, chan := s.chan) == s
    && Framed(0, C)
    && (!EndsLine(0, C) ==> RanOut(MaxRounds(timeout), s.chan, s'.chan))
    && |Strip(C)| < BUFFSIZE
    && s'.buffer == LastSeen(Strip(C), s.buffer)[|Strip(C)| := NUL]
  }

  /** The IP part of `ReadEffect`, for a read of `rounds` rounds that stored
      `stored` over the buffer of `s`. */
  ghost predicate IpEffect(rounds: nat, s: Session, stored: string, s': Session)
  {
    && |stored| <= BUFFSIZE
    && (rounds == 0 ==> s'.ip == s.ip)
    && (rounds >= 1 ==> IpCaptured(LastSeen(stored, s.buffer), s'.ip))
    && (NeverMentioned(stored, s.buffer) ==> s'.ip == s.ip)
  }

  /** The buffer a round's IP check reads: the bytes stored so far over the
      old contents of the slots behind them. */
  function LastSeen(stored: string, prior: Buffer): Buffer
    requires |stored| <= BUFFSIZE
  {
    stored + prior[|stored|..]
  }

  /** The IP field agrees with a check of `buf`: when the C string of `buf`
      mentions `STAIP` or `APIP`, the field is its quoted part. */
  predicate IpCaptured(buf: Buffer, ip: string) {
    Mentions(buf) ==> ip == QuotedField(CString(buf))
  }

  /** Whether the IP check of a round fires on `buf`: its C string mentions
      `STAIP` or `APIP`. */
  predicate Mentions(buf: string) {
    var text := CString(buf);
    Contains(text, "STAIP") || Contains(text, "APIP")
  }

  /** No buffer the IP check can have read while `stored` was being laid
      over `prior` mentions a key: every prefix of `stored` over the old
      contents is quiet. */
  predicate NeverMentioned(stored: string, prior: Buffer) {
    forall n :: 0 <= n <= |stored| <= BUFFSIZE ==> !Mentions(LastSeen(stored[..n], prior))
  }

  /** Loop form of `NeverMentioned`: from store index `i0` of `prior` to the
      final buffer `bf` at index `iF`, no intermediate buffer mentions a key. */
  ghost predicate Quiet(prior: Buffer, i0: nat, bf: Buffer, iF: nat)
  {
    forall n :: i0 <= n <= iF && n <= BUFFSIZE ==> !Mentions(bf[..n] + prior[n..])
  }

  /** One round of a quiet loop: the round's buffer is quiet, and so is the
      rest of the loop from there. */
  lemma QuietStep(b0: Buffer, i0: nat, b1: Buffer, i1: nat, bf: Buffer, iF: nat)
    requires i0 <= i1 <= iF <= BUFFSIZE
    requires b1[i1..] == b0[i1..] && bf[..i1] == b1[..i1]
    requires Quiet(b0, i0, bf, iF)
    ensures !Mentions(b1)
    ensures Quiet(b1, i1, bf, iF)
  {
    assert bf[..i1] + b0[i1..] == b1;
    forall n | i1 <= n <= iF && n <= BUFFSIZE
      ensures bf[..n] + b1[n..] == bf[..n] + b0[n..]
    {
      assert b1[n..] == b1[i1..][n - i1..];
      assert b0[n..] == b0[i1..][n - i1..];
    }
  }

  /** A loop none of whose rounds' buffers mention a key leaves the IP field
      alone. */
  lemma {:induction false} ReadLoopIpFrame(timeout: u16, st: ReadState)
    requires st.index <= BUFFSIZE
    requires ReadLoop(timeout, st).Finished?
    requires Quiet(st.buf, st.index, ReadLoop(timeout, st).last.buf, ReadLoop(timeout, st).last.index)
    ensures ReadLoop(timeout, st).last.ip == st.ip
    decreases if timeout == 0 then 0x1_0000 else timeout
  {
    var t := U16(timeout - 1);
    if t == 0 || st.index > BUFFSIZE - 1 {
      assert ReadLoop(timeout, st) == Finished(st);
    } else {
      var A := st.chan.avail + NextChunk(st.chan);
      var d := Drain(st.buf, st.index, A);
      DrainContent(st.buf, st.index, A);
      var st' := ReadState(d.buf, d.index, st.chan.(avail := d.rest, arrivals := LaterChunks(st.chan)), CaptureIp(d.buf, st.ip));
      var f := ReadLoop(timeout, st).last;
      if d.ended {
        assert f == st';
        QuietStep(st.buf, st.index, d.buf, d.index, f.buf, f.index);
      } else {
        assert ReadLoop(timeout, st) == ReadLoop(t, st');
        ReadLoopFacts(t, st');
        QuietStep(st.buf, st.index, d.buf, d.index, f.buf, f.index);
        ReadLoopIpFrame(t, st');
      }
    }
  }

  /** `NeverMentioned` of the stored bytes is the loop's `Quiet`. */
  lemma NeverMentionedQuiet(stored: string, prior: Buffer, bf: Buffer)
    requires |stored| <= BUFFSIZE && bf == LastSeen(stored, prior)
    requires NeverMentioned(stored, prior)
    ensures Quiet(prior, 0, bf, |stored|)
  {
    forall n | 0 <= n <= |stored|
      ensures bf[..n] + prior[n..] == LastSeen(stored[..n], prior)
    {
      assert bf[..n] == stored[..n];
    }
  }

  /** The IP field after the last round agrees with a check of the last
      round's buffer, however many rounds ran and however the line arrived. */
  lemma {:induction false} ReadLoopIp(timeout: u16, st: ReadState)
    requires st.index < BUFFSIZE && MaxRounds(timeout) >= 1
    requires ReadLoop(timeout, st).Finished?
    ensures IpCaptured(ReadLoop(timeout, st).last.buf, ReadLoop(timeout, st).last.ip)
    decreases if timeout == 0 then 0x1_0000 else timeout
  {
    var t := U16(timeout - 1);
    var A := st.chan.avail + NextChunk(st.chan);
    var d := Drain(st.buf, st.index, A);
    var st' := ReadState(d.buf, d.index, st.chan.(avail := d.rest, arrivals := LaterChunks(st.chan)), CaptureIp(d.buf, st.ip));
    assert IpCaptured(st'.buf, st'.ip);
    if !d.ended {
      assert ReadLoop(timeout, st) == ReadLoop(t, st');
      if MaxRounds(t) >= 1 && st'.index < BUFFSIZE {
        ReadLoopIp(t, st');
      }
    }
  }

  /** Loop end states are pinned down by the store: the buffer is the stored
      bytes over the old contents. */
  lemma LastSeenOfStore(prior: Buffer, b: Buffer, n: nat, stored: string)
    requires n <= BUFFSIZE && b[0..n] == stored && b[n..] == prior[n..]
    ensures b == LastSeen(stored, prior)
  {
    assert b == b[0..n] + b[n..];
  }

  /** IP capture on any completed read: when the reply mentions `STAIP` or
      `APIP` and holds two quotes, the IP field becomes exactly the text
      between the first two, whether the line arrived in one chunk or
      several, after empty rounds, or from bytes left over by an earlier
      read. */
  lemma ReadCapturesIp(timeout: u16, s: Session, reply: string, s': Session, i: nat, j: nat)
    requires ReadEffect(timeout, s, reply, s')
    requires MaxRounds(timeout) >= 1
    requires Contains(reply, "STAIP") || Contains(reply, "APIP")
    requires FirstTwoQuotes(reply, i, j)
    ensures GetIpAddress(s') == reply[i + 1..j]
  {
    var S := Strip(Consumed(s.chan, s'.chan));
    CStringPrefix(S, s.buffer[|S|..]);
    QuotedFieldOfExtension(reply, CString(LastSeen(S, s.buffer)), i, j);
  }

  /** A text that begins with a line mentioning `STAIP` or `APIP` mentions it
      too, and has the same quoted field. */
  lemma QuotedFieldOfExtension(line: string, T: string, i: nat, j: nat)
    requires |line| <= |T| <= BUFFSIZE && T[..|line|] == line
    requires Contains(line, "STAIP") || Contains(line, "APIP")
    requires FirstTwoQuotes(line, i, j)
    ensures Contains(T, "STAIP") || Contains(T, "APIP")
    ensures QuotedField(T) == line[i + 1..j]
  {
    var x := T[|line|..];
    assert T == line + x;
    if Contains(line, "STAIP") {
      ContainsExtend(line, x, "STAIP");
    } else {
      ContainsExtend(line, x, "APIP");
    }
    QuotesKept(line, x, i, j);
    QuotedFieldBetween(T, i, j);
  }

  /** With the default budget of 1000 a read takes at most 999 chunks. */
  lemma DefaultReadRounds(s: Session)
    ensures var r := ReadResponse(DEFAULT_RESPONSE_CHECK, s);
      r.Ran? ==> |s.chan.arrivals| - |r.session.chan.arrivals| <= 999
  {
    ReadResponseEffect(DEFAULT_RESPONSE_CHECK, s);
  }

  /** `readResponse(timeout)`: run the polling loop from an empty store, put
      the NUL at the final index and hand back the buffer as a C string.
      `Overrun` when that NUL (or an earlier store) falls outside the buffer. */
  function ReadResponse(timeout: u16, s: Session): (r: Run<string>)
    ensures r.Ran? ==> Pending(r.session.chan) + |r.value| <= Pending(s.chan)
    ensures r.Ran? ==> r.session.chan.out == s.chan.out
    ensures r.Ran? ==> r.session.(buffer := s.buffer, ip := s.ip, chan := s.chan) == s
  {
    var st := ReadState(s.buffer, 0, s.chan, s.ip);
    match ReadLoop(timeout, st)
    case LoopOverrun => Overrun
    case Finished(f) =>
      if f.index >= BUFFSIZE then Overrun
      else
        var reply := CString(f.buf[..f.index]);
        var s' := s.(buffer := f.buf[f.index := NUL], ip := f.ip, chan := f.chan);
        ReadLoopFacts(timeout, st);
        ReadResponseFrame(timeout, s, st, f, reply, s');
        Ran(reply, s')
  }

  /** The full contract of a completed read (see `ReadEffect`). */
  lemma ReadResponseEffect(timeout: u16, s: Session)
    ensures var r := ReadResponse(timeout, s);
      r.Ran? ==> ReadEffect(timeout, s, r.value, r.session)
  {
    var st := ReadState(s.buffer, 0, s.chan, s.ip);
    ReadResponseShape(timeout, s);
    if ReadResponse(timeout, s).Ran? {
      var f := ReadLoop(timeout, st).last;
      var reply := CString(f.buf[..f.index]);
      var s' := s.(buffer := f.buf[f.index := NUL], ip := f.ip, chan := f.chan);
      assert ReadEffect(timeout, s, reply, s') by {
        ReadLoopFraming(timeout, st);
        ReadLoopIpFacts(timeout, st);
        ReadResponseFacts(timeout, s, st, f, reply, s');
      }
    }
  }

  /** A completed read is the loop's last state, NUL-terminated. */
  lemma ReadResponseShape(timeout: u16, s: Session)
    ensures var st := ReadState(s.buffer, 0, s.chan, s.ip);
      ReadResponse(timeout, s).Ran? ==>
        && ReadLoop(timeout, st).Finished? && ReadLoop(timeout, st).last.index < BUFFSIZE
        && var f := ReadLoop(timeout, st).last;
           ReadResponse(timeout, s) == Ran(CString(f.buf[..f.index]), s.(buffer := f.buf[f.index := NUL], ip := f.ip, chan := f.chan))
  {
  }

  /** The IP side of a completed loop from an empty store. */
  lemma ReadLoopIpFacts(timeout: u16, st: ReadState)
    requires st.index == 0
    requires ReadLoop(timeout, st).Finished?
    ensures var f := ReadLoop(timeout, st).last;
      && (MaxRounds(timeout) == 0 ==> f.ip == st.ip)
      && (MaxRounds(timeout) >= 1 ==> IpCaptured(f.buf, f.ip))
      && (Quiet(st.buf, 0, f.buf, f.index) ==> f.ip == st.ip)
  {
    if MaxRounds(timeout) >= 1 {
      ReadLoopIp(timeout, st);
    } else {
      assert ReadLoop(timeout, st) == Finished(st);
    }
    var f := ReadLoop(timeout, st).last;
    if Quiet(st.buf, 0, f.buf, f.index) {
      ReadLoopIpFrame(timeout, st);
    }
  }

  lemma ReadResponseFacts(timeout: u16, s: Session, st: ReadState, f: ReadState, reply: string, s': Session)
    requires st == ReadState(s.buffer, 0, s.chan, s.ip)
    requires LoopEffect(MaxRounds(timeout), st, f) && f.index < BUFFSIZE
    requires LoopFraming(MaxRounds(timeout), st, f)
    requires MaxRounds(timeout) == 0 ==> f.ip == st.ip
    requires MaxRounds(timeout) >= 1 ==> IpCaptured(f.buf, f.ip)
    requires Quiet(st.buf, 0, f.buf, f.index) ==> f.ip == st.ip
    requires reply == CString(f.buf[..f.index])
    requires s' == s.(buffer := f.buf[f.index := NUL], ip := f.ip, chan := f.chan)
    ensures ReadEffect(timeout, s, reply, s')
  {
    ReadStoreFacts(timeout, s, st, f, reply, s');
    ReadIpFacts(timeout, s, f, s');
  }

  /** The reply, buffer and channel conjuncts of `ReadEffect`. */
  lemma ReadStoreFacts(timeout: u16, s: Session, st: ReadState, f: ReadState, reply: string, s': Session)
    requires st == ReadState(s.buffer, 0, s.chan, s.ip)
    requires LoopEffect(MaxRounds(timeout), st, f) && f.index < BUFFSIZE
    requires LoopFraming(MaxRounds(timeout), st, f)
    requires reply == CString(f.buf[..f.index])
    requires s' == s.(buffer := f.buf[f.index := NUL], ip := f.ip, chan := f.chan)
    ensures ReadStoreEffect(timeout, s, reply, s')
  {
    CStringTerminate(f.buf, f.index);
    assert f.buf[..f.index] == f.buf[0..f.index];
    ConsumedPending(MaxRounds(timeout), s.chan, f.chan);
    LastSeenOfStore(s.buffer, f.buf, f.index, Strip(Consumed(s.chan, f.chan)));
  }

  /** The IP conjuncts of `ReadEffect`, from the loop's IP facts. */
  lemma ReadIpFacts(timeout: u16, s: Session, f: ReadState, s': Session)
    requires ChannelEffect(MaxRounds(timeout), s.chan, s'.chan) && s'.ip == f.ip
    requires |Strip(Consumed(s.chan, s'.chan))| == f.index <= BUFFSIZE
    requires f.buf[0..f.index] == Strip(Consumed(s.chan, s'.chan)) && f.buf[f.index..] == s.buffer[f.index..]
    requires MaxRounds(timeout) == 0 ==> f.ip == s.ip
    requires MaxRounds(timeout) >= 1 ==> IpCaptured(f.buf, f.ip)
    requires Quiet(s.buffer, 0, f.buf, f.index) ==> f.ip == s.ip
    ensures IpEffect(MaxRounds(timeout), s, Strip(Consumed(s.chan, s'.chan)), s')
  {
    var S := Strip(Consumed(s.chan, s'.chan));
    LastSeenOfStore(s.buffer, f.buf, f.index, S);
    if NeverMentioned(S, s.buffer) {
      NeverMentionedQuiet(S, s.buffer, f.buf);
    }
  }

  /** The part of `ReadEffect` that `ReadResponse` states itself. */
  lemma ReadResponseFrame(timeout: u16, s: Session, st: ReadState, f: ReadState, reply: string, s': Session)
    requires st == ReadState(s.buffer, 0, s.chan, s.ip)
    requires LoopEffect(MaxRounds(timeout), st, f) && f.index < BUFFSIZE
    requires reply == CString(f.buf[..f.index])
    requires s' == s.(buffer := f.buf[f.index := NUL], ip := f.ip, chan := f.chan)
    ensures Pending(s'.chan) + |reply| <= Pending(s.chan)
  {
    assert f.buf[..f.index] == f.buf[0..f.index];
    ConsumedPending(MaxRounds(timeout), s.chan, f.chan);
  }

  /** A read that finds the single chunk "\r\nOK\r\n" waiting takes all of it
      and answers "OK": it can neither stop before the line ends nor run on
      past it. */
  lemma ReadTakesFirstLine(s: Session, reply: string, s': Session)
    requires s.chan.avail == [] && s.chan.arrivals == ["\r\nOK\r\n"]
    requires ReadEffect(DEFAULT_RESPONSE_CHECK, s, reply, s')
    ensures reply == "OK"
    ensures s'.chan.avail == [] && s'.chan.arrivals == []
  {
    FirstLineChannel(s.chan, s'.chan);
    FirstLineReply();
  }

  /** The same read, from a buffer of NULs, leaves the IP field alone: none
      of the buffers its check reads ("", "O", "OK") mentions a key. */
  lemma OkLeavesIp(s: Session, reply: string, s': Session)
    requires s.buffer == seq(BUFFSIZE, _ => NUL)
    requires s.chan.avail == [] && s.chan.arrivals == ["\r\nOK\r\n"]
    requires ReadEffect(DEFAULT_RESPONSE_CHECK, s, reply, s')
    ensures s'.ip == s.ip
  {
    FirstLineChannel(s.chan, s'.chan);
    OkNeverMentioned(s.buffer);
  }

  lemma OkNeverMentioned(prior: Buffer)
    requires prior == seq(BUFFSIZE, _ => NUL)
    ensures NeverMentioned(Strip("\r\nOK\r\n"), prior)
  {
    assert Strip("\r\nOK\r\n") == "OK";
    forall n | 0 <= n <= 2
      ensures !Mentions(LastSeen("OK"[..n], prior))
    {
      var b := LastSeen("OK"[..n], prior);
      CStringUnique(b, "OK"[..n]);
      if Contains("OK"[..n], "STAIP") {
        ContainsLength("OK"[..n], "STAIP");
      }
      if Contains("OK"[..n], "APIP") {
        ContainsLength("OK"[..n], "APIP");
      }
    }
  }

  lemma FirstLineReply()
    ensures CString(Strip("\r\nOK\r\n")) == "OK"
  {
    assert Strip("\r\nOK\r\n") == "OK";
  }

  /** The channel side: the single waiting chunk is consumed whole. */
  lemma FirstLineChannel(c: Channel, c': Channel)
    requires c.avail == [] && c.arrivals == ["\r\nOK\r\n"]
    requires ChannelEffect(MaxRounds(DEFAULT_RESPONSE_CHECK), c, c')
    requires !EndsLine(0, Consumed(c, c')) ==> RanOut(MaxRounds(DEFAULT_RESPONSE_CHECK), c, c')
    ensures c'.avail == [] && c'.arrivals == []
    ensures Consumed(c, c') == "\r\nOK\r\n"
  {
    var line := "\r\nOK\r\n";
    if c'.arrivals != [] {
      assert false;
    }
    assert Offered(c, 1) == line by {
      assert c.arrivals[..1] == [line];
      assert Concat([line]) == line + Concat([]);
    }
    var n := 6 - |c'.avail|;
    assert Consumed(c, c') == line[..n];
    if n < 6 {
      OnlyWholeLineEnds(n);
    }
    assert line[..6] == line;
  }

  /** No proper prefix of "\r\nOK\r\n" ends a line. */
  lemma OnlyWholeLineEnds(n: nat)
    requires n < 6
    ensures !EndsLine(0, "\r\nOK\r\n"[..n])
  {
    if n == 2 {
      assert "\r\nOK\r\n"[..2] == "\r\n";
      assert Strip("\r\n") == [];
    }
  }

  /** A drain from an empty store skips any number of leading CR and LF. */
  lemma {:induction false} DrainSkipLeading(buf: Buffer, lead: string, rest: string)
    requires forall k :: 0 <= k < |lead| ==> IsLineEnd(lead[k])
    ensures Drain(buf, 0, lead + rest) == Drain(buf, 0, rest)
    decreases |lead|
  {
    if lead == [] {
      assert lead + rest == rest;
    } else {
      assert (lead + rest)[1..] == lead[1..] + rest;
      DrainSkipLeading(buf, lead[1..], rest);
    }
  }

  /** A drain meeting `body` and then an LF ends the line at that LF when it
      has stored something by then (and stays within the buffer): the bytes
      of `body` without CR land in the buffer and the rest stays unread. */
  lemma {:induction false} DrainLine(buf: Buffer, i: nat, body: string, rest: string)
    requires LF !in body
    requires 0 < i + |Strip(body)| <= BUFFSIZE
    ensures Drain(buf, i, body + [LF] + rest)
      == Drained(Overwrite(buf, i, Strip(body)), i + |Strip(body)|, rest, true)
    decreases |body|, 2
  {
    if body == [] {
      assert body + [LF] + rest == [LF] + rest;
      assert buf[..i] + [] + buf[i..] == buf;
    } else {
      DrainLineStep(buf, i, body, rest);
    }
  }

  lemma {:induction false} DrainLineStep(buf: Buffer, i: nat, body: string, rest: string)
    requires LF !in body && body != []
    requires 0 < i + |Strip(body)| <= BUFFSIZE
    ensures Drain(buf, i, body + [LF] + rest)
      == Drained(Overwrite(buf, i, Strip(body)), i + |Strip(body)|, rest, true)
    decreases |body|, 1
  {
    assert body == [body[0]] + body[1..];
    assert LF !in body[1..];
    StripAppend([body[0]], body[1..]);
    if body[0] == CR {
      DrainLineCR(buf, i, body, rest);
    } else {
      DrainLineStore(buf, i, body, rest);
    }
  }

  lemma {:induction false} DrainLineCR(buf: Buffer, i: nat, body: string, rest: string)
    requires body != [] && LF !in body[1..] && body[0] == CR
    requires Strip(body) == Strip(body[1..])
    requires 0 < i + |Strip(body)| <= BUFFSIZE
    ensures Drain(buf, i, body + [LF] + rest)
      == Drained(Overwrite(buf, i, Strip(body)), i + |Strip(body)|, rest, true)
    decreases |body|, 0
  {
    var a := body + [LF] + rest;
    assert a[0] == CR && a[1..] == body[1..] + [LF] + rest;
    assert Drain(buf, i, a) == Drain(buf, i, a[1..]);
    DrainLine(buf, i, body[1..], rest);
  }

  lemma {:induction false} DrainLineStore(buf: Buffer, i: nat, body: string, rest: string)
    requires body != [] && LF !in body[1..] && !IsLineEnd(body[0])
    requires Strip(body) == [body[0]] + Strip(body[1..])
    requires 0 < i + |Strip(body)| <= BUFFSIZE
    ensures Drain(buf, i, body + [LF] + rest)
      == Drained(Overwrite(buf, i, Strip(body)), i + |Strip(body)|, rest, true)
    decreases |body|, 0
  {
    var a := body + [LF] + rest;
    var c := body[0];
    assert a[0] == c && a[1..] == body[1..] + [LF] + rest;
    assert Drain(buf, i, a) == Drain(buf[i := c], i + 1, a[1..]);
    DrainLine(buf[i := c], i + 1, body[1..], rest);
    OverwriteStep(buf, i, c, Strip(body[1..]));
  }

  lemma OverwriteStep(buf: Buffer, i: nat, c: char, w: string)
    requires i + 1 + |w| <= BUFFSIZE
    ensures Overwrite(buf[i := c], i + 1, w) == Overwrite(buf, i, [c] + w)
  {
    assert buf[i := c][..i + 1] == buf[..i] + [c];
    assert buf[i := c][i + 1 + |w|..] == buf[i + 1 + |w|..];
  }

  /** The drain never checks capacity: once `body` carries more storable
      bytes than the free slots, a store lands outside the buffer, whatever
      follows. */
  lemma {:induction false} DrainOverflow(buf: Buffer, i: nat, body: string, rest: string)
    requires i <= BUFFSIZE
    requires LF !in body
    requires i + |Strip(body)| > BUFFSIZE
    ensures Drain(buf, i, body + rest) == DrainOverrun
    decreases |body|
  {
    var a := body + rest;
    assert a[1..] == body[1..] + rest;
    var c := body[0];
    if c == CR {
      DrainOverflow(buf, i, body[1..], rest);
    } else if i < BUFFSIZE {
      DrainOverflow(buf[i := c], i + 1, body[1..], rest);
    }
  }

  /** The usual reply shape: the next chunk holds optional CR/LF bytes, then a
      line body, then an LF, then anything. */
  predicate LineChunk(chunk: string, lead: string, body: string, tail: string) {
    && chunk == lead + body + [LF] + tail
    && (forall k :: 0 <= k < |lead| ==> IsLineEnd(lead[k]))
    && LF !in body
  }

  /** Line framing: a line arriving in one chunk is read in the first round;
      leading CR/LF bytes are discarded however many there are, the read ends
      at the first LF after content, the reply is the body without CR, and
      the bytes after that LF stay unread in the channel. */
  lemma ReadOneLine(timeout: u16, s: Session, lead: string, body: string, tail: string, more: seq<string>)
    requires MaxRounds(timeout) >= 1
    requires s.chan.avail == [] && s.chan.arrivals == [lead + body + [LF] + tail] + more
    requires LineChunk(s.chan.arrivals[0], lead, body, tail)
    requires NUL !in body
    requires 0 < |Strip(body)| < BUFFSIZE
    ensures var L := Strip(body);
      var b := Overwrite(s.buffer, 0, L);
      ReadResponse(timeout, s)
        == Ran(L, s.(buffer := b[|L| := NUL], ip := CaptureIp(b, s.ip), chan := s.chan.(avail := tail, arrivals := more)))
  {
    var L := Strip(body);
    var b := Overwrite(s.buffer, 0, L);
    LoopOneLine(timeout, ReadState(s.buffer, 0, s.chan, s.ip), lead, body, tail, more);
    StripNoNul(body);
    assert b[..|L|] == L;
    CStringNoNul(L);
  }

  /** The polling loop on a line arriving in one chunk: one round, which
      stores the stripped body from slot 0 and leaves the tail unread. */
  lemma LoopOneLine(timeout: u16, st: ReadState, lead: string, body: string, tail: string, more: seq<string>)
    requires MaxRounds(timeout) >= 1 && st.index == 0
    requires st.chan.avail == [] && st.chan.arrivals == [lead + body + [LF] + tail] + more
    requires LineChunk(st.chan.arrivals[0], lead, body, tail)
    requires 0 < |Strip(body)| <= BUFFSIZE
    ensures var b := Overwrite(st.buf, 0, Strip(body));
      ReadLoop(timeout, st) == Finished(ReadState(b, |Strip(body)|, st.chan.(avail := tail, arrivals := more), CaptureIp(b, st.ip)))
  {
    var chunk := st.chan.arrivals[0];
    assert st.chan.avail + NextChunk(st.chan) == lead + (body + [LF] + tail);
    assert LaterChunks(st.chan) == more;
    DrainSkipLeading(st.buf, lead, body + [LF] + tail);
    DrainLine(st.buf, 0, body, tail);
  }

  /** A line of exactly `BUFFSIZE` stored bytes fills every slot, so the
      terminating NUL is written one past the end of the buffer. */
  lemma FullLineOverruns(timeout: u16, s: Session, lead: string, body: string, tail: string, more: seq<string>)
    requires MaxRounds(timeout) >= 1
    requires s.chan.avail == [] && s.chan.arrivals == [lead + body + [LF] + tail] + more
    requires LineChunk(s.chan.arrivals[0], lead, body, tail)
    requires |Strip(body)| == BUFFSIZE
    ensures ReadResponse(timeout, s) == Overrun
  {
    LoopOneLine(timeout, ReadState(s.buffer, 0, s.chan, s.ip), lead, body, tail, more);
  }

  /** One chunk carrying more than `BUFFSIZE` storable bytes before any LF is
      stored past the end of the buffer: the only capacity check sits in the
      outer loop, which runs too late. */
  lemma LongChunkOverruns(timeout: u16, s: Session, body: string, tail: string, more: seq<string>)
    requires MaxRounds(timeout) >= 1
    requires s.chan.avail == [] && s.chan.arrivals == [body + tail] + more
    requires LF !in body
    requires |Strip(body)| > BUFFSIZE
    ensures ReadResponse(timeout, s) == Overrun
  {
    assert [] + (body + tail) == body + tail;
    DrainOverflow(s.buffer, 0, body, tail);
  }

  /** The IP check reads the buffer as a C string before the new terminator
      is written, so it sees the fresh line followed by whatever the previous
      reply left behind the fresh bytes. */
  lemma IpCheckSeesLeftovers(timeout: u16, s: Session, lead: string, body: string, tail: string, more: seq<string>)
    requires MaxRounds(timeout) >= 1
    requires s.chan.avail == [] && s.chan.arrivals == [lead + body + [LF] + tail] + more
    requires LineChunk(s.chan.arrivals[0], lead, body, tail)
    requires NUL !in body
    requires 0 < |Strip(body)| < BUFFSIZE
    ensures var L := Strip(body);
      var T := L + CString(s.buffer[|L|..]);
      && ReadResponse(timeout, s).Ran?
      && ReadResponse(timeout, s).session.ip
         == (if Contains(T, "STAIP") || Contains(T, "APIP") then QuotedField(T) else s.ip)
  {
    ReadOneLine(timeout, s, lead, body, tail, more);
    StripNoNul(body);
    CaptureAfterOverwrite(s.buffer, Strip(body), s.ip);
  }

  /** The C string of a buffer whose first slots were overwritten with a
      NUL-free line is that line followed by the old contents' C string. */
  lemma CaptureAfterOverwrite(buf: Buffer, L: string, ip: string)
    requires NUL !in L && |L| <= BUFFSIZE
    ensures var T := L + CString(buf[|L|..]);
      CaptureIp(Overwrite(buf, 0, L), ip) == (if Contains(T, "STAIP") || Contains(T, "APIP") then QuotedField(T) else ip)
  {
    var b := Overwrite(buf, 0, L);
    assert b == L + buf[|L|..];
    CStringOverwrite(L, buf[|L|..]);
  }

  /** An occurrence survives appending text. */
  lemma ContainsExtend(x: string, y: string, t: string)
    requires Contains(x, t)
    ensures Contains(x + y, t)
  {
    var p := Find(x, t, 0);
    assert (x + y)[p..p + |t|] == x[p..p + |t|];
    ContainsAt(x + y, t, p);
  }

  lemma QuotesKept(L: string, x: string, i: nat, j: nat)
    requires FirstTwoQuotes(L, i, j)
    ensures FirstTwoQuotes(L + x, i, j) && (L + x)[i + 1..j] == L[i + 1..j]
  {
    assert (L + x)[..i] == L[..i];
    assert (L + x)[i + 1..j] == L[i + 1..j];
  }

  /** IP capture: when the line read mentions `STAIP` or `APIP` and holds two
      quotes, the session's IP becomes exactly the text between the first
      two quotes. */
  lemma IpFromLine(timeout: u16, s: Session, lead: string, body: string, tail: string, more: seq<string>, i: nat, j: nat)
    requires MaxRounds(timeout) >= 1
    requires s.chan.avail == [] && s.chan.arrivals == [lead + body + [LF] + tail] + more
    requires LineChunk(s.chan.arrivals[0], lead, body, tail)
    requires NUL !in body
    requires 0 < |Strip(body)| < BUFFSIZE
    requires Contains(Strip(body), "STAIP") || Contains(Strip(body), "APIP")
    requires FirstTwoQuotes(Strip(body), i, j)
    ensures ReadResponse(timeout, s).Ran?
    ensures ReadResponse(timeout, s).session.ip == Strip(body)[i + 1..j]
  {
    IpCheckSeesLeftovers(timeout, s, lead, body, tail, more);
    var L := Strip(body);
    var T := L + CString(s.buffer[|L|..]);
    assert |T| <= BUFFSIZE;
    if Contains(L, "STAIP") {
      ContainsExtend(L, CString(s.buffer[|L|..]), "STAIP");
    } else {
      ContainsExtend(L, CString(s.buffer[|L|..]), "APIP");
    }
    QuotesKept(L, CString(s.buffer[|L|..]), i, j);
    QuotedFieldBetween(T, i, j);
  }
}
