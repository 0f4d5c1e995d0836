/** The keyword classifier (`waitForResponse`): reads reply lines until one
    contains the key, failing at once on `wrong syntax` or `ERROR`, retrying
    `busy s...` without charging the trial budget, and charging one trial for
    any other reply. */
module Classifier {
  import opened Text
  import opened Engine
  import opened Reader

  /** How `waitForResponse` treats one reply, tests taken in source order. */
  datatype Verdict = Rejected | Busy | Matched | Unmatched

  function Classify(reply: string, key: string): Verdict {
    if Contains(reply, "wrong syntax") then Rejected
    else if Contains(reply, "ERROR") then Rejected
    else if Contains(reply, "busy s...") then Busy
    else if Contains(reply, key) then Matched
    else Unmatched
  }

  /** The error tests come first: a reply carrying `ERROR` or `wrong syntax`
      is a failure even when it also carries the key, and a busy reply is
      retried even when it carries the key. */
  lemma ClassifyPrecedence(reply: string, key: string)
    ensures Contains(reply, "wrong syntax") || Contains(reply, "ERROR") <==> Classify(reply, key) == Rejected
    ensures Classify(reply, key) == Busy <==>
      !Contains(reply, "wrong syntax") && !Contains(reply, "ERROR") && Contains(reply, "busy s...")
    ensures Classify(reply, key) == Matched ==> Contains(reply, key)
    ensures Contains(reply, key) ==> Classify(reply, key) != Unmatched
  {
  }

  /** `waitForResponse(key, trial)`. Every read uses the default polling
      budget. A busy reply consumed at least its own bytes from the channel,
      which is what bounds the retries in this model; the source has no such
      bound. */
  function WaitForResponse(key: string, trial: nat, s: Session): (r: Run<bool>)
    ensures trial == 0 ==> r == Ran(false, s)
    ensures r.Ran? ==> r.session.chan.out == s.chan.out
    ensures r.Ran? ==> Pending(r.session.chan) <= Pending(s.chan)
    ensures r.Ran? ==> r.session.(buffer := s.buffer, ip := s.ip, chan := s.chan) == s
    decreases trial, Pending(s.chan)
  {
    if trial == 0 then Ran(false, s)
    else
      match ReadResponse(DEFAULT_RESPONSE_CHECK, s)
      case Overrun => Overrun
      case Ran(reply, s') =>
        match Classify(reply, key)
        case Rejected => Ran(false, s')
        case Matched => Ran(true, s')
        case Busy =>
          ContainsLength(reply, "busy s...");
          WaitForResponse(key, trial, s')
        case Unmatched => WaitForResponse(key, trial - 1, s')
  }

  /** A successful wait ended on a read whose reply matched the key: the
      wait's final session is what that read left. */
  lemma {:induction false} WaitEndsOnMatch(key: string, n: nat, s: Session)
    requires WaitForResponse(key, n, s).Ran? && WaitForResponse(key, n, s).value
    ensures exists s0: Session, reply: string ::
      && ReadResponse(DEFAULT_RESPONSE_CHECK, s0) == Ran(reply, WaitForResponse(key, n, s).session)
      && Classify(reply, key) == Matched
    decreases n, Pending(s.chan)
  {
    assert n > 0;
    var r := ReadResponse(DEFAULT_RESPONSE_CHECK, s);
    assert r.Ran?;
    var reply, s' := r.value, r.session;
    WaitStep(key, n, s, reply, s');
    var v := Classify(reply, key);
    if v == Matched {
      assert ReadResponse(DEFAULT_RESPONSE_CHECK, s) == Ran(reply, WaitForResponse(key, n, s).session);
    } else if v != Rejected {
      var n' := if v == Busy then n else n - 1;
      if v == Busy {
        ContainsLength(reply, "busy s...");
      }
      assert WaitForResponse(key, n, s) == WaitForResponse(key, n', s');
      WaitEndsOnMatch(key, n', s');
      var s0: Session, reply0: string :|
        && ReadResponse(DEFAULT_RESPONSE_CHECK, s0) == Ran(reply0, WaitForResponse(key, n', s').session)
        && Classify(reply0, key) == Matched;
      assert ReadResponse(DEFAULT_RESPONSE_CHECK, s0) == Ran(reply0, WaitForResponse(key, n, s).session);
    }
  }

  /** One round of the wait, given the reply read: a match succeeds, an
      error fails, a busy reply retries with the same budget and any other
      reply retries with one trial less. */
  lemma WaitStep(key: string, n: nat, s: Session, reply: string, s': Session)
    requires n > 0
    requires ReadResponse(DEFAULT_RESPONSE_CHECK, s) == Ran(reply, s')
    ensures Classify(reply, key) == Matched ==> WaitForResponse(key, n, s) == Ran(true, s')
    ensures Classify(reply, key) == Rejected ==> WaitForResponse(key, n, s) == Ran(false, s')
    ensures Classify(reply, key) == Busy ==> WaitForResponse(key, n, s) == WaitForResponse(key, n, s')
    ensures Classify(reply, key) == Unmatched ==> WaitForResponse(key, n, s) == WaitForResponse(key, n - 1, s')
  {
    if Classify(reply, key) == Busy {
      ContainsLength(reply, "busy s...");
    }
  }

  /** The first `m` replies read back to back, and the session after them. */
  function Replies(s: Session, m: nat): (r: Run<seq<string>>)
    ensures r.Ran? ==> |r.value| == m
    decreases m
  {
    if m == 0 then Ran([], s)
    else
      match ReadResponse(DEFAULT_RESPONSE_CHECK, s)
      case Overrun => Overrun
      case Ran(reply, s') =>
        match Replies(s', m - 1)
        case Overrun => Overrun
        case Ran(rest, s'') => Ran([reply] + rest, s'')
  }

  predicate Tolerated(v: Verdict) { v == Busy || v == Unmatched }

  /** Number of replies in `rs` that cost a trial. */
  function Charged(rs: seq<string>, key: string): nat {
    if rs == [] then 0
    else (if Classify(rs[0], key) == Unmatched then 1 else 0) + Charged(rs[1..], key)
  }

  /** The wait succeeds with reply number `m`: the first `m + 1` replies can be
      read, reply `m` matches, every earlier one was busy or ordinary, and
      fewer than `n` of them were ordinary. */
  ghost predicate WinsAt(s: Session, key: string, n: nat, m: nat) {
    Replies(s, m + 1).Ran? && WinningReplies(Replies(s, m + 1).value, key, n, m)
  }

  /** The reply sequence `rs` wins at `m` with budget `n`. */
  predicate WinningReplies(rs: seq<string>, key: string, n: nat, m: nat) {
    && |rs| == m + 1
    && Classify(rs[m], key) == Matched
    && (forall i :: 0 <= i < m ==> Tolerated(Classify(rs[i], key)))
    && Charged(rs[..m], key) < n
  }

  /** A tolerated first reply in front of a winning sequence wins one later,
      and the converse. */
  lemma WinningCons(reply: string, rs': seq<string>, key: string, n: nat, n': nat, m': nat)
    requires Tolerated(Classify(reply, key))
    requires n' == if Classify(reply, key) == Unmatched then n - 1 else n
    requires |rs'| == m' + 1
    ensures WinningReplies([reply] + rs', key, n, m' + 1) <==> WinningReplies(rs', key, n', m')
  {
    var rs := [reply] + rs';
    assert rs[..m' + 1] == [reply] + rs'[..m'];
    assert rs[..m' + 1][1..] == rs'[..m'];
    assert rs[m' + 1] == rs'[m'];
    if WinningReplies(rs', key, n', m') {
      forall i | 0 <= i < m' + 1 ensures Tolerated(Classify(rs[i], key)) {
        if i > 0 {
          assert rs[i] == rs'[i - 1];
        }
      }
    }
    if WinningReplies(rs, key, n, m' + 1) {
      forall i | 0 <= i < m' ensures Tolerated(Classify(rs'[i], key)) {
        assert rs'[i] == rs[i + 1];
      }
    }
  }

  lemma RepliesStep(s: Session, m: nat, reply: string, s': Session)
    requires ReadResponse(DEFAULT_RESPONSE_CHECK, s) == Ran(reply, s')
    ensures Replies(s, m + 1).Ran? <==> Replies(s', m).Ran?
    ensures Replies(s', m).Ran? ==>
      Replies(s, m + 1) == Ran([reply] + Replies(s', m).value, Replies(s', m).session)
  {
  }

  /** Trial budget, one direction: a successful wait ended on a matching
      reply, after only busy and ordinary ones, fewer than `n` of them
      ordinary, and consumed exactly those replies. */
  lemma {:induction false} WaitSound(key: string, n: nat, s: Session)
    requires WaitForResponse(key, n, s).Ran? && WaitForResponse(key, n, s).value
    ensures exists m: nat :: WinsAt(s, key, n, m) && Replies(s, m + 1).session == WaitForResponse(key, n, s).session
    decreases n, Pending(s.chan)
  {
    assert n > 0;
    var rr := ReadResponse(DEFAULT_RESPONSE_CHECK, s);
    assert rr.Ran?;
    var reply, s' := rr.value, rr.session;
    RepliesStep(s, 0, reply, s');
    WaitStep(key, n, s, reply, s');
    var v := Classify(reply, key);
    if v == Matched {
      assert Replies(s', 0) == Ran([], s');
      assert WinsAt(s, key, n, 0);
    } else {
      var n' := if v == Unmatched then n - 1 else n;
      if v == Busy {
        ContainsLength(reply, "busy s...");
      }
      WaitSound(key, n', s');
      var m': nat :| WinsAt(s', key, n', m') && Replies(s', m' + 1).session == WaitForResponse(key, n', s').session;
      ShiftWin(s, key, n, n', m', reply, s');
    }
  }

  /** A win after the first reply is a win one reply later from the start,
      the first reply charged when it was ordinary. */
  lemma ShiftWin(s: Session, key: string, n: nat, n': nat, m': nat, reply: string, s': Session)
    requires ReadResponse(DEFAULT_RESPONSE_CHECK, s) == Ran(reply, s')
    requires Tolerated(Classify(reply, key))
    requires n' == if Classify(reply, key) == Unmatched then n - 1 else n
    requires WinsAt(s', key, n', m')
    ensures WinsAt(s, key, n, m' + 1)
    ensures Replies(s, m' + 2).session == Replies(s', m' + 1).session
  {
    RepliesStep(s, m' + 1, reply, s');
    WinningCons(reply, Replies(s', m' + 1).value, key, n, n', m');
  }

  /** Trial budget, other direction: when reply `m` is the winning one in the
      sense of `WinsAt`, the wait succeeds right after reading it. */
  lemma {:induction false} WaitComplete(key: string, n: nat, s: Session, m: nat)
    requires WinsAt(s, key, n, m)
    ensures WaitForResponse(key, n, s) == Ran(true, Replies(s, m + 1).session)
    decreases m
  {
    var rr := ReadResponse(DEFAULT_RESPONSE_CHECK, s);
    assert rr.Ran?;
    var reply, s' := rr.value, rr.session;
    RepliesStep(s, m, reply, s');
    assert Replies(s, m + 1).value[0] == reply;
    assert n > 0;
    WaitStep(key, n, s, reply, s');
    if m == 0 {
      assert Replies(s', 0) == Ran([], s');
      assert Classify(reply, key) == Matched;
    } else {
      var n' := if Classify(reply, key) == Unmatched then n - 1 else n;
      UnshiftWin(s, key, n, n', m, reply, s');
      WaitComplete(key, n', s', m - 1);
    }
  }

  lemma UnshiftWin(s: Session, key: string, n: nat, n': nat, m: nat, reply: string, s': Session)
    requires m > 0
    requires ReadResponse(DEFAULT_RESPONSE_CHECK, s) == Ran(reply, s')
    requires WinsAt(s, key, n, m)
    requires Tolerated(Classify(reply, key))
    requires n' == if Classify(reply, key) == Unmatched then n - 1 else n
    ensures WinsAt(s', key, n', m - 1)
    ensures Replies(s, m + 1).session == Replies(s', m).session
  {
    RepliesStep(s, m, reply, s');
    WinningCons(reply, Replies(s', m).value, key, n, n', m - 1);
  }

  /** A device reply as the modem frames it: CR LF, the text, CR LF. */
  function Reply(text: string): string {
    [CR, LF] + text + [CR, LF]
  }

  /** `k` copies of one chunk. */
  function Repeat(k: nat, chunk: string): (r: seq<string>)
    ensures |r| == k
  {
    if k == 0 then [] else [chunk] + Repeat(k - 1, chunk)
  }

  lemma RepeatCons(k: nat, chunk: string, hit: string, more: seq<string>)
    requires k > 0
    ensures Repeat(k, chunk) + [hit] + more == [chunk] + (Repeat(k - 1, chunk) + [hit] + more)
  {
  }

  /** A framed reply that is next on an idle channel is read as its text. */
  lemma ReadReply(s: Session, text: string, more: seq<string>)
    requires s.chan.avail == [] && s.chan.arrivals == [Reply(text)] + more
    requires Plain(text) && 0 < |text| < BUFFSIZE
    ensures ReadResponse(DEFAULT_RESPONSE_CHECK, s).Ran?
    ensures ReadResponse(DEFAULT_RESPONSE_CHECK, s).value == text
    ensures ReadResponse(DEFAULT_RESPONSE_CHECK, s).session.chan == s.chan.(arrivals := more)
  {
    var body := text + [CR];
    assert NUL !in body by {
      assert forall k :: 0 <= k < |body| ==> body[k] != NUL;
    }
    assert Reply(text) == [CR, LF] + body + [LF] + [];
    StripKeeps(text);
    StripAppend(text, [CR]);
    assert Strip([CR]) == [];
    assert LF !in body by {
      assert forall k :: 0 <= k < |body| ==> body[k] != LF;
    }
    ReadOneLine(DEFAULT_RESPONSE_CHECK, s, [CR, LF], body, [], more);
  }

  /** Busy replies are not charged: with a budget of a single trial, any
      number of busy replies followed by a matching one still succeed. */
  lemma {:induction false} BusyNotCharged(key: string, n: nat, k: nat, s: Session, busy: string, hit: string, more: seq<string>)
    requires n >= 1
    requires s.chan.avail == [] && s.chan.arrivals == Repeat(k, Reply(busy)) + [Reply(hit)] + more
    requires Plain(busy) && Plain(hit)
    requires 0 < |busy| < BUFFSIZE && 0 < |hit| < BUFFSIZE
    requires Classify(busy, key) == Busy && Classify(hit, key) == Matched
    ensures WaitForResponse(key, n, s).Ran? && WaitForResponse(key, n, s).value
    ensures WaitForResponse(key, n, s).session.chan == s.chan.(arrivals := more)
    decreases k
  {
    if k == 0 {
      assert s.chan.arrivals == [Reply(hit)] + more;
      ReadReply(s, hit, more);
      WaitStep(key, n, s, hit, ReadResponse(DEFAULT_RESPONSE_CHECK, s).session);
    } else {
      var later := Repeat(k - 1, Reply(busy)) + [Reply(hit)] + more;
      RepeatCons(k, Reply(busy), Reply(hit), more);
      ReadReply(s, busy, later);
      var s' := ReadResponse(DEFAULT_RESPONSE_CHECK, s).session;
      WaitStep(key, n, s, busy, s');
      BusyNotCharged(key, n, k - 1, s', busy, hit, more);
    }
  }

  /** Error short-circuit: a first reply reporting an error ends the wait
      with failure, whatever budget is left and even when it holds the key. */
  lemma WaitRejectsError(key: string, n: nat, s: Session, text: string, more: seq<string>)
    requires n >= 1
    requires s.chan.avail == [] && s.chan.arrivals == [Reply(text)] + more
    requires Plain(text) && 0 < |text| < BUFFSIZE
    requires Contains(text, "ERROR") || Contains(text, "wrong syntax")
    ensures WaitForResponse(key, n, s).Ran? && !WaitForResponse(key, n, s).value
    ensures WaitForResponse(key, n, s).session.chan == s.chan.(arrivals := more)
  {
    ReadReply(s, text, more);
  }

  /** Trial budget, both directions: with the default budget the wait
      succeeds exactly when some reply matches after only busy and ordinary
      replies, fewer than 50 of them ordinary. */
  lemma DefaultBudget(key: string, s: Session)
    ensures (WaitForResponse(key, DEFAULT_RESPONSE_TRIAL, s).Ran? && WaitForResponse(key, DEFAULT_RESPONSE_TRIAL, s).value)
        <==> exists m: nat :: WinsAt(s, key, 50, m)
  {
    if WaitForResponse(key, DEFAULT_RESPONSE_TRIAL, s).Ran? && WaitForResponse(key, DEFAULT_RESPONSE_TRIAL, s).value {
      WaitSound(key, DEFAULT_RESPONSE_TRIAL, s);
    }
    if exists m: nat :: WinsAt(s, key, 50, m) {
      var m: nat :| WinsAt(s, key, 50, m);
      WaitComplete(key, DEFAULT_RESPONSE_TRIAL, s, m);
    }
  }
}
