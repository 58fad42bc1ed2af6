/** The "Send Emails" run (`app.py`, lines 243-346): connect to the relay, then for each
    processed recipient compose a message, send it, count the outcome and
    pause, then close the connection. The relay is an oracle: one outcome for
    the connect/starttls/login sequence, one per send, one for quit. The run
    produces the final counters and a trace of the observable actions. */
module Campaign {
  import opened Optional
  import opened Dataset
  import opened Template
  import opened Strings

  newtype byte = x: int | 0 <= x < 256

  /** An uploaded file: its name and its whole content, read from the start
      for every message. */
  datatype Attachment = Attachment(name: string, content: seq<byte>)

  /** What the operator entered: sender, subject, body template, attachments,
      delay between emails (seconds) and the test-mode checkbox. */
  datatype Config = Config(sender: string, subject: string, body: string,
                           attachments: seq<Attachment>, delay: nat, testMode: bool)

  datatype Message = Message(sender: string, to: string, subject: string, body: string,
                             attachments: seq<Attachment>)

  /** An exception that ends the run, by the handler that reports it:
      authentication failure, any other SMTP error, anything else. */
  datatype Fault = AuthenticationFailed | SmtpError(detail: string) | OtherError(detail: string)

  /** The outcome of a relay call that is not a send. */
  datatype Step = Done | Raised(fault: Fault)

  /** The outcome of one send; `reason` is the exception text. */
  datatype SendOutcome = Delivered | Refused(reason: string)

  /** The relay's behaviour during one run. */
  datatype Relay = Relay(setup: Step, sends: seq<SendOutcome>, quit: Step)

  /** Observable actions: a send attempt, a wait of the configured delay, a
      wait of half a second, closing the connection. */
  datatype Action = Send(msg: Message) | SleepDelay(seconds: nat) | SleepHalf | Quit

  /** The counters of the run and the failed addresses with their reasons. */
  datatype Summary = Summary(sent: nat, failed: nat, failures: seq<(string, string)>)

  /** The end of a run: the exception reported, if any, the counters, and
      the trace. The counters are displayed only when no exception is. */
  datatype Run = Run(error: Option<Fault>, summary: Summary, trace: seq<Action>)

  datatype Progress = Progress(summary: Summary, trace: seq<Action>)

  predicate IsDelivered(o: SendOutcome) { o.Delivered? }
  predicate IsDelay(a: Action) { a.SleepDelay? }
  predicate IsHalf(a: Action) { a.SleepHalf? }

  /** Every recipient row has an address and every column. */
  predicate Addressed(recips: seq<Record>, key: string, cols: seq<string>) {
    forall i :: 0 <= i < |recips| ==> HasAddress(recips[i], key) && Conforms(recips[i], cols)
  }

  function Address(row: Record, key: string): string
    requires HasAddress(row, key)
  {
    row[key].text
  }

  /** The message for one recipient row: the subject as entered, the body
      personalised. */
  function Compose(cfg: Config, cols: seq<string>, key: string, row: Record): (m: Message)
    requires HasAddress(row, key) && Conforms(row, cols)
    ensures m.sender == cfg.sender && m.to == Address(row, key) && m.subject == cfg.subject
    ensures m.attachments == cfg.attachments
    ensures (forall c :: c in cols ==> !Occurs(Token(c), cfg.body)) ==> m.body == cfg.body
  {
    var plain := forall c :: c in cols ==> !Occurs(Token(c), cfg.body);
    assert plain ==> Render(cfg.body, cols, row, Sending) == cfg.body by {
      if plain { RenderWithoutTokens(cfg.body, cols, row, Sending); }
    }
    Message(cfg.sender, Address(row, key), cfg.subject, Render(cfg.body, cols, row, Sending),
            cfg.attachments)
  }

  /** The wait after attempting recipient `idx` of `total`. */
  function Pause(o: SendOutcome, idx: nat, total: nat, delay: nat): (w: seq<Action>)
    ensures |w| <= 1
    ensures w == [SleepHalf] <==> o.Refused?
    ensures w == [SleepDelay(delay)] <==> o.Delivered? && idx + 1 < total
    ensures o.Delivered? && idx + 1 >= total ==> w == []
  {
    match o
    case Delivered => if idx < total - 1 then [SleepDelay(delay)] else []
    case Refused(_) => [SleepHalf]
  }

  /** One iteration of the send loop. */
  function Attempt(p: Progress, msg: Message, o: SendOutcome, idx: nat, total: nat, delay: nat)
    : (q: Progress)
    ensures |p.trace| < |q.trace| <= |p.trace| + 2
    ensures q.trace[..|p.trace|] == p.trace && q.trace[|p.trace|] == Send(msg)
    ensures q.summary.sent + q.summary.failed == p.summary.sent + p.summary.failed + 1
    ensures |p.summary.failures| <= |q.summary.failures| <= |p.summary.failures| + 1
    ensures q.summary.failures[..|p.summary.failures|] == p.summary.failures
    ensures q.trace[|p.trace| + 1..] == Pause(o, idx, total, delay)
    ensures o.Delivered? ==> q.summary == Summary(p.summary.sent + 1, p.summary.failed, p.summary.failures)
    ensures o.Refused? ==>
              q.summary == Summary(p.summary.sent, p.summary.failed + 1, p.summary.failures + [(msg.to, o.reason)])
  {
    var s := p.summary;
    var tr := p.trace + [Send(msg)] + Pause(o, idx, total, delay);
    match o
    case Delivered => Progress(Summary(s.sent + 1, s.failed, s.failures), tr)
    case Refused(e) => Progress(Summary(s.sent, s.failed + 1, s.failures + [(msg.to, e)]), tr)
  }

  /** The messages of a run, one per processed recipient, in order. */
  function ComposeAll(cfg: Config, cols: seq<string>, key: string, recips: seq<Record>)
    : (msgs: seq<Message>)
    requires Addressed(recips, key, cols)
    ensures |msgs| == |recips|
    ensures forall i :: 0 <= i < |recips| ==> msgs[i].to == Address(recips[i], key)
  {
    seq(|recips|, i requires 0 <= i < |recips| => Compose(cfg, cols, key, recips[i]))
  }

  /** The send loop after its first `n` iterations over the messages `msgs`,
      `sends` giving the relay's answer to each. */
  function Deliver(msgs: seq<Message>, sends: seq<SendOutcome>, delay: nat, n: nat): (p: Progress)
    requires n <= |msgs| == |sends|
    ensures p.summary.sent + p.summary.failed == n
    ensures |p.summary.failures| == p.summary.failed
    decreases n
  {
    if n == 0 then Progress(Summary(0, 0, []), [])
    else Attempt(Deliver(msgs, sends, delay, n - 1), msgs[n - 1], sends[n - 1], n - 1, |msgs|, delay)
  }

  /** A whole run. A failing connect, starttls or login ends it before any
      send and without closing the connection; otherwise every processed
      recipient is attempted once and the connection is closed. */
  function RunCampaign(cfg: Config, t: Table, key: string, relay: Relay): (r: Run)
    requires t.Valid()
    requires |relay.sends| == |Recipients(t.rows, key, cfg.testMode)|
    ensures relay.setup.Raised? ==> r == Run(Some(relay.setup.fault), Summary(0, 0, []), [])
    ensures relay.setup.Done? ==>
              r.summary.sent + r.summary.failed == IntendedSendCount(t.rows, key, cfg.testMode)
              && |r.summary.failures| == r.summary.failed
    ensures relay.setup.Done? ==> (r.error.None? <==> relay.quit.Done?)
  {
    var recips := Recipients(t.rows, key, cfg.testMode);
    RecipientsWellFormed(t, key, cfg.testMode);
    match relay.setup
    case Raised(f) => Run(Some(f), Summary(0, 0, []), [])
    case Done =>
      var msgs := ComposeAll(cfg, t.columns, key, recips);
      var p := Deliver(msgs, relay.sends, cfg.delay, |msgs|);
      var trace := [SleepHalf] + p.trace + [Quit];
      match relay.quit
      case Done => Run(None, p.summary, trace)
      case Raised(f) => Run(Some(f), p.summary, trace)
  }

  // Independent descriptions of what the loop should produce.

  /** How many elements satisfy `f`. */
  function CountWhere<T>(s: seq<T>, f: T -> bool): nat
  {
    if |s| == 0 then 0 else (if f(s[0]) then 1 else 0) + CountWhere(s[1..], f)
  }

  lemma {:induction false} CountWhereAppend<T>(a: seq<T>, b: seq<T>, f: T -> bool)
    ensures CountWhere(a + b, f) == CountWhere(a, f) + CountWhere(b, f)
    decreases |a|
  {
    if |a| == 0 {
      assert a + b == b;
    } else {
      assert (a + b)[0] == a[0];
      assert (a + b)[1..] == a[1..] + b;
      CountWhereAppend(a[1..], b, f);
    }
  }

  lemma CountOne<T>(x: T, f: T -> bool)
    ensures CountWhere([x], f) == if f(x) then 1 else 0
  {
    assert [x][1..] == [];
  }

  lemma PrefixStep<T>(s: seq<T>, n: nat)
    requires 0 < n <= |s|
    ensures s[..n] == s[..n - 1] + [s[n - 1]]
  {
  }

  /** The messages of the send attempts in a trace, in order. */
  function SentMessages(trace: seq<Action>): seq<Message>
  {
    if |trace| == 0 then []
    else (if trace[0].Send? then [trace[0].msg] else []) + SentMessages(trace[1..])
  }

  lemma {:induction false} SentMessagesAppend(a: seq<Action>, b: seq<Action>)
    ensures SentMessages(a + b) == SentMessages(a) + SentMessages(b)
    decreases |a|
  {
    if |a| == 0 {
      assert a + b == b;
    } else {
      assert (a + b)[0] == a[0];
      assert (a + b)[1..] == a[1..] + b;
      SentMessagesAppend(a[1..], b);
    }
  }

  lemma SentOne(msg: Message)
    ensures SentMessages([Send(msg)]) == [msg]
  {
    assert [Send(msg)][1..] == [];
  }

  lemma PauseSendsNothing(o: SendOutcome, idx: nat, total: nat, delay: nat)
    ensures SentMessages(Pause(o, idx, total, delay)) == []
  {
    var pause := Pause(o, idx, total, delay);
    if |pause| > 0 {
      assert pause[1..] == [];
    }
  }

  /** The refused messages' addresses with their reasons, in order. */
  function FailuresOf(msgs: seq<Message>, sends: seq<SendOutcome>): seq<(string, string)>
    requires |msgs| == |sends|
  {
    if |msgs| == 0 then []
    else (if sends[0].Refused? then [(msgs[0].to, sends[0].reason)] else [])
         + FailuresOf(msgs[1..], sends[1..])
  }

  lemma {:induction false} FailuresOfAppend(m1: seq<Message>, s1: seq<SendOutcome>,
                                            m2: seq<Message>, s2: seq<SendOutcome>)
    requires |m1| == |s1| && |m2| == |s2|
    ensures FailuresOf(m1 + m2, s1 + s2) == FailuresOf(m1, s1) + FailuresOf(m2, s2)
    decreases |m1|
  {
    if |m1| == 0 {
      assert m1 + m2 == m2 && s1 + s2 == s2;
    } else {
      assert (m1 + m2)[0] == m1[0] && (s1 + s2)[0] == s1[0];
      assert (m1 + m2)[1..] == m1[1..] + m2;
      assert (s1 + s2)[1..] == s1[1..] + s2;
      FailuresOfAppend(m1[1..], s1[1..], m2, s2);
    }
  }

  // What the send loop does, iteration by iteration.

  /** The trace of one more iteration extends the previous trace. */
  lemma DeliverStep(msgs: seq<Message>, sends: seq<SendOutcome>, delay: nat, n: nat)
    requires 0 < n <= |msgs| == |sends|
    ensures Deliver(msgs, sends, delay, n).trace
         == Deliver(msgs, sends, delay, n - 1).trace + [Send(msgs[n - 1])]
            + Pause(sends[n - 1], n - 1, |msgs|, delay)
  {
  }

  /** The counters after one more iteration. */
  lemma DeliverStepSummary(msgs: seq<Message>, sends: seq<SendOutcome>, delay: nat, n: nat)
    requires 0 < n <= |msgs| == |sends|
    ensures var s0 := Deliver(msgs, sends, delay, n - 1).summary;
            var s := Deliver(msgs, sends, delay, n).summary;
            && s.sent == s0.sent + (if sends[n - 1].Delivered? then 1 else 0)
            && s.failed == s0.failed + (if sends[n - 1].Refused? then 1 else 0)
            && s.failures == s0.failures + (if sends[n - 1].Refused?
                                            then [(msgs[n - 1].to, sends[n - 1].reason)]
                                            else [])
  {
  }

  lemma FailuresOne(m: Message, o: SendOutcome)
    ensures FailuresOf([m], [o]) == if o.Refused? then [(m.to, o.reason)] else []
  {
    assert [m][1..] == [] && [o][1..] == [];
  }

  /** The waits of one pause: a half-second wait after a refusal, the
      configured delay after a delivery that is not the last. */
  lemma PauseCounts(o: SendOutcome, idx: nat, total: nat, delay: nat)
    ensures CountWhere(Pause(o, idx, total, delay), IsHalf) == if o.Refused? then 1 else 0
    ensures CountWhere(Pause(o, idx, total, delay), IsDelay)
         == if o.Delivered? && idx < total - 1 then 1 else 0
  {
    var pause := Pause(o, idx, total, delay);
    if |pause| > 0 {
      CountOne(pause[0], IsHalf);
      CountOne(pause[0], IsDelay);
      assert pause == [pause[0]];
    }
  }

  /** Every message gets exactly one send attempt, in order, whatever the
      earlier outcomes. */
  lemma {:induction false} DeliverAttemptsEach(msgs: seq<Message>, sends: seq<SendOutcome>,
                                               delay: nat, n: nat)
    requires n <= |msgs| == |sends|
    ensures SentMessages(Deliver(msgs, sends, delay, n).trace) == msgs[..n]
    decreases n
  {
    if n > 0 {
      var p := Deliver(msgs, sends, delay, n - 1);
      var msg := msgs[n - 1];
      var pause := Pause(sends[n - 1], n - 1, |msgs|, delay);
      calc {
        SentMessages(Deliver(msgs, sends, delay, n).trace);
        { DeliverStep(msgs, sends, delay, n); }
        SentMessages(p.trace + [Send(msg)] + pause);
        { SentMessagesAppend(p.trace + [Send(msg)], pause);
          PauseSendsNothing(sends[n - 1], n - 1, |msgs|, delay); }
        SentMessages(p.trace + [Send(msg)]);
        { SentMessagesAppend(p.trace, [Send(msg)]); SentOne(msg); }
        SentMessages(p.trace) + [msg];
        { DeliverAttemptsEach(msgs, sends, delay, n - 1); }
        msgs[..n - 1] + [msg];
        { PrefixStep(msgs, n); }
        msgs[..n];
      }
    }
  }

  /** The counters and the failure list agree with the outcomes: `sent`
      counts deliveries, and the failures are the refused messages'
      addresses, in order, with the exception text. */
  lemma {:induction false} DeliverOutcomes(msgs: seq<Message>, sends: seq<SendOutcome>,
                                           delay: nat, n: nat)
    requires n <= |msgs| == |sends|
    ensures Deliver(msgs, sends, delay, n).summary.sent == CountWhere(sends[..n], IsDelivered)
    ensures Deliver(msgs, sends, delay, n).summary.failures == FailuresOf(msgs[..n], sends[..n])
    decreases n
  {
    if n > 0 {
      DeliverOutcomes(msgs, sends, delay, n - 1);
      DeliverStepSummary(msgs, sends, delay, n);
      PrefixStep(msgs, n);
      PrefixStep(sends, n);
      CountWhereAppend(sends[..n - 1], [sends[n - 1]], IsDelivered);
      CountOne(sends[n - 1], IsDelivered);
      FailuresOfAppend(msgs[..n - 1], sends[..n - 1], [msgs[n - 1]], [sends[n - 1]]);
      FailuresOne(msgs[n - 1], sends[n - 1]);
    }
  }

  /** Waits: one half-second wait per refusal, and one configured delay per
      delivery except a delivery to the last message. */
  lemma {:induction false} DeliverWaits(msgs: seq<Message>, sends: seq<SendOutcome>,
                                        delay: nat, n: nat)
    requires n <= |msgs| == |sends|
    ensures CountWhere(Deliver(msgs, sends, delay, n).trace, IsHalf)
            == Deliver(msgs, sends, delay, n).summary.failed
    ensures CountWhere(Deliver(msgs, sends, delay, n).trace, IsDelay)
            == CountWhere(sends[..n], IsDelivered)
               - (if n == |msgs| && n > 0 && sends[n - 1].Delivered? then 1 else 0)
    decreases n
  {
    if n > 0 {
      var p := Deliver(msgs, sends, delay, n - 1);
      var msg := msgs[n - 1];
      var pause := Pause(sends[n - 1], n - 1, |msgs|, delay);
      DeliverWaits(msgs, sends, delay, n - 1);
      DeliverStep(msgs, sends, delay, n);
      CountWhereAppend(p.trace, [Send(msg)], IsHalf);
      CountWhereAppend(p.trace + [Send(msg)], pause, IsHalf);
      CountWhereAppend(p.trace, [Send(msg)], IsDelay);
      CountWhereAppend(p.trace + [Send(msg)], pause, IsDelay);
      CountOne(Send(msg), IsHalf);
      CountOne(Send(msg), IsDelay);
      PauseCounts(sends[n - 1], n - 1, |msgs|, delay);
      DeliverStepSummary(msgs, sends, delay, n);
      PrefixStep(sends, n);
      CountWhereAppend(sends[..n - 1], [sends[n - 1]], IsDelivered);
      CountOne(sends[n - 1], IsDelivered);
    }
  }

  /** Every configured delay in the loop's trace directly follows a send
      attempt, and is directly followed by another unless it ends a trace
      that has not reached the last message yet. */
  ghost predicate DelaysBetweenSends(trace: seq<Action>, finished: bool) {
    forall k :: 0 <= k < |trace| && trace[k].SleepDelay? ==>
      0 < k && trace[k - 1].Send?
      && (k + 1 < |trace| ==> trace[k + 1].Send?)
      && (k + 1 == |trace| ==> !finished)
  }

  lemma {:induction false} DeliverDelaysBetweenSends(msgs: seq<Message>, sends: seq<SendOutcome>,
                                                     delay: nat, n: nat)
    requires n <= |msgs| == |sends|
    ensures DelaysBetweenSends(Deliver(msgs, sends, delay, n).trace, n == |msgs|)
    decreases n
  {
    if n > 0 {
      DeliverDelaysBetweenSends(msgs, sends, delay, n - 1);
      DeliverDelaysStep(msgs, sends, delay, n);
    }
  }

  /** One more iteration keeps every configured delay between two sends. */
  lemma DeliverDelaysStep(msgs: seq<Message>, sends: seq<SendOutcome>, delay: nat, n: nat)
    requires 0 < n <= |msgs| == |sends|
    requires DelaysBetweenSends(Deliver(msgs, sends, delay, n - 1).trace, n - 1 == |msgs|)
    ensures DelaysBetweenSends(Deliver(msgs, sends, delay, n).trace, n == |msgs|)
  {
    var prev := Deliver(msgs, sends, delay, n - 1).trace;
    var pause := Pause(sends[n - 1], n - 1, |msgs|, delay);
    DeliverStep(msgs, sends, delay, n);
    DelaysAfterSend(prev, n - 1 == |msgs|, msgs[n - 1], pause, n == |msgs|);
  }

  /** Appending a send attempt and its pause keeps every configured delay
      between two sends, provided a delay is only appended while more
      messages follow. */
  lemma DelaysAfterSend(tr: seq<Action>, before: bool, m: Message, pause: seq<Action>, finished: bool)
    requires DelaysBetweenSends(tr, before) && !before
    requires |pause| <= 1
    requires finished ==> pause == [] || pause == [SleepHalf]
    ensures DelaysBetweenSends(tr + [Send(m)] + pause, finished)
  {
    var t := tr + [Send(m)] + pause;
    forall k | 0 <= k < |t| && t[k].SleepDelay?
      ensures 0 < k && t[k - 1].Send?
      ensures k + 1 < |t| ==> t[k + 1].Send?
      ensures k + 1 == |t| ==> !finished
    {
      if k < |tr| {
        assert t[k] == tr[k];
        assert t[k - 1] == tr[k - 1];
        if k + 1 < |tr| {
          assert t[k + 1] == tr[k + 1];
        }
      } else {
        assert k == |tr| + 1 && t[k] == pause[0];
      }
    }
  }

  // Properties of a whole run.

  /** After a successful login a run is the send loop over the messages of
      all processed recipients, between the half-second wait and closing the
      connection. */
  lemma CampaignRunsLoop(cfg: Config, t: Table, key: string, relay: Relay)
    requires t.Valid()
    requires |relay.sends| == |Recipients(t.rows, key, cfg.testMode)|
    requires relay.setup.Done?
    ensures Addressed(Recipients(t.rows, key, cfg.testMode), key, t.columns)
    ensures RunCampaign(cfg, t, key, relay).trace
         == [SleepHalf]
            + Deliver(ComposeAll(cfg, t.columns, key, Recipients(t.rows, key, cfg.testMode)),
                      relay.sends, cfg.delay, |relay.sends|).trace
            + [Quit]
    ensures RunCampaign(cfg, t, key, relay).summary
         == Deliver(ComposeAll(cfg, t.columns, key, Recipients(t.rows, key, cfg.testMode)),
                    relay.sends, cfg.delay, |relay.sends|).summary
  {
    RecipientsWellFormed(t, key, cfg.testMode);
  }

  /** After a successful login the messages sent are exactly the composed
      messages, one per processed recipient, in order. */
  lemma CampaignSendsComposed(cfg: Config, t: Table, key: string, relay: Relay)
    requires t.Valid()
    requires |relay.sends| == |Recipients(t.rows, key, cfg.testMode)|
    requires relay.setup.Done?
    ensures Addressed(Recipients(t.rows, key, cfg.testMode), key, t.columns)
    ensures SentMessages(RunCampaign(cfg, t, key, relay).trace)
         == ComposeAll(cfg, t.columns, key, Recipients(t.rows, key, cfg.testMode))
  {
    var recips := Recipients(t.rows, key, cfg.testMode);
    CampaignRunsLoop(cfg, t, key, relay);
    var msgs := ComposeAll(cfg, t.columns, key, recips);
    var p := Deliver(msgs, relay.sends, cfg.delay, |msgs|);
    calc {
      SentMessages(RunCampaign(cfg, t, key, relay).trace);
      SentMessages([SleepHalf] + p.trace + [Quit]);
      { WrappedSends(p.trace); }
      SentMessages(p.trace);
      { DeliverAttemptsEach(msgs, relay.sends, cfg.delay, |msgs|); }
      msgs[..|msgs|];
      { assert msgs[..|msgs|] == msgs; }
      msgs;
    }
  }

  /** The waits and `Quit` around the loop send nothing. */
  lemma WrappedSends(tr: seq<Action>)
    ensures SentMessages([SleepHalf] + tr + [Quit]) == SentMessages(tr)
  {
    SentMessagesAppend([SleepHalf], tr);
    SentMessagesAppend([SleepHalf] + tr, [Quit]);
    assert [SleepHalf][1..] == [] && [Quit][1..] == [];
  }

  /** After a successful login every processed recipient is attempted once,
      in order, however many sends fail; every message carries the subject,
      sender and attachments exactly as entered, and the body rendered from
      its own row. */
  lemma CampaignAttemptsEveryRecipient(cfg: Config, t: Table, key: string, relay: Relay)
    requires t.Valid()
    requires |relay.sends| == |Recipients(t.rows, key, cfg.testMode)|
    requires relay.setup.Done?
    ensures var recips := Recipients(t.rows, key, cfg.testMode);
            var m := SentMessages(RunCampaign(cfg, t, key, relay).trace);
            && |m| == |recips|
            && forall i :: 0 <= i < |m| ==>
                 && HasAddress(recips[i], key) && Conforms(recips[i], t.columns)
                 && m[i].to == Address(recips[i], key)
                 && m[i].subject == cfg.subject
                 && m[i].sender == cfg.sender
                 && m[i].attachments == cfg.attachments
                 && m[i].body == Render(cfg.body, t.columns, recips[i], Sending)
  {
    var recips := Recipients(t.rows, key, cfg.testMode);
    CampaignSendsComposed(cfg, t, key, relay);
    var m := SentMessages(RunCampaign(cfg, t, key, relay).trace);
    forall i | 0 <= i < |m|
      ensures m[i] == Compose(cfg, t.columns, key, recips[i])
    {
    }
  }

  /** After a successful login the counters and failure list describe the
      outcomes exactly: the failures are the refused recipients' addresses
      with their reasons, in recipient order. */
  lemma CampaignOutcomes(cfg: Config, t: Table, key: string, relay: Relay)
    requires t.Valid()
    requires |relay.sends| == |Recipients(t.rows, key, cfg.testMode)|
    requires relay.setup.Done?
    ensures var recips := Recipients(t.rows, key, cfg.testMode);
            var s := RunCampaign(cfg, t, key, relay).summary;
            && s.sent == CountWhere(relay.sends, IsDelivered)
            && s.failed == |relay.sends| - CountWhere(relay.sends, IsDelivered)
            && Addressed(recips, key, t.columns)
            && s.failures == FailuresOf(ComposeAll(cfg, t.columns, key, recips), relay.sends)
  {
    var recips := Recipients(t.rows, key, cfg.testMode);
    CampaignRunsLoop(cfg, t, key, relay);
    var msgs := ComposeAll(cfg, t.columns, key, recips);
    DeliverOutcomes(msgs, relay.sends, cfg.delay, |msgs|);
    assert msgs[..|msgs|] == msgs;
    assert relay.sends[..|msgs|] == relay.sends;
  }

  /** After a successful login: one half-second wait after connecting and
      one per refusal; one configured delay per delivery except a delivery to
      the last recipient; and every configured delay sits between two send
      attempts. */
  lemma CampaignWaits(cfg: Config, t: Table, key: string, relay: Relay)
    requires t.Valid()
    requires |relay.sends| == |Recipients(t.rows, key, cfg.testMode)|
    requires relay.setup.Done?
    ensures var r := RunCampaign(cfg, t, key, relay);
            var n := |relay.sends|;
            && CountWhere(r.trace, IsHalf) == 1 + r.summary.failed
            && CountWhere(r.trace, IsDelay)
               == CountWhere(relay.sends, IsDelivered)
                  - (if n > 0 && relay.sends[n - 1].Delivered? then 1 else 0)
            && forall k :: 0 <= k < |r.trace| && r.trace[k].SleepDelay? ==>
                 0 < k < |r.trace| - 1 && r.trace[k - 1].Send? && r.trace[k + 1].Send?
  {
    var recips := Recipients(t.rows, key, cfg.testMode);
    CampaignRunsLoop(cfg, t, key, relay);
    var msgs := ComposeAll(cfg, t.columns, key, recips);
    var p := Deliver(msgs, relay.sends, cfg.delay, |msgs|);
    DeliverWaits(msgs, relay.sends, cfg.delay, |msgs|);
    DeliverDelaysBetweenSends(msgs, relay.sends, cfg.delay, |msgs|);
    assert relay.sends[..|msgs|] == relay.sends;
    WrappedWaits(p.trace);
  }

  /** Wrapping the loop's trace between the wait after login and `Quit`
      adds one half-second wait, no delay, and puts a send after every
      delay. */
  lemma WrappedWaits(tr: seq<Action>)
    requires DelaysBetweenSends(tr, true)
    ensures CountWhere([SleepHalf] + tr + [Quit], IsHalf) == 1 + CountWhere(tr, IsHalf)
    ensures CountWhere([SleepHalf] + tr + [Quit], IsDelay) == CountWhere(tr, IsDelay)
    ensures var w := [SleepHalf] + tr + [Quit];
            forall k :: 0 <= k < |w| && w[k].SleepDelay? ==>
              0 < k < |w| - 1 && w[k - 1].Send? && w[k + 1].Send?
  {
    var w := [SleepHalf] + tr + [Quit];
    CountWhereAppend([SleepHalf], tr, IsHalf);
    CountWhereAppend([SleepHalf] + tr, [Quit], IsHalf);
    CountWhereAppend([SleepHalf], tr, IsDelay);
    CountWhereAppend([SleepHalf] + tr, [Quit], IsDelay);
    CountOne(SleepHalf, IsHalf);
    CountOne(SleepHalf, IsDelay);
    CountOne(Quit, IsHalf);
    CountOne(Quit, IsDelay);
    forall k | 0 <= k < |w| && w[k].SleepDelay?
      ensures 0 < k < |w| - 1 && w[k - 1].Send? && w[k + 1].Send?
    {
      assert w[k] == tr[k - 1];
    }
  }

  /** The configured delay is waited exactly N - 1 times, for N > 0
      recipients, exactly when every send before the last one is delivered;
      the last may be refused, since no delay follows it either way. */
  lemma AllButLastDeliveredWaits(cfg: Config, t: Table, key: string, relay: Relay)
    requires t.Valid()
    requires |relay.sends| == |Recipients(t.rows, key, cfg.testMode)| > 0
    requires relay.setup.Done?
    ensures CountWhere(RunCampaign(cfg, t, key, relay).trace, IsDelay) == |relay.sends| - 1
        <==> forall i :: 0 <= i < |relay.sends| - 1 ==> relay.sends[i].Delivered?
  {
    var n := |relay.sends|;
    var front := relay.sends[..n - 1];
    CampaignWaits(cfg, t, key, relay);
    PrefixStep(relay.sends, n);
    assert relay.sends[..n] == relay.sends;
    CountWhereAppend(front, [relay.sends[n - 1]], IsDelivered);
    CountOne(relay.sends[n - 1], IsDelivered);
    CountWhereAll(front, IsDelivered);
  }

  /** Every element satisfies `f` exactly when all of them are counted. */
  lemma {:induction false} CountWhereAll<T>(s: seq<T>, f: T -> bool)
    ensures CountWhere(s, f) <= |s|
    ensures CountWhere(s, f) == |s| <==> forall i :: 0 <= i < |s| ==> f(s[i])
    decreases |s|
  {
    if |s| > 0 {
      CountWhereAll(s[1..], f);
      if forall i :: 0 <= i < |s| ==> f(s[i]) {
        assert forall i :: 0 <= i < |s| - 1 ==> f(s[1..][i]);
      } else {
        var i :| 0 <= i < |s| && !f(s[i]);
        if i > 0 {
          assert !f(s[1..][i - 1]);
        }
      }
    }
  }

  /** Three recipients whose second send is refused: the first and third are
      still delivered, and only the second is listed as failed. */
  lemma MiddleFailureIsIsolated()
    ensures var row := (a: string) => map["Email" := Str(a)];
            var t := Table(["Email"], [row("a@x.org"), row("b@x.org"), row("c@x.org")]);
            var cfg := Config("me@x.org", "Hi", "Dear {Email}", [], 1, false);
            var relay := Relay(Done, [Delivered, Refused("550 mailbox full"), Delivered], Done);
            && |relay.sends| == |Recipients(t.rows, "Email", cfg.testMode)|
            && RunCampaign(cfg, t, "Email", relay).summary
               == Summary(2, 1, [("b@x.org", "550 mailbox full")])
  {
    var rows := [map["Email" := Str("a@x.org")], map["Email" := Str("b@x.org")],
                 map["Email" := Str("c@x.org")]];
    var t := Table(["Email"], rows);
    var cfg := Config("me@x.org", "Hi", "Dear {Email}", [], 1, false);
    var sends := [Delivered, Refused("550 mailbox full"), Delivered];
    var relay := Relay(Done, sends, Done);
    AllThreeProcessed(rows);
    assert t.Valid();
    CampaignOutcomes(cfg, t, "Email", relay);
    var msgs := ComposeAll(cfg, ["Email"], "Email", rows);
    assert msgs[1].to == "b@x.org";
    MiddleRefused(msgs, "550 mailbox full");
  }

  /** Three rows that all have an address are all processed. */
  lemma AllThreeProcessed(rows: seq<Record>)
    requires |rows| == 3 && forall i :: 0 <= i < 3 ==> HasAddress(rows[i], "Email")
    ensures Recipients(rows, "Email", false) == rows
  {
    assert rows[1..][1..][1..] == [];
    assert Eligible(rows[1..][1..], "Email") == rows[1..][1..];
    assert Eligible(rows[1..], "Email") == [rows[1]] + rows[1..][1..] == rows[1..];
    assert Eligible(rows, "Email") == [rows[0]] + rows[1..] == rows;
  }

  /** Outcomes delivered, refused, delivered: two deliveries, and one
      failure, for the second message. */
  lemma MiddleRefused(msgs: seq<Message>, e: string)
    requires |msgs| == 3
    ensures CountWhere([Delivered, Refused(e), Delivered], IsDelivered) == 2
    ensures FailuresOf(msgs, [Delivered, Refused(e), Delivered]) == [(msgs[1].to, e)]
  {
    var sends := [Delivered, Refused(e), Delivered];
    assert sends[1..] == [Refused(e), Delivered];
    assert sends[1..][1..] == [Delivered];
    assert sends[1..][1..][1..] == [];
    assert msgs[1..][1..][1..] == [];
    assert FailuresOf(msgs[1..][1..], sends[1..][1..]) == [];
    assert CountWhere(sends[1..][1..], IsDelivered) == 1;
    assert CountWhere(sends[1..], IsDelivered) == 1;
  }
}
