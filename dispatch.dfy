/**
 * One run of the mailer: the batch is selected once, then each address is
 * sent a composed message in batch order; a success appends the address to
 * sent_log.txt and a failure appends "<address> | <error>" to
 * bounced_emails.txt. The Gmail call is an oracle: `transport(k)` is the
 * outcome of the k-th send of the run, `rng(k)` the subject and body picked
 * for it.
 */
module Dispatch {
  import opened PyStr
  import opened Composer
  import opened Selection

  /** What the Gmail send call did: returned, or raised an exception with this text. */
  datatype Outcome = Success | Failure(error: string)

  /** The line `send_email` appends to bounced_emails.txt (without its newline). */
  function BounceLine(email: string, error: string): (line: string)
    ensures |line| == |email| + 3 + |error| && line[..|email|] == email
    ensures line[|email|..|email| + 3] == " | " && line[|email| + 3..] == error
  {
    email + " | " + error
  }

  /** The addresses of `batch` whose send succeeded, in batch order. */
  function Delivered(batch: seq<string>, transport: nat -> Outcome): (sent: seq<string>)
    ensures |sent| <= |batch|
  {
    if batch == [] then []
    else
      var n := |batch| - 1;
      Delivered(batch[..n], transport) + (if transport(n).Success? then [batch[n]] else [])
  }

  /** One bounce line per failed send of `batch`, in batch order. */
  function Bounces(batch: seq<string>, transport: nat -> Outcome): (lines: seq<string>)
    ensures |lines| + |Delivered(batch, transport)| == |batch|
  {
    if batch == [] then []
    else
      var n := |batch| - 1;
      Bounces(batch[..n], transport) +
        (if transport(n).Failure? then [BounceLine(batch[n], transport(n).error)] else [])
  }

  /** An address is delivered exactly when one of its sends in the batch succeeded. */
  lemma {:induction false} DeliveredMembers(batch: seq<string>, transport: nat -> Outcome, e: string)
    ensures e in Delivered(batch, transport) <==>
      exists i :: 0 <= i < |batch| && batch[i] == e && transport(i).Success?
  {
    if batch != [] {
      var n := |batch| - 1;
      var prefix := batch[..n];
      DeliveredMembers(prefix, transport, e);
      assert forall i :: 0 <= i < n ==> prefix[i] == batch[i];
    }
  }

  /** A bounce line is logged exactly for each failed send, with that send's error text. */
  lemma {:induction false} BouncesMembers(batch: seq<string>, transport: nat -> Outcome, line: string)
    ensures line in Bounces(batch, transport) <==>
      exists i :: 0 <= i < |batch| && transport(i).Failure? && line == BounceLine(batch[i], transport(i).error)
  {
    if batch != [] {
      var n := |batch| - 1;
      var prefix := batch[..n];
      BouncesMembers(prefix, transport, line);
      assert forall i :: 0 <= i < n ==> prefix[i] == batch[i];
    }
  }

  /** One more send extends Delivered and Bounces by that send's outcome. */
  lemma LogsStep(batch: seq<string>, transport: nat -> Outcome, i: nat)
    requires i < |batch|
    ensures Delivered(batch[..i + 1], transport) ==
      Delivered(batch[..i], transport) + (if transport(i).Success? then [batch[i]] else [])
    ensures Bounces(batch[..i + 1], transport) ==
      Bounces(batch[..i], transport) + (if transport(i).Failure? then [BounceLine(batch[i], transport(i).error)] else [])
  {
    assert batch[..i + 1][..i] == batch[..i];
  }

  /** Taking one more element of a sequence appends that element. */
  lemma TakeSnoc<T>(s: seq<T>, i: nat)
    requires i < |s|
    ensures s[..i + 1] == s[..i] + [s[i]]
  {
  }

  /** When every send succeeds the whole batch is logged as sent and nothing bounces. */
  lemma {:induction false} AllDelivered(batch: seq<string>, transport: nat -> Outcome)
    requires forall i :: 0 <= i < |batch| ==> transport(i).Success?
    ensures Delivered(batch, transport) == batch
    ensures Bounces(batch, transport) == []
  {
    if batch != [] {
      var n := |batch| - 1;
      AllDelivered(batch[..n], transport);
      assert Delivered(batch, transport) == batch[..n] + [batch[n]];
      assert batch[..n] + [batch[n]] == batch;
    }
  }

  /**
   * The state of `main`: its subject and body pools, and the sent-log and
   * bounce-log files as their lines.
   */
  class Mailer {
    const subjects: seq<string>
    const bodies: seq<Template>
    var sentLog: seq<string>
    var bounceLog: seq<string>

    constructor (sentLog: seq<string>, bounceLog: seq<string>)
      ensures subjects == SUBJECTS && bodies == BODIES
      ensures this.sentLog == sentLog && this.bounceLog == bounceLog
    {
      subjects := SUBJECTS;
      bodies := BODIES;
      this.sentLog := sentLog;
      this.bounceLog := bounceLog;
    }

    /** Every `random.choice` of the run picks an index inside its pool. */
    ghost predicate ValidPicks(rng: nat -> Pick) {
      forall k :: rng(k).subject < |subjects| && rng(k).body < |bodies|
    }

    /** The message `main` builds for `email` with the pool entries `pick` names. */
    function MessageFor(email: string, pick: Pick): (msg: Message)
      requires pick.subject < |subjects| && pick.body < |bodies|
      ensures msg.sender == SENDER && msg.to == email && msg.subject == subjects[pick.subject]
    {
      Compose(email, subjects[pick.subject], bodies[pick.body])
    }

    /** The messages `main` builds for `batch`, in order, with the picks of `rng`. */
    function Outbox(batch: seq<string>, rng: nat -> Pick): (msgs: seq<Message>)
      requires ValidPicks(rng)
      ensures |msgs| == |batch|
    {
      seq(|batch|, k requires 0 <= k < |batch| => MessageFor(batch[k], rng(k)))
    }

    /**
     * `send_email`: reports whether the transport accepted `msg`; on a
     * failure it appends one bounce line for `email`, on success the logs
     * stay as they are.
     */
    method SendEmail(msg: Message, email: string, outcome: Outcome) returns (ok: bool)
      modifies this
      ensures ok <==> outcome.Success?
      ensures sentLog == old(sentLog)
      ensures bounceLog == if ok then old(bounceLog) else old(bounceLog) + [BounceLine(email, outcome.error)]
    {
      match outcome
      case Success =>
        ok := true;
      case Failure(errorText) =>
        bounceLog := bounceLog + [BounceLine(email, errorText)];
        ok := false;
    }

    /**
     * The send loop of `main`: every address of `batch` up to DAILY_LIMIT gets
     * one composed message, in order; successes extend the sent log and
     * failures the bounce log, each in batch order.
     */
    method SendBatch(batch: seq<string>, rng: nat -> Pick, transport: nat -> Outcome)
      returns (count: nat, outbox: seq<Message>)
      requires ValidPicks(rng)
      modifies this
      ensures count == Min(|batch|, DAILY_LIMIT)
      ensures sentLog == old(sentLog) + Delivered(batch[..count], transport)
      ensures bounceLog == old(bounceLog) + Bounces(batch[..count], transport)
      ensures outbox == Outbox(batch, rng)[..count]
    {
      count := 0;
      outbox := [];
      var i := 0;
      while i < |batch|
        invariant count == i <= |batch| && count <= DAILY_LIMIT
        invariant sentLog == old(sentLog) + Delivered(batch[..i], transport)
        invariant bounceLog == old(bounceLog) + Bounces(batch[..i], transport)
        invariant outbox == Outbox(batch, rng)[..i]
      {
        if count >= DAILY_LIMIT {
          break;
        }
        var email := batch[i];
        var msg := MessageFor(email, rng(count));
        TakeSnoc(Outbox(batch, rng), i);
        outbox := outbox + [msg];
        var ok := SendEmail(msg, email, transport(count));
        if ok {
          sentLog := sentLog + [email];
        }
        LogsStep(batch, transport, i);
        AppendAssoc(old(sentLog), Delivered(batch[..i], transport), if transport(i).Success? then [email] else []);
        AppendAssoc(old(bounceLog), Bounces(batch[..i], transport),
          if transport(i).Failure? then [BounceLine(email, transport(i).error)] else []);
        count := count + 1;
        i := i + 1;
      }
    }

    /**
     * `main` without the I/O: parse the list, read the sent set once, pick
     * this run's batch and send it. The early stop never triggers, so every
     * batch entry (position) is tried exactly once; an address listed twice
     * is sent twice.
     */
    method Run(hrLines: seq<string>, rng: nat -> Pick, transport: nat -> Outcome)
      returns (batch: seq<string>, count: nat, outbox: seq<Message>)
      requires ValidPicks(rng)
      modifies this
      ensures batch == SelectBatch(hrLines, old(sentLog))
      ensures count == |batch| <= DAILY_LIMIT
      ensures sentLog == old(sentLog) + Delivered(batch, transport)
      ensures bounceLog == old(bounceLog) + Bounces(batch, transport)
      ensures outbox == Outbox(batch, rng)
    {
      var emails := ParseRecipients(hrLines);
      var sentEmails := SentSet(sentLog);
      var unsentEmails := Unsent(emails, sentEmails);
      batch := TodayBatch(unsentEmails);
      count, outbox := SendBatch(batch, rng, transport);
      assert batch[..count] == batch;
    }
  }

  /**
   * Across runs: once an address without surrounding whitespace has been
   * delivered, no later run selects it again, whatever the recipient list
   * then holds, as long as the sent log is only appended to.
   */
  lemma DeliveredNeverReselected(log: seq<string>, batch: seq<string>, transport: nat -> Outcome,
                                 laterLog: seq<string>, lines: seq<string>, e: string)
    requires e in Delivered(batch, transport) && Strip(e) == e
    requires log + Delivered(batch, transport) <= laterLog
    ensures e !in SelectBatch(lines, laterLog)
  {
    var k :| 0 <= k < |Delivered(batch, transport)| && Delivered(batch, transport)[k] == e;
    assert laterLog[|log| + k] == e;
    assert Strip(e) in SentSet(laterLog);
    if e in SelectBatch(lines, laterLog) {
      SelectedAreUnsent(lines, laterLog, e);
    }
  }

  /**
   * Across runs: a listed address that is not in the sent set and that no
   * delivery of this run strips to stays eligible for the next run.
   */
  lemma UndeliveredStaysEligible(lines: seq<string>, log: seq<string>, transport: nat -> Outcome, e: string)
    requires e in Unsent(ParseRecipients(lines), SentSet(log))
    requires e !in SentSet(Delivered(SelectBatch(lines, log), transport))
    ensures e in Unsent(ParseRecipients(lines), SentSet(log + Delivered(SelectBatch(lines, log), transport)))
  {
    var emails := ParseRecipients(lines);
    var delivered := Delivered(SelectBatch(lines, log), transport);
    SentSetAppend(log, delivered);
    UnsentNotSent(emails, SentSet(log), e);
    UnsentCount(emails, SentSet(log + delivered), e);
    assert multiset(emails)[e] > 0;
  }
}
