/**
 * The mailer: the direct-send path that writes an audit record, and the
 * processing round that resends due records from the queue.
 */
module MailQueue {
  import opened Wrappers
  import opened Mail
  import opened Queue
  import opened Selection

  /**
   * What the mailer learns from outside: the current time, the rebuilding of a
   * message from a stored record, the transport's verdict on a message, and
   * the model validation of a new record.
   */
  datatype Env = Env(
    now: int,
    toMessage: Record -> Option<Message>,
    transport: Message -> bool,
    validate: Record -> bool)

  // ---------------------------------------------------------------------------
  // Direct send

  /** The bodies and charset gathered while scanning a message's parts. */
  datatype Bodies = Bodies(html: Option<string>, text: Option<string>, charset: string)

  /** A part that is not an attachment and has the given content type. */
  predicate IsBody(p: Part, contentType: string) {
    !p.attachment && p.contentType == contentType
  }

  /** One step of the scan: a non-attachment part may set a body and, while none is set, the charset. */
  function ScanPart(b: Bodies, p: Part): Bodies {
    if p.attachment then b
    else
      Bodies(
        if p.contentType == "text/html" then Some(p.body) else b.html,
        if p.contentType == "text/plain" then Some(p.body) else b.text,
        if Truthy(b.charset) then b.charset else p.charset)
  }

  /** Scans the parts in order. */
  function ScanParts(b: Bodies, ps: seq<Part>): Bodies
    decreases |ps|
  {
    if |ps| == 0 then b else ScanPart(ScanParts(b, ps[..|ps| - 1]), ps[|ps| - 1])
  }

  /** The body a scan has gathered for one of the two body content types. */
  function BodyOf(b: Bodies, contentType: string): Option<string> {
    if contentType == "text/html" then b.html
    else if contentType == "text/plain" then b.text
    else None
  }

  /** The HTML (or text) body comes from the last non-attachment part of that type, if any. */
  lemma {:induction false} ScanPartsBody(b: Bodies, ps: seq<Part>, contentType: string)
    requires contentType == "text/html" || contentType == "text/plain"
    ensures (forall k :: 0 <= k < |ps| ==> !IsBody(ps[k], contentType)) ==>
              BodyOf(ScanParts(b, ps), contentType) == BodyOf(b, contentType)
    ensures forall k :: 0 <= k < |ps| && IsBody(ps[k], contentType) && LastBody(ps, k, contentType) ==>
              BodyOf(ScanParts(b, ps), contentType) == Some(ps[k].body)
  {
    if |ps| > 0 {
      var n := |ps| - 1;
      var init := ps[..n];
      var before := ScanParts(b, init);
      ScanPartsBody(b, init, contentType);
      assert forall k :: 0 <= k < n ==> init[k] == ps[k];
      forall k | 0 <= k < |ps| && IsBody(ps[k], contentType) && LastBody(ps, k, contentType)
        ensures BodyOf(ScanParts(b, ps), contentType) == Some(ps[k].body)
      {
        if k < n {
          assert !IsBody(ps[n], contentType);
          assert LastBody(init, k, contentType);
        }
      }
    }
  }

  /** No part after index `k` is a non-attachment part of the given type. */
  predicate LastBody(ps: seq<Part>, k: int, contentType: string) {
    forall j :: 0 <= j && k < j < |ps| ==> !IsBody(ps[j], contentType)
  }

  /** No non-attachment part before index `k` has a truthy charset. */
  predicate NoTruthyBefore(ps: seq<Part>, k: int) {
    forall j :: 0 <= j < k && j < |ps| ==> ps[j].attachment || !Truthy(ps[j].charset)
  }

  /** Every part after index `k` is an attachment. */
  predicate OnlyAttachmentsAfter(ps: seq<Part>, k: int) {
    forall j :: 0 <= j && k < j < |ps| ==> ps[j].attachment
  }

  /** A sequence with some non-attachment part has a last one. */
  lemma LastNonAttachment(ps: seq<Part>) returns (k: int)
    requires !OnlyAttachmentsAfter(ps, -1)
    ensures 0 <= k < |ps| && !ps[k].attachment && OnlyAttachmentsAfter(ps, k)
  {
    k :| 0 <= k < |ps| && !ps[k].attachment;
    while !OnlyAttachmentsAfter(ps, k)
      invariant 0 <= k < |ps| && !ps[k].attachment
      decreases |ps| - k
    {
      var next :| 0 <= next && k < next < |ps| && !ps[next].attachment;
      k := next;
    }
  }

  /**
   * The charset: the initial one when it is truthy; otherwise the first
   * truthy charset of a non-attachment part; otherwise that of the last
   * non-attachment part; otherwise the initial one.
   */
  lemma {:induction false} ScanPartsCharset(b: Bodies, ps: seq<Part>)
    ensures Truthy(b.charset) ==> ScanParts(b, ps).charset == b.charset
    ensures OnlyAttachmentsAfter(ps, -1) ==> ScanParts(b, ps).charset == b.charset
    ensures forall k :: 0 <= k < |ps| && !Truthy(b.charset) && !ps[k].attachment && Truthy(ps[k].charset) && NoTruthyBefore(ps, k)
              ==> ScanParts(b, ps).charset == ps[k].charset
    ensures forall k :: 0 <= k < |ps| && !Truthy(b.charset) && !ps[k].attachment && NoTruthyBefore(ps, |ps|) && OnlyAttachmentsAfter(ps, k)
              ==> ScanParts(b, ps).charset == ps[k].charset
  {
    if |ps| > 0 {
      var n := |ps| - 1;
      var init := ps[..n];
      ScanPartsCharset(b, init);
      assert forall k :: 0 <= k < n ==> init[k] == ps[k];
      if !Truthy(b.charset) && NoTruthyBefore(ps, |ps|) {
        assert NoTruthyBefore(init, n);
        // Before the last part the charset is still falsy: it is the initial
        // one or that of an earlier non-attachment part.
        if !OnlyAttachmentsAfter(init, -1) {
          var k := LastNonAttachment(init);
          assert ScanParts(b, init).charset == init[k].charset;
        }
        assert !Truthy(ScanParts(b, init).charset);
      }
      forall k | 0 <= k < |ps| && !Truthy(b.charset) && !ps[k].attachment && Truthy(ps[k].charset) && NoTruthyBefore(ps, k)
        ensures ScanParts(b, ps).charset == ps[k].charset
      {
        if k < n {
          assert NoTruthyBefore(init, k);
        } else {
          assert NoTruthyBefore(init, n);
          if !OnlyAttachmentsAfter(init, -1) {
            var i := LastNonAttachment(init);
            assert ScanParts(b, init).charset == init[i].charset;
          }
        }
      }
    }
  }

  /** The record a direct send writes for its audit trail. */
  function AuditRecord(m: Message, now: int): Record {
    var b := ScanParts(Bodies(None, None, m.charset), Parts(m));
    Record(
      m.from, m.to, m.cc, m.bcc, m.replyTo,
      b.charset, m.subject, b.html, b.text, Some(m),
      now, now, 1, Some(now), Some(now))
  }

  /**
   * The audit record's bodies come from the last non-attachment `text/html`
   * and `text/plain` parts of the message (the message itself when it has no
   * children). Its charset is the message's when that is truthy, when the
   * message is single-part or when every child is an attachment; otherwise it
   * is the first truthy charset of a non-attachment part, or, when none is
   * truthy, the (falsy) charset of the last non-attachment part.
   */
  lemma AuditRecordBodies(m: Message, now: int)
    ensures var r := AuditRecord(m, now); var ps := Parts(m);
      && ((forall k :: 0 <= k < |ps| ==> !IsBody(ps[k], "text/html")) ==> r.htmlBody.None?)
      && (forall k :: 0 <= k < |ps| && IsBody(ps[k], "text/html") && LastBody(ps, k, "text/html")
            ==> r.htmlBody == Some(ps[k].body))
      && ((forall k :: 0 <= k < |ps| ==> !IsBody(ps[k], "text/plain")) ==> r.textBody.None?)
      && (forall k :: 0 <= k < |ps| && IsBody(ps[k], "text/plain") && LastBody(ps, k, "text/plain")
            ==> r.textBody == Some(ps[k].body))
      && (Truthy(m.charset) || |m.children| == 0 || OnlyAttachmentsAfter(ps, -1) ==> r.charset == m.charset)
      && (forall k :: 0 <= k < |ps| && !Truthy(m.charset) && !ps[k].attachment && Truthy(ps[k].charset) && NoTruthyBefore(ps, k)
            ==> r.charset == ps[k].charset)
      && (forall k :: 0 <= k < |ps| && !Truthy(m.charset) && !ps[k].attachment && NoTruthyBefore(ps, |ps|) && OnlyAttachmentsAfter(ps, k)
            ==> r.charset == ps[k].charset)
  {
    var b := Bodies(None, None, m.charset);
    ScanPartsBody(b, Parts(m), "text/html");
    ScanPartsBody(b, Parts(m), "text/plain");
    ScanPartsCharset(b, Parts(m));
    if |m.children| == 0 && !Truthy(m.charset) {
      assert OnlyAttachmentsAfter(Parts(m), 0);
    }
  }

  /** The verdict of a send and the table after it. */
  datatype Sent = Sent(ok: bool, store: Store)

  /**
   * Sends one message. The verdict is the transport's, whatever happens to the
   * audit record. A direct message appends one audit record when it passes
   * validation and none otherwise; a resend touches no record. The audit
   * record counts one attempt and carries `now` as its send and attempt time
   * whether or not the transport succeeded.
   */
  function SendMessage(store: Store, m: Message, env: Env): (r: Sent)
    ensures r.ok == env.transport(m)
    ensures !m.direct ==> r.store == store
    ensures |store| <= |r.store| <= |store| + 1 && r.store[..|store|] == store
    ensures m.direct && env.validate(AuditRecord(m, env.now)) ==> r.store == store + [AuditRecord(m, env.now)]
    ensures m.direct && !env.validate(AuditRecord(m, env.now)) ==> r.store == store
    ensures forall i :: |store| <= i < |r.store| ==>
      && r.store[i].from == m.from
      && r.store[i].to == m.to
      && r.store[i].cc == m.cc
      && r.store[i].bcc == m.bcc
      && r.store[i].replyTo == m.replyTo
      && r.store[i].subject == m.subject
      && r.store[i].swiftMessage == Some(m)
      && r.store[i].attempts == 1
      && r.store[i].timeToSend == env.now
      && r.store[i].lastAttemptTime == Some(env.now)
      && r.store[i].sentTime == Some(env.now)
  {
    var ok := env.transport(m);
    if m.direct then
      var item := AuditRecord(m, env.now);
      Sent(ok, if env.validate(item) then store + [item] else store)
    else
      Sent(ok, store)
  }

  // ---------------------------------------------------------------------------
  // Processing round

  /** A reconstructed record whose resend the transport refused. */
  predicate SendFailed(env: Env, row: Record) {
    match env.toMessage(row)
    case None => false
    case Some(m) => !env.transport(Resend(m))
  }

  /**
   * What one attempt does to a loaded record, independently of the table:
   * nothing when it cannot be rebuilt; otherwise one more attempt stamped
   * `now`, and a send time of `now` exactly when the transport succeeded.
   */
  function AfterAttempt(row: Record, env: Env): Record {
    match env.toMessage(row)
    case None => row
    case Some(m) =>
      row.(attempts := row.attempts + 1,
           lastAttemptTime := Some(env.now),
           sentTime := if env.transport(Resend(m)) then Some(env.now) else row.sentTime)
  }

  /** The table after a round, and whether every rebuilt record was sent. */
  datatype Round = Round(store: Store, success: bool)

  /** The missing-table configuration error. */
  datatype ConfigError = TableNotFound(table: string)

  /**
   * Attempts one loaded record and writes back attempts, attempt time and, on
   * success, send time: the record becomes its `AfterAttempt`, no other row
   * changes, and the attempt fails exactly when the rebuilt record's resend
   * failed.
   */
  function Attempt(store: Store, item: Item, env: Env): (r: Round)
    requires item.id < |store|
    ensures |r.store| == |store|
    ensures store[item.id] == item.row ==> r.store[item.id] == AfterAttempt(item.row, env)
    ensures forall i :: 0 <= i < |store| && i != item.id ==> r.store[i] == store[i]
    ensures r.success <==> !SendFailed(env, item.row)
  {
    match env.toMessage(item.row)
    case None => Round(store, true)
    case Some(m) =>
      var sent := SendMessage(store, Resend(m), env);
      var row := sent.store[item.id];
      var row' := row.(
        attempts := item.row.attempts + 1,
        lastAttemptTime := Some(env.now),
        sentTime := if sent.ok then Some(env.now) else row.sentTime);
      Round(sent.store[item.id := row'], sent.ok)
  }

  /** The loaded items are rows of the table with distinct ids. */
  predicate LoadedFrom(batch: seq<Item>, store: Store) {
    && (forall k :: 0 <= k < |batch| ==> batch[k].id < |store| && store[batch[k].id] == batch[k].row)
    && (forall j, k :: 0 <= j < k < |batch| ==> batch[j].id != batch[k].id)
  }

  /**
   * Attempts the loaded items in order. Each item's row becomes its
   * `AfterAttempt`, every other row is unchanged, and the round succeeds
   * exactly when no rebuilt item failed to send.
   */
  function ProcessItems(store: Store, batch: seq<Item>, env: Env): (r: Round)
    requires LoadedFrom(batch, store)
    ensures |r.store| == |store|
    ensures forall k :: 0 <= k < |batch| ==> r.store[batch[k].id] == AfterAttempt(batch[k].row, env)
    ensures forall i :: 0 <= i < |store| && (forall k :: 0 <= k < |batch| ==> batch[k].id != i) ==>
      r.store[i] == store[i]
    ensures r.success <==> forall k :: 0 <= k < |batch| ==> !SendFailed(env, batch[k].row)
    decreases |batch|
  {
    if |batch| == 0 then Round(store, true)
    else
      var first := Attempt(store, batch[0], env);
      var rest := ProcessItems(first.store, batch[1..], env);
      Round(rest.store, first.success && rest.success)
  }

  /**
   * One processing round. Without the queue table it fails before touching
   * anything. Otherwise no record is created or deleted; each selected record
   * becomes its `AfterAttempt` and every other record is unchanged; and the
   * round succeeds exactly when no selected, rebuilt record failed to send.
   */
  function Process(store: Store, cfg: Config, tableExists: bool, env: Env): (r: Result<Round, ConfigError>)
    ensures !tableExists ==> r == Failure(TableNotFound(cfg.table))
    ensures tableExists ==> r.Success? && |r.value.store| == |store|
    ensures tableExists ==> forall i :: 0 <= i < |store| ==>
      r.value.store[i] == if Item(i, store[i]) in Select(store, cfg, env.now) then AfterAttempt(store[i], env) else store[i]
    ensures tableExists ==> (r.value.success <==>
      forall k :: 0 <= k < |Select(store, cfg, env.now)| ==> !SendFailed(env, Select(store, cfg, env.now)[k].row))
  {
    if !tableExists then Failure(TableNotFound(cfg.table))
    else
      var batch := Select(store, cfg, env.now);
      assert LoadedFrom(batch, store);
      var round := ProcessItems(store, batch, env);
      assert forall i :: 0 <= i < |store| ==>
        round.store[i] == if Item(i, store[i]) in batch then AfterAttempt(store[i], env) else store[i] by {
        forall i | 0 <= i < |store|
          ensures round.store[i] == if Item(i, store[i]) in batch then AfterAttempt(store[i], env) else store[i]
        {
          if Item(i, store[i]) in batch {
            var k :| 0 <= k < |batch| && batch[k] == Item(i, store[i]);
          } else {
            forall k | 0 <= k < |batch| ensures batch[k].id != i {
              assert batch[k].row == store[batch[k].id];
            }
          }
        }
      }
      Success(round)
  }

  // ---------------------------------------------------------------------------
  // Successive rounds

  /** One round never lowers a record's attempts, never clears its send time, and leaves a terminal record alone. */
  lemma RoundStep(store: Store, cfg: Config, env: Env, i: nat)
    requires i < |store|
    ensures var s := Process(store, cfg, true, env).value.store;
      && |s| == |store|
      && s[i].attempts >= store[i].attempts
      && (store[i].sentTime.Some? ==> s[i] == store[i])
      && (Terminal(store[i], cfg) ==> s[i] == store[i])
      && s[i].attempts <= Max(store[i].attempts, cfg.maxAttempts)
  {
  }

  function Max(a: int, b: int): int {
    if a <= b then b else a
  }

  /** `trace` is the table before and after each of the successive rounds run in `envs`. */
  predicate Rounds(trace: seq<Store>, cfg: Config, envs: seq<Env>) {
    && |trace| == |envs| + 1
    && forall k :: 0 <= k < |envs| ==> trace[k + 1] == Process(trace[k], cfg, true, envs[k]).value.store
  }

  /**
   * Across any number of rounds: no record is created or deleted, attempts
   * never decrease and never pass `maxAttempts` (or their starting value, if
   * higher), and a record that is sent or exhausted is never touched again.
   */
  lemma {:induction false} RoundsPreserve(trace: seq<Store>, cfg: Config, envs: seq<Env>, i: nat)
    requires Rounds(trace, cfg, envs)
    requires i < |trace[0]|
    ensures |trace[|envs|]| == |trace[0]|
    ensures trace[|envs|][i].attempts >= trace[0][i].attempts
    ensures trace[|envs|][i].attempts <= Max(trace[0][i].attempts, cfg.maxAttempts)
    ensures Terminal(trace[0][i], cfg) ==> trace[|envs|][i] == trace[0][i]
  {
    if |envs| > 0 {
      var n := |envs| - 1;
      assert Rounds(trace[..n + 1], cfg, envs[..n]);
      RoundsPreserve(trace[..n + 1], cfg, envs[..n], i);
      assert trace[n + 1] == Process(trace[n], cfg, true, envs[n]).value.store;
      RoundStep(trace[n], cfg, envs[n], i);
    }
  }

  /**
   * A record on its last allowed attempt whose resend fails is left unsent
   * and exhausted, and so is never selected again.
   */
  lemma LastFailureExhausts(store: Store, cfg: Config, env: Env, i: nat, now': int)
    requires i < |store|
    requires Item(i, store[i]) in Select(store, cfg, env.now)
    requires store[i].attempts + 1 == cfg.maxAttempts
    requires SendFailed(env, store[i])
    ensures var s := Process(store, cfg, true, env).value.store;
      s[i].sentTime.None? && Terminal(s[i], cfg) && !Eligible(s[i], cfg, now')
  {
  }

  /**
   * With the component's defaults, a record that entered the queue with no
   * attempts is attempted at most three times over any number of rounds.
   */
  lemma DefaultAttemptsAtMostThree(trace: seq<Store>, envs: seq<Env>, i: nat)
    requires Rounds(trace, DefaultConfig, envs)
    requires i < |trace[0]| && trace[0][i].attempts == 0
    ensures i < |trace[|envs|]| && trace[|envs|][i].attempts <= 3
  {
    RoundsPreserve(trace, DefaultConfig, envs, i);
  }
}
