/** The durable queue record and the rule deciding whether a round may pick it up. */
module Queue {
  import opened Wrappers
  import opened Mail

  /**
   * One row of the mail queue table. Times are integers on one clock; a null
   * column is `None`. The serialized message is kept as the message itself.
   */
  datatype Record = Record(
    from: seq<Address>,
    to: seq<Address>,
    cc: seq<Address>,
    bcc: seq<Address>,
    replyTo: seq<Address>,
    charset: string,
    subject: string,
    htmlBody: Option<string>,
    textBody: Option<string>,
    swiftMessage: Option<Message>,
    createdAt: int,
    timeToSend: int,
    attempts: nat,
    lastAttemptTime: Option<int>,
    sentTime: Option<int>)

  /** The table; a record's position is its identity, and rows are never deleted. */
  type Store = seq<Record>

  /** The mailer's queue settings. */
  datatype Config = Config(table: string, mailsPerRound: nat, maxAttempts: int)

  /** The component's defaults: table `{{%mail_queue}}`, 10 mails per round, 3 attempts. */
  const DefaultConfig: Config := Config("{{%mail_queue}}", 10, 3)

  /** The WHERE clause of a processing round. */
  predicate Eligible(r: Record, cfg: Config, now: int) {
    && r.sentTime.None?
    && |r.to| > 0
    && r.attempts < cfg.maxAttempts
    && r.timeToSend <= now
  }

  /** A sent or exhausted record: no round may ever attempt it again. */
  predicate Terminal(r: Record, cfg: Config) {
    r.sentTime.Some? || r.attempts >= cfg.maxAttempts
  }

  /** A record loaded from the table together with its identity. */
  datatype Item = Item(id: nat, row: Record)

  /** All rows of the table in id order. */
  function Rows(store: Store): (items: seq<Item>)
    ensures forall x :: x in items <==> x.id < |store| && x.row == store[x.id]
  {
    var items := seq(|store|, i requires 0 <= i < |store| => Item(i, store[i]));
    assert forall x: Item :: x.id < |store| && x.row == store[x.id] ==> items[x.id] == x;
    items
  }
}
