# Mail queue delivery model

A Dafny model of the delivery state machine of the `MailQueue` mailer of
yii2-mailqueue (`MailQueue.php`). The mailer keeps outbound mail in a queue
table. A processing round (`process()`) picks the due records and resends them.
It counts every attempt and stamps a send time on success. A direct send
(`sendMessage()` on a direct message) calls the transport right away and also
writes one audit record to the table.

The model is functional. The table is a sequence of `Queue.Record` values. A
record's position in that sequence stands in for its auto-increment id: rows
are never deleted, so positions never change. Whatever the mailer learns from
outside is a parameter, `MailQueue.Env`. It holds:

- `now`, one integer clock for both `date()` and SQL `NOW()`;
- `toMessage`, the rebuilding of a message from a record, which may fail;
- `transport`, the verdict of the SwiftMailer transport on a message;
- `validate`, the outcome of model validation of a new record.

Modules:

- `Wrappers`: `Option` and `Result`.
- `Mail`: the message, its MIME parts, PHP string truthiness, and the non-direct resend copy.
- `Queue`: the record, the configuration with its defaults (`mailsPerRound = 10`,
  `maxAttempts = 3`, table `{{%mail_queue}}`), the selection condition
  `Eligible` and the terminal condition `Terminal`.
- `Selection`: the round's query. It filters on `Eligible`, sorts oldest
  `created_at` first and takes at most `mailsPerRound` rows.
- `MailQueue`: `SendMessage`, the part scan that fills the audit record,
  the per-record attempt, `ProcessItems`/`Process` for one round, and `Rounds`
  for successive rounds.

Two behaviours of the code worth knowing:

- A direct send stamps `sent_time` with the current time even when the
  transport fails (MailQueue.php:162-164). Its audit record is therefore never
  selected by a round.
- `sendMessage` on a non-direct message calls the transport and writes no
  record (MailQueue.php:119, 158, 162). This is how a round resends. Queuing a
  pending record happens in `Message::queue()`, which is not part of this model.

## Model

| member | source | states |
|---|---|---|
| Selection.FilterEligibleKeeps | MailQueue.php:94 | the WHERE clause keeps exactly the rows with null `sent_time`, a non-empty `to` list, `attempts < maxAttempts` and `time_to_send <= now`, in their original order |
| Selection.SortByAgeSorts | MailQueue.php:94 | ordering by `created_at` ascending yields a strictly oldest-first sequence holding every filtered row exactly once |
| Selection.EligibleByAge | MailQueue.php:94 | the ordered eligible set holds exactly the eligible rows of the table, oldest first |
| Selection.Select | MailQueue.php:94-95 | a round's batch has at most `mailsPerRound` records, each an eligible row of the table, oldest first; an eligible record is left out only when the batch is full of older records, so the batch is a prefix of the ordered eligible set |
| MailQueue.Attempt | MailQueue.php:96-109 | one loaded record whose row is current becomes its single-attempt result (unchanged when it cannot be rebuilt; otherwise one more attempt, `last_attempt_time = now`, `sent_time = now` exactly on a successful non-direct resend); no other row changes; the attempt reports failure exactly when the rebuilt record's resend failed |
| MailQueue.ProcessItems | MailQueue.php:95-111 | attempting the loaded records in order turns each into its single-attempt result and leaves every other row as it was; the aggregate flag is true exactly when no rebuilt record failed to send |
| MailQueue.Process | MailQueue.php:86-115 | a missing table is a configuration error; otherwise the table keeps its size, each selected record that rebuilds gains one attempt, gets `last_attempt_time = now`, and gets `sent_time = now` exactly when its non-direct resend succeeded; a record that fails to rebuild and every unselected record are unchanged; the round returns true exactly when no selected, rebuilt record failed to send, so an empty batch returns true |
| MailQueue.RoundStep | MailQueue.php:94-109 | one round never lowers a record's attempts and never pushes them past `maxAttempts`; a sent or exhausted record is left exactly as it was |
| MailQueue.RoundsPreserve | MailQueue.php:94-109 | over any number of rounds no record is created or deleted, attempts never decrease and never exceed the larger of their start value and `maxAttempts`, and a sent or exhausted record is never changed again |
| MailQueue.DefaultAttemptsAtMostThree | MailQueue.php:66-71 | with the default settings, a record that entered the queue with no attempts is attempted at most three times over any number of rounds |
| MailQueue.LastFailureExhausts | MailQueue.php:94-106 | a record on its last allowed attempt whose resend fails stays unsent and is never eligible again |
| MailQueue.SendMessage | MailQueue.php:117-174 | the result is exactly the transport's verdict; a direct message appends exactly its audit record `AuditRecord(m, now)` when that passes validation and nothing otherwise; a non-direct message leaves the table unchanged; the audit record carries the message's `from`, `to`, `cc`, `bcc`, `reply_to` lists, subject and serialized message, `attempts = 1`, `time_to_send = now`, and `sent_time = last_attempt_time = now` whatever the outcome |
| MailQueue.ScanPartsBody | MailQueue.php:139-150 | after scanning the parts, the HTML (text) body is that of the last non-attachment `text/html` (`text/plain`) part, or unchanged when there is none |
| MailQueue.ScanPartsCharset | MailQueue.php:139-155 | a truthy starting charset is kept; otherwise the first truthy charset of a non-attachment part wins; if none is truthy, the last non-attachment part's charset is taken; with no such part the charset is unchanged |
| MailQueue.AuditRecordBodies | MailQueue.php:127-155 | the audit record's bodies come from the message's children, or from the message itself when it has none; its charset is the message's when that is truthy, the message has no children, or every child is an attachment; otherwise the first truthy charset of a non-attachment part; and when no such charset is truthy, the falsy charset of the last non-attachment part |

## Left out

- The SwiftMailer transport (`parent::sendMessage`) is the oracle `Env.transport`. It is a function of the message alone, so two identical messages in one round get the same verdict.
- `Message::toMessage`, `setDirectMessage` and `getDirectMessage` are not part of this model. Rebuilding is the oracle `Env.toMessage`; the resend copy is the message with `direct` set to false.
- Database plumbing (`getTableSchema`, `Queue::find`, `each()`, `updateAttributes`, `save`) is left out. The table is a sequence of records, and table existence is a boolean parameter. Validation of the audit record is the oracle `Env.validate`; a failed `save()` after successful validation is not modelled.
- PHP `serialize`/`base64_encode` and the string `'a:0:{}'` are left out. Address lists are sequences, and "not the empty array" is a length test. A `to` column holding a serialized null, which the SQL condition would let through, is not modelled.
- A throwing transport is not modelled: `Env.transport` always returns a verdict. In the code, an exception from SwiftMailer's transport (for example a rejected sender or DATA command) propagates out of `process()` before `$item->attempts++` (MailQueue.php:99-109). That attempt is not counted, the rest of the batch is skipped and the record stays at the head of later rounds. In `sendMessage` (MailQueue.php:158-171) no audit record is saved. `Process`, `Attempt` and `LastFailureExhausts` promise one counted attempt per rebuilt record only for a transport that returns.
- Exceptions from `toMessage`, `updateAttributes` and `save` are not modelled either; in the code each would abort the round or the send at that point.
- Dates and `NOW()` are one integer `now`. `date()` and the database clock are taken to agree.
- The `created_at` of an audit record is filled by the `Queue` model or the database, which are not part of this model; the model uses `now`.
- SQL leaves the order of rows with equal `created_at` open. The model breaks such ties by id.
- `mailsPerRound` is a natural number. A negative limit, which the query builder would drop, is not modelled.
- The exception message of the missing-table error is reduced to the table name.
- `BaseMailer::send` (events, file transport) is not part of this model. A round's `send` is modelled as `sendMessage` on the resend copy.
- Concurrent rounds, `init()` and dependency-injection wiring are out of scope. Rounds are sequential.
