/** The in-memory message handed to the mailer, as far as the queue looks into it. */
module Mail {

  type Address = string

  /** PHP truthiness of a string: only the empty string and "0" are false. */
  predicate Truthy(s: string) {
    s != "" && s != "0"
  }

  /** One MIME entity of a message: its content type, body and charset. */
  datatype Part = Part(attachment: bool, contentType: string, body: string, charset: string)

  /**
   * A message. `contentType`, `body` and `charset` describe the message's own
   * MIME entity; `children` are its sub-parts (empty for a single-part message).
   * `direct` is true when the message is sent immediately rather than resent
   * from the queue.
   */
  datatype Message = Message(
    from: seq<Address>,
    to: seq<Address>,
    cc: seq<Address>,
    bcc: seq<Address>,
    replyTo: seq<Address>,
    charset: string,
    subject: string,
    contentType: string,
    body: string,
    children: seq<Part>,
    direct: bool)

  /** The entities scanned for bodies: the children, or the message itself when it has none. */
  function Parts(m: Message): seq<Part> {
    if |m.children| == 0 then [Part(false, m.contentType, m.body, m.charset)] else m.children
  }

  /** The copy of a reconstructed message that the queue resends: never a direct message. */
  function Resend(m: Message): Message {
    m.(direct := false)
  }
}
