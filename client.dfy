/** The hosted language model as the rest of app.py sees it. The network
    call itself is not modelled: each call is represented by the reply it
    produced, supplied as an input. */
module Client {

  /** What one `generate_content` call yields to its caller: a response
      whose `text` is available, a response without a `text` attribute, or
      an exception (raised by the call or by reading the response). */
  datatype Reply = Text(text: string) | NoText | Raised

  /** `getattr(response, "text", missing)` evaluated inside a `try` whose
      handler produces `failed`. */
  function Resolve(reply: Reply, missing: string, failed: string): (s: string)
    ensures reply.Text? ==> s == reply.text
    ensures reply.NoText? ==> s == missing
    ensures reply.Raised? ==> s == failed
  {
    match reply
    case Text(t) => t
    case NoText => missing
    case Raised => failed
  }
}
