/** The responses the handler sends, with the socket layer removed: a
    status line with headers and a body, or `send_error`'s error page,
    which the HTTP framework writes. */
module Http {
  import opened Util

  datatype Response =
    | Reply(code: nat, headers: seq<(string, string)>, body: seq<byte>)
    | ErrorReply(code: nat, message: string)

  /** A `text/html` page, UTF-8 encoded, with `Content-Length` set to its
      length in bytes. */
  function HtmlReply(page: string): (r: Response)
    ensures r.Reply? && r.code == 200 && |r.headers| == 2
    ensures r.headers[0] == ("Content-type", "text/html")
    ensures r.headers[1].0 == "Content-Length" && Value(r.headers[1].1) == |r.body|
    ensures Utf8Decode(r.body) == Some(page)
  {
    var body := Utf8(page);
    ValueDecimal(|body|);
    Utf8DecodeEncode(page);
    Reply(200, [("Content-type", "text/html"), ("Content-Length", Decimal(|body|))], body)
  }
}
