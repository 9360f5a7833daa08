/** The server's constant tables: the default document, the redirect table
    and the status lines. */
module Config {
  import opened Text

  /** The code `handle_client_request` returns to ask the accept loop to stop. */
  const CLOSE_SERVER_STATUS_CODE := 1

  /** The document served for the resources "" and "/". */
  const DEFAULT_URL := "webroot/index.html"

  /** Resources answered with 302 Moved Temporarily, and where they point. */
  const REDIRECTION_DICTIONARY: map<string, string> := map[
    "webroot/home.html" := "webroot/index.html",
    "home" := "webroot/index.html",
    "home.html" := "webroot/index.html",
    "webroot/home" := "webroot/index.html"
  ]

  /** The status line for each code the server answers with. */
  const STATUS_CODE: map<int, string> := map[
    200 := "HTTP/1.1 200 OK\r\n",
    404 := "HTTP/1.1 404 Not Found\r\n",
    302 := "HTTP/1.1 302 Moved Temporarily\r\n",
    500 := "HTTP/1.1 500 Internal Server Error\r\n"
  ]

  /** No redirect target is itself redirected, so there are no redirect chains. */
  lemma NoRedirectChains()
    ensures forall url :: url in REDIRECTION_DICTIONARY ==> REDIRECTION_DICTIONARY[url] !in REDIRECTION_DICTIONARY
  {
  }

  /** The text of a three-digit code is its three digits. */
  lemma {:induction false} ThreeDigits(n: nat)
    requires 100 <= n < 1000
    ensures NatToString(n) == [DigitChar(n / 100), DigitChar(n / 10 % 10), DigitChar(n % 10)]
  {
    assert NatToString(n / 100) == [DigitChar(n / 100)];
    assert NatToString(n / 10) == NatToString(n / 100) + [DigitChar(n / 10 % 10)];
  }

  /** A line "HTTP/1.1 <digits> <reason>\r\n" whose parts carry no carriage return is a status line. */
  lemma {:induction false} StatusLineShape(code: nat, line: string, reason: string)
    requires line == "HTTP/1.1 " + NatToString(code) + " " + reason + "\r\n"
    requires '\r' !in NatToString(code) && '\r' !in reason
    ensures IsStatusLine(code, line)
  {
    var head := "HTTP/1.1 " + NatToString(code) + " ";
    assert line[..|head|] == head;
    assert line[..|line| - 2] == head + reason;
  }

  /** `line` is "HTTP/1.1 <code> <reason>\r\n", with no other carriage return. */
  predicate IsStatusLine(code: int, line: string) {
    && 0 <= code
    && StartsWith(line, "HTTP/1.1 " + NatToString(code) + " ")
    && |line| >= 2 && line[|line| - 2..] == "\r\n"
    && '\r' !in line[..|line| - 2]
  }

  /** A table entry spelled out as "HTTP/1.1 " + three digits + " " + reason + "\r\n" is a status line. */
  lemma {:induction false} StatusLineOf(code: nat, reason: string)
    requires 100 <= code < 1000 && code in STATUS_CODE
    requires STATUS_CODE[code] ==
      "HTTP/1.1 " + [DigitChar(code / 100), DigitChar(code / 10 % 10), DigitChar(code % 10)] + " " + reason + "\r\n"
    requires '\r' !in reason
    ensures IsStatusLine(code, STATUS_CODE[code])
  {
    ThreeDigits(code);
    StatusLineShape(code, STATUS_CODE[code], reason);
  }

  lemma StatusLine200() ensures IsStatusLine(200, STATUS_CODE[200]) { StatusLineOf(200, "OK"); }
  lemma StatusLine404() ensures IsStatusLine(404, STATUS_CODE[404]) { StatusLineOf(404, "Not Found"); }
  lemma StatusLine302() ensures IsStatusLine(302, STATUS_CODE[302]) { StatusLineOf(302, "Moved Temporarily"); }
  lemma StatusLine500() ensures IsStatusLine(500, STATUS_CODE[500]) { StatusLineOf(500, "Internal Server Error"); }

  /** Every entry of the status table is the status line of its own code. */
  lemma StatusLinesWellFormed()
    ensures forall code :: code in STATUS_CODE ==> IsStatusLine(code, STATUS_CODE[code])
  {
    StatusLine200();
    StatusLine404();
    StatusLine302();
    StatusLine500();
  }
}
