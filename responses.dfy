/** The four response framers `ok`, `not_found`, `moved_temporarily` and
    `internal_server_error`. Each one builds a status line, a header block and
    a body, hands them to the socket and returns its status code; here each
    returns the response it would send. The files it can read are the
    `FileSystem` map (a path is a file exactly when it is a key, and reading it
    gives the value) and the clock reading is the `date` parameter. */
module Responses {
  import opened Text
  import opened Config
  import opened Header

  /** The files the server can read: path to contents. */
  type FileSystem = map<string, seq<Byte>>

  /** A response: the status code the framer returns, the header text it
      encodes and the bytes it sends after that text. */
  datatype Response = Response(code: int, head: string, body: seq<Byte>) {
    /** The bytes written to the socket. */
    function Bytes(): seq<Byte> {
      Encode(head) + body
    }
  }

  /** `not_found`: 404 with the fixed body "404 Not Found\r\n". */
  function NotFound(date: string): Response {
    var message := "404 Not Found\r\n";
    Response(404, STATUS_CODE[404] + HttpHeader(|message|, "", date), Encode(message))
  }

  /** `ok(data, url)`: 200 with `data`, or, when a URL is given without data, with that file's contents.
      The router only calls it for a URL that is a file, and `get_file_data` fails on any other. */
  function Ok(data: seq<Byte>, url: string, fs: FileSystem, date: string): Response
    requires url != "" && data == [] ==> url in fs
  {
    var sent := if url != "" && data == [] then fs[url] else data;
    Response(200, STATUS_CODE[200] + HttpHeader(|sent|, url, date), sent)
  }

  /** The Location line `moved_temporarily` sends for a redirect target. */
  function LocationLine(target: string): string {
    "Location: http://" + target
  }

  /** `moved_temporarily(url)`: 302 pointing at the redirect target and carrying its contents,
      or the 404 response when the target is not a file. */
  function MovedTemporarily(url: string, fs: FileSystem, date: string): Response
    requires url in REDIRECTION_DICTIONARY
  {
    var target := REDIRECTION_DICTIONARY[url];
    if target !in fs then NotFound(date)
    else
      var data := fs[target];
      Response(302, STATUS_CODE[302] + LocationLine(target) + "\r\n" + HttpHeader(|data|, target, date), data)
  }

  /** `internal_server_error(message)`: 500 with the message as body; Content-Length counts its characters. */
  function InternalServerError(message: string, date: string): Response {
    Response(500, STATUS_CODE[500] + HttpHeader(|message|, "", date), Encode(message))
  }

  // ---------------------------------------------------------------------
  // Framing

  /** A response that starts with the status line of its own code and whose Content-Length is the
      number of body bytes. Whether the header block is ended by a blank line is stated separately
      (`EndsWith(r.head, "\r\n\r\n")`): it is not, for a file of unrecognised type. */
  predicate WellFramed(r: Response) {
    && r.code in STATUS_CODE
    && StartsWith(r.head, STATUS_CODE[r.code])
    && DeclaredLength(r.head) == Some(|r.body|)
  }

  /** A header name not starting with 'H' is not found on a status line, so the fields after it are read as before. */
  lemma AfterStatusLine(code: int, rest: string, name: string)
    requires code in STATUS_CODE
    requires |name| > 0 && name[0] != 'H'
    ensures Field(STATUS_CODE[code] + rest, name) == Field(rest, name)
  {
    StatusLinesWellFormed();
    var line := STATUS_CODE[code];
    var text := line[..|line| - 2];
    assert line == text + "\r\n";
    assert text[0] == line[0] == 'H';
    NotField(text, name, 0);
    FieldAfter(text, rest, name);
    assert line + rest == text + "\r\n" + rest;
  }

  /** A status line followed by a header block: the status line opens the text, and the fields are
      those of the header block. */
  lemma StatusThenHeader(code: int, contentLength: nat, url: string, date: string)
    requires code in STATUS_CODE && '\r' !in date
    ensures var head, fileType := STATUS_CODE[code] + HttpHeader(contentLength, url, date), FileType(url);
      && StartsWith(head, STATUS_CODE[code])
      && Field(head, "Date") == Some(date)
      && DeclaredLength(head) == Some(contentLength)
      && Field(head, "Content-Type") == (if fileType in CONTENT_TYPES then Some(CONTENT_TYPES[fileType]) else None)
      && Field(head, "Accept-Ranges") == (if fileType in RANGED_TYPES then Some("bytes") else None)
      && (EndsWith(head, "\r\n\r\n") <==> fileType in CONTENT_TYPES)
  {
    var header := HttpHeader(contentLength, url, date);
    var head := STATUS_CODE[code] + header;
    HeaderFields(contentLength, url, date);
    AfterStatusLine(code, header, "Date");
    AfterStatusLine(code, header, "Content-Length");
    AfterStatusLine(code, header, "Content-Type");
    AfterStatusLine(code, header, "Accept-Ranges");
    assert head[..|STATUS_CODE[code]|] == STATUS_CODE[code];
    assert head[|head| - 4..] == header[|header| - 4..] by {
      HeaderLongerThanFour(contentLength, url, date);
    }
  }

  /** Whatever precedes a header block, the whole ends with a blank line exactly when the block's
      file type is recognised. */
  lemma HeaderEndAfter(prefix: string, contentLength: nat, url: string, date: string)
    ensures EndsWith(prefix + HttpHeader(contentLength, url, date), "\r\n\r\n") <==> FileType(url) in CONTENT_TYPES
  {
    var header := HttpHeader(contentLength, url, date);
    var head := prefix + header;
    HeaderEnd(contentLength, url, date);
    HeaderLongerThanFour(contentLength, url, date);
    assert head[|head| - 4..] == header[|header| - 4..];
  }

  /** A header block is longer than the blank line that may end it. */
  lemma HeaderLongerThanFour(contentLength: nat, url: string, date: string)
    ensures |HttpHeader(contentLength, url, date)| >= 4
  {
  }

  /** The header of a response whose body is a message: a header block with no URL after the status
      line, so Content-Length is the message's length in characters, the type is text/html and the
      header is ended by a blank line. */
  lemma MessageHeader(code: int, message: string, date: string)
    requires code in STATUS_CODE && '\r' !in date
    ensures var head := STATUS_CODE[code] + HttpHeader(|message|, "", date);
      && StartsWith(head, STATUS_CODE[code])
      && DeclaredLength(head) == Some(|message|)
      && Field(head, "Content-Type") == Some("text/html")
      && EndsWith(head, "\r\n\r\n")
  {
    StatusThenHeader(code, |message|, "", date);
    assert FileType("") == "html";
  }

  /** The bytes of a response carrying an encoded message are the encoding of header and message together. */
  lemma MessageBytes(code: int, head: string, message: string)
    ensures Response(code, head, Encode(message)).Bytes() == Encode(head + message)
  {
    EncodeAppend(head, message);
  }

  /** A response carrying an encoded ASCII message is well framed. */
  lemma MessageFraming(code: int, message: string, date: string)
    requires code in STATUS_CODE && '\r' !in date
    ensures var r := Response(code, STATUS_CODE[code] + HttpHeader(|message|, "", date), Encode(message));
      IsAscii(message) ==> WellFramed(r)
  {
    MessageHeader(code, message, date);
    if IsAscii(message) {
      EncodeAscii(message);
    }
  }

  /** The 404 response: Content-Length 15, type text/html, the header ended by a blank line, the body
      "404 Not Found\r\n", and the whole of it the encoding of one text. */
  lemma NotFoundFraming(date: string)
    requires '\r' !in date
    ensures var r := NotFound(date);
      && r.code == 404 && WellFramed(r)
      && DeclaredLength(r.head) == Some(15)
      && Field(r.head, "Content-Type") == Some("text/html")
      && EndsWith(r.head, "\r\n\r\n")
      && r.body == Encode("404 Not Found\r\n")
      && r.Bytes() == Encode(r.head + "404 Not Found\r\n")
  {
    var message := "404 Not Found\r\n";
    assert |message| == 15 && IsAscii(message);
    MessageHeader(404, message, date);
    MessageFraming(404, message, date);
    MessageBytes(404, NotFound(date).head, message);
  }

  /** Every 200 response is framed by the length of what it sends and typed by its URL's extension. */
  lemma OkFraming(data: seq<Byte>, url: string, fs: FileSystem, date: string)
    requires url != "" && data == [] ==> url in fs
    requires '\r' !in date
    ensures var r, fileType := Ok(data, url, fs, date), FileType(url);
      && r.code == 200 && WellFramed(r)
      && Field(r.head, "Content-Type") == (if fileType in CONTENT_TYPES then Some(CONTENT_TYPES[fileType]) else None)
      && (EndsWith(r.head, "\r\n\r\n") <==> fileType in CONTENT_TYPES)
  {
    var r := Ok(data, url, fs, date);
    StatusThenHeader(200, |r.body|, url, date);
  }

  /** Asked for a file by URL, `ok` sends exactly that file. */
  lemma OkServesFile(url: string, fs: FileSystem, date: string)
    requires url in fs && url != ""
    ensures Ok([], url, fs, date).body == fs[url]
  {
  }

  /** Given data and no URL, `ok` sends exactly the data, announced as text/html. */
  lemma OkServesData(data: seq<Byte>, fs: FileSystem, date: string)
    requires '\r' !in date
    ensures var r := Ok(data, "", fs, date);
      r.body == data && Field(r.head, "Content-Type") == Some("text/html") && EndsWith(r.head, "\r\n\r\n")
  {
    OkFraming(data, "", fs, date);
    assert FileType("") == "html";
  }

  /** The Location line carries "http://" and the target, and the fields after it are read as before. */
  lemma LocationFields(target: string, rest: string, name: string)
    requires '\r' !in target
    requires |name| > 0 && name[0] != 'L'
    ensures Field(LocationLine(target) + "\r\n" + rest, "Location") == Some("http://" + target)
    ensures Field(LocationLine(target) + "\r\n" + rest, name) == Field(rest, name)
  {
    assert LocationLine(target) == "Location" + ": " + ("http://" + target);
    FieldAt("Location", "http://" + target, rest);
    NotField(LocationLine(target), name, 0);
    FieldAfter(LocationLine(target), rest, name);
  }

  /** The Location line followed by a target's header block: the Location field, and the length and
      type fields of the header block. */
  lemma LocatedHeader(target: string, contentLength: nat, date: string)
    requires '\r' !in target && '\r' !in date
    ensures var located, fileType := LocationLine(target) + "\r\n" + HttpHeader(contentLength, target, date), FileType(target);
      && Field(located, "Location") == Some("http://" + target)
      && DeclaredLength(located) == Some(contentLength)
      && Field(located, "Content-Type") == (if fileType in CONTENT_TYPES then Some(CONTENT_TYPES[fileType]) else None)
  {
    var header := HttpHeader(contentLength, target, date);
    HeaderFields(contentLength, target, date);
    LocationFields(target, header, "Content-Length");
    LocationFields(target, header, "Content-Type");
  }

  /** A 302 for a target: well framed by the target's length, with Location "http://" + target (no
      host) and the Content-Type of the target's extension. */
  lemma RedirectFraming(target: string, data: seq<Byte>, date: string)
    requires '\r' !in target && '\r' !in date
    ensures var r, fileType := Response(302, STATUS_CODE[302] + LocationLine(target) + "\r\n" + HttpHeader(|data|, target, date), data), FileType(target);
      && WellFramed(r)
      && Field(r.head, "Location") == Some("http://" + target)
      && Field(r.head, "Content-Type") == (if fileType in CONTENT_TYPES then Some(CONTENT_TYPES[fileType]) else None)
      && (EndsWith(r.head, "\r\n\r\n") <==> fileType in CONTENT_TYPES)
  {
    var located := LocationLine(target) + "\r\n" + HttpHeader(|data|, target, date);
    var head := STATUS_CODE[302] + LocationLine(target) + "\r\n" + HttpHeader(|data|, target, date);
    LocatedHeader(target, |data|, date);
    assert head == STATUS_CODE[302] + located;
    AfterStatusLine(302, located, "Location");
    AfterStatusLine(302, located, "Content-Length");
    AfterStatusLine(302, located, "Content-Type");
    assert head[..|STATUS_CODE[302]|] == STATUS_CODE[302];
    HeaderEndAfter(STATUS_CODE[302] + LocationLine(target) + "\r\n", |data|, target, date);
  }

  /** A redirect whose target is missing is the 404 response; otherwise it is a 302 with Location
      "http://" + target (no host), the target's contents as body, and the target's length and type. */
  lemma MovedTemporarilyFraming(url: string, fs: FileSystem, date: string)
    requires url in REDIRECTION_DICTIONARY && '\r' !in date
    ensures var r, target := MovedTemporarily(url, fs, date), REDIRECTION_DICTIONARY[url];
      if target !in fs then r == NotFound(date)
      else
        && r.code == 302 && WellFramed(r)
        && Field(r.head, "Location") == Some("http://" + target)
        && r.body == fs[target]
        && Field(r.head, "Content-Type") == Some("text/html")
        && EndsWith(r.head, "\r\n\r\n")
  {
    var target := REDIRECTION_DICTIONARY[url];
    if target in fs {
      RedirectTargetIsHtml(url);
      RedirectFraming(target, fs[target], date);
    }
  }

  /** Every redirect target is an HTML page whose name has no carriage return. */
  lemma RedirectTargetIsHtml(url: string)
    requires url in REDIRECTION_DICTIONARY
    ensures FileType(REDIRECTION_DICTIONARY[url]) == "html" && '\r' !in REDIRECTION_DICTIONARY[url]
  {
    assert REDIRECTION_DICTIONARY[url] == DEFAULT_URL;
    DefaultUrlIsHtml();
    DefaultUrlHasNoCR();
  }

  /** The default document's extension is "html". */
  lemma DefaultUrlIsHtml()
    ensures FileType(DEFAULT_URL) == "html"
  {
    var stem, extension := "webroot/index", "html";
    assert DEFAULT_URL == stem + ['.'] + extension;
    FileTypeOf(stem, extension);
  }

  /** The default document's name has no carriage return, so it fits on a header line. */
  lemma DefaultUrlHasNoCR()
    ensures '\r' !in DEFAULT_URL
  {
  }

  /** A 500 response announces the message's length in characters and sends the message's encoding,
      as one encoded text; for an ASCII message the two lengths agree and the response is well framed. */
  lemma InternalServerErrorFraming(message: string, date: string)
    requires '\r' !in date
    ensures var r := InternalServerError(message, date);
      && r.code == 500
      && StartsWith(r.head, STATUS_CODE[500])
      && DeclaredLength(r.head) == Some(|message|)
      && Field(r.head, "Content-Type") == Some("text/html")
      && EndsWith(r.head, "\r\n\r\n")
      && r.Bytes() == Encode(r.head + message)
      && (IsAscii(message) ==> WellFramed(r))
  {
    MessageHeader(500, message, date);
    MessageFraming(500, message, date);
    MessageBytes(500, InternalServerError(message, date).head, message);
  }
}
