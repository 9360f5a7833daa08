/** The header block `get_http_header` builds: a Date line, a Content-Length
    line, and then, for a recognised file type, a Content-Type line (plus an
    Accept-Ranges line for images) and the blank line that ends the headers.
    An unrecognised type gets neither the Content-Type line nor the blank line.
    The clock reading is the `date` parameter. */
module Header {
  import opened Text

  /** The file type `get_http_header` reads off a URL: the text after its last '.', "html" for no URL. */
  function FileType(url: string): string {
    if url == "" then "html" else AfterLast(url, '.')
  }

  /** A URL's file type is the text after its last dot. */
  lemma FileTypeOf(stem: string, extension: string)
    requires '.' !in extension
    ensures FileType(stem + ['.'] + extension) == extension
  {
    AfterLastOf(stem, '.', extension);
  }

  /** What `get_http_header` appends after the Content-Length line for a file type. */
  function ContentTypeLines(fileType: string): string {
    var acceptBytes := "Accept-Ranges: bytes\r\n\r\n";
    if fileType == "html" || fileType == "txt" then "Content-Type: text/html\r\n\r\n"
    else if fileType == "css" then "Content-Type: text/css\r\n\r\n"
    else if fileType == "js" then "Content-Type: text/javascript\r\n\r\n"
    else if fileType == "jpg" then "Content-Type: image/jpeg\r\n" + acceptBytes
    else if fileType == "png" then "Content-Type: image/png\r\n" + acceptBytes
    else if fileType == "ico" then "Content-Type: image/icon\r\n" + acceptBytes
    else if fileType == "gif" then "Content-Type: image/gif\r\n" + acceptBytes
    else ""
  }

  /** `get_http_header(content_length, url)` with the formatted clock reading `date`. */
  function HttpHeader(contentLength: nat, url: string, date: string): string {
    "Date: " + date + "\r\n" + "Content-Length: " + NatToString(contentLength) + "\r\n"
      + ContentTypeLines(FileType(url))
  }

  /** The content type announced for each recognised file type. */
  const CONTENT_TYPES: map<string, string> := map[
    "html" := "text/html", "txt" := "text/html", "css" := "text/css", "js" := "text/javascript",
    "jpg" := "image/jpeg", "png" := "image/png", "ico" := "image/icon", "gif" := "image/gif"
  ]

  /** The file types that are also announced with "Accept-Ranges: bytes". */
  const RANGED_TYPES: set<string> := {"jpg", "png", "ico", "gif"}

  /** The lines appended for a type, read off the tables: known types get their Content-Type line,
      images an Accept-Ranges line, and both a blank line; unknown types get nothing. */
  function TableLines(fileType: string): string {
    if fileType in CONTENT_TYPES then
      "Content-Type: " + CONTENT_TYPES[fileType] + "\r\n"
        + (if fileType in RANGED_TYPES then "Accept-Ranges: bytes\r\n" else "") + "\r\n"
    else ""
  }

  lemma TextRow(fileType: string, contentType: string)
    requires fileType in CONTENT_TYPES && fileType !in RANGED_TYPES && CONTENT_TYPES[fileType] == contentType
    requires ContentTypeLines(fileType) == "Content-Type: " + contentType + "\r\n" + "\r\n"
    ensures ContentTypeLines(fileType) == TableLines(fileType)
  {
    assert "" + "\r\n" == "\r\n";
  }

  lemma TextRows(fileType: string)
    requires fileType in CONTENT_TYPES && fileType !in RANGED_TYPES
    ensures ContentTypeLines(fileType) == TableLines(fileType)
  {
    if fileType == "html" || fileType == "txt" {
      assert "Content-Type: text/html\r\n\r\n" == "Content-Type: " + "text/html" + "\r\n" + "\r\n";
      TextRow(fileType, "text/html");
    } else if fileType == "css" {
      assert "Content-Type: text/css\r\n\r\n" == "Content-Type: " + "text/css" + "\r\n" + "\r\n";
      TextRow(fileType, "text/css");
    } else {
      assert "Content-Type: text/javascript\r\n\r\n" == "Content-Type: " + "text/javascript" + "\r\n" + "\r\n";
      TextRow(fileType, "text/javascript");
    }
  }

  lemma ImageRow(fileType: string, contentType: string)
    requires fileType in RANGED_TYPES && CONTENT_TYPES[fileType] == contentType
    requires ContentTypeLines(fileType) == "Content-Type: " + contentType + "\r\n" + "Accept-Ranges: bytes\r\n\r\n"
    ensures ContentTypeLines(fileType) == TableLines(fileType)
  {
    assert "Accept-Ranges: bytes\r\n\r\n" == "Accept-Ranges: bytes\r\n" + "\r\n";
  }

  lemma ImageRows(fileType: string)
    requires fileType in RANGED_TYPES
    ensures ContentTypeLines(fileType) == TableLines(fileType)
  {
    if fileType == "jpg" {
      assert "Content-Type: image/jpeg\r\n" == "Content-Type: " + "image/jpeg" + "\r\n";
      ImageRow(fileType, "image/jpeg");
    } else if fileType == "png" {
      assert "Content-Type: image/png\r\n" == "Content-Type: " + "image/png" + "\r\n";
      ImageRow(fileType, "image/png");
    } else if fileType == "ico" {
      assert "Content-Type: image/icon\r\n" == "Content-Type: " + "image/icon" + "\r\n";
      ImageRow(fileType, "image/icon");
    } else {
      assert "Content-Type: image/gif\r\n" == "Content-Type: " + "image/gif" + "\r\n";
      ImageRow(fileType, "image/gif");
    }
  }

  /** The if-chain of `get_http_header` agrees with the tables for every file type. */
  lemma ContentTypeLinesTable(fileType: string)
    ensures ContentTypeLines(fileType) == TableLines(fileType)
  {
    if fileType in RANGED_TYPES {
      ImageRows(fileType);
    } else if fileType in CONTENT_TYPES {
      TextRows(fileType);
    }
  }

  // ---------------------------------------------------------------------
  // Reading a header block back

  /** The value of the first line "name: value" among `lines`. */
  function FieldIn(lines: seq<string>, name: string): Option<string> {
    if lines == [] then None
    else if StartsWith(lines[0], name + ": ") then Some(lines[0][|name| + 2..])
    else FieldIn(lines[1..], name)
  }

  /** The value of header `name` in the text `head`, as a client reads it. */
  function Field(head: string, name: string): Option<string> {
    FieldIn(Lines(head), name)
  }

  /** The length a client reads from the Content-Length header of `head`. */
  function DeclaredLength(head: string): Option<nat> {
    match Field(head, "Content-Length")
    case Some(v) => if IsNumeric(v) then Some(ParseNat(v)) else None
    case None => None
  }

  /** A header line for another field does not hide the fields after it. */
  lemma FieldAfter(line: string, rest: string, name: string)
    requires '\r' !in line && !StartsWith(line, name + ": ")
    ensures Field(line + "\r\n" + rest, name) == Field(rest, name)
  {
    CRFreeIsSingleLine(line);
    LinesCons(line, rest);
  }

  /** The first line "name: value" gives the value. */
  lemma FieldAt(name: string, value: string, rest: string)
    requires '\r' !in name + ": " + value
    ensures Field(name + ": " + value + "\r\n" + rest, name) == Some(value)
  {
    var line := name + ": " + value;
    CRFreeIsSingleLine(line);
    LinesCons(line, rest);
    assert line[..|name + ": "|] == name + ": ";
    assert line[|name| + 2..] == value;
  }

  /** Lines that differ from "name: " at some position are not a `name` field. */
  lemma NotField(line: string, name: string, k: nat)
    requires k < |line| && k < |name| + 2 && line[k] != (name + ": ")[k]
    ensures !StartsWith(line, name + ": ")
  {
  }

  lemma ContentTypesHaveNoCR(fileType: string)
    requires fileType in CONTENT_TYPES
    ensures '\r' !in CONTENT_TYPES[fileType]
  {
  }

  /** The Date and Content-Length lines read back as the date and the length. */
  lemma LeadingFields(contentLength: nat, date: string, types: string)
    requires '\r' !in date
    ensures var head := "Date: " + date + "\r\n" + "Content-Length: " + NatToString(contentLength) + "\r\n" + types;
      Field(head, "Date") == Some(date) && DeclaredLength(head) == Some(contentLength)
  {
    var digits := NatToString(contentLength);
    var lengthLine := "Content-Length: " + digits;
    var dateLine := "Date: " + date;
    var afterDate := lengthLine + "\r\n" + types;
    var head := "Date: " + date + "\r\n" + "Content-Length: " + digits + "\r\n" + types;
    assert head == dateLine + "\r\n" + afterDate;
    assert '\r' !in digits;
    assert "Date" + ": " + date == dateLine;
    FieldAt("Date", date, afterDate);
    NotField(dateLine, "Content-Length", 0);
    FieldAfter(dateLine, afterDate, "Content-Length");
    assert "Content-Length" + ": " + digits == lengthLine;
    FieldAt("Content-Length", digits, types);
    ParseNatOfNatToString(contentLength);
    assert Field(head, "Content-Length") == Some(digits);
  }

  /** The Date and Content-Length lines do not hide the Content-Type and Accept-Ranges fields after them. */
  lemma LaterFields(contentLength: nat, date: string, types: string, name: string)
    requires '\r' !in date
    requires name == "Content-Type" || name == "Accept-Ranges"
    ensures var head := "Date: " + date + "\r\n" + "Content-Length: " + NatToString(contentLength) + "\r\n" + types;
      Field(head, name) == Field(types, name)
  {
    var digits := NatToString(contentLength);
    var lengthLine := "Content-Length: " + digits;
    var dateLine := "Date: " + date;
    var afterDate := lengthLine + "\r\n" + types;
    var head := "Date: " + date + "\r\n" + "Content-Length: " + digits + "\r\n" + types;
    assert head == dateLine + "\r\n" + afterDate;
    assert '\r' !in digits;
    NotField(dateLine, name, 0);
    FieldAfter(dateLine, afterDate, name);
    NotField(lengthLine, name, if name == "Content-Type" then 8 else 0);
    FieldAfter(lengthLine, types, name);
  }

  /** The optional Accept-Ranges line and the blank line read back as byte ranges exactly when present. */
  lemma RangesField(ranged: bool)
    ensures var ranges := if ranged then "Accept-Ranges: bytes\r\n" else "";
      Field(ranges + "\r\n", "Accept-Ranges") == (if ranged then Some("bytes") else None)
  {
    if ranged {
      assert "Accept-Ranges: bytes\r\n" + "\r\n" == "Accept-Ranges" + ": " + "bytes" + "\r\n" + "\r\n";
      FieldAt("Accept-Ranges", "bytes", "\r\n");
    } else {
      assert "" + "\r\n" == "\r\n";
      assert Lines("\r\n") == ["", ""];
      assert !StartsWith("", "Accept-Ranges: ");
    }
  }

  /** A Content-Type line, an optional Accept-Ranges line and a blank line read back as that type and,
      when present, byte ranges. */
  lemma TypeLinesFields(contentType: string, ranged: bool)
    requires '\r' !in contentType
    ensures var ranges := if ranged then "Accept-Ranges: bytes\r\n" else "";
      var types := "Content-Type: " + contentType + "\r\n" + ranges + "\r\n";
      && Field(types, "Content-Type") == Some(contentType)
      && Field(types, "Accept-Ranges") == (if ranged then Some("bytes") else None)
  {
    var ranges := if ranged then "Accept-Ranges: bytes\r\n" else "";
    var typeLine := "Content-Type: " + contentType;
    var types := "Content-Type: " + contentType + "\r\n" + ranges + "\r\n";
    assert types == "Content-Type" + ": " + contentType + "\r\n" + (ranges + "\r\n");
    FieldAt("Content-Type", contentType, ranges + "\r\n");
    assert types == typeLine + "\r\n" + (ranges + "\r\n");
    NotField(typeLine, "Accept-Ranges", 0);
    FieldAfter(typeLine, ranges + "\r\n", "Accept-Ranges");
    RangesField(ranged);
  }

  /** The lines appended for a file type announce its table content type, and byte ranges for images. */
  lemma TypeFields(fileType: string)
    ensures Field(ContentTypeLines(fileType), "Content-Type") ==
      if fileType in CONTENT_TYPES then Some(CONTENT_TYPES[fileType]) else None
    ensures Field(ContentTypeLines(fileType), "Accept-Ranges") ==
      if fileType in RANGED_TYPES then Some("bytes") else None
  {
    ContentTypeLinesTable(fileType);
    if fileType in CONTENT_TYPES {
      ContentTypesHaveNoCR(fileType);
      TypeLinesFields(CONTENT_TYPES[fileType], fileType in RANGED_TYPES);
    } else {
      assert ContentTypeLines(fileType) == "";
      assert Lines("") == [""];
      assert !StartsWith("", "Content-Type: ") && !StartsWith("", "Accept-Ranges: ");
      assert fileType !in RANGED_TYPES;
      assert Field("", "Content-Type") == None && Field("", "Accept-Ranges") == None;
    }
  }

  /** The header block ends with a blank line exactly when the file type is recognised. */
  lemma HeaderEnd(contentLength: nat, url: string, date: string)
    ensures EndsWith(HttpHeader(contentLength, url, date), "\r\n\r\n") <==> FileType(url) in CONTENT_TYPES
  {
    var fileType := FileType(url);
    var digits := NatToString(contentLength);
    var head := HttpHeader(contentLength, url, date);
    ContentTypeLinesTable(fileType);
    if fileType in CONTENT_TYPES {
      assert head[|head| - 4..] == "\r\n\r\n";
    } else {
      var front := "Date: " + date + "\r\n" + "Content-Length: " + digits;
      assert head == front + "\r\n";
      assert head[|head| - 4] != '\r' by {
        if |digits| >= 2 {
          assert head[|head| - 4] == digits[|digits| - 2];
        } else {
          assert head[|head| - 4] == ' ';
        }
      }
    }
  }

  /** What a client reads from a header block: the date, the length it was given, the content type
      of the URL's file type (none for an unknown type), Accept-Ranges for images only, and a
      terminating blank line exactly for the recognised types. */
  lemma HeaderFields(contentLength: nat, url: string, date: string)
    requires '\r' !in date
    ensures var head, fileType := HttpHeader(contentLength, url, date), FileType(url);
      && Field(head, "Date") == Some(date)
      && DeclaredLength(head) == Some(contentLength)
      && Field(head, "Content-Type") == (if fileType in CONTENT_TYPES then Some(CONTENT_TYPES[fileType]) else None)
      && Field(head, "Accept-Ranges") == (if fileType in RANGED_TYPES then Some("bytes") else None)
      && (EndsWith(head, "\r\n\r\n") <==> fileType in CONTENT_TYPES)
  {
    var types := ContentTypeLines(FileType(url));
    LeadingFields(contentLength, date, types);
    LaterFields(contentLength, date, types, "Content-Type");
    LaterFields(contentLength, date, types, "Accept-Ranges");
    TypeFields(FileType(url));
    HeaderEnd(contentLength, url, date);
  }
}
