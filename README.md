# http_server request/response engine in Dafny

This project models the part of `http_server.py` that turns request text into a response. It covers five pieces:

- the request-line check `validate_http_request`;
- the routing chain of `handle_client_request`: it normalises the resource, handles the `exit` escape hatch, adds the `webroot/` prefix and then picks redirect, area endpoint, 404 or 200, in that order;
- the area endpoint `calculate_area`;
- the header builder `get_http_header`;
- the four response framers `ok`, `not_found`, `moved_temporarily` and `internal_server_error`, together with the constant tables they read.

Everything is written as pure functions:

- Each framer returns a `Response` value: the code, the header text and the body bytes. Its `Bytes()` are the UTF-8 encoding of the header followed by the body, which is what `sendall` is given.
- `handle_client_request` returns an `Outcome`: either the server-stop code or the response it sent. `Outcome.Code()` is the integer the Python function returns.
- The filesystem is a map from path to file contents. A path is a file when it is a key, and reading it gives the value.
- The formatted clock reading is a `date` parameter.
- The Python string primitives the code uses are defined in module `Text`. `startswith`, `endswith`, `in` and `isnumeric` are one-line definitions. `split(sep)`, `split('\r\n')`, whitespace `split()`, `strip`, `int`, `str` on naturals and `encode` each come with lemmas about them.
- A response is *well framed* (`Responses.WellFramed`) when it starts with the status line of its own code and its Content-Length is the number of body bytes. Whether its header is ended by the blank line that separates it from the body is stated separately, because for a file of unrecognised type it is not (`Router.HeaderEndsUnlessUnknownType`).

Modules follow the program's structure:

| module | contents |
|---|---|
| `Text` | the string primitives |
| `Config` | the constants `CLOSE_SERVER_STATUS_CODE`, `DEFAULT_URL`, `REDIRECTION_DICTIONARY` and `STATUS_CODE` of http_server.py:18-31, with the same values |
| `Request` | the validator |
| `Header` | `get_http_header`, plus a reader `Field` for header values, used to state what a client reads back |
| `Responses` | the framers and the predicate `WellFramed` |
| `Area` | `calculate_area` |
| `Router` | `handle_client_request` |

## Model

| member | source | states |
|---|---|---|
| Request.ValidateHttpRequest | http_server.py:89-105 | A refused request carries the empty URL. An accepted one carries a non-empty, whitespace-free URL that is one of the whitespace-separated tokens of the first line. |
| Request.ValidateIgnoresRest | http_server.py:94 | Text after the first "\r\n" never changes the verdict or the URL. |
| Request.ValidateRequestLine | http_server.py:94-105 | For a first line of whitespace-free tokens separated by single spaces, the request is accepted exactly when the first token starts with "GET", there are three tokens and the third contains "HTTP". The URL is then the second token; otherwise the result is (false, ""). |
| Request.AcceptsGetRequest | http_server.py:94-105 | "GET url version\r\n..." with a version containing "HTTP" is accepted with that url, whatever follows. |
| Request.AcceptsLoneCarriageReturn | http_server.py:94-105 | "GET " + url + "\r" + version is accepted with that URL: a lone '\r' does not end the first line, and `split()` treats it as whitespace. |
| Request.AcceptsAnyMethodStartingWithGet | http_server.py:95 | The method test is a prefix test: a first token such as "GETX" is accepted. |
| Request.RejectsOtherMethods | http_server.py:95-96 | A line of three tokens separated by single spaces, whose first token does not start with "GET", is refused with (false, ""). |
| Request.RejectsMissingVersion | http_server.py:98-100 | "GET <url>" with no version token is refused. |
| Request.RejectsNonHttpVersion | http_server.py:101-102 | A line of three tokens separated by single spaces, whose first token is exactly "GET" and whose third token has no "HTTP", is refused. |
| Request.RejectsLeadingWhitespace | http_server.py:94-96 | A first line starting with whitespace is refused even though `split()` would drop that whitespace. |
| Request.ValidateWords | http_server.py:94-105 | For any first line without a line break ("\r\n"), including tabs, lone carriage returns, runs of spaces and trailing whitespace, the request is accepted exactly when the line does not start with whitespace, its whitespace-separated tokens are three, the first starts with "GET" and the third contains "HTTP". The URL is then the second token; otherwise the result is (false, ""). |
| Request.StartsWithGetToken | http_server.py:95-98 | A line not starting with whitespace starts with "GET" exactly when its first token does. |
| Request.StartsWithGet | http_server.py:95 | A line of space-joined words starts with "GET" exactly when its first word does. |
| Config.NoRedirectChains | http_server.py:20-25 | No redirect target is itself a key of the redirect table. |
| Config.StatusLinesWellFormed | http_server.py:26-31 | Every status-table entry is "HTTP/1.1 <its own code> <reason>\r\n" with no other carriage return. |
| Config.StatusLineOf | http_server.py:26-31 | An entry spelled as "HTTP/1.1 " + three digits + " " + reason + "\r\n" is the status line of its code. |
| Header.FileTypeOf | http_server.py:211 | The file type of "stem.ext" (ext without a dot) is ext. |
| Header.ContentTypeLinesTable | http_server.py:209-225 | The if-chain equals a reading of two tables: html and txt give text/html, css text/css, js text/javascript, jpg, png, ico and gif their image types plus "Accept-Ranges: bytes", each ending in a blank line; any other type adds nothing. |
| Header.HeaderFields | http_server.py:204-227 | A client reads back from the header block the given date, the given Content-Length, the table's Content-Type for a known type and none for an unknown one, and Accept-Ranges for images only. The block ends in a blank line exactly when the type is known. |
| Header.LeadingFields | http_server.py:206-208 | The Date and Content-Length lines read back as the date and the length. |
| Header.LaterFields | http_server.py:207-208 | The Date and Content-Length lines do not hide the Content-Type and Accept-Ranges lines after them. |
| Header.TypeFields | http_server.py:211-225 | The lines appended for a type carry the table's content type, and byte ranges for images only. |
| Header.HeaderEnd | http_server.py:209-227 | The header ends with "\r\n\r\n" if and only if the file type is recognised. |
| Header.FieldAt | http_server.py:207-208 | The first "name: value" line gives the value of name. |
| Header.FieldAfter | http_server.py:207-208 | A line for another name does not hide the fields after it. |
| Header.HttpHeader | http_server.py:204-227 | `get_http_header` with the clock reading as a parameter. What it builds is stated by `Header.HeaderFields` and `Header.HeaderEnd`. |
| Header.ContentTypeLines | http_server.py:209-225 | The if-chain appended after Content-Length. It is checked against the tables by `Header.ContentTypeLinesTable` and read back by `Header.TypeFields`. |
| Header.FileType | http_server.py:211 | "html" for no URL, otherwise the text after the last '.'. Characterised by `Header.FileTypeOf` and `Text.AfterLastIsSuffix`. |
| Responses.HeaderEndAfter | http_server.py:209-227 | Whatever precedes a header block, the whole ends with a blank line exactly when the block's file type is recognised. |
| Responses.NotFound | http_server.py:138-143 | `not_found`. Characterised by `Responses.NotFoundFraming`. |
| Responses.Ok | http_server.py:146-153 | `ok`. Characterised by `Responses.OkFraming`, `Responses.OkServesFile` and `Responses.OkServesData`. |
| Responses.MovedTemporarily | http_server.py:156-168 | `moved_temporarily`. Characterised by `Responses.MovedTemporarilyFraming` and `Responses.RedirectFraming`. |
| Responses.InternalServerError | http_server.py:171-175 | `internal_server_error`. Characterised by `Responses.InternalServerErrorFraming`. |
| Responses.Response.Bytes | http_server.py:152 | The bytes given to `sendall`: the encoded head followed by the body. For a text body they are the encoding of head and body as one text (`Responses.MessageBytes`). |
| Responses.LocationLine | http_server.py:164 | "Location: http://" + target, with no host; the caller appends "\r\n". It is read back by `Responses.LocationFields`. |
| Responses.StatusThenHeader | http_server.py:150-151 | A status line followed by a header block starts with that status line. The fields read from the whole are those of the header block. |
| Responses.AfterStatusLine | http_server.py:26-31 | A status line is never read as a header field (for names not starting with 'H'). |
| Responses.MessageFraming | http_server.py:171-173 | A response whose body is an encoded ASCII message of n characters, announced with Content-Length n, is well framed. |
| Responses.MessageBytes | http_server.py:173-174 | Such a response's bytes are the encoding of header and message as one text, as `http_response.encode()` sends. |
| Responses.NotFoundFraming | http_server.py:138-143 | The 404 response has code 404, Content-Length 15, type text/html and a header ended by a blank line. Its body is "404 Not Found\r\n" encoded, and its bytes encode header and message together. |
| Responses.OkFraming | http_server.py:146-153 | A 200 response has code 200 and announces the length of the data it sends. Its Content-Type comes from the URL's type, and its header ends in a blank line exactly when that type is known. |
| Responses.OkServesFile | http_server.py:148-149 | With a URL and no data, `ok` sends exactly that file's contents. |
| Responses.OkServesData | http_server.py:146-152 | With no URL, `ok` sends exactly the data it was given, as text/html, with a header ended by a blank line. |
| Responses.LocationFields | http_server.py:164 | The Location line reads back as "http://" + target, with no host, and does not hide later fields. |
| Responses.LocatedHeader | http_server.py:164-166 | The Location line followed by the target's header reads back as the Location, the target's length and the target's type. |
| Responses.RedirectFraming | http_server.py:163-167 | A 302 for an existing target is well framed by the target's length, with Location "http://" + target and the target's Content-Type. Its header ends with a blank line exactly when the target's type is recognised. |
| Responses.MovedTemporarilyFraming | http_server.py:156-168 | A missing target gives exactly the 404 response. Otherwise the result is a well-framed 302 with Location "http://" + target, the target's bytes as body, type text/html and a header ended by a blank line. |
| Responses.RedirectTargetIsHtml | http_server.py:20-25 | Every redirect target has file type "html" and no carriage return. |
| Responses.DefaultUrlIsHtml | http_server.py:19 | The default document's type is "html". |
| Responses.InternalServerErrorFraming | http_server.py:171-175 | A 500 announces the message's length in characters and sends the message's encoding. Its bytes encode header and message together, and it is well framed when the message is ASCII. |
| Area.CalculateArea | http_server.py:178-194 | `calculate_area` for the last path segment. Characterised by `Area.WrongParameterCount`, `Area.NotNumericValue`, `Area.NumericValues`, `Area.AreaOfQuery` and `Area.AreaTextRoundTrip`. |
| Area.Parameters | http_server.py:180 | The parameters after the last '?', split on '&'. Characterised by `Area.ParameterCount` and `Area.QueryParameters`. |
| Area.CountMessage | http_server.py:182 | The count message with the count in decimal. It is ASCII (`Area.CountMessageIsAscii`) and is what `Area.WrongParameterCount` finds in the 500 body. |
| Area.Product | http_server.py:190 | `int(height) * int(width)` on unbounded naturals. |
| Area.AreaText | http_server.py:190-193 | For an even product the rendered half is a plain number; for an odd one it is a number followed by ".5". Like `str()` of a float, it starts with "0" only for "0" and "0.5". |
| Area.AreaTextRoundTrip | http_server.py:190-193 | Reading a rendered area back recovers exactly half of the product, so no precision is lost in the model. |
| Area.ParameterCount | http_server.py:180-181 | The parameter count is one more than the number of '&' after the last '?'. |
| Area.WrongParameterCount | http_server.py:180-182 | Any count other than 2 gives 500 with body "Many or less parameters, expected 2, got N". |
| Area.NotNumericValue | http_server.py:184-188 | Two parameters, one of whose values is not a number (the empty value included), give 500 with the non-numeric message. |
| Area.NumericValues | http_server.py:184-194 | Two numeric values give 200 with body the rendered half of their product. |
| Area.QueryParameters | http_server.py:180 | The parameters of "path?a=h&b=w" are "a=h" and "b=w", whatever path holds. |
| Area.AssignmentValue | http_server.py:184-185 | The value of "name=n" is the text of n. |
| Area.AreaOfQuery | http_server.py:178-194 | "path?a=h&b=w" gives 200 with a body that reads back as h*w/2. |
| Area.AreaResponsesWellFramed | http_server.py:178-194 | Every answer of the endpoint is a well-framed 200 or 500 whose header ends with a blank line. |
| Area.AreaOkFramed | http_server.py:194 | The 200 carrying the area is well framed, and its header ends with a blank line. |
| Area.CountErrorFramed | http_server.py:182 | The count error is well framed, and its header ends with a blank line. |
| Area.NotNumericErrorFramed | http_server.py:188 | The non-numeric error is well framed, and its header ends with a blank line. |
| Router.HandleClientRequest | http_server.py:108-135 | `handle_client_request`: the server-stop outcome or the response sent. Characterised by `Router.ExitFirst`, `Router.RedirectedResources`, `Router.AreaRoute`, `Router.FileRoute`, `Router.DefaultDocument`, `Router.SlashOnlyResource`, `Router.ResponsesWellFramed` and `Router.HeaderEndsUnlessUnknownType`. |
| Router.RouteOf | http_server.py:113-135 | The first-match chain exit, redirect, area, 404, 200. Every route it picks is answerable (`Router.RoutesAnswerable`) and carries a "webroot/" URL (`Router.RoutedUrlsRooted`). |
| Router.Respond | http_server.py:121-135 | The framer each branch calls. Characterised by `Router.RespondWellFramed`. |
| Router.NormalizedUrl | http_server.py:113 | The normalisation of the resource. Characterised by `Router.NormalizedUrlSpec` and `Router.SlashOnlyResource`. |
| Router.RootedUrl | http_server.py:118-119 | The "webroot/" prefixing. Characterised by `Router.RootedUrlIsRooted`. |
| Router.ServerFunction | http_server.py:125 | The last path segment, `url.split("/")[-1]`. Characterised by `Text.AfterLastIsSuffix`. |
| Router.Outcome.Code | http_server.py:116-135 | The value `handle_client_request` returns: 1 when the server stops, otherwise the status code of the response sent (`Router.ExitFirst`, `Router.ResponsesWellFramed`). |
| Router.NormalizedUrlSpec | http_server.py:113 | "" and "/" become the default document. Any other resource loses exactly its leading and trailing runs of '/', and the result neither starts nor ends with '/'. |
| Router.NormalizedUrlIdempotent | http_server.py:113 | For a resource other than "" and "/" that does not normalise to the empty URL, normalising the normalised URL changes nothing. The excluded resources are the runs of two or more '/', which normalise to "" and then to the default document (`Router.SlashOnlyResource`). |
| Router.SlashOnlyResource | http_server.py:113-135 | A resource of two or more '/' does not get the default document: it normalises to "", is looked up as "webroot/" and gets 404 unless "webroot/" is a file. |
| Router.SlashesStripToEmpty | http_server.py:113 | Two or more '/' normalise to the empty URL. |
| Router.EmptyUrlRoute | http_server.py:115-135 | A resource that normalises to "" is routed as the file "webroot/": served when it is a file, 404 otherwise. |
| Router.EmptyUrlLookup | http_server.py:115-127 | For the empty URL there is no exit, the rooted URL is "webroot/", it is no redirect key and its empty last segment names no area request. |
| Router.RootedUrlIsRooted | http_server.py:118-119 | After prefixing, every URL starts with "webroot/", and prefixing changes exactly the URLs outside "webroot/". |
| Router.RoutedUrlsRooted | http_server.py:118-135 | Every URL reaching the redirect, area, 404 or 200 step starts with "webroot/". |
| Router.RoutesAnswerable | http_server.py:118-135 | Every chosen redirect names a table key, and every file served exists. |
| Router.UnreachableKeys | http_server.py:118-123 | The keys "home" and "home.html" are never looked up. |
| Router.RootedLookup | http_server.py:118-123 | Even so, a URL is redirected exactly when it is a key, and to its own key's target. |
| Router.PrefixedKeys | http_server.py:118-122 | "webroot/" + url is a key only for url "home" or "home.html". |
| Router.UnrootedKeys | http_server.py:20-25 | The keys outside "webroot/" are "home" and "home.html". |
| Router.RootedInjective | http_server.py:119 | Prefixing "webroot/" is one-to-one. |
| Router.NoExitKey | http_server.py:20-25 | No redirect key ends with "exit". |
| Router.RedirectedResources | http_server.py:113-123 | A resource is redirected exactly when its normalised URL is a key, and the redirect goes to that key's target. |
| Router.ExitFirst | http_server.py:115-116 | The request stops the server, returning 1, exactly when the normalised URL ends with "exit", whatever the files are. |
| Router.AreaRoute | http_server.py:125-128 | A last segment containing "calculate-area", past the exit and redirect steps, goes to the area endpoint with that segment. |
| Router.FileRoute | http_server.py:130-135 | Past those steps, an existing file gives 200 with its contents, and a missing one gives the 404 response. |
| Router.DefaultDocument | http_server.py:113-135 | "" and "/" serve webroot/index.html with 200 when it exists, and 404 otherwise. |
| Router.RespondWellFramed | http_server.py:121-135 | Each branch's response is well framed, with code 200, 302, 404 or 500. Its header ends with a blank line unless the branch serves a file of unrecognised type. |
| Router.ResponsesWellFramed | http_server.py:108-175 | Every response `handle_client_request` sends is well framed, with code 200, 302, 404 or 500, and the value it returns is that code. |
| Router.HeaderEndsUnlessUnknownType | http_server.py:108-135 | The header of every response sent ends with the blank line that separates it from the body, except exactly when a file of unrecognised type is served. That response has no blank line, so a client reads the file as more header lines. |
| Text.Split | http_server.py:180 | `str.split(sep)` for a one-character separator, as used at lines 125, 180, 184-185 and 211. Its ensures: never an empty list, and no piece holds the separator. Its inverse is `Join` (`Text.JoinOfSplit`, `Text.SplitOfJoin`), and its length is given by `Text.SplitCount`. |
| Text.AfterLast | http_server.py:184-185 | `s.split(sep)[-1]`, as used at lines 125, 180, 184-185 and 211: the longest separator-free suffix (`Text.AfterLastIsSuffix`, `Text.AfterLastOf`). |
| Text.Lines | http_server.py:94 | `s.split('\r\n')`. Its ensures: never an empty list. A single line followed by "\r\n" is its first piece (`Text.LinesCons`). |
| Text.FirstLine | http_server.py:94 | `s.split('\r\n')[0]`. It does not depend on anything after the first "\r\n" (`Text.FirstLineIgnoresRest`). |
| Text.SingleLine | http_server.py:94 | `"\r\n" not in s`. A lone '\r' is allowed. |
| Text.Words | http_server.py:98 | `str.split()`: the maximal runs of non-`IsSpace` characters, in order. Its ensures: each word is non-empty and whitespace-free. Space-joined words come back (`Text.WordsOfJoinWords`), and any whitespace character after a word ends it (`Text.WordsAfterSeparator`). |
| Text.WordsAfterSeparator | http_server.py:98 | A non-empty whitespace-free word followed by any whitespace character is the first word of the split, and the split goes on after that character. |
| Text.Token | http_server.py:98 | The longest whitespace-free prefix. Its ensures: a whitespace-free prefix that is followed by whitespace or the end of the text. It is the first word when the text does not start with whitespace (`Request.StartsWithGetToken`). |
| Text.IsSpace | http_server.py:98 | The characters `str.split()` treats as whitespace: '\t' to '\r', U+001C to ' ', U+0085, U+00A0, U+1680, U+2000 to U+200A, U+2028, U+2029, U+202F, U+205F and U+3000. |
| Text.Strip | http_server.py:113 | `str.strip(c)`: exactly the leading and trailing runs of c are removed (`Text.StripSpec`), and stripping twice is stripping once (`Text.StripIdempotent`). |
| Text.TrimStart | http_server.py:113 | `str.lstrip(c)`. Its ensures: the text is a run of c followed by the result, and the result does not start with c. |
| Text.TrimEnd | http_server.py:113 | `str.rstrip(c)`. Its ensures: the text is the result followed by a run of c, and the result does not end with c. |
| Text.IsNumeric | http_server.py:187 | `str.isnumeric()` restricted to ASCII: non-empty and digits only. This is narrower than Python, as noted under Left out. |
| Text.ParseNat | http_server.py:190 | `int()` of a digit string, leading zeros included. It is a left inverse of `NatToString`: `int(str(n)) == n` (`Text.ParseNatOfNatToString`). |
| Text.Encode | http_server.py:142 | `str.encode()` in UTF-8, as used at lines 142, 152, 167 and 174. Its ensures: at least one byte per character. It maps concatenation to concatenation (`Text.EncodeAppend`), and ASCII to one byte per character (`Text.EncodeAscii`). |
| Text.EncodeChar | http_server.py:142 | UTF-8 of one character. Its ensures: 1 to 4 bytes, and exactly one byte when the code point is below 0x80. |
| Text.StartsWith | http_server.py:95 | `str.startswith`, as used at lines 95 and 118: the text's first characters are the prefix. |
| Text.EndsWith | http_server.py:115 | `str.endswith`, as used at lines 115 and 192: the text's last characters are the suffix. |
| Text.Contains | http_server.py:127 | `part in s` on strings, as used at lines 101 and 127: the part occurs at some index. |
| Text.SplitCount | http_server.py:180 | `split(sep)` gives one piece more than there are separators. |
| Text.JoinOfSplit | http_server.py:180 | Joining the pieces of a split gives back the text. |
| Text.SplitOfJoin | http_server.py:180 | Splitting separator-free pieces joined by the separator gives back the pieces. |
| Text.AfterLastIsSuffix | http_server.py:125 | `split(sep)[-1]` is a separator-free suffix, preceded by a separator when it is not the whole text. |
| Text.AfterLastOf | http_server.py:184-185 | The text after a final separator is what `split(sep)[-1]` returns. |
| Text.FirstLineIgnoresRest | http_server.py:94 | `split('\r\n')[0]` does not depend on what follows the first "\r\n". |
| Text.LinesCons | http_server.py:94 | A single line (no "\r\n", though lone carriage returns are allowed) is the first piece of line + "\r\n" + rest, and the rest are the lines of rest. |
| Text.LoneCRLine | http_server.py:94 | Two single lines joined by a '\r' are still one line when the first does not end with '\r' and the second does not start with '\n'. |
| Text.WordsOfJoinWords | http_server.py:98 | Whitespace `split()` of space-joined whitespace-free words gives back the words. |
| Text.TokenOf | http_server.py:98 | The first token of a whitespace-free word followed by whitespace is that word. |
| Text.StripSpec | http_server.py:113 | `strip(c)` removes exactly a leading and a trailing run of c. |
| Text.TrimStartOfRun | http_server.py:113 | `lstrip(c)` removes a run of c entirely. |
| Text.StripIdempotent | http_server.py:113 | Stripping twice is stripping once. |
| Text.ParseNatOfNatToString | http_server.py:190 | `int(str(n)) == n`. |
| Text.NatToString | http_server.py:182 | `str(n)` is a non-empty digit string without leading zeros, and it starts with "0" exactly when n is 0. |
| Text.EncodeAscii | http_server.py:141-142 | An ASCII text encodes to one byte per character. |
| Text.EncodeSnoc | http_server.py:141-142 | Encoding one more character appends that character's bytes. |
| Text.EncodeAppend | http_server.py:141-142 | Encoding distributes over concatenation. |

## Left out

- `main` and `handle_client` (http_server.py:34-86) are the socket accept and receive loops, with timeouts, exception-driven shutdown and logging. They are not modelled. `Router.ExitFirst` states the value 1 that makes them stop.
- The network: `recv(1024).decode()` and `sendall` are not modelled. A framer's result is the value it would send, and `Response.Bytes()` is the sent byte string.
- The clock: the Date value from `datetime.now().strftime` is the parameter `date`. The framing lemmas assume it has no carriage return, which the format guarantees.
- The filesystem: `os.path.isfile` and `get_file_data` are lookups in a map supplied by the caller. Read errors, directories and concurrent changes are not modelled.
- Responses.Ok: `get_file_data` raising on a missing file is not modelled. The function instead requires the file to exist when asked for a URL without data, which is the only way the server calls it.
- Area.CalculateArea: the area is rendered with exact integer semantics, not with `str()` of a float. The model gives the whole half for an even product and the half followed by ".5" for an odd one. Python's float loses precision above 2^53 and switches to exponent notation from 1e16, so the two diverge for huge products. When the half product exceeds the float range (about 1.8e308, reachable within a 1024-byte request), http_server.py:190 raises `OverflowError`. That exception escapes `handle_client`, and `main`'s `except Exception` (http_server.py:54-57) then stops the server. The model answers 200 instead.
- Text.IsNumeric: `str.isnumeric` is restricted to ASCII digits. Other Unicode numeric characters are treated as not numeric, whereas Python accepts them in `isnumeric` and may then fail in `int`.
- Responses.InternalServerErrorFraming: a 500 is proved well framed only for ASCII messages, because Content-Length counts characters, not bytes. Both messages the server sends are ASCII (`Area.CountErrorFramed` and `Area.NotNumericErrorFramed`).
- The constants `IP`, `PORT` and `SOCKET_TIMEOUT` configure the socket only and are not modelled.
