/** The request-line check `validate_http_request`: only the first line of
    the received text matters; it must start with "GET", split on whitespace
    into exactly three tokens, and its third token must contain "HTTP". */
module Request {
  import opened Text

  /** `validate_http_request`: `(true, url)` for an accepted request, `(false, "")` otherwise. */
  function ValidateHttpRequest(request: string): (r: (bool, string))
    ensures !r.0 ==> r.1 == ""
    ensures r.0 ==> r.1 != "" && SpaceFree(r.1) && r.1 in Words(FirstLine(request))
  {
    var firstLine := FirstLine(request);
    if !StartsWith(firstLine, "GET") then (false, "")
    else
      var splitRequest := Words(firstLine);
      if |splitRequest| != 3 then (false, "")
      else if !Contains(splitRequest[2], "HTTP") then (false, "")
      else (true, splitRequest[1])
  }

  /** Text after the first "\r\n" (headers, body, a pipelined request) never affects the verdict or the URL. */
  lemma ValidateIgnoresRest(line: string, rest: string)
    ensures ValidateHttpRequest(line + "\r\n" + rest) == ValidateHttpRequest(line)
  {
    FirstLineIgnoresRest(line, rest);
  }

  /** Text without a line break is split into itself alone. */
  lemma {:induction false} LinesOfSingleLine(s: string)
    requires SingleLine(s)
    ensures Lines(s) == [s]
  {
    if |s| >= 2 {
      SingleLineStep(s);
      LinesOfSingleLine(s[1..]);
      assert [s[0]] + s[1..] == s;
    }
  }

  /** The only whitespace in words joined by single spaces is those spaces. */
  lemma {:induction false} JoinWordsSpaces(words: seq<string>)
    requires forall k :: 0 <= k < |words| ==> SpaceFree(words[k])
    ensures forall k :: 0 <= k < |JoinWords(words)| && IsSpace(JoinWords(words)[k]) ==> JoinWords(words)[k] == ' '
  {
    if |words| > 1 {
      JoinWordsSpaces(words[1..]);
      var w, u := words[0], JoinWords(words[1..]);
      assert JoinWords(words) == w + " " + u;
      forall k | 0 <= k < |JoinWords(words)| && IsSpace(JoinWords(words)[k])
        ensures JoinWords(words)[k] == ' '
      {
        if k > |w| {
          assert JoinWords(words)[k] == u[k - |w| - 1];
        }
      }
    }
  }

  /** A line of space-separated words starts with "GET" exactly when its first word does. */
  lemma StartsWithGet(words: seq<string>)
    requires |words| > 0
    ensures StartsWith(JoinWords(words), "GET") <==> StartsWith(words[0], "GET")
  {
    var w, line := words[0], JoinWords(words);
    if |words| == 1 {
      assert line == w;
    } else {
      var rest := JoinWords(words[1..]);
      assert line == w + " " + rest;
      if |w| >= 3 {
        assert line[..3] == w[..3];
      } else if |line| >= 3 {
        assert line[|w|] == ' ';
        assert line[..3][|w|] != "GET"[|w|];
      }
    }
  }

  /** For a first line made of whitespace-free tokens separated by single spaces, the request is
      accepted exactly when the first token starts with "GET", there are three tokens and the third
      contains "HTTP"; the URL is then the second token. */
  lemma ValidateRequestLine(words: seq<string>, rest: string)
    requires |words| > 0
    requires forall k :: 0 <= k < |words| ==> words[k] != "" && SpaceFree(words[k])
    ensures ValidateHttpRequest(JoinWords(words) + "\r\n" + rest) ==
      if StartsWith(words[0], "GET") && |words| == 3 && Contains(words[2], "HTTP")
      then (true, words[1])
      else (false, "")
  {
    var line := JoinWords(words);
    ValidateIgnoresRest(line, rest);
    JoinWordsSpaces(words);
    assert '\r' !in line;
    CRFreeIsSingleLine(line);
    LinesOfSingleLine(line);
    WordsOfJoinWords(words);
    StartsWithGet(words);
  }

  /** A line that does not start with whitespace starts with "GET" exactly when its first
      whitespace-separated token does. */
  lemma StartsWithGetToken(line: string)
    requires line != [] && !IsSpace(line[0])
    ensures Words(line) != [] && Words(line)[0] == Token(line)
    ensures StartsWith(line, "GET") <==> StartsWith(Token(line), "GET")
  {
    var t := Token(line);
    assert t != [] by {
      assert line == [line[0]] + line[1..];
    }
    if |t| >= 3 {
      assert line[..3] == t[..3];
    } else if |line| >= 3 {
      assert IsSpace(line[|t|]);
      assert line[..3][|t|] != "GET"[|t|];
    }
  }

  /** For any first line without a line break (tabs, lone carriage returns, runs of spaces and
      trailing whitespace included), the request is accepted exactly when the line does not start with whitespace and its
      whitespace-separated tokens are three, the first starting with "GET" and the third containing
      "HTTP"; the URL is then the second token. */
  lemma ValidateWords(line: string, rest: string)
    requires SingleLine(line)
    ensures var words := Words(line);
      ValidateHttpRequest(line + "\r\n" + rest) ==
        if line != [] && !IsSpace(line[0]) && |words| == 3 && StartsWith(words[0], "GET") && Contains(words[2], "HTTP")
        then (true, words[1])
        else (false, "")
  {
    ValidateIgnoresRest(line, rest);
    LinesOfSingleLine(line);
    if line != [] {
      if IsSpace(line[0]) {
        RejectsLeadingWhitespace(line, rest);
      } else {
        StartsWithGetToken(line);
      }
    }
  }

  /** A well-formed "GET <url> <version>" line is accepted with its URL, whatever follows it. */
  lemma AcceptsGetRequest(url: string, version: string, rest: string)
    requires url != "" && SpaceFree(url)
    requires version != "" && SpaceFree(version) && Contains(version, "HTTP")
    ensures ValidateHttpRequest("GET " + url + " " + version + "\r\n" + rest) == (true, url)
  {
    assert SpaceFree("GET");
    JoinThreeWords("GET", url, version);
    assert "GET" + " " + url + " " + version == "GET " + url + " " + version;
    ValidateRequestLine(["GET", url, version], rest);
  }

  /** "GET url\rversion" splits into its three tokens. */
  lemma LoneCarriageReturnWords(url: string, version: string)
    requires url != "" && SpaceFree(url)
    requires version != "" && SpaceFree(version)
    ensures Words("GET " + url + "\r" + version) == ["GET", url, version]
  {
    var tail := url + "\r" + version;
    assert "GET" + " " + tail == "GET " + url + "\r" + version;
    assert SpaceFree("GET");
    WordsAfterSeparator("GET", ' ', tail);
    WordsAfterSeparator(url, '\r', version);
    WordsOfJoinWords([version]);
  }

  /** "GET url\rversion" holds no line break. */
  lemma LoneCarriageReturnLine(url: string, version: string)
    requires url != "" && SpaceFree(url)
    requires version != "" && SpaceFree(version)
    ensures SingleLine("GET " + url + "\r" + version)
  {
    var head := "GET " + url;
    assert head[|head| - 1] == url[|url| - 1];
    assert '\r' !in head && '\r' !in version && version[0] != '\n';
    CRFreeIsSingleLine(head);
    CRFreeIsSingleLine(version);
    LoneCRLine(head, version);
  }

  /** A lone carriage return separates tokens like a space does: `split()` treats it as whitespace. */
  lemma AcceptsLoneCarriageReturn(url: string, version: string, rest: string)
    requires url != "" && SpaceFree(url)
    requires version != "" && SpaceFree(version) && Contains(version, "HTTP")
    ensures ValidateHttpRequest("GET " + url + "\r" + version + "\r\n" + rest) == (true, url)
  {
    var line := "GET " + url + "\r" + version;
    LoneCarriageReturnWords(url, version);
    LoneCarriageReturnLine(url, version);
    ValidateWords(line, rest);
    assert StartsWith("GET", "GET");
  }

  /** The verb check is a prefix test: any first token that starts with "GET" passes it. */
  lemma AcceptsAnyMethodStartingWithGet(suffix: string, url: string, rest: string)
    requires SpaceFree(suffix)
    requires url != "" && SpaceFree(url)
    ensures ValidateHttpRequest("GET" + suffix + " " + url + " HTTP/1.1\r\n" + rest) == (true, url)
  {
    var verb := "GET" + suffix;
    assert StartsWith(verb, "GET") && SpaceFree(verb);
    assert OccursAt("HTTP/1.1", "HTTP", 0) && SpaceFree("HTTP/1.1");
    assert Contains("HTTP/1.1", "HTTP");
    JoinThreeWords(verb, url, "HTTP/1.1");
    assert verb + " " + url + " " + "HTTP/1.1" == "GET" + suffix + " " + url + " HTTP/1.1";
    var words := [verb, url, "HTTP/1.1"];
    ValidateRequestLine(words, rest);
    assert StartsWith(words[0], "GET") && |words| == 3 && Contains(words[2], "HTTP");
    assert JoinWords(words) + "\r\n" + rest == "GET" + suffix + " " + url + " HTTP/1.1\r\n" + rest;
  }

  /** A first token that does not start with "GET" is refused. */
  lemma RejectsOtherMethods(verb: string, url: string, version: string, rest: string)
    requires verb != "" && SpaceFree(verb) && !StartsWith(verb, "GET")
    requires url != "" && SpaceFree(url)
    requires version != "" && SpaceFree(version)
    ensures ValidateHttpRequest(verb + " " + url + " " + version + "\r\n" + rest) == (false, "")
  {
    JoinThreeWords(verb, url, version);
    ValidateRequestLine([verb, url, version], rest);
  }

  /** A request line without a version token is refused. */
  lemma RejectsMissingVersion(url: string, rest: string)
    requires url != "" && SpaceFree(url)
    ensures ValidateHttpRequest("GET " + url + "\r\n" + rest) == (false, "")
  {
    assert StartsWith("GET", "GET") && SpaceFree("GET");
    assert ["GET", url][1..] == [url];
    assert JoinWords(["GET", url]) == "GET " + url;
    ValidateRequestLine(["GET", url], rest);
  }

  /** A version token without "HTTP" is refused. */
  lemma RejectsNonHttpVersion(url: string, version: string, rest: string)
    requires url != "" && SpaceFree(url)
    requires version != "" && SpaceFree(version) && !Contains(version, "HTTP")
    ensures ValidateHttpRequest("GET " + url + " " + version + "\r\n" + rest) == (false, "")
  {
    assert SpaceFree("GET");
    JoinThreeWords("GET", url, version);
    assert "GET" + " " + url + " " + version == "GET " + url + " " + version;
    ValidateRequestLine(["GET", url, version], rest);
  }

  /** Leading whitespace before the verb is refused, even though `split()` would drop it. */
  lemma RejectsLeadingWhitespace(line: string, rest: string)
    requires line != [] && IsSpace(line[0])
    ensures ValidateHttpRequest(line + "\r\n" + rest) == (false, "")
  {
    ValidateIgnoresRest(line, rest);
    var first := FirstLine(line);
    if |line| >= 2 && line[0] == '\r' && line[1] == '\n' {
      assert first == "";
    } else if |line| >= 2 {
      assert first[0] == line[0];
    }
  }
}
