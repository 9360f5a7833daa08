/** The area endpoint `calculate_area`: it reads two values from the query
    string of the last path segment and answers with half their product (the
    area of a right triangle with those legs), or with 500 when the query
    does not have exactly two parameters or a value is not a number. */
module Area {
  import opened Text
  import opened Config
  import opened Header
  import opened Responses

  /** `request.split('?')[-1].split('&')`: the parameters after the last '?'. */
  function Parameters(request: string): seq<string> {
    Split(AfterLast(request, '?'), '&')
  }

  /** `str(p / 2)` with a trailing ".0" removed: the half of `p` as a whole number when `p` is even,
      and as a whole number followed by ".5" when it is odd. */
  function AreaText(p: nat): (text: string)
    ensures p % 2 == 0 ==> IsNumeric(text)
    ensures p % 2 == 1 ==> EndsWith(text, ".5") && IsNumeric(text[..|text| - 2])
    ensures text[0] == '0' ==> p < 2
  {
    if p % 2 == 0 then NatToString(p / 2) else NatToString(p / 2) + ".5"
  }

  /** `int(height) * int(width)`. */
  function Product(height: nat, width: nat): nat {
    height * width
  }

  /** The message sent when the query does not have two parameters. */
  function CountMessage(count: nat): string {
    "Many or less parameters, expected 2, got " + NatToString(count)
  }

  /** The message sent when a value is not a number. */
  const NOT_NUMERIC_MESSAGE := "Not numeric value for height or width"

  /** `calculate_area(request)` for the last path segment `request`. */
  function CalculateArea(request: string, date: string): Response {
    var parameters := Parameters(request);
    if |parameters| != 2 then InternalServerError(CountMessage(|parameters|), date)
    else
      var height := AfterLast(parameters[0], '=');
      var width := AfterLast(parameters[1], '=');
      if !IsNumeric(height) || !IsNumeric(width) then InternalServerError(NOT_NUMERIC_MESSAGE, date)
      else Ok(Encode(AreaText(Product(ParseNat(height), ParseNat(width)))), "", map[], date)
  }

  // ---------------------------------------------------------------------
  // Reading the area back

  /** Twice the number a client reads from an area text: a whole number, or one ending in ".5". */
  function TwiceArea(text: string): Option<nat> {
    if EndsWith(text, ".5") && IsNumeric(text[..|text| - 2]) then Some(2 * ParseNat(text[..|text| - 2]) + 1)
    else if IsNumeric(text) then Some(2 * ParseNat(text))
    else None
  }

  /** The area text of `p` reads back as half of `p`: no precision is lost. */
  lemma AreaTextRoundTrip(p: nat)
    ensures TwiceArea(AreaText(p)) == Some(p)
  {
    var whole := NatToString(p / 2);
    ParseNatOfNatToString(p / 2);
    var text := AreaText(p);
    if p % 2 == 0 {
      if |text| >= 2 {
        assert text[|text| - 2..][0] == text[|text| - 2];
        assert IsDigit(text[|text| - 2]);
      }
      assert !EndsWith(text, ".5");
    } else {
      assert text[..|text| - 2] == whole;
    }
  }

  /** The non-numeric message is ASCII. */
  lemma NotNumericMessageIsAscii()
    ensures IsAscii(NOT_NUMERIC_MESSAGE)
  {
  }

  /** The count message is ASCII. */
  lemma CountMessageIsAscii(count: nat)
    ensures IsAscii(CountMessage(count))
  {
    NatToStringIsAscii(count);
  }

  // ---------------------------------------------------------------------
  // What the endpoint answers

  /** The number of parameters is one more than the number of '&' after the last '?'. */
  lemma ParameterCount(request: string)
    ensures |Parameters(request)| == Occurrences(AfterLast(request, '?'), '&') + 1
  {
    SplitCount(AfterLast(request, '?'), '&');
  }

  /** A query that does not have exactly two parameters is answered with 500 and the count. */
  lemma WrongParameterCount(request: string, date: string)
    requires |Parameters(request)| != 2
    ensures var r := CalculateArea(request, date);
      r.code == 500 && r.body == Encode(CountMessage(|Parameters(request)|))
  {
  }

  /** Two parameters one of whose values is not a number (an empty value included) are answered with 500. */
  lemma NotNumericValue(request: string, date: string)
    requires |Parameters(request)| == 2
    requires !IsNumeric(AfterLast(Parameters(request)[0], '=')) || !IsNumeric(AfterLast(Parameters(request)[1], '='))
    ensures var r := CalculateArea(request, date);
      r.code == 500 && r.body == Encode(NOT_NUMERIC_MESSAGE)
  {
  }

  /** Two texts without '&' joined by '&' split back into the two. */
  lemma SplitTwo(a: string, b: string)
    requires '&' !in a && '&' !in b
    ensures Split(a + "&" + b, '&') == [a, b]
  {
    assert Join([a, b], '&') == a + "&" + b by {
      assert [a, b][1..] == [b];
    }
    SplitOfJoin([a, b], '&');
  }

  /** A number's text has none of the query's separators. */
  lemma NoSeparatorsInNumber(n: nat)
    ensures '&' !in NatToString(n) && '?' !in NatToString(n) && '=' !in NatToString(n)
  {
  }

  /** The parameters of "<path>?<name>=<h>&<name>=<w>" are the two assignments. */
  lemma QueryParameters(path: string, heightName: string, h: nat, widthName: string, w: nat)
    requires '&' !in heightName && '&' !in widthName && '?' !in heightName && '?' !in widthName
    ensures var heightPart, widthPart := heightName + "=" + NatToString(h), widthName + "=" + NatToString(w);
      Parameters(path + "?" + heightPart + "&" + widthPart) == [heightPart, widthPart]
  {
    var heightPart, widthPart := heightName + "=" + NatToString(h), widthName + "=" + NatToString(w);
    var query := heightPart + "&" + widthPart;
    NoSeparatorsInNumber(h);
    NoSeparatorsInNumber(w);
    assert '?' !in heightPart && '?' !in widthPart && '&' !in heightPart && '&' !in widthPart;
    assert path + "?" + heightPart + "&" + widthPart == path + ['?'] + query;
    AfterLastOf(path, '?', query);
    SplitTwo(heightPart, widthPart);
  }

  /** The value of "<name>=<n>" is the text of n. */
  lemma AssignmentValue(name: string, n: nat)
    ensures AfterLast(name + "=" + NatToString(n), '=') == NatToString(n)
  {
    NoSeparatorsInNumber(n);
    AfterLastOf(name, '=', NatToString(n));
  }

  /** Two parameters whose values are numbers are answered with 200 and the area text of their product. */
  lemma NumericValues(request: string, date: string)
    requires |Parameters(request)| == 2
    requires IsNumeric(AfterLast(Parameters(request)[0], '=')) && IsNumeric(AfterLast(Parameters(request)[1], '='))
    ensures var r, parameters := CalculateArea(request, date), Parameters(request);
      var product := Product(ParseNat(AfterLast(parameters[0], '=')), ParseNat(AfterLast(parameters[1], '=')));
      r.code == 200 && r.body == Encode(AreaText(product))
  {
  }

  /** "…?height=<h>&width=<w>" is answered with 200 and a body that reads back as h * w / 2. */
  lemma AreaOfQuery(path: string, heightName: string, h: nat, widthName: string, w: nat, date: string)
    requires '&' !in heightName && '&' !in widthName && '?' !in heightName && '?' !in widthName
    ensures var r := CalculateArea(path + "?" + heightName + "=" + NatToString(h) + "&" + widthName + "=" + NatToString(w), date);
      && r.code == 200
      && r.body == Encode(AreaText(Product(h, w)))
      && TwiceArea(AreaText(Product(h, w))) == Some(Product(h, w))
  {
    var heightPart, widthPart := heightName + "=" + NatToString(h), widthName + "=" + NatToString(w);
    var request := path + "?" + heightName + "=" + NatToString(h) + "&" + widthName + "=" + NatToString(w);
    assert request == path + "?" + heightPart + "&" + widthPart;
    QueryParameters(path, heightName, h, widthName, w);
    var parameters := Parameters(request);
    assert parameters[0] == heightPart && parameters[1] == widthPart;
    AssignmentValue(heightName, h);
    AssignmentValue(widthName, w);
    ParseNatOfNatToString(h);
    ParseNatOfNatToString(w);
    NumericValues(request, date);
    AreaTextRoundTrip(Product(h, w));
  }

  /** The 200 carrying an area text is well framed, and its header ends with a blank line. */
  lemma AreaOkFramed(text: string, date: string)
    requires '\r' !in date
    ensures var r := Ok(Encode(text), "", map[], date);
      r.code == 200 && WellFramed(r) && EndsWith(r.head, "\r\n\r\n")
  {
    OkFraming(Encode(text), "", map[], date);
    OkServesData(Encode(text), map[], date);
  }

  /** The 500 for a wrong parameter count is well framed. */
  lemma CountErrorFramed(count: nat, date: string)
    requires '\r' !in date
    ensures WellFramed(InternalServerError(CountMessage(count), date))
    ensures EndsWith(InternalServerError(CountMessage(count), date).head, "\r\n\r\n")
  {
    CountMessageIsAscii(count);
    InternalServerErrorFraming(CountMessage(count), date);
  }

  /** The 500 for a value that is not a number is well framed. */
  lemma NotNumericErrorFramed(date: string)
    requires '\r' !in date
    ensures WellFramed(InternalServerError(NOT_NUMERIC_MESSAGE, date))
    ensures EndsWith(InternalServerError(NOT_NUMERIC_MESSAGE, date).head, "\r\n\r\n")
  {
    NotNumericMessageIsAscii();
    InternalServerErrorFraming(NOT_NUMERIC_MESSAGE, date);
  }

  /** Every answer of the endpoint is a well-framed 200 or 500 whose header ends with a blank line. */
  lemma AreaResponsesWellFramed(request: string, date: string)
    requires '\r' !in date
    ensures var r := CalculateArea(request, date);
      (r.code == 200 || r.code == 500) && WellFramed(r) && EndsWith(r.head, "\r\n\r\n")
  {
    var parameters := Parameters(request);
    if |parameters| != 2 {
      CountErrorFramed(|parameters|, date);
    } else {
      var height := AfterLast(parameters[0], '=');
      var width := AfterLast(parameters[1], '=');
      if !IsNumeric(height) || !IsNumeric(width) {
        NotNumericErrorFramed(date);
      } else {
        var text := AreaText(Product(ParseNat(height), ParseNat(width)));
        AreaOkFramed(text, date);
      }
    }
  }
}
