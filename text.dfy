/** String primitives the server is built from, with Python's meaning:
    `str.split(sep)`, `str.split()`, `str.strip(c)`, `startswith`,
    `endswith`, `in`, `int()` / `str()` on naturals and `str.encode()`. */
module Text {

  type Byte = b: int | 0 <= b < 256

  datatype Option<T> = None | Some(value: T)

  predicate StartsWith(s: string, prefix: string) {
    |prefix| <= |s| && s[..|prefix|] == prefix
  }

  predicate EndsWith(s: string, suffix: string) {
    |suffix| <= |s| && s[|s| - |suffix|..] == suffix
  }

  /** `part` occurs in `s` at index `i`. */
  predicate OccursAt(s: string, part: string, i: int) {
    0 <= i <= |s| - |part| && s[i..i + |part|] == part
  }

  /** Python's `part in s` on strings. */
  predicate Contains(s: string, part: string) {
    exists i | 0 <= i <= |s| - |part| :: OccursAt(s, part, i)
  }

  // ---------------------------------------------------------------------
  // s.split(sep) for a one-character separator

  /** `s.split(sep)`: the pieces between occurrences of `sep`; never empty. */
  function Split(s: string, sep: char): (parts: seq<string>)
    ensures |parts| > 0
    ensures forall k :: 0 <= k < |parts| ==> sep !in parts[k]
  {
    if s == [] then [""]
    else
      var rest := Split(s[1..], sep);
      if s[0] == sep then [""] + rest
      else [[s[0]] + rest[0]] + rest[1..]
  }

  /** The number of occurrences of `c` in `s`. */
  function Occurrences(s: string, c: char): nat {
    if s == [] then 0 else (if s[0] == c then 1 else 0) + Occurrences(s[1..], c)
  }

  /** `s.split(sep)` has one piece more than `s` has separators. */
  lemma {:induction false} SplitCount(s: string, sep: char)
    ensures |Split(s, sep)| == Occurrences(s, sep) + 1
    ensures Occurrences(s, sep) == 0 <==> sep !in s
  {
    if s != [] {
      SplitCount(s[1..], sep);
      assert s == [s[0]] + s[1..];
    }
  }

  /** `sep.join(parts)`: the inverse of `Split`. */
  function Join(parts: seq<string>, sep: char): string
    requires |parts| > 0
  {
    if |parts| == 1 then parts[0] else parts[0] + [sep] + Join(parts[1..], sep)
  }

  lemma {:induction false} JoinOfSplit(s: string, sep: char)
    ensures Join(Split(s, sep), sep) == s
  {
    if s != [] {
      JoinOfSplit(s[1..], sep);
      var rest := Split(s[1..], sep);
      if s[0] == sep {
        assert Split(s, sep)[1..] == rest;
      } else {
        var parts := Split(s, sep);
        if |rest| == 1 {
          assert parts == [[s[0]] + rest[0]];
        } else {
          assert parts[1..] == rest[1..];
          assert Join(rest, sep) == rest[0] + [sep] + Join(rest[1..], sep);
        }
      }
    }
  }

  /** Splitting a separator-free prefix glued to `t` extends the first piece of `t`. */
  lemma {:induction false} SplitPrefix(a: string, sep: char, t: string)
    requires sep !in a
    ensures Split(a + t, sep) == [a + Split(t, sep)[0]] + Split(t, sep)[1..]
  {
    if a == [] {
      var parts := Split(t, sep);
      assert a + t == t && a + parts[0] == parts[0];
      assert parts == [parts[0]] + parts[1..];
    } else {
      SplitPrefix(a[1..], sep, t);
      assert (a + t)[1..] == a[1..] + t;
      assert [a[0]] + (a[1..] + Split(t, sep)[0]) == a + Split(t, sep)[0];
    }
  }

  lemma {:induction false} SplitOfJoin(parts: seq<string>, sep: char)
    requires |parts| > 0
    requires forall k :: 0 <= k < |parts| ==> sep !in parts[k]
    ensures Split(Join(parts, sep), sep) == parts
  {
    if |parts| == 1 {
      SplitPrefix(parts[0], sep, "");
      assert parts[0] + "" == parts[0];
    } else {
      SplitOfJoin(parts[1..], sep);
      var t := [sep] + Join(parts[1..], sep);
      assert t[1..] == Join(parts[1..], sep);
      assert Split(t, sep) == [""] + parts[1..];
      SplitPrefix(parts[0], sep, t);
      assert parts[0] + t == Join(parts, sep);
      assert parts[0] + "" == parts[0];
      assert parts == [parts[0]] + parts[1..];
    }
  }

  /** `s.split(sep)[-1]`: the text after the last `sep` (all of `s` when there is none). */
  function AfterLast(s: string, sep: char): string {
    var parts := Split(s, sep);
    parts[|parts| - 1]
  }

  /** One step of `AfterLast` from the front: a leading character is kept only when no separator follows it. */
  lemma {:induction false} AfterLastStep(s: string, sep: char)
    requires s != []
    ensures s[0] != sep && sep !in s[1..] ==> AfterLast(s, sep) == s
    ensures s[0] == sep || sep in s[1..] ==> AfterLast(s, sep) == AfterLast(s[1..], sep)
  {
    var tail := s[1..];
    var rest := Split(tail, sep);
    SplitCount(tail, sep);
    if s[0] != sep && sep !in tail {
      SplitOfJoin([tail], sep);
      assert rest == [tail];
      assert [s[0]] + tail == s;
    }
  }

  /** `AfterLast` is the longest separator-free suffix. */
  lemma {:induction false} AfterLastIsSuffix(s: string, sep: char)
    ensures var t := AfterLast(s, sep);
      && sep !in t
      && EndsWith(s, t)
      && (|t| < |s| ==> s[|s| - |t| - 1] == sep)
  {
    if s == [] {
      assert AfterLast(s, sep) == "";
    } else {
      var tail := s[1..];
      AfterLastStep(s, sep);
      if s[0] == sep || sep in tail {
        AfterLastIsSuffix(tail, sep);
        var t := AfterLast(tail, sep);
        assert EndsWith(s, t) by {
          assert s[|s| - |t|..] == tail[|tail| - |t|..];
        }
        if |t| == |tail| {
          assert t == tail;
          assert s[|s| - |t| - 1] == s[0];
        } else {
          assert s[|s| - |t| - 1] == tail[|tail| - |t| - 1];
        }
      } else {
        assert s == [s[0]] + tail;
        assert s[|s| - |s|..] == s;
      }
    }
  }

  /** The text after a separator that is not followed by another is what `AfterLast` returns. */
  lemma {:induction false} AfterLastOf(a: string, sep: char, b: string)
    requires sep !in b
    ensures AfterLast(a + [sep] + b, sep) == b
  {
    var s := a + [sep] + b;
    AfterLastStep(s, sep);
    if a == [] {
      assert s[1..] == b;
      SplitOfJoin([b], sep);
    } else {
      assert s[1..] == a[1..] + [sep] + b;
      assert sep in s[1..] by {
        assert s[1..][|a| - 1] == sep;
      }
      AfterLastOf(a[1..], sep, b);
    }
  }

  // ---------------------------------------------------------------------
  // s.split('\r\n')

  /** `s.split('\r\n')`: the lines of `s`. */
  function Lines(s: string): (lines: seq<string>)
    ensures |lines| > 0
  {
    if |s| < 2 then [s]
    else if s[0] == '\r' && s[1] == '\n' then [""] + Lines(s[2..])
    else
      var rest := Lines(s[1..]);
      [[s[0]] + rest[0]] + rest[1..]
  }

  /** `s.split('\r\n')[0]`. */
  function FirstLine(s: string): string {
    Lines(s)[0]
  }

  /** `"\r\n" not in s`: `s` holds no line break, though it may hold a lone '\r'. */
  predicate SingleLine(s: string) {
    !Contains(s, "\r\n")
  }

  /** Text without a carriage return is a single line. */
  lemma CRFreeIsSingleLine(s: string)
    requires '\r' !in s
    ensures SingleLine(s)
  {
    forall i | 0 <= i <= |s| - 2
      ensures !OccursAt(s, "\r\n", i)
    {
      assert s[i..i + 2][0] == s[i];
    }
  }

  /** A single line does not start with "\r\n", and its tail is a single line too. */
  lemma SingleLineStep(s: string)
    requires s != [] && SingleLine(s)
    ensures !(|s| >= 2 && s[0] == '\r' && s[1] == '\n')
    ensures SingleLine(s[1..])
  {
    assert !OccursAt(s, "\r\n", 0);
    if |s| >= 2 {
      assert s[0..2][0] == s[0] && s[0..2][1] == s[1];
    }
    forall i | 0 <= i <= |s| - 3
      ensures !OccursAt(s[1..], "\r\n", i)
    {
      assert !OccursAt(s, "\r\n", i + 1);
      assert s[1..][i..i + 2] == s[i + 1..i + 3];
    }
  }

  /** Two single lines joined by a carriage return stay one line, unless the return would meet a
      '\n' at the start of the second or follow a '\r' that ends the first. */
  lemma LoneCRLine(a: string, b: string)
    requires SingleLine(a) && SingleLine(b)
    requires a == [] || a[|a| - 1] != '\r'
    requires b == [] || b[0] != '\n'
    ensures SingleLine(a + "\r" + b)
  {
    var s := a + "\r" + b;
    forall i | 0 <= i <= |s| - 2
      ensures !OccursAt(s, "\r\n", i)
    {
      assert s[i..i + 2][0] == s[i] && s[i..i + 2][1] == s[i + 1];
      if i + 1 < |a| {
        assert !OccursAt(a, "\r\n", i);
        assert a[i..i + 2][0] == a[i] && a[i..i + 2][1] == a[i + 1];
        assert s[i] == a[i] && s[i + 1] == a[i + 1];
      } else if i + 1 == |a| {
        assert s[i] == a[i];
      } else if i == |a| {
        assert s[i + 1] == b[0];
      } else {
        var k := i - |a| - 1;
        assert !OccursAt(b, "\r\n", k);
        assert b[k..k + 2][0] == b[k] && b[k..k + 2][1] == b[k + 1];
        assert s[i] == b[k] && s[i + 1] == b[k + 1];
      }
    }
  }

  /** A single line is exactly the first piece of `line + "\r\n" + rest`. */
  lemma {:induction false} LinesCons(line: string, rest: string)
    requires SingleLine(line)
    ensures Lines(line + "\r\n" + rest) == [line] + Lines(rest)
  {
    if line == [] {
      assert line + "\r\n" + rest == "\r\n" + rest;
      assert ("\r\n" + rest)[2..] == rest;
    } else {
      SingleLineStep(line);
      LinesCons(line[1..], rest);
      assert (line + "\r\n" + rest)[1..] == line[1..] + "\r\n" + rest;
      assert [line[0]] + line[1..] == line;
    }
  }

  /** Whatever follows the first "\r\n" never changes the first line. */
  lemma {:induction false} FirstLineIgnoresRest(a: string, b: string)
    ensures FirstLine(a + "\r\n" + b) == FirstLine(a)
  {
    var s := a + "\r\n" + b;
    if a == [] {
      assert s == "\r\n" + b;
    } else if |a| >= 2 && a[0] == '\r' && a[1] == '\n' {
      assert s[0] == '\r' && s[1] == '\n';
    } else if |a| == 1 {
      assert s[1..] == "\r\n" + b;
      assert s[1] == '\r';
      assert Lines(s[1..])[0] == "";
    } else {
      FirstLineIgnoresRest(a[1..], b);
      assert s[1..] == a[1..] + "\r\n" + b;
      assert s[1] == a[1];
    }
  }

  // ---------------------------------------------------------------------
  // s.split() on whitespace, and s.strip(c)

  /** The characters Python's `str.split()` treats as whitespace. */
  predicate IsSpace(c: char) {
    || ('\t' <= c <= '\r')
    || ('\U{1C}' <= c <= ' ')
    || c == '\U{85}' || c == '\U{A0}' || c == '\U{1680}'
    || ('\U{2000}' <= c <= '\U{200A}')
    || c == '\U{2028}' || c == '\U{2029}' || c == '\U{202F}' || c == '\U{205F}' || c == '\U{3000}'
  }

  predicate SpaceFree(s: string) {
    forall k :: 0 <= k < |s| ==> !IsSpace(s[k])
  }

  /** The longest whitespace-free prefix of `s`. */
  function Token(s: string): (t: string)
    ensures |t| <= |s| && t == s[..|t|] && SpaceFree(t)
    ensures |t| < |s| ==> IsSpace(s[|t|])
  {
    if s == [] || IsSpace(s[0]) then "" else [s[0]] + Token(s[1..])
  }

  /** `s.split()`: the maximal runs of non-whitespace characters, in order. */
  function Words(s: string): (words: seq<string>)
    ensures forall k :: 0 <= k < |words| ==> words[k] != "" && SpaceFree(words[k])
    decreases |s|
  {
    if s == [] then []
    else if IsSpace(s[0]) then Words(s[1..])
    else
      var t := Token(s);
      [t] + Words(s[|t|..])
  }

  /** `" ".join(words)`. */
  function JoinWords(words: seq<string>): string {
    if words == [] then ""
    else if |words| == 1 then words[0]
    else words[0] + " " + JoinWords(words[1..])
  }

  lemma JoinThreeWords(a: string, b: string, c: string)
    ensures JoinWords([a, b, c]) == a + " " + b + " " + c
  {
    assert [a, b, c][1..] == [b, c];
    assert [b, c][1..] == [c];
    assert JoinWords([b, c]) == b + " " + c;
    assert a + " " + (b + " " + c) == a + " " + b + " " + c;
  }

  lemma {:induction false} TokenOf(w: string, rest: string)
    requires SpaceFree(w)
    requires rest == [] || IsSpace(rest[0])
    ensures Token(w + rest) == w
  {
    if w == [] {
      assert w + rest == rest;
    } else {
      TokenOf(w[1..], rest);
      assert (w + rest)[1..] == w[1..] + rest;
      assert [w[0]] + w[1..] == w;
    }
  }

  /** A word followed by any whitespace character is the first word of the split. */
  lemma WordsAfterSeparator(w: string, c: char, u: string)
    requires w != "" && SpaceFree(w) && IsSpace(c)
    ensures Words(w + [c] + u) == [w] + Words(u)
  {
    var s := w + [c] + u;
    TokenOf(w, [c] + u);
    assert w + ([c] + u) == s;
    assert s[0] == w[0];
    assert s[|w|..] == [c] + u;
    assert ([c] + u)[1..] == u;
  }

  /** Joining non-empty whitespace-free words with single spaces and splitting again gives them back. */
  lemma {:induction false} WordsOfJoinWords(words: seq<string>)
    requires forall k :: 0 <= k < |words| ==> words[k] != "" && SpaceFree(words[k])
    ensures Words(JoinWords(words)) == words
  {
    if |words| == 1 {
      TokenOf(words[0], "");
      assert words[0] + "" == words[0];
      assert words[0][|words[0]|..] == "";
    } else if |words| > 1 {
      var w, u := words[0], JoinWords(words[1..]);
      var s := w + " " + u;
      TokenOf(w, " " + u);
      assert w + (" " + u) == s;
      assert s[|w|..] == " " + u;
      assert (" " + u)[1..] == u;
      assert Words(" " + u) == Words(u);
      assert Words(s) == [w] + Words(" " + u);
      WordsOfJoinWords(words[1..]);
      assert words == [w] + words[1..];
    }
  }

  /** `n` copies of `c`. */
  function Repeat(c: char, n: nat): string {
    seq(n, _ => c)
  }

  /** A run of `c` one longer is one more `c` on either end. */
  lemma RepeatOneMore(c: char, n: nat)
    ensures Repeat(c, n + 1) == [c] + Repeat(c, n) == Repeat(c, n) + [c]
  {
  }

  /** `s.lstrip(c)`: `s` is a run of `c` followed by the result, which does not start with `c`. */
  function TrimStart(s: string, c: char): (r: string)
    ensures |r| <= |s| && s == Repeat(c, |s| - |r|) + r
    ensures r == [] || r[0] != c
  {
    if s != [] && s[0] == c then
      var r := TrimStart(s[1..], c);
      RepeatOneMore(c, |s| - 1 - |r|);
      assert s == [c] + s[1..];
      r
    else
      assert s == Repeat(c, 0) + s;
      s
  }

  /** A run of `c` is removed entirely by `lstrip(c)`. */
  lemma {:induction false} TrimStartOfRun(c: char, n: nat)
    ensures TrimStart(Repeat(c, n), c) == ""
  {
    if n > 0 {
      var s := Repeat(c, n);
      assert s[0] == c && s[1..] == Repeat(c, n - 1);
      TrimStartOfRun(c, n - 1);
    }
  }

  /** `s.rstrip(c)`: `s` is the result followed by a run of `c`, and the result does not end with `c`. */
  function TrimEnd(s: string, c: char): (r: string)
    ensures |r| <= |s| && s == r + Repeat(c, |s| - |r|)
    ensures r == [] || r[|r| - 1] != c
  {
    if s != [] && s[|s| - 1] == c then
      var r := TrimEnd(s[..|s| - 1], c);
      RepeatOneMore(c, |s| - 1 - |r|);
      assert s == s[..|s| - 1] + [c];
      r
    else
      assert s == s + Repeat(c, 0);
      s
  }

  /** `s.strip(c)`: every leading and every trailing `c` removed. */
  function Strip(s: string, c: char): string {
    TrimEnd(TrimStart(s, c), c)
  }

  /** `Strip` removes exactly a run of `c` on either side and leaves a middle that neither starts nor ends with `c`. */
  lemma {:induction false} StripSpec(s: string, c: char)
    ensures var r := Strip(s, c);
      && (r == [] || (r[0] != c && r[|r| - 1] != c))
      && exists i, j :: s == Repeat(c, i) + r + Repeat(c, j)
  {
    var l := TrimStart(s, c);
    var r := TrimEnd(l, c);
    var i, j := |s| - |l|, |l| - |r|;
    assert s == Repeat(c, i) + l && l == r + Repeat(c, j);
    assert s == Repeat(c, i) + r + Repeat(c, j);
    if r != [] {
      assert r[0] == l[0];
    }
  }

  lemma {:induction false} StripIdempotent(s: string, c: char)
    ensures Strip(Strip(s, c), c) == Strip(s, c)
  {
    var l := TrimStart(s, c);
    var r := TrimEnd(l, c);
    if r != [] {
      assert r[0] == l[0];
      assert TrimStart(r, c) == r;
      assert TrimEnd(r, c) == r;
    }
  }

  // ---------------------------------------------------------------------
  // Decimal digits: str.isnumeric, int() and str() on naturals

  predicate IsDigit(c: char) {
    '0' <= c <= '9'
  }

  /** `s.isnumeric()`, restricted to ASCII digits: non-empty and digits only. */
  predicate IsNumeric(s: string) {
    |s| > 0 && forall k :: 0 <= k < |s| ==> IsDigit(s[k])
  }

  function DigitChar(d: nat): (c: char)
    requires d < 10
    ensures IsDigit(c) && c as int - '0' as int == d
  {
    (('0' as int) + d) as char
  }

  /** `str(n)` for a natural number: decimal, without leading zeros. */
  function NatToString(n: nat): (s: string)
    ensures IsNumeric(s)
    ensures s[0] == '0' ==> s == "0"
    ensures s[0] == '0' <==> n == 0
  {
    if n < 10 then [DigitChar(n)] else NatToString(n / 10) + [DigitChar(n % 10)]
  }

  function DigitValue(c: char): (d: nat)
    requires IsDigit(c)
    ensures d < 10 && DigitChar(d) == c
  {
    c as int - '0' as int
  }

  /** `int(s)` for a string of ASCII digits (leading zeros allowed). */
  function ParseNat(s: string): nat
    requires forall k :: 0 <= k < |s| ==> IsDigit(s[k])
  {
    if s == [] then 0 else 10 * ParseNat(s[..|s| - 1]) + DigitValue(s[|s| - 1])
  }

  lemma {:induction false} ParseNatOfNatToString(n: nat)
    ensures ParseNat(NatToString(n)) == n
  {
    if n >= 10 {
      ParseNatOfNatToString(n / 10);
      var s := NatToString(n);
      assert s[..|s| - 1] == NatToString(n / 10);
    }
  }

  // ---------------------------------------------------------------------
  // str.encode(): UTF-8

  predicate IsAscii(s: string) {
    forall k :: 0 <= k < |s| ==> s[k] as int < 0x80
  }

  /** The UTF-8 bytes of one character. */
  function EncodeChar(c: char): (bytes: seq<Byte>)
    ensures 1 <= |bytes| <= 4
    ensures |bytes| == 1 <==> c as int < 0x80
  {
    var n := c as int;
    if n < 0x80 then [n]
    else if n < 0x800 then [0xC0 + n / 0x40, 0x80 + n % 0x40]
    else if n < 0x1_0000 then [0xE0 + n / 0x1000, 0x80 + n / 0x40 % 0x40, 0x80 + n % 0x40]
    else [0xF0 + n / 0x4_0000, 0x80 + n / 0x1000 % 0x40, 0x80 + n / 0x40 % 0x40, 0x80 + n % 0x40]
  }

  /** `s.encode()`: UTF-8, at least one byte per character. */
  function Encode(s: string): (bytes: seq<Byte>)
    ensures |bytes| >= |s|
  {
    if s == [] then [] else Encode(s[..|s| - 1]) + EncodeChar(s[|s| - 1])
  }

  /** An ASCII string encodes to one byte per character, that character's code. */
  lemma {:induction false} EncodeAscii(s: string)
    requires IsAscii(s)
    ensures |Encode(s)| == |s|
    ensures forall k :: 0 <= k < |s| ==> Encode(s)[k] == s[k] as int
  {
    if s != [] {
      var init := s[..|s| - 1];
      assert IsAscii(init) by {
        forall k | 0 <= k < |init| ensures init[k] as int < 128 {
          assert init[k] == s[k];
        }
      }
      EncodeAscii(init);
      assert Encode(s) == Encode(init) + [s[|s| - 1] as int];
    }
  }

  /** Encoding one more character appends that character's bytes. */
  lemma EncodeSnoc(s: string, c: char)
    ensures Encode(s + [c]) == Encode(s) + EncodeChar(c)
  {
    var t := s + [c];
    assert t[..|t| - 1] == s && t[|t| - 1] == c;
  }

  /** Encoding distributes over concatenation, so `(a + b).encode() == a.encode() + b.encode()`. */
  lemma {:induction false} EncodeAppend(a: string, b: string)
    ensures Encode(a + b) == Encode(a) + Encode(b)
  {
    if b == [] {
      assert a + b == a;
    } else {
      var init, last := b[..|b| - 1], b[|b| - 1];
      assert b == init + [last];
      assert a + b == (a + init) + [last];
      calc {
        Encode(a + b);
        { EncodeSnoc(a + init, last); }
        Encode(a + init) + EncodeChar(last);
        { EncodeAppend(a, init); }
        (Encode(a) + Encode(init)) + EncodeChar(last);
        Encode(a) + (Encode(init) + EncodeChar(last));
        { EncodeSnoc(init, last); }
        Encode(a) + Encode(b);
      }
    }
  }

  lemma NatToStringIsAscii(n: nat)
    ensures IsAscii(NatToString(n))
  {
  }
}
