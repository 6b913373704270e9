/** HTTP/1.1 messages on the wire, as sections 3, 5 and 6.3 of RFC 9112 frame them: a start line, header
    lines, a blank line and a body of Content-Length bytes. */
module Http {
  import opened Prelude
  import opened Texts

  type Header = (Text, Text)

  datatype Request = Request(method_: Text, target: Text, headers: seq<Header>, body: Bytes)

  datatype Response = Response(status: u16, headers: seq<Header>, body: Bytes)

  const LF: byte := 10
  const CR: byte := 13
  const SPACE: byte := 32
  const COLON: byte := 58
  const CRLF: Text := [13, 10]
  const HTTP_1_1: Text := [72, 84, 84, 80, 47, 49, 46, 49]
  const CONTENT_LENGTH: Text := [67, 111, 110, 116, 101, 110, 116, 45, 76, 101, 110, 103, 116, 104]
  const CONNECTION: Text := [67, 111, 110, 110, 101, 99, 116, 105, 111, 110]
  const CLOSE: Text := [99, 108, 111, 115, 101]

  // ---- Characters ----

  function LowerByte(b: byte): byte {
    if 65 <= b <= 90 then b + 32 else b
  }

  /** `eq_ignore_ascii_case`. */
  predicate SameName(a: Text, b: Text) {
    |a| == |b| && forall i :: 0 <= i < |a| ==> LowerByte(a[i]) == LowerByte(b[i])
  }

  /** Length of the white-space character `s` starts with, 0 if it starts with none. */
  function LeadingSpace(s: Text): (n: nat)
    ensures n <= |s|
  {
    if |s| >= 1 && (s[0] == 32 || 9 <= s[0] <= 13) then 1
    else if |s| >= 2 && s[0] == 0xC2 && (s[1] == 0x85 || s[1] == 0xA0) then 2
    else if |s| >= 3 && IsWideSpace(s[0], s[1], s[2]) then 3
    else 0
  }

  function TrailingSpace(s: Text): (n: nat)
    ensures n <= |s|
  {
    var m := |s|;
    if m >= 1 && (s[m - 1] == 32 || 9 <= s[m - 1] <= 13) then 1
    else if m >= 2 && s[m - 2] == 0xC2 && (s[m - 1] == 0x85 || s[m - 1] == 0xA0) then 2
    else if m >= 3 && IsWideSpace(s[m - 3], s[m - 2], s[m - 1]) then 3
    else 0
  }

  /** U+1680, U+2000 to U+200A, U+2028, U+2029, U+202F, U+205F and U+3000. */
  predicate IsWideSpace(a: byte, b: byte, c: byte) {
    || (a == 0xE1 && b == 0x9A && c == 0x80)
    || (a == 0xE2 && b == 0x80 && (0x80 <= c <= 0x8A || c == 0xA8 || c == 0xA9 || c == 0xAF))
    || (a == 0xE2 && b == 0x81 && c == 0x9F)
    || (a == 0xE3 && b == 0x80 && c == 0x80)
  }

  function TrimStart(s: Text): Text {
    if LeadingSpace(s) == 0 then s else TrimStart(s[LeadingSpace(s)..])
  }

  function TrimEnd(s: Text): Text {
    if TrailingSpace(s) == 0 then s else TrimEnd(s[..|s| - TrailingSpace(s)])
  }

  function Trim(s: Text): Text {
    TrimEnd(TrimStart(s))
  }

  /** Position of the first `b`, or the length if there is none. */
  function IndexOf(s: Text, b: byte): (i: nat)
    ensures i <= |s|
    ensures i < |s| ==> s[i] == b
    ensures forall j :: 0 <= j < i ==> s[j] != b
  {
    if s == [] || s[0] == b then 0 else 1 + IndexOf(s[1..], b)
  }

  // ---- Numbers ----

  function Show(n: nat): Text {
    if n < 10 then [48 + n] else Show(n / 10) + [48 + n % 10]
  }

  predicate IsDigit(b: byte) {
    48 <= b <= 57
  }

  predicate AllDigits(s: Text) {
    forall i :: 0 <= i < |s| ==> IsDigit(s[i])
  }

  function Value(s: Text): nat
    requires AllDigits(s)
  {
    if s == [] then 0 else 10 * Value(s[..|s| - 1]) + (s[|s| - 1] - 48)
  }

  /** An unsigned integer up to `max`: an optional plus sign, then at least one digit. */
  function ParseNumber(s: Text, max: nat): (n: Option<nat>)
    ensures n.Some? ==> n.value <= max
  {
    var digits := if s != [] && s[0] == 43 then s[1..] else s;
    if digits == [] || !AllDigits(digits) || Value(digits) > max then None else Some(Value(digits))
  }

  // ---- Lines ----

  /** Length of the first line of `s`, its line feed included. */
  function LineLength(s: Bytes): (n: nat)
    ensures n <= |s|
    ensures s != [] ==> n > 0
  {
    if s == [] then 0 else if s[0] == LF then 1 else 1 + LineLength(s[1..])
  }

  function StripEol(line: Text): Text {
    if line != [] && (line[|line| - 1] == CR || line[|line| - 1] == LF)
    then StripEol(line[..|line| - 1])
    else line
  }

  /** Nothing sent, a malformed message with what is left unread, a body cut short, or a message with
      what follows it. */
  datatype Parsed<T> = Eof | Malformed(rest: Bytes) | Truncated | Got(value: T, rest: Bytes)

  /** Header lines up to a blank line or the end of the input. */
  function TakeHeaders(s: Bytes, headers: seq<Header>): (r: Parsed<seq<Header>>)
    ensures r.Got? || r.Malformed?
    decreases |s|
  {
    if s == [] then Got(headers, s)
    else
      var line, rest := s[..LineLength(s)], s[LineLength(s)..];
      if !IsUtf8(line) then Malformed(rest)
      else
        var text := StripEol(line);
        var i := IndexOf(text, COLON);
        if text == [] then Got(headers, rest)
        else if i == |text| then Malformed(rest)
        else TakeHeaders(rest, headers + [(Trim(text[..i]), Trim(text[i + 1..]))])
  }

  /** The first header of that name. */
  function Find(headers: seq<Header>, name: Text): Option<Text> {
    if headers == [] then None
    else if SameName(headers[0].0, name) then Some(headers[0].1)
    else Find(headers[1..], name)
  }

  function ContentLength(headers: seq<Header>): Option<nat> {
    var text :- Find(headers, CONTENT_LENGTH);
    ParseNumber(text, U64_MAX)
  }

  // ---- Messages ----

  function ParseRequest(s: Bytes): Parsed<Request> {
    if s == [] then Eof
    else
      var line, rest := s[..LineLength(s)], s[LineLength(s)..];
      if !IsUtf8(line) then Malformed(rest)
      else
        var text := StripEol(line);
        var i := IndexOf(text, SPACE);
        var after := if i < |text| then text[i + 1..] else [];
        var target := after[..IndexOf(after, SPACE)];
        if i == 0 || target == [] then Malformed(rest)
        else
          var taken := TakeHeaders(rest, []);
          if taken.Malformed? then Malformed(taken.rest)
          else
            var headers, body := taken.value, taken.rest;
            var length := match ContentLength(headers) case Some(n) => n case None => 0;
            if length > |body| then Truncated
            else Got(Request(text[..i], target, headers, body[..length]), body[length..])
  }

  function ParseResponse(s: Bytes): Parsed<Response> {
    if s == [] then Malformed(s)
    else
      var line, rest := s[..LineLength(s)], s[LineLength(s)..];
      if !IsUtf8(line) then Malformed(rest)
      else
        var text := StripEol(line);
        var i := IndexOf(text, SPACE);
        var after := if i < |text| then text[i + 1..] else [];
        var status := ParseNumber(after[..IndexOf(after, SPACE)], 0xFFFF);
        if status == None || i == |text| then Malformed(rest)
        else
          var taken := TakeHeaders(rest, []);
          if taken.Malformed? then Malformed(taken.rest)
          else
            var headers, body := taken.value, taken.rest;
            var length := match ContentLength(headers) case Some(n) => n case None => |body|;
            if length > |body| then Truncated
            else Got(Response(status.value, headers, body[..length]), body[length..])
  }

  function HeaderLine(h: Header): Text {
    h.0 + ([COLON, SPACE] + (h.1 + CRLF))
  }

  function HeaderLines(headers: seq<Header>): Text {
    if headers == [] then [] else HeaderLine(headers[0]) + HeaderLines(headers[1..])
  }

  /** The headers whose name is none of `owned`. */
  function Others(headers: seq<Header>, owned: seq<Text>): (r: seq<Header>)
    ensures forall i :: 0 <= i < |r| ==> r[i] in headers
    ensures forall i, j :: 0 <= i < |r| && 0 <= j < |owned| ==> !SameName(r[i].0, owned[j])
  {
    if headers == [] then []
    else
      (if exists j :: 0 <= j < |owned| && SameName(headers[0].0, owned[j]) then [] else [headers[0]])
      + Others(headers[1..], owned)
  }

  function SentRequestHeaders(r: Request): seq<Header> {
    Others(r.headers, [CONTENT_LENGTH, CONNECTION]) + [(CONTENT_LENGTH, Show(|r.body|)), (CONNECTION, CLOSE)]
  }

  function WriteRequest(r: Request): Bytes {
    r.method_ + ([SPACE] + (r.target + ([SPACE] + (HTTP_1_1 + CRLF))))
    + (HeaderLines(SentRequestHeaders(r)) + (CRLF + r.body))
  }

  function SentResponseHeaders(r: Response): seq<Header> {
    [(CONTENT_LENGTH, Show(|r.body|))] + Others(r.headers, [CONTENT_LENGTH])
  }

  predicate Plain(s: Text) {
    forall i :: 0 <= i < |s| ==> s[i] < 0x80 && s[i] != CR && s[i] != LF
  }

  /** Printable ASCII as bytes; any other character becomes a question mark. */
  function Ascii(s: string): (t: Text)
    ensures Plain(t)
    ensures |t| == |s| && forall i :: 0 <= i < |s| && ' ' <= s[i] <= '~' ==> t[i] == s[i] as int
  {
    if s == "" then [] else [if ' ' <= s[0] <= '~' then s[0] as int else 63] + Ascii(s[1..])
  }

  function Reason(status: u16): Text {
    match status
    case 200 => Ascii("OK")
    case 201 => Ascii("Created")
    case 400 => Ascii("Bad Request")
    case 409 => Ascii("Conflict")
    case 422 => Ascii("Unprocessable Entity")
    case 429 => Ascii("Too Many Requests")
    case 500 => Ascii("Internal Server Error")
    case 502 => Ascii("Bad Gateway")
    case _ => Ascii("Status")
  }

  function WriteResponse(r: Response): Bytes {
    HTTP_1_1 + ([SPACE] + (Show(r.status) + ([SPACE] + (Reason(r.status) + CRLF))))
    + (HeaderLines(SentResponseHeaders(r)) + (CRLF + r.body))
  }

  // ---- Numbers read back ----

  lemma {:induction false} ShowsDigits(n: nat)
    ensures Show(n) != [] && AllDigits(Show(n)) && Value(Show(n)) == n
    ensures n > 0 ==> Show(n)[0] != 48
    ensures n == 0 ==> |Show(n)| == 1
  {
    if n >= 10 {
      ShowsDigits(n / 10);
      assert Show(n)[..|Show(n)| - 1] == Show(n / 10);
    } else {
      assert [48 + n][..0] == [];
    }
  }

  lemma NumberReadsBack(n: nat, max: nat)
    ensures ParseNumber(Show(n), max) == if n <= max then Some(n) else None
  {
    ShowsDigits(n);
  }

  // ---- Lines read back ----

  /** Text without a line feed. */
  predicate Unbroken(s: Text) {
    IsUtf8(s) && forall i :: 0 <= i < |s| ==> s[i] != LF
  }

  /** Text that stays whole when it is written as a line: a carriage return may stand inside it. */
  predicate Line(s: Text) {
    Unbroken(s) && (s != [] ==> s[|s| - 1] != CR)
  }

  predicate Trimmed(s: Text) {
    LeadingSpace(s) == 0 && TrailingSpace(s) == 0
  }

  lemma LineReadsBack(s: Text, rest: Bytes)
    requires Line(s)
    ensures LineLength(s + (CRLF + rest)) == |s| + 2
  {
    LineLengthSkips(s, CRLF + rest);
    assert (CRLF + rest)[0] == CR && (CRLF + rest)[1..][0] == LF;
  }

  lemma {:induction false} LineLengthSkips(s: Text, rest: Bytes)
    requires forall i :: 0 <= i < |s| ==> s[i] != LF
    ensures LineLength(s + rest) == |s| + LineLength(rest)
    decreases |s|
  {
    if s == [] {
      assert s + rest == rest;
    } else {
      assert (s + rest)[1..] == s[1..] + rest;
      LineLengthSkips(s[1..], rest);
    }
  }

  lemma EolStrips(s: Text)
    requires Line(s)
    ensures StripEol(s + CRLF) == s
  {
    var t := s + CRLF;
    assert t[..|t| - 1] == s + [CR];
    assert (s + [CR])[..|s|] == s;
    assert StripEol(t) == StripEol(s + [CR]);
    assert StripEol(s + [CR]) == StripEol(s);
    if s != [] {
      assert s[|s| - 1] != CR && s[|s| - 1] != LF;
    }
  }

  /** A line written with its line end is read as itself, and what follows it is left. */
  lemma TakesLine(s: Text, rest: Bytes)
    requires Line(s)
    ensures var all := s + (CRLF + rest);
            var n := LineLength(all);
            && n <= |all| && IsUtf8(all[..n]) && StripEol(all[..n]) == s && all[n..] == rest
  {
    LineReadsBack(s, rest);
    var all := s + (CRLF + rest);
    assert all[..|s| + 2] == s + CRLF && all[|s| + 2..] == rest;
    AsciiIsUtf8(CRLF);
    Utf8Append(s, CRLF);
    EolStrips(s);
  }

  predicate GoodHeader(h: Header) {
    Unbroken(h.0) && Unbroken(h.1) && Trimmed(h.0) && Trimmed(h.1) && COLON !in h.0
  }

  predicate GoodHeaders(headers: seq<Header>) {
    forall i :: 0 <= i < |headers| ==> GoodHeader(headers[i])
  }

  lemma ValueTrims(v: Text)
    requires Trimmed(v)
    ensures Trim([SPACE] + v) == v
  {
    assert LeadingSpace([SPACE] + v) == 1 && ([SPACE] + v)[1..] == v;
    assert TrimStart([SPACE] + v) == TrimStart(v);
  }

  lemma HeaderIsLine(h: Header)
    requires GoodHeader(h)
    ensures Line(h.0 + ([COLON, SPACE] + h.1))
  {
    hide IsUtf8, LeadingSpace;
    AsciiIsUtf8([COLON, SPACE]);
    Utf8Append([COLON, SPACE], h.1);
    Utf8Append(h.0, [COLON, SPACE] + h.1);
  }

  lemma HeaderReadsBack(h: Header, rest: Bytes, headers: seq<Header>)
    requires GoodHeader(h)
    ensures TakeHeaders(HeaderLine(h) + rest, headers) == TakeHeaders(rest, headers + [h])
  {
    hide IsUtf8, LineLength, StripEol, Trim, Trimmed;
    var text := h.0 + ([COLON, SPACE] + h.1);
    HeaderIsLine(h);
    TakesLine(text, rest);
    assert HeaderLine(h) + rest == text + (CRLF + rest);
    var i := |h.0|;
    assert text[..i] == h.0 && text[i] == COLON && text[i + 1..] == [SPACE] + h.1;
    assert IndexOf(text, COLON) == i;
    ValueTrims(h.1);
    assert Trim(h.0) == h.0 by {
      TrimmedTrims(h.0);
    }
  }

  lemma TrimmedTrims(s: Text)
    requires Trimmed(s)
    ensures Trim(s) == s
  {
  }

  lemma BlankLineEnds(rest: Bytes, headers: seq<Header>)
    ensures TakeHeaders(CRLF + rest, headers) == Got(headers, rest)
  {
    hide LineLength, StripEol;
    AsciiIsUtf8([]);
    TakesLine([], rest);
    assert [] + (CRLF + rest) == CRLF + rest;
  }

  lemma {:induction false} HeadersReadBack(sent: seq<Header>, rest: Bytes, headers: seq<Header>)
    requires GoodHeaders(sent)
    ensures TakeHeaders(HeaderLines(sent) + (CRLF + rest), headers) == Got(headers + sent, rest)
    decreases |sent|
  {
    hide TakeHeaders, GoodHeader, HeaderLine;
    if sent == [] {
      BlankLineEnds(rest, headers);
      assert HeaderLines(sent) + (CRLF + rest) == CRLF + rest;
      assert headers + sent == headers;
    } else {
      var h := sent[0];
      Associate(HeaderLine(h), HeaderLines(sent[1..]), CRLF + rest);
      HeaderReadsBack(h, HeaderLines(sent[1..]) + (CRLF + rest), headers);
      HeadersReadBack(sent[1..], rest, headers + [h]);
      assert headers + [h] + sent[1..] == headers + sent;
    }
  }

  // ---- What the parsers deliver ----

  lemma {:induction false} OneLine(s: Bytes)
    ensures forall i :: 0 <= i < LineLength(s) - 1 ==> s[i] != LF
  {
    if s != [] && s[0] != LF {
      OneLine(s[1..]);
      assert forall i :: 1 <= i < LineLength(s) - 1 ==> s[i] == s[1..][i - 1];
    }
  }

  lemma {:induction false} Stripped(line: Text) returns (k: nat)
    ensures k <= |line| && StripEol(line) == line[..k]
    ensures forall i :: k <= i < |line| ==> line[i] == CR || line[i] == LF
    ensures k > 0 ==> line[k - 1] != CR && line[k - 1] != LF
  {
    k := |line|;
    if line != [] && (line[k - 1] == CR || line[k - 1] == LF) {
      var init := line[..k - 1];
      k := Stripped(init);
      assert init[..k] == line[..k];
    }
  }

  /** A line that was read is text that can be written as a line again. */
  lemma ReadIsLine(s: Bytes)
    requires IsUtf8(s[..LineLength(s)])
    ensures Line(StripEol(s[..LineLength(s)]))
  {
    hide IsUtf8, LineLength, StripEol;
    var line := s[..LineLength(s)];
    OneLine(s);
    var k := Stripped(line);
    assert line == line[..k] + line[k..];
    Utf8Splits(line[..k], line[k..]);
  }

  lemma CutAtAscii(s: Text, i: nat)
    requires Unbroken(s) && i < |s| && s[i] < 0x80
    ensures Unbroken(s[..i]) && Unbroken(s[i + 1..])
  {
    assert s == s[..i] + s[i..];
    Utf8Splits(s[..i], s[i..]);
    assert CharLength(s[i..]) == 1 && s[i..][1..] == s[i + 1..];
  }

  lemma {:induction false} TrimStartGood(s: Text)
    requires Unbroken(s)
    ensures Unbroken(TrimStart(s)) && LeadingSpace(TrimStart(s)) == 0
  {
    var n := LeadingSpace(s);
    if n > 0 {
      assert CharLength(s) == n;
      TrimStartGood(s[n..]);
    }
  }

  lemma {:induction false} TrimEndGood(s: Text)
    requires Unbroken(s)
    ensures Unbroken(TrimEnd(s)) && TrailingSpace(TrimEnd(s)) == 0 && TrimEnd(s) <= s
  {
    var n := TrailingSpace(s);
    if n > 0 {
      var k := |s| - n;
      assert s == s[..k] + s[k..];
      assert !Continuation(s[k..][0]);
      Utf8Splits(s[..k], s[k..]);
      TrimEndGood(s[..k]);
    }
  }

  lemma TrimGood(s: Text)
    requires Unbroken(s)
    ensures Unbroken(Trim(s)) && Trimmed(Trim(s))
    ensures forall b :: b in Trim(s) ==> b in s
  {
    hide IsUtf8, TrimStart, TrimEnd;
    TrimStartGood(s);
    TrimEndGood(TrimStart(s));
    TrimStartSuffix(s);
  }

  lemma {:induction false} TrimStartSuffix(s: Text)
    ensures forall b :: b in TrimStart(s) ==> b in s
  {
    if LeadingSpace(s) > 0 {
      TrimStartSuffix(s[LeadingSpace(s)..]);
    }
  }

  /** Headers that were read are well formed. */
  lemma {:induction false} TakenAreGood(s: Bytes, headers: seq<Header>)
    requires GoodHeaders(headers)
    ensures TakeHeaders(s, headers).Got? ==> GoodHeaders(TakeHeaders(s, headers).value)
    decreases |s|
  {
    hide IsUtf8, LineLength, StripEol, Trim, Trimmed;
    if s != [] {
      var line, rest := s[..LineLength(s)], s[LineLength(s)..];
      var text := StripEol(line);
      var i := IndexOf(text, COLON);
      if IsUtf8(line) && i < |text| {
        ReadIsLine(s);
        CutAtAscii(text, i);
        TrimGood(text[..i]);
        TrimGood(text[i + 1..]);
        var h := (Trim(text[..i]), Trim(text[i + 1..]));
        assert GoodHeader(h);
        TakenAreGood(rest, headers + [h]);
      }
    }
  }

  // ---- Messages read back ----

  lemma {:induction false} OthersGood(headers: seq<Header>, owned: seq<Text>)
    requires GoodHeaders(headers)
    ensures GoodHeaders(Others(headers, owned))
  {
    hide GoodHeader, SameName;
    forall i | 0 <= i < |Others(headers, owned)|
      ensures GoodHeader(Others(headers, owned)[i])
    {
      assert Others(headers, owned)[i] in headers;
    }
  }

  lemma DigitsGood(n: nat)
    ensures GoodHeader((CONTENT_LENGTH, Show(n)))
  {
    hide IsUtf8;
    ShowsDigits(n);
    var d := Show(n);
    assert forall i :: 0 <= i < |d| ==> IsDigit(d[i]);
    AsciiIsUtf8(d);
    AsciiIsUtf8(CONTENT_LENGTH);
  }

  lemma CloseGood()
    ensures GoodHeader((CONNECTION, CLOSE))
  {
    hide IsUtf8;
    AsciiIsUtf8(CLOSE);
    AsciiIsUtf8(CONNECTION);
  }

  lemma {:induction false} FindSkips(a: seq<Header>, b: seq<Header>, name: Text)
    requires forall i :: 0 <= i < |a| ==> !SameName(a[i].0, name)
    ensures Find(a + b, name) == Find(b, name)
  {
    hide SameName;
    if a == [] {
      assert a + b == b;
    } else {
      assert (a + b)[1..] == a[1..] + b;
      FindSkips(a[1..], b, name);
    }
  }

  predicate GoodWord(s: Text) {
    s != [] && Unbroken(s) && SPACE !in s
  }

  /** Nothing is asked of the headers the writer replaces. */
  predicate GoodRequest(r: Request) {
    && GoodWord(r.method_) && GoodWord(r.target) && |r.body| <= U64_MAX
    && GoodHeaders(Others(r.headers, [CONTENT_LENGTH, CONNECTION]))
  }

  lemma SentRequestGood(r: Request)
    requires GoodRequest(r)
    ensures GoodHeaders(SentRequestHeaders(r))
    ensures ContentLength(SentRequestHeaders(r)) == Some(|r.body|)
  {
    hide GoodHeader, GoodWord;
    var others, last := Others(r.headers, [CONTENT_LENGTH, CONNECTION]), [(CONTENT_LENGTH, Show(|r.body|)), (CONNECTION, CLOSE)];
    DigitsGood(|r.body|);
    CloseGood();
    assert [CONTENT_LENGTH, CONNECTION][0] == CONTENT_LENGTH;
    FindSkips(others, last, CONTENT_LENGTH);
    assert SameName(CONTENT_LENGTH, CONTENT_LENGTH);
    NumberReadsBack(|r.body|, U64_MAX);
  }

  function RequestLine(r: Request): Text {
    r.method_ + ([SPACE] + (r.target + ([SPACE] + HTTP_1_1)))
  }

  lemma RequestLineIsLine(r: Request)
    requires GoodWord(r.method_) && GoodWord(r.target)
    ensures Line(RequestLine(r))
  {
    hide IsUtf8;
    AsciiIsUtf8([SPACE] + HTTP_1_1);
    Utf8Append(r.target, [SPACE] + HTTP_1_1);
    AsciiIsUtf8([SPACE]);
    Utf8Append([SPACE], r.target + ([SPACE] + HTTP_1_1));
    Utf8Append(r.method_, [SPACE] + (r.target + ([SPACE] + HTTP_1_1)));
  }

  lemma WordSplits(word: Text, rest: Text)
    requires SPACE !in word
    ensures var s := word + ([SPACE] + rest);
            && IndexOf(s, SPACE) == |word| && s[..|word|] == word && s[|word| + 1..] == rest
  {
    var s := word + ([SPACE] + rest);
    assert s[|word|] == SPACE;
    assert forall i :: 0 <= i < |word| ==> s[i] == word[i];
  }

  /** The request as the next hop sees it. */
  function Normalised(r: Request): Request {
    r.(headers := SentRequestHeaders(r))
  }

  lemma RequestReadsBack(r: Request, tail: Bytes)
    requires GoodRequest(r)
    ensures ParseRequest(WriteRequest(r) + tail) == Got(Normalised(r), tail)
  {
    hide TakeHeaders, HeaderLines, IsUtf8, LineLength, StripEol, ContentLength, SentRequestHeaders, IndexOf, Line;
    var line, sent := RequestLine(r), SentRequestHeaders(r);
    var rest := HeaderLines(sent) + (CRLF + (r.body + tail));
    RequestLineIsLine(r);
    TakesLine(line, rest);
    RequestBytes(r, tail);
    SentRequestGood(r);
    HeadersReadBack(sent, r.body + tail, []);
    assert [] + sent == sent;
    WordSplits(r.method_, r.target + ([SPACE] + HTTP_1_1));
    WordSplits(r.target, HTTP_1_1);
    assert (r.body + tail)[..|r.body|] == r.body && (r.body + tail)[|r.body|..] == tail;
  }

  lemma WordIsGood(text: Text, i: nat)
    requires Unbroken(text) && i == IndexOf(text, SPACE) && i > 0
    ensures GoodWord(text[..i])
    ensures i < |text| ==> Unbroken(text[i + 1..])
  {
    hide IsUtf8, IndexOf;
    if i < |text| {
      CutAtAscii(text, i);
    } else {
      assert text[..i] == text;
    }
  }

  /** Whatever request the parser delivers is well formed. */
  lemma ParsedIsGood(s: Bytes)
    requires ParseRequest(s).Got?
    ensures var r := ParseRequest(s).value;
            GoodWord(r.method_) && GoodWord(r.target) && GoodHeaders(r.headers) && |r.body| <= U64_MAX
  {
    hide IsUtf8, LineLength, StripEol, TakeHeaders, ContentLength, IndexOf, GoodHeaders, GoodWord, Unbroken;
    var text := StripEol(s[..LineLength(s)]);
    ReadIsLine(s);
    var i := IndexOf(text, SPACE);
    WordIsGood(text, i);
    WordIsGood(text[i + 1..], IndexOf(text[i + 1..], SPACE));
    NoneGood();
    TakenAreGood(s[LineLength(s)..], []);
    LengthFits(TakeHeaders(s[LineLength(s)..], []).value);
  }

  lemma NoneGood()
    ensures GoodHeaders([])
  {
  }

  lemma LengthFits(headers: seq<Header>)
    ensures ContentLength(headers).Some? ==> ContentLength(headers).value <= U64_MAX
  {
  }

  /** A written request followed by any bytes is read back with its method, target and body, and with
      its headers normalised, and exactly those bytes are left, if and only if it is well formed. */
  lemma RequestRoundTrip(r: Request, tail: Bytes)
    ensures ParseRequest(WriteRequest(r) + tail) == Got(Normalised(r), tail) <==> GoodRequest(r)
  {
    hide ParseRequest, WriteRequest, GoodHeader, GoodWord, Others;
    if GoodRequest(r) {
      RequestReadsBack(r, tail);
    }
    if ParseRequest(WriteRequest(r) + tail) == Got(Normalised(r), tail) {
      ParsedIsGood(WriteRequest(r) + tail);
      var others, sent := Others(r.headers, [CONTENT_LENGTH, CONNECTION]), SentRequestHeaders(r);
      assert forall i :: 0 <= i < |others| ==> sent[i] == others[i];
    }
  }

  /** The proxy forwards faithfully: whatever request it reads, the next hop reads the same from what it
      writes, headers normalised. */
  lemma ForwardedRequest(s: Bytes, tail: Bytes)
    requires ParseRequest(s).Got?
    ensures var r := ParseRequest(s).value;
            ParseRequest(WriteRequest(r) + tail) == Got(Normalised(r), tail)
  {
    hide ParseRequest, WriteRequest, GoodHeader, GoodWord, Others;
    ParsedIsGood(s);
    var r := ParseRequest(s).value;
    OthersGood(r.headers, [CONTENT_LENGTH, CONNECTION]);
    RequestReadsBack(r, tail);
  }

  lemma RequestBytes(r: Request, tail: Bytes)
    ensures WriteRequest(r) + tail
         == RequestLine(r) + (CRLF + (HeaderLines(SentRequestHeaders(r)) + (CRLF + (r.body + tail))))
  {
    var h := HeaderLines(SentRequestHeaders(r));
    assert r.method_ + ([SPACE] + (r.target + ([SPACE] + (HTTP_1_1 + CRLF)))) == RequestLine(r) + CRLF;
    Regroup(RequestLine(r), CRLF, h, r.body, tail);
  }

  lemma Regroup(line: Bytes, eol: Bytes, headers: Bytes, body: Bytes, tail: Bytes)
    ensures line + eol + (headers + (eol + body)) + tail == line + (eol + (headers + (eol + (body + tail))))
  {
  }

  /** A body too long for its length field is still read whole if nothing follows it. */
  predicate GoodResponse(r: Response, tail: Bytes) {
    GoodHeaders(Others(r.headers, [CONTENT_LENGTH])) && (|r.body| <= U64_MAX || tail == [])
  }

  lemma SentResponseGood(r: Response)
    requires GoodHeaders(Others(r.headers, [CONTENT_LENGTH]))
    ensures GoodHeaders(SentResponseHeaders(r))
    ensures ContentLength(SentResponseHeaders(r)) == if |r.body| <= U64_MAX then Some(|r.body|) else None
  {
    hide GoodHeader;
    DigitsGood(|r.body|);
    assert SameName(CONTENT_LENGTH, CONTENT_LENGTH);
    NumberReadsBack(|r.body|, U64_MAX);
  }

  function StatusLine(r: Response): Text {
    HTTP_1_1 + ([SPACE] + (Show(r.status) + ([SPACE] + Reason(r.status))))
  }

  lemma StatusLineIsLine(r: Response)
    ensures Line(StatusLine(r)) && SPACE !in Show(r.status) && SPACE !in HTTP_1_1
  {
    hide IsUtf8, Show, Ascii, Reason;
    ShowsDigits(r.status);
    var d, why := Show(r.status), Reason(r.status);
    assert forall i :: 0 <= i < |d| ==> IsDigit(d[i]);
    assert Plain(HTTP_1_1) && Plain(d) && Plain([SPACE]);
    ReasonIsPlain(r.status);
    PlainAppends([SPACE], why);
    PlainAppends(d, [SPACE] + why);
    PlainAppends([SPACE], d + ([SPACE] + why));
    PlainAppends(HTTP_1_1, [SPACE] + (d + ([SPACE] + why)));
    AsciiIsUtf8(StatusLine(r));
  }

  lemma PlainAppends(a: Text, b: Text)
    requires Plain(a) && Plain(b)
    ensures Plain(a + b)
  {
  }

  lemma ReasonIsPlain(status: u16)
    ensures Plain(Reason(status))
  {
    hide Ascii;
  }

  lemma ResponseBytes(r: Response, tail: Bytes)
    ensures WriteResponse(r) + tail
         == StatusLine(r) + (CRLF + (HeaderLines(SentResponseHeaders(r)) + (CRLF + (r.body + tail))))
  {
    var h := HeaderLines(SentResponseHeaders(r));
    assert HTTP_1_1 + ([SPACE] + (Show(r.status) + ([SPACE] + (Reason(r.status) + CRLF)))) == StatusLine(r) + CRLF;
    Regroup(StatusLine(r), CRLF, h, r.body, tail);
  }

  /** What the parser makes of a written response: without a usable length it reads to the end. */
  lemma ResponseReadsBack(r: Response, tail: Bytes)
    requires GoodHeaders(Others(r.headers, [CONTENT_LENGTH]))
    ensures ParseResponse(WriteResponse(r) + tail)
         == if |r.body| <= U64_MAX then Got(NormalisedResponse(r), tail)
            else Got(NormalisedResponse(r).(body := r.body + tail), [])
  {
    hide TakeHeaders, HeaderLines, IsUtf8, LineLength, StripEol, ContentLength, SentResponseHeaders, IndexOf, Line, Show, Reason, ParseNumber;
    var line, sent := StatusLine(r), SentResponseHeaders(r);
    var rest := HeaderLines(sent) + (CRLF + (r.body + tail));
    StatusLineIsLine(r);
    TakesLine(line, rest);
    ResponseBytes(r, tail);
    SentResponseGood(r);
    HeadersReadBack(sent, r.body + tail, []);
    assert [] + sent == sent;
    WordSplits(HTTP_1_1, Show(r.status) + ([SPACE] + Reason(r.status)));
    WordSplits(Show(r.status), Reason(r.status));
    NumberReadsBack(r.status, 0xFFFF);
    var body := r.body + tail;
    assert body[..|r.body|] == r.body && body[|r.body|..] == tail && body[..|body|] == body && body[|body|..] == [];
  }

  function NormalisedResponse(r: Response): Response {
    r.(headers := SentResponseHeaders(r))
  }

  lemma ParsedResponseIsGood(s: Bytes)
    requires ParseResponse(s).Got?
    ensures GoodHeaders(ParseResponse(s).value.headers)
  {
    hide IsUtf8, LineLength, StripEol, TakeHeaders, ContentLength, GoodHeader;
    TakenAreGood(s[LineLength(s)..], []);
  }

  /** A written response followed by any bytes is read back with its status and body, and with its
      headers normalised, and exactly those bytes are left, if and only if it is well formed. */
  lemma ResponseRoundTrip(r: Response, tail: Bytes)
    ensures ParseResponse(WriteResponse(r) + tail) == Got(NormalisedResponse(r), tail) <==> GoodResponse(r, tail)
  {
    hide ParseResponse, WriteResponse, GoodHeader, Others, Show;
    var others, sent := Others(r.headers, [CONTENT_LENGTH]), SentResponseHeaders(r);
    if ParseResponse(WriteResponse(r) + tail) == Got(NormalisedResponse(r), tail) {
      ParsedResponseIsGood(WriteResponse(r) + tail);
      assert forall i :: 0 <= i < |others| ==> sent[i + 1] == others[i];
    }
    if GoodHeaders(others) {
      ResponseReadsBack(r, tail);
      assert tail == [] ==> r.body + tail == r.body;
    }
  }

  /** Whatever response the backend is understood to give, the client reads the same from what the proxy
      writes, headers normalised. */
  lemma ForwardedResponse(s: Bytes, tail: Bytes)
    requires ParseResponse(s).Got? && (|ParseResponse(s).value.body| <= U64_MAX || tail == [])
    ensures var r := ParseResponse(s).value;
            ParseResponse(WriteResponse(r) + tail) == Got(NormalisedResponse(r), tail)
  {
    hide ParseResponse, WriteResponse, GoodHeader, Others;
    ParsedResponseIsGood(s);
    var r := ParseResponse(s).value;
    OthersGood(r.headers, [CONTENT_LENGTH]);
    ResponseRoundTrip(r, tail);
  }
}
