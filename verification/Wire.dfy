/** Messages as they stand on the wire, letter by letter: what the writers put there, and what the parsers
    make of bytes that other programs have written. */
module Wire {
  import opened Prelude
  import opened Texts
  import opened Http

  /** `t` spells `lower`, which has no capital letters, in any mix of upper and lower case. */
  predicate AnyCase(t: Text, lower: string) {
    && |t| == |lower|
    && forall i :: 0 <= i < |t| ==>
         t[i] == lower[i] as int || ('a' <= lower[i] <= 'z' && t[i] == lower[i] as int - 32)
  }

  predicate NoCapitals(lower: string) {
    forall i :: 0 <= i < |lower| ==> !('A' <= lower[i] <= 'Z')
  }

  /** Names are compared without regard to the case of ASCII letters, and of nothing else. */
  lemma SameNameIff(t: Text, name: Text, lower: string)
    requires NoCapitals(lower) && AnyCase(name, lower)
    ensures SameName(t, name) <==> AnyCase(t, lower)
  {
    if |t| == |name| {
      forall i | 0 <= i < |t|
        ensures LowerByte(name[i]) == lower[i] as int
        ensures LowerByte(t[i]) == LowerByte(name[i])
                <==> t[i] == lower[i] as int || ('a' <= lower[i] <= 'z' && t[i] == lower[i] as int - 32)
      {
      }
    }
  }

  /** `headers[i]` is the first one called `lower`. */
  predicate FirstNamed(headers: seq<Header>, lower: string, i: nat) {
    && i < |headers| && AnyCase(headers[i].0, lower)
    && forall j :: 0 <= j < i ==> !AnyCase(headers[j].0, lower)
  }

  predicate NoneNamed(headers: seq<Header>, lower: string) {
    forall j :: 0 <= j < |headers| ==> !AnyCase(headers[j].0, lower)
  }

  /** Looking a name up finds the first header of that name in any case, or nothing if there is none. */
  lemma {:induction false} FindMeans(headers: seq<Header>, name: Text, lower: string)
    requires NoCapitals(lower) && AnyCase(name, lower)
    ensures NoneNamed(headers, lower) ==> Find(headers, name) == None
    ensures forall i: nat :: FirstNamed(headers, lower, i) ==> Find(headers, name) == Some(headers[i].1)
  {
    hide AnyCase, SameName;
    if headers != [] {
      var rest := headers[1..];
      SameNameIff(headers[0].0, name, lower);
      FindMeans(rest, name, lower);
      assert forall j :: 0 <= j < |rest| ==> rest[j] == headers[j + 1];
      forall i: nat | FirstNamed(headers, lower, i) && i > 0
        ensures Find(headers, name) == Some(headers[i].1)
      {
        assert FirstNamed(rest, lower, i - 1);
      }
    }
  }

  lemma ContentLengthSpelled()
    ensures NoCapitals("content-length") && AnyCase(CONTENT_LENGTH, "content-length")
  {
  }

  lemma ContentLengthWritten()
    ensures CONTENT_LENGTH == Ascii("Content-Length")
  {
    hide Ascii;
  }

  lemma ConnectionSpelled()
    ensures NoCapitals("connection") && AnyCase(CONNECTION, "connection")
    ensures CONNECTION == Ascii("Connection") && CLOSE == Ascii("close") && HTTP_1_1 == Ascii("HTTP/1.1")
  {
    hide Ascii;
  }

  // ---- Decimal numbers ----

  function Ten(k: nat): nat {
    if k == 0 then 1 else 10 * Ten(k - 1)
  }

  /** Digits have the value of their place. */
  lemma {:induction false} Places(a: Text, b: Text)
    requires AllDigits(a) && AllDigits(b)
    ensures AllDigits(a + b) && Value(a + b) == Value(a) * Ten(|b|) + Value(b)
  {
    hide Value, Ten;
    PlacesBase(a);
    if b == [] {
      assert a + b == a;
    } else {
      var init := b[..|b| - 1];
      assert (a + b)[..|a + b| - 1] == a + init;
      Places(a, init);
      TenMore(Value(a), |init|);
      Append(a + init, b[|b| - 1]);
      Append(init, b[|b| - 1]);
      assert a + init + [b[|b| - 1]] == a + b && init + [b[|b| - 1]] == b;
    }
  }

  lemma PlacesBase(a: Text)
    requires AllDigits(a)
    ensures Value([]) == 0 && Value(a) * Ten(0) == Value(a)
  {
  }

  lemma TenMore(v: nat, k: nat)
    ensures v * Ten(k + 1) == 10 * (v * Ten(k))
  {
  }

  lemma Append(s: Text, d: byte)
    requires AllDigits(s) && IsDigit(d)
    ensures AllDigits(s + [d]) && Value(s + [d]) == 10 * Value(s) + (d as int - 48)
  {
    assert (s + [d])[..|s|] == s;
  }

  lemma OneDigit(d: byte)
    requires IsDigit(d)
    ensures Value([d]) == d as int - '0' as int
  {
    assert [d][..0] == [];
  }

  // ---- Lines that others write ----

  function Eol(crlf: bool): Text {
    if crlf then [13, 10] else [10]
  }

  lemma TakesAnyLine(s: Text, crlf: bool, rest: Bytes)
    requires Line(s)
    ensures var all := s + (Eol(crlf) + rest);
            var n := LineLength(all);
            && n <= |all| && IsUtf8(all[..n]) && StripEol(all[..n]) == s && all[n..] == rest
  {
    hide IsUtf8;
    if crlf {
      TakesLine(s, rest);
    } else {
      var all := s + ([10] + rest);
      LineLengthSkips(s, [10] + rest);
      assert LineLength([10] + rest) == 1;
      assert all[..|s| + 1] == s + [10] && all[|s| + 1..] == rest;
      AsciiIsUtf8([10]);
      Utf8Append(s, [10]);
      assert (s + [10])[..|s|] == s;
      assert StripEol(s + [10]) == StripEol(s) == s;
    }
  }

  predicate Blank(s: Text) {
    forall i :: 0 <= i < |s| ==> s[i] == 32 || s[i] == 9
  }

  /** A header line as section 5 of RFC 9112 allows it: spaces and tabs around the value, and a bare line
      feed in place of a line end. */
  datatype Raw = Raw(name: Text, before: Text, value: Text, after: Text, crlf: bool)

  predicate GoodRaw(h: Raw) {
    GoodHeader((h.name, h.value)) && Blank(h.before) && Blank(h.after)
  }

  predicate GoodRaws(raws: seq<Raw>) {
    forall i :: 0 <= i < |raws| ==> GoodRaw(raws[i])
  }

  function RawText(h: Raw): Text {
    h.name + ([58] + (h.before + (h.value + h.after)))
  }

  function RawLines(raws: seq<Raw>): Text {
    if raws == [] then [] else RawText(raws[0]) + (Eol(raws[0].crlf) + RawLines(raws[1..]))
  }

  function Meant(raws: seq<Raw>): (headers: seq<Header>)
    ensures |headers| == |raws| && forall i :: 0 <= i < |raws| ==> headers[i] == (raws[i].name, raws[i].value)
  {
    seq(|raws|, i requires 0 <= i < |raws| => (raws[i].name, raws[i].value))
  }

  lemma {:induction false} BlankStartTrims(before: Text, s: Text)
    requires Blank(before)
    ensures TrimStart(before + s) == TrimStart(s)
  {
    if before == [] {
      assert before + s == s;
    } else {
      var all := before + s;
      assert LeadingSpace(all) == 1 && all[1..] == before[1..] + s;
      BlankStartTrims(before[1..], s);
    }
  }

  lemma {:induction false} BlankEndTrims(s: Text, after: Text)
    requires Blank(after)
    ensures TrimEnd(s + after) == TrimEnd(s)
  {
    if after == [] {
      assert s + after == s;
    } else {
      var all, init := s + after, after[..|after| - 1];
      assert TrailingSpace(all) == 1 && all[..|all| - 1] == s + init;
      BlankEndTrims(s, init);
    }
  }

  /** Whether well-formed text starts with white space is known from its first character. */
  lemma FirstCharTells(v: Text, x: Text)
    requires v != [] && IsUtf8(v)
    ensures LeadingSpace(v + x) == 0 <==> LeadingSpace(v) == 0
  {
    assert forall i :: 0 <= i < |v| ==> (v + x)[i] == v[i];
  }

  lemma PaddedTrims(before: Text, value: Text, after: Text)
    requires Blank(before) && Blank(after) && Trimmed(value) && IsUtf8(value)
    ensures Trim(before + (value + after)) == value
  {
    hide IsUtf8, LeadingSpace, TrailingSpace;
    BlankStartTrims(before, value + after);
    if value == [] {
      assert value + after == after && after + [] == after;
      BlankStartTrims(after, []);
      NothingTrims();
    } else {
      FirstCharTells(value, after);
      BlankEndTrims(value, after);
    }
  }

  lemma NothingTrims()
    ensures TrimStart([]) == [] && TrimEnd([]) == []
  {
  }

  lemma {:induction false} BlankIsAscii(s: Text)
    requires Blank(s)
    ensures Unbroken(s) && (s != [] ==> s[|s| - 1] != CR)
  {
    AsciiIsUtf8(s);
  }

  lemma RawIsLine(h: Raw)
    requires GoodRaw(h)
    ensures Line(RawText(h))
  {
    hide IsUtf8, LeadingSpace;
    BlankIsAscii(h.before);
    BlankIsAscii(h.after);
    AsciiIsUtf8([58]);
    Utf8Append(h.value, h.after);
    Utf8Append(h.before, h.value + h.after);
    Utf8Append([58], h.before + (h.value + h.after));
    Utf8Append(h.name, [58] + (h.before + (h.value + h.after)));
  }

  lemma RawReadsBack(h: Raw, rest: Bytes, headers: seq<Header>)
    requires GoodRaw(h)
    ensures TakeHeaders(RawText(h) + (Eol(h.crlf) + rest), headers) == TakeHeaders(rest, headers + [(h.name, h.value)])
  {
    hide IsUtf8, LineLength, StripEol, Trim, Trimmed, Eol, Blank;
    var text, i := RawText(h), |h.name|;
    RawIsLine(h);
    TakesAnyLine(text, h.crlf, rest);
    assert text[..i] == h.name && text[i] == COLON && text[i + 1..] == h.before + (h.value + h.after);
    assert IndexOf(text, COLON) == i;
    PaddedTrims(h.before, h.value, h.after);
    TrimmedTrims(h.name);
    assert text + (Eol(h.crlf) + rest) != [];
  }

  lemma AnyBlankLineEnds(crlf: bool, rest: Bytes, headers: seq<Header>)
    ensures TakeHeaders(Eol(crlf) + rest, headers) == Got(headers, rest)
  {
    hide LineLength, StripEol;
    AsciiIsUtf8([]);
    TakesAnyLine([], crlf, rest);
    assert [] + (Eol(crlf) + rest) == Eol(crlf) + rest;
  }

  lemma {:induction false} RawsReadBack(raws: seq<Raw>, crlf: bool, rest: Bytes, headers: seq<Header>)
    requires GoodRaws(raws)
    ensures TakeHeaders(RawLines(raws) + (Eol(crlf) + rest), headers) == Got(headers + Meant(raws), rest)
    decreases |raws|
  {
    hide TakeHeaders, GoodRaw, RawText, Eol, Meant;
    if raws == [] {
      AnyBlankLineEnds(crlf, rest, headers);
      assert RawLines(raws) + (Eol(crlf) + rest) == Eol(crlf) + rest;
      assert headers + Meant(raws) == headers;
    } else {
      var h, later := raws[0], raws[1..];
      var behind := RawLines(later) + (Eol(crlf) + rest);
      assert RawLines(raws) + (Eol(crlf) + rest) == RawText(h) + (Eol(h.crlf) + behind);
      RawReadsBack(h, behind, headers);
      RawsReadBack(later, crlf, rest, headers + [(h.name, h.value)]);
      assert headers + [(h.name, h.value)] + Meant(later) == headers + Meant(raws);
    }
  }

  // ---- Requests that others write ----

  /** A request line with whatever stands behind the target. */
  predicate GoodStart(method_: Text, target: Text, behind: Text) {
    && GoodWord(method_) && GoodWord(target)
    && (behind != [] ==> behind[0] == 32)
    && Line(method_ + ([32] + (target + behind)))
  }

  lemma WordBefore(word: Text, behind: Text)
    requires SPACE !in word && (behind != [] ==> behind[0] == 32)
    ensures IndexOf(word + behind, SPACE) == |word| && (word + behind)[..|word|] == word
  {
    var s := word + behind;
    assert forall i :: 0 <= i < |word| ==> s[i] == word[i];
    if behind != [] {
      assert s[|word|] == SPACE;
    }
  }

  /** How long the headers say the body is: nothing if none is called Content-Length, in any case, and
      otherwise what the digits of the first one say. */
  ghost predicate Declares(headers: seq<Header>, length: nat) {
    || (NoneNamed(headers, "content-length") && length == 0)
    || exists i: nat :: FirstNamed(headers, "content-length", i) && SaysLength(headers[i].1, length)
  }

  predicate SaysLength(value: Text, length: nat) {
    value != [] && AllDigits(value) && Value(value) == length <= U64_MAX
  }

  lemma DeclaredIsFound(headers: seq<Header>, length: nat)
    requires Declares(headers, length)
    ensures length == match ContentLength(headers) case Some(n) => n case None => 0
  {
    hide NoneNamed, ContentLength, Declares;
    if NoneNamed(headers, "content-length") {
      NoLength(headers);
      NothingDeclared(headers, length);
    } else {
      SomeLength(headers, length);
    }
  }

  lemma NothingDeclared(headers: seq<Header>, length: nat)
    requires NoneNamed(headers, "content-length") && Declares(headers, length)
    ensures length == 0
  {
    hide AnyCase;
  }

  /** What the parser makes of any request with a good request line and good header lines, whoever wrote
      it: its body is as many of the bytes behind the blank line as the headers declare, the rest stays
      unread, and fewer bytes than declared are an error. */
  lemma ParsesRequest(method_: Text, target: Text, behind: Text, raws: seq<Raw>, crlf: bool, crlf': bool, bytes: Bytes, length: nat)
    requires GoodStart(method_, target, behind) && GoodRaws(raws) && Declares(Meant(raws), length)
    ensures ParseRequest(method_ + ([32] + (target + behind)) + (Eol(crlf) + (RawLines(raws) + (Eol(crlf') + bytes))))
         == if length > |bytes| then Truncated
            else Got(Request(method_, target, Meant(raws), bytes[..length]), bytes[length..])
  {
    hide TakeHeaders, RawLines, IsUtf8, LineLength, StripEol, ContentLength, IndexOf, Line, Meant, Eol, Declares, GoodRaws;
    var line, rest := method_ + ([32] + (target + behind)), RawLines(raws) + (Eol(crlf') + bytes);
    TakesAnyLine(line, crlf, rest);
    RawsReadBack(raws, crlf', bytes, []);
    assert [] + Meant(raws) == Meant(raws);
    DeclaredIsFound(Meant(raws), length);
    WordBefore(method_, [32] + (target + behind));
    assert line[|method_| + 1..] == target + behind;
    WordBefore(target, behind);
    assert line + (Eol(crlf) + rest) != [];
  }

  /** The same of responses, which without a declared length are read to the end. */
  lemma ParsesResponse(version: Text, code: Text, behind: Text, raws: seq<Raw>, crlf: bool, crlf': bool, bytes: Bytes, length: nat)
    requires SPACE !in version && SPACE !in code && (behind != [] ==> behind[0] == 32)
    requires code != [] && AllDigits(code) && Value(code) <= 0xFFFF
    requires Line(version + ([32] + (code + behind))) && GoodRaws(raws)
    requires if NoneNamed(Meant(raws), "content-length") then length == |bytes| else Declares(Meant(raws), length)
    ensures ParseResponse(version + ([32] + (code + behind)) + (Eol(crlf) + (RawLines(raws) + (Eol(crlf') + bytes))))
         == if length > |bytes| then Truncated
            else Got(Response(Value(code), Meant(raws), bytes[..length]), bytes[length..])
  {
    hide TakeHeaders, RawLines, IsUtf8, LineLength, StripEol, ContentLength, IndexOf, Line, Meant, Eol, Value, GoodRaws, AnyCase;
    var line, rest := version + ([32] + (code + behind)), RawLines(raws) + (Eol(crlf') + bytes);
    TakesAnyLine(line, crlf, rest);
    RawsReadBack(raws, crlf', bytes, []);
    assert [] + Meant(raws) == Meant(raws);
    if NoneNamed(Meant(raws), "content-length") {
      NoLength(Meant(raws));
    } else {
      SomeLength(Meant(raws), length);
    }
    WordBefore(version, [32] + (code + behind));
    assert line[|version| + 1..] == code + behind;
    WordBefore(code, behind);
    assert code[0] != 43 by {
      assert IsDigit(code[0]);
    }
    assert line + (Eol(crlf) + rest) != [];
  }

  lemma NoLength(headers: seq<Header>)
    requires NoneNamed(headers, "content-length")
    ensures ContentLength(headers) == None
  {
    hide AnyCase, Find;
    ContentLengthSpelled();
    FindMeans(headers, CONTENT_LENGTH, "content-length");
  }

  lemma SomeLength(headers: seq<Header>, length: nat)
    requires Declares(headers, length) && !NoneNamed(headers, "content-length")
    ensures ContentLength(headers) == Some(length)
  {
    hide AnyCase, Find, Ascii, NoneNamed, ParseNumber, SaysLength;
    var i: nat :| FirstNamed(headers, "content-length", i) && SaysLength(headers[i].1, length);
    ContentLengthSpelled();
    FindMeans(headers, CONTENT_LENGTH, "content-length");
    SaidIsParsed(headers[i].1, length);
  }

  lemma SaidIsParsed(value: Text, length: nat)
    requires SaysLength(value, length)
    ensures ParseNumber(value, U64_MAX) == Some(length)
  {
    hide Value;
    assert IsDigit(value[0]);
  }

  // ---- What is written ----

  /** The headers that are passed on: all but the owned ones, in their order. */
  lemma {:induction false} OthersSplit(a: seq<Header>, b: seq<Header>, owned: seq<Text>)
    ensures Others(a + b, owned) == Others(a, owned) + Others(b, owned)
  {
    hide SameName;
    if a == [] {
      assert a + b == b;
    } else {
      assert (a + b)[1..] == a[1..] + b;
      OthersSplit(a[1..], b, owned);
    }
  }

  lemma OneOther(h: Header, owned: seq<Text>)
    ensures Others([h], owned) == if exists j :: 0 <= j < |owned| && SameName(h.0, owned[j]) then [] else [h]
  {
    hide SameName;
    assert [h][1..] == [];
  }

  /** Each header of a request is passed on in its place, unless it is called Content-Length or
      Connection in any case; those two are written anew at the end. */
  lemma HeaderPassedOn(r: Request, a: seq<Header>, h: Header, b: seq<Header>)
    requires r.headers == a + [h] + b
    ensures var owned := [CONTENT_LENGTH, CONNECTION];
            SentRequestHeaders(r)
            == Others(a, owned)
               + (if AnyCase(h.0, "content-length") || AnyCase(h.0, "connection") then [] else [h])
               + Others(b, owned)
               + [(Ascii("Content-Length"), Show(|r.body|)), (Ascii("Connection"), Ascii("close"))]
  {
    hide SameName, AnyCase, Others, Show, Ascii;
    var owned := [CONTENT_LENGTH, CONNECTION];
    ContentLengthSpelled();
    ContentLengthWritten();
    ConnectionSpelled();
    OthersSplit(a + [h], b, owned);
    OthersSplit(a, [h], owned);
    OneOther(h, owned);
    SameNameIff(h.0, CONTENT_LENGTH, "content-length");
    SameNameIff(h.0, CONNECTION, "connection");
    assert owned[0] == CONTENT_LENGTH && owned[1] == CONNECTION;
  }

  lemma ResponseHeaderPassedOn(r: Response, a: seq<Header>, h: Header, b: seq<Header>)
    requires r.headers == a + [h] + b
    ensures var owned := [CONTENT_LENGTH];
            SentResponseHeaders(r)
            == [(Ascii("Content-Length"), Show(|r.body|))] + Others(a, owned)
               + (if AnyCase(h.0, "content-length") then [] else [h]) + Others(b, owned)
  {
    hide SameName, AnyCase, Others, Show, Ascii;
    var owned := [CONTENT_LENGTH];
    ContentLengthSpelled();
    ContentLengthWritten();
    OthersSplit(a + [h], b, owned);
    OthersSplit(a, [h], owned);
    OneOther(h, owned);
    SameNameIff(h.0, CONTENT_LENGTH, "content-length");
    assert owned[0] == CONTENT_LENGTH;
  }

  lemma LineEndsSpelled()
    ensures CRLF == [13, 10] && [SPACE] == Ascii(" ") && [COLON, SPACE] == Ascii(": ")
    ensures [SPACE] + (HTTP_1_1 + CRLF) == Ascii(" HTTP/1.1") + [13, 10] && HTTP_1_1 + [SPACE] == Ascii("HTTP/1.1 ")
  {
    hide Ascii;
  }

  /** A written request, letter by letter. */
  lemma RequestWritten(r: Request)
    ensures WriteRequest(r)
         == r.method_ + (Ascii(" ") + (r.target + ((Ascii(" HTTP/1.1") + [13, 10])
            + (HeaderLines(SentRequestHeaders(r)) + ([13, 10] + r.body)))))
  {
    hide HeaderLines, SentRequestHeaders, Ascii;
    LineEndsSpelled();
    var h := HeaderLines(SentRequestHeaders(r)) + (CRLF + r.body);
    assert r.method_ + ([SPACE] + (r.target + ([SPACE] + (HTTP_1_1 + CRLF)))) + h
        == r.method_ + ([SPACE] + (r.target + (([SPACE] + (HTTP_1_1 + CRLF)) + h)));
  }

  /** A written response, letter by letter. */
  lemma ResponseWritten(r: Response)
    ensures WriteResponse(r)
         == Ascii("HTTP/1.1 ") + (Show(r.status) + (Ascii(" ") + (Reason(r.status) + ([13, 10]
            + (HeaderLines(SentResponseHeaders(r)) + ([13, 10] + r.body))))))
  {
    hide HeaderLines, SentResponseHeaders, Ascii, Show, Reason;
    LineEndsSpelled();
    var h, n, why := HeaderLines(SentResponseHeaders(r)) + (CRLF + r.body), Show(r.status), Reason(r.status);
    assert HTTP_1_1 + ([SPACE] + (n + ([SPACE] + (why + CRLF)))) + h
        == (HTTP_1_1 + [SPACE]) + (n + ([SPACE] + (why + (CRLF + h))));
  }

  lemma HeaderLineWritten(h: Header, rest: seq<Header>)
    ensures HeaderLines([h] + rest) == h.0 + (Ascii(": ") + (h.1 + ([13, 10] + HeaderLines(rest))))
  {
    hide Ascii;
    LineEndsSpelled();
    assert ([h] + rest)[1..] == rest;
    assert HeaderLine(h) + HeaderLines(rest) == h.0 + ([COLON, SPACE] + (h.1 + (CRLF + HeaderLines(rest))));
  }
}
