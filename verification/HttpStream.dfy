/** The parsers and writers as they run: a reader that advances through its input and a writer that
    appends to its output. */
module HttpStream {
  import opened Prelude
  import opened Texts
  import opened H = Http

  class Reader {
    const input: Bytes
    var pos: nat

    constructor (input: Bytes)
      ensures this.input == input && pos == 0
    {
      this.input := input;
      pos := 0;
    }

    predicate Valid()
      reads this
    {
      pos <= |input|
    }

    function Rest(): Bytes
      requires Valid()
      reads this
    {
      input[pos..]
    }

    /** The next line with its line feed, empty at the end of the input, nothing if it is not UTF-8. */
    method ReadLine() returns (line: Option<Text>)
      requires Valid()
      modifies this`pos
      ensures Valid() && pos == old(pos) + LineLength(old(Rest()))
      ensures input[old(pos)..pos] == old(Rest())[..LineLength(old(Rest()))]
      ensures line == if IsUtf8(input[old(pos)..pos]) then Some(input[old(pos)..pos]) else None
    {
      hide IsUtf8;
      ghost var all := Rest();
      var start, i := pos, pos;
      while i < |input| && input[i] != LF
        invariant start <= i <= |input|
        invariant LineLength(all) == (i - start) + LineLength(input[i..])
      {
        assert input[i..][1..] == input[i + 1..];
        i := i + 1;
      }
      pos := if i < |input| then i + 1 else i;
      assert input[start..pos] == all[..pos - start];
      line := if IsUtf8(input[start..pos]) then Some(input[start..pos]) else None;
    }

    method ReadHeaders() returns (headers: Option<seq<Header>>)
      requires Valid()
      modifies this`pos
      ensures Valid()
      ensures var taken := TakeHeaders(old(Rest()), []);
              && (headers == if taken.Got? then Some(taken.value) else None)
              && taken.rest == Rest()
    {
      hide IsUtf8, LineLength, StripEol, Trim;
      AsciiIsUtf8([]);
      ghost var all := Rest();
      var taken: seq<Header> := [];
      while true
        invariant Valid()
        invariant TakeHeaders(all, []) == TakeHeaders(Rest(), taken)
        decreases |input| - pos
      {
        ghost var here, from := Rest(), pos;
        var line := ReadLine();
        assert Rest() == here[pos - from..];
        if line == None {
          return None;
        }
        if line.value == [] {
          return Some(taken);
        }
        var text := StripEol(line.value);
        if text == [] {
          return Some(taken);
        }
        var i := IndexOf(text, COLON);
        if i == |text| {
          return None;
        }
        taken := taken + [(Trim(text[..i]), Trim(text[i + 1..]))];
      }
    }

    method ReadExact(n: nat) returns (bytes: Option<Bytes>)
      requires Valid()
      modifies this`pos
      ensures Valid()
      ensures n > |old(Rest())| ==> bytes == None
      ensures n <= |old(Rest())| ==> bytes == Some(old(Rest())[..n]) && Rest() == old(Rest())[n..]
    {
      if n > |input| - pos {
        pos := |input|;
        return None;
      }
      assert Rest()[..n] == input[pos..pos + n] && Rest()[n..] == input[pos + n..];
      bytes := Some(input[pos..pos + n]);
      pos := pos + n;
    }

    method ReadRequest() returns (r: Parsed<Request>)
      requires Valid()
      modifies this`pos
      ensures Valid()
      ensures r == ParseRequest(old(Rest()))
      ensures match r
              case Eof => Rest() == []
              case Malformed(rest) => Rest() == rest
              case Truncated => true
              case Got(_, rest) => Rest() == rest
    {
      hide IsUtf8, LineLength, StripEol, TakeHeaders, ContentLength, IndexOf;
      AsciiIsUtf8([]);
      ghost var all := Rest();
      var line := ReadLine();
      assert Rest() == all[LineLength(all)..];
      if line == None {
        return Malformed(input[pos..]);
      }
      if line.value == [] {
        return Eof;
      }
      var text := StripEol(line.value);
      var i := IndexOf(text, SPACE);
      var after := if i < |text| then text[i + 1..] else [];
      var target := after[..IndexOf(after, SPACE)];
      if i == 0 || target == [] {
        return Malformed(input[pos..]);
      }
      var headers := ReadHeaders();
      if headers == None {
        return Malformed(input[pos..]);
      }
      var length := match ContentLength(headers.value) case Some(n) => n case None => 0;
      var body := ReadExact(length);
      if body == None {
        return Truncated;
      }
      return Got(Request(text[..i], target, headers.value, body.value), input[pos..]);
    }

    method ReadResponse() returns (r: Parsed<Response>)
      requires Valid()
      modifies this`pos
      ensures Valid()
      ensures r == ParseResponse(old(Rest()))
      ensures match r
              case Malformed(rest) => Rest() == rest
              case Got(_, rest) => Rest() == rest
              case _ => true
    {
      hide IsUtf8, LineLength, StripEol, TakeHeaders, ContentLength, ParseNumber, IndexOf;
      AsciiIsUtf8([]);
      ghost var all := Rest();
      var line := ReadLine();
      assert Rest() == all[LineLength(all)..];
      if line == None || line.value == [] {
        return Malformed(input[pos..]);
      }
      var text := StripEol(line.value);
      var i := IndexOf(text, SPACE);
      if i == |text| {
        return Malformed(input[pos..]);
      }
      var after := text[i + 1..];
      var status := ParseNumber(after[..IndexOf(after, SPACE)], 0xFFFF);
      if status == None {
        return Malformed(input[pos..]);
      }
      var headers := ReadHeaders();
      if headers == None {
        return Malformed(input[pos..]);
      }
      var length := match ContentLength(headers.value) case Some(n) => n case None => |input| - pos;
      var body := ReadExact(length);
      if body == None {
        return Truncated;
      }
      return Got(Response(status.value, headers.value, body.value), input[pos..]);
    }
  }

  class Writer {
    var output: Bytes

    constructor ()
      ensures output == []
    {
      output := [];
    }

    method WriteHeader(name: Text, value: Text)
      modifies this
      ensures output == old(output) + HeaderLine((name, value))
    {
      output := output + (name + ([COLON, SPACE] + (value + CRLF)));
    }

    /** Writes the headers whose name is not in `owned`. */
    method WriteOthers(headers: seq<Header>, owned: seq<Text>)
      modifies this
      ensures output == old(output) + HeaderLines(Others(headers, owned))
    {
      hide SameName, HeaderLine;
      var i := 0;
      while i < |headers|
        invariant 0 <= i <= |headers|
        invariant old(output) + HeaderLines(Others(headers, owned))
               == output + HeaderLines(Others(headers[i..], owned))
      {
        assert headers[i..][0] == headers[i] && headers[i..][1..] == headers[i + 1..];
        ghost var was := output;
        if !exists j :: 0 <= j < |owned| && SameName(headers[i].0, owned[j]) {
          WriteHeader(headers[i].0, headers[i].1);
          OneMore(headers[i], Others(headers[i + 1..], owned));
          Associate(was, HeaderLine(headers[i]), HeaderLines(Others(headers[i + 1..], owned)));
        } else {
          assert Others(headers[i..], owned) == Others(headers[i + 1..], owned);
        }
        i := i + 1;
      }
      assert HeaderLines(Others(headers[i..], owned)) == [];
    }

    method WriteResponse(response: Response)
      modifies this
      ensures output == old(output) + H.WriteResponse(response)
    {
      hide HeaderLines, HeaderLine, Others, Show, Reason;
      ghost var before := output;
      var first := HTTP_1_1 + ([SPACE] + (Show(response.status) + ([SPACE] + (Reason(response.status) + CRLF))));
      output := output + first;
      WriteHeader(CONTENT_LENGTH, Show(|response.body|));
      WriteOthers(response.headers, [CONTENT_LENGTH]);
      OneMore((CONTENT_LENGTH, Show(|response.body|)), Others(response.headers, [CONTENT_LENGTH]));
      output := output + (CRLF + response.body);
      Joined(before, first, HeaderLine((CONTENT_LENGTH, Show(|response.body|))),
             HeaderLines(Others(response.headers, [CONTENT_LENGTH])), CRLF + response.body);
    }

    method WriteRequest(request: Request)
      modifies this
      ensures output == old(output) + H.WriteRequest(request)
    {
      hide HeaderLines, HeaderLine, Others, Show;
      ghost var before := output;
      var first := request.method_ + ([SPACE] + (request.target + ([SPACE] + (HTTP_1_1 + CRLF))));
      output := output + first;
      WriteOthers(request.headers, [CONTENT_LENGTH, CONNECTION]);
      WriteHeader(CONTENT_LENGTH, Show(|request.body|));
      WriteHeader(CONNECTION, CLOSE);
      LastTwo(Others(request.headers, [CONTENT_LENGTH, CONNECTION]), (CONTENT_LENGTH, Show(|request.body|)), (CONNECTION, CLOSE));
      output := output + (CRLF + request.body);
      Joined(before + first, HeaderLines(Others(request.headers, [CONTENT_LENGTH, CONNECTION])),
             HeaderLine((CONTENT_LENGTH, Show(|request.body|))), HeaderLine((CONNECTION, CLOSE)), CRLF + request.body);
      Associate(before, first, HeaderLines(SentRequestHeaders(request)) + (CRLF + request.body));
    }
  }

  lemma OneMore(h: Header, rest: seq<Header>)
    ensures HeaderLines([h] + rest) == HeaderLine(h) + HeaderLines(rest)
  {
    assert ([h] + rest)[1..] == rest;
  }

  lemma {:induction false} LastTwo(headers: seq<Header>, g: Header, h: Header)
    ensures HeaderLines(headers + [g, h]) == HeaderLines(headers) + (HeaderLine(g) + HeaderLine(h))
  {
    hide HeaderLine;
    if headers == [] {
      assert headers + [g, h] == [g, h] && [g, h][1..] == [h] && [h][1..] == [];
      assert HeaderLines([h]) == HeaderLine(h) + [];
    } else {
      assert (headers + [g, h])[1..] == headers[1..] + [g, h];
      LastTwo(headers[1..], g, h);
      Associate(HeaderLine(headers[0]), HeaderLines(headers[1..]), HeaderLine(g) + HeaderLine(h));
    }
  }

  lemma Joined(a: Bytes, b: Bytes, c: Bytes, d: Bytes, e: Bytes)
    ensures a + b + c + d + e == a + (b + ((c + d) + e))
  {
  }
}
