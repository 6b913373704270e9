/** UTF-8 and white space by code points: the byte patterns the parsers look for are exactly those of
    section 3 of RFC 3629 and of the characters with the White_Space property. */
module Unicode {
  import opened Prelude
  import opened Texts
  import opened Http

  /** A Unicode scalar value. */
  type Scalar = n: int | 0 <= n < 0x11_0000 && !(0xD800 <= n < 0xE000)

  function Encode(c: Scalar): (s: Bytes)
    ensures 1 <= |s| <= 4
  {
    if c < 0x80 then [c]
    else if c < 0x800 then [0xC0 + c / 64, 0x80 + c % 64]
    else if c < 0x1_0000 then [0xE0 + c / 4096, 0x80 + c / 64 % 64, 0x80 + c % 64]
    else [0xF0 + c / 262144, 0x80 + c / 4096 % 64, 0x80 + c / 64 % 64, 0x80 + c % 64]
  }

  function EncodeAll(cs: seq<Scalar>): Bytes {
    if cs == [] then [] else Encode(cs[0]) + EncodeAll(cs[1..])
  }

  lemma EncodedIsChar(c: Scalar, rest: Bytes)
    ensures CharLength(Encode(c) + rest) == |Encode(c)|
  {
    var s := Encode(c) + rest;
    assert forall i :: 0 <= i < |Encode(c)| ==> s[i] == Encode(c)[i];
  }

  lemma TwoBytes(x: int, y: int)
    requires 2 <= x < 32 && 0 <= y < 64
    ensures Encode(64 * x + y) == [0xC0 + x, 0x80 + y]
  {
  }

  lemma ThreeBytes(x: int, y: int, z: int)
    requires 0 <= x < 16 && 0 <= y < 64 && 0 <= z < 64 && (x == 0 ==> y >= 32) && (x == 13 ==> y < 32)
    ensures var c := 4096 * x + 64 * y + z;
            0x800 <= c < 0x1_0000 && !(0xD800 <= c < 0xE000) && Encode(c) == [0xE0 + x, 0x80 + y, 0x80 + z]
  {
    var c := 4096 * x + 64 * y + z;
    assert c / 64 == 64 * x + y;
    assert c / 4096 == x;
  }

  lemma FourBytes(w: int, x: int, y: int, z: int)
    requires 0 <= w <= 4 && 0 <= x < 64 && 0 <= y < 64 && 0 <= z < 64 && (w == 0 ==> x >= 16) && (w == 4 ==> x < 16)
    ensures var c := 262144 * w + 4096 * x + 64 * y + z;
            0x1_0000 <= c < 0x11_0000 && Encode(c) == [0xF0 + w, 0x80 + x, 0x80 + y, 0x80 + z]
  {
    var c := 262144 * w + 4096 * x + 64 * y + z;
    assert c / 64 == 4096 * w + 64 * x + y;
    assert c / 4096 == 64 * w + x;
    assert c / 262144 == w;
  }

  lemma CharIsEncoded(s: Bytes) returns (c: Scalar)
    requires CharLength(s) > 0
    ensures s[..CharLength(s)] == Encode(c)
  {
    hide Encode;
    var n := CharLength(s);
    if n == 1 {
      c := s[0];
      OneByte(c);
    } else if n == 2 {
      TwoBytes(s[0] - 0xC0, s[1] - 0x80);
      c := 64 * (s[0] as int - 0xC0) + (s[1] as int - 0x80);
    } else if n == 3 {
      ThreeBytes(s[0] - 0xE0, s[1] - 0x80, s[2] - 0x80);
      c := 4096 * (s[0] as int - 0xE0) + 64 * (s[1] as int - 0x80) + (s[2] as int - 0x80);
    } else {
      FourBytes(s[0] - 0xF0, s[1] - 0x80, s[2] - 0x80, s[3] - 0x80);
      c := 262144 * (s[0] as int - 0xF0) + 4096 * (s[1] as int - 0x80) + 64 * (s[2] as int - 0x80) + (s[3] as int - 0x80);
    }
  }

  lemma OneByte(c: Scalar)
    requires c < 0x80
    ensures Encode(c) == [c]
  {
  }

  lemma {:induction false} EncodedIsUtf8(cs: seq<Scalar>)
    ensures IsUtf8(EncodeAll(cs))
  {
    hide CharLength, Encode;
    if cs != [] {
      EncodedIsUtf8(cs[1..]);
      EncodedIsChar(cs[0], EncodeAll(cs[1..]));
      assert EncodeAll(cs)[|Encode(cs[0])|..] == EncodeAll(cs[1..]);
    }
  }

  lemma {:induction false} Utf8IsEncoded(s: Bytes) returns (cs: seq<Scalar>)
    requires IsUtf8(s)
    ensures s == EncodeAll(cs)
  {
    hide CharLength, Encode;
    if s == [] {
      cs := [];
    } else {
      var c := CharIsEncoded(s);
      var rest := Utf8IsEncoded(s[CharLength(s)..]);
      cs := [c] + rest;
      assert cs[1..] == rest && s == s[..CharLength(s)] + s[CharLength(s)..];
    }
  }

  /** Well-formed text is exactly the encodings of scalar values, one after the other. */
  lemma Utf8Iff(s: Bytes)
    ensures IsUtf8(s) <==> exists cs :: s == EncodeAll(cs)
  {
    hide IsUtf8, EncodeAll;
    if IsUtf8(s) {
      var cs := Utf8IsEncoded(s);
    }
    forall cs | s == EncodeAll(cs)
      ensures IsUtf8(s)
    {
      EncodedIsUtf8(cs);
    }
  }

  /** The characters `trim` removes. */
  predicate IsWhite(c: Scalar) {
    || 0x09 <= c <= 0x0D || c == 0x20 || c == 0x85 || c == 0xA0 || c == 0x1680
    || 0x2000 <= c <= 0x200A || c == 0x2028 || c == 0x2029 || c == 0x202F || c == 0x205F || c == 0x3000
  }

  lemma WhiteAtStart(c: Scalar, rest: Bytes)
    ensures LeadingSpace(Encode(c) + rest) == if IsWhite(c) then |Encode(c)| else 0
  {
    var s := Encode(c) + rest;
    assert forall i :: 0 <= i < |Encode(c)| ==> s[i] == Encode(c)[i];
  }

  lemma WhiteAtEnd(c: Scalar, before: Bytes)
    ensures TrailingSpace(before + Encode(c)) == if IsWhite(c) then |Encode(c)| else 0
  {
    var s := before + Encode(c);
    var m := |s|;
    if c < 0x80 {
      assert s[m - 1] == c;
    } else if c < 0x800 {
      assert s[m - 2] == 0xC0 + c / 64 && s[m - 1] == 0x80 + c % 64;
    } else if c < 0x1_0000 {
      assert s[m - 3] == 0xE0 + c / 4096 && s[m - 2] == 0x80 + c / 64 % 64 && s[m - 1] == 0x80 + c % 64;
    } else {
      assert s[m - 3] == 0x80 + c / 4096 % 64 && s[m - 2] == 0x80 + c / 64 % 64 && s[m - 1] == 0x80 + c % 64;
    }
  }
}
