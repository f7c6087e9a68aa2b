/**
 The codec of thirdparty/base64encoding/base64.cpp: both alphabets, line breaking, and the decoder
 with its exceptions.  Bytes are numbers below 256 and masks with shifts are written as divisions
 (MasksAreDivisions).  The loops build a growing string or byte list and are proved against recursive
 encodings; decoding undoes encoding, and encoding undoes decoding exactly on the canonical strings.
 */
module Base64 {
  import opened Wrappers
  import Arithmetic
  import opened Sequences

  type Byte = b: int | 0 <= b < 256

  // The decoder's one exception.
  datatype DecodeError = InvalidInput

  lemma MasksAreDivisions(x: bv8)
    ensures (x & 0xfc) >> 2 == x / 4 && (x & 0x03) << 4 == (x % 4) * 16
    ensures (x & 0xf0) >> 4 == x / 16 && (x & 0x0f) << 2 == (x % 16) * 4
    ensures (x & 0xc0) >> 6 == x / 64 && x & 0x3f == x % 64
    ensures x < 64 ==> (x & 0x30) >> 4 == x / 16 && (x & 0x3c) >> 2 == x / 4
    ensures (x & 0x0f) << 4 == (x % 16) * 16 && (x & 0x03) << 6 == (x % 4) * 64
  {
  }

  // ----- the alphabets

  function CharOf(i: nat, url: bool): char
    requires i < 64
  {
    if i < 26 then ('A' as int + i) as char
    else if i < 52 then ('a' as int + i - 26) as char
    else if i < 62 then ('0' as int + i - 52) as char
    else if i == 62 then (if url then '-' else '+')
    else if url then '_' else '/'
  }

  // Both alphabets are accepted; anything else throws.
  function PosOfChar(c: char): (r: Option<nat>)
    ensures r.Some? ==> r.value < 64
  {
    if 'A' <= c <= 'Z' then Some(c as int - 'A' as int)
    else if 'a' <= c <= 'z' then Some(c as int - 'a' as int + 26)
    else if '0' <= c <= '9' then Some(c as int - '0' as int + 52)
    else if c == '+' || c == '-' then Some(62)
    else if c == '/' || c == '_' then Some(63)
    else None
  }

  // The position of a character is its index in either alphabet; other characters have none.
  lemma PosOfCharIff(c: char, i: nat)
    ensures PosOfChar(c) == Some(i) <==> i < 64 && (c == CharOf(i, false) || c == CharOf(i, true))
  {
  }

  function Pad(url: bool): char { if url then '.' else '=' }

  predicate IsPad(c: char) { c == '=' || c == '.' }

  lemma CharRoundTrip(i: nat, url: bool)
    requires i < 64
    ensures PosOfChar(CharOf(i, url)) == Some(i)
    ensures !IsPad(CharOf(i, url)) && CharOf(i, url) != '\n'
  {
  }

  // ----- encoding

  // The four characters of up to three bytes.
  function Quad(b: seq<Byte>, url: bool): (q: string)
    requires 1 <= |b| <= 3
    ensures |q| == 4
  {
    var c0 := CharOf(b[0] / 4, url);
    if |b| == 1 then [c0, CharOf(b[0] % 4 * 16, url), Pad(url), Pad(url)]
    else
      var c1 := CharOf(b[0] % 4 * 16 + b[1] / 16, url);
      if |b| == 2 then [c0, c1, CharOf(b[1] % 16 * 4, url), Pad(url)]
      else [c0, c1, CharOf(b[1] % 16 * 4 + b[2] / 64, url), CharOf(b[2] % 64, url)]
  }

  function Encoded(b: seq<Byte>, url: bool): string {
    if b == [] then "" else if |b| <= 3 then Quad(b, url) else Quad(b[..3], url) + Encoded(b[3..], url)
  }

  const UPPER := "ABCDEFGHIJKLMNOPQRSTUVWXYZ"
  const LOWER := "abcdefghijklmnopqrstuvwxyz"
  const DIGITS := "0123456789"

  // The two alphabets, spelled out.
  lemma Alphabets(i: nat)
    requires i < 64
    ensures CharOf(i, false) == (UPPER + LOWER + DIGITS + "+/")[i]
    ensures CharOf(i, true) == (UPPER + LOWER + DIGITS + "-_")[i]
  {
    if i < 26 {
      UpperAt(i);
    } else if i < 52 {
      LowerAt(i - 26);
    } else if i < 62 {
      DigitAt(i - 52);
    }
  }

  lemma UpperAt(i: nat)
    requires i < 26
    ensures UPPER[i] == CharOf(i, false) == CharOf(i, true)
  {
  }

  lemma LowerAt(i: nat)
    requires i < 26
    ensures LOWER[i] == CharOf(i + 26, false) == CharOf(i + 26, true)
  {
  }

  lemma DigitAt(i: nat)
    requires i < 10
    ensures DIGITS[i] == CharOf(i + 52, false) == CharOf(i + 52, true)
  {
  }

  // What an encoding consists of and how it ends.
  predicate EncodingChar(c: char, url: bool) {
    || 'A' <= c <= 'Z' || 'a' <= c <= 'z' || '0' <= c <= '9'
    || (if url then c == '-' || c == '_' || c == '.' else c == '+' || c == '/' || c == '=')
  }

  lemma CharIsEncoding(i: nat, url: bool)
    requires i < 64
    ensures EncodingChar(CharOf(i, url), url) && CharOf(i, url) != (if url then '.' else '=')
  {
  }

  lemma QuadChars(b: seq<Byte>, url: bool)
    requires 1 <= |b| <= 3
    ensures var q, pad := Quad(b, url), if url then '.' else '=';
            && EncodingChar(q[0], url) && EncodingChar(q[1], url) && EncodingChar(q[2], url) && EncodingChar(q[3], url)
            && q[0] != pad && q[1] != pad && (q[2] == pad <==> |b| == 1) && (q[3] == pad <==> |b| <= 2)
  {
    hide CharOf;
    CharIsEncoding(b[0] / 4, url);
    if |b| == 1 {
      CharIsEncoding(b[0] % 4 * 16, url);
    } else {
      CharIsEncoding(b[0] % 4 * 16 + b[1] / 16, url);
      if |b| == 2 {
        CharIsEncoding(b[1] % 16 * 4, url);
      } else {
        CharIsEncoding(b[1] % 16 * 4 + b[2] / 64, url);
        CharIsEncoding(b[2] % 64, url);
      }
    }
  }

  // Every character belongs to the chosen alphabet or is its pad; pads stand in the last two places only,
  // and how many there are tells how many bytes the last group has.
  ghost predicate WellEncoded(e: string, n: nat, url: bool) {
    var pad := if url then '.' else '=';
    && (forall k :: 0 <= k < |e| ==> EncodingChar(e[k], url))
    && (forall k :: 0 <= k < |e| - 2 ==> e[k] != pad)
    && (n > 0 ==> |e| >= 4 && (e[|e| - 2] == pad <==> n % 3 == 1) && (e[|e| - 1] == pad <==> n % 3 != 0))
  }

  lemma {:induction false} EncodedChars(b: seq<Byte>, url: bool)
    ensures WellEncoded(Encoded(b, url), |b|, url)
    decreases |b|
  {
    if b != [] {
      var first := if |b| <= 3 then b else b[..3];
      QuadChars(first, url);
      hide Quad, EncodingChar;
      if |b| > 3 {
        EncodedChars(b[3..], url);
        QuadThenRest(Quad(first, url), Encoded(b[3..], url), |b| - 3, url);
        assert |b| % 3 == (|b| - 3) % 3;
        hide WellEncoded;
      }
    }
  }

  lemma QuadThenRest(q: string, e: string, n: nat, url: bool)
    requires |q| == 4 && n > 0 && WellEncoded(e, n, url)
    requires var pad := if url then '.' else '=';
             forall k :: 0 <= k < 4 ==> EncodingChar(q[k], url) && q[k] != pad
    ensures WellEncoded(q + e, n + 3, url)
  {
    hide EncodingChar;
    var s := q + e;
    assert forall k :: 0 <= k < |s| ==> s[k] == if k < 4 then q[k] else e[k - 4];
    assert s[|s| - 2] == e[|e| - 2] && s[|s| - 1] == e[|e| - 1];
  }

  // The first vectors of section 10 of RFC 4648, and the two last characters of each alphabet.
  lemma TestVectors()
    ensures Encoded([0x66], false) == "Zg==" && Encoded([0x66, 0x6f], false) == "Zm8="
    ensures Encoded([0x66, 0x6f, 0x6f], false) == "Zm9v" && Encoded([0x66], true) == "Zg.."
    ensures Encoded([0xfb, 0xff, 0xfe], false) == "+//+" && Encoded([0xfb, 0xff, 0xfe], true) == "-__-"
  {
  }

  // The next up to three bytes of an input.
  function Chunk(bytes: seq<Byte>, pos: nat): (r: seq<Byte>)
    requires pos < |bytes|
    ensures 1 <= |r| <= 3
  {
    if pos + 3 <= |bytes| then bytes[pos..pos + 3] else bytes[pos..]
  }

  method Base64Encode(bytes: seq<Byte>, url: bool) returns (ret: string)
    ensures ret == Encoded(bytes, url)
  {
    var pos := 0;
    ret := "";
    assert bytes[0..] == bytes;
    while pos < |bytes|
      invariant 0 <= pos
      invariant ret + EncodedFrom(bytes, pos, url) == Encoded(bytes, url)
    {
      EncodedSplit(bytes, pos, url);
      Regroup(ret, Quad(Chunk(bytes, pos), url), EncodedFrom(bytes, pos + 3, url));
      ret := PushQuad(ret, bytes, pos, url);
      pos := pos + 3;
    }
  }

  function EncodedFrom(bytes: seq<Byte>, pos: nat, url: bool): string {
    if pos < |bytes| then Encoded(bytes[pos..], url) else ""
  }

  // The body of the encoding loop, one character at a time.
  method PushQuad(before: string, bytes: seq<Byte>, pos: nat, url: bool) returns (ret: string)
    requires pos < |bytes|
    ensures ret == before + Quad(Chunk(bytes, pos), url)
  {
    var trailing := Pad(url);
    ret := before + [CharOf(bytes[pos] / 4, url)];
    if pos + 1 < |bytes| {
      ret := ret + [CharOf(bytes[pos] % 4 * 16 + bytes[pos + 1] / 16, url)];
      if pos + 2 < |bytes| {
        ret := ret + [CharOf(bytes[pos + 1] % 16 * 4 + bytes[pos + 2] / 64, url)];
        ret := ret + [CharOf(bytes[pos + 2] % 64, url)];
      } else {
        ret := ret + [CharOf(bytes[pos + 1] % 16 * 4, url)];
        ret := ret + [trailing];
      }
    } else {
      ret := ret + [CharOf(bytes[pos] % 4 * 16, url)];
      ret := ret + [trailing, trailing];
    }
  }

  lemma EncodedSplit(bytes: seq<Byte>, pos: nat, url: bool)
    requires pos < |bytes|
    ensures EncodedFrom(bytes, pos, url) == Quad(Chunk(bytes, pos), url) + EncodedFrom(bytes, pos + 3, url)
  {
    var rest := bytes[pos..];
    if |rest| > 3 {
      assert rest[..3] == Chunk(bytes, pos) && rest[3..] == bytes[pos + 3..];
    } else {
      assert rest == Chunk(bytes, pos);
    }
  }

  lemma {:induction false} EncodedLength(b: seq<Byte>, url: bool)
    ensures |Encoded(b, url)| == (|b| + 2) / 3 * 4
    decreases |b|
  {
    if |b| > 3 {
      EncodedLength(b[3..], url);
      OneMoreGroup(|b|);
    } else if b != [] {
      assert (|b| + 2) / 3 == 1;
    }
  }

  lemma OneMoreGroup(n: nat)
    requires n > 3
    ensures (n + 2) / 3 * 4 == 4 + (n - 1) / 3 * 4
  {
  }

  lemma {:induction false} EncodedNoBreak(b: seq<Byte>, url: bool)
    ensures '\n' !in Encoded(b, url)
    decreases |b|
  {
    if b != [] {
      QuadNoBreak(if |b| <= 3 then b else b[..3], url);
      if |b| > 3 { EncodedNoBreak(b[3..], url); }
    }
  }

  lemma QuadNoBreak(b: seq<Byte>, url: bool)
    requires 1 <= |b| <= 3
    ensures '\n' !in Quad(b, url)
  {
  }

  // ----- decoding

  // std::string's subscript: one past the end reads the terminating zero, anything further is undefined.
  function At(s: string, i: nat): char
    requires i <= |s|
  {
    if i < |s| then s[i] else '\0'
  }

  // The bytes of the block at the front of s; every character read lies within the string or is its
  // terminator.
  function Block(s: string): (r: Result<seq<Byte>, DecodeError>)
    requires s != []
  {
    match (PosOfChar(At(s, 0)), PosOfChar(At(s, 1)))
    case (Some(p0), Some(p1)) =>
      var b0 := p0 * 4 + p1 / 16;
      if IsPad(At(s, 2)) then Ok([b0]) else
      (match PosOfChar(At(s, 2))
       case None => Err(InvalidInput)
       case Some(p2) =>
         var b1 := p1 % 16 * 16 + p2 / 4;
         if IsPad(At(s, 3)) then Ok([b0, b1]) else
         match PosOfChar(At(s, 3))
         case None => Err(InvalidInput)
         case Some(p3) => Ok([b0, b1, p2 % 4 * 64 + p3]))
    case _ => Err(InvalidInput)
  }

  function Decoded(s: string): Result<seq<Byte>, DecodeError>
    decreases |s|
  {
    if s == "" then Ok([]) else
    match Block(s)
    case Err(e) => Err(e)
    case Ok(b) =>
      if |s| <= 4 then Ok(b) else
      match Decoded(s[4..])
      case Err(e) => Err(e)
      case Ok(rest) => Ok(b + rest)
  }

  // The loop of decode, with the exception as an early return.
  method DecodeLoop(encoded: string) returns (r: Result<seq<Byte>, DecodeError>)
    ensures r == Decoded(encoded)
  {
    var pos := 0;
    var ret: seq<Byte> := [];
    assert encoded[0..] == encoded;
    PrependNothing(Decoded(encoded));
    while pos < |encoded|
      invariant 0 <= pos
      invariant Decoded(encoded) == Prepend(ret, DecodedFrom(encoded, pos))
    {
      DecodedSplit(ret, encoded, pos);
      var next := PushBlock(ret, encoded, pos);
      if next.Err? { return next; }
      ret := next.value;
      pos := pos + 4;
    }
    assert ret + [] == ret;
    r := Ok(ret);
  }

  // The body of the decoding loop, one byte at a time.
  method PushBlock(before: seq<Byte>, encoded: string, pos: nat) returns (r: Result<seq<Byte>, DecodeError>)
    requires pos < |encoded|
    ensures r == Prepend(before, Block(encoded[pos..]))
  {
    ghost var rest := encoded[pos..];
    assert At(rest, 0) == At(encoded, pos) && At(rest, 1) == At(encoded, pos + 1);
    var p1 := PosOfChar(At(encoded, pos + 1));
    if p1 == None { return Err(InvalidInput); }
    var p0 := PosOfChar(At(encoded, pos));
    if p0 == None { return Err(InvalidInput); }
    var ret := before + [p0.value * 4 + p1.value / 16];
    assert At(rest, 2) == At(encoded, pos + 2);
    if !IsPad(At(encoded, pos + 2)) {
      var p2 := PosOfChar(At(encoded, pos + 2));
      if p2 == None { return Err(InvalidInput); }
      ret := ret + [p1.value % 16 * 16 + p2.value / 4];
      assert At(rest, 3) == At(encoded, pos + 3);
      if !IsPad(At(encoded, pos + 3)) {
        var p3 := PosOfChar(At(encoded, pos + 3));
        if p3 == None { return Err(InvalidInput); }
        ret := ret + [p2.value % 4 * 64 + p3.value];
      }
    }
    assert ret == before + Block(rest).value;
    r := Ok(ret);
  }

  function DecodedFrom(s: string, pos: nat): Result<seq<Byte>, DecodeError> {
    if pos < |s| then Decoded(s[pos..]) else Ok([])
  }

  lemma DecodedSplit(before: seq<Byte>, s: string, pos: nat)
    requires pos < |s|
    ensures match Block(s[pos..])
            case Err(e) => Prepend(before, DecodedFrom(s, pos)) == Err(e)
            case Ok(b) => Prepend(before, DecodedFrom(s, pos)) == Prepend(before + b, DecodedFrom(s, pos + 4))
  {
    var rest := s[pos..];
    if Block(rest).Ok? {
      if |rest| > 4 {
        assert rest[4..] == s[pos + 4..];
        PrependBlock(before, rest);
      } else {
        assert before + Block(rest).value + [] == before + Block(rest).value;
      }
    }
  }

  function Prepend(b: seq<Byte>, r: Result<seq<Byte>, DecodeError>): Result<seq<Byte>, DecodeError> {
    match r
    case Ok(rest) => Ok(b + rest)
    case Err(e) => Err(e)
  }

  lemma PrependNothing(r: Result<seq<Byte>, DecodeError>)
    ensures Prepend([], r) == r
  {
    if r.Ok? { assert [] + r.value == r.value; }
  }

  lemma PrependBlock(before: seq<Byte>, s: string)
    requires |s| > 4 && Block(s).Ok?
    ensures Prepend(before, Decoded(s)) == Prepend(before + Block(s).value, Decoded(s[4..]))
  {
    match Decoded(s[4..])
    case Ok(rest) => assert before + (Block(s).value + rest) == before + Block(s).value + rest;
    case Err(_) =>
  }

  // What decode accepts, block by block: two digits, then a pad, or a digit followed by a digit or a
  // pad.  A final block of three characters ending in a pad passes too, since the fourth is not read.
  predicate BlockOk(s: string, i: nat) {
    && i + 2 < |s|
    && PosOfChar(s[i]).Some? && PosOfChar(s[i + 1]).Some?
    && (IsPad(s[i + 2]) ||
        (PosOfChar(s[i + 2]).Some? && i + 3 < |s| && (IsPad(s[i + 3]) || PosOfChar(s[i + 3]).Some?)))
  }

  lemma {:induction false} DecodeAcceptsIff(s: string)
    ensures Decoded(s).Ok? <==> forall k: nat :: 4 * k < |s| ==> BlockOk(s, 4 * k)
    decreases |s|
  {
    if s != "" {
      assert Block(s).Ok? <==> BlockOk(s, 4 * 0);
      if |s| > 4 {
        DecodeAcceptsIff(s[4..]);
        forall k: nat | 4 * k < |s[4..]| ensures BlockOk(s[4..], 4 * k) <==> BlockOk(s, 4 * (k + 1)) {
          ShiftBlock(s, 4 * k);
        }
        forall k: nat | 4 * k < |s| && k > 0 ensures BlockOk(s, 4 * k) <==> BlockOk(s[4..], 4 * (k - 1)) {
          ShiftBlock(s, 4 * (k - 1));
        }
      }
    }
  }

  lemma ShiftBlock(s: string, i: nat)
    requires |s| > 4
    ensures BlockOk(s[4..], i) <==> BlockOk(s, i + 4)
  {
  }

  // ----- round trip

  lemma BlockOfQuad(b: seq<Byte>, url: bool, rest: string)
    requires 1 <= |b| <= 3
    ensures Block(Quad(b, url) + rest) == Ok(b)
  {
    var q := Quad(b, url);
    var s := q + rest;
    assert At(s, 0) == q[0] && At(s, 1) == q[1] && At(s, 2) == q[2] && At(s, 3) == q[3];
    if |b| == 1 {
      BlockOfOne(b, url, s);
    } else if |b| == 2 {
      BlockOfTwo(b, url, s);
    } else {
      BlockOfThree(b, url, s);
    }
  }

  ghost predicate StartsWith(s: string, q: string)
    requires |q| == 4
  {
    |s| >= 4 && At(s, 0) == q[0] && At(s, 1) == q[1] && At(s, 2) == q[2] && At(s, 3) == q[3]
  }

  lemma BlockOfOne(b: seq<Byte>, url: bool, s: string)
    requires |b| == 1 && StartsWith(s, Quad(b, url))
    ensures Block(s) == Ok(b)
  {
    CharRoundTrip(b[0] / 4, url);
    CharRoundTrip(b[0] % 4 * 16, url);
    assert b == [b[0]];
  }

  lemma BlockOfTwo(b: seq<Byte>, url: bool, s: string)
    requires |b| == 2 && StartsWith(s, Quad(b, url))
    ensures Block(s) == Ok(b)
  {
    CharRoundTrip(b[0] / 4, url);
    CharRoundTrip(b[0] % 4 * 16 + b[1] / 16, url);
    CharRoundTrip(b[1] % 16 * 4, url);
    assert b == [b[0], b[1]];
    assert Block(s) == Ok([b[0], b[1]]);
  }

  lemma BlockOfThree(b: seq<Byte>, url: bool, s: string)
    requires |b| == 3 && StartsWith(s, Quad(b, url))
    ensures Block(s) == Ok(b)
  {
    CharRoundTrip(b[0] / 4, url);
    CharRoundTrip(b[0] % 4 * 16 + b[1] / 16, url);
    CharRoundTrip(b[1] % 16 * 4 + b[2] / 64, url);
    CharRoundTrip(b[2] % 64, url);
    SplitBytes(b[0], b[1], b[2]);
    assert Block(s) == Ok([b[0], b[1], b[2]]);
    assert b == [b[0], b[1], b[2]];
  }

  lemma SplitBytes(x: Byte, y: Byte, z: Byte)
    ensures var p0, p1, p2, p3 := x / 4, x % 4 * 16 + y / 16, y % 16 * 4 + z / 64, z % 64;
            p0 * 4 + p1 / 16 == x && p1 % 16 * 16 + p2 / 4 == y && p2 % 4 * 64 + p3 == z
  {
  }

  lemma {:induction false} RoundTrip(b: seq<Byte>, url: bool)
    ensures Decoded(Encoded(b, url)) == Ok(b)
    decreases |b|
  {
    if b != [] {
      if |b| <= 3 {
        BlockOfQuad(b, url, "");
        assert Quad(b, url) + "" == Quad(b, url);
      } else {
        RoundTrip(b[3..], url);
        EncodedLength(b[3..], url);
        DecodedFront(b[..3], url, Encoded(b[3..], url));
        assert b == b[..3] + b[3..];
      }
    }
  }

  lemma DecodedFront(b: seq<Byte>, url: bool, e: string)
    requires 1 <= |b| <= 3 && e != ""
    ensures Decoded(Quad(b, url) + e) == Prepend(b, Decoded(e))
  {
    BlockOfQuad(b, url, e);
    assert (Quad(b, url) + e)[4..] == e;
  }

  // ----- which strings come back

  // A character of the chosen alphabet.
  predicate Digit(c: char, url: bool) { PosOfChar(c).Some? && c == CharOf(PosOfChar(c).value, url) }

  // Four digits; or in the last block, a pad after three or two pads after two, with no bit set that
  // stands for nothing.
  predicate CanonicalBlock(s: string, i: nat, url: bool) {
    && i + 3 < |s| && Digit(s[i], url) && Digit(s[i + 1], url)
    && ((Digit(s[i + 2], url) && Digit(s[i + 3], url)) ||
        (i + 4 == |s| && s[i + 3] == Pad(url) &&
         if s[i + 2] == Pad(url) then PosOfChar(s[i + 1]).value % 16 == 0
         else Digit(s[i + 2], url) && PosOfChar(s[i + 2]).value % 4 == 0))
  }

  ghost predicate Canonical(s: string, url: bool) {
    forall k: nat :: 4 * k < |s| ==> CanonicalBlock(s, 4 * k, url)
  }

  predicate ComesBack(s: string, url: bool) { Decoded(s).Ok? && Encoded(Decoded(s).value, url) == s }

  lemma CharIsDigit(i: nat, url: bool)
    requires i < 64
    ensures Digit(CharOf(i, url), url) && PosOfChar(CharOf(i, url)) == Some(i) && !IsPad(CharOf(i, url))
  {
  }

  lemma QuadIsCanonical(b: seq<Byte>, url: bool)
    requires 1 <= |b| <= 3
    ensures CanonicalBlock(Quad(b, url), 0, url)
    ensures |b| == 3 ==> !IsPad(Quad(b, url)[2]) && !IsPad(Quad(b, url)[3])
  {
    hide CharOf, PosOfChar, Digit;
    CharIsDigit(b[0] / 4, url);
    if |b| == 1 {
      CharIsDigit(b[0] % 4 * 16, url);
    } else {
      CharIsDigit(b[0] % 4 * 16 + b[1] / 16, url);
      if |b| == 2 {
        CharIsDigit(b[1] % 16 * 4, url);
        assert Quad(b, url)[2] != Pad(url);
      } else {
        CharIsDigit(b[1] % 16 * 4 + b[2] / 64, url);
        CharIsDigit(b[2] % 64, url);
      }
    }
  }

  // Joining the bits of four digits to bytes and splitting the bytes gives the digits back.
  lemma JoinDigits(p0: nat, p1: nat, p2: nat, p3: nat)
    requires p0 < 64 && p1 < 64 && p2 < 64 && p3 < 64
    ensures var x, y, z := p0 * 4 + p1 / 16, p1 % 16 * 16 + p2 / 4, p2 % 4 * 64 + p3;
            && x < 256 && y < 256 && z < 256
            && x / 4 == p0 && x % 4 * 16 + y / 16 == p1 && y % 16 * 4 + z / 64 == p2 && z % 64 == p3
            && (p1 % 16 == 0 ==> x % 4 * 16 == p1) && (p2 % 4 == 0 ==> y % 16 * 4 == p2)
  {
  }

  lemma BlockComesBack(s: string, url: bool)
    requires |s| == 4
    ensures Block(s).Ok? && Quad(Block(s).value, url) == s <==> CanonicalBlock(s, 0, url)
  {
    if Block(s).Ok? && Quad(Block(s).value, url) == s {
      QuadIsCanonical(Block(s).value, url);
    }
    if CanonicalBlock(s, 0, url) { CanonicalComesBack(s, url); }
  }

  lemma CanonicalComesBack(s: string, url: bool)
    requires |s| == 4 && CanonicalBlock(s, 0, url)
    ensures Block(s).Ok? && Quad(Block(s).value, url) == s
  {
    DigitsAreNoPads(s, url);
    hide CharOf, PosOfChar;
    var p0, p1 := PosOfChar(s[0]).value, PosOfChar(s[1]).value;
    if s[2] == Pad(url) {
      JoinDigits(p0, p1, 0, 0);
    } else {
      var p2 := PosOfChar(s[2]).value;
      if s[3] == Pad(url) {
        JoinDigits(p0, p1, p2, 0);
      } else {
        JoinDigits(p0, p1, p2, PosOfChar(s[3]).value);
      }
    }
  }

  lemma DigitsAreNoPads(s: string, url: bool)
    ensures forall i :: 0 <= i < |s| && Digit(s[i], url) ==> !IsPad(s[i]) && PosOfChar(s[i]).value < 64
  {
  }

  lemma {:induction false} DecodesToSome(s: string)
    requires s != "" && Decoded(s).Ok?
    ensures Decoded(s).value != []
  {
  }

  // A longer string comes back exactly when its first block is a full one that comes back, and the rest does.
  lemma RestComesBack(s: string, url: bool)
    requires |s| > 4
    ensures ComesBack(s, url) <==>
            Block(s).Ok? && |Block(s).value| == 3 && Quad(Block(s).value, url) == s[..4] && ComesBack(s[4..], url)
  {
    hide Block, Quad, CharOf, PosOfChar;
    if Decoded(s).Ok? {
      var b, rest := Block(s).value, Decoded(s[4..]).value;
      var all := b + rest;
      DecodesToSome(s[4..]);
      EncodedLength(all, url);
      if ComesBack(s, url) {
        assert |all| > 3;
        assert s == Quad(all[..3], url) + Encoded(all[3..], url);
        BlockOfQuad(all[..3], url, Encoded(all[3..], url));
        assert all[3..] == rest && s[..4] == Quad(b, url) && s[4..] == Encoded(rest, url);
      }
      if |b| == 3 && Quad(b, url) == s[..4] && Encoded(rest, url) == s[4..] {
        assert all[..3] == b && all[3..] == rest;
        assert s == s[..4] + s[4..];
      }
    }
  }

  lemma RestCanonical(s: string, url: bool)
    requires |s| > 4
    ensures Canonical(s, url) <==> CanonicalBlock(s, 0, url) && Canonical(s[4..], url)
  {
    if Canonical(s, url) {
      assert CanonicalBlock(s, 4 * 0, url);
      forall k: nat | 4 * k < |s[4..]| ensures CanonicalBlock(s[4..], 4 * k, url) {
        assert CanonicalBlock(s, 4 * (k + 1), url);
      }
    }
    if CanonicalBlock(s, 0, url) && Canonical(s[4..], url) {
      forall k: nat | 4 * k < |s| ensures CanonicalBlock(s, 4 * k, url) {
        assert k > 0 ==> CanonicalBlock(s[4..], 4 * (k - 1), url);
      }
    }
  }

  // Exactly the canonical strings are encoded back to themselves; what else the decoder accepts (see
  // DecodeAcceptsIff) is changed by it.
  lemma {:induction false} ComesBackIff(s: string, url: bool)
    ensures ComesBack(s, url) <==> Canonical(s, url)
    decreases |s|
  {
    hide CharOf, PosOfChar, Digit;
    if s == "" {
    } else if |s| < 4 {
      assert !CanonicalBlock(s, 4 * 0, url);
      if ComesBack(s, url) { EncodedLength(Decoded(s).value, url); }
    } else if |s| == 4 {
      BlockComesBack(s, url);
      assert Canonical(s, url) <==> CanonicalBlock(s, 4 * 0, url);
    } else {
      RestComesBack(s, url);
      RestCanonical(s, url);
      FirstComesBack(s, url);
      ComesBackIff(s[4..], url);
    }
  }

  lemma FirstComesBack(s: string, url: bool)
    requires |s| > 4
    ensures CanonicalBlock(s, 0, url) <==>
            Block(s).Ok? && |Block(s).value| == 3 && Quad(Block(s).value, url) == s[..4]
  {
    var t := s[..4];
    BlockComesBack(t, url);
    DigitsAreNoPads(t, url);
    BlockSize(t);
    assert Block(s) == Block(t) by { FirstFour(s); }
    hide CharOf, PosOfChar, Digit, Block, Quad;
  }

  lemma BlockSize(s: string)
    requires |s| == 4
    ensures Block(s).Ok? ==> (|Block(s).value| == 3 <==> !IsPad(s[2]) && !IsPad(s[3]))
  {
  }

  lemma FirstFour(s: string)
    requires |s| > 4
    ensures Block(s) == Block(s[..4])
  {
    hide PosOfChar;
  }

  // ----- line breaks

  function Broken(s: string, distance: nat): string
    requires distance > 0
    decreases |s|
  {
    if |s| <= distance then s else s[..distance] + "\n" + Broken(s[distance..], distance)
  }

  // The loop inserts into the string it is measuring, and still ends.
  method InsertLinebreaks(s: string, distance: nat) returns (str: string)
    requires distance > 0
    ensures str == Broken(s, distance)
  {
    if |s| == 0 { return ""; }
    str := s;
    var pos := distance;
    ghost var done, rest := "", s;
    while pos < |str|
      invariant str == done + rest && pos == |done| + distance
      invariant done + Broken(rest, distance) == Broken(s, distance)
      decreases |str| - pos
    {
      InsertOne(done, rest, distance);
      hide Broken;
      str := str[..pos] + "\n" + str[pos..];
      pos := pos + distance + 1;
      done, rest := done + (rest[..distance] + "\n"), rest[distance..];
    }
  }

  lemma InsertOne(done: string, rest: string, distance: nat)
    requires 0 < distance < |rest|
    ensures var str, pos := done + rest, |done| + distance;
            var line := done + (rest[..distance] + "\n");
            && str[..pos] + "\n" + str[pos..] == line + rest[distance..]
            && line + Broken(rest[distance..], distance) == done + Broken(rest, distance)
  {
    var b := Broken(rest[distance..], distance);
    assert Broken(rest, distance) == rest[..distance] + "\n" + b;
    Regroup(done, rest[..distance] + "\n", b);
  }

  function Strip(s: string): string {
    if s == "" then "" else (if s[0] == '\n' then "" else [s[0]]) + Strip(s[1..])
  }

  lemma {:induction false} StripSnoc(a: string, c: char)
    ensures Strip(a + [c]) == Strip(a) + (if c == '\n' then "" else [c])
  {
    if a == "" {
      assert (a + [c])[1..] == "";
    } else {
      assert (a + [c])[1..] == a[1..] + [c];
      StripSnoc(a[1..], c);
      var first := if a[0] == '\n' then "" else [a[0]];
      var last := if c == '\n' then "" else [c];
      assert Strip(a + [c]) == first + Strip(a[1..] + [c]) && Strip(a) == first + Strip(a[1..]);
      Regroup(first, Strip(a[1..]), last);
    }
  }

  lemma {:induction false} StripNothing(s: string)
    requires '\n' !in s
    ensures Strip(s) == s
  {
    if s != "" { StripNothing(s[1..]); }
  }

  lemma {:induction false} StripBroken(s: string, distance: nat)
    requires distance > 0 && '\n' !in s
    ensures Strip(Broken(s, distance)) == s
    decreases |s|
  {
    if |s| <= distance {
      StripNothing(s);
    } else {
      var a, b := s[..distance], s[distance..];
      StripBroken(b, distance);
      StripLine(a, Broken(b, distance));
      assert s == a + b;
    }
  }

  lemma {:induction false} StripLine(a: string, rest: string)
    requires '\n' !in a
    ensures Strip(a + "\n" + rest) == a + Strip(rest)
  {
    var s := a + "\n" + rest;
    if a == "" {
      assert s[0] == '\n' && s[1..] == rest;
    } else {
      assert s[0] == a[0] && s[1..] == a[1..] + "\n" + rest;
      StripLine(a[1..], rest);
      assert [a[0]] + (a[1..] + Strip(rest)) == a + Strip(rest);
    }
  }

  // Line breaks stand exactly after every `distance` characters: all lines but the last are full, and
  // the last is not empty.
  lemma {:induction false} BrokenLines(s: string, distance: nat, i: nat)
    requires distance > 0 && '\n' !in s && i < |Broken(s, distance)|
    ensures Broken(s, distance)[i] == '\n' <==> i % (distance + 1) == distance
    ensures Broken(s, distance)[|Broken(s, distance)| - 1] != '\n'
    decreases |s|
  {
    if |s| > distance {
      var n := distance + 1;
      var b := s[distance..];
      BrokenLines(b, distance, if i < n then 0 else i - n);
      if i >= n {
        assert Broken(s, distance)[i] == Broken(b, distance)[i - n];
        Arithmetic.NextSlot(i - n, n);
      } else {
        Arithmetic.ModUnique(0, i, n);
      }
      assert Broken(s, distance)[|Broken(s, distance)| - 1] == Broken(b, distance)[|Broken(b, distance)| - 1];
    } else {
      Arithmetic.ModUnique(0, i, distance + 1);
    }
  }

  method Base64Decode(encoded: string, removeLinebreaks: bool) returns (r: Result<seq<Byte>, DecodeError>)
    ensures r == Decoded(if removeLinebreaks then Strip(encoded) else encoded)
  {
    if encoded == "" { return Ok([]); }
    var copy := encoded;
    if removeLinebreaks {
      copy := "";
      assert encoded[..0] == "";
      for i := 0 to |encoded|
        invariant copy == Strip(encoded[..i])
      {
        assert encoded[..i + 1] == encoded[..i] + [encoded[i]];
        StripSnoc(encoded[..i], encoded[i]);
        if encoded[i] != '\n' { copy := copy + [encoded[i]]; }
      }
      assert encoded[..|encoded|] == encoded;
    }
    r := DecodeLoop(copy);
  }

  function EncodedPem(b: seq<Byte>): string { Broken(Encoded(b, false), 64) }

  function EncodedMime(b: seq<Byte>): string { Broken(Encoded(b, false), 76) }

  // Decoding with newline removal undoes both line-broken forms.
  lemma BrokenRoundTrip(b: seq<Byte>)
    ensures Decoded(Strip(EncodedPem(b))) == Ok(b)
    ensures Decoded(Strip(EncodedMime(b))) == Ok(b)
  {
    EncodedNoBreak(b, false);
    StripBroken(Encoded(b, false), 64);
    StripBroken(Encoded(b, false), 76);
    RoundTrip(b, false);
  }

  // Without newline removal the decoder throws exactly when there is a second line.
  lemma StrictDecodeIff(b: seq<Byte>)
    ensures Decoded(EncodedPem(b)).Ok? <==> |b| <= 48
    ensures Decoded(EncodedMime(b)).Ok? <==> |b| <= 57
  {
    StrictLine(b, 16);
    StrictLine(b, 19);
  }

  lemma StrictLine(b: seq<Byte>, quads: nat)
    requires quads > 0
    ensures Decoded(Broken(Encoded(b, false), 4 * quads)).Ok? <==> |b| <= 3 * quads
  {
    var e := Encoded(b, false);
    EncodedLength(b, false);
    GroupsFit(|b|, quads);
    if |e| <= 4 * quads {
      RoundTrip(b, false);
    } else {
      BreakRejected(e, quads);
    }
  }

  lemma GroupsFit(n: nat, quads: nat)
    ensures (n + 2) / 3 * 4 <= 4 * quads <==> n <= 3 * quads
  {
  }

  lemma BreakRejected(e: string, quads: nat)
    requires quads > 0 && |e| > 4 * quads
    ensures Decoded(Broken(e, 4 * quads)).Err?
  {
    var s := Broken(e, 4 * quads);
    assert s[4 * quads] == '\n';
    assert !BlockOk(s, 4 * quads);
    DecodeAcceptsIff(s);
  }
}
