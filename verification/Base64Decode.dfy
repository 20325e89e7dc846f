/** DecodeBase64 of CMarkupSTL, and that it undoes EncodeBase64. The decoder takes four codes
    at a time, passing over line breaks, and writes up to three bytes for them. */
module Base64Decode {
  import opened Base64

  // ---- Codes

  /** The bitwise or of two unsigned numbers. */
  function BitOr(a: nat, b: nat): nat {
    if a == 0 && b == 0 then 0
    else (if a % 2 == 1 || b % 2 == 1 then 1 else 0) + 2 * BitOr(a / 2, b / 2)
  }

  lemma {:induction false} OrAtMost(a: nat, b: nat)
    ensures BitOr(a, b) <= a + b
  {
    if a > 0 || b > 0 { OrAtMost(a / 2, b / 2); }
  }

  lemma {:induction false} OrZero(a: nat)
    ensures BitOr(a, 0) == a
  {
    if a > 0 { OrZero(a / 2); }
  }

  function Power2(k: nat): (p: nat)
    ensures p > 0
  {
    if k == 0 then 1 else 2 * Power2(k - 1)
  }

  /** Bits or-ed below a shifted number are added to it. */
  lemma {:induction false} OrBelow(a: nat, b: nat, k: nat)
    requires b < Power2(k)
    ensures BitOr(a * Power2(k), b) == a * Power2(k) + b
    decreases k
  {
    if k == 0 {
      OrZero(a);
    } else {
      var p := Power2(k - 1);
      var x := a * p;
      assert a * Power2(k) == 2 * x;
      OrBelow(a, b / 2, k - 1);
      Halves(x, b);
    }
  }

  lemma Halves(x: nat, b: nat)
    requires BitOr(x, b / 2) == x + b / 2
    ensures BitOr(2 * x, b) == 2 * x + b
  {
    assert 2 * x / 2 == x && 2 * x % 2 == 0;
  }

  /** A character as an unsigned char. */
  function CodeOf(c: char): (n: nat)
    ensures n < 256
  {
    c as int % 256
  }

  /** The bits a code brings in: any code is accepted, and some bring in more than six bits. */
  function BitsOf(nCode: nat): (n: nat)
    requires nCode < 256
    ensures n < 256
  {
    if nCode > 96 then nCode - 71
    else if nCode > 64 then nCode - 65
    else if nCode == 61 then 0
    else if nCode > 47 then nCode + 4
    else if nCode == 47 then 63
    else if nCode == 43 then 62
    else 0
  }

  predicate IsBreak(c: char) { CodeOf(c) == 13 || CodeOf(c) == 10 }

  predicate IsPad(c: char) { CodeOf(c) == 61 }

  function Joined(n: nat, c: char): nat {
    BitOr(n * 64, BitsOf(CodeOf(c)))
  }

  // ---- Four codes

  datatype Taken = Taken(count: nat, n3: nat, pad: nat, rest: string)

  function Take(s: string, count: nat, n3: nat, pad: nat): (t: Taken)
    requires count <= 4
    ensures |t.rest| + t.count <= |s| + count && t.count <= 4 && t.pad >= pad
    ensures t.count < 4 ==> t.rest == ""
    ensures t.pad - pad <= t.count - count
    decreases |s|
  {
    if count == 4 || s == "" then Taken(count, n3, pad, s)
    else if IsBreak(s[0]) then Take(s[1..], count, n3, pad)
    else Take(s[1..], count + 1, Joined(n3, s[0]), if IsPad(s[0]) then pad + 1 else pad)
  }

  /** What fits in 32 bits: the number after `count` codes. */
  function Bound(count: nat): nat {
    if count == 0 then 0 else Bound(count - 1) * 64 + 255
  }

  lemma JoinedBound(n: nat, c: char, count: nat)
    requires n <= Bound(count) && count < 4
    ensures Joined(n, c) <= Bound(count + 1) < 0x1_0000_0000
  {
    OrAtMost(n * 64, BitsOf(CodeOf(c)));
  }

  // ---- The whole text

  function Bytes(n: nat): (b: seq<Byte>)
    ensures |b| == 3
  {
    [n / 0x1_0000 % 256, n / 0x100 % 256, n % 256]
  }

  /** The buffer with the bytes of four codes written at `off`. */
  function Filled(buf: seq<Byte>, off: int, n3: nat, pad: nat): (r: seq<Byte>)
    requires pad < 3 ==> 0 <= off && off + 3 - pad <= |buf|
    ensures |r| == |buf|
  {
    if pad >= 3 then buf else buf[..off] + Bytes(n3)[..3 - pad] + buf[off + 3 - pad..]
  }

  datatype Decoding = Decoding(length: int, buffer: seq<Byte>)

  /** The length and the buffer after decoding from offset `off` on: the pad count is never
      reset, and decoding stops with length 0 when a group does not fit. */
  function Decoded(s: string, off: int, pad: nat, buf: seq<Byte>, n: nat): (r: Decoding)
    requires n <= |buf| && (pad < 3 ==> 0 <= off)
    ensures |r.buffer| == |buf|
    decreases |s|
  {
    var t := Take(s, 0, 0, pad);
    if t.count < 4 then Decoding(off, buf)
    else if off + 3 - t.pad > n then Decoding(0, buf)
    else Decoded(t.rest, off + 3 - t.pad, t.pad, Filled(buf, off, t.n3, t.pad), n)
  }

  /** Three bytes for every four characters are enough for any text. */
  lemma {:induction false} DecodedWithin(s: string, off: int, pad: nat, buf: seq<Byte>, n: nat)
    requires n <= |buf| && 0 <= off <= n
    ensures Decoded(s, off, pad, buf, n).length <= n
    ensures Decoded(s, off, pad, buf, n).length <= off + |s| / 4 * 3
    decreases |s|
  {
    hide Take, Filled, Decoded;
    DecodedStep(s, off, pad, buf, n);
    var t := Take(s, 0, 0, pad);
    if t.count == 4 && off + 3 - t.pad <= n {
      var next, to := Filled(buf, off, t.n3, t.pad), off + 3 - t.pad;
      assert |s| / 4 >= 1 + |t.rest| / 4;
      if to >= 0 {
        DecodedWithin(t.rest, to, t.pad, next, n);
      } else {
        DecodedBelow(t.rest, to, t.pad, next, n);
      }
    }
  }

  lemma DecodedStep(s: string, off: int, pad: nat, buf: seq<Byte>, n: nat)
    requires n <= |buf| && (pad < 3 ==> 0 <= off)
    ensures var t := Take(s, 0, 0, pad);
            Decoded(s, off, pad, buf, n) ==
            (if t.count < 4 then Decoding(off, buf)
             else if off + 3 - t.pad > n then Decoding(0, buf)
             else Decoded(t.rest, off + 3 - t.pad, t.pad, Filled(buf, off, t.n3, t.pad), n))
  {
    hide Take, Filled;
  }

  /** Past three pad characters the offset only falls, and nothing is written. */
  lemma {:induction false} DecodedBelow(s: string, off: int, pad: nat, buf: seq<Byte>, n: nat)
    requires n <= |buf| && off <= n && pad >= 3
    ensures Decoded(s, off, pad, buf, n).length <= off && Decoded(s, off, pad, buf, n).buffer == buf
    decreases |s|
  {
    hide Take, Filled, Decoded;
    DecodedStep(s, off, pad, buf, n);
    var t := Take(s, 0, 0, pad);
    if t.count == 4 {
      NotFilled(buf, off, t.n3, t.pad);
      DecodedBelow(t.rest, off + 3 - t.pad, t.pad, buf, n);
    }
  }

  lemma NotFilled(buf: seq<Byte>, off: int, n3: nat, pad: nat)
    requires pad >= 3
    ensures Filled(buf, off, n3, pad) == buf
  {
  }

  // ---- Line breaks are passed over

  function Unbroken(s: string): (r: string)
    ensures |r| <= |s|
  {
    if s == "" then "" else if IsBreak(s[0]) then Unbroken(s[1..]) else [s[0]] + Unbroken(s[1..])
  }

  lemma {:induction false} TakeUnbroken(s: string, count: nat, n3: nat, pad: nat)
    requires count <= 4
    ensures var t, u := Take(s, count, n3, pad), Take(Unbroken(s), count, n3, pad);
            u.count == t.count && u.n3 == t.n3 && u.pad == t.pad && u.rest == Unbroken(t.rest)
    decreases |s|
  {
    if count < 4 && s != "" {
      hide BitsOf, BitOr, Joined;
      if IsBreak(s[0]) {
        TakeUnbroken(s[1..], count, n3, pad);
      } else {
        TakeUnbroken(s[1..], count + 1, Joined(n3, s[0]), if IsPad(s[0]) then pad + 1 else pad);
        assert Unbroken(s)[1..] == Unbroken(s[1..]);
      }
    }
  }

  /** Where the lines break makes no difference. */
  lemma {:induction false} BreaksIgnored(s: string, off: int, pad: nat, buf: seq<Byte>, n: nat)
    requires n <= |buf| && (pad < 3 ==> 0 <= off)
    ensures Decoded(Unbroken(s), off, pad, buf, n) == Decoded(s, off, pad, buf, n)
    decreases |s|
  {
    hide Take, Filled, Decoded, Unbroken;
    DecodedStep(s, off, pad, buf, n);
    DecodedStep(Unbroken(s), off, pad, buf, n);
    TakeUnbroken(s, 0, 0, pad);
    var t := Take(s, 0, 0, pad);
    if t.count == 4 && off + 3 - t.pad <= n {
      BreaksIgnored(t.rest, off + 3 - t.pad, t.pad, Filled(buf, off, t.n3, t.pad), n);
    }
  }

  // ---- Decoding undoes encoding

  lemma CodeInverts(k: nat)
    requires k < 64
    ensures BitsOf(CodeOf(CODES[k])) == k && !IsBreak(CODES[k]) && !IsPad(CODES[k])
  {
    hide UPPER, LOWER, CODES;
    CodeAt(k);
    if k < 26 { UpperCodes(k); } else if k < 52 { LowerCodes(k - 26); }
  }

  lemma CodeAt(k: nat)
    requires k < 64
    ensures k < 26 ==> CODES[k] == UPPER[k]
    ensures 26 <= k < 52 ==> CODES[k] == LOWER[k - 26]
    ensures 52 <= k < 62 ==> CODES[k] as int == k - 4
    ensures k == 62 ==> CODES[k] == '+'
    ensures k == 63 ==> CODES[k] == '/'
  {
    LettersWide();
    hide UPPER, LOWER;
    if 52 <= k < 62 { assert CODES[k] == "0123456789"[k - 52]; }
  }

  lemma LettersWide()
    ensures |UPPER| == 26 == |LOWER|
  {
  }

  lemma UpperCodes(k: nat)
    requires k < 26
    ensures UPPER[k] as int == 65 + k
  {
    if k < 13 { assert UPPER[k] == "ABCDEFGHIJKLM"[k]; } else { assert UPPER[k] == "NOPQRSTUVWXYZ"[k - 13]; }
  }

  lemma LowerCodes(k: nat)
    requires k < 26
    ensures LOWER[k] as int == 97 + k
  {
    if k < 13 { assert LOWER[k] == "abcdefghijklm"[k]; } else { assert LOWER[k] == "nopqrstuvwxyz"[k - 13]; }
  }

  lemma TakeCode(k: nat, t: string, count: nat, n3: nat, pad: nat)
    requires k < 64 && count < 4
    ensures Take([CODES[k]] + t, count, n3, pad) == Take(t, count + 1, n3 * 64 + k, pad)
  {
    hide BitsOf, CodeOf, BitOr, IsBreak, IsPad;
    CodeInverts(k);
    assert Power2(6) == 64;
    OrBelow(n3, k, 6);
    assert ([CODES[k]] + t)[1..] == t;
  }

  lemma TakePad(t: string, count: nat, n3: nat, pad: nat)
    requires count < 4
    ensures Take("=" + t, count, n3, pad) == Take(t, count + 1, n3 * 64, pad + 1)
  {
    OrZero(n3 * 64);
    assert ("=" + t)[1..] == t;
  }

  lemma TakeBreak(t: string, count: nat, n3: nat, pad: nat)
    requires count < 4
    ensures Take(CRLF + t, count, n3, pad) == Take(t, count, n3, pad)
  {
    assert (CRLF + t)[1..] == "\n" + t && ("\n" + t)[1..] == t;
  }

  lemma Digits(n: nat)
    requires n < 0x100_0000
    ensures n / 0x4_0000 < 64
    ensures ((n / 0x4_0000 * 64 + n / 0x1000 % 64) * 64 + n / 64 % 64) * 64 + n % 64 == n
  {
    assert n / 0x4_0000 * 64 + n / 0x1000 % 64 == n / 0x1000;
    assert n / 0x1000 * 64 + n / 64 % 64 == n / 64;
  }

  lemma PadBits(b: seq<Byte>)
    requires b != []
    ensures Missing(b) > 0 ==> Three(b) % 64 == 0
    ensures Missing(b) > 1 ==> Three(b) / 64 % 64 == 0
  {
    var x: nat := b[0];
    if Missing(b) > 1 {
      assert Three(b) == x * 1024 * 64;
      assert x * 1024 == x * 16 * 64;
    } else if Missing(b) > 0 {
      assert Three(b) == (x * 1024 + Second(b) * 4) * 64;
    }
  }

  /** The four characters of a group are taken back as its three bytes. */
  lemma TakeGroup(b: seq<Byte>, t: string)
    requires b != []
    ensures Take(Group(b) + t, 0, 0, 0) == Taken(4, Three(b), Missing(b), t)
  {
    hide Three, Take;
    var n := Three(b);
    var d0, d1, d2, d3 := n / 0x4_0000, n / 0x1000 % 64, n / 64 % 64, n % 64;
    Digits(n);
    PadBits(b);
    var g := Group(b);
    var t1, t2, t3 := [g[1]] + ([g[2]] + ([g[3]] + t)), [g[2]] + ([g[3]] + t), [g[3]] + t;
    assert g + t == [g[0]] + t1;
    TakeCode(d0, t1, 0, 0, 0);
    TakeCode(d1, t2, 1, d0, 0);
    TakeLast(b, t2, d0 * 64 + d1, d2, d3, t);
    TakenFour(t, n, Missing(b));
  }

  lemma TakenFour(t: string, n: nat, pad: nat)
    ensures Take(t, 4, n, pad) == Taken(4, n, pad, t)
  {
  }

  lemma TakeLast(b: seq<Byte>, s: string, n: nat, d2: nat, d3: nat, t: string)
    requires b != [] && d2 < 64 && d3 < 64
    requires s == [if Missing(b) > 1 then '=' else CODES[d2]] + ([if Missing(b) > 0 then '=' else CODES[d3]] + t)
    requires (Missing(b) > 1 ==> d2 == 0) && (Missing(b) > 0 ==> d3 == 0)
    ensures Take(s, 2, n, 0) == Take(t, 4, (n * 64 + d2) * 64 + d3, Missing(b))
  {
    hide Take;
    var u := [if Missing(b) > 0 then '=' else CODES[d3]] + t;
    if Missing(b) > 1 { TakePad(u, 2, n, 0); } else { TakeCode(d2, u, 2, n, 0); }
    var p := if Missing(b) > 1 then 1 else 0;
    if Missing(b) > 0 { TakePad(t, 3, n * 64 + d2, p); } else { TakeCode(d3, t, 3, n * 64 + d2, p); }
  }

  lemma BytesBack(b: seq<Byte>)
    requires b != []
    ensures Bytes(Three(b))[..3 - Missing(b)] + Rest(b) == b
  {
    var x: nat, y: nat, z: nat := b[0], Second(b), Third(b);
    var n := Three(b);
    assert n == (x * 0x100 + y) * 0x100 + z;
    assert n / 0x100 == x * 0x100 + y && n % 0x100 == z;
    assert n / 0x1_0000 == x;
    assert Bytes(n) == [x, y, z];
  }

  lemma {:induction false} DecodesFrom(b: seq<Byte>, o: nat, off: nat, buf: seq<Byte>, n: nat)
    requires off + |b| <= n <= |buf|
    ensures Decoded(EncodeFrom(b, o), off, 0, buf, n) == Decoding(off + |b|, buf[..off] + b + buf[off + |b|..])
    ensures Decoded(CRLF + EncodeFrom(b, o), off, 0, buf, n) == Decoded(EncodeFrom(b, o), off, 0, buf, n)
    decreases |b|
  {
    hide *;
    var s := EncodeFrom(b, o);
    DecodedStep(s, off, 0, buf, n);
    DecodedStep(CRLF + s, off, 0, buf, n);
    TakeBreak(s, 0, 0, 0);
    if b == [] {
      EncodeEnd(o);
      assert buf[..off] + b + buf[off + |b|..] == buf;
      NothingTaken(0);
    } else {
      var r, p := Rest(b), Missing(b);
      Widths(b);
      var next := Filled(buf, off, Three(b), p);
      FilledWith(b, buf, off);
      var rest := DecodeGroup(b, o, off, buf, n);
      if p > 0 {
        EncodeEnd(o + 6);
        TakeEnd(p);
        assert rest == CRLF + "" == CRLF;
        assert next[..off + |b|] + r + next[off + |b|..] == next;
        DecodedStep(rest, off + |b|, p, next, n);
      } else if rest == CRLF + EncodeFrom(r, o + 6) {
        DecodesFrom(r, o + 6, off + 3, next, n);
      } else {
        DecodesFrom(r, o + 4, off + 3, next, n);
      }
    }
  }

  lemma Widths(b: seq<Byte>)
    requires b != []
    ensures Missing(b) < 3 && 3 - Missing(b) + |Rest(b)| == |b| && (Missing(b) > 0 ==> Rest(b) == [])
  {
  }

  lemma DecodeGroup(b: seq<Byte>, o: nat, off: nat, buf: seq<Byte>, n: nat) returns (rest: string)
    requires b != [] && off + |b| <= n <= |buf|
    ensures rest == CRLF + EncodeFrom(Rest(b), o + 6) || (Missing(b) == 0 && rest == EncodeFrom(Rest(b), o + 4))
    ensures Decoded(EncodeFrom(b, o), off, 0, buf, n) ==
            Decoded(rest, off + 3 - Missing(b), Missing(b), Filled(buf, off, Three(b), Missing(b)), n)
  {
    hide Group, EncodeFrom, Take, Decoded, Filled, Three;
    EncodeStep(b, o);
    rest := if (o + 4) % 66 == 0 || Missing(b) > 0 then CRLF + EncodeFrom(Rest(b), o + 6)
            else EncodeFrom(Rest(b), o + 4);
    assert EncodeFrom(b, o) == Group(b) + rest;
    TakeGroup(b, rest);
    DecodedStep(EncodeFrom(b, o), off, 0, buf, n);
  }

  lemma TakeEnd(pad: nat)
    ensures Take(CRLF, 0, 0, pad) == Taken(0, 0, pad, "")
  {
    TakeBreak("", 0, 0, pad);
    assert CRLF + "" == CRLF;
  }

  lemma FilledWith(b: seq<Byte>, buf: seq<Byte>, off: nat)
    requires b != [] && off + |b| <= |buf|
    ensures 3 - Missing(b) + |Rest(b)| == |b|
    ensures var k, next := 3 - Missing(b), Filled(buf, off, Three(b), Missing(b));
            next[..off + k] + Rest(b) + next[off + |b|..] == buf[..off] + b + buf[off + |b|..]
  {
    hide Three, Bytes;
    var k, f := 3 - Missing(b), Bytes(Three(b))[..3 - Missing(b)];
    var next := Filled(buf, off, Three(b), Missing(b));
    BytesBack(b);
    assert next[..off + k] == buf[..off] + f;
    assert next[off + |b|..] == buf[off + |b|..];
    assert buf[..off] + f + Rest(b) == buf[..off] + (f + Rest(b));
  }

  /** Decoding the encoded bytes puts them into the buffer and returns their number. */
  lemma DecodeEncoded(b: seq<Byte>, buf: seq<Byte>, n: nat)
    requires |b| <= n <= |buf|
    ensures Decoded(Encode(b), 0, 0, buf, n) == Decoding(|b|, b + buf[|b|..])
  {
    hide EncodeFrom, Decoded;
    DecodesFrom(b, 2, 0, buf, n);
    assert buf[..0] + b == b;
  }

  // ---- DecodeBase64

  /** DecodeBase64: with no buffer length it returns a length that is long enough. */
  method DecodeBase64(strBase64: string, pBuffer: array<Byte>, nBufferLen: nat) returns (nLength: int)
    requires nBufferLen <= pBuffer.Length
    modifies pBuffer
    ensures nBufferLen == 0 ==> nLength == |strBase64| / 4 * 3 + 3 && pBuffer[..] == old(pBuffer[..])
    ensures nBufferLen > 0 ==> Decoding(nLength, pBuffer[..]) == Decoded(strBase64, 0, 0, old(pBuffer[..]), nBufferLen)
  {
    hide Take, Filled, Decoded, BitOr, BitsOf, IsBreak, IsPad, CodeOf, Joined;
    if nBufferLen == 0 { return |strBase64| / 4 * 3 + 3; }
    var nOffsetBase64 := 0;
    var nOffsetBuffer := 0;
    var nPad := 0;
    ghost var whole := Decoded(strBase64, 0, 0, pBuffer[..], nBufferLen);
    assert strBase64[0..] == strBase64;
    while nOffsetBase64 < |strBase64|
      invariant 0 <= nOffsetBase64 <= |strBase64|
      invariant nPad < 3 ==> 0 <= nOffsetBuffer
      invariant nOffsetBuffer <= nBufferLen
      invariant Decoded(strBase64[nOffsetBase64..], nOffsetBuffer, nPad, pBuffer[..], nBufferLen) == whole
    {
      ghost var s, was, pad0 := strBase64[nOffsetBase64..], pBuffer[..], nPad;
      DecodedStep(s, nOffsetBuffer, nPad, was, nBufferLen);
      var nCount, n3BufferBytes;
      nOffsetBase64, nCount, n3BufferBytes, nPad := TakeCodes(strBase64, nOffsetBase64, nPad);
      if nCount == 4 {
        if nOffsetBuffer + 3 - nPad > nBufferLen { return 0; }
        FillBytes(pBuffer, nOffsetBuffer, n3BufferBytes, nPad);
        nOffsetBuffer := nOffsetBuffer + 3 - nPad;
      } else {
        NothingTaken(nPad);
        DecodedStep("", nOffsetBuffer, nPad, was, nBufferLen);
        assert strBase64[nOffsetBase64..] == "";
      }
    }
    NothingTaken(nPad);
    DecodedStep("", nOffsetBuffer, nPad, pBuffer[..], nBufferLen);
    assert strBase64[nOffsetBase64..] == "";
    return nOffsetBuffer;
  }

  lemma NothingTaken(pad: nat)
    ensures Take("", 0, 0, pad) == Taken(0, 0, pad, "")
  {
  }

  /** The inner loop that gathers four codes: the number stays within 32 bits. */
  method TakeCodes(strBase64: string, start: nat, pad: nat)
    returns (nOffsetBase64: nat, nCount: nat, n3BufferBytes: nat, nPad: nat)
    requires start < |strBase64|
    ensures start < nOffsetBase64 <= |strBase64| && n3BufferBytes < 0x1_0000_0000
    ensures Take(strBase64[start..], 0, 0, pad) == Taken(nCount, n3BufferBytes, nPad, strBase64[nOffsetBase64..])
  {
    hide Take, BitOr, BitsOf, CodeOf;
    nOffsetBase64, nCount, n3BufferBytes, nPad := start, 0, 0, pad;
    while nCount != 4 && nOffsetBase64 < |strBase64|
      invariant start <= nOffsetBase64 <= |strBase64| && nCount <= 4 && n3BufferBytes <= Bound(nCount)
      invariant nOffsetBase64 == start ==> nCount == 0
      invariant Take(strBase64[start..], 0, 0, pad) == Take(strBase64[nOffsetBase64..], nCount, n3BufferBytes, nPad)
      decreases |strBase64| - nOffsetBase64
    {
      TakeStep(strBase64[nOffsetBase64..], nCount, n3BufferBytes, nPad);
      JoinedBound(n3BufferBytes, strBase64[nOffsetBase64], nCount);
      var nCode := CodeOf(strBase64[nOffsetBase64]);
      nOffsetBase64 := nOffsetBase64 + 1;
      if nCode == 13 || nCode == 10 { continue; }
      n3BufferBytes := BitOr(n3BufferBytes * 64, BitsOf(nCode));
      if nCode == 61 { nPad := nPad + 1; }
      nCount := nCount + 1;
    }
    TakeStep(strBase64[nOffsetBase64..], nCount, n3BufferBytes, nPad);
    assert Bound(4) < 0x1_0000_0000 && Bound(3) < 0x1_0000_0000 && Bound(2) < 0x1_0000_0000;
  }

  lemma TakeStep(s: string, count: nat, n3: nat, pad: nat)
    requires count <= 4
    ensures Take(s, count, n3, pad) ==
            (if count == 4 || s == "" then Taken(count, n3, pad, s)
             else if IsBreak(s[0]) then Take(s[1..], count, n3, pad)
             else Take(s[1..], count + 1, Joined(n3, s[0]), if IsPad(s[0]) then pad + 1 else pad))
  {
    hide IsBreak, IsPad, Joined;
  }

  /** The loop that writes the bytes, from the last to the first. */
  method FillBytes(pBuffer: array<Byte>, nOffsetBuffer: int, n3: nat, nPad: nat)
    requires nPad < 3 ==> 0 <= nOffsetBuffer && nOffsetBuffer + 3 - nPad <= pBuffer.Length
    modifies pBuffer
    ensures pBuffer[..] == Filled(old(pBuffer[..]), nOffsetBuffer, n3, nPad)
  {
    hide Bytes;
    ghost var was, b := pBuffer[..], Bytes(n3);
    var n3BufferBytes := n3;
    var nTop := nOffsetBuffer + 3;
    ghost var k := 0;
    BytesAre(n3);
    while nTop != nOffsetBuffer
      invariant nTop == nOffsetBuffer + 3 - k && 0 <= k <= 3
      invariant n3BufferBytes == (if k == 0 then n3 else if k == 1 then n3 / 0x100 else n3 / 0x1_0000) || k == 3
      invariant nPad >= 3 ==> pBuffer[..] == was
      invariant nPad < 3 ==> forall i :: 0 <= i < pBuffer.Length ==>
        pBuffer[i] == if nTop <= i < nOffsetBuffer + 3 - nPad then b[i - nOffsetBuffer] else was[i]
      decreases 3 - k
    {
      nTop := nTop - 1;
      if nPad == 0 || nTop < nOffsetBuffer + 3 - nPad {
        pBuffer[nTop] := n3BufferBytes % 256;
      }
      n3BufferBytes := n3BufferBytes / 256;
      k := k + 1;
    }
  }

  lemma BytesAre(n: nat)
    ensures Bytes(n) == [n / 0x1_0000 % 256, n / 0x100 % 256, n % 256] && n / 0x100 / 256 == n / 0x1_0000
  {
  }

  /** The round trip through both methods. */
  method EncodeAndDecode(b: seq<Byte>, pBuffer: array<Byte>) returns (nSize: int, nLength: int)
    requires |b| <= pBuffer.Length && pBuffer.Length > 0
    modifies pBuffer
    ensures nSize >= |b| && nLength == |b|
    ensures pBuffer[..] == b + old(pBuffer[..])[|b|..]
  {
    hide Encode, Decoded;
    ghost var was := pBuffer[..];
    var text := EncodeBase64(b);
    DecodeEncoded(b, was, pBuffer.Length);
    DecodedWithin(text, 0, 0, was, pBuffer.Length);
    nSize := DecodeBase64(text, pBuffer, 0);
    nLength := DecodeBase64(text, pBuffer, pBuffer.Length);
  }

  /** What each character brings in: those of the alphabet their six bits; of the others, those from
      code 58 to 96 some number up to 68, those from 123 on more than six bits, all others nothing. */
  lemma BitsAre(c: char)
    ensures var k := c as int % 256;
      BitsOf(CodeOf(c)) ==
        if 65 <= k <= 90 then k - 65
        else if 97 <= k <= 122 then k - 97 + 26
        else if 48 <= k <= 57 then k - 48 + 52
        else if k == 43 then 62 else if k == 47 then 63
        else if 91 <= k <= 96 then k - 65
        else if k >= 123 then k - 71
        else if 58 <= k <= 64 && k != 61 then k + 4
        else 0
  {
  }
}
