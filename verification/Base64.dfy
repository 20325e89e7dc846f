/** EncodeBase64 and DecodeBase64 of CMarkupSTL: the encoding of section 4 of RFC 4648, in
    lines of 64 characters as in section 4.3.2.4 of RFC 1421, written into a buffer whose
    length is computed beforehand. */
module Base64 {

  type Byte = x: int | 0 <= x < 256

  const UPPER := "ABCDEFGHIJKLMNOPQRSTUVWXYZ"
  const LOWER := "abcdefghijklmnopqrstuvwxyz"
  const CODES := UPPER + LOWER + "0123456789" + "+/"
  const CRLF := "\r\n"

  // ---- Three bytes as four characters

  /** The next three bytes as one number; missing ones are zero. */
  function Three(b: seq<Byte>): (n: nat)
    requires b != []
    ensures n < 0x100_0000
  {
    (b[0] as int) * 0x1_0000 + Second(b) * 0x100 + Third(b)
  }

  function Second(b: seq<Byte>): (n: nat)
    ensures n < 256
  {
    if |b| > 1 then b[1] else 0
  }

  function Third(b: seq<Byte>): (n: nat)
    ensures n < 256
  {
    if |b| > 2 then b[2] else 0
  }

  /** How many of the three bytes are missing. */
  function Missing(b: seq<Byte>): nat
    requires b != []
  {
    if |b| == 1 then 2 else if |b| == 2 then 1 else 0
  }

  function Group(b: seq<Byte>): (s: string)
    requires b != []
    ensures |s| == 4
  {
    var n, pad := Three(b), Missing(b);
    [CODES[n / 0x4_0000], CODES[n / 0x1000 % 64],
     if pad > 1 then '=' else CODES[n / 64 % 64], if pad > 0 then '=' else CODES[n % 64]]
  }

  function Rest(b: seq<Byte>): (r: seq<Byte>)
    ensures |r| == (if |b| > 3 then |b| - 3 else 0)
  {
    if |b| > 3 then b[3..] else []
  }

  /** What EncodeBase64 writes from offset `o` on. */
  function EncodeFrom(b: seq<Byte>, o: nat): string
    decreases |b|
  {
    if b == [] then ""
    else if (o + 4) % 66 == 0 || Missing(b) > 0 then Group(b) + CRLF + EncodeFrom(Rest(b), o + 6)
    else Group(b) + EncodeFrom(Rest(b), o + 4)
  }

  function Encode(b: seq<Byte>): string {
    CRLF + EncodeFrom(b, 2)
  }

  // ---- The lines

  /** All the characters without line breaks. */
  function Groups(b: seq<Byte>): string
    decreases |b|
  {
    if b == [] then "" else Group(b) + Groups(Rest(b))
  }

  /** Lines of 64 characters; a shorter last line is ended if it is padded. */
  function Lines(s: string, padded: bool): string {
    if |s| >= 64 then s[..64] + CRLF + Lines(s[64..], padded)
    else if s != "" && padded then s + CRLF
    else s
  }

  /** A line is 64 characters and a line break. */
  lemma LinesAre(s: string, t: string, padded: bool)
    ensures |s| == 64 ==> Lines(s + t, padded) == s + "\r\n" + Lines(t, padded)
    ensures 0 < |t| < 64 ==> Lines(t, padded) == if padded then t + "\r\n" else t
    ensures Lines("", padded) == ""
  {
    assert |s| == 64 ==> (s + t)[..64] == s && (s + t)[64..] == t;
  }

  /** The characters of a line that has `k` of them already. */
  function LinesFrom(s: string, k: nat, padded: bool): string
    requires k < 64
  {
    if k + |s| >= 64 then s[..64 - k] + CRLF + Lines(s[64 - k..], padded)
    else if s != "" && padded then s + CRLF
    else s
  }

  lemma {:induction false} EncodeBreaks(b: seq<Byte>, q: nat, k: nat)
    requires k < 64 && k % 4 == 0
    ensures EncodeFrom(b, 2 + 66 * q + k) == LinesFrom(Groups(b), k, |b| % 3 != 0)
    decreases |b|
  {
    hide Group, EncodeFrom, Groups, LinesFrom, Lines;
    var o := 2 + 66 * q + k;
    if b == [] {
      NothingLeft(o, k);
    } else {
      var r := Rest(b);
      var g, s := Group(b), Groups(r);
      EncodeStep(b, o);
      RestPads(b);
      LineEnds(q, k);
      if k == 60 {
        assert o + 6 == 2 + 66 * (q + 1) + 0;
        EncodeBreaks(r, q + 1, 0);
        LinesAtStart(s, |r| % 3 != 0);
        LinesFull(g, s, |b| % 3 != 0, |r| % 3 != 0);
      } else if Missing(b) > 0 {
        LinesPadded(g, k);
        NothingLeft(o + 6, 0);
      } else {
        assert o + 4 == 2 + 66 * q + (k + 4);
        EncodeBreaks(r, q, k + 4);
        LinesOver(g, s, k, |b| % 3 != 0);
      }
    }
  }

  lemma NothingLeft(o: nat, k: nat)
    requires k < 64
    ensures EncodeFrom([], o) == "" == Groups([]) == LinesFrom("", k, false)
  {
  }

  lemma EncodeStep(b: seq<Byte>, o: nat)
    requires b != []
    ensures EncodeFrom(b, o) ==
            (if (o + 4) % 66 == 0 || Missing(b) > 0 then Group(b) + CRLF + EncodeFrom(Rest(b), o + 6)
             else Group(b) + EncodeFrom(Rest(b), o + 4))
    ensures Groups(b) == Group(b) + Groups(Rest(b))
  {
    hide Group;
  }

  lemma RestPads(b: seq<Byte>)
    requires b != []
    ensures |b| % 3 != 0 <==> Missing(b) > 0 || |Rest(b)| % 3 != 0
    ensures Missing(b) > 0 ==> Rest(b) == [] && Groups(Rest(b)) == "" && |b| % 3 != 0
    ensures Missing(b) == 0 && Groups(Rest(b)) == "" ==> |b| % 3 == 0
  {
    hide Group, Groups;
    var r := Rest(b);
    assert |b| >= 3 ==> |b| == |r| + 3;
    NothingLeft(0, 0);
    if r != [] { EncodeStep(r, 0); } else { assert Groups(r) == Groups([]); }
  }

  lemma LineEnds(q: nat, k: nat)
    requires k < 64 && k % 4 == 0
    ensures (2 + 66 * q + k + 4) % 66 == 0 <==> k == 60
  {
    if k == 60 { ModIs(q + 1, 0); } else { ModIs(q, k + 6); }
  }

  /** The group that fills a line. */
  lemma LinesFull(g: string, s: string, padded: bool, more: bool)
    requires |g| == 4 && (s != "" ==> padded == more)
    ensures LinesFrom(g + s, 60, padded) == g + CRLF + Lines(s, more)
  {
    assert (g + s)[..4] == g && (g + s)[4..] == s;
  }

  /** A padded group ends the text. */
  lemma LinesPadded(g: string, k: nat)
    requires |g| == 4 && k + 4 < 64
    ensures LinesFrom(g + "", k, true) == g + CRLF
  {
    assert g + "" == g;
  }

  lemma LinesAtStart(s: string, padded: bool)
    ensures LinesFrom(s, 0, padded) == Lines(s, padded)
  {
  }

  lemma LinesOver(g: string, s: string, k: nat, padded: bool)
    requires |g| == 4 && k + 4 < 64 && (s == "" ==> !padded)
    ensures LinesFrom(g + s, k, padded) == g + LinesFrom(s, k + 4, padded)
  {
    var t := g + s;
    if k + |t| >= 64 {
      var n := 64 - k;
      assert t[..n] == g + s[..n - 4] && t[n..] == s[n - 4..];
      assert g + s[..n - 4] + CRLF + Lines(s[n - 4..], padded) == g + (s[..n - 4] + CRLF + Lines(s[n - 4..], padded));
    } else if padded {
      assert g + s + CRLF == g + (s + CRLF);
    }
  }

  /** The text is a line break and the characters in lines of 64. */
  lemma EncodeInLines(b: seq<Byte>)
    ensures Encode(b) == CRLF + Lines(Groups(b), |b| % 3 != 0)
  {
    hide Group, EncodeFrom, Groups, LinesFrom, Lines;
    EncodeBreaks(b, 0, 0);
    LinesAtStart(Groups(b), |b| % 3 != 0);
  }

  /** Four characters for every three bytes or part of them. */
  lemma {:induction false} GroupsWidth(b: seq<Byte>)
    ensures |Groups(b)| == 4 * ((|b| + 2) / 3)
    decreases |b|
  {
    hide Group, Groups;
    if b == [] {
      NothingLeft(0, 0);
    } else {
      EncodeStep(b, 0);
      GroupsWidth(Rest(b));
    }
  }

  // ---- The length computed beforehand

  /** nLenBase64. */
  function LengthFor(n: nat): nat {
    var l := n + n / 3 + 3;
    l + l / 64 * 2 + 4
  }

  /** The offset after `g` groups without padding. */
  function OffsetAfter(g: nat): nat { 2 + 4 * g + g / 16 * 2 }

  lemma OffsetNext(g: nat)
    ensures (OffsetAfter(g) + 4) % 66 == 0 <==> (g + 1) % 16 == 0
    ensures OffsetAfter(g + 1) == OffsetAfter(g) + (if (g + 1) % 16 == 0 then 6 else 4)
    ensures (OffsetAfter(g) - 2) % 66 % 4 == 0 && (OffsetAfter(g) - 2) % 66 < 64
  {
    var q, j := g / 16, g % 16;
    assert OffsetAfter(g) == 2 + 66 * q + 4 * j;
    assert (OffsetAfter(g) - 2) % 66 == 4 * j by { ModIs(q, 4 * j); }
    if j < 15 {
      ModIs(q, 6 + 4 * j);
      assert (g + 1) / 16 == q;
    } else {
      ModIs(q + 1, 0);
      assert (g + 1) / 16 == q + 1;
    }
  }

  lemma ModIs(q: nat, r: nat)
    requires r < 66
    ensures (66 * q + r) % 66 == r
  {
  }

  /** Every group of `n` bytes, its line break and what follows fit. */
  lemma Fits(n: nat, g: nat)
    requires 3 * g < n
    ensures OffsetAfter(g) + 6 <= LengthFor(n)
  {
    var l := n + n / 3 + 3;
    assert n / 3 >= g && l >= 4 * g + 4;
    assert l / 64 >= (4 * g + 4) / 64;
    assert g / 16 * 2 <= l / 64 * 2;
  }

  /** The part of the loop of EncodeBase64 that takes up to three bytes. */
  method TakeBytes(pBuffer: seq<Byte>, start: nat) returns (n3BufferBytes: nat, nOffsetBuffer: nat, nPad: nat)
    requires start < |pBuffer|
    ensures n3BufferBytes == Three(pBuffer[start..]) && nPad == Missing(pBuffer[start..])
    ensures nOffsetBuffer <= |pBuffer| && nOffsetBuffer == start + 3 - nPad && Rest(pBuffer[start..]) == pBuffer[nOffsetBuffer..]
    ensures nPad > 0 ==> nOffsetBuffer == |pBuffer|
  {
    hide Three;
    ghost var b := pBuffer[start..];
    nOffsetBuffer, nPad := start, 0;
    n3BufferBytes := pBuffer[nOffsetBuffer];
    nOffsetBuffer := nOffsetBuffer + 1;
    n3BufferBytes := n3BufferBytes * 0x100;
    if nOffsetBuffer < |pBuffer| {
      n3BufferBytes := n3BufferBytes + pBuffer[nOffsetBuffer];
      nOffsetBuffer := nOffsetBuffer + 1;
    } else {
      nPad := nPad + 1;
    }
    n3BufferBytes := n3BufferBytes * 0x100;
    if nOffsetBuffer < |pBuffer| {
      n3BufferBytes := n3BufferBytes + pBuffer[nOffsetBuffer];
      nOffsetBuffer := nOffsetBuffer + 1;
    } else {
      nPad := nPad + 1;
    }
    ThreeIs(b);
  }

  /** EncodeBase64. */
  method EncodeBase64(pBuffer: seq<Byte>) returns (strBase64: string)
    ensures strBase64 == Encode(pBuffer)
  {
    hide Encode, EncodeFrom, Group, LengthFor, OffsetAfter, Three;
    var nLenBase64 := LengthFor(|pBuffer|);
    StartFits(|pBuffer|);
    var text := new char[nLenBase64];
    text[0], text[1] := '\r', '\n';
    var nOffsetBase64 := 2;
    var nOffsetBuffer := 0;
    var nPad := 0;
    ghost var g := 0;
    assert text[..2] == CRLF && pBuffer[0..] == pBuffer;
    EncodeStart(pBuffer);
    while nOffsetBuffer < |pBuffer|
      invariant 0 <= nOffsetBuffer <= |pBuffer| && 2 <= nOffsetBase64 <= text.Length
      invariant nPad == 0 || nOffsetBuffer == |pBuffer|
      invariant nOffsetBuffer < |pBuffer| ==> nOffsetBuffer == 3 * g && nOffsetBase64 == OffsetAfter(g)
      invariant text[..nOffsetBase64] + EncodeFrom(pBuffer[nOffsetBuffer..], nOffsetBase64) == Encode(pBuffer)
    {
      ghost var b, head, at := pBuffer[nOffsetBuffer..], text[..nOffsetBase64], nOffsetBase64;
      Fits(|pBuffer|, g);
      OffsetNext(g);
      EncodeOnce(head, b, at);
      var n3BufferBytes;
      n3BufferBytes, nOffsetBuffer, nPad := TakeBytes(pBuffer, nOffsetBuffer);
      FillText(text, nOffsetBase64, n3BufferBytes, nPad, b);
      nOffsetBase64 := nOffsetBase64 + 4;
      assert text[..nOffsetBase64] == head + Group(b);
      if nOffsetBase64 % 66 == 0 || nPad > 0 {
        text[nOffsetBase64], text[nOffsetBase64 + 1] := '\r', '\n';
        nOffsetBase64 := nOffsetBase64 + 2;
        assert text[..nOffsetBase64] == head + Group(b) + CRLF;
      }
      g := g + 1;
    }
    EncodeEnd(nOffsetBase64);
    assert pBuffer[nOffsetBuffer..] == [];
    strBase64 := text[..nOffsetBase64];
  }

  lemma StartFits(n: nat)
    ensures LengthFor(n) >= 7 && OffsetAfter(0) == 2
  {
  }

  lemma EncodeStart(b: seq<Byte>)
    ensures CRLF + EncodeFrom(b, 2) == Encode(b)
  {
  }

  lemma EncodeEnd(o: nat)
    ensures EncodeFrom([], o) == ""
  {
  }

  lemma ThreeIs(b: seq<Byte>)
    requires b != []
    ensures Three(b) == ((b[0] as int) * 0x100 + Second(b)) * 0x100 + Third(b)
  {
  }

  lemma EncodeOnce(head: string, b: seq<Byte>, o: nat)
    requires b != []
    ensures head + EncodeFrom(b, o) ==
            (if (o + 4) % 66 == 0 || Missing(b) > 0 then head + Group(b) + CRLF + EncodeFrom(Rest(b), o + 6)
             else head + Group(b) + EncodeFrom(Rest(b), o + 4))
  {
    hide Group, EncodeFrom;
    EncodeStep(b, o);
  }

  /** The loop of EncodeBase64 that fills in four characters, from the last to the first. */
  method FillText(text: array<char>, nOffsetBase64: nat, n3: nat, nPad: nat, ghost b: seq<Byte>)
    requires nOffsetBase64 + 4 <= text.Length && b != [] && n3 == Three(b) && nPad == Missing(b)
    modifies text
    ensures text[..nOffsetBase64] == old(text[..nOffsetBase64])
    ensures text[nOffsetBase64..nOffsetBase64 + 4] == Group(b)
  {
    hide Three, Group, Shifted, Missing;
    NoneShifted(n3);
    var n3BufferBytes := n3;
    var nTop := nOffsetBase64 + 4;
    ghost var k := 0;
    while nTop != nOffsetBase64
      invariant nTop == nOffsetBase64 + 4 - k && 0 <= k <= 4
      invariant n3BufferBytes == Shifted(n3, k)
      invariant text[..nOffsetBase64] == old(text[..nOffsetBase64])
      invariant forall i :: 4 - k <= i < 4 ==> text[nOffsetBase64 + i] == Group(b)[i]
      decreases 4 - k
    {
      GroupAt(b, k);
      nTop := nTop - 1;
      if nPad == 0 || nTop < nOffsetBase64 + 4 - nPad {
        text[nTop] := CODES[n3BufferBytes % 64];
      } else {
        text[nTop] := '=';
      }
      n3BufferBytes := n3BufferBytes / 64;
      k := k + 1;
    }
  }

  /** The number with the last `k` characters taken off. */
  function Shifted(n: nat, k: nat): nat
    requires k <= 4
  {
    if k == 0 then n else if k == 1 then n / 64 else if k == 2 then n / 0x1000 else if k == 3 then n / 0x4_0000
    else n / 0x100_0000
  }

  lemma NoneShifted(n: nat)
    ensures Shifted(n, 0) == n
  {
  }

  lemma GroupAt(b: seq<Byte>, k: nat)
    requires b != [] && k < 4
    ensures Group(b)[3 - k] == if k < Missing(b) then '=' else CODES[Shifted(Three(b), k) % 64]
    ensures Shifted(Three(b), k + 1) == Shifted(Three(b), k) / 64
  {
    hide Three;
    var n := Three(b);
    DivideTwice(n);
  }

  lemma DivideTwice(n: nat)
    requires n < 0x100_0000
    ensures n / 64 / 64 == n / 0x1000 && n / 0x1000 / 64 == n / 0x4_0000 && n / 0x4_0000 / 64 == n / 0x100_0000
    ensures n / 0x4_0000 < 64 && n / 0x100_0000 == 0
  {
  }

  // ---- The codes (table 1 of RFC 4648)

  function Letter(n: nat): char
    requires n < 64
  {
    if n < 26 then (65 + n) as char
    else if n < 52 then (97 + (n - 26)) as char
    else if n < 62 then (48 + (n - 52)) as char
    else if n == 62 then '+' else '/'
  }

  lemma CodesAreLetters(n: nat)
    requires n < 64
    ensures |CODES| == 64 && CODES[n] == Letter(n)
  {
    CodesWide();
    if n < 26 {
      CodesHead(n);
      UpperIs(n);
    } else if n < 52 {
      CodesMid(n);
      LowerIs(n - 26);
    } else {
      CodesTail(n);
      TailIs(n - 52);
    }
  }

  lemma CodesWide()
    ensures |UPPER| == 26 && |LOWER| == 26 && |CODES| == 64
  {
  }

  lemma CodesHead(n: nat)
    requires n < 26 && |UPPER| == 26 && |LOWER| == 26
    ensures n < |CODES| && CODES[n] == UPPER[n]
  {
    hide UPPER, LOWER;
  }

  lemma CodesMid(n: nat)
    requires 26 <= n < 52 && |UPPER| == 26 && |LOWER| == 26
    ensures n < |CODES| && CODES[n] == LOWER[n - 26]
  {
    hide UPPER, LOWER;
  }

  lemma CodesTail(n: nat)
    requires 52 <= n < 64 && |UPPER| == 26 && |LOWER| == 26
    ensures n < |CODES| && CODES[n] == "0123456789+/"[n - 52]
  {
    hide UPPER, LOWER;
    assert "0123456789" + "+/" == "0123456789+/";
  }

  lemma UpperIs(n: nat)
    requires n < 26
    ensures UPPER[n] == (65 + n) as char
  {
    if n < 13 { assert UPPER[n] == "ABCDEFGHIJKLM"[n]; } else { assert UPPER[n] == "NOPQRSTUVWXYZ"[n - 13]; }
  }

  lemma LowerIs(n: nat)
    requires n < 26
    ensures LOWER[n] == (97 + n) as char
  {
    if n < 13 { assert LOWER[n] == "abcdefghijklm"[n]; } else { assert LOWER[n] == "nopqrstuvwxyz"[n - 13]; }
  }

  lemma TailIs(n: nat)
    requires n < 12
    ensures "0123456789+/"[n] == Letter(52 + n)
  {
  }

  /** Three bytes are four codes of six bits each; what is missing is padded. */
  lemma GroupIs(x: Byte, y: Byte, z: Byte)
    ensures Group([x, y, z]) == [Letter(x / 4), Letter(x % 4 * 16 + y / 16), Letter(y % 16 * 4 + z / 64), Letter(z % 64)]
    ensures Group([x, y]) == [Letter(x / 4), Letter(x % 4 * 16 + y / 16), Letter(y % 16 * 4), '=']
    ensures Group([x]) == [Letter(x / 4), Letter(x % 4 * 16), '=', '=']
  {
    hide CODES, Letter;
    Sextets(x, y, z); Sextets(x, y, 0); Sextets(x, 0, 0);
    CodesAreLetters(x / 4);
    CodesAreLetters(x % 4 * 16 + y / 16); CodesAreLetters(x % 4 * 16);
    CodesAreLetters(y % 16 * 4 + z / 64); CodesAreLetters(y % 16 * 4);
    CodesAreLetters(z % 64);
  }

  lemma Sextets(x: int, y: int, z: int)
    requires 0 <= x < 256 && 0 <= y < 256 && 0 <= z < 256
    ensures var n := x * 0x1_0000 + y * 0x100 + z;
      n / 0x4_0000 == x / 4 && n / 0x1000 % 64 == x % 4 * 16 + y / 16 && n / 64 % 64 == y % 16 * 4 + z / 64 && n % 64 == z % 64
  {
    Sixes(x / 4, x % 4 * 16 + y / 16, y % 16 * 4 + z / 64, z % 64, x * 0x1_0000 + y * 0x100 + z);
  }

  lemma Sixes(a: int, b: int, c: int, d: int, n: int)
    requires 0 <= a < 64 && 0 <= b < 64 && 0 <= c < 64 && 0 <= d < 64 && n == 0x4_0000 * a + 0x1000 * b + 64 * c + d
    ensures n / 0x4_0000 == a && n / 0x1000 % 64 == b && n / 64 % 64 == c && n % 64 == d
  {
    Sixth(n, 0x1000 * a + 64 * b + c, d);
    Sixth(0x1000 * a + 64 * b + c, 64 * a + b, c);
    Sixth(64 * a + b, a, b);
    Twelfth(n, 64 * a + b, 64 * c + d);
    Eighteenth(n, a, 0x1000 * b + 64 * c + d);
  }

  lemma Sixth(n: int, q: int, r: int)
    requires n == 64 * q + r && 0 <= r < 64
    ensures n / 64 == q && n % 64 == r
  {
  }

  lemma Twelfth(n: int, q: int, r: int)
    requires n == 0x1000 * q + r && 0 <= r < 0x1000
    ensures n / 0x1000 == q
  {
  }

  lemma Eighteenth(n: int, q: int, r: int)
    requires n == 0x4_0000 * q + r && 0 <= r < 0x4_0000
    ensures n / 0x4_0000 == q
  {
  }

  /** The examples of section 10 of RFC 4648: "foo" and "bar" with all their beginnings. */
  lemma ExampleGroups()
    ensures Group([102]) == "Zg==" && Group([102, 111]) == "Zm8=" && Group([102, 111, 111]) == "Zm9v"
    ensures Group([98]) == "Yg==" && Group([98, 97]) == "YmE=" && Group([98, 97, 114]) == "YmFy"
  {
    hide Group, CODES;
    GroupIs(102, 111, 111);
    GroupIs(98, 97, 114);
  }

  /** "foobar" and its beginnings. */
  lemma Examples()
    ensures Groups([]) == "" && Groups([102]) == "Zg==" && Groups([102, 111]) == "Zm8=" && Groups([102, 111, 111]) == "Zm9v"
    ensures Groups([102, 111, 111] + [98]) == "Zm9v" + "Yg==" && Groups([102, 111, 111] + [98, 97]) == "Zm9v" + "YmE="
    ensures Groups([102, 111, 111] + [98, 97, 114]) == "Zm9v" + "YmFy"
  {
    hide Group, Groups;
    ExampleGroups();
    NothingLeft(0, 0);
    Alone([102]); Alone([102, 111]); Alone([102, 111, 111]);
    Alone([98]); Alone([98, 97]); Alone([98, 97, 114]);
    Behind([102, 111, 111], [98]); Behind([102, 111, 111], [98, 97]); Behind([102, 111, 111], [98, 97, 114]);
  }

  lemma Alone(b: seq<Byte>)
    requires 0 < |b| <= 3
    ensures Groups(b) == Group(b)
  {
    hide Group, EncodeFrom;
    assert Rest(b) == [];
    assert Group(b) + "" == Group(b);
  }

  /** Three bytes are encoded alike whatever comes behind them. */
  lemma Behind(b: seq<Byte>, c: seq<Byte>)
    requires |b| == 3
    ensures Groups(b + c) == Group(b) + Groups(c)
  {
    hide Groups, Group, EncodeFrom;
    EncodeStep(b + c, 0);
    SameGroup(b, c);
    assert Rest(b + c) == c;
  }

  lemma SameGroup(b: seq<Byte>, c: seq<Byte>)
    requires |b| == 3
    ensures Group(b + c) == Group(b)
  {
    hide CODES;
    var d := b + c;
    assert d[0] == b[0] && d[1] == b[1] && d[2] == b[2];
    assert Three(d) == Three(b) && Missing(d) == Missing(b);
  }
}
