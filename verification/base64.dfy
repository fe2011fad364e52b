/**
  The standard base64 encoding of section 4 of RFC 4648 (alphabet `A-Z a-z
  0-9 + /`, `=` padding), used to turn the 64 random bytes of a response
  into the CSP nonce. `Decode` is the partner that the round trip is
  proved against.
 */
module Base64 {
  import opened Wrappers

  type Byte = x: int | 0 <= x < 256
  type Sextet = x: int | 0 <= x < 64

  const Pad: char := '='

  /** The characters of the standard alphabet. */
  predicate IsSymbol(c: char) {
    ('A' <= c <= 'Z') || ('a' <= c <= 'z') || ('0' <= c <= '9') || c == '+' || c == '/'
  }

  /** The alphabet character for a 6-bit value (Table 1 of RFC 4648). */
  function Symbol(v: Sextet): (c: char)
    ensures IsSymbol(c)
  {
    if v < 26 then ('A' as int + v) as char
    else if v < 52 then ('a' as int + (v - 26)) as char
    else if v < 62 then ('0' as int + (v - 52)) as char
    else if v == 62 then '+'
    else '/'
  }

  /** The 6-bit value of an alphabet character. */
  function ValueOf(c: char): (v: Sextet)
    requires IsSymbol(c)
    ensures Symbol(v) == c
  {
    if 'A' <= c <= 'Z' then c as int - 'A' as int
    else if 'a' <= c <= 'z' then c as int - 'a' as int + 26
    else if '0' <= c <= '9' then c as int - '0' as int + 52
    else if c == '+' then 62
    else 63
  }

  lemma ValueOfSymbol(v: Sextet)
    ensures ValueOf(Symbol(v)) == v
  {
  }

  /** Three bytes as four characters. */
  function EncodeBlock(b0: Byte, b1: Byte, b2: Byte): string {
    [Symbol(b0 / 4), Symbol((b0 % 4) * 16 + b1 / 16), Symbol((b1 % 16) * 4 + b2 / 64), Symbol(b2 % 64)]
  }

  /** Padded encoding: every full group of three bytes gives four symbols, a short tail is padded with `=`. */
  function Encode(b: seq<Byte>): (s: string)
    ensures |s| == 4 * ((|b| + 2) / 3)
    ensures forall i :: 0 <= i < |s| ==> IsSymbol(s[i]) || s[i] == Pad
    decreases |b|
  {
    if |b| == 0 then []
    else if |b| == 1 then [Symbol(b[0] / 4), Symbol((b[0] % 4) * 16), Pad, Pad]
    else if |b| == 2 then [Symbol(b[0] / 4), Symbol((b[0] % 4) * 16 + b[1] / 16), Symbol((b[1] % 16) * 4), Pad]
    else
      GroupCountStep(|b|);
      EncodeBlock(b[0], b[1], b[2]) + Encode(b[3..])
  }

  /** One more full group of three bytes gives four more characters. */
  lemma GroupCountStep(n: nat)
    requires n >= 3
    ensures 4 * ((n + 2) / 3) == 4 + 4 * ((n - 3 + 2) / 3)
  {
    assert (n + 2) / 3 == 1 + (n - 1) / 3;
  }

  /** Four characters back to up to three bytes; padding is accepted only in the last group. */
  function DecodeGroup(g: string, last: bool): Option<seq<Byte>>
    requires |g| == 4
  {
    if !IsSymbol(g[0]) || !IsSymbol(g[1]) then None
    else
      var v0, v1 := ValueOf(g[0]), ValueOf(g[1]);
      if last && g[2] == Pad && g[3] == Pad then
        Some([v0 * 4 + v1 / 16])
      else if !IsSymbol(g[2]) then None
      else
        var v2 := ValueOf(g[2]);
        if last && g[3] == Pad then
          Some([v0 * 4 + v1 / 16, (v1 % 16) * 16 + v2 / 4])
        else if !IsSymbol(g[3]) then None
        else
          var v3 := ValueOf(g[3]);
          Some([v0 * 4 + v1 / 16, (v1 % 16) * 16 + v2 / 4, (v2 % 4) * 64 + v3])
  }

  /** Inverse of `Encode`: `None` for text that is not a padded encoding. */
  function Decode(s: string): Option<seq<Byte>>
    decreases |s|
  {
    if |s| == 0 then Some([])
    else if |s| < 4 then None
    else
      match DecodeGroup(s[..4], |s| == 4)
      case None => None
      case Some(head) =>
        match Decode(s[4..])
        case None => None
        case Some(tail) => Some(head + tail)
  }

  lemma DivModBy(q: int, r: int, n: int)
    requires n == 4 || n == 16 || n == 64
    requires 0 <= r < n && 0 <= q
    ensures (q * n + r) / n == q && (q * n + r) % n == r
  {
  }

  lemma BlockRoundTrip(b0: Byte, b1: Byte, b2: Byte, last: bool)
    ensures DecodeGroup(EncodeBlock(b0, b1, b2), last) == Some([b0, b1, b2])
  {
    var v0, v1, v2, v3 := b0 / 4, (b0 % 4) * 16 + b1 / 16, (b1 % 16) * 4 + b2 / 64, b2 % 64;
    ValueOfSymbol(v0);
    ValueOfSymbol(v1);
    ValueOfSymbol(v2);
    ValueOfSymbol(v3);
    DivModBy(b0 % 4, b1 / 16, 16);
    DivModBy(b1 % 16, b2 / 64, 4);
    assert v0 * 4 + v1 / 16 == b0;
    assert (v1 % 16) * 16 + v2 / 4 == b1;
    assert (v2 % 4) * 64 + v3 == b2;
    var g := EncodeBlock(b0, b1, b2);
    assert g == [Symbol(v0), Symbol(v1), Symbol(v2), Symbol(v3)];
  }

  lemma OneByteRoundTrip(b0: Byte)
    ensures Decode(Encode([b0])) == Some([b0])
  {
    ValueOfSymbol(b0 / 4);
    ValueOfSymbol((b0 % 4) * 16);
    DivModBy(b0 % 4, 0, 16);
    var s := Encode([b0]);
    assert s[..4] == s && s[4..] == [];
    assert DecodeGroup(s, true) == Some([b0]);
    assert Decode(s[4..]) == Some([]);
    assert Decode(s) == Some([b0] + []);
    assert [b0] + [] == [b0];
  }

  lemma TwoByteRoundTrip(b0: Byte, b1: Byte)
    ensures Decode(Encode([b0, b1])) == Some([b0, b1])
  {
    var v0, v1, v2 := b0 / 4, (b0 % 4) * 16 + b1 / 16, (b1 % 16) * 4;
    ValueOfSymbol(v0);
    ValueOfSymbol(v1);
    ValueOfSymbol(v2);
    DivModBy(b0 % 4, b1 / 16, 16);
    DivModBy(b1 % 16, 0, 4);
    assert v0 * 4 + v1 / 16 == b0;
    assert (v1 % 16) * 16 + v2 / 4 == b1;
    var s := Encode([b0, b1]);
    assert s == [Symbol(v0), Symbol(v1), Symbol(v2), Pad];
    assert s[..4] == s && s[4..] == [];
    assert DecodeGroup(s, true) == Some([b0, b1]);
    assert Decode(s[4..]) == Some([]);
    assert Decode(s) == Some([b0, b1] + []);
    assert [b0, b1] + [] == [b0, b1];
  }

  lemma DecodeAppend(g: string, rest: string, head: seq<Byte>, tail: seq<Byte>)
    requires |g| == 4
    requires DecodeGroup(g, |rest| == 0) == Some(head) && Decode(rest) == Some(tail)
    ensures Decode(g + rest) == Some(head + tail)
  {
    var s := g + rest;
    assert s[..4] == g && s[4..] == rest;
  }

  lemma SplitThree<T>(b: seq<T>)
    requires |b| >= 3
    ensures [b[0], b[1], b[2]] + b[3..] == b
  {
  }

  lemma BlockStep(b: seq<Byte>)
    requires |b| >= 3 && Decode(Encode(b[3..])) == Some(b[3..])
    ensures Decode(Encode(b)) == Some(b)
  {
    var rest := Encode(b[3..]);
    var block := EncodeBlock(b[0], b[1], b[2]);
    assert Encode(b) == block + rest;
    BlockRoundTrip(b[0], b[1], b[2], |rest| == 0);
    DecodeAppend(block, rest, [b[0], b[1], b[2]], b[3..]);
    SplitThree(b);
  }

  /** Decoding an encoding gives back the bytes. */
  lemma {:induction false} DecodeEncode(b: seq<Byte>)
    ensures Decode(Encode(b)) == Some(b)
    decreases |b|
  {
    if |b| == 0 {
    } else if |b| == 1 {
      OneByteRoundTrip(b[0]);
      assert b == [b[0]];
    } else if |b| == 2 {
      TwoByteRoundTrip(b[0], b[1]);
      assert b == [b[0], b[1]];
    } else {
      DecodeEncode(b[3..]);
      BlockStep(b);
    }
  }

  /** Known answers: `f` and `fo` from the test vectors of section 10 of RFC 4648, and `Man`; the bit order is the standard one. */
  lemma KnownAnswers()
    ensures Encode([77, 97, 110]) == "TWFu"
    ensures Encode([102, 111]) == "Zm8="
    ensures Encode([102]) == "Zg=="
  {
    ManAnswer();
    FoAnswer();
    FAnswer();
  }

  lemma ManAnswer()
    ensures Encode([77, 97, 110]) == "TWFu"
  {
    var b: seq<Byte> := [77, 97, 110];
    assert b[3..] == [];
    assert Encode(b) == EncodeBlock(77, 97, 110);
    assert 77 / 4 == 19 && (77 % 4) * 16 + 97 / 16 == 22 && (97 % 16) * 4 + 110 / 64 == 5 && 110 % 64 == 46;
    assert Symbol(19) == 'T' && Symbol(22) == 'W' && Symbol(5) == 'F' && Symbol(46) == 'u';
  }

  lemma FoAnswer()
    ensures Encode([102, 111]) == "Zm8="
  {
    assert 102 / 4 == 25 && (102 % 4) * 16 + 111 / 16 == 38 && (111 % 16) * 4 == 60;
    assert Symbol(25) == 'Z' && Symbol(38) == 'm' && Symbol(60) == '8';
  }

  lemma FAnswer()
    ensures Encode([102]) == "Zg=="
  {
    assert 102 / 4 == 25 && (102 % 4) * 16 == 32;
    assert Symbol(25) == 'Z' && Symbol(32) == 'g';
  }

  /** The encoding never contains a quote, so it cannot end a quoted attribute or a quoted CSP source early. */
  lemma EncodeHasNoQuotes(b: seq<Byte>)
    ensures forall i :: 0 <= i < |Encode(b)| ==> Encode(b)[i] != '"' && Encode(b)[i] != '\''
  {
  }
}
