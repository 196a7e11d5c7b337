/** The base64 encoder of the authorization header, and the decoder of section 4 of RFC 4648. */
module Base64 {
  import opened Wrappers
  import opened Bytes

  /** Capital letters, small letters, digits, and two signs. */
  const ALPHABET: string := Letters('A', 26) + Letters('a', 26) + Letters('0', 10) + "+/"
  const PAD: char := '='

  function Letters(first: char, count: nat): (s: string)
    requires first as int + count <= 128
    ensures |s| == count
  {
    seq(count, i requires 0 <= i < count => (first as int + i) as char)
  }

  // ---- The decoder ----

  /** The six bits a character stands for. */
  function Sextet(c: char): (r: Option<nat>)
    ensures r.Some? ==> r.value < 64
  {
    if 'A' <= c <= 'Z' then Some((c - 'A') as nat)
    else if 'a' <= c <= 'z' then Some((c - 'a') as nat + 26)
    else if '0' <= c <= '9' then Some((c - '0') as nat + 52)
    else if c == '+' then Some(62)
    else if c == '/' then Some(63)
    else None
  }

  predicate AllSextets(s: string) { forall i :: 0 <= i < |s| ==> Sextet(s[i]).Some? }

  /** The bytes of four characters; one or two pads stand only at the very end, over zero bits. */
  function DecodeQuad(q: string, last: bool): Option<bytes>
    requires |q| == 4
  {
    if !AllSextets(q[..2]) then None
    else
      var high := Sextet(q[0]).value * 64 + Sextet(q[1]).value;
      if q[2] == PAD then
        if q[3] == PAD && last && high % 16 == 0 then Some([(high / 16) as byte]) else None
      else if Sextet(q[2]).None? then None
      else
        var middle := high * 64 + Sextet(q[2]).value;
        if q[3] == PAD then
          if last && middle % 4 == 0 then Some([(middle / 1024) as byte, (middle / 4 % 256) as byte]) else None
        else if Sextet(q[3]).None? then None
        else
          var n := middle * 64 + Sextet(q[3]).value;
          Some([(n / 65536) as byte, (n / 256 % 256) as byte, (n % 256) as byte])
  }

  function Decode(s: string): Option<bytes> {
    if s == "" then Some([])
    else if |s| < 4 then None
    else
      var first, rest := DecodeQuad(s[..4], |s| == 4), Decode(s[4..]);
      if first.None? || rest.None? then None else Some(first.value + rest.value)
  }

  // ---- The encoder ----

  /** One chunk of up to three bytes as four characters. */
  function EncodeChunk(c: bytes): (q: string)
    requires 1 <= |c| <= 3
    ensures |q| == 4
  {
    var n := c[0] as nat * 65536 + (if |c| > 1 then c[1] as nat * 256 else 0) + if |c| > 2 then c[2] as nat else 0;
    [ ALPHABET[n / 262144], ALPHABET[n / 4096 % 64],
      if |c| > 1 then ALPHABET[n / 64 % 64] else PAD,
      if |c| > 2 then ALPHABET[n % 64] else PAD ]
  }

  /** The chunks of the input, from the first to the last. */
  function Encode(input: bytes): string {
    if input == [] then "" else EncodeChunk(input[..Chunk(|input|)]) + Encode(input[Chunk(|input|)..])
  }

  function Chunk(left: nat): nat { if left < 3 then left else 3 }

  method EncodeBase64(input: bytes) returns (out: string)
    ensures out == Encode(input)
    ensures |out| == 4 * ((|input| + 2) / 3)
  {
    hide Letters;
    hide Encode;
    hide EncodeChunk;
    out := "";
    assert input[0..] == input;
    var i := 0;
    while i < |input|
      invariant 0 <= i <= |input|
      invariant Encode(input) == out + Encode(input[i..])
    {
      var chunk := input[i..i + Chunk(|input| - i)];
      var b0 := chunk[0] as nat;
      var b1: nat := if |chunk| > 1 then chunk[1] as nat else 0;
      var b2: nat := if |chunk| > 2 then chunk[2] as nat else 0;
      var n := b0 * 65536 + b1 * 256 + b2;
      SextetsFit(n);
      ghost var was := out;
      out := out + [ALPHABET[n / 262144]];
      out := out + [ALPHABET[n / 4096 % 64]];
      out := out + [if |chunk| > 1 then ALPHABET[n / 64 % 64] else PAD];
      out := out + [if |chunk| > 2 then ALPHABET[n % 64] else PAD];
      EncodeFrom(input, i);
      ChunkAppended(was, chunk);
      assert out == was + EncodeChunk(chunk);
      i := i + |chunk|;
    }
    EncodeFrom(input, i);
    RoundTrip(input);
  }

  lemma SextetsFit(n: nat)
    requires n < 0x100_0000
    ensures n / 262144 < 64 && n / 4096 % 64 < 64 && n / 64 % 64 < 64 && n % 64 < 64
  {
  }

  lemma EncodeFrom(input: bytes, i: nat)
    requires i <= |input|
    ensures Encode(input[i..])
         == if i == |input| then ""
            else var n := Chunk(|input| - i); EncodeChunk(input[i..i + n]) + Encode(input[i + n..])
  {
    hide EncodeChunk;
    var n := Chunk(|input| - i);
    assert input[i..][..n] == input[i..i + n] && input[i..][n..] == input[i + n..];
  }

  lemma FourMore(s: string, a: char, b: char, c: char, d: char)
    ensures s + [a] + [b] + [c] + [d] == s + [a, b, c, d]
  {
  }

  lemma ChunkChars(c: bytes)
    requires 1 <= |c| <= 3
    ensures var b1: nat := if |c| > 1 then c[1] as nat else 0;
      var b2: nat := if |c| > 2 then c[2] as nat else 0;
      var n := c[0] as nat * 65536 + b1 * 256 + b2;
      EncodeChunk(c) == [ALPHABET[n / 262144], ALPHABET[n / 4096 % 64],
                         if |c| > 1 then ALPHABET[n / 64 % 64] else PAD, if |c| > 2 then ALPHABET[n % 64] else PAD]
  {
  }

  lemma ChunkAppended(s: string, c: bytes)
    requires 1 <= |c| <= 3
    ensures var b1: nat := if |c| > 1 then c[1] as nat else 0;
      var b2: nat := if |c| > 2 then c[2] as nat else 0;
      var n := c[0] as nat * 65536 + b1 * 256 + b2;
      n < 0x100_0000
      && s + [ALPHABET[n / 262144]] + [ALPHABET[n / 4096 % 64]]
         + [if |c| > 1 then ALPHABET[n / 64 % 64] else PAD] + [if |c| > 2 then ALPHABET[n % 64] else PAD]
      == s + EncodeChunk(c)
  {
    hide EncodeChunk;
    var b1: nat := if |c| > 1 then c[1] as nat else 0;
    var b2: nat := if |c| > 2 then c[2] as nat else 0;
    var n := c[0] as nat * 65536 + b1 * 256 + b2;
    ChunkChars(c);
    FourMore(s, ALPHABET[n / 262144], ALPHABET[n / 4096 % 64],
             if |c| > 1 then ALPHABET[n / 64 % 64] else PAD, if |c| > 2 then ALPHABET[n % 64] else PAD);
  }

  // ---- The round trip ----

  lemma AlphabetIsDecoded(k: nat)
    requires k < 64
    ensures Sextet(ALPHABET[k]) == Some(k) && ALPHABET[k] != PAD
  {
  }

  lemma TopSextet(b0: nat, b1: nat, b2: nat)
    requires b0 < 256 && b1 < 256 && b2 < 256
    ensures (b0 * 65536 + b1 * 256 + b2) / 262144 == b0 / 4
  {
    assert b0 * 65536 + b1 * 256 + b2 == b0 / 4 * 262144 + (b0 % 4 * 65536 + b1 * 256 + b2);
  }

  /** Adding a sextet below does not disturb the number above it. */
  lemma SextetBelow(above: nat, below: nat)
    requires below < 64
    ensures (above * 64 + below) / 64 == above && (above * 64 + below) % 64 == below
  {
  }

  lemma LastByte(b: nat)
    requires b < 256
    ensures b / 64 < 4 && b / 64 * 64 + b % 64 == b
  {
  }

  lemma MiddleByte(b: nat)
    requires b < 256
    ensures b / 16 < 16 && b / 16 * 16 + b % 16 == b
  {
  }

  lemma FirstByte(b: nat)
    requires b < 256
    ensures b / 4 < 64 && b / 4 * 4 + b % 4 == b
  {
  }

  lemma ShiftTwice(n: nat)
    ensures n / 64 / 64 == n / 4096
  {
  }

  lemma ThirdAndFourth(b0: nat, b1: nat, b2: nat)
    requires b0 < 256 && b1 < 256 && b2 < 256
    ensures var n := b0 * 65536 + b1 * 256 + b2;
      n / 64 == b0 * 1024 + b1 * 4 + b2 / 64 && n % 64 == b2 % 64
  {
    LastByte(b2);
    SextetBelow(b0 * 1024 + b1 * 4 + b2 / 64, b2 % 64);
  }

  lemma SecondAndThird(b0: nat, b1: nat, b2: nat)
    requires b0 < 256 && b1 < 256 && b2 < 256
    ensures var n := b0 * 65536 + b1 * 256 + b2;
      n / 64 / 64 == b0 * 16 + b1 / 16 && n / 64 % 64 == b1 % 16 * 4 + b2 / 64
  {
    ThirdAndFourth(b0, b1, b2);
    LastByte(b2);
    MiddleByte(b1);
    SextetBelow(b0 * 16 + b1 / 16, b1 % 16 * 4 + b2 / 64);
  }

  lemma SecondSextet(b0: nat, b1: nat, b2: nat)
    requires b0 < 256 && b1 < 256 && b2 < 256
    ensures (b0 * 65536 + b1 * 256 + b2) / 4096 % 64 == b0 % 4 * 16 + b1 / 16
  {
    SecondAndThird(b0, b1, b2);
    FirstByte(b0);
    MiddleByte(b1);
    SextetBelow(b0 / 4, b0 % 4 * 16 + b1 / 16);
    ShiftTwice(b0 * 65536 + b1 * 256 + b2);
  }

  /** The four sextets of three bytes, without the shifts. */
  lemma SextetsOf(b0: nat, b1: nat, b2: nat)
    requires b0 < 256 && b1 < 256 && b2 < 256
    ensures var n := b0 * 65536 + b1 * 256 + b2;
      && n / 262144 == b0 / 4 && n / 4096 % 64 == b0 % 4 * 16 + b1 / 16
      && n / 64 % 64 == b1 % 16 * 4 + b2 / 64 && n % 64 == b2 % 64
  {
    TopSextet(b0, b1, b2);
    SecondSextet(b0, b1, b2);
    SecondAndThird(b0, b1, b2);
    ThirdAndFourth(b0, b1, b2);
  }

  lemma Joined(b0: nat, b1: nat, b2: nat)
    ensures b0 / 4 * 64 + (b0 % 4 * 16 + b1 / 16) == b0 * 16 + b1 / 16
    ensures (b0 * 16 + b1 / 16) * 64 + (b1 % 16 * 4 + b2 / 64) == b0 * 1024 + b1 * 4 + b2 / 64
    ensures (b0 * 1024 + b1 * 4 + b2 / 64) * 64 + b2 % 64 == b0 * 65536 + b1 * 256 + b2
  {
  }

  lemma Halves(high: nat, middle: nat, b0: nat, b1: nat, b2: nat)
    requires b0 < 256 && b1 < 256 && b2 < 256
    requires high == b0 * 16 + b1 / 16 && middle == b0 * 1024 + b1 * 4 + b2 / 64
    ensures high / 16 == b0 && (b1 == 0 ==> high % 16 == 0)
    ensures middle / 1024 == b0 && middle / 4 % 256 == b1 && (b2 == 0 ==> middle % 4 == 0)
  {
    assert middle / 4 == b0 * 256 + b1;
  }

  lemma Whole(n: nat, b0: nat, b1: nat, b2: nat)
    requires b0 < 256 && b1 < 256 && b2 < 256 && n == b0 * 65536 + b1 * 256 + b2
    ensures n / 65536 == b0 && n / 256 % 256 == b1 && n % 256 == b2
  {
    assert n / 256 == b0 * 256 + b1;
  }

  /** Joining the sextets one by one gives the bytes back. */
  lemma BytesOf(b0: nat, b1: nat, b2: nat)
    requires b0 < 256 && b1 < 256 && b2 < 256
    ensures var high := b0 / 4 * 64 + (b0 % 4 * 16 + b1 / 16);
      var middle := high * 64 + (b1 % 16 * 4 + b2 / 64);
      var n := middle * 64 + b2 % 64;
      && high / 16 == b0 && (b1 == 0 ==> high % 16 == 0)
      && middle / 1024 == b0 && middle / 4 % 256 == b1 && (b2 == 0 ==> middle % 4 == 0)
      && n / 65536 == b0 && n / 256 % 256 == b1 && n % 256 == b2
  {
    var high := b0 / 4 * 64 + (b0 % 4 * 16 + b1 / 16);
    var middle := high * 64 + (b1 % 16 * 4 + b2 / 64);
    Joined(b0, b1, b2);
    Halves(high, middle, b0, b1, b2);
    Whole(middle * 64 + b2 % 64, b0, b1, b2);
  }

  lemma {:induction false} ChunkRoundTrip(c: bytes, last: bool)
    requires 1 <= |c| <= 3 && (|c| < 3 ==> last)
    ensures DecodeQuad(EncodeChunk(c), last) == Some(c)
  {
    hide Sextet;
    hide Letters;
    hide EncodeChunk;
    hide DecodeQuad;
    var b0, b1, b2 := c[0] as nat, if |c| > 1 then c[1] as nat else 0, if |c| > 2 then c[2] as nat else 0;
    ChunkChars(c);
    SextetsOf(b0, b1, b2);
    BytesOf(b0, b1, b2);
    AlphabetIsDecoded(b0 / 4);
    AlphabetIsDecoded(b0 % 4 * 16 + b1 / 16);
    AlphabetIsDecoded(b1 % 16 * 4 + b2 / 64);
    AlphabetIsDecoded(b2 % 64);
    QuadIs(EncodeChunk(c), last, b0 / 4, b0 % 4 * 16 + b1 / 16, b1 % 16 * 4 + b2 / 64, b2 % 64);
    if |c| == 1 {
      assert c == [b0 as byte];
    } else if |c| == 2 {
      assert c == [b0 as byte, b1 as byte];
    } else {
      assert c == [b0 as byte, b1 as byte, b2 as byte];
    }
  }

  /** What four characters decode to, by the number of pads. */
  lemma QuadIs(q: string, last: bool, s0: nat, s1: nat, s2: nat, s3: nat)
    requires |q| == 4 && s0 < 64 && s1 < 64 && s2 < 64 && s3 < 64
    requires Sextet(q[0]) == Some(s0) && Sextet(q[1]) == Some(s1)
    ensures q[2] == PAD && q[3] == PAD && last && (s0 * 64 + s1) % 16 == 0 ==>
      DecodeQuad(q, last) == Some([((s0 * 64 + s1) / 16) as byte])
    ensures q[2] != PAD && Sextet(q[2]) == Some(s2) && q[3] == PAD && last && ((s0 * 64 + s1) * 64 + s2) % 4 == 0 ==>
      var middle := (s0 * 64 + s1) * 64 + s2;
      DecodeQuad(q, last) == Some([(middle / 1024) as byte, (middle / 4 % 256) as byte])
    ensures q[2] != PAD && Sextet(q[2]) == Some(s2) && q[3] != PAD && Sextet(q[3]) == Some(s3) ==>
      var n := ((s0 * 64 + s1) * 64 + s2) * 64 + s3;
      DecodeQuad(q, last) == Some([(n / 65536) as byte, (n / 256 % 256) as byte, (n % 256) as byte])
  {
    hide Sextet;
    assert q[..2] == [q[0], q[1]];
  }

  /** Decoding undoes the encoder on every input. */
  lemma {:induction false} RoundTrip(input: bytes)
    ensures Decode(Encode(input)) == Some(input)
    ensures |Encode(input)| == 4 * ((|input| + 2) / 3)
  {
    hide DecodeQuad;
    hide EncodeChunk;
    hide Letters;
    if input != [] {
      var chunk, rest := input[..Chunk(|input|)], input[Chunk(|input|)..];
      var s := Encode(input);
      RoundTrip(rest);
      assert s[..4] == EncodeChunk(chunk) && s[4..] == Encode(rest);
      ChunkRoundTrip(chunk, |s| == 4);
      assert input == chunk + rest;
    }
  }
}
