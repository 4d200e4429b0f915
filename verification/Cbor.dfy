/** The deterministic CBOR profile of the wire formats: unsigned integers, byte
    strings and arrays of definite length. Writing uses the shortest head, as
    section 4.2.1 of RFC 8949 asks; reading accepts any width. */
module Cbor {
  import opened Prelude

  const UNSIGNED := 0
  const BYTES := 2
  const ARRAY := 4

  datatype Malformed = Malformed

  /** A head: major type and argument, in the shortest form. */
  function Head(major: nat, n: nat): (head: Bytes)
    requires major < 8 && n <= U64_MAX
    ensures 1 <= |head| <= 9
  {
    if n < 24 then [32 * major + n]
    else if n < 0x100 then [32 * major + 24] + BigEndian(n, 1)
    else if n < 0x1_0000 then [32 * major + 25] + BigEndian(n, 2)
    else if n < 0x1_0000_0000 then [32 * major + 26] + BigEndian(n, 4)
    else [32 * major + 27] + BigEndian(n, 8)
  }

  datatype Token = Token(major: nat, value: nat, rest: Bytes)

  /** How many bytes follow the first one of a head, by its low five bits. */
  function Width(info: nat): nat {
    if info == 24 then 1 else if info == 25 then 2 else if info == 26 then 4 else if info == 27 then 8 else 0
  }

  /** Reads a head of any definite width from the front of the unread bytes. */
  function ReadHead(input: Bytes): Result<Token, Malformed> {
    if input == [] then Err(Malformed) else
    var major, info := input[0] / 32, input[0] % 32;
    if info > 27 || 1 + Width(info) > |input| then Err(Malformed)
    else if info < 24 then Ok(Token(major, info, input[1..]))
    else Ok(Token(major, FromBigEndian(input[1..1 + Width(info)]), input[1 + Width(info)..]))
  }

  /** Reading inverts writing, whatever follows. */
  lemma ReadsHead(major: nat, n: nat, rest: Bytes)
    requires major < 8 && n <= U64_MAX
    ensures ReadHead(Head(major, n) + rest) == Ok(Token(major, n, rest))
  {
    Widths();
    hide BigEndian, FromBigEndian, Pow256;
    var info := if n < 24 then n else if n < 0x100 then 24 else if n < 0x1_0000 then 25 else if n < 0x1_0000_0000 then 26 else 27;
    var first: byte := 32 * major + info;
    assert first / 32 == major && first % 32 == info;
    if n < 24 {
      assert ([first] + rest)[1..] == rest;
    } else {
      ReadsWide(first, n, Width(info), rest);
    }
  }

  lemma ReadsWide(first: byte, n: nat, width: nat, rest: Bytes)
    requires n < Pow256(width)
    ensures var input := [first] + BigEndian(n, width) + rest;
            && |input| >= 1 + width && input[0] == first
            && FromBigEndian(input[1..1 + width]) == n && input[1 + width..] == rest
  {
    BigEndianRoundTrip(n, width);
    hide BigEndian, FromBigEndian, Pow256;
    var input := [first] + BigEndian(n, width) + rest;
    assert input[1..1 + width] == BigEndian(n, width);
  }

  // ---------- typed items ----------

  function ReadUnsigned(input: Bytes, max: nat): (result: Result<(nat, Bytes), Malformed>)
    ensures result.Ok? ==> result.value.0 <= max
  {
    hide ReadHead;
    var token :- ReadHead(input);
    if token.major != UNSIGNED || token.value > max then Err(Malformed) else Ok((token.value, token.rest))
  }

  function ReadArray(input: Bytes): Result<(nat, Bytes), Malformed> {
    var token :- ReadHead(input);
    if token.major != ARRAY then Err(Malformed) else Ok((token.value, token.rest))
  }

  function ReadBytes(input: Bytes): Result<(Bytes, Bytes), Malformed> {
    var token :- ReadHead(input);
    if token.major != BYTES || token.value > |token.rest| then Err(Malformed)
    else Ok((token.rest[..token.value], token.rest[token.value..]))
  }

  /** A byte string of exactly 32 bytes, as a number. */
  function ReadId(input: Bytes): (result: Result<(nat, Bytes), Malformed>)
    ensures result.Ok? ==> IsId(result.value.0)
  {
    hide ReadBytes, Pow256;
    var read :- ReadBytes(input);
    if |read.0| != ID_BYTES then Err(Malformed) else Ok((FromBigEndian(read.0), read.1))
  }

  function ByteString(b: Bytes): (written: Bytes)
    requires |b| <= U64_MAX
    ensures |b| < |written| <= |b| + 9
  {
    Head(BYTES, |b|) + b
  }

  function Id(id: nat): (written: Bytes)
    ensures |written| == 34
  {
    ByteString(IdBytes(id))
  }

  function IdBytes(id: nat): (b: Bytes)
    ensures |b| == ID_BYTES
  {
    BigEndian(id, ID_BYTES)
  }

  lemma ReadsUnsigned(n: nat, max: nat, rest: Bytes)
    requires n <= max <= U64_MAX
    ensures ReadUnsigned(Head(UNSIGNED, n) + rest, max) == Ok((n, rest))
  {
    hide ReadHead, Head;
    ReadsHead(UNSIGNED, n, rest);
  }

  lemma ReadsArray(n: nat, rest: Bytes)
    requires n <= U64_MAX
    ensures ReadArray(Head(ARRAY, n) + rest) == Ok((n, rest))
  {
    hide ReadHead, Head;
    ReadsHead(ARRAY, n, rest);
  }

  lemma ReadsBytes(b: Bytes, rest: Bytes)
    requires |b| <= U64_MAX
    ensures ReadBytes(ByteString(b) + rest) == Ok((b, rest))
  {
    hide ReadHead, Head;
    ReadsHead(BYTES, |b|, b + rest);
    Assoc(Head(BYTES, |b|), b, rest);
    assert (b + rest)[..|b|] == b && (b + rest)[|b|..] == rest;
  }

  lemma ReadsId(id: nat, rest: Bytes)
    requires IsId(id)
    ensures ReadId(Id(id) + rest) == Ok((id, rest))
  {
    hide ReadBytes, ByteString, IdBytes, FromBigEndian, Pow256;
    IdBytesValue(id);
    ReadsBytes(IdBytes(id), rest);
  }

  lemma IdBytesValue(id: nat)
    requires IsId(id)
    ensures FromBigEndian(IdBytes(id)) == id
  {
    hide BigEndian, FromBigEndian, Pow256;
    BigEndianRoundTrip(id, ID_BYTES);
  }

  /** How long a head is, by its argument. */
  lemma HeadSize(major: nat, n: nat)
    requires major < 8 && n <= U64_MAX
    ensures n < 24 ==> |Head(major, n)| == 1
    ensures n < 0x100 ==> |Head(major, n)| <= 2
    ensures n < 0x1_0000 ==> |Head(major, n)| <= 3
  {
  }
}
