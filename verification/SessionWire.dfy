/** The messages of the peer handshake and the transcripts its proofs sign. */
module SessionWire {
  import opened Prelude
  import opened Cbor
  import opened Contacts

  const MAX_SESSION_FRAME_BYTES := 16 * 1024
  const MAX_CLAIM_BYTES := 2 * 1024
  const PROTOCOL_VERSION := 2
  const NONCE_BYTES := 32
  const PROOF_BYTES := 64
  const EXPORTER_BYTES := 32

  datatype SessionError =
    | FrameSize | InvalidMessage | Encoding | UnauthorizedContact | UnexpectedServer | InvalidProof | Revoked

  /** A transport address by its 4 or 16 octets. */
  datatype Address = Address(octets: Bytes, port: nat)

  predicate TypedAddress(a: Address) {
    (|a.octets| == 4 || |a.octets| == 16) && a.port < 0x1_0000
  }

  predicate Unspecified(a: Address) {
    forall i :: 0 <= i < |a.octets| ==> a.octets[i] == 0
  }

  predicate Multicast(a: Address) {
    if |a.octets| == 4 then 224 <= a.octets[0] < 240 else |a.octets| == 16 && a.octets[0] == 255
  }

  /** The addresses a peer may report. */
  predicate Reportable(a: Address) {
    TypedAddress(a) && !Unspecified(a) && !Multicast(a) && a.port != 0
  }

  /** What a claim says; the rest of it is opaque here. */
  datatype Claim = Claim(subject: NodeId, reporter: NodeId, address: Address, body: Bytes)

  // ---------- the nested artifacts ----------

  type ClaimCodec = codec: Codec<Claim> | IsCanonical(codec, MAX_CLAIM_BYTES) witness Codec(_ => None, _ => None)

  const CLAIMS: ClaimCodec

  // ---------- fields ----------

  datatype Item = Number(n: nat) | Blob(b: Bytes) | Socket(address: Address)

  datatype Kind = Unsigned(max: nat) | Fixed(size: nat) | ContactField | ClaimField | AddressField

  predicate Writable(item: Item) {
    match item
    case Number(n) => n <= U64_MAX
    case Blob(b) => |b| <= U64_MAX
    case Socket(a) => TypedAddress(a)
  }

  /** An item a typed read of that kind accepts. */
  predicate Fits(kind: Kind, item: Item) {
    match kind
    case Unsigned(max) => item.Number? && item.n <= max <= U64_MAX
    case Fixed(size) => item.Blob? && |item.b| == size <= U64_MAX
    case ContactField => item.Blob? && |item.b| <= MAX_CONTACT_BYTES && CONTACTS.decode(item.b).Some?
    case ClaimField => item.Blob? && |item.b| <= MAX_CLAIM_BYTES && CLAIMS.decode(item.b).Some?
    case AddressField => item.Socket? && Reportable(item.address)
  }

  predicate Sized(kinds: seq<Kind>) {
    forall i :: 0 <= i < |kinds| ==>
      (kinds[i].Unsigned? ==> kinds[i].max <= U64_MAX) && (kinds[i].Fixed? ==> kinds[i].size <= U64_MAX)
  }

  predicate AllFit(kinds: seq<Kind>, items: seq<Item>) {
    |kinds| == |items| && forall i :: 0 <= i < |items| ==> Fits(kinds[i], items[i])
  }

  predicate AllWritable(items: seq<Item>) {
    forall i :: 0 <= i < |items| ==> Writable(items[i])
  }

  function WriteItem(item: Item): Bytes
    requires Writable(item)
  {
    match item
    case Number(n) => Head(UNSIGNED, n)
    case Blob(b) => ByteString(b)
    case Socket(a) => Head(ARRAY, 2) + ByteString(a.octets) + Head(UNSIGNED, a.port)
  }

  function WriteItems(items: seq<Item>): Bytes
    requires AllWritable(items)
  {
    if items == [] then [] else WriteItem(items[0]) + WriteItems(items[1..])
  }

  function Typed<T>(read: Result<T, Malformed>): Result<T, SessionError> {
    match read
    case Ok(value) => Ok(value)
    case Err(_) => Err(Encoding)
  }

  function ReadField(kind: Kind, input: Bytes): (result: Result<(Item, Bytes), SessionError>) {
    match kind
    case Unsigned(max) =>
      var read :- Typed(ReadUnsigned(input, max));
      Ok((Number(read.0), read.1))
    case Fixed(size) =>
      var read :- Typed(ReadBytes(input));
      if |read.0| != size then Err(InvalidMessage) else Ok((Blob(read.0), read.1))
    case ContactField =>
      var read :- Typed(ReadBytes(input));
      if |read.0| > MAX_CONTACT_BYTES then Err(FrameSize)
      else if CONTACTS.decode(read.0).None? then Err(UnauthorizedContact)
      else Ok((Blob(read.0), read.1))
    case ClaimField =>
      var read :- Typed(ReadBytes(input));
      if |read.0| > MAX_CLAIM_BYTES || CLAIMS.decode(read.0).None? then Err(InvalidMessage)
      else Ok((Blob(read.0), read.1))
    case AddressField => ReadAddress(input)
  }

  function ReadAddress(input: Bytes): Result<(Item, Bytes), SessionError> {
    var count :- Typed(ReadArray(input));
    if count.0 != 2 then Err(InvalidMessage) else
    var octets :- Typed(ReadBytes(count.1));
    if |octets.0| != 4 && |octets.0| != 16 then Err(InvalidMessage) else
    var port :- Typed(ReadUnsigned(octets.1, 0xFFFF));
    var address := Address(octets.0, port.0);
    if Unspecified(address) || Multicast(address) || address.port == 0 then Err(InvalidMessage)
    else Ok((Socket(address), port.1))
  }

  function ReadFields(kinds: seq<Kind>, input: Bytes): (result: Result<(seq<Item>, Bytes), SessionError>)
    decreases |kinds|
  {
    if kinds == [] then Ok(([], input)) else
    var first :- ReadField(kinds[0], input);
    var others :- ReadFields(kinds[1..], first.1);
    Ok(([first.0] + others.0, others.1))
  }

  lemma ReadsField(kind: Kind, item: Item, rest: Bytes)
    requires Fits(kind, item)
    ensures Writable(item) && ReadField(kind, WriteItem(item) + rest) == Ok((item, rest))
  {
    hide ReadUnsigned, ReadBytes, ReadArray, Head, ByteString, Unspecified, Multicast;
    match item
    case Number(n) => ReadsUnsigned(n, kind.max, rest);
    case Blob(b) => ReadsBytes(b, rest);
    case Socket(a) =>
      var port := Head(UNSIGNED, a.port);
      var octets := ByteString(a.octets);
      var count := Head(ARRAY, 2);
      Assoc(count + octets, port, rest);
      Assoc(count, octets, port + rest);
      ReadsArray(2, octets + (port + rest));
      ReadsBytes(a.octets, port + rest);
      ReadsUnsigned(a.port, 0xFFFF, rest);
  }

  /** Typed reads get back what was written, whatever follows. */
  lemma {:induction false} ReadsFields(kinds: seq<Kind>, items: seq<Item>, rest: Bytes)
    requires AllFit(kinds, items)
    ensures AllWritable(items) && ReadFields(kinds, WriteItems(items) + rest) == Ok((items, rest))
    decreases |kinds|
  {
    hide Fits, ReadField, WriteItem;
    forall i | 0 <= i < |items| ensures Writable(items[i]) {
      ReadsField(kinds[i], items[i], []);
    }
    if kinds == [] {
      assert [] + rest == rest;
    } else {
      var others := WriteItems(items[1..]);
      Assoc(WriteItem(items[0]), others, rest);
      ReadsField(kinds[0], items[0], others + rest);
      ReadsFields(kinds[1..], items[1..], rest);
      assert [items[0]] + items[1..] == items;
    }
  }

  /** What is read fits its kinds. */
  lemma {:induction false} ReadFits(kinds: seq<Kind>, input: Bytes)
    requires ReadFields(kinds, input).Ok?
    requires Sized(kinds)
    ensures AllFit(kinds, ReadFields(kinds, input).value.0)
    decreases |kinds|
  {
    hide ReadUnsigned, ReadBytes, ReadArray, Unspecified, Multicast;
    if kinds != [] {
      ReadFits(kinds[1..], ReadField(kinds[0], input).value.1);
    }
  }

  /** What follows a written item does not change what it says. */
  lemma ItemPrefix(x: Item, y: Item, xs: Bytes, ys: Bytes)
    requires Writable(x) && Writable(y) && WriteItem(x) + xs == WriteItem(y) + ys
    ensures x == y && xs == ys
  {
    hide ReadHead, Head, ByteString;
    ItemHead(x, xs);
    ItemHead(y, ys);
    match x
    case Number(n) =>
    case Blob(b) =>
      ReadsBytes(b, xs);
      ReadsBytes(y.b, ys);
    case Socket(a) =>
      SocketParts(a, xs);
      SocketParts(y.address, ys);
  }

  /** The head of a written item tells its kind. */
  lemma ItemHead(x: Item, rest: Bytes)
    requires Writable(x)
    ensures var head := ReadHead(WriteItem(x) + rest);
            && head.Ok? && head.value.major == (match x case Number(_) => UNSIGNED case Blob(_) => BYTES case Socket(_) => ARRAY)
            && (x.Number? ==> head.value.value == x.n && head.value.rest == rest)
  {
    hide ReadHead, Head;
    match x
    case Number(n) => ReadsHead(UNSIGNED, n, rest);
    case Blob(b) =>
      Assoc(Head(BYTES, |b|), b, rest);
      ReadsHead(BYTES, |b|, b + rest);
    case Socket(a) =>
      var others := ByteString(a.octets) + Head(UNSIGNED, a.port);
      Assoc(Head(ARRAY, 2), ByteString(a.octets), Head(UNSIGNED, a.port));
      Assoc(Head(ARRAY, 2), others, rest);
      ReadsHead(ARRAY, 2, others + rest);
  }

  lemma SocketParts(a: Address, rest: Bytes)
    requires TypedAddress(a)
    ensures var count := ReadArray(WriteItem(Socket(a)) + rest);
            && count.Ok?
            && var octets := ReadBytes(count.value.1);
               octets.Ok? && octets.value.0 == a.octets && ReadUnsigned(octets.value.1, U64_MAX) == Ok((a.port, rest))
  {
    hide ReadUnsigned, ReadBytes, ReadArray, Head, ByteString;
    var port, octets, count := Head(UNSIGNED, a.port), ByteString(a.octets), Head(ARRAY, 2);
    Assoc(count + octets, port, rest);
    Assoc(count, octets, port + rest);
    ReadsArray(2, octets + (port + rest));
    ReadsBytes(a.octets, port + rest);
    ReadsUnsigned(a.port, U64_MAX, rest);
  }

  lemma {:induction false} ItemsInjective(xs: seq<Item>, ys: seq<Item>)
    requires AllWritable(xs) && AllWritable(ys) && |xs| == |ys| && WriteItems(xs) == WriteItems(ys)
    ensures xs == ys
    decreases |xs|
  {
    hide WriteItem, Writable;
    if xs != [] {
      ItemPrefix(xs[0], ys[0], WriteItems(xs[1..]), WriteItems(ys[1..]));
      ItemsInjective(xs[1..], ys[1..]);
      assert xs == [xs[0]] + xs[1..] && ys == [ys[0]] + ys[1..];
    }
  }

  // ---------- sizes ----------

  function ItemBound(item: Item): nat {
    match item
    case Number(n) => if n < 24 then 1 else 9
    case Blob(b) => 9 + |b|
    case Socket(a) => 19 + |a.octets|
  }

  function ItemsBound(items: seq<Item>): nat {
    if items == [] then 0 else ItemBound(items[0]) + ItemsBound(items[1..])
  }

  lemma BoundFrom(items: seq<Item>, i: nat)
    requires i < |items|
    ensures ItemsBound(items[i..]) == ItemBound(items[i]) + ItemsBound(items[i + 1..])
  {
    assert items[i..][1..] == items[i + 1..];
  }

  lemma NoItems(items: seq<Item>)
    ensures ItemsBound(items[|items|..]) == 0
  {
  }

  lemma {:induction false} ItemsSize(items: seq<Item>)
    requires AllWritable(items)
    ensures |WriteItems(items)| <= ItemsBound(items)
    decreases |items|
  {
    if items != [] {
      match items[0] {
        case Number(n) => HeadSize(UNSIGNED, n);
        case Blob(b) =>
        case Socket(a) => HeadSize(ARRAY, 2);
      }
      hide Head, ByteString, Writable;
      ItemsSize(items[1..]);
    }
  }

  // ---------- messages ----------

  /** A definite array of the items, refused when it exceeds the frame budget. */
  function EncodeMessage(items: seq<Item>): (result: Result<Bytes, SessionError>)
    requires AllWritable(items) && |items| < 24
    ensures result.Ok? ==> 1 <= |result.value| <= MAX_SESSION_FRAME_BYTES
  {
    var output := Head(ARRAY, |items|) + WriteItems(items);
    if |output| > MAX_SESSION_FRAME_BYTES then Err(FrameSize) else Ok(output)
  }

  lemma MessageInjective(xs: seq<Item>, ys: seq<Item>)
    requires AllWritable(xs) && AllWritable(ys) && |xs| < 24 && |ys| < 24
    requires EncodeMessage(xs).Ok? && EncodeMessage(xs) == EncodeMessage(ys)
    ensures xs == ys
  {
    hide Head, WriteItems, ReadArray, AllWritable;
    ReadsArray(|xs|, WriteItems(xs));
    ReadsArray(|ys|, WriteItems(ys));
    ItemsInjective(xs, ys);
  }

  lemma MessageFits(items: seq<Item>)
    requires AllWritable(items) && |items| < 24 && ItemsBound(items) < MAX_SESSION_FRAME_BYTES
    ensures EncodeMessage(items).Ok?
  {
    hide WriteItems, AllWritable, ItemsBound;
    ItemsSize(items);
    HeadSize(ARRAY, |items|);
    hide Head;
  }

  /** Reads a message of one type: its header, its typed fields, nothing more. */
  function DecodeItems(tag: nat, kinds: seq<Kind>, input: Bytes): (result: Result<seq<Item>, SessionError>)
    requires Sized(kinds)
    ensures result.Ok? ==> AllFit(kinds, result.value)
  {
    hide ReadFields, ReadArray, ReadUnsigned, AllFit, Sized;
    var count :- Typed(ReadArray(input));
    if count.0 != 2 + |kinds| then Err(InvalidMessage) else
    var version :- Typed(ReadUnsigned(count.1, 0xFFFF));
    if version.0 != PROTOCOL_VERSION then Err(InvalidMessage) else
    var kind :- Typed(ReadUnsigned(version.1, 0xFF));
    if kind.0 != tag then Err(InvalidMessage) else
    var fields :- ReadFields(kinds, kind.1);
    ReadFits(kinds, kind.1);
    if fields.1 != [] then Err(InvalidMessage) else Ok(fields.0)
  }

  function Tagged(tag: nat, items: seq<Item>): seq<Item> {
    [Number(PROTOCOL_VERSION), Number(tag)] + items
  }

  lemma DecodesItems(tag: nat, kinds: seq<Kind>, items: seq<Item>)
    requires tag < 24 && Sized(kinds) && AllFit(kinds, items) && |items| < 22
    ensures AllWritable(Tagged(tag, items))
    ensures EncodeMessage(Tagged(tag, items)).Ok? ==>
              DecodeItems(tag, kinds, EncodeMessage(Tagged(tag, items)).value) == Ok(items)
  {
    assert |kinds| == |items|;
    hide ReadFields, AllFit, ReadUnsigned, ReadArray, Head;
    ReadsFields(kinds, items, []);
    var all := Tagged(tag, items);
    var body := WriteItems(items);
    assert all[2..] == items && all[1..][1..] == items && all[1..][0] == Number(tag);
    assert AllWritable(all);
    assert WriteItems(all[1..]) == Head(UNSIGNED, tag) + body;
    assert WriteItems(all) == Head(UNSIGNED, PROTOCOL_VERSION) + WriteItems(all[1..]);
    ReadsArray(|all|, WriteItems(all));
    ReadsUnsigned(PROTOCOL_VERSION, 0xFFFF, WriteItems(all[1..]));
    ReadsUnsigned(tag, 0xFF, body);
    assert body + [] == body;
  }
}
