/** Root-signed revocation snapshots: their codec and how they spread. */
module Revocation {
  import opened Prelude
  import opened Cbor

  const REVOCATION_VERSION := 1
  const SIGNED_VERSION := 1
  const LIST_FIELDS := 5
  const MAX_REVOKED_NODES := 256
  const MAX_SIGNED_REVOCATION_BYTES := 9 * 1024
  const SIGNATURE_BYTES := 64

  /** Identifiers are 32-byte strings, compared as big-endian numbers. */
  datatype RevocationList = RevocationList(
    version: nat,
    hive: nat,
    serial: nat,
    issuedAt: nat,
    revokedNodes: seq<nat>)

  datatype SignedRevocations = SignedRevocations(list: RevocationList, signature: Bytes)

  datatype RevocationError =
    | UnsupportedVersion
    | InvalidSerial
    | Unordered
    | Oversized
    | HiveRootMismatch
    | InvalidSignature
    | MalformedBytes
    | NonCanonical

  /** What the field types allow: 16 and 64 bit integers, 32-byte identifiers. */
  predicate Typed(list: RevocationList) {
    && list.version <= 0xFFFF && list.serial <= U64_MAX && list.issuedAt <= U64_MAX
    && IsId(list.hive)
    && forall i :: 0 <= i < |list.revokedNodes| ==> IsId(list.revokedNodes[i])
  }

  predicate StrictlyAscending(nodes: seq<nat>) {
    forall i, j :: 0 <= i < j < |nodes| ==> nodes[i] < nodes[j]
  }

  function ValidateShape(list: RevocationList): Result<(), RevocationError> {
    if list.version != REVOCATION_VERSION then Err(UnsupportedVersion)
    else if |list.revokedNodes| > MAX_REVOKED_NODES then Err(Oversized)
    else if (list.serial == 0) != (list.revokedNodes == []) then Err(InvalidSerial)
    else if !StrictlyAscending(list.revokedNodes) then Err(Unordered)
    else Ok(())
  }

  /** A binary search in an ordered list is membership. */
  predicate Contains(value: SignedRevocations, node: nat) {
    node in value.list.revokedNodes
  }

  // ---------- encoding ----------

  function EncodeNodes(nodes: seq<nat>): (b: Bytes)
    ensures |b| == 34 * |nodes|
  {
    if nodes == [] then [] else Id(nodes[0]) + EncodeNodes(nodes[1..])
  }

  function EncodeList(list: RevocationList): Bytes
    requires Typed(list) && ValidateShape(list).Ok?
  {
    Head(ARRAY, LIST_FIELDS) + (Head(UNSIGNED, list.version) + (Id(list.hive) + (Head(UNSIGNED, list.serial) +
      (Head(UNSIGNED, list.issuedAt) + (Head(ARRAY, |list.revokedNodes|) + EncodeNodes(list.revokedNodes))))))
  }

  /** The envelope: version, payload, signature. */
  function Envelope(payload: Bytes, signature: Bytes): Bytes
    requires |payload| <= U64_MAX && |signature| <= U64_MAX
  {
    Head(ARRAY, 3) + (Head(UNSIGNED, SIGNED_VERSION) + (ByteString(payload) + ByteString(signature)))
  }

  function EncodeSigned(value: SignedRevocations): Result<Bytes, RevocationError>
    requires Typed(value.list)
  {
    var _ :- ValidateShape(value.list);
    if |value.signature| != SIGNATURE_BYTES then Err(InvalidSignature) else
    var payload := EncodeList(value.list);
    ListSize(value.list);
    var output := Envelope(payload, value.signature);
    if |output| > MAX_SIGNED_REVOCATION_BYTES then Err(Oversized) else Ok(output)
  }

  /** The loop that writes the identifiers one after the other. */
  method WriteNodes(nodes: seq<nat>, start: Bytes) returns (output: Bytes)
    ensures output == start + EncodeNodes(nodes)
  {
    hide Id;
    output := start;
    assert nodes[0..] == nodes;
    for i := 0 to |nodes|
      invariant output + EncodeNodes(nodes[i..]) == start + EncodeNodes(nodes)
    {
      assert nodes[i..][1..] == nodes[i + 1..];
      Assoc(output, Id(nodes[i]), EncodeNodes(nodes[i + 1..]));
      output := output + Id(nodes[i]);
    }
  }

  // ---------- decoding ----------

  function Shape<T>(read: Result<T, Malformed>): Result<T, RevocationError> {
    match read
    case Ok(value) => Ok(value)
    case Err(_) => Err(MalformedBytes)
  }

  function DecodeNodes(count: nat, input: Bytes): Result<(seq<nat>, Bytes), RevocationError> {
    if count == 0 then Ok(([], input)) else
    var first :- Shape(ReadId(input));
    var rest :- DecodeNodes(count - 1, first.1);
    Ok(([first.0] + rest.0, rest.1))
  }

  /** The loop that reads the identifiers. */
  method ReadNodes(count: nat, input: Bytes) returns (result: Result<(seq<nat>, Bytes), RevocationError>)
    ensures result == DecodeNodes(count, input)
  {
    hide ReadId;
    var nodes: seq<nat> := [];
    var rest := input;
    ghost var all := DecodeNodes(count, input);
    assert all.Ok? ==> [] + all.value.0 == all.value.0;
    for i := 0 to count
      invariant DecodeNodes(count, input) == match DecodeNodes(count - i, rest)
                                             case Err(error) => Err(error)
                                             case Ok(more) => Ok((nodes + more.0, more.1))
    {
      var read := Shape(ReadId(rest));
      if read.Err? {
        return Err(read.error);
      }
      ghost var more := DecodeNodes(count - i - 1, read.value.1);
      if more.Ok? {
        Assoc(nodes, [read.value.0], more.value.0);
      }
      nodes := nodes + [read.value.0];
      rest := read.value.1;
    }
    assert nodes + [] == nodes;
    return Ok((nodes, rest));
  }

  /** Field by field, then the shape, then the bytes again. */
  function DecodeList(input: Bytes): (result: Result<RevocationList, RevocationError>)
    ensures result.Ok? ==> Typed(result.value) && ValidateShape(result.value).Ok? && EncodeList(result.value) == input
  {
    var fields :- Shape(ReadArray(input));
    if fields.0 != LIST_FIELDS then Err(MalformedBytes) else
    var version :- Shape(ReadUnsigned(fields.1, 0xFFFF));
    var hive :- Shape(ReadId(version.1));
    var serial :- Shape(ReadUnsigned(hive.1, U64_MAX));
    var issuedAt :- Shape(ReadUnsigned(serial.1, U64_MAX));
    var count :- Shape(ReadArray(issuedAt.1));
    if count.0 > MAX_REVOKED_NODES then Err(Oversized) else
    var nodes :- DecodeNodes(count.0, count.1);
    if nodes.1 != [] then Err(MalformedBytes) else
    var list := RevocationList(version.0, hive.0, serial.0, issuedAt.0, nodes.0);
    var _ :- ValidateShape(list);
    DecodedNodesTyped(count.0, count.1);
    if EncodeList(list) != input then Err(NonCanonical) else Ok(list)
  }

  function DecodeSigned(input: Bytes): Result<SignedRevocations, RevocationError> {
    if input == [] || |input| > MAX_SIGNED_REVOCATION_BYTES then Err(Oversized) else
    var fields :- Shape(ReadArray(input));
    if fields.0 != 3 then Err(MalformedBytes) else
    var version :- Shape(ReadUnsigned(fields.1, 0xFFFF));
    if version.0 != SIGNED_VERSION then Err(UnsupportedVersion) else
    var payload :- Shape(ReadBytes(version.1));
    var signature :- Shape(ReadBytes(payload.1));
    if |signature.0| != SIGNATURE_BYTES || signature.1 != [] then Err(MalformedBytes) else
    var list :- DecodeList(payload.0);
    var value := SignedRevocations(list, signature.0);
    var again :- EncodeSigned(value);
    if again != input then Err(NonCanonical) else Ok(value)
  }

  // ---------- the codec is exact ----------

  lemma {:induction false} NodesRoundTrip(nodes: seq<nat>, rest: Bytes)
    requires forall i :: 0 <= i < |nodes| ==> IsId(nodes[i])
    ensures DecodeNodes(|nodes|, EncodeNodes(nodes) + rest) == Ok((nodes, rest))
  {
    hide Id, ReadId, IsId;
    if nodes == [] {
      assert EncodeNodes(nodes) + rest == rest;
    } else {
      Assoc(Id(nodes[0]), EncodeNodes(nodes[1..]), rest);
      ReadsId(nodes[0], EncodeNodes(nodes[1..]) + rest);
      NodesRoundTrip(nodes[1..], rest);
      assert nodes == [nodes[0]] + nodes[1..];
    }
  }

  /** A list of 256 nodes is 8761 bytes. */
  lemma ListSize(list: RevocationList)
    requires Typed(list) && ValidateShape(list).Ok?
    ensures |EncodeList(list)| <= 57 + 34 * |list.revokedNodes| <= 8761
  {
    hide Head, Id, IsId;
    HeadSize(ARRAY, LIST_FIELDS);
    HeadSize(UNSIGNED, list.version);
    HeadSize(ARRAY, |list.revokedNodes|);
  }

  lemma ListRoundTrip(list: RevocationList)
    requires Typed(list) && ValidateShape(list).Ok?
    ensures DecodeList(EncodeList(list)) == Ok(list)
  {
    hide Head, Id, ReadArray, ReadUnsigned, ReadId, EncodeNodes, DecodeNodes, IsId, StrictlyAscending;
    var nodes := EncodeNodes(list.revokedNodes);
    var count := Head(ARRAY, |list.revokedNodes|) + nodes;
    var issuedAt := Head(UNSIGNED, list.issuedAt) + count;
    var serial := Head(UNSIGNED, list.serial) + issuedAt;
    var hive := Id(list.hive) + serial;
    var version := Head(UNSIGNED, list.version) + hive;
    ReadsArray(LIST_FIELDS, version);
    ReadsUnsigned(list.version, 0xFFFF, hive);
    ReadsId(list.hive, serial);
    ReadsUnsigned(list.serial, U64_MAX, issuedAt);
    ReadsUnsigned(list.issuedAt, U64_MAX, count);
    ReadsArray(|list.revokedNodes|, nodes);
    NodesRoundTrip(list.revokedNodes, []);
    assert nodes + [] == nodes;
  }

  lemma {:induction false} DecodedNodesTyped(count: nat, input: Bytes)
    requires DecodeNodes(count, input).Ok?
    ensures forall i :: 0 <= i < |DecodeNodes(count, input).value.0| ==> IsId(DecodeNodes(count, input).value.0[i])
  {
    hide IsId, ReadId;
    if count > 0 {
      DecodedNodesTyped(count - 1, ReadId(input).value.1);
    }
  }

  /** Every valid snapshot with a full signature encodes, and never too large. */
  lemma EncodeSucceeds(value: SignedRevocations)
    requires Typed(value.list) && ValidateShape(value.list).Ok? && |value.signature| == SIGNATURE_BYTES
    ensures EncodeSigned(value).Ok?
    ensures |EncodeSigned(value).value| <= 8832
    ensures EncodeSigned(value).value == Envelope(EncodeList(value.list), value.signature)
  {
    hide Head, EncodeList, Typed, ValidateShape;
    ListSize(value.list);
    HeadSize(ARRAY, 3);
    HeadSize(UNSIGNED, SIGNED_VERSION);
    ByteStringSize(EncodeList(value.list));
    ByteStringSize(value.signature);
  }

  lemma ByteStringSize(b: Bytes)
    requires |b| < 0x1_0000
    ensures |ByteString(b)| <= |b| + (if |b| < 0x100 then 2 else 3)
  {
    hide Head;
    HeadSize(BYTES, |b|);
  }

  /** The codec is exact: bytes decode to a snapshot exactly when the snapshot is
      valid and the bytes are its encoding. */
  lemma CodecExact(input: Bytes, value: SignedRevocations)
    ensures DecodeSigned(input) == Ok(value) <==>
            Typed(value.list) && ValidateShape(value.list).Ok? && |value.signature| == SIGNATURE_BYTES &&
            EncodeSigned(value) == Ok(input)
  {
    hide Head, DecodeList, EncodeList, ReadArray, ReadUnsigned, ReadBytes, ByteString, Typed, ValidateShape;
    if Typed(value.list) && EncodeSigned(value) == Ok(input) {
      EncodeSucceeds(value);
      var signature := ByteString(value.signature);
      var payload := ByteString(EncodeList(value.list)) + signature;
      var version := Head(UNSIGNED, SIGNED_VERSION) + payload;
      ReadsArray(3, version);
      ReadsUnsigned(SIGNED_VERSION, 0xFFFF, payload);
      ReadsBytes(EncodeList(value.list), signature);
      ReadsBytes(value.signature, []);
      assert signature + [] == signature;
      ListRoundTrip(value.list);
    }
  }
}
