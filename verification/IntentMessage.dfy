/** The bytes an enclave signs and the Move module reconstructs: the BCS encoding of
    `IntentMessage { intent: u8, timestamp_ms: u64, payload: vector<u8> }`, that is, one
    byte, eight little-endian bytes, the payload length in ULEB128, and the payload. */
module IntentMessage {
  import opened Common
  import opened ByteOrder

  const U64: nat := 0x1_0000_0000_0000_0000
  /** BCS limits the length of a sequence to 2^31 - 1. */
  const MAX_SEQUENCE: nat := 0x7fff_ffff

  datatype Message = Message(intent: Byte, timestampMs: nat, payload: seq<Byte>)

  predicate Typed(m: Message) {
    m.timestampMs < U64
  }

  function Uleb(n: nat): seq<Byte>
  {
    if n < 128 then [n] else [128 + n % 128] + Uleb(n / 128)
  }

  function ToBytes(m: Message): Result<seq<Byte>, string>
  {
    if |m.payload| > MAX_SEQUENCE then Err("exceeded max sequence length")
    else Ok([m.intent] + LittleEndian(m.timestampMs, 8) + Uleb(|m.payload|) + m.payload)
  }

  // ---------- reading the bytes back ----------

  /** The number a ULEB128 prefix stands for and what follows it; BCS admits only the
      shortest form, whose last byte is not zero unless it is the only one. */
  function ReadUleb(b: seq<Byte>): (r: Option<(nat, seq<Byte>)>)
    ensures r.Some? ==> |r.value.1| < |b|
  {
    if b == [] then None
    else if b[0] < 128 then Some((b[0], b[1..]))
    else
      match ReadUleb(b[1..])
      case None => None
      case Some((high, rest)) =>
        if high == 0 then None else Some((b[0] - 128 + 128 * high, rest))
  }

  function FromBytes(b: seq<Byte>): Option<Message>
  {
    if |b| < 9 then None
    else
      match ReadUleb(b[9..])
      case None => None
      case Some((n, rest)) =>
        if n != |rest| || n > MAX_SEQUENCE then None
        else Some(Message(b[0], LittleEndianValue(b[1..9]), rest))
  }

  lemma {:induction false} ReadUlebOfUleb(n: nat, rest: seq<Byte>)
    ensures ReadUleb(Uleb(n) + rest) == Some((n, rest))
  {
    var b := Uleb(n) + rest;
    if n < 128 {
      assert b[1..] == rest;
    } else {
      ReadUlebOfUleb(n / 128, rest);
      assert b[1..] == Uleb(n / 128) + rest;
    }
  }

  lemma {:induction false} UlebOfReadUleb(b: seq<Byte>)
    requires ReadUleb(b).Some?
    ensures b == Uleb(ReadUleb(b).value.0) + ReadUleb(b).value.1
  {
    if b[0] >= 128 {
      UlebOfReadUleb(b[1..]);
      var (high, rest) := ReadUleb(b[1..]).value;
      var n := ReadUleb(b).value.0;
      assert n / 128 == high && n % 128 == b[0] - 128;
      assert b == [b[0]] + b[1..];
    }
  }

  lemma U64IsEightBytes()
    ensures Pow(256, 8) == U64
  {
    assert Pow(256, 2) == 0x1_0000;
    assert Pow(256, 4) == 0x1_0000_0000;
    assert Pow(256, 6) == 0x1_0000_0000_0000;
  }

  /** Every message can be read back from its bytes. */
  lemma RoundTrip(m: Message)
    requires Typed(m) && ToBytes(m).Ok?
    ensures FromBytes(ToBytes(m).value) == Some(m)
  {
    var b := ToBytes(m).value;
    var tail := Uleb(|m.payload|) + m.payload;
    assert b[1..9] == LittleEndian(m.timestampMs, 8);
    assert b[9..] == tail;
    U64IsEightBytes();
    ValueOfLittleEndian(m.timestampMs, 8);
    ReadUlebOfUleb(|m.payload|, m.payload);
  }

  /** Nothing but an encoding can be read: a message has exactly one byte string. */
  lemma OnlyEncodings(b: seq<Byte>)
    requires FromBytes(b).Some?
    ensures ToBytes(FromBytes(b).value) == Ok(b)
  {
    UlebOfReadUleb(b[9..]);
    LittleEndianUnique(b[1..9]);
    var m := FromBytes(b).value;
    assert b[9..] == Uleb(|m.payload|) + m.payload;
    assert LittleEndian(m.timestampMs, 8) == b[1..9];
    assert b == [b[0]] + b[1..9] + b[9..];
    assert ToBytes(m).value == b;
  }

  /** Messages that differ in any field, the intent scope above all, have different bytes. */
  lemma Injective(m: Message, n: Message)
    requires Typed(m) && Typed(n) && ToBytes(m).Ok? && ToBytes(m) == ToBytes(n)
    ensures m == n
  {
    RoundTrip(m);
    RoundTrip(n);
  }

  /** What is signed: the scope, the time with its least significant byte first, the length and the
      payload. A 32-byte hash makes 42 bytes. Only payloads beyond the limit of BCS have none. */
  lemma Layout(m: Message)
    ensures ToBytes(m).Ok? <==> |m.payload| <= 0x7fff_ffff
    ensures ToBytes(m).Ok? ==>
              var b := ToBytes(m).value;
              && |b| >= 10 + |m.payload| && b[0] == m.intent && b[|b| - |m.payload|..] == m.payload
              && (forall i :: 0 <= i < 8 ==> Pow(256, i) > 0 && b[1 + i] == m.timestampMs / Pow(256, i) % 256)
              && (|m.payload| < 128 ==> |b| == 10 + |m.payload| && b[9] == |m.payload|)
  {
    if ToBytes(m).Ok? {
      var b := ToBytes(m).value;
      var time := LittleEndian(m.timestampMs, 8);
      forall i | 0 <= i < 8
        ensures Pow(256, i) > 0 && b[1 + i] == m.timestampMs / Pow(256, i) % 256
      {
        DigitAt(m.timestampMs, 8, i);
        assert b[1 + i] == time[i];
      }
    }
  }

  // ---------- the relayer signs, the contract verifies ----------

  type Key = seq<Byte>
  type Signature = seq<Byte>

  /** What `sign_response` hands to the signer: the hash of the response body under the
      endpoint's intent scope. */
  function SignedBytes(intent: Byte, timestampMs: nat, bodyHash: seq<Byte>): Result<seq<Byte>, string> {
    ToBytes(Message(intent, timestampMs, bodyHash))
  }

  /** `verify_signature` of the Move module, over an arbitrary Ed25519 check. */
  predicate VerifySignature(
    ed25519Verify: (Signature, Key, seq<Byte>) -> bool,
    pk: Key, intentScope: Byte, timestampMs: nat, payload: seq<Byte>, signature: Signature)
  {
    match ToBytes(Message(intentScope, timestampMs, payload))
    case Ok(bytes) => ed25519Verify(signature, pk, bytes)
    case Err(_) => false
  }

  /** If a signature checks out for the signed bytes and for no others, the contract
      accepts it for the signed scope, time and hash and for no others. */
  lemma VerifiesExactlyWhatWasSigned(
    ed25519Verify: (Signature, Key, seq<Byte>) -> bool, pk: Key, signature: Signature, signed: Message, claim: Message)
    requires Typed(signed) && Typed(claim) && ToBytes(signed).Ok?
    requires forall b :: ed25519Verify(signature, pk, b) <==> Ok(b) == SignedBytes(signed.intent, signed.timestampMs, signed.payload)
    ensures VerifySignature(ed25519Verify, pk, claim.intent, claim.timestampMs, claim.payload, signature)
            <==> claim == signed
  {
    if ToBytes(claim).Ok? && ToBytes(claim) == ToBytes(signed) {
      Injective(claim, signed);
    }
  }
}
