/**
 The x402 payment header: a serialised Solana transaction. The parser walks the bytes with a cursor; this
 module describes the wire format independently and proves that the parser accepts exactly the well-formed,
 correctly signed transactions and returns their parts. Ed25519 verification is a parameter.
 */
module X402 {
  import opened Results
  import Base58
  import opened Base64

  const SIGNATURE_LENGTH := 64
  const PUBKEY_LENGTH := 32
  const BLOCKHASH_LENGTH := 32
  const MAX_BLOB_BYTES := 1232
  const VERSIONED_PREFIX_MASK := 0x80

  type Verifier = (Bytes, Bytes, Bytes) -> bool

  datatype ErrorCode =
    | InvalidEncoding
    | MalformedTransaction
    | UnsupportedVersion
    | MissingSignatures
    | InvalidSignature

  datatype Info = Info(
    feePayer: string,
    signers: seq<string>,
    signatures: seq<string>,
    recentBlockhash: string,
    isVersioned: bool,
    version: Option<nat>,
    rawTransaction: Bytes,
    messageBytes: Bytes)

  // ---------------------------------------------------------------- compact-u16

  datatype Compact = Compact(value: nat, bytesRead: nat)

  /** Seven bits a byte, least significant first, at most three bytes. */
  function CompactFrom(buf: Bytes, offset: nat, i: nat): (r: Result<Compact, ErrorCode>)
    requires i <= 3
    ensures r.Ok? ==> i < r.value.bytesRead <= 3 && offset + r.value.bytesRead <= |buf|
    ensures r.Err? ==> r.error == MalformedTransaction
    decreases 3 - i
  {
    if i == 3 || offset + i >= |buf| then Err(MalformedTransaction)
    else if buf[offset + i] < 128 then Ok(Compact(buf[offset + i], i + 1))
    else
      match CompactFrom(buf, offset, i + 1)
      case Err(e) => Err(e)
      case Ok(rest) => Ok(Compact(buf[offset + i] % 128 + 128 * rest.value, rest.bytesRead))
  }

  function Shl(x: nat, shift: nat): nat {
    if shift == 0 then x else 2 * Shl(x, shift - 1)
  }

  lemma {:induction false} ShlSum(x: nat, y: nat, shift: nat)
    ensures Shl(x + y, shift) == Shl(x, shift) + Shl(y, shift)
    ensures Shl(128 * x, shift) == Shl(x, shift + 7)
  {
    if shift > 0 {
      ShlSum(x, y, shift - 1);
    } else {
      assert Shl(x, 1) == 2 * x && Shl(x, 2) == 4 * x && Shl(x, 3) == 8 * x && Shl(x, 4) == 16 * x;
      assert Shl(x, 5) == 32 * x && Shl(x, 6) == 64 * x;
    }
  }

  /** The bytes read so far contribute `value`; what follows is shifted above it. */
  function Adding(value: nat, shift: nat, rest: Result<Compact, ErrorCode>): Result<Compact, ErrorCode> {
    match rest
    case Err(e) => Err(e)
    case Ok(c) => Ok(Compact(value + Shl(c.value, shift), c.bytesRead))
  }

  lemma AddingStep(buf: Bytes, offset: nat, i: nat, value: nat, shift: nat)
    requires i < 3 && offset + i < |buf| && value < Shl(1, shift)
    ensures var here, rest := buf[offset + i], CompactFrom(buf, offset, i + 1);
      && value + Shl(here % 128, shift) < Shl(1, shift + 7)
      && Adding(value, shift, CompactFrom(buf, offset, i))
         == if here < 128 then Ok(Compact(value + Shl(here % 128, shift), i + 1))
            else Adding(value + Shl(here % 128, shift), shift + 7, rest)
  {
    hide Shl;
    ShlBound(buf[offset + i] % 128, shift);
    if CompactFrom(buf, offset, i + 1).Ok? {
      var rest := CompactFrom(buf, offset, i + 1).value.value;
      ShlSum(buf[offset + i] % 128, 128 * rest, shift);
      ShlSum(rest, 0, shift);
    }
  }

  /** The loop of the reader; the shifted groups never overlap, so or-ing them in is addition. */
  method ReadCompactU16(buf: Bytes, offset: nat) returns (r: Result<Compact, ErrorCode>)
    ensures r == CompactFrom(buf, offset, 0)
  {
    var value: nat, shift: nat := 0, 0;
    for i := 0 to 3
      invariant value < Shl(1, shift)
      invariant CompactFrom(buf, offset, 0) == Adding(value, shift, CompactFrom(buf, offset, i))
    {
      if offset + i >= |buf| {
        return Err(MalformedTransaction);
      }
      var byte := buf[offset + i];
      AddingStep(buf, offset, i, value, shift);
      value := value + Shl(byte % 128, shift);
      if byte < 128 {
        return Ok(Compact(value, i + 1));
      }
      shift := shift + 7;
    }
    return Err(MalformedTransaction);
  }

  lemma {:induction false} ShlBound(x: nat, shift: nat)
    requires x < 128
    ensures Shl(1, shift) + Shl(x, shift) <= Shl(1, shift + 7)
  {
    if shift > 0 {
      ShlBound(x, shift - 1);
    } else {
      assert Shl(1, 1) == 2 && Shl(1, 2) == 4 && Shl(1, 3) == 8;
      assert Shl(1, 4) == 16 && Shl(1, 5) == 32 && Shl(1, 6) == 64;
    }
  }

  function CompactValue(b: Bytes): nat {
    if b == [] then 0 else b[0] % 128 + 128 * CompactValue(b[1..])
  }

  /** A chain of continuation bytes closed by one below 128; leading zero groups are tolerated. */
  predicate IsCompact(b: Bytes) {
    1 <= |b| <= 3 && b[|b| - 1] < 128 && forall i | 0 <= i < |b| - 1 :: b[i] >= 128
  }

  lemma {:induction false} CompactReads(buf: Bytes, offset: nat, i: nat, n: nat)
    requires i < n <= 3 && offset + n <= |buf| && IsCompact(buf[offset..offset + n])
    ensures CompactFrom(buf, offset, i) == Ok(Compact(CompactValue(buf[offset + i..offset + n]), n))
    decreases n - i
  {
    hide CompactValue;
    assert buf[offset..offset + n][i] == buf[offset + i];
    CompactCons(buf, offset + i, offset + n);
    if i + 1 < n {
      CompactReads(buf, offset, i + 1, n);
    } else {
      assert buf[offset + i + 1..offset + n] == [];
      CompactNothing();
    }
  }

  lemma CompactCons(buf: Bytes, from: nat, to: nat)
    requires from < to <= |buf|
    ensures CompactValue(buf[from..to]) == buf[from] % 128 + 128 * CompactValue(buf[from + 1..to])
  {
    assert buf[from..to][1..] == buf[from + 1..to];
  }

  lemma {:induction false} CompactWasThere(buf: Bytes, offset: nat, i: nat)
    requires i < 3 && CompactFrom(buf, offset, i).Ok?
    ensures var r := CompactFrom(buf, offset, i).value;
      && (forall j | offset + i <= j < offset + r.bytesRead - 1 :: buf[j] >= 128) && buf[offset + r.bytesRead - 1] < 128
      && r.value == CompactValue(buf[offset + i..offset + r.bytesRead])
    decreases 3 - i
  {
    hide CompactValue;
    var n := CompactFrom(buf, offset, i).value.bytesRead;
    CompactCons(buf, offset + i, offset + n);
    if buf[offset + i] >= 128 {
      CompactWasThere(buf, offset, i + 1);
    } else {
      assert buf[offset + i + 1..offset + n] == [];
      CompactNothing();
    }
  }

  lemma CompactNothing()
    ensures CompactValue([]) == 0
  {
  }

  /** The shortest encoding, as serialisers write it. */
  function CompactBytes(n: nat): Bytes {
    if n < 128 then [n] else [n % 128 + 128] + CompactBytes(n / 128)
  }

  lemma {:induction false} CompactShort(n: nat)
    ensures n < 128 ==> |CompactBytes(n)| == 1
    ensures n < 16384 ==> |CompactBytes(n)| <= 2
    ensures n < 0x20_0000 ==> |CompactBytes(n)| <= 3
  {
    if n >= 128 {
      CompactShort(n / 128);
    }
  }

  lemma {:induction false} CompactChain(n: nat)
    ensures var b := CompactBytes(n);
      b != [] && b[|b| - 1] < 128 && (forall i | 0 <= i < |b| - 1 :: b[i] >= 128) && CompactValue(b) == n
  {
    var b := CompactBytes(n);
    if n < 128 {
      assert b[1..] == [];
    } else {
      CompactChain(n / 128);
      assert b[1..] == CompactBytes(n / 128);
    }
  }

  lemma CompactBytesFit(n: nat)
    requires n < 0x20_0000
    ensures IsCompact(CompactBytes(n)) && CompactValue(CompactBytes(n)) == n
  {
    hide CompactBytes, CompactValue;
    CompactShort(n);
    CompactChain(n);
  }

  // ---------------------------------------------------------------- fixed-width sections

  predicate IsWidth(width: nat) {
    width == SIGNATURE_LENGTH || width == PUBKEY_LENGTH
  }

  /** `n` consecutive pieces of `width` bytes. */
  function Pieces(buf: Bytes, offset: nat, n: nat, width: nat): (p: seq<Bytes>)
    requires IsWidth(width) && offset + n * width <= |buf|
    ensures |p| == n && forall i | 0 <= i < n :: |p[i]| == width
  {
    if n == 0 then []
    else
      var at := offset + (n - 1) * width;
      Pieces(buf, offset, n - 1, width) + [buf[at..at + width]]
  }

  function Concat(parts: seq<Bytes>): Bytes {
    if parts == [] then [] else Concat(parts[..|parts| - 1]) + parts[|parts| - 1]
  }

  predicate AllOf(parts: seq<Bytes>, width: nat) {
    forall i | 0 <= i < |parts| :: |parts[i]| == width
  }

  lemma {:induction false} ConcatLength(parts: seq<Bytes>, width: nat)
    requires IsWidth(width) && AllOf(parts, width)
    ensures |Concat(parts)| == |parts| * width
  {
    if parts != [] {
      ConcatLength(parts[..|parts| - 1], width);
    }
  }

  lemma {:induction false} ConcatOfPieces(buf: Bytes, offset: nat, n: nat, width: nat)
    requires IsWidth(width) && offset + n * width <= |buf|
    ensures Concat(Pieces(buf, offset, n, width)) == buf[offset..offset + n * width]
  {
    if n > 0 {
      var at, p := offset + (n - 1) * width, Pieces(buf, offset, n, width);
      ConcatOfPieces(buf, offset, n - 1, width);
      assert p[..n - 1] == Pieces(buf, offset, n - 1, width);
      Joined(buf, offset, at, at + width);
    }
  }

  lemma Joined(buf: Bytes, from: nat, mid: nat, to: nat)
    requires from <= mid <= to <= |buf|
    ensures buf[from..mid] + buf[mid..to] == buf[from..to]
  {
  }

  lemma {:induction false} PiecesOfConcat(buf: Bytes, offset: nat, parts: seq<Bytes>, width: nat)
    requires IsWidth(width) && AllOf(parts, width) && offset + |parts| * width <= |buf|
    requires buf[offset..offset + |parts| * width] == Concat(parts)
    ensures Pieces(buf, offset, |parts|, width) == parts
  {
    if parts != [] {
      var n := |parts| - 1;
      var at := offset + n * width;
      ConcatLength(parts[..n], width);
      var whole := buf[offset..offset + |parts| * width];
      assert whole[..n * width] == Concat(parts[..n]) && whole[n * width..] == parts[n];
      assert whole[..n * width] == buf[offset..at] && whole[n * width..] == buf[at..at + width];
      PiecesOfConcat(buf, offset, parts[..n], width);
    }
  }

  // ---------------------------------------------------------------- the parser, on values

  datatype Parts = Parts(signatures: seq<Bytes>, messageStart: nat, versioned: bool, keys: seq<Bytes>, blockhash: Bytes)

  /** Signature section: its pieces and where the message starts. */
  function SplitSignatures(raw: Bytes): (r: Result<(seq<Bytes>, nat), ErrorCode>)
    ensures r.Ok? ==> 1 <= |r.value.0| && r.value.1 <= |raw|
  {
    if |raw| > MAX_BLOB_BYTES then Err(MalformedTransaction)
    else
      match CompactFrom(raw, 0, 0)
      case Err(e) => Err(e)
      case Ok(count) =>
        if count.value == 0 then Err(MissingSignatures)
        else if |raw| < count.bytesRead + count.value * SIGNATURE_LENGTH then Err(MalformedTransaction)
        else Ok((Pieces(raw, count.bytesRead, count.value, SIGNATURE_LENGTH),
          count.bytesRead + count.value * SIGNATURE_LENGTH))
  }

  /** Account keys and block hash, from the key count on. */
  function SplitKeys(raw: Bytes, cursor: nat, required: nat): (r: Result<(seq<Bytes>, Bytes), ErrorCode>)
    ensures r.Ok? ==> required <= |r.value.0| && |r.value.1| == BLOCKHASH_LENGTH
  {
    match CompactFrom(raw, cursor, 0)
    case Err(e) => Err(e)
    case Ok(count) =>
      var start := cursor + count.bytesRead;
      if count.value < required then Err(MalformedTransaction)
      else if |raw| < start + count.value * PUBKEY_LENGTH then Err(MalformedTransaction)
      else
        var end := start + count.value * PUBKEY_LENGTH;
        if |raw| < end + BLOCKHASH_LENGTH then Err(MalformedTransaction)
        else Ok((Pieces(raw, start, count.value, PUBKEY_LENGTH), raw[end..end + BLOCKHASH_LENGTH]))
  }

  function Split(raw: Bytes): (r: Result<Parts, ErrorCode>)
    ensures r.Ok? ==> 1 <= |r.value.signatures| <= |r.value.keys| && r.value.messageStart <= |raw|
    ensures r.Ok? ==> |r.value.blockhash| == BLOCKHASH_LENGTH
  {
    match SplitSignatures(raw)
    case Err(e) => Err(e)
    case Ok((signatures, start)) =>
      if |raw| <= start then Err(MalformedTransaction)
      else
        var versioned := raw[start] >= VERSIONED_PREFIX_MASK;
        if versioned && raw[start] % 128 != 0 then Err(UnsupportedVersion)
        else
          var header := if versioned then start + 1 else start;
          if |raw| < header + 3 || raw[header] != |signatures| then Err(MalformedTransaction)
          else
            match SplitKeys(raw, header + 3, |signatures|)
            case Err(e) => Err(e)
            case Ok((keys, blockhash)) => Ok(Parts(signatures, start, versioned, keys, blockhash))
  }

  const ZERO_SIGNATURE: Bytes := seq(SIGNATURE_LENGTH, _ => 0)

  /** First signer that is refused, if any. */
  function Refusal(p: Parts, message: Bytes, verify: Verifier, i: nat): Option<ErrorCode>
    requires i <= |p.signatures| <= |p.keys|
    decreases |p.signatures| - i
  {
    if i == |p.signatures| then None
    else if p.signatures[i] == ZERO_SIGNATURE then Some(MissingSignatures)
    else if !verify(p.keys[i], message, p.signatures[i]) then Some(InvalidSignature)
    else Refusal(p, message, verify, i + 1)
  }

  function Text(b: Bytes): string {
    Base58.Encode(b)
  }

  function Texts(parts: seq<Bytes>): seq<string> {
    seq(|parts|, i requires 0 <= i < |parts| => Text(parts[i]))
  }

  function Describe(raw: Bytes, p: Parts): Info
    requires 1 <= |p.signatures| <= |p.keys| && p.messageStart <= |raw|
  {
    var signers := Texts(p.keys[..|p.signatures|]);
    Info(signers[0], signers, Texts(p.signatures), Text(p.blockhash),
         p.versioned, if p.versioned then Some(0) else None, raw, raw[p.messageStart..])
  }

  function Parse(raw: Bytes, verify: Verifier): Result<Info, ErrorCode> {
    match Split(raw)
    case Err(e) => Err(e)
    case Ok(p) =>
      match Refusal(p, raw[p.messageStart..], verify, 0)
      case Some(e) => Err(e)
      case None => Ok(Describe(raw, p))
  }

  function ParseHeader(headerValue: string, decoder: Decoder, verify: Verifier): Result<Info, ErrorCode> {
    match Decode(headerValue, decoder)
    case None => Err(InvalidEncoding)
    case Some(raw) => Parse(raw, verify)
  }

  // ---------------------------------------------------------------- the parser, with its cursor

  method ReadPieces(raw: Bytes, from: nat, n: nat, width: nat) returns (pieces: seq<Bytes>, cursor: nat)
    requires IsWidth(width) && from + n * width <= |raw|
    ensures pieces == Pieces(raw, from, n, width) && cursor == from + n * width
  {
    pieces, cursor := [], from;
    for i := 0 to n
      invariant pieces == Pieces(raw, from, i, width) && cursor == from + i * width
    {
      assert i * width + width == (i + 1) * width <= n * width by {
        MulMonotone(i + 1, n, width);
      }
      pieces := pieces + [raw[cursor..cursor + width]];
      cursor := cursor + width;
    }
  }

  lemma MulMonotone(a: nat, b: nat, width: nat)
    requires IsWidth(width) && a <= b
    ensures a * width <= b * width
  {
  }

  method ParseX402Payment(headerValue: string, decoder: Decoder, verify: Verifier) returns (r: Result<Info, ErrorCode>)
    ensures r == ParseHeader(headerValue, decoder, verify)
  {
    hide Parse, Decode;
    var raw := Decode(headerValue, decoder);
    if raw.None? {
      return Err(InvalidEncoding);
    }
    r := ParseTransaction(raw.value, verify);
  }

  /** The part of the parser that follows the decoding of the header. */
  method ParseTransaction(raw: Bytes, verify: Verifier) returns (r: Result<Info, ErrorCode>)
    ensures r == Parse(raw, verify)
  {
    hide CompactFrom, Pieces, Text, Texts, Refusal;
    if |raw| > MAX_BLOB_BYTES {
      return Err(MalformedTransaction);
    }
    var cursor := 0;
    var sigCount := ReadCompactU16(raw, cursor);
    if sigCount.Err? {
      return Err(sigCount.error);
    }
    cursor := cursor + sigCount.value.bytesRead;
    if sigCount.value.value == 0 {
      return Err(MissingSignatures);
    }
    if |raw| < cursor + sigCount.value.value * SIGNATURE_LENGTH {
      return Err(MalformedTransaction);
    }
    var signatures, messageStart := ReadPieces(raw, cursor, sigCount.value.value, SIGNATURE_LENGTH);
    assert SplitSignatures(raw) == Ok((signatures, messageStart));
    cursor := messageStart;
    if |raw| <= messageStart {
      return Err(MalformedTransaction);
    }
    var isVersioned := false;
    if raw[messageStart] >= VERSIONED_PREFIX_MASK {
      isVersioned := true;
      if raw[messageStart] % 128 != 0 {
        return Err(UnsupportedVersion);
      }
      cursor := cursor + 1;
    }
    if |raw| < cursor + 3 {
      return Err(MalformedTransaction);
    }
    var numRequiredSignatures := raw[cursor];
    cursor := cursor + 3;
    if numRequiredSignatures != sigCount.value.value {
      return Err(MalformedTransaction);
    }
    var numKeys := ReadCompactU16(raw, cursor);
    if numKeys.Err? {
      return Err(numKeys.error);
    }
    cursor := cursor + numKeys.value.bytesRead;
    if numKeys.value.value < numRequiredSignatures {
      return Err(MalformedTransaction);
    }
    if |raw| < cursor + numKeys.value.value * PUBKEY_LENGTH {
      return Err(MalformedTransaction);
    }
    var accountKeys, keysEnd := ReadPieces(raw, cursor, numKeys.value.value, PUBKEY_LENGTH);
    cursor := keysEnd;
    if |raw| < cursor + BLOCKHASH_LENGTH {
      return Err(MalformedTransaction);
    }
    var blockhash := raw[cursor..cursor + BLOCKHASH_LENGTH];
    var parts := Parts(signatures, messageStart, isVersioned, accountKeys, blockhash);
    assert Split(raw) == Ok(parts);
    var refused := CheckSigners(parts, raw[messageStart..], verify);
    if refused.Some? {
      return Err(refused.value);
    }
    return Ok(Describe(raw, parts));
  }

  method CheckSigners(p: Parts, message: Bytes, verify: Verifier) returns (refused: Option<ErrorCode>)
    requires |p.signatures| <= |p.keys|
    ensures refused == Refusal(p, message, verify, 0)
  {
    for i := 0 to |p.signatures|
      invariant Refusal(p, message, verify, 0) == Refusal(p, message, verify, i)
    {
      if p.signatures[i] == ZERO_SIGNATURE {
        return Some(MissingSignatures);
      }
      if !verify(p.keys[i], message, p.signatures[i]) {
        return Some(InvalidSignature);
      }
    }
    return None;
  }

  // ---------------------------------------------------------------- the wire format

  /** A transaction with the encodings of its two counts; `rest` holds the instructions, which are not parsed. */
  datatype Wire = Wire(
    sigCount: Bytes,
    signatures: seq<Bytes>,
    versioned: bool,
    readonly: Bytes,
    keyCount: Bytes,
    keys: seq<Bytes>,
    blockhash: Bytes,
    rest: Bytes)

  function Prefix(versioned: bool): Bytes {
    if versioned then [128] else []
  }

  function Message(w: Wire): Bytes
    requires |w.signatures| < 128
  {
    Prefix(w.versioned) + [|w.signatures|] + w.readonly + w.keyCount + Concat(w.keys) + w.blockhash + w.rest
  }

  function Serialise(w: Wire): Bytes
    requires |w.signatures| < 128
  {
    w.sigCount + Concat(w.signatures) + Message(w)
  }

  /** The shape of a transaction: counts agree with contents, and the whole fits in one packet. */
  predicate Shaped(w: Wire) {
    && 1 <= |w.signatures| < 128 && |w.signatures| <= |w.keys|
    && AllOf(w.signatures, SIGNATURE_LENGTH) && AllOf(w.keys, PUBKEY_LENGTH)
    && IsCompact(w.sigCount) && CompactValue(w.sigCount) == |w.signatures|
    && IsCompact(w.keyCount) && CompactValue(w.keyCount) == |w.keys|
    && |w.readonly| == 2 && |w.blockhash| == BLOCKHASH_LENGTH
    && |Serialise(w)| <= MAX_BLOB_BYTES
  }

  /** Every signature slot is filled and verifies over the message under the key in the same place. */
  predicate Signed(w: Wire, verify: Verifier)
    requires |w.signatures| < 128 && |w.signatures| <= |w.keys|
  {
    forall i | 0 <= i < |w.signatures| ::
      w.signatures[i] != ZERO_SIGNATURE && verify(w.keys[i], Message(w), w.signatures[i])
  }

  function PartsOf(w: Wire): Parts {
    Parts(w.signatures, |w.sigCount| + |Concat(w.signatures)|, w.versioned, w.keys, w.blockhash)
  }

  lemma {:induction false} RefusalIff(p: Parts, message: Bytes, verify: Verifier, i: nat)
    requires i <= |p.signatures| <= |p.keys|
    ensures Refusal(p, message, verify, i).None? <==>
      forall j | i <= j < |p.signatures| :: p.signatures[j] != ZERO_SIGNATURE && verify(p.keys[j], message,
        p.signatures[j])
    decreases |p.signatures| - i
  {
    if i < |p.signatures| {
      RefusalIff(p, message, verify, i + 1);
    }
  }

  lemma CompactAt(a: Bytes, count: Bytes, b: Bytes)
    requires IsCompact(count)
    ensures CompactFrom(a + count + b, |a|, 0) == Ok(Compact(CompactValue(count), |count|))
  {
    var buf := a + count + b;
    assert buf[|a|..|a| + |count|] == count;
    CompactReads(buf, |a|, 0, |count|);
  }

  lemma PiecesAt(a: Bytes, parts: seq<Bytes>, b: Bytes, width: nat)
    requires IsWidth(width) && AllOf(parts, width)
    ensures |Concat(parts)| == |parts| * width
    ensures var buf := a + Concat(parts) + b;
      |a| + |parts| * width <= |buf| && Pieces(buf, |a|, |parts|, width) == parts
  {
    ConcatLength(parts, width);
    var buf := a + Concat(parts) + b;
    assert buf[|a|..|a| + |parts| * width] == Concat(parts);
    PiecesOfConcat(buf, |a|, parts, width);
  }

  /** A signature section of at least one signature. */
  predicate Section(sigCount: Bytes, signatures: seq<Bytes>) {
    && IsCompact(sigCount) && CompactValue(sigCount) == |signatures| >= 1 && AllOf(signatures, SIGNATURE_LENGTH)
  }

  lemma SectionSplits(sigCount: Bytes, signatures: seq<Bytes>, rest: Bytes)
    requires Section(sigCount, signatures) && |sigCount + Concat(signatures) + rest| <= MAX_BLOB_BYTES
    ensures SplitSignatures(sigCount + Concat(signatures) + rest)
         == Ok((signatures, |sigCount| + |Concat(signatures)|))
  {
    hide CompactFrom, Pieces, Concat, IsCompact, CompactValue;
    var raw := sigCount + Concat(signatures) + rest;
    assert raw == [] + sigCount + (Concat(signatures) + rest);
    CompactAt([], sigCount, Concat(signatures) + rest);
    PiecesAt(sigCount, signatures, rest, SIGNATURE_LENGTH);
  }

  lemma SplitsKeys(before: Bytes, w: Wire)
    requires IsCompact(w.keyCount) && CompactValue(w.keyCount) == |w.keys| && |w.signatures| <= |w.keys|
    requires AllOf(w.keys, PUBKEY_LENGTH) && |w.blockhash| == BLOCKHASH_LENGTH
    ensures SplitKeys(before + w.keyCount + Concat(w.keys) + w.blockhash + w.rest, |before|, |w.signatures|)
         == Ok((w.keys, w.blockhash))
  {
    hide CompactFrom, Pieces, Concat, IsCompact, CompactValue;
    var raw := before + w.keyCount + Concat(w.keys) + w.blockhash + w.rest;
    assert raw == before + w.keyCount + (Concat(w.keys) + w.blockhash + w.rest);
    CompactAt(before, w.keyCount, Concat(w.keys) + w.blockhash + w.rest);
    assert raw == (before + w.keyCount) + Concat(w.keys) + (w.blockhash + w.rest);
    PiecesAt(before + w.keyCount, w.keys, w.blockhash + w.rest, PUBKEY_LENGTH);
    var end := |before + w.keyCount| + |Concat(w.keys)|;
    assert raw[end..end + BLOCKHASH_LENGTH] == w.blockhash;
  }

  lemma SplitsAll(w: Wire)
    requires Shaped(w)
    ensures Split(Serialise(w)) == Ok(PartsOf(w))
    ensures Serialise(w)[PartsOf(w).messageStart..] == Message(w)
  {
    hide CompactFrom, Pieces, Concat, IsCompact, CompactValue, SplitSignatures, SplitKeys;
    var raw, start := Serialise(w), |w.sigCount| + |Concat(w.signatures)|;
    SectionSplits(w.sigCount, w.signatures, Message(w));
    var head := w.sigCount + Concat(w.signatures);
    assert raw == head + Message(w);
    assert raw[start] == Message(w)[0];
    var header := if w.versioned then start + 1 else start;
    assert raw[header] == Message(w)[header - start] == |w.signatures|;
    var before := head + Prefix(w.versioned) + [|w.signatures|] + w.readonly;
    assert raw == before + w.keyCount + Concat(w.keys) + w.blockhash + w.rest;
    SplitsKeys(before, w);
  }

  /** Every well-formed transaction is split back into its own parts and accepted if it is signed. */
  lemma AcceptsSigned(w: Wire, verify: Verifier)
    requires Shaped(w)
    ensures Parse(Serialise(w), verify).Ok? <==> Signed(w, verify)
    ensures Signed(w, verify) ==> Parse(Serialise(w), verify) == Ok(Describe(Serialise(w), PartsOf(w)))
  {
    hide Serialise, Message, Split, Refusal;
    SplitsAll(w);
    RefusalIff(PartsOf(w), Message(w), verify, 0);
  }

  /** The transaction that an accepted header spells. */
  lemma AcceptedIsSigned(raw: Bytes, verify: Verifier) returns (w: Wire)
    requires Parse(raw, verify).Ok?
    ensures Shaped(w) && raw == Serialise(w) && Signed(w, verify)
    ensures Parse(raw, verify) == Ok(Describe(raw, PartsOf(w)))
    ensures Parse(raw, verify).value.messageBytes == Message(w)
  {
    hide Refusal, Split, Serialise, Message, Text, Texts;
    w := SplitIsShaped(raw);
    SplitsAll(w);
    RefusalIff(PartsOf(w), Message(w), verify, 0);
  }

  lemma SplitIsShaped(raw: Bytes) returns (w: Wire)
    requires Split(raw).Ok?
    ensures Shaped(w) && raw == Serialise(w)
  {
    hide CompactFrom, Pieces, Concat, IsCompact, CompactValue, SplitSignatures, SplitKeys, Serialise, Message;
    var p := Split(raw).value;
    var start, header := p.messageStart, if p.versioned then p.messageStart + 1 else p.messageStart;
    var sigCount := SignaturesWere(raw);
    var keysAt, end := KeysWere(raw, header + 3, |p.signatures|);
    w := Wire(sigCount, p.signatures, p.versioned, raw[header + 1..header + 3], raw[header + 3..keysAt],
              p.keys, p.blockhash, raw[end + BLOCKHASH_LENGTH..]);
    MessageIs(raw, w, start, header, keysAt, end);
    SerialiseIs(raw, w, start);
  }

  lemma SignaturesWere(raw: Bytes) returns (sigCount: Bytes)
    requires SplitSignatures(raw).Ok?
    ensures var (signatures, start) := SplitSignatures(raw).value;
      && IsCompact(sigCount) && CompactValue(sigCount) == |signatures| && AllOf(signatures, SIGNATURE_LENGTH)
      && |signatures| < 128 && |raw| <= MAX_BLOB_BYTES
      && raw[..start] == sigCount + Concat(signatures)
  {
    hide CompactFrom, Concat, IsCompact, CompactValue;
    var count := CompactFrom(raw, 0, 0).value;
    CompactIs(raw, 0);
    ConcatOfPieces(raw, count.bytesRead, count.value, SIGNATURE_LENGTH);
    sigCount := raw[0..count.bytesRead];
    var start := count.bytesRead + count.value * SIGNATURE_LENGTH;
    assert raw[..start] == sigCount + raw[count.bytesRead..start];
  }

  lemma KeysWere(raw: Bytes, cursor: nat, required: nat) returns (keysAt: nat, end: nat)
    requires SplitKeys(raw, cursor, required).Ok?
    ensures var (keys, blockhash) := SplitKeys(raw, cursor, required).value;
      && cursor <= keysAt <= end && end + BLOCKHASH_LENGTH <= |raw|
      && IsCompact(raw[cursor..keysAt]) && CompactValue(raw[cursor..keysAt]) == |keys| && AllOf(keys, PUBKEY_LENGTH)
      && Concat(keys) == raw[keysAt..end] && blockhash == raw[end..end + BLOCKHASH_LENGTH]
  {
    hide CompactFrom, Concat, IsCompact, CompactValue;
    var count := CompactFrom(raw, cursor, 0).value;
    CompactIs(raw, cursor);
    keysAt := cursor + count.bytesRead;
    end := keysAt + count.value * PUBKEY_LENGTH;
    ConcatOfPieces(raw, keysAt, count.value, PUBKEY_LENGTH);
  }

  lemma SerialiseIs(raw: Bytes, w: Wire, start: nat)
    requires |w.signatures| < 128 && start <= |raw|
    requires raw[..start] == w.sigCount + Concat(w.signatures) && raw[start..] == Message(w)
    ensures raw == Serialise(w)
  {
    hide Concat, Message;
    assert raw == raw[..start] + raw[start..];
  }

  lemma CompactIs(raw: Bytes, offset: nat)
    requires CompactFrom(raw, offset, 0).Ok?
    ensures var r := CompactFrom(raw, offset, 0).value;
      var b := raw[offset..offset + r.bytesRead];
      IsCompact(b) && CompactValue(b) == r.value && |b| == r.bytesRead
  {
    CompactWasThere(raw, offset, 0);
  }

  lemma MessageIs(raw: Bytes, w: Wire, start: nat, header: nat, keysAt: nat, end: nat)
    requires |w.signatures| < 128 && header == (if w.versioned then start + 1 else start)
    requires header + 3 <= keysAt <= end && end + BLOCKHASH_LENGTH <= |raw|
    requires w.versioned ==> raw[start] == 128
    requires raw[header] == |w.signatures| && w.readonly == raw[header + 1..header + 3]
    requires w.keyCount == raw[header + 3..keysAt] && Concat(w.keys) == raw[keysAt..end]
    requires w.blockhash == raw[end..end + BLOCKHASH_LENGTH] && w.rest == raw[end + BLOCKHASH_LENGTH..]
    ensures Message(w) == raw[start..]
  {
    hide Concat;
    var body := raw[header + 1..];
    assert body == w.readonly + w.keyCount + Concat(w.keys) + w.blockhash + w.rest;
    assert raw[start..] == raw[start..header] + [raw[header]] + body;
    assert raw[start..header] == Prefix(w.versioned);
    Associates(Prefix(w.versioned) + [|w.signatures|], w.readonly, w.keyCount, Concat(w.keys), w.blockhash, w.rest);
  }

  lemma Associates(a: Bytes, b: Bytes, c: Bytes, d: Bytes, e: Bytes, f: Bytes)
    ensures a + b + c + d + e + f == a + (b + c + d + e + f)
  {
  }

  // ---------------------------------------------------------------- why a transaction is refused

  /** The first signature that does not count. */
  ghost predicate FirstBad(w: Wire, verify: Verifier, i: nat)
    requires |w.signatures| < 128 && |w.signatures| <= |w.keys|
  {
    && i < |w.signatures|
    && (IsBlank(w.signatures[i]) || !verify(w.keys[i], Message(w), w.signatures[i]))
    && forall j | 0 <= j < i :: !IsBlank(w.signatures[j]) && verify(w.keys[j], Message(w), w.signatures[j])
  }

  predicate IsBlank(signature: Bytes) {
    |signature| == 64 && forall k | 0 <= k < 64 :: signature[k] == 0
  }

  lemma BlankIff(signature: Bytes)
    ensures IsBlank(signature) <==> signature == ZERO_SIGNATURE
  {
  }

  lemma {:induction false} RefusalAt(p: Parts, message: Bytes, verify: Verifier, from: nat, i: nat)
    requires from <= i < |p.signatures| <= |p.keys|
    requires p.signatures[i] == ZERO_SIGNATURE || !verify(p.keys[i], message, p.signatures[i])
    requires forall j | from <= j < i ::
      p.signatures[j] != ZERO_SIGNATURE && verify(p.keys[j], message, p.signatures[j])
    ensures Refusal(p, message, verify, from)
         == Some(if p.signatures[i] == ZERO_SIGNATURE then MissingSignatures else InvalidSignature)
    decreases i - from
  {
    if from < i {
      RefusalAt(p, message, verify, from + 1, i);
    }
  }

  lemma {:induction false} SomeBad(w: Wire, verify: Verifier, n: nat) returns (i: nat)
    requires Shaped(w) && n <= |w.signatures|
    requires exists j :: 0 <= j < n && (IsBlank(w.signatures[j]) || !verify(w.keys[j], Message(w), w.signatures[j]))
    ensures FirstBad(w, verify, i)
  {
    hide IsBlank, Shaped, Message;
    ShapedCounts(w);
    if exists j :: 0 <= j < n - 1 && (IsBlank(w.signatures[j]) || !verify(w.keys[j], Message(w), w.signatures[j])) {
      i := SomeBad(w, verify, n - 1);
    } else {
      i := n - 1;
    }
  }

  lemma ShapedCounts(w: Wire)
    requires Shaped(w)
    ensures 1 <= |w.signatures| < 128 && |w.signatures| <= |w.keys|
  {
  }

  /** A well-formed transaction is refused for its first signature that does not count: blank or not verified. */
  lemma RefusedFor(w: Wire, verify: Verifier, i: nat)
    requires Shaped(w) && FirstBad(w, verify, i)
    ensures Parse(Serialise(w), verify) == Err(if IsBlank(w.signatures[i]) then MissingSignatures else InvalidSignature)
  {
    hide Serialise, Message, Split, Refusal, IsBlank;
    SplitsAll(w);
    forall j | 0 <= j < |w.signatures| ensures IsBlank(w.signatures[j]) <==> w.signatures[j] == ZERO_SIGNATURE {
      BlankIff(w.signatures[j]);
    }
    RefusalAt(PartsOf(w), Message(w), verify, 0, i);
  }

  /** The signature count is zero. */
  ghost predicate NoSignatures(raw: Bytes) {
    |raw| <= 1232 && exists count, rest :: IsCompact(count) && CompactValue(count) == 0 && raw == count + rest
  }

  /** After the signatures comes the mark of a version other than 0. */
  ghost predicate OtherVersion(raw: Bytes) {
    |raw| <= 1232 && exists sigCount, signatures, v: Byte, rest ::
      Section(sigCount, signatures) && v > 128 && raw == sigCount + Concat(signatures) + ([v] + rest)
  }

  lemma NoSignaturesIff(raw: Bytes)
    ensures SplitSignatures(raw) == Err(MissingSignatures) <==> NoSignatures(raw)
    ensures SplitSignatures(raw).Err? ==> SplitSignatures(raw).error in {MissingSignatures, MalformedTransaction}
  {
    hide CompactFrom, IsCompact, CompactValue;
    if SplitSignatures(raw) == Err(MissingSignatures) {
      CompactIs(raw, 0);
      var n := CompactFrom(raw, 0, 0).value.bytesRead;
      assert raw == raw[0..n] + raw[n..];
    }
    if NoSignatures(raw) {
      var count, rest :| IsCompact(count) && CompactValue(count) == 0 && raw == count + rest;
      assert raw == [] + count + rest;
      CompactAt([], count, rest);
    }
  }

  lemma OtherVersionIff(raw: Bytes)
    ensures Split(raw) == Err(UnsupportedVersion) <==> OtherVersion(raw)
  {
    hide SplitSignatures, SplitKeys, Section, Concat, NoSignatures;
    NoSignaturesIff(raw);
    KeyErrors(raw);
    if Split(raw) == Err(UnsupportedVersion) {
      var (signatures, start) := SplitSignatures(raw).value;
      var sigCount := SignaturesWere(raw);
      SectionWas(sigCount, signatures);
      assert raw == raw[..start] + ([raw[start]] + raw[start + 1..]);
    }
    if OtherVersion(raw) {
      var sigCount, signatures, v: Byte, rest :|
        Section(sigCount, signatures) && v > 128 && raw == sigCount + Concat(signatures) + ([v] + rest);
      SectionSplits(sigCount, signatures, [v] + rest);
      assert raw[|sigCount| + |Concat(signatures)|] == v;
    }
  }

  lemma SectionWas(sigCount: Bytes, signatures: seq<Bytes>)
    requires IsCompact(sigCount) && CompactValue(sigCount) == |signatures| >= 1 && AllOf(signatures, SIGNATURE_LENGTH)
    ensures Section(sigCount, signatures)
  {
  }

  lemma KeyErrors(raw: Bytes)
    ensures forall cursor: nat, required: nat | SplitKeys(raw, cursor, required).Err? ::
      SplitKeys(raw, cursor, required).error == MalformedTransaction
  {
  }

  /** The bytes are a well-formed transaction whose first signature that does not count is blank, or is not. */
  ghost predicate Refuses(raw: Bytes, verify: Verifier, blank: bool) {
    exists w, i: nat :: RefusesAt(raw, verify, w, i, blank)
  }

  ghost predicate RefusesAt(raw: Bytes, verify: Verifier, w: Wire, i: nat, blank: bool) {
    Shaped(w) && raw == Serialise(w) && FirstBad(w, verify, i) && IsBlank(w.signatures[i]) == blank
  }

  /** Which error a refused transaction gets; whatever is neither of these is malformed. */
  lemma ErrorIff(raw: Bytes, verify: Verifier)
    ensures var r := Parse(raw, verify);
      && (r == Err(UnsupportedVersion) <==> OtherVersion(raw))
      && (r == Err(MissingSignatures) <==> NoSignatures(raw) || Refuses(raw, verify, true))
      && (r == Err(InvalidSignature) <==> Refuses(raw, verify, false))
      && r != Err(InvalidEncoding)
  {
    hide SplitSignatures, SplitKeys, OtherVersion, NoSignatures, RefusesAt, Refusal;
    NoSignaturesIff(raw);
    OtherVersionIff(raw);
    KeyErrors(raw);
    if Split(raw).Ok? && Parse(raw, verify).Err? {
      var w, i, blank := WhyRefused(raw, verify);
    }
    forall w, i: nat, blank | RefusesAt(raw, verify, w, i, blank)
      ensures Parse(raw, verify) == Err(if blank then MissingSignatures else InvalidSignature) && Split(raw).Ok?
    {
      RefusedAs(raw, verify, w, i, blank);
    }
  }

  lemma RefusedAs(raw: Bytes, verify: Verifier, w: Wire, i: nat, blank: bool)
    requires RefusesAt(raw, verify, w, i, blank)
    ensures Parse(raw, verify) == Err(if blank then MissingSignatures else InvalidSignature) && Split(raw).Ok?
  {
    hide Shaped, Serialise, IsBlank, FirstBad, Parse, Split;
    RefusedFor(w, verify, i);
    SplitsAll(w);
  }

  lemma WhyRefused(raw: Bytes, verify: Verifier) returns (w: Wire, i: nat, blank: bool)
    requires Split(raw).Ok? && Parse(raw, verify).Err?
    ensures RefusesAt(raw, verify, w, i, blank)
    ensures Parse(raw, verify) == Err(if blank then MissingSignatures else InvalidSignature)
  {
    hide Split, Serialise, IsBlank, FirstBad, Parse;
    w := SplitIsShaped(raw);
    i := FirstRefused(w, verify);
    RefusedFor(w, verify, i);
    BadInside(w, verify, i);
    blank := IsBlank(w.signatures[i]);
  }

  lemma BadInside(w: Wire, verify: Verifier, i: nat)
    requires |w.signatures| < 128 && |w.signatures| <= |w.keys| && FirstBad(w, verify, i)
    ensures i < |w.signatures|
  {
  }

  lemma FirstRefused(w: Wire, verify: Verifier) returns (i: nat)
    requires Shaped(w) && Parse(Serialise(w), verify).Err?
    ensures FirstBad(w, verify, i)
  {
    hide Shaped, Serialise, Message, Parse, FirstBad;
    AcceptsSigned(w, verify);
    ShapedCounts(w);
    forall j | 0 <= j < |w.signatures| ensures IsBlank(w.signatures[j]) <==> w.signatures[j] == ZERO_SIGNATURE {
      BlankIff(w.signatures[j]);
    }
    i := SomeBad(w, verify, |w.signatures|);
  }

  /** A header that spells no bytes is badly encoded. */
  lemma BadlyEncodedIff(headerValue: string, decoder: Decoder, verify: Verifier)
    requires Inverts(decoder)
    ensures ParseHeader(headerValue, decoder, verify) == Err(InvalidEncoding)
            <==> forall b | Spells(headerValue, b) :: b == []
  {
    hide Decode, Spells, Inverts, Parse;
    forall b ensures Decode(headerValue, decoder) == Some(b) <==> b != [] && Spells(headerValue, b) {
      DecodesIff(headerValue, decoder, b);
    }
    if Decode(headerValue, decoder).Some? {
      ErrorIff(Decode(headerValue, decoder).value, verify);
    }
  }

  // ---------------------------------------------------------------- headers

  /** The header spells a well-formed transaction signed by all its signers. */
  ghost predicate SpellsSigned(headerValue: string, w: Wire, verify: Verifier) {
    Shaped(w) && Signed(w, verify) && Spells(headerValue, Serialise(w))
  }

  /** A header is accepted exactly if it spells such a transaction, whose parts are then returned. */
  lemma HeaderAcceptedIff(headerValue: string, decoder: Decoder, verify: Verifier)
    requires Inverts(decoder)
    ensures ParseHeader(headerValue, decoder, verify).Ok? <==> exists w :: SpellsSigned(headerValue, w, verify)
    ensures forall w | SpellsSigned(headerValue, w, verify) ::
      ParseHeader(headerValue, decoder, verify) == Ok(Describe(Serialise(w), PartsOf(w)))
  {
    hide Parse, Decode, Spells, Inverts, Describe, SpellsSigned;
    if ParseHeader(headerValue, decoder, verify).Ok? {
      var raw := Decode(headerValue, decoder).value;
      var w := AcceptedIsSigned(raw, verify);
      SpelledByItsBytes(headerValue, decoder, w, verify);
    }
    forall w | SpellsSigned(headerValue, w, verify)
      ensures Shaped(w) && ParseHeader(headerValue, decoder, verify) == Ok(Describe(Serialise(w), PartsOf(w)))
    {
      SpelledIsParsed(headerValue, decoder, w, verify);
    }
  }

  lemma SpelledByItsBytes(headerValue: string, decoder: Decoder, w: Wire, verify: Verifier)
    requires Inverts(decoder) && Shaped(w) && Signed(w, verify) && Decode(headerValue, decoder) == Some(Serialise(w))
    ensures SpellsSigned(headerValue, w, verify)
  {
    hide Decode, Spells, Inverts, Serialise;
    DecodesIff(headerValue, decoder, Serialise(w));
  }

  lemma SpelledIsParsed(headerValue: string, decoder: Decoder, w: Wire, verify: Verifier)
    requires Inverts(decoder) && SpellsSigned(headerValue, w, verify)
    ensures Shaped(w) && ParseHeader(headerValue, decoder, verify) == Ok(Describe(Serialise(w), PartsOf(w)))
  {
    hide Decode, Spells, Inverts, Describe, Message, Parse;
    assert Serialise(w) != [] by { assert |w.sigCount| > 0; }
    DecodesIff(headerValue, decoder, Serialise(w));
    AcceptsSigned(w, verify);
  }

  // ---------------------------------------------------------------- canonical transactions

  /** A transaction as serialisers write it, with the shortest encoding of both counts. */
  function Canonical(signatures: seq<Bytes>, versioned: bool, readonly: Bytes, keys: seq<Bytes>, blockhash: Bytes,
                     rest: Bytes): Wire
  {
    Wire(CompactBytes(|signatures|), signatures, versioned, readonly, CompactBytes(|keys|), keys, blockhash, rest)
  }

  /** Any number of signatures and keys that fits in a packet has such a form, and it is well shaped. */
  lemma CanonicalIsShaped(signatures: seq<Bytes>, versioned: bool, readonly: Bytes, keys: seq<Bytes>, blockhash: Bytes,
                          rest: Bytes)
    requires 1 <= |signatures| < 128 && |signatures| <= |keys| < 0x20_0000
    requires AllOf(signatures, SIGNATURE_LENGTH) && AllOf(keys, PUBKEY_LENGTH)
    requires |readonly| == 2 && |blockhash| == BLOCKHASH_LENGTH
    ensures var w := Canonical(signatures, versioned, readonly, keys, blockhash, rest);
      && (Shaped(w) <==> |Serialise(w)| <= MAX_BLOB_BYTES)
      && |Serialise(w)| == |CompactBytes(|signatures|)| + 64 * |signatures| + (if versioned then 1 else 0) + 3
                           + |CompactBytes(|keys|)| + 32 * |keys| + 32 + |rest|
  {
    hide Concat, CompactBytes;
    CompactBytesFit(|signatures|);
    CompactBytesFit(|keys|);
    ConcatLength(signatures, SIGNATURE_LENGTH);
    ConcatLength(keys, PUBKEY_LENGTH);
  }

  /** What is reported can be read back: signatures always, keys and block hash unless all zero. */
  lemma ReportIsReversible(w: Wire, verify: Verifier)
    requires Shaped(w) && Signed(w, verify)
    ensures Parse(Serialise(w), verify).Ok?
    ensures var info := Parse(Serialise(w), verify).value;
      && info.rawTransaction == Serialise(w) && info.messageBytes == Message(w)
      && info.isVersioned == w.versioned && info.version == (if w.versioned then Some(0) else None)
      && |info.signatures| == |info.signers| == |w.signatures| && info.feePayer == info.signers[0]
      && (forall i | 0 <= i < |w.signatures| :: Base58.Decode(info.signatures[i]) == Some(w.signatures[i]))
      && (forall i | 0 <= i < |w.signatures| && !Base58.AllZero(w.keys[i]) ::
            Base58.Decode(info.signers[i]) == Some(w.keys[i]))
      && (!Base58.AllZero(w.blockhash) ==> Base58.Decode(info.recentBlockhash) == Some(w.blockhash))
  {
    hide Serialise, Message, Parse, Base58.Encode, Base58.Decode;
    AcceptsSigned(w, verify);
    SplitsAll(w);
    forall i | 0 <= i < |w.signatures| ensures Base58.Decode(Text(w.signatures[i])) == Some(w.signatures[i]) {
      if Base58.AllZero(w.signatures[i]) {
        AllZeroSignature(w.signatures[i]);
      }
      Base58.DecodeEncode(w.signatures[i]);
    }
    forall i | 0 <= i < |w.signatures| && !Base58.AllZero(w.keys[i])
      ensures Base58.Decode(Text(w.keys[i])) == Some(w.keys[i])
    {
      Base58.DecodeEncode(w.keys[i]);
    }
    Base58.DecodeEncode(w.blockhash);
  }

  lemma AllZeroSignature(s: Bytes)
    requires |s| == SIGNATURE_LENGTH && Base58.AllZero(s)
    ensures s == ZERO_SIGNATURE
  {
  }
}
