/**
 * Controller packets, gateway/sbegw/unifi.py: `encode_inform` and `decode_inform`. Ciphers, compression
 * and JSON are functions assumed to undo each other; header, lengths and padding are byte for byte.
 */
module InformCodec {
  import opened Wrappers
  import opened Octets

  const MAGIC: Bytes := [0x54, 0x4e, 0x42, 0x55]
  const HEADER := 40
  const BLOCK := 16
  const TAG := 16
  const ENCRYPTED := 0x01
  const DEFLATED := 0x02
  const SNAPPY := 0x04
  const GCM := 0x08

  datatype Document<P> = NotJson | NotAnObject | Object(payload: P)

  /** The libraries the codec calls. `gcmTakes` says which nonce lengths the library accepts. */
  datatype Suite<!P> = Suite(
    cbc: (Bytes, Bytes, Bytes) -> Bytes,
    uncbc: (Bytes, Bytes, Bytes) -> Bytes,
    gcmTakes: nat -> bool,
    gcm: (Bytes, Bytes, Bytes, Bytes) -> (Bytes, Bytes),
    ungcm: (Bytes, Bytes, Bytes, Bytes, Bytes) -> Option<Bytes>,
    deflate: Bytes -> Bytes,
    inflate: Bytes -> Option<Bytes>,
    dump: P -> Bytes,
    load: Bytes -> Document<P>)

  /** Each pair of library functions undoes itself, and the ciphers keep lengths. */
  ghost predicate Inverse<P(!new)>(s: Suite<P>) {
    && (forall key: Bytes, iv: Bytes, data: Bytes :: |iv| == BLOCK && |data| % BLOCK == 0 ==>
          |s.cbc(key, iv, data)| == |data| && s.uncbc(key, iv, s.cbc(key, iv, data)) == data)
    && (forall key: Bytes, iv: Bytes, header: Bytes, data: Bytes ::
          var sealed := s.gcm(key, iv, header, data);
          |sealed.0| == |data| && |sealed.1| == TAG && s.ungcm(key, iv, header, sealed.0, sealed.1) == Some(data))
    && (forall data: Bytes :: s.inflate(s.deflate(data)) == Some(data))
    && (forall p: P :: s.load(s.dump(p)) == Object(p))
    && s.gcmTakes(BLOCK)
  }

  // ------------------------------------------------------------------ padding

  /** Section 6.3 of RFC 5652: as many bytes as are missing to the next block, each their number. */
  function Pad(data: Bytes): Bytes {
    var n := BLOCK - |data| % BLOCK;
    data + seq(n, i => n)
  }

  function Unpad(data: Bytes): Option<Bytes> {
    if data == [] || |data| % BLOCK != 0 then None
    else
      var n := data[|data| - 1];
      if 1 <= n <= BLOCK && forall i | |data| - n <= i < |data| :: data[i] == n then Some(data[..|data| - n]) else None
  }

  lemma {:induction false} PadRoundTrip(data: Bytes)
    ensures |Pad(data)| % BLOCK == 0 && Unpad(Pad(data)) == Some(data)
  {
    var n := BLOCK - |data| % BLOCK;
    assert Pad(data)[..|data|] == data;
    assert |data| + n == (|data| / BLOCK + 1) * BLOCK;
  }

  /** Padding that is accepted is the one padding of what it yields. */
  lemma {:induction false} UnpadIsOnlyPad(padded: Bytes)
    requires Unpad(padded).Some?
    ensures Pad(Unpad(padded).value) == padded
  {
    var n := padded[|padded| - 1];
    var data := padded[..|padded| - n];
    assert |data| % BLOCK == (BLOCK - n) % BLOCK;
    assert BLOCK - |data| % BLOCK == n;
  }

  // ------------------------------------------------------------------- encode

  datatype EncodeError = NotAMac | TooLong | BadIv | BadKey

  function Flags(gcm: bool): nat {
    ENCRYPTED + DEFLATED + if gcm then GCM else 0
  }

  function Has(flags: nat, bit: nat): bool
    requires bit > 0
  {
    flags / bit % 2 == 1
  }

  /** The MAC's parts as numbers; `None` where a part is not a hexadecimal number. */
  predicate MacOk(parts: seq<Option<int>>) {
    |parts| == 6 && forall i | 0 <= i < 6 :: parts[i].Some? && 0 <= parts[i].value < 256
  }

  function MacBytes(parts: seq<Option<int>>): Bytes
    requires MacOk(parts)
  {
    seq(6, i requires 0 <= i < 6 => parts[i].value)
  }

  function Header(mac: Bytes, flags: nat, iv: Bytes, length: nat): (h: Bytes)
    requires flags < TWO_16 && length < TWO_32
    ensures |h| == 4 + 4 + |mac| + 2 + |iv| + 4 + 4
  {
    MAGIC + U32(1) + mac + U16(flags) + iv + U32(1) + U32(length)
  }

  predicate KeyOk(key: Bytes) {
    |key| in {16, 24, 32}
  }

  /** An absent or empty `iv` is replaced by sixteen random bytes. */
  function Chosen(iv: Bytes, random: Bytes): Bytes {
    if iv == [] then random else iv
  }

  function Encode<P>(s: Suite<P>, payload: P, parts: seq<Option<int>>, key: Bytes, gcm: bool, iv: Bytes, random: Bytes)
    : Result<Bytes, EncodeError>
  {
    var nonce := Chosen(iv, random);
    var raw := s.deflate(s.dump(payload));
    if !MacOk(parts) then Err(NotAMac)
    else
      var mac := MacBytes(parts);
      if gcm then
        var length := |raw| + TAG;
        if length >= TWO_32 then Err(TooLong)
        else if !KeyOk(key) then Err(BadKey)
        else if !s.gcmTakes(|nonce|) then Err(BadIv)
        else
          var header := Header(mac, Flags(true), nonce, length);
          var sealed := s.gcm(key, nonce, header, raw);
          Ok(header + (sealed.0 + sealed.1))
      else
        if !KeyOk(key) then Err(BadKey)
        else if |nonce| != BLOCK then Err(BadIv)
        else
          var encrypted := s.cbc(key, nonce, Pad(raw));
          if |encrypted| >= TWO_32 then Err(TooLong)
          else Ok(Header(mac, Flags(false), nonce, |encrypted|) + encrypted)
  }

  // ------------------------------------------------------------------- decode

  datatype DecodeError =
    | NotOurs | Truncated | NoTag | BadTag | BadDecodeKey | Unaligned | BadPadding
    | BadDeflate | Snappy | Json | JsonObject

  function Length(packet: Bytes): nat
    requires |packet| >= HEADER
  {
    FromBig(packet[36..40])
  }

  function Opened<P>(s: Suite<P>, key: Bytes, header: Bytes, body: Bytes): Result<Bytes, DecodeError>
    requires |header| == HEADER
  {
    var iv := header[16..32];
    if Has(FromBig(header[14..16]), GCM) then
      if |body| < TAG then Err(NoTag)
      else if !KeyOk(key) then Err(BadDecodeKey)
      else
        var data := s.ungcm(key, iv, header, body[..|body| - TAG], body[|body| - TAG..]);
        if data.None? then Err(BadTag) else Ok(data.value)
    else if !KeyOk(key) then Err(BadDecodeKey)
    else if |body| % BLOCK != 0 then Err(Unaligned)
    else
      var data := Unpad(s.uncbc(key, iv, body));
      if data.None? then Err(BadPadding) else Ok(data.value)
  }

  function Inflated<P>(s: Suite<P>, flags: nat, raw: Bytes): Result<Bytes, DecodeError> {
    if Has(flags, DEFLATED) then
      var data := s.inflate(raw);
      if data.None? then Err(BadDeflate) else Ok(data.value)
    else if Has(flags, SNAPPY) then Err(Snappy)
    else Ok(raw)
  }

  function Decode<P>(s: Suite<P>, packet: Bytes, key: Bytes): Result<P, DecodeError> {
    if |packet| < HEADER || packet[..4] != MAGIC then Err(NotOurs)
    else if Length(packet) > |packet| - HEADER then Err(Truncated)
    else
      var body := Opened(s, key, packet[..HEADER], packet[HEADER..HEADER + Length(packet)]);
      if body.Err? then Err(body.error)
      else
        var inflated := Inflated(s, FromBig(packet[14..16]), body.value);
        if inflated.Err? then Err(inflated.error)
        else
          match s.load(inflated.value)
          case NotJson => Err(Json)
          case NotAnObject => Err(JsonObject)
          case Object(p) => Ok(p)
  }

  // ------------------------------------------------------------------ results

  lemma FieldAt(before: Bytes, field: Bytes, after: Bytes)
    ensures (before + field + after)[|before|..|before| + |field|] == field
  {
  }

  lemma {:induction false} SevenFields(magic: Bytes, version: Bytes, mac: Bytes, flags: Bytes, iv: Bytes, one: Bytes,
                                       length: Bytes)
    requires |magic| == 4 && |version| == 4 && |mac| == 6 && |flags| == 2 && |one| == 4 && |length| == 4
    ensures
      var h := magic + version + mac + flags + iv + one + length;
      && h[..4] == magic && h[4..8] == version && h[8..14] == mac && h[14..16] == flags
      && h[16..16 + |iv|] == iv && h[20 + |iv|..24 + |iv|] == length
  {
    var h := magic + version + mac + flags + iv + one + length;
    assert h == magic + version + (mac + flags + iv + one + length);
    FieldAt(magic, version, mac + flags + iv + one + length);
    assert h == (magic + version) + mac + (flags + iv + one + length);
    FieldAt(magic + version, mac, flags + iv + one + length);
    assert h == (magic + version + mac) + flags + (iv + one + length);
    FieldAt(magic + version + mac, flags, iv + one + length);
    assert h == (magic + version + mac + flags) + iv + (one + length);
    FieldAt(magic + version + mac + flags, iv, one + length);
    assert h == (magic + version + mac + flags + iv + one) + length + [];
    FieldAt(magic + version + mac + flags + iv + one, length, []);
  }

  /** Where the header's fields are. */
  lemma {:induction false} HeaderFields(mac: Bytes, flags: nat, iv: Bytes, length: nat)
    requires |mac| == 6 && flags < TWO_16 && length < TWO_32
    ensures
      var h := Header(mac, flags, iv, length);
      && |h| == 24 + |iv| && h[..4] == MAGIC && h[4..8] == U32(1) && h[8..14] == mac && h[14..16] == U16(flags)
      && h[16..16 + |iv|] == iv && h[20 + |iv|..24 + |iv|] == U32(length)
  {
    SevenFields(MAGIC, U32(1), mac, U16(flags), iv, U32(1), U32(length));
  }

  lemma FlagBits()
    ensures Has(Flags(true), GCM) && !Has(Flags(false), GCM)
    ensures Has(Flags(true), DEFLATED) && Has(Flags(false), DEFLATED)
  {
  }

  /** Where the second of the header's two numbers one is, behind the nonce. */
  lemma {:induction false} HeaderPayloadVersion(mac: Bytes, flags: nat, iv: Bytes, length: nat)
    requires |mac| == 6 && flags < TWO_16 && length < TWO_32
    ensures Header(mac, flags, iv, length)[16 + |iv|..20 + |iv|] == U32(1)
  {
    var before := MAGIC + U32(1) + mac + U16(flags) + iv;
    assert Header(mac, flags, iv, length) == before + U32(1) + U32(length);
    FieldAt(before, U32(1), U32(length));
  }

  /** A packet says that it is encrypted and deflated, whether in GCM mode, and never that it is snappy. */
  lemma {:induction false} PacketFlags<P(!new)>(s: Suite<P>, payload: P, parts: seq<Option<int>>, key: Bytes,
      gcm: bool, iv: Bytes, random: Bytes)
    requires Inverse(s) && Encode(s, payload, parts, key, gcm, iv, random).Ok?
    ensures
      var packet := Encode(s, payload, parts, key, gcm, iv, random).value;
      |packet| >= 16 &&
      var flags := FromBig(packet[14..16]);
      Has(flags, ENCRYPTED) && Has(flags, DEFLATED) && !Has(flags, SNAPPY) && (Has(flags, GCM) <==> gcm)
  {
    var raw := s.deflate(s.dump(payload));
    var nonce := Chosen(iv, random);
    var packet := Encode(s, payload, parts, key, gcm, iv, random).value;
    PadRoundTrip(raw);
    var length := if gcm then |raw| + TAG else |Pad(raw)|;
    var header := Header(MacBytes(parts), Flags(gcm), nonce, length);
    HeaderFields(MacBytes(parts), Flags(gcm), nonce, length);
    assert packet[14..16] == header[14..16];
    FlagBits();
  }

  /** Encoding succeeds exactly for a six-byte MAC, an AES key, a nonce the mode takes and a length that fits. */
  lemma EncodesIff<P(!new)>(s: Suite<P>, payload: P, parts: seq<Option<int>>, key: Bytes, gcm: bool, iv: Bytes,
      random: Bytes)
    requires Inverse(s)
    ensures
      var n := |s.deflate(s.dump(payload))|;
      var nonce := |Chosen(iv, random)|;
      Encode(s, payload, parts, key, gcm, iv, random).Ok?
      <==> && MacOk(parts) && KeyOk(key)
           && (if gcm then s.gcmTakes(nonce) else nonce == BLOCK)
           && (if gcm then n + TAG else n - n % BLOCK + BLOCK) < TWO_32
  {
    var raw := s.deflate(s.dump(payload));
    PadRoundTrip(raw);
  }

  /** A packet carries its sender's MAC and is as long as its header says; the header is 24 bytes and the nonce. */
  lemma {:induction false} PacketLength<P(!new)>(s: Suite<P>, payload: P, parts: seq<Option<int>>, key: Bytes,
      gcm: bool, iv: Bytes, random: Bytes)
    requires Inverse(s) && Encode(s, payload, parts, key, gcm, iv, random).Ok?
    ensures
      var packet := Encode(s, payload, parts, key, gcm, iv, random).value;
      var nonce := Chosen(iv, random);
      && |packet| >= 24 + |nonce|
      && MacOk(parts) && packet[..4] == MAGIC && packet[8..14] == MacBytes(parts) && packet[16..16 + |nonce|] == nonce
      && FromBig(packet[20 + |nonce|..24 + |nonce|]) == |packet| - 24 - |nonce|
  {
    var raw := s.deflate(s.dump(payload));
    var nonce := Chosen(iv, random);
    var packet := Encode(s, payload, parts, key, gcm, iv, random).value;
    PadRoundTrip(raw);
    var length := if gcm then |raw| + TAG else |Pad(raw)|;
    var header := Header(MacBytes(parts), Flags(gcm), nonce, length);
    HeaderFields(MacBytes(parts), Flags(gcm), nonce, length);
    assert packet == header + packet[|header|..] && |packet[|header|..]| == length;
    assert packet[..4] == header[..4] && packet[8..14] == header[8..14];
    assert packet[16..16 + |nonce|] == header[16..16 + |nonce|];
    assert packet[20 + |nonce|..24 + |nonce|] == header[20 + |nonce|..24 + |nonce|];
  }

  /** The lengths and the key are ones the packet format and the flags' mode have room for. */
  predicate Sealable<P>(s: Suite<P>, mac: Bytes, flags: nat, key: Bytes, iv: Bytes, raw: Bytes) {
    && |mac| == 6 && |iv| == BLOCK && KeyOk(key) && flags < TWO_16
    && (if Has(flags, GCM) then |raw| + TAG else |s.cbc(key, iv, Pad(raw))|) < TWO_32
  }

  /** A packet of any flags: header and body, sealed as the flags say. */
  function Sealed<P>(s: Suite<P>, mac: Bytes, flags: nat, key: Bytes, iv: Bytes, raw: Bytes): Bytes
    requires Sealable(s, mac, flags, key, iv, raw)
  {
    if Has(flags, GCM) then
      var header := Header(mac, flags, iv, |raw| + TAG);
      var sealed := s.gcm(key, iv, header, raw);
      header + (sealed.0 + sealed.1)
    else
      Header(mac, flags, iv, |s.cbc(key, iv, Pad(raw))|) + s.cbc(key, iv, Pad(raw))
  }

  lemma HeaderThenBody(header: Bytes, body: Bytes)
    requires |header| == HEADER
    ensures var packet := header + body;
            && packet[..HEADER] == header && packet[HEADER..] == body
            && packet[..4] == header[..4] && packet[14..16] == header[14..16] && packet[36..40] == header[36..40]
  {
  }

  /** The body, opened with the same key, is what was sealed. */
  lemma {:induction false} OpensSealed<P(!new)>(s: Suite<P>, mac: Bytes, flags: nat, key: Bytes, iv: Bytes, raw: Bytes)
    requires Inverse(s) && Sealable(s, mac, flags, key, iv, raw)
    ensures
      var packet := Sealed(s, mac, flags, key, iv, raw);
      && |packet| >= HEADER && packet[..4] == MAGIC && packet[14..16] == U16(flags)
      && Length(packet) == |packet| - HEADER
      && Opened(s, key, packet[..HEADER], packet[HEADER..]) == Ok(raw)
  {
    var packet := Sealed(s, mac, flags, key, iv, raw);
    PadRoundTrip(raw);
    var length := if Has(flags, GCM) then |raw| + TAG else |Pad(raw)|;
    var header := Header(mac, flags, iv, length);
    HeaderFields(mac, flags, iv, length);
    if Has(flags, GCM) {
      var sealed := s.gcm(key, iv, header, raw);
      var body := sealed.0 + sealed.1;
      HeaderThenBody(header, body);
      assert body[..|body| - TAG] == sealed.0 && body[|body| - TAG..] == sealed.1;
    } else {
      HeaderThenBody(header, s.cbc(key, iv, Pad(raw)));
    }
  }

  /** What the decoder makes of the opened body, flags and all. */
  function Read<P>(s: Suite<P>, raw: Bytes): Result<P, DecodeError> {
    match s.load(raw)
    case NotJson => Err(Json)
    case NotAnObject => Err(JsonObject)
    case Object(p) => Ok(p)
  }

  /**
   * A sealed packet of any flags: with the deflate flag its body is inflated, with the snappy flag alone it is refused,
   * and with neither it is read as it is.
   */
  lemma {:induction false} SealedDecodes<P(!new)>(s: Suite<P>, mac: Bytes, flags: nat, key: Bytes, iv: Bytes,
      raw: Bytes)
    requires Inverse(s) && Sealable(s, mac, flags, key, iv, raw)
    ensures
      var decoded := Decode(s, Sealed(s, mac, flags, key, iv, raw), key);
      && (!Has(flags, DEFLATED) && !Has(flags, SNAPPY) ==> decoded == Read(s, raw))
      && (!Has(flags, DEFLATED) && Has(flags, SNAPPY) ==> decoded == Err(Snappy))
      && (Has(flags, DEFLATED) ==>
            decoded == if s.inflate(raw).Some? then Read(s, s.inflate(raw).value) else Err(BadDeflate))
  {
    var packet := Sealed(s, mac, flags, key, iv, raw);
    OpensSealed(s, mac, flags, key, iv, raw);
    assert packet[HEADER..HEADER + Length(packet)] == packet[HEADER..];
  }

  /** A payload sent without compression comes back, in either mode. */
  lemma UncompressedRoundTrip<P(!new)>(s: Suite<P>, payload: P, mac: Bytes, gcm: bool, key: Bytes, iv: Bytes)
    requires var flags := ENCRYPTED + if gcm then GCM else 0;
             Inverse(s) && Sealable(s, mac, flags, key, iv, s.dump(payload))
    ensures var flags := ENCRYPTED + if gcm then GCM else 0;
            Decode(s, Sealed(s, mac, flags, key, iv, s.dump(payload)), key) == Ok(payload)
  {
    SealedDecodes(s, mac, ENCRYPTED + if gcm then GCM else 0, key, iv, s.dump(payload));
  }

  /** What is encoded with a nonce of sixteen bytes is such a packet. */
  lemma {:induction false} EncodesSealed<P(!new)>(s: Suite<P>, payload: P, parts: seq<Option<int>>, key: Bytes,
      gcm: bool, iv: Bytes, random: Bytes)
    requires Inverse(s) && |Chosen(iv, random)| == BLOCK
    requires Encode(s, payload, parts, key, gcm, iv, random).Ok?
    ensures MacOk(parts)
    ensures Sealable(s, MacBytes(parts), Flags(gcm), key, Chosen(iv, random), s.deflate(s.dump(payload)))
    ensures Encode(s, payload, parts, key, gcm, iv, random).value ==
            Sealed(s, MacBytes(parts), Flags(gcm), key, Chosen(iv, random), s.deflate(s.dump(payload)))
  {
    FlagBits();
    PadRoundTrip(s.deflate(s.dump(payload)));
  }

  /** Bytes past the length in the header are never looked at. */
  lemma {:induction false} TailIsIgnored<P>(s: Suite<P>, packet: Bytes, key: Bytes, tail: Bytes)
    requires !(Decode(s, packet, key).Err? && Decode(s, packet, key).error in {NotOurs, Truncated})
    ensures Decode(s, packet + tail, key) == Decode(s, packet, key)
  {
    var long := packet + tail;
    assert long[..4] == packet[..4] && long[14..16] == packet[14..16] && long[36..40] == packet[36..40];
    assert long[..HEADER] == packet[..HEADER];
    assert long[HEADER..HEADER + Length(packet)] == packet[HEADER..HEADER + Length(packet)];
  }

  /**
   * Decoding what was encoded gives the payload back, in either mode, whatever follows the packet, as long
   * as the nonce has sixteen bytes: always so in CBC mode, and whenever none was given.
   */
  lemma {:induction false} RoundTrip<P(!new)>(s: Suite<P>, payload: P, parts: seq<Option<int>>, key: Bytes,
      gcm: bool, iv: Bytes, random: Bytes, trailing: Bytes)
    requires Inverse(s) && |Chosen(iv, random)| == BLOCK
    requires Encode(s, payload, parts, key, gcm, iv, random).Ok?
    ensures Decode(s, Encode(s, payload, parts, key, gcm, iv, random).value + trailing, key) == Ok(payload)
  {
    var packet := Encode(s, payload, parts, key, gcm, iv, random).value;
    FlagBits();
    EncodesSealed(s, payload, parts, key, gcm, iv, random);
    SealedDecodes(s, MacBytes(parts), Flags(gcm), key, Chosen(iv, random), s.deflate(s.dump(payload)));
    TailIsIgnored(s, packet, key, trailing);
  }

  /** Every strict prefix of a packet is refused before any cipher sees it. */
  lemma {:induction false} PrefixesAreRefused<P(!new)>(s: Suite<P>, payload: P, parts: seq<Option<int>>,
      key: Bytes, gcm: bool, iv: Bytes, random: Bytes, n: nat, otherKey: Bytes)
    requires Inverse(s) && |Chosen(iv, random)| == BLOCK
    requires Encode(s, payload, parts, key, gcm, iv, random).Ok?
    requires n < |Encode(s, payload, parts, key, gcm, iv, random).value|
    ensures Decode(s, Encode(s, payload, parts, key, gcm, iv, random).value[..n], otherKey)
         == Err(if n < HEADER then NotOurs else Truncated)
  {
    var packet := Encode(s, payload, parts, key, gcm, iv, random).value;
    PacketLength(s, payload, parts, key, gcm, iv, random);
    if n >= HEADER {
      var cut := packet[..n];
      assert cut[..4] == packet[..4];
      assert cut[36..40] == packet[36..40];
      assert Length(cut) == |packet| - HEADER;
    }
  }

  // ------------------------------------- nonces the two halves do not agree on

  /** A suite in which nothing is hidden and the one payload is the empty text. */
  function PlainSuite(): Suite<()> {
    Suite((key, iv, data) => data,
          (key, iv, data) => data,
          n => 8 <= n <= 128,
          (key, iv, header, data) => (data, seq(TAG, i => 0)),
          (key, iv, header, data, tag) => Some(data),
          data => data,
          data => Some(data),
          p => [],
          data => Object(()))
  }

  /** Every GCM packet with a nonce of this length that the library takes comes back. */
  ghost predicate GcmRoundTrips<P(!new)>(s: Suite<P>, n: nat) {
    forall payload: P, parts: seq<Option<int>>, key: Bytes, iv: Bytes, random: Bytes ::
      |Chosen(iv, random)| == n && Encode(s, payload, parts, key, true, iv, random).Ok? ==>
        Decode(s, Encode(s, payload, parts, key, true, iv, random).value, key) == Ok(payload)
  }

  lemma SixteenRoundTrips<P(!new)>(s: Suite<P>)
    requires Inverse(s)
    ensures GcmRoundTrips(s, BLOCK)
  {
    forall payload: P, parts: seq<Option<int>>, key: Bytes, iv: Bytes, random: Bytes
      | |Chosen(iv, random)| == BLOCK && Encode(s, payload, parts, key, true, iv, random).Ok?
      ensures Decode(s, Encode(s, payload, parts, key, true, iv, random).value, key) == Ok(payload)
    {
      var packet := Encode(s, payload, parts, key, true, iv, random).value;
      RoundTrip(s, payload, parts, key, true, iv, random, []);
      assert packet + [] == packet;
    }
  }

  lemma PlainSuiteIsInverse()
    ensures Inverse(PlainSuite())
  {
    forall p: () ensures PlainSuite().load(PlainSuite().dump(p)) == Object(p) {
      match p
      case () =>
    }
  }

  function Filled(n: nat, b: Byte): Bytes {
    seq(n, i => b)
  }

  const NO_MAC: seq<Option<int>> := [Some(0), Some(0), Some(0), Some(0), Some(0), Some(0)]

  /** The plain suite's packet for a nonce of n bytes, all 0xFF: the nonce, two numbers, and a tag of zeros. */
  lemma {:induction false} PlainPacket(key: Bytes, n: nat, iv: Bytes, random: Bytes) returns (packet: Bytes)
    requires KeyOk(key) && 8 <= n <= 128 && iv == Filled(n, 0xFF)
    ensures Encode(PlainSuite(), (), NO_MAC, key, true, iv, random) == Ok(packet)
    ensures |packet| == HEADER + n && packet[..4] == MAGIC && packet[14..16] == U16(Flags(true))
    ensures packet[16..] == iv + [0, 0, 0, 1] + [0, 0, 0, 16] + Filled(TAG, 0)
  {
    var s := PlainSuite();
    var header := Header(MacBytes(NO_MAC), Flags(true), iv, TAG);
    packet := header + ([] + Filled(TAG, 0));
    HeaderFields(MacBytes(NO_MAC), Flags(true), iv, TAG);
    var sealed := s.gcm(key, iv, header, []);
    assert sealed.1 == Filled(TAG, 0);
    assert packet[..4] == header[..4] && packet[14..16] == header[14..16];
    NumberBytes();
    assert header[16..] == iv + U32(1) + U32(TAG);
    assert packet[16..] == header[16..] + Filled(TAG, 0);
  }

  lemma NumberBytes()
    ensures U32(1) == [0, 0, 0, 1] && U32(TAG) == [0, 0, 0, 16]
  {
    assert U16(0) == [0, 0] && U16(1) == [0, 1] && U16(16) == [0, 16];
  }

  lemma BigOfFour(b: Bytes)
    requires |b| == 4
    ensures var hi: int := b[0]; var mid: int := b[1]; var lo: int := b[2];
            FromBig(b) == 0x100_0000 * hi + 0x1_0000 * mid + 0x100 * lo + b[3]
  {
    assert b == b[..2] + b[2..];
    BigAppend(b[..2], b[2..]);
    BigOfTwo(b[..2]);
    BigOfTwo(b[2..]);
  }

  /**
   * Where the decoder looks for the length, such a packet holds less than a tag or more than is there, unless n is
   * sixteen.
   */
  lemma {:induction false} MisreadLength(n: nat, tail: Bytes)
    requires 8 <= n <= 128 && n != BLOCK
    requires tail == Filled(n, 0xFF) + [0, 0, 0, 1] + [0, 0, 0, 16] + Filled(TAG, 0)
    ensures FromBig(tail[20..24]) < TAG || FromBig(tail[20..24]) > n
  {
    var b := tail[20..24];
    BigOfFour(b);
    if n >= 21 {
      assert b[0] == tail[20] == 0xFF;
    } else if n >= 17 {
      assert b[0] == tail[20] == if n == 17 then 1 else 0;
      assert b[1] == tail[21] == if n == 18 then 1 else 0;
      assert b[2] == tail[22] == if n == 19 then 1 else 0;
      assert b[3] == tail[23] == if n == 20 then 1 else 0;
    } else {
      assert b[0] == tail[20] == if n == 13 then 16 else 0;
      assert b[1] == tail[21] == if n == 14 then 16 else 0;
      assert b[2] == tail[22] == if n == 15 then 16 else 0;
      assert b[3] == tail[23] == 0;
    }
  }

  lemma ShortOrLongIsRefused<P>(s: Suite<P>, packet: Bytes, key: Bytes)
    requires |packet| >= HEADER && packet[..4] == MAGIC && packet[14..16] == U16(Flags(true))
    requires Length(packet) < TAG || Length(packet) > |packet| - HEADER
    ensures Decode(s, packet, key) == Err(if Length(packet) > |packet| - HEADER then Truncated else NoTag)
  {
    FlagBits();
  }

  /** The plain suite's packet with such a nonce is refused. */
  lemma OtherNonceIsMisread(key: Bytes, n: nat, iv: Bytes, random: Bytes)
    requires KeyOk(key) && 8 <= n <= 128 && n != BLOCK && iv == Filled(n, 0xFF)
    ensures var packet := Encode(PlainSuite(), (), NO_MAC, key, true, iv, random);
            packet.Ok? && Decode(PlainSuite(), packet.value, key).Err?
  {
    var packet := PlainPacket(key, n, iv, random);
    assert packet[36..40] == packet[16..][20..24];
    MisreadLength(n, packet[16..]);
    ShortOrLongIsRefused(PlainSuite(), packet, key);
  }

  /**
   * Of the nonce lengths GCM mode takes, only sixteen is one both halves agree on: it is the one length at
   * which every suite brings every packet back.
   */
  lemma GcmRoundTripsIff(n: nat)
    requires 8 <= n <= 128
    ensures (forall s: Suite<()> :: Inverse(s) ==> GcmRoundTrips(s, n)) <==> n == BLOCK
  {
    if n == BLOCK {
      forall s: Suite<()> | Inverse(s) ensures GcmRoundTrips(s, n) {
        SixteenRoundTrips(s);
      }
    } else {
      var s, key, iv := PlainSuite(), Filled(16, 0), Filled(n, 0xFF);
      PlainSuiteIsInverse();
      OtherNonceIsMisread(key, n, iv, []);
      assert |Chosen(iv, [])| == n;
      assert !GcmRoundTrips(s, n);
    }
  }
}
