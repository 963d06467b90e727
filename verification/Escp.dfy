/** Discovery packets: building the request, and accepting a response. */
module Escp {
  import opened Results
  import opened Cipher
  import opened Tlv

  type Mac = m: seq<byte> | |m| == 6 witness [0, 0, 0, 0, 0, 0]
  type Ipv4 = a: seq<byte> | |a| == 4 witness [0, 0, 0, 0]
  type dword = d: int | 0 <= d < 0x1_0000_0000

  const HEADER_LENGTH: nat := 32
  const PACKET_END: seq<byte> := [0xff, 0xff, 0, 0]
  const DISCOVERY_REQUEST: byte := 0
  const DISCOVERY_RESPONSE: byte := 2

  /** The fields of `!BB6s6sHIHHHHI`. */
  datatype Header = Header(
    version: byte, operation: byte, switchMac: Mac, clientMac: Mac, sequence: word, errorCode: dword,
    packetLength: word, fragmentOffset: word, flags: word, token: word, checksum: dword)

  datatype DiscoveredSwitch = DiscoveredSwitch(
    host: Ipv4, mac: string, model: string, name: string, firmware: Option<string>, hardware: Option<string>)

  function HighWord(d: dword): word {
    d / 0x1_0000
  }

  function LowWord(d: dword): word {
    d % 0x1_0000
  }

  function DWord(high: word, low: word): dword {
    var h: int, l: int := high, low;
    h * 0x1_0000 + l
  }

  function Pack(h: Header): (b: seq<byte>)
    ensures |b| == HEADER_LENGTH
  {
    [h.version, h.operation,
     h.switchMac[0], h.switchMac[1], h.switchMac[2], h.switchMac[3], h.switchMac[4], h.switchMac[5],
     h.clientMac[0], h.clientMac[1], h.clientMac[2], h.clientMac[3], h.clientMac[4], h.clientMac[5],
     High(h.sequence), Low(h.sequence),
     High(HighWord(h.errorCode)), Low(HighWord(h.errorCode)), High(LowWord(h.errorCode)), Low(LowWord(h.errorCode)),
     High(h.packetLength), Low(h.packetLength),
     High(h.fragmentOffset), Low(h.fragmentOffset),
     High(h.flags), Low(h.flags),
     High(h.token), Low(h.token),
     High(HighWord(h.checksum)), Low(HighWord(h.checksum)), High(LowWord(h.checksum)), Low(LowWord(h.checksum))]
  }

  function Unpack(b: seq<byte>): Header
    requires |b| >= HEADER_LENGTH
  {
    Header(b[0], b[1], [b[2], b[3], b[4], b[5], b[6], b[7]], [b[8], b[9], b[10], b[11], b[12], b[13]],
           Word(b[14], b[15]), DWord(Word(b[16], b[17]), Word(b[18], b[19])),
           Word(b[20], b[21]), Word(b[22], b[23]), Word(b[24], b[25]), Word(b[26], b[27]),
           DWord(Word(b[28], b[29]), Word(b[30], b[31])))
  }

  lemma DWordOfParts(d: dword)
    ensures DWord(HighWord(d), LowWord(d)) == d
  {
  }

  lemma PartsOfDWord(high: word, low: word)
    ensures HighWord(DWord(high, low)) == high && LowWord(DWord(high, low)) == low
  {
  }

  lemma UnpackOfPack(h: Header)
    ensures Unpack(Pack(h)) == h
  {
    hide High, Low, Word, HighWord, LowWord, DWord;
    var b := Pack(h);
    assert [b[2], b[3], b[4], b[5], b[6], b[7]] == h.switchMac;
    assert [b[8], b[9], b[10], b[11], b[12], b[13]] == h.clientMac;
    WordOfParts(h.sequence);
    WordOfParts(HighWord(h.errorCode));
    WordOfParts(LowWord(h.errorCode));
    DWordOfParts(h.errorCode);
    WordOfParts(h.packetLength);
    WordOfParts(h.fragmentOffset);
    WordOfParts(h.flags);
    WordOfParts(h.token);
    WordOfParts(HighWord(h.checksum));
    WordOfParts(LowWord(h.checksum));
    DWordOfParts(h.checksum);
  }

  lemma PackOfUnpack(b: seq<byte>)
    requires |b| == HEADER_LENGTH
    ensures Pack(Unpack(b)) == b
  {
    hide High, Low, Word, HighWord, LowWord, DWord;
    PartsOfDWord(Word(b[16], b[17]), Word(b[18], b[19]));
    PartsOfDWord(Word(b[28], b[29]), Word(b[30], b[31]));
    PartsOfWord(b[14], b[15]);
    PartsOfWord(b[16], b[17]);
    PartsOfWord(b[18], b[19]);
    PartsOfWord(b[20], b[21]);
    PartsOfWord(b[22], b[23]);
    PartsOfWord(b[24], b[25]);
    PartsOfWord(b[26], b[27]);
    PartsOfWord(b[28], b[29]);
    PartsOfWord(b[30], b[31]);
    var copy := [b[0], b[1], b[2], b[3], b[4], b[5], b[6], b[7],
               b[8], b[9], b[10], b[11], b[12], b[13], b[14], b[15],
               b[16], b[17], b[18], b[19], b[20], b[21], b[22], b[23],
               b[24], b[25], b[26], b[27], b[28], b[29], b[30], b[31]];
    assert Pack(Unpack(b)) == copy;
    assert b == copy;
  }

  lemma DWordIsBigEndian(b0: byte, b1: byte, b2: byte, b3: byte)
    ensures BigEndian([b0, b1, b2, b3]) == DWord(Word(b0, b1), Word(b2, b3))
  {
    WordIsBigEndian(b0, b1);
    BigEndianAppends([b0, b1], b2);
    BigEndianAppends([b0, b1, b2], b3);
    assert [b0, b1] + [b2] == [b0, b1, b2] && [b0, b1, b2] + [b3] == [b0, b1, b2, b3];
  }

  /** The wire layout: network order, in the order and the widths of the format string. */
  lemma HeaderLayout(b: seq<byte>)
    requires |b| == HEADER_LENGTH
    ensures var h := Unpack(b);
            && h.version == b[0] && h.operation == b[1] && h.switchMac == b[2..8] && h.clientMac == b[8..14]
            && h.sequence == BigEndian(b[14..16]) && h.errorCode == BigEndian(b[16..20])
            && h.packetLength == BigEndian(b[20..22]) && h.fragmentOffset == BigEndian(b[22..24])
            && h.flags == BigEndian(b[24..26]) && h.token == BigEndian(b[26..28])
            && h.checksum == BigEndian(b[28..32])
  {
    hide Word, DWord, BigEndian;
    WordIsBigEndian(b[14], b[15]);
    DWordIsBigEndian(b[16], b[17], b[18], b[19]);
    WordIsBigEndian(b[20], b[21]);
    WordIsBigEndian(b[22], b[23]);
    WordIsBigEndian(b[24], b[25]);
    WordIsBigEndian(b[26], b[27]);
    DWordIsBigEndian(b[28], b[29], b[30], b[31]);
    assert b[14..16] == [b[14], b[15]] && b[16..20] == [b[16], b[17], b[18], b[19]];
    assert b[20..22] == [b[20], b[21]] && b[22..24] == [b[22], b[23]];
    assert b[24..26] == [b[24], b[25]] && b[26..28] == [b[26], b[27]] && b[28..32] == [b[28], b[29], b[30], b[31]];
  }

  /** The bytes of a packet before encryption. */
  function Plain(h: Header, payload: seq<byte>): (b: seq<byte>)
    ensures |b| == HEADER_LENGTH + |payload| + |PACKET_END|
  {
    Pack(h) + payload + PACKET_END
  }

  /** None stands for the ValueError that a client MAC of another length raises. */
  function BuildDiscoveryPacket(clientMac: seq<byte>, sequence: word): Option<seq<byte>> {
    if |clientMac| != 6 then None
    else
      var h := Header(1, DISCOVERY_REQUEST, [0, 0, 0, 0, 0, 0], clientMac, sequence, 0, 36, 0, 0, 0, 0);
      Some(Crypt(Plain(h, [])))
  }

  /** The request of any client, decrypted: its fields in order, and nothing but a six-byte address is refused. */
  lemma RequestLayout(clientMac: seq<byte>, sequence: word)
    ensures BuildDiscoveryPacket(clientMac, sequence).Some? <==> |clientMac| == 6
    ensures |clientMac| == 6 ==>
              var b := Crypt(BuildDiscoveryPacket(clientMac, sequence).value);
              && |b| == 36 && b[0] == 1 && b[1] == 0 && b[2..8] == [0, 0, 0, 0, 0, 0] && b[8..14] == clientMac
              && BigEndian(b[14..16]) == sequence && BigEndian(b[16..20]) == 0 && BigEndian(b[20..22]) == 36
              && BigEndian(b[22..24]) == 0 && BigEndian(b[24..26]) == 0 && BigEndian(b[26..28]) == 0
              && BigEndian(b[28..32]) == 0 && b[32..] == [0xff, 0xff, 0, 0]
  {
    hide Crypt, Pack, Unpack, BigEndian;
    if |clientMac| == 6 {
      var h := Header(1, DISCOVERY_REQUEST, [0, 0, 0, 0, 0, 0], clientMac, sequence, 0, 36, 0, 0, 0, 0);
      CryptTwice(Plain(h, []));
      UnpackOfPack(h);
      HeaderOfPlain(h, []);
    }
  }

  /** The layout of a packet's first 32 bytes. */
  lemma HeaderOfPlain(h: Header, payload: seq<byte>)
    ensures var b := Plain(h, payload);
            && b[0] == h.version && b[1] == h.operation && b[2..8] == h.switchMac && b[8..14] == h.clientMac
            && BigEndian(b[14..16]) == h.sequence && BigEndian(b[16..20]) == h.errorCode
            && BigEndian(b[20..22]) == h.packetLength && BigEndian(b[22..24]) == h.fragmentOffset
            && BigEndian(b[24..26]) == h.flags && BigEndian(b[26..28]) == h.token
            && BigEndian(b[28..32]) == h.checksum
  {
    hide Pack, Unpack, BigEndian;
    var b, p := Plain(h, payload), Pack(h);
    UnpackOfPack(h);
    HeaderLayout(p);
    assert b[..32] == p;
    assert b[2..8] == p[2..8] && b[8..14] == p[8..14] && b[14..16] == p[14..16] && b[16..20] == p[16..20];
    assert b[20..22] == p[20..22] && b[22..24] == p[22..24] && b[24..26] == p[24..26];
    assert b[26..28] == p[26..28] && b[28..32] == p[28..32];
  }

  // ---------- fields ----------

  /** The bytes before the first NUL. */
  function CString(value: seq<byte>): (r: seq<byte>)
    ensures r <= value && 0 !in r
    ensures |r| < |value| ==> value[|r|] == 0
  {
    if value == [] || value[0] == 0 then [] else [value[0]] + CString(value[1..])
  }

  function HexDigit(n: nat): char
    requires n < 16
  {
    if n < 10 then '0' + n as char else 'A' + (n - 10) as char
  }

  predicate UsableMac(value: seq<byte>) {
    |value| == 6 && value != [0, 0, 0, 0, 0, 0] && value != [0xff, 0xff, 0xff, 0xff, 0xff, 0xff]
  }

  lemma MacIsBigEndian(m: Mac)
    ensures BigEndian(m) ==
            0x1_00_0000_0000 * m[0] as int + 0x1_0000_0000 * m[1] as int + 0x100_0000 * m[2] as int +
            0x1_0000 * m[3] as int + 0x100 * m[4] as int + m[5] as int
  {
    BigEndianAppends(m[..4], m[4]);
    BigEndianAppends(m[..5], m[5]);
    DWordIsBigEndian(m[0], m[1], m[2], m[3]);
    hide BigEndian;
    assert m[..4] == [m[0], m[1], m[2], m[3]];
    assert m[..5] == m[..4] + [m[4]] && m == m[..5] + [m[5]];
  }

  /** As 48-bit numbers: all but the least and the greatest. */
  lemma UsableMacRange(m: Mac)
    ensures UsableMac(m) <==> 0 < BigEndian(m) < 0xFFFF_FFFF_FFFF
  {
    hide BigEndian;
    MacIsBigEndian(m);
    assert m == [m[0], m[1], m[2], m[3], m[4], m[5]];
  }

  function HighDigit(b: byte): char {
    HexDigit(b / 16)
  }

  function LowDigit(b: byte): char {
    HexDigit(b % 16)
  }

  function FormatMac(m: Mac): string {
    [HighDigit(m[0]), LowDigit(m[0]), ':', HighDigit(m[1]), LowDigit(m[1]), ':',
     HighDigit(m[2]), LowDigit(m[2]), ':', HighDigit(m[3]), LowDigit(m[3]), ':',
     HighDigit(m[4]), LowDigit(m[4]), ':', HighDigit(m[5]), LowDigit(m[5])]
  }

  /** Six pairs of upper-case hexadecimal digits, the high digit first, with colons between them. */
  lemma FormatMacDigits(m: Mac, i: nat)
    requires i < 6
    ensures var s := FormatMac(m);
            && |s| == 17
            && s[3 * i] == "0123456789ABCDEF"[m[i] / 16] && s[3 * i + 1] == "0123456789ABCDEF"[m[i] % 16]
            && (i < 5 ==> s[3 * i + 2] == ':')
  {
    DigitIsHex(m[i] / 16);
    DigitIsHex(m[i] % 16);
    hide HexDigit;
    assert i == 0 || i == 1 || i == 2 || i == 3 || i == 4 || i == 5;
  }

  lemma DigitIsHex(n: nat)
    requires n < 16
    ensures HexDigit(n) == "0123456789ABCDEF"[n]
  {
  }

  lemma DigitsDetermine(a: byte, b: byte)
    requires HighDigit(a) == HighDigit(b) && LowDigit(a) == LowDigit(b)
    ensures a == b
  {
  }

  /** Different switches have different formatted MACs. */
  lemma FormatMacIsInjective(a: Mac, b: Mac)
    requires FormatMac(a) == FormatMac(b)
    ensures a == b
  {
    hide HighDigit, LowDigit;
    var s, t := FormatMac(a), FormatMac(b);
    assert s[0] == t[0] && s[1] == t[1] && s[3] == t[3] && s[4] == t[4] && s[6] == t[6] && s[7] == t[7];
    assert s[9] == t[9] && s[10] == t[10] && s[12] == t[12] && s[13] == t[13] && s[15] == t[15] && s[16] == t[16];
    DigitsDetermine(a[0], b[0]);
    DigitsDetermine(a[1], b[1]);
    DigitsDetermine(a[2], b[2]);
    DigitsDetermine(a[3], b[3]);
    DigitsDetermine(a[4], b[4]);
    DigitsDetermine(a[5], b[5]);
    assert a == [a[0], a[1], a[2], a[3], a[4], a[5]] == b;
  }

  /** Not unspecified, not multicast, not loopback. */
  predicate ValidHost(a: Ipv4) {
    a != [0, 0, 0, 0] && !(224 <= a[0] <= 239) && a[0] != 127
  }

  /** As 32-bit numbers: not 0.0.0.0, not in 224.0.0.0/4, not in 127.0.0.0/8. */
  lemma ValidHostRanges(a: Ipv4)
    ensures ValidHost(a) <==>
            var n := BigEndian(a);
            n != 0 && !(0xE000_0000 <= n < 0xF000_0000) && !(0x7F00_0000 <= n < 0x8000_0000)
  {
    DWordIsBigEndian(a[0], a[1], a[2], a[3]);
    assert a == [a[0], a[1], a[2], a[3]];
  }

  /** The reported address when it is usable, else the address the datagram came from. */
  function Host(values: map<int, seq<byte>>, source: Option<Ipv4>): Option<Ipv4> {
    if 4 in values && |values[4]| == 4 && ValidHost(values[4]) then Some(values[4])
    else if source.Some? && ValidHost(source.value) then source
    else None
  }

  function Text(values: map<int, seq<byte>>, kind: int, charset: seq<byte> -> string): string {
    charset(CString(if kind in values then values[kind] else []))
  }

  /** The switch that a structurally correct response describes, if its fields are usable. */
  function Identify(
    switchMac: Mac, values: map<int, seq<byte>>, source: Option<Ipv4>, charset: seq<byte> -> string)
    : Option<DiscoveredSwitch>
  {
    var reported := if 3 in values then values[3] else switchMac;
    if !UsableMac(reported) then None
    else if 3 in values && values[3] != switchMac then None
    else
      var host := Host(values, source);
      if host.None? then None
      else
        var model := Text(values, 1, charset);
        var name := Text(values, 2, charset);
        if model == "" then None
        else
          Some(DiscoveredSwitch(
            host.value, FormatMac(reported), model, if name == "" then model else name,
            if 7 in values then Some(Text(values, 7, charset)) else None,
            if 8 in values then Some(Text(values, 8, charset)) else None))
  }

  // ---------- responses ----------

  predicate IsAnswer(h: Header, length: nat, clientMac: seq<byte>, sequence: int) {
    && h.version == 1 && h.operation == DISCOVERY_RESPONSE
    && h.clientMac == clientMac && h.sequence == sequence
    && h.errorCode == 0 && h.packetLength == length && h.fragmentOffset == 0
  }

  function ParsePlain(
    plain: seq<byte>, source: Option<Ipv4>, clientMac: seq<byte>, sequence: int, charset: seq<byte> -> string)
    : Option<DiscoveredSwitch>
  {
    var n := |plain|;
    if n < HEADER_LENGTH + |PACKET_END| then None
    else if plain[n - 4..] != PACKET_END then None
    else
      var h := Unpack(plain[..HEADER_LENGTH]);
      if !IsAnswer(h, n, clientMac, sequence) then None
      else
        match Records(plain[HEADER_LENGTH..n - 4], 0)
        case None => None
        case Some(rs) => Identify(h.switchMac, LastWins(rs), source, charset)
  }

  function ParseResponse(
    data: seq<byte>, source: Option<Ipv4>, clientMac: seq<byte>, sequence: int, charset: seq<byte> -> string)
    : Option<DiscoveredSwitch>
  {
    ParsePlain(Crypt(data), source, clientMac, sequence, charset)
  }

  method ReadPlain(
    plain: seq<byte>, source: Option<Ipv4>, clientMac: seq<byte>, sequence: int, charset: seq<byte> -> string)
    returns (r: Option<DiscoveredSwitch>)
    ensures r == ParsePlain(plain, source, clientMac, sequence, charset)
  {
    hide Unpack, Records, LastWins, Identify, IsAnswer;
    var n := |plain|;
    if n < HEADER_LENGTH + |PACKET_END| {
      return None;
    }
    if plain[n - 4..] != PACKET_END {
      return None;
    }
    var h := Unpack(plain[..HEADER_LENGTH]);
    if !IsAnswer(h, n, clientMac, sequence) {
      return None;
    }
    var values := ReadValues(plain[HEADER_LENGTH..n - 4]);
    if values.None? {
      return None;
    }
    r := Identify(h.switchMac, values.value, source, charset);
  }

  method ParseDiscoveryResponse(
    data: seq<byte>, source: Option<Ipv4>, clientMac: seq<byte>, sequence: int, charset: seq<byte> -> string)
    returns (r: Option<DiscoveredSwitch>)
    ensures r == ParseResponse(data, source, clientMac, sequence, charset)
  {
    hide CipherState, CryptWith, ParsePlain;
    var decoded := CryptInPlace(CipherState(), data);
    r := ReadPlain(decoded, source, clientMac, sequence, charset);
  }

  /** The free fields of a response to one client's request. */
  datatype Answer = Answer(switchMac: Mac, flags: word, token: word, checksum: dword, records: seq<Record>)

  ghost predicate Sendable(a: Answer) {
    Encodable(a.records) && 36 + |Serialize(a.records)| < 0x1_0000
  }

  ghost function AnswerHeader(a: Answer, clientMac: Mac, sequence: word): Header
    requires Sendable(a)
  {
    Header(1, DISCOVERY_RESPONSE, a.switchMac, clientMac, sequence, 0, 36 + |Serialize(a.records)|, 0,
           a.flags, a.token, a.checksum)
  }

  /** The encrypted datagram of an answer. */
  ghost function Response(a: Answer, clientMac: Mac, sequence: word): seq<byte>
    requires Sendable(a)
  {
    Crypt(Plain(AnswerHeader(a, clientMac, sequence), Serialize(a.records)))
  }

  lemma PartsOfPlain(h: Header, payload: seq<byte>)
    ensures var b := Plain(h, payload);
            && b[..HEADER_LENGTH] == Pack(h)
            && b[HEADER_LENGTH..|b| - 4] == payload
            && b[|b| - 4..] == PACKET_END
  {
  }

  lemma PlainOfParts(b: seq<byte>)
    requires |b| >= 36 && b[|b| - 4..] == PACKET_END
    ensures Plain(Unpack(b[..HEADER_LENGTH]), b[HEADER_LENGTH..|b| - 4]) == b
  {
    PackOfUnpack(b[..HEADER_LENGTH]);
    assert b == b[..HEADER_LENGTH] + b[HEADER_LENGTH..|b| - 4] + b[|b| - 4..];
  }

  /** Every well-formed encrypted response for this client and sequence is read back as its own fields. */
  lemma ResponseParsesToItsFields(
    a: Answer, clientMac: Mac, sequence: word, source: Option<Ipv4>, charset: seq<byte> -> string)
    requires Sendable(a)
    ensures ParseResponse(Response(a, clientMac, sequence), source, clientMac, sequence, charset) ==
            Identify(a.switchMac, LastWins(a.records), source, charset)
  {
    hide Crypt, Identify, Pack, Unpack;
    var h := AnswerHeader(a, clientMac, sequence);
    CryptTwice(Plain(h, Serialize(a.records)));
    PartsOfPlain(h, Serialize(a.records));
    UnpackOfPack(h);
    RecordsDecompose(Serialize(a.records), a.records);
  }

  // ---------- the fields of a response, record by record ----------

  ghost predicate Occurs(rs: seq<Record>, kind: int) {
    exists i :: 0 <= i < |rs| && rs[i].kind == kind
  }

  /** Record i is the last of its type. */
  ghost predicate LastAt(rs: seq<Record>, kind: int, i: nat) {
    i < |rs| && rs[i].kind == kind && forall k :: i < k < |rs| ==> rs[k].kind != kind
  }

  /** The text of the last record of the type, read up to its first NUL; of no bytes without such a record. */
  ghost predicate Spells(rs: seq<Record>, kind: int, charset: seq<byte> -> string, text: string) {
    if Occurs(rs, kind) then exists i: nat :: LastAt(rs, kind, i) && text == charset(CString(rs[i].value))
    else text == charset([])
  }

  ghost predicate SpellsOptional(
    rs: seq<Record>, kind: int, charset: seq<byte> -> string, text: Option<string>)
  {
    if text.Some? then Occurs(rs, kind) && Spells(rs, kind, charset, text.value) else !Occurs(rs, kind)
  }

  /** The last type 4 record names a usable address. */
  ghost predicate ReportsHost(rs: seq<Record>, host: Ipv4) {
    ValidHost(host) && exists i: nat :: LastAt(rs, 4, i) && rs[i].value == host
  }

  /** The reported address if it is usable, else the sender's if that is usable. */
  ghost predicate Locates(rs: seq<Record>, source: Option<Ipv4>, host: Ipv4) {
    ReportsHost(rs, host) || (!(exists h :: ReportsHost(rs, h)) && source == Some(host) && ValidHost(host))
  }

  /** The switch is what the records say, field by field. */
  ghost predicate Describes(
    d: DiscoveredSwitch, mac: Mac, rs: seq<Record>, source: Option<Ipv4>, charset: seq<byte> -> string)
  {
    && d.mac == FormatMac(mac)
    && Locates(rs, source, d.host)
    && d.model != "" && Spells(rs, 1, charset, d.model)
    && (if Spells(rs, 2, charset, "") then d.name == d.model else Spells(rs, 2, charset, d.name))
    && SpellsOptional(rs, 7, charset, d.firmware)
    && SpellsOptional(rs, 8, charset, d.hardware)
  }

  /** The records describe a switch at all. */
  ghost predicate Identifiable(mac: Mac, rs: seq<Record>, source: Option<Ipv4>, charset: seq<byte> -> string) {
    && UsableMac(mac)
    && (forall i: nat :: LastAt(rs, 3, i) ==> rs[i].value == mac)
    && (exists host :: Locates(rs, source, host))
    && !Spells(rs, 1, charset, "")
  }

  lemma LastValue(rs: seq<Record>, kind: int)
    ensures kind in LastWins(rs) <==> Occurs(rs, kind)
    ensures forall i: nat :: LastAt(rs, kind, i) ==> kind in LastWins(rs) && LastWins(rs)[kind] == rs[i].value
    ensures Occurs(rs, kind) ==> exists i: nat :: LastAt(rs, kind, i)
  {
    LastWinsMeaning(rs, kind);
    if Occurs(rs, kind) {
      var i :| && 0 <= i < |rs| && rs[i].kind == kind && LastWins(rs)[kind] == rs[i].value
               && forall k :: i < k < |rs| ==> rs[k].kind != kind;
      assert LastAt(rs, kind, i);
    }
  }

  lemma TextIsSpelt(rs: seq<Record>, kind: int, charset: seq<byte> -> string, text: string)
    ensures Spells(rs, kind, charset, text) <==> text == Text(LastWins(rs), kind, charset)
  {
    LastValue(rs, kind);
  }

  lemma HostIsLocated(rs: seq<Record>, source: Option<Ipv4>, host: Ipv4)
    ensures Locates(rs, source, host) <==> Host(LastWins(rs), source) == Some(host)
  {
    LastValue(rs, 4);
    if 4 in LastWins(rs) && |LastWins(rs)[4]| == 4 && ValidHost(LastWins(rs)[4]) {
      assert ReportsHost(rs, LastWins(rs)[4]);
    }
  }

  lemma IdentifiedFields(mac: Mac, rs: seq<Record>, source: Option<Ipv4>, charset: seq<byte> -> string)
    ensures var r := Identify(mac, LastWins(rs), source, charset);
            && (r.Some? <==> Identifiable(mac, rs, source, charset))
            && (r.Some? ==> Describes(r.value, mac, rs, source, charset))
  {
    hide FormatMac, Text, Host, Spells, Locates, LastWins;
    LastValue(rs, 3);
    LastValue(rs, 7);
    LastValue(rs, 8);
    forall kind, text
      ensures Spells(rs, kind, charset, text) <==> text == Text(LastWins(rs), kind, charset)
    {
      TextIsSpelt(rs, kind, charset, text);
    }
    forall host
      ensures Locates(rs, source, host) <==> Host(LastWins(rs), source) == Some(host)
    {
      HostIsLocated(rs, source, host);
    }
  }

  /**
   * A response to this client and sequence is accepted exactly when its records describe a switch, and is
   * then read as that switch, field by field.
   */
  lemma ResponseFields(
    a: Answer, clientMac: Mac, sequence: word, source: Option<Ipv4>, charset: seq<byte> -> string)
    requires Sendable(a)
    ensures var r := ParseResponse(Response(a, clientMac, sequence), source, clientMac, sequence, charset);
            && (r.Some? <==> Identifiable(a.switchMac, a.records, source, charset))
            && (r.Some? ==> Describes(r.value, a.switchMac, a.records, source, charset))
  {
    hide ParseResponse, Response, Identify, Identifiable, Describes;
    ResponseParsesToItsFields(a, clientMac, sequence, source, charset);
    IdentifiedFields(a.switchMac, a.records, source, charset);
  }

  /** The bytes of an accepted response, decrypted: the header's fixed fields, its addressee and its length. */
  lemma AcceptedBytes(
    data: seq<byte>, source: Option<Ipv4>, clientMac: seq<byte>, sequence: int, charset: seq<byte> -> string)
    requires ParseResponse(data, source, clientMac, sequence, charset).Some?
    ensures var b := Crypt(data);
            && |b| >= 36 && b[0] == 1 && b[1] == 2 && b[8..14] == clientMac
            && BigEndian(b[14..16]) == sequence && BigEndian(b[16..20]) == 0
            && BigEndian(b[20..22]) == |b| && BigEndian(b[22..24]) == 0 && b[|b| - 4..] == [0xff, 0xff, 0, 0]
  {
    hide Crypt, Identify, Unpack, Pack, BigEndian;
    var b := Crypt(data);
    HeaderLayout(b[..32]);
    var p := b[..32];
    assert b[8..14] == p[8..14] && b[14..16] == p[14..16] && b[16..20] == p[16..20];
    assert b[20..22] == p[20..22] && b[22..24] == p[22..24];
  }

  /** Only such responses are accepted: an accepted datagram is the encryption of exactly one answer. */
  lemma AcceptedIsResponse(
    data: seq<byte>, source: Option<Ipv4>, clientMac: seq<byte>, sequence: int, charset: seq<byte> -> string)
    requires ParseResponse(data, source, clientMac, sequence, charset).Some?
    ensures |clientMac| == 6 && 0 <= sequence < 0x1_0000
    ensures exists a ::
              && Sendable(a) && data == Response(a, clientMac, sequence)
              && ParseResponse(data, source, clientMac, sequence, charset) ==
                 Identify(a.switchMac, LastWins(a.records), source, charset)
              && Describes(ParseResponse(data, source, clientMac, sequence, charset).value,
                           a.switchMac, a.records, source, charset)
  {
    hide Crypt, Identify, Pack, Unpack, Describes, Identifiable;
    var plain := Crypt(data);
    CryptTwice(data);
    PlainOfParts(plain);
    var n := |plain|;
    var h := Unpack(plain[..HEADER_LENGTH]);
    var payload := plain[HEADER_LENGTH..n - 4];
    var rs := Records(payload, 0).value;
    RecordsDecompose(payload, rs);
    var a := Answer(h.switchMac, h.flags, h.token, h.checksum, rs);
    assert Sendable(a) && AnswerHeader(a, clientMac, sequence) == h;
    assert data == Response(a, clientMac, sequence);
    IdentifiedFields(a.switchMac, rs, source, charset);
  }

  /** No two answers share a datagram. */
  lemma ResponseIsInjective(a: Answer, b: Answer, clientMac: Mac, sequence: word)
    requires Sendable(a) && Sendable(b)
    requires Response(a, clientMac, sequence) == Response(b, clientMac, sequence)
    ensures a == b
  {
    hide Crypt, Pack, Unpack, Plain;
    var g, h := AnswerHeader(a, clientMac, sequence), AnswerHeader(b, clientMac, sequence);
    CryptTwice(Plain(g, Serialize(a.records)));
    CryptTwice(Plain(h, Serialize(b.records)));
    PartsOfPlain(g, Serialize(a.records));
    PartsOfPlain(h, Serialize(b.records));
    UnpackOfPack(g);
    UnpackOfPack(h);
    SerializeIsInjective(a.records, b.records);
  }

  /** The MAC of an accepted response is the formatted header MAC, whatever its type 3 record says. */
  lemma AcceptedMacIsHeaderMac(
    data: seq<byte>, source: Option<Ipv4>, clientMac: seq<byte>, sequence: int, charset: seq<byte> -> string)
    requires ParseResponse(data, source, clientMac, sequence, charset).Some?
    ensures |data| >= 36
    ensures var headerMac := Crypt(data)[2..8];
            && UsableMac(headerMac)
            && ParseResponse(data, source, clientMac, sequence, charset).value.mac == FormatMac(headerMac)
  {
    hide Crypt, FormatMac;
    var plain := Crypt(data);
    assert Unpack(plain[..HEADER_LENGTH]).switchMac == plain[2..8];
  }

  /** What else an accepted response guarantees. */
  lemma AcceptedIsUsable(
    switchMac: Mac, values: map<int, seq<byte>>, source: Option<Ipv4>, charset: seq<byte> -> string)
    ensures Identify(switchMac, values, source, charset).Some? <==>
            && UsableMac(switchMac) && (3 in values ==> values[3] == switchMac)
            && ((4 in values && |values[4]| == 4 && ValidHost(values[4])) || (source.Some? && ValidHost(source.value)))
            && Text(values, 1, charset) != ""
    ensures Identify(switchMac, values, source, charset).Some? ==>
              var d := Identify(switchMac, values, source, charset).value;
              ValidHost(d.host) && d.model != "" && d.name != "" && d.mac == FormatMac(switchMac)
  {
    hide FormatMac, Text;
  }

  /** Our own broadcast, echoed back, is never taken for a switch, by this scan or any other. */
  lemma EchoIsRejected(
    clientMac: seq<byte>, sequence: word, source: Option<Ipv4>, client': seq<byte>, sequence': int,
    charset: seq<byte> -> string)
    requires BuildDiscoveryPacket(clientMac, sequence).Some?
    ensures ParseResponse(BuildDiscoveryPacket(clientMac, sequence).value, source, client', sequence', charset) == None
  {
    hide Crypt, Identify, Pack, Unpack;
    var h := Header(1, DISCOVERY_REQUEST, [0, 0, 0, 0, 0, 0], clientMac, sequence, 0, 36, 0, 0, 0, 0);
    CryptTwice(Plain(h, []));
    PartsOfPlain(h, []);
    UnpackOfPack(h);
  }
}
