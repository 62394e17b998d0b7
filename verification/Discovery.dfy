/**
 Discovery announcements: the VITA-49 packet that carries them and the `key=value` payload
 (`src/discovery.c`; ANSI/VITA 49.0, sections 6.1 and 6.2).
 */
module Discovery {
  import opened Text
  import opened Fields
  import opened StopSignal
  import opened Config

  /** An `unsigned char` of a packet, read as text without conversion. */
  type Octet = c: char | c as int < 256 witness 'a'

  const PACKET_MAX := 4096
  const EXT_DATA_WITH_STREAM := 3
  const DISCOVERY_STREAM := 0x0000_0800
  const DISCOVERY_CLASS := 0x534c_ffff

  datatype Radio = Radio(host: string, port: nat, serial: string, model: string, name: string)

  /** `ntohl` of the four octets at `at`. */
  function Word(packet: seq<Octet>, at: nat): (w: nat)
    requires at + 4 <= |packet|
    ensures w < 0x1_0000_0000
  {
    (packet[at] as int) * 0x100_0000 + (packet[at + 1] as int) * 0x1_0000
      + (packet[at + 2] as int) * 0x100 + packet[at + 3] as int
  }

  // The fields of the header word.
  function PacketType(header: nat): nat { header / 0x1000_0000 }
  predicate HasClass(header: nat) { header / 0x800_0000 % 2 == 1 }
  function Tsi(header: nat): nat { header / 0x40_0000 % 4 }
  function Tsf(header: nat): nat { header / 0x10_0000 % 4 }
  function SizeInOctets(header: nat): nat { header % 0x1_0000 * 4 }

  /** Where the payload starts: header, stream, class, then the optional timestamps. */
  function PayloadOffset(header: nat): nat {
    16 + (if Tsi(header) != 0 then 4 else 0) + (if Tsf(header) != 0 then 8 else 0)
  }

  predicate HeaderOk(packet: seq<Octet>) {
    |packet| >= 16
    && var header := Word(packet, 0);
       && PacketType(header) == EXT_DATA_WITH_STREAM && HasClass(header)
       && 16 <= SizeInOctets(header) <= |packet|
       && Word(packet, 4) == DISCOVERY_STREAM && Word(packet, 12) == DISCOVERY_CLASS
       && PayloadOffset(header) < SizeInOctets(header)
  }

  /** The text without the NULs at its end. */
  function TrimNuls(s: string): (t: string)
    ensures t <= s
    ensures t != "" ==> t[|t| - 1] != '\0'
  {
    if s != "" && s[|s| - 1] == '\0' then TrimNuls(s[..|s| - 1]) else s
  }

  /** The payload text of a well-formed packet. */
  function Payload(packet: seq<Octet>): Option<string> {
    if !HeaderOk(packet) then None
    else
      var header := Word(packet, 0);
      var text := TrimNuls(packet[PayloadOffset(header)..SizeInOctets(header)]);
      if text == "" || '\0' in text then None else Some(text)
  }

  function Or(first: Option<string>, second: Option<string>): string {
    match first
    case Some(v) => v
    case None => match second case Some(v) => v case None => ""
  }

  function PortOf(text: string): Option<nat> {
    var scan := Strtoul(text, 10);
    if scan.overflow || scan.end == 0 || scan.end != |text| || scan.value < 1 || scan.value > 65535 then None
    else Some(scan.value)
  }

  /** The radio that a payload describes; model and name are optional. */
  function Described(payload: string, ipv4: string -> bool): Option<Radio> {
    var serial := StrictValue(payload, "serial", MAX_RADIO_SERIAL + 1);
    var host := StrictValue(payload, "ip", MAX_IPV4_TEXT + 1);
    var port := StrictValue(payload, "port", 16);
    if serial.None? || host.None? || port.None? || !ipv4(host.value) || PortOf(port.value).None? then None
    else
      Some(Radio(host.value, PortOf(port.value).value, serial.value,
                 Or(StrictValue(payload, "model", 64), None),
                 Or(StrictValue(payload, "nickname", 64), StrictValue(payload, "name", 64))))
  }

  function Announced(packet: seq<Octet>, ipv4: string -> bool): Option<Radio> {
    match Payload(packet)
    case None => None
    case Some(payload) => Described(payload, ipv4)
  }

  // ------------------------------------------------------------------
  // The parser
  // ------------------------------------------------------------------

  lemma TrimStep(s: string, n: nat)
    requires 0 < n <= |s| && s[n - 1] == '\0'
    ensures TrimNuls(s[..n]) == TrimNuls(s[..n - 1])
  {
    assert s[..n][..n - 1] == s[..n - 1];
  }

  /** The loop that drops the NULs at the end of the payload field. */
  method WithoutPadding(field: string) returns (payload: string)
    ensures payload == TrimNuls(field)
  {
    var payloadSize := |field|;
    assert field[..payloadSize] == field;
    while payloadSize > 0 && field[payloadSize - 1] == '\0'
      invariant 0 <= payloadSize <= |field|
      invariant TrimNuls(field[..payloadSize]) == TrimNuls(field)
    {
      TrimStep(field, payloadSize);
      payloadSize := payloadSize - 1;
    }
    payload := field[..payloadSize];
  }

  /** `parse_packet`, second half: the fields of the payload. */
  method ParsePayload(payload: string, ipv4: string -> bool) returns (radio: Option<Radio>)
    ensures radio == Described(payload, ipv4)
  {
    var serial := StrictField(payload, "serial", MAX_RADIO_SERIAL + 1);
    if serial.None? {
      return None;
    }
    var host := StrictField(payload, "ip", MAX_IPV4_TEXT + 1);
    if host.None? {
      return None;
    }
    var portText := StrictField(payload, "port", 16);
    if portText.None? || !ipv4(host.value) {
      return None;
    }
    var port := PortOf(portText.value);
    if port.None? {
      return None;
    }
    var model := StrictField(payload, "model", 64);
    var name := StrictField(payload, "nickname", 64);
    if name.None? {
      name := StrictField(payload, "name", 64);
    }
    return Some(Radio(host.value, port.value, serial.value, Or(model, None), Or(name, None)));
  }

  /** `parse_packet`. */
  method ParsePacket(packet: seq<Octet>, ipv4: string -> bool) returns (radio: Option<Radio>)
    requires |packet| <= PACKET_MAX
    ensures radio == Announced(packet, ipv4)
  {
    hide Described, Word;
    if |packet| < 16 {
      return None;
    }
    var header := Word(packet, 0);
    var packetSize := SizeInOctets(header);
    if PacketType(header) != EXT_DATA_WITH_STREAM || !HasClass(header)
       || packetSize > |packet| || packetSize < 16 || Word(packet, 4) != DISCOVERY_STREAM {
      return None;
    }
    var payloadOffset := 16;
    if Word(packet, 12) != DISCOVERY_CLASS {
      return None;
    }
    if Tsi(header) != 0 {
      payloadOffset := payloadOffset + 4;
    }
    if Tsf(header) != 0 {
      payloadOffset := payloadOffset + 8;
    }
    if payloadOffset >= packetSize {
      return None;
    }
    var payload := WithoutPadding(packet[payloadOffset..packetSize]);
    // The size test is the source's; it is never the reason for a rejection.
    if |payload| == 0 || |payload| > PACKET_MAX || '\0' in payload {
      return None;
    }
    radio := ParsePayload(payload, ipv4);
  }

  /** Octets beyond the size that the packet declares never matter. */
  lemma ParsingIsLocal(packet: seq<Octet>, other: seq<Octet>)
    requires |packet| >= 16 && |other| >= 16
    requires var size := SizeInOctets(Word(packet, 0));
      16 <= size <= |packet| && size <= |other| && packet[..size] == other[..size]
    ensures Payload(packet) == Payload(other)
  {
    var size := SizeInOctets(Word(packet, 0));
    assert forall i :: 0 <= i < 16 ==> packet[i] == packet[..size][i] == other[..size][i] == other[i];
    if HeaderOk(packet) {
      var offset := PayloadOffset(Word(packet, 0));
      assert packet[offset..size] == packet[..size][offset..] == other[..size][offset..] == other[offset..size];
    }
  }

  // ------------------------------------------------------------------
  // The radio's side: writing an announcement
  // ------------------------------------------------------------------

  /** `htonl`. */
  function Octets(w: nat): (s: seq<Octet>)
    requires w < 0x1_0000_0000
    ensures |s| == 4
  {
    [(w / 0x100_0000) as char, (w / 0x1_0000 % 0x100) as char, (w / 0x100 % 0x100) as char, (w % 0x100) as char]
  }

  /** The variable parts of the header word; `flags` are the three bits below the class bit. */
  datatype Header = Header(flags: nat, tsi: nat, tsf: nat, count: nat, words: nat) {
    predicate Valid() {
      flags < 8 && tsi < 4 && tsf < 4 && count < 16 && words < 0x1_0000
    }

    function Value(): (w: nat)
      requires Valid()
      ensures w < 0x1_0000_0000
    {
      EXT_DATA_WITH_STREAM * 0x1000_0000 + 0x800_0000 + flags * 0x100_0000 + tsi * 0x40_0000 + tsf * 0x10_0000
        + count * 0x1_0000 + words
    }
  }

  function Nuls(n: nat): (s: seq<Octet>)
    ensures |s| == n
  {
    seq(n, _ => '\0')
  }

  function Prefix(header: Header, oui: nat): (s: seq<Octet>)
    requires header.Valid() && oui < 0x1_0000_0000
    ensures |s| == 16
  {
    Octets(header.Value()) + Octets(DISCOVERY_STREAM) + Octets(oui) + Octets(DISCOVERY_CLASS)
  }

  /** Header, stream, class, timestamps, payload, NUL padding. */
  function Packet(header: Header, oui: nat, stamps: seq<Octet>, payload: seq<Octet>, padding: nat): seq<Octet>
    requires header.Valid() && oui < 0x1_0000_0000
  {
    Prefix(header, oui) + (stamps + (payload + Nuls(padding)))
  }

  /** The header describes the packet. */
  predicate Consistent(header: Header, stamps: seq<Octet>, payload: seq<Octet>, padding: nat) {
    && header.Valid()
    && |stamps| == (if header.tsi != 0 then 4 else 0) + (if header.tsf != 0 then 8 else 0)
    && header.words * 4 == 16 + |stamps| + |payload| + padding
  }

  lemma WordOfOctets(before: seq<Octet>, w: nat, after: seq<Octet>)
    requires w < 0x1_0000_0000
    ensures Word(before + Octets(w) + after, |before|) == w
  {
    hide Octets;
    var p, n, o := before + Octets(w) + after, |before|, Octets(w);
    assert p[n] == o[0] && p[n + 1] == o[1] && p[n + 2] == o[2] && p[n + 3] == o[3];
    WordValue(w);
  }

  lemma WordValue(w: nat)
    requires w < 0x1_0000_0000
    ensures Word(Octets(w), 0) == w
  {
    var a, b := w / 0x100_0000, w / 0x1_0000;
    assert b == a * 0x100 + b % 0x100;
    assert w / 0x100 == b * 0x100 + w / 0x100 % 0x100;
  }

  lemma NoSmallMultiple(k: int, d: int)
    requires d >= 0
    ensures k >= 1 ==> k * d >= d
    ensures k <= -1 ==> k * d <= -d
  {
  }

  lemma QuotientOf(w: nat, q: nat, d: nat, r: nat)
    requires w == q * d + r && r < d
    ensures w / d == q && w % d == r
  {
    var k := w / d - q;
    assert k * d == (w / d) * d - q * d;
    NoSmallMultiple(k, d);
  }

  lemma HeaderFields(header: Header)
    requires header.Valid()
    ensures var w := header.Value();
      && PacketType(w) == EXT_DATA_WITH_STREAM && HasClass(w)
      && Tsi(w) == header.tsi && Tsf(w) == header.tsf && SizeInOctets(w) == header.words * 4
  {
    var low := header.count * 0x1_0000 + header.words;
    HighFields(header, low, header.tsf * 0x10_0000 + low);
    LowFields(header, low);
  }

  lemma HighFields(header: Header, low: nat, mid: nat)
    requires header.Valid() && low == header.count * 0x1_0000 + header.words && mid == header.tsf * 0x10_0000 + low
    ensures PacketType(header.Value()) == EXT_DATA_WITH_STREAM && HasClass(header.Value())
    ensures Tsi(header.Value()) == header.tsi
  {
    var w := header.Value();
    var high := header.flags * 0x100_0000 + header.tsi * 0x40_0000 + mid;
    QuotientOf(w, 3, 0x1000_0000, 0x800_0000 + high);
    QuotientOf(w, 7, 0x800_0000, high);
    QuotientOf(w, 3 * 64 + 32 + header.flags * 4 + header.tsi, 0x40_0000, mid);
  }

  lemma LowFields(header: Header, low: nat)
    requires header.Valid() && low == header.count * 0x1_0000 + header.words
    ensures Tsf(header.Value()) == header.tsf && SizeInOctets(header.Value()) == header.words * 4
  {
    var w := header.Value();
    var upper := 3 * 256 + 128 + header.flags * 16 + header.tsi * 4 + header.tsf;
    QuotientOf(w, upper, 0x10_0000, low);
    QuotientOf(w, upper * 16 + header.count, 0x1_0000, header.words);
  }

  lemma PrefixWords(header: Header, oui: nat, rest: seq<Octet>)
    requires header.Valid() && oui < 0x1_0000_0000
    ensures var packet := Prefix(header, oui) + rest;
      && Word(packet, 0) == header.Value()
      && Word(packet, 4) == DISCOVERY_STREAM
      && Word(packet, 12) == DISCOVERY_CLASS
  {
    var h, s, o, c := Octets(header.Value()), Octets(DISCOVERY_STREAM), Octets(oui), Octets(DISCOVERY_CLASS);
    var packet := Prefix(header, oui) + rest;
    WordOfOctets([], header.Value(), s + o + c + rest);
    assert packet == [] + h + (s + o + c + rest);
    WordOfOctets(h, DISCOVERY_STREAM, o + c + rest);
    assert packet == h + s + (o + c + rest);
    WordOfOctets(h + s + o, DISCOVERY_CLASS, rest);
    assert packet == (h + s + o) + c + rest;
  }

  lemma {:induction false} TrimPadding(text: string, n: nat)
    requires text != "" && text[|text| - 1] != '\0'
    ensures TrimNuls(text + Nuls(n)) == text
  {
    var s := text + Nuls(n);
    if n == 0 {
      assert s == text;
    } else {
      assert s[..|s| - 1] == text + Nuls(n - 1);
      TrimPadding(text, n - 1);
    }
  }

  /** The payload of a packet is found again behind any combination of timestamps. */
  lemma PayloadRoundTrip(header: Header, oui: nat, stamps: seq<Octet>, payload: seq<Octet>, padding: nat)
    requires oui < 0x1_0000_0000 && Consistent(header, stamps, payload, padding)
    requires payload != "" && '\0' !in payload
    ensures Payload(Packet(header, oui, stamps, payload, padding)) == Some(payload)
  {
    var packet := Packet(header, oui, stamps, payload, padding);
    PrefixWords(header, oui, stamps + (payload + Nuls(padding)));
    HeaderFields(header);
    var offset := 16 + |stamps|;
    assert packet[offset..] == payload + Nuls(padding);
    assert packet[offset..header.words * 4] == payload + Nuls(padding);
    TrimPadding(payload, padding);
  }

  /** The same when more octets arrive than the packet declares. */
  lemma SurplusIsIgnored(header: Header, oui: nat, stamps: seq<Octet>, payload: seq<Octet>, padding: nat, surplus: seq<Octet>)
    requires oui < 0x1_0000_0000 && Consistent(header, stamps, payload, padding)
    requires payload != "" && '\0' !in payload
    ensures Payload(Packet(header, oui, stamps, payload, padding) + surplus) == Some(payload)
  {
    hide Payload;
    var packet := Packet(header, oui, stamps, payload, padding);
    PayloadRoundTrip(header, oui, stamps, payload, padding);
    PrefixWords(header, oui, stamps + (payload + Nuls(padding)));
    HeaderFields(header);
    assert packet[..|packet|] == packet && (packet + surplus)[..|packet|] == packet;
    ParsingIsLocal(packet, packet + surplus);
  }

  // ------------------------------------------------------------------
  // Only announcements are accepted
  // ------------------------------------------------------------------

  lemma OctetsOfWord(packet: seq<Octet>, at: nat)
    requires at + 4 <= |packet|
    ensures Octets(Word(packet, at)) == packet[at..at + 4]
  {
    var w := Word(packet, at);
    var a, b, c, d := packet[at] as int, packet[at + 1] as int, packet[at + 2] as int, packet[at + 3] as int;
    QuotientOf(w, a, 0x100_0000, b * 0x1_0000 + c * 0x100 + d);
    QuotientOf(w, a * 0x100 + b, 0x1_0000, c * 0x100 + d);
    QuotientOf(w, (a * 0x100 + b) * 0x100 + c, 0x100, d);
  }

  /** The variable parts of a header word. */
  function HeaderOf(w: nat): (h: Header)
    ensures h.Valid()
  {
    Header(w / 0x100_0000 % 8, Tsi(w), Tsf(w), w / 0x1_0000 % 16, w % 0x1_0000)
  }

  lemma HeaderIsItsFields(w: nat)
    requires w < 0x1_0000_0000 && PacketType(w) == EXT_DATA_WITH_STREAM && HasClass(w)
    ensures HeaderOf(w).Value() == w && SizeInOctets(w) == HeaderOf(w).words * 4
  {
    var q24, q22, q20, q16 := w / 0x100_0000, w / 0x40_0000, w / 0x10_0000, w / 0x1_0000;
    assert w / 0x1000_0000 == 3 && w / 0x800_0000 == 7;
    assert q24 == 56 + q24 % 8;
    assert q22 == q24 * 4 + q22 % 4;
    assert q20 == q22 * 4 + q20 % 4;
    assert q16 == q20 * 16 + q16 % 16;
    assert w == q16 * 0x1_0000 + w % 0x1_0000;
  }

  lemma {:induction false} TrimmedIsPadded(field: seq<Octet>) returns (padding: nat)
    ensures |TrimNuls(field)| + padding == |field| && field == field[..|TrimNuls(field)|] + Nuls(padding)
    ensures TrimNuls(field) == field[..|TrimNuls(field)|]
  {
    padding := 0;
    if field != "" && field[|field| - 1] == '\0' {
      var front := field[..|field| - 1];
      padding := TrimmedIsPadded(front);
      var text := front[..|TrimNuls(front)|];
      assert field == front + ['\0'] && Nuls(padding) + ['\0'] == Nuls(padding + 1);
      assert field == text + Nuls(padding + 1) && field[..|text|] == text;
      padding := padding + 1;
    }
  }

  /** The converse of the round trip: whatever is accepted is the header, stream, class, timestamps,
      payload and padding of an announcement, followed by octets that it does not declare. */
  lemma AcceptedIsAnAnnouncement(packet: seq<Octet>)
    returns (header: Header, oui: nat, stamps: seq<Octet>, payload: seq<Octet>, padding: nat, surplus: seq<Octet>)
    requires Payload(packet).Some?
    ensures oui < 0x1_0000_0000 && Consistent(header, stamps, payload, padding)
    ensures Payload(packet) == Some(payload) && payload != "" && '\0' !in payload
    ensures packet == Packet(header, oui, stamps, payload, padding) + surplus
  {
    hide Word, Octets, TrimNuls, Tsi, Tsf, PacketType, HasClass;
    var w := Word(packet, 0);
    var offset, size := PayloadOffset(w), SizeInOctets(w);
    header, oui := HeaderOf(w), Word(packet, 8);
    stamps, surplus := packet[16..offset], packet[size..];
    HeaderIsItsFields(w);
    padding := TrimmedIsPadded(packet[offset..size]);
    payload := packet[offset..size][..|packet[offset..size]| - padding];
    OctetsOfWord(packet, 0);
    OctetsOfWord(packet, 4);
    OctetsOfWord(packet, 8);
    OctetsOfWord(packet, 12);
    assert packet[..16] == packet[0..4] + packet[4..8] + packet[8..12] + packet[12..16];
    assert packet[..16] == Prefix(header, oui);
    assert packet == packet[..16] + (stamps + packet[offset..size]) + surplus;
  }

  // ------------------------------------------------------------------
  // The payload
  // ------------------------------------------------------------------

  /** A written value that fits its buffer. */
  function Fitting(fields: seq<(string, string)>, key: string, limit: nat): Option<string> {
    match Value(fields, key)
    case Some(v) => if 1 <= |v| <= limit then Some(v) else None
    case None => None
  }

  /** What any written payload says: serial number, address and port are required, model and name
      optional, and the nickname goes before the name. */
  lemma WrittenPayloadDescribes(fields: seq<(string, string)>, ipv4: string -> bool)
    requires forall i :: 0 <= i < |fields| ==> Writable(fields[i])
    ensures var described := Described(Joined(TokensOf(fields)), ipv4);
      var serial, host, port := Fitting(fields, "serial", 63), Fitting(fields, "ip", 15), Fitting(fields, "port", 15);
      && (described.Some? <==>
            serial.Some? && host.Some? && port.Some? && ipv4(host.value) && PortOf(port.value).Some?)
      && (described.Some? ==>
            var radio := described.value;
            && Some(radio.serial) == serial && Some(radio.host) == host && Some(radio.port) == PortOf(port.value)
            && (match Fitting(fields, "model", 63) case Some(v) => radio.model == v case None => radio.model == "")
            && (match Fitting(fields, "nickname", 63)
                case Some(v) => radio.name == v
                case None => (match Fitting(fields, "name", 63) case Some(v) => radio.name == v case None => radio.name == "")))
  {
    hide Lookup, Value, PortOf, Joined, TokensOf;
    LookupWritten(fields, "serial");
    LookupWritten(fields, "ip");
    LookupWritten(fields, "port");
    LookupWritten(fields, "model");
    LookupWritten(fields, "nickname");
    LookupWritten(fields, "name");
  }

  /** A written number is a port exactly if it is between 1 and 65535. */
  lemma PortRoundTrip(port: nat)
    requires port <= ULONG_MAX
    ensures PortOf(Decimal(port)) == if 1 <= port <= 65535 then Some(port) else None
    ensures port <= 65535 ==> |Decimal(port)| <= 5
  {
    StrtoulReadsDecimal(port, "");
    assert Decimal(port) + "" == Decimal(port);
    assert Pow10(5) == 100000;
    if port <= 65535 {
      DecimalLength(port, 5);
    }
  }

  /** The fields of a radio fit their buffers and can be written. */
  predicate Fits(radio: Radio, ipv4: string -> bool) {
    && 1 <= |radio.serial| <= MAX_RADIO_SERIAL && 1 <= |radio.host| <= MAX_IPV4_TEXT && ipv4(radio.host)
    && 1 <= radio.port <= 65535 && |radio.model| <= 63 && |radio.name| <= 63
    && ' ' !in radio.serial && ' ' !in radio.host && ' ' !in radio.model && ' ' !in radio.name
  }

  /** The order of fields in which a radio announces itself. */
  function RadioFields(radio: Radio, version: string, callsign: string): seq<(string, string)> {
    [("model", radio.model), ("serial", radio.serial), ("version", version), ("nickname", radio.name),
     ("callsign", callsign), ("ip", radio.host), ("port", Decimal(radio.port))]
  }

  lemma PayloadDescribesRadio(radio: Radio, version: string, callsign: string, ipv4: string -> bool)
    requires Fits(radio, ipv4) && ' ' !in version && ' ' !in callsign
    ensures Described(Joined(TokensOf(RadioFields(radio, version, callsign))), ipv4) == Some(radio)
  {
    hide Joined, Lookup, PortOf, TokensOf;
    var fields := RadioFields(radio, version, callsign);
    assert forall i :: 0 <= i < |fields| ==> Writable(fields[i]);
    PortRoundTrip(radio.port);
    FieldWritten(fields, "model", 0);
    FieldWritten(fields, "serial", 1);
    FieldWritten(fields, "nickname", 3);
    FieldWritten(fields, "ip", 5);
    FieldWritten(fields, "port", 6);
    FieldWritten(fields, "name", 7);
  }

  /** For every timestamp combination, class OUI, padding and radio whose fields fit: parsing the
      announcement gives the radio back. */
  lemma AnnouncementRoundTrip(radio: Radio, version: string, callsign: string, ipv4: string -> bool,
                              header: Header, oui: nat, stamps: seq<Octet>, payload: seq<Octet>, padding: nat)
    requires Fits(radio, ipv4) && ' ' !in version && ' ' !in callsign
    requires payload == Joined(TokensOf(RadioFields(radio, version, callsign))) && '\0' !in payload
    requires oui < 0x1_0000_0000 && Consistent(header, stamps, payload, padding)
    ensures Announced(Packet(header, oui, stamps, payload, padding), ipv4) == Some(radio)
  {
    PayloadDescribesRadio(radio, version, callsign, ipv4);
    assert payload != "" by {
      assert Described("", ipv4).None?;
    }
    PayloadRoundTrip(header, oui, stamps, payload, padding);
  }

  // ------------------------------------------------------------------
  // Waiting for a matching announcement
  // ------------------------------------------------------------------

  /** The selectors of the configuration; an empty one matches every radio. */
  datatype Selector = Selector(serial: string, ip: string)

  predicate Matches(selector: Selector, radio: Radio) {
    && (selector.serial == "" || SameText(selector.serial, radio.serial))
    && (selector.ip == "" || selector.ip == radio.host)
  }

  /** What one poll of the discovery socket brings. */
  datatype Arrival = Nothing | PollFailed | Datagram(octets: seq<Octet>)

  datatype WaitResult = WaitStopped | Matched(radio: Radio) | WaitError

  /** The radio that an arrival makes the wait return, if any. */
  function Chosen(selector: Selector, arrival: Arrival, ipv4: string -> bool): Option<Radio> {
    match arrival
    case Datagram(octets) =>
      (match Announced(octets, ipv4)
       case Some(radio) => if Matches(selector, radio) then Some(radio) else None
       case None => None)
    case _ => None
  }

  /** Every configured selector must agree with the same announcement, and nothing else keeps an
      announcement from being chosen. */
  lemma SelectorsArePinned(selector: Selector, octets: seq<Octet>, ipv4: string -> bool)
    requires Announced(octets, ipv4).Some?
    ensures var radio := Announced(octets, ipv4).value;
      && (Chosen(selector, Datagram(octets), ipv4).None? <==>
            (selector.serial != "" && !SameText(selector.serial, radio.serial))
            || (selector.ip != "" && selector.ip != radio.host))
      && (Chosen(selector, Datagram(octets), ipv4).Some? ==> Chosen(selector, Datagram(octets), ipv4) == Some(radio))
  {
    hide Announced;
  }

  /** `ag_discovery_wait` from the bound socket on.  It looks at the stop flag before each arrival,
      and stops only when the flag is set or nothing arrives any more. */
  method Wait(selector: Selector, stop: StopFlag, arrivals: seq<Arrival>, ipv4: string -> bool)
    returns (result: WaitResult, seen: nat)
    requires forall i :: 0 <= i < |arrivals| && arrivals[i].Datagram? ==> |arrivals[i].octets| <= PACKET_MAX
    modifies stop
    ensures old(stop.requested) ==> stop.requested && result == WaitStopped && seen == 0
    ensures result == WaitStopped ==> stop.requested || seen == |arrivals|
    ensures seen <= |arrivals|
    ensures forall i :: 0 <= i < seen ==> arrivals[i] != PollFailed && Chosen(selector, arrivals[i], ipv4).None?
    ensures result.Matched? ==> seen < |arrivals| && Chosen(selector, arrivals[seen], ipv4) == Some(result.radio)
    ensures result.Matched? && selector.serial != "" ==> SameText(selector.serial, result.radio.serial)
    ensures result.Matched? && selector.ip != "" ==> selector.ip == result.radio.host
    ensures result == WaitError ==> seen < |arrivals| && arrivals[seen] == PollFailed
  {
    seen := 0;
    while seen < |arrivals|
      invariant 0 <= seen <= |arrivals|
      invariant forall i :: 0 <= i < seen ==> arrivals[i] != PollFailed && Chosen(selector, arrivals[i], ipv4).None?
      invariant old(stop.requested) ==> stop.requested && seen == 0
    {
      var stopping := stop.Poll();
      if stopping {
        return WaitStopped, seen;
      }
      match arrivals[seen] {
        case Nothing =>
        case PollFailed => return WaitError, seen;
        case Datagram(octets) =>
          var radio := ParsePacket(octets, ipv4);
          if radio.Some? && Matches(selector, radio.value) {
            return Matched(radio.value), seen;
          }
      }
      seen := seen + 1;
    }
    return WaitStopped, seen;
  }
}
