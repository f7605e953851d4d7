/**
 The DHCP wire format (dhcp/dhcp.go; section 2 of RFC 2131 and section 2 of RFC 2132): Marshal fills a
 buffer of a precomputed size through a moving cursor, ParseDHCPMessage walks the options back into a map.
 */
module DhcpCodec {
  import opened Bytes
  import opened Addresses

  const HEADER_SIZE := 240
  const PAD := 0
  const END := 255
  const COOKIE: seq<Byte> := [99, 130, 83, 99]

  /** Options written first: message type, server, mask, router, DNS, lease time, requested address. */
  const LEADING: seq<Byte> := [53, 54, 1, 3, 6, 51, 50]

  type Options = map<Byte, seq<Byte>>

  datatype Message = Message(
    opCode: Byte, hardwareType: Byte, hardwareLength: Byte, hops: Byte,
    transactionID: Uint32, seconds: Uint16, flags: Uint16,
    clientIP: seq<Byte>, yourIP: seq<Byte>, serverIP: seq<Byte>, gatewayIP: seq<Byte>,
    clientHardware: seq<Byte>, serverHostname: seq<Byte>, bootFileName: seq<Byte>, options: Options)

  /** Panicked: the walk reads the length byte behind the last byte of the data. */
  datatype Outcome<T> = Parsed(value: T) | TooShort | Panicked

  // ---- The fixed part ----

  /** copy(buf[pos:limit], src) */
  function Copied(buf: seq<Byte>, pos: nat, limit: nat, src: seq<Byte>): (r: seq<Byte>)
    requires pos <= limit <= |buf|
    ensures |r| == |buf|
  {
    var n := if |src| <= limit - pos then |src| else limit - pos;
    buf[..pos] + src[..n] + buf[pos + n..]
  }

  lemma ReadOther(buf: seq<Byte>, pos: nat, limit: nat, src: seq<Byte>, lo: nat, hi: nat)
    requires pos <= limit <= |buf| && lo <= hi <= |buf| && (hi <= pos || limit <= lo)
    ensures Copied(buf, pos, limit, src)[lo..hi] == buf[lo..hi]
  {
  }

  function V4OrNothing(ip: seq<Byte>): seq<Byte> {
    if To4(ip).Some? then To4(ip).value else []
  }

  function Zeros(n: nat): seq<Byte> {
    seq(n, _ => 0)
  }

  /** The first n bytes of s, filled up with zeros. */
  function Padded(s: seq<Byte>, n: nat): (r: seq<Byte>)
    ensures |r| == n
  {
    Copied(Zeros(n), 0, n, s)
  }

  lemma PaddedFits(s: seq<Byte>)
    ensures Padded(s, |s|) == s
  {
  }

  function Numbers(m: Message): (r: seq<Byte>)
    ensures |r| == 12
  {
    [m.opCode, m.hardwareType, m.hardwareLength, m.hops]
    + FromValue(m.transactionID, 4) + FromValue(m.seconds, 2) + FromValue(m.flags, 2)
  }

  /** Bytes 0 to 33: the numbers, the four addresses and the hardware address. */
  function Fields(m: Message): (r: seq<Byte>)
    ensures |r| == 34
  {
    Numbers(m) + Padded(V4OrNothing(m.clientIP), 4) + Padded(V4OrNothing(m.yourIP), 4)
    + Padded(V4OrNothing(m.serverIP), 4) + Padded(V4OrNothing(m.gatewayIP), 4) + Padded(m.clientHardware, 6)
  }

  /** Host and file names run over whatever follows them when they are too long; the cookie comes last. */
  function Header(m: Message): (r: seq<Byte>)
    ensures |r| == HEADER_SIZE
  {
    var b := Fields(m) + Zeros(206);
    var b := Copied(b, 44, HEADER_SIZE, m.serverHostname);
    var b := Copied(b, 108, HEADER_SIZE, m.bootFileName);
    b[..236] + COOKIE
  }

  lemma HeaderKeepsFields(m: Message)
    ensures Header(m)[..34] == Fields(m)
    ensures Header(m)[236..] == COOKIE
  {
    var b0 := Fields(m) + Zeros(206);
    var b1 := Copied(b0, 44, HEADER_SIZE, m.serverHostname);
    var b2 := Copied(b1, 108, HEADER_SIZE, m.bootFileName);
    ReadOther(b0, 44, HEADER_SIZE, m.serverHostname, 0, 34);
    ReadOther(b1, 108, HEADER_SIZE, m.bootFileName, 0, 34);
    assert b0[..34] == Fields(m);
    assert Header(m) == b2[..236] + COOKIE;
  }

  // ---- Options ----

  function EncodeOptions(options: Options, codes: seq<Byte>): seq<Byte>
    requires forall c :: c in codes ==> c in options
  {
    if codes == [] then []
    else
      var v := options[codes[0]];
      [codes[0], |v| % 256] + v + EncodeOptions(options, codes[1..])
  }

  function Present(options: Options, codes: seq<Byte>): (r: seq<Byte>)
    ensures forall c :: c in r <==> c in codes && c in options
  {
    if codes == [] then []
    else (if codes[0] in options then [codes[0]] else []) + Present(options, codes[1..])
  }

  /** rest is an iteration order of the options that are neither leading nor the end marker. */
  ghost predicate IsOrder(options: Options, rest: seq<Byte>) {
    && (forall c :: c in rest <==> c in options && c !in LEADING && c != END)
    && (forall i, j :: 0 <= i < j < |rest| ==> rest[i] != rest[j])
  }

  ghost function Codes(options: Options, rest: seq<Byte>): seq<Byte> {
    Present(options, LEADING) + rest
  }

  ghost function Wire(m: Message, rest: seq<Byte>): seq<Byte>
    requires IsOrder(m.options, rest)
  {
    Header(m) + EncodeOptions(m.options, Codes(m.options, rest)) + [END]
  }

  function ParseOptions(data: seq<Byte>, acc: Options): Outcome<Options>
    decreases |data|
  {
    if data == [] || data[0] == END then Parsed(acc)
    else if data[0] == PAD then ParseOptions(data[1..], acc)
    else if |data| == 1 then Panicked
    else
      var n := data[1];
      if 2 + n > |data| then Parsed(acc)
      else ParseOptions(data[2 + n..], acc[data[0] := data[2..2 + n]])
  }

  function Parse(data: seq<Byte>): Outcome<Message> {
    if |data| < HEADER_SIZE then TooShort
    else
      match ParseOptions(data[HEADER_SIZE..], map[])
      case Parsed(options) =>
        assert Pow256(4) == 0x1_0000_0000 && Pow256(2) == 0x1_0000;
        ValueBound(data[4..8]); ValueBound(data[8..10]); ValueBound(data[10..12]);
        Parsed(Message(data[0], data[1], data[2], data[3],
                       Value(data[4..8]), Value(data[8..10]), Value(data[10..12]),
                       data[12..16], data[16..20], data[20..24], data[24..28], data[28..34], [], [], options))
      case TooShort => TooShort
      case Panicked => Panicked
  }

  // ---- Round trip ----

  /** What the format can carry: codes 1 to 254 with values of at most 255 bytes. */
  ghost predicate Carriable(options: Options) {
    forall c :: c in options ==> c != PAD && c != END && |options[c]| <= 255
  }

  lemma {:induction false} ParsingIsCarriable(data: seq<Byte>, acc: Options)
    requires Carriable(acc)
    ensures ParseOptions(data, acc).Parsed? ==> Carriable(ParseOptions(data, acc).value)
    decreases |data|
  {
    if data == [] || data[0] == END {
    } else if data[0] == PAD {
      ParsingIsCarriable(data[1..], acc);
    } else if |data| > 1 && 2 + data[1] <= |data| {
      ParsingIsCarriable(data[2 + data[1]..], acc[data[0] := data[2..2 + data[1]]]);
    }
  }

  ghost function Restrict(options: Options, codes: seq<Byte>): Options
    requires forall c :: c in codes ==> c in options
  {
    map c | c in codes :: options[c]
  }

  lemma {:induction false} ParseOne(c: Byte, v: seq<Byte>, tail: seq<Byte>, acc: Options)
    requires c != PAD && c != END && |v| <= 255
    ensures ParseOptions([c, |v|] + v + tail, acc) == ParseOptions(tail, acc[c := v])
  {
    var data := [c, |v|] + v + tail;
    assert data[2..2 + |v|] == v && data[2 + |v|..] == tail;
  }

  lemma {:induction false} EncodeOne(options: Options, codes: seq<Byte>)
    requires Carriable(options) && codes != [] && forall c :: c in codes ==> c in options
    ensures var v := options[codes[0]];
            EncodeOptions(options, codes) + [END]
            == [codes[0], |v|] + v + (EncodeOptions(options, codes[1..]) + [END])
  {
  }

  lemma {:induction false} RestrictOne(options: Options, codes: seq<Byte>, acc: Options)
    requires codes != [] && forall c :: c in codes ==> c in options
    ensures acc[codes[0] := options[codes[0]]] + Restrict(options, codes[1..]) == acc + Restrict(options, codes)
  {
    forall c | c in codes ensures c == codes[0] || c in codes[1..] {
    }
  }

  lemma {:induction false} OptionsRoundTrip(options: Options, codes: seq<Byte>, acc: Options)
    requires Carriable(options) && forall c :: c in codes ==> c in options
    ensures ParseOptions(EncodeOptions(options, codes) + [END], acc) == Parsed(acc + Restrict(options, codes))
    decreases |codes|
  {
    if codes == [] {
      assert acc + Restrict(options, codes) == acc;
    } else {
      var c, v := codes[0], options[codes[0]];
      EncodeOne(options, codes);
      ParseOne(c, v, EncodeOptions(options, codes[1..]) + [END], acc);
      OptionsRoundTrip(options, codes[1..], acc[c := v]);
      RestrictOne(options, codes, acc);
    }
  }

  /** A message as a receiver sees it: four-byte addresses, six bytes of hardware address, no names. */
  function Received(m: Message): Message {
    m.(clientIP := Padded(V4OrNothing(m.clientIP), 4), yourIP := Padded(V4OrNothing(m.yourIP), 4),
       serverIP := Padded(V4OrNothing(m.serverIP), 4), gatewayIP := Padded(V4OrNothing(m.gatewayIP), 4),
       clientHardware := Padded(m.clientHardware, 6), serverHostname := [], bootFileName := [])
  }

  lemma FieldSlices(m: Message, f: seq<Byte>)
    requires f == Fields(m)
    ensures f[..4] == [m.opCode, m.hardwareType, m.hardwareLength, m.hops]
    ensures f[4..8] == FromValue(m.transactionID, 4)
    ensures f[8..10] == FromValue(m.seconds, 2) && f[10..12] == FromValue(m.flags, 2)
    ensures f[12..16] == Received(m).clientIP && f[16..20] == Received(m).yourIP
    ensures f[20..24] == Received(m).serverIP && f[24..28] == Received(m).gatewayIP
    ensures f[28..34] == Received(m).clientHardware
  {
    assert f[..12] == Numbers(m);
    assert f[..4] == Numbers(m)[..4] && f[4..8] == Numbers(m)[4..8];
    assert f[8..10] == Numbers(m)[8..10] && f[10..12] == Numbers(m)[10..12];
  }

  lemma SliceOfPrefix(data: seq<Byte>, n: nat, lo: nat, hi: nat)
    requires lo <= hi <= n <= |data|
    ensures data[..n][lo..hi] == data[lo..hi]
  {
  }

  lemma WireFields(m: Message, data: seq<Byte>)
    requires |data| >= 34 && data[..34] == Fields(m)
    ensures data[0] == m.opCode && data[1] == m.hardwareType && data[2] == m.hardwareLength && data[3] == m.hops
    ensures data[4..8] == FromValue(m.transactionID, 4)
    ensures data[8..10] == FromValue(m.seconds, 2) && data[10..12] == FromValue(m.flags, 2)
    ensures data[12..16] == Received(m).clientIP && data[16..20] == Received(m).yourIP
    ensures data[20..24] == Received(m).serverIP && data[24..28] == Received(m).gatewayIP
    ensures data[28..34] == Received(m).clientHardware
  {
    FieldSlices(m, data[..34]);
    SliceOfPrefix(data, 34, 0, 4);
    assert data[..4] == [data[0], data[1], data[2], data[3]];
    SliceOfPrefix(data, 34, 4, 8);
    SliceOfPrefix(data, 34, 8, 10);
    SliceOfPrefix(data, 34, 10, 12);
    SliceOfPrefix(data, 34, 12, 16);
    SliceOfPrefix(data, 34, 16, 20);
    SliceOfPrefix(data, 34, 20, 24);
    SliceOfPrefix(data, 34, 24, 28);
    SliceOfPrefix(data, 34, 28, 34);
  }

  lemma AllCodes(options: Options, rest: seq<Byte>)
    requires IsOrder(options, rest) && Carriable(options)
    ensures Restrict(options, Codes(options, rest)) == options
  {
    forall c | c in options ensures c in Codes(options, rest) {
      assert c in Present(options, LEADING) || c in rest;
    }
  }

  /**
   Parsing a marshalled message gives the message back as a receiver sees it, for every iteration order
   of the remaining options and however long the names are, if and only if the options can be carried.
   */
  lemma RoundTripIff(m: Message, rest: seq<Byte>)
    requires IsOrder(m.options, rest)
    ensures Parse(Wire(m, rest)) == Parsed(Received(m)) <==> Carriable(m.options)
  {
    var data := Wire(m, rest);
    var encoded := EncodeOptions(m.options, Codes(m.options, rest)) + [END];
    WireTail(m, rest);
    if Carriable(m.options) {
      CarriedOptions(m, rest);
      ParseHeader(m, data);
    } else {
      ParsingIsCarriable(encoded, map[]);
    }
  }

  lemma WireTail(m: Message, rest: seq<Byte>)
    requires IsOrder(m.options, rest)
    ensures var data := Wire(m, rest);
            && |data| >= HEADER_SIZE && data[..HEADER_SIZE] == Header(m)
            && data[HEADER_SIZE..] == EncodeOptions(m.options, Codes(m.options, rest)) + [END]
  {
    assert Wire(m, rest) == Header(m) + (EncodeOptions(m.options, Codes(m.options, rest)) + [END]);
  }

  lemma CarriedOptions(m: Message, rest: seq<Byte>)
    requires IsOrder(m.options, rest) && Carriable(m.options)
    ensures ParseOptions(EncodeOptions(m.options, Codes(m.options, rest)) + [END], map[]) == Parsed(m.options)
  {
    OptionsRoundTrip(m.options, Codes(m.options, rest), map[]);
    AllCodes(m.options, rest);
    assert map[] + m.options == m.options;
  }

  lemma ParseHeader(m: Message, data: seq<Byte>)
    requires |data| >= HEADER_SIZE && data[..HEADER_SIZE] == Header(m)
    requires ParseOptions(data[HEADER_SIZE..], map[]) == Parsed(m.options)
    ensures Parse(data) == Parsed(Received(m))
  {
    HeaderKeepsFields(m);
    SliceOfPrefix(data, HEADER_SIZE, 0, 34);
    WireFields(m, data);
    assert Pow256(4) == 0x1_0000_0000 && Pow256(2) == 0x1_0000;
    ValueOfFromValue(m.transactionID, 4);
    ValueOfFromValue(m.seconds, 2);
    ValueOfFromValue(m.flags, 2);
  }

  /** The header of every marshalled message, byte by byte. */
  lemma {:induction false} WireLayout(m: Message, rest: seq<Byte>)
    requires IsOrder(m.options, rest)
    ensures var data := Wire(m, rest);
            && |data| > 240
            && data[0] == m.opCode && data[1] == m.hardwareType && data[2] == m.hardwareLength && data[3] == m.hops
            && Value(data[4..8]) == m.transactionID && Value(data[8..10]) == m.seconds && Value(data[10..12]) == m.flags
            && data[12..16] == Received(m).clientIP && data[16..20] == Received(m).yourIP
            && data[20..24] == Received(m).serverIP && data[24..28] == Received(m).gatewayIP
            && data[28..34] == Received(m).clientHardware
            && data[236] == 99 && data[237] == 130 && data[238] == 83 && data[239] == 99
            && data[|data| - 1] == 255
  {
    var data := Wire(m, rest);
    WireTail(m, rest);
    HeaderKeepsFields(m);
    SliceOfPrefix(data, HEADER_SIZE, 0, 34);
    WireFields(m, data);
    assert Pow256(4) == 0x1_0000_0000 && Pow256(2) == 0x1_0000;
    ValueOfFromValue(m.transactionID, 4);
    ValueOfFromValue(m.seconds, 2);
    ValueOfFromValue(m.flags, 2);
    CookieInPlace(m, data);
  }

  lemma {:induction false} CookieInPlace(m: Message, data: seq<Byte>)
    requires |data| >= HEADER_SIZE && data[..HEADER_SIZE] == Header(m)
    ensures data[236] == 99 && data[237] == 130 && data[238] == 83 && data[239] == 99
  {
    HeaderKeepsFields(m);
    var h := Header(m);
    assert forall k :: 0 <= k < 4 ==> data[236 + k] == h[236 + k] && h[236 + k] == h[236..][k];
    assert h[236..] == [99, 130, 83, 99];
  }

  /** The order of the seven options that are written first, in a message that has them all. */
  lemma {:induction false} LeadingOrder(options: Options, rest: seq<Byte>)
    requires {53, 54, 1, 3, 6, 51, 50} <= options.Keys && IsOrder(options, rest)
    ensures Codes(options, rest) == [53, 54, 1, 3, 6, 51, 50] + rest
  {
    AllPresent(options, LEADING);
  }

  lemma {:induction false} AllPresent(options: Options, codes: seq<Byte>)
    requires forall i :: 0 <= i < |codes| ==> codes[i] in options
    ensures Present(options, codes) == codes
  {
    if codes != [] {
      AllPresent(options, codes[1..]);
    }
  }

  /** The message type is the first option of every message that has one. */
  lemma {:induction false} MessageTypeComesFirst(m: Message, rest: seq<Byte>)
    requires IsOrder(m.options, rest) && 53 in m.options
    ensures |Wire(m, rest)| > 240 && Wire(m, rest)[240] == 53
  {
    WireTail(m, rest);
    assert LEADING[0] == 53;
    assert Codes(m.options, rest)[0] == 53;
    var encoded := EncodeOptions(m.options, Codes(m.options, rest)) + [END];
    assert encoded[0] == 53;
    assert Wire(m, rest)[240] == Wire(m, rest)[240..][0];
  }

  /** Names that fit their fields stand at bytes 44 and 108, and zeros fill what is left. */
  lemma {:induction false} NamesInPlace(m: Message)
    requires |m.serverHostname| <= 64 && |m.bootFileName| <= 128
    ensures var h, s, b := Header(m), m.serverHostname, m.bootFileName;
            && h[44..44 + |s|] == s && h[108..108 + |b|] == b
            && (forall k :: 34 <= k < 44 || 44 + |s| <= k < 108 || 108 + |b| <= k < 236 ==> h[k] == 0)
  {
    var b0 := Fields(m) + Zeros(206);
    var b1 := Copied(b0, 44, HEADER_SIZE, m.serverHostname);
    var b2 := Copied(b1, 108, HEADER_SIZE, m.bootFileName);
    assert Header(m) == b2[..236] + COOKIE;
    forall k | 34 <= k < 236
      ensures Header(m)[k] == if 108 <= k < 108 + |m.bootFileName| then m.bootFileName[k - 108]
                              else if 44 <= k < 44 + |m.serverHostname| then m.serverHostname[k - 44] else 0
    {
      CopiedAt(b1, 108, HEADER_SIZE, m.bootFileName, k);
      CopiedAt(b0, 44, HEADER_SIZE, m.serverHostname, k);
      assert Header(m)[k] == b2[k] && b0[k] == 0;
    }
  }

  /** Addresses of four bytes and hardware addresses of six come back as they were. */
  lemma ReceivedAsSent(m: Message)
    requires |m.clientIP| == |m.yourIP| == |m.serverIP| == |m.gatewayIP| == 4 && |m.clientHardware| == 6
    ensures Received(m) == m.(serverHostname := [], bootFileName := [])
  {
    PaddedFits(m.clientIP);
    PaddedFits(m.yourIP);
    PaddedFits(m.serverIP);
    PaddedFits(m.gatewayIP);
    PaddedFits(m.clientHardware);
  }

  /** An address of sixteen bytes is sent as its four, and anything that is no IPv4 address as zeros. */
  lemma {:induction false} AddressOnWire(m: Message, v4: seq<Byte>)
    requires |v4| == 4
    ensures m.clientIP == Mapped(v4) ==> Received(m).clientIP == v4
    ensures To4(m.clientIP).None? ==> Received(m).clientIP == [0, 0, 0, 0]
  {
    BothForms(v4, m.clientIP);
    PaddedFits(v4);
  }

  lemma {:induction false} MarkerPreventsPanic(data: seq<Byte>, acc: Options)
    requires data != [] && data[|data| - 1] in {PAD, END}
    ensures ParseOptions(data, acc).Parsed?
    decreases |data|
  {
    if data[0] == END {
    } else if data[0] == PAD {
      if |data| > 1 {
        MarkerPreventsPanic(data[1..], acc);
      }
    } else {
      var length: int := data[1];
      var n := 2 + length;
      if n < |data| {
        MarkerPreventsPanic(data[n..], acc[data[0] := data[2..n]]);
      }
    }
  }

  /** Which last byte rules out reading behind the data, whatever precedes it: a pad or an end marker. */
  lemma LastByteRulesOutPanicIff(b: Byte)
    ensures (forall data: seq<Byte> :: data != [] && data[|data| - 1] == b ==> !ParseOptions(data, map[]).Panicked?)
            <==> b in {PAD, END}
  {
    if b in {PAD, END} {
      forall data: seq<Byte> | data != [] && data[|data| - 1] == b ensures !ParseOptions(data, map[]).Panicked? {
        MarkerPreventsPanic(data, map[]);
      }
    } else {
      assert ParseOptions([b], map[]).Panicked?;
    }
  }

  /** A pad, or a complete option. */
  datatype Item = Padding | Option(code: Byte, value: seq<Byte>) {
    ghost predicate Valid() {
      Option? ==> code != PAD && code != END && |value| <= 255
    }

    function Bytes(): seq<Byte>
      requires Valid()
    {
      if Padding? then [PAD] else [code, |value|] + value
    }
  }

  ghost predicate ValidItems(items: seq<Item>) {
    forall i :: 0 <= i < |items| ==> items[i].Valid()
  }

  ghost function Flat(items: seq<Item>): seq<Byte>
    requires ValidItems(items)
  {
    if items == [] then [] else items[0].Bytes() + Flat(items[1..])
  }

  /** The options among the items; of options with one code the last counts. */
  ghost function Collected(items: seq<Item>, acc: Options): Options
    requires ValidItems(items)
  {
    if items == [] then acc
    else Collected(items[1..], if items[0].Padding? then acc else acc[items[0].code := items[0].value])
  }

  lemma {:induction false} ParseItems(items: seq<Item>, tail: seq<Byte>, acc: Options)
    requires ValidItems(items)
    ensures ParseOptions(Flat(items) + tail, acc) == ParseOptions(tail, Collected(items, acc))
    decreases |items|
  {
    if items == [] {
      assert Flat(items) + tail == tail;
    } else {
      var rest := Flat(items[1..]) + tail;
      assert Flat(items) + tail == items[0].Bytes() + rest;
      if items[0].Padding? {
        assert ([PAD] + rest)[1..] == rest;
        ParseItems(items[1..], tail, acc);
      } else {
        ParseOne(items[0].code, items[0].value, rest, acc);
        ParseItems(items[1..], tail, acc[items[0].code := items[0].value]);
      }
    }
  }

  /** What can follow the complete items: nothing, the end marker, a cut-off option, or a lone code. */
  predicate Stops(tail: seq<Byte>) {
    tail == [] || tail[0] == END || (tail[0] != PAD && (|tail| == 1 || 2 + tail[1] > |tail|))
  }

  predicate LoneCode(tail: seq<Byte>) {
    |tail| == 1 && tail[0] != PAD && tail[0] != END
  }

  /** The parser returns the options of the complete items; a lone code at the end makes it read behind the data. */
  lemma {:induction false} ParseForm(items: seq<Item>, tail: seq<Byte>, acc: Options)
    requires ValidItems(items) && Stops(tail)
    ensures ParseOptions(Flat(items) + tail, acc)
            == if LoneCode(tail) then Panicked else Parsed(Collected(items, acc))
  {
    ParseItems(items, tail, acc);
  }

  /** What the parser takes off data that starts with a complete option. */
  lemma {:induction false} FirstOption(data: seq<Byte>) returns (item: Item, tail: seq<Byte>)
    requires |data| > 1 && data[0] !in {PAD, END} && 2 + data[1] <= |data|
    ensures item == Item.Option(data[0], data[2..2 + data[1]]) && tail == data[2 + data[1]..]
    ensures item.Valid() && data == item.Bytes() + tail
  {
    item, tail := Item.Option(data[0], data[2..2 + data[1]]), data[2 + data[1]..];
  }

  lemma {:induction false} FlatMore(item: Item, items: seq<Item>, tail: seq<Byte>)
    requires item.Valid() && ValidItems(items)
    ensures ValidItems([item] + items) && Flat([item] + items) + tail == item.Bytes() + (Flat(items) + tail)
  {
    assert ([item] + items)[1..] == items;
  }

  /** Every input is of that form. */
  lemma {:induction false} EveryInputHasForm(data: seq<Byte>) returns (items: seq<Item>, tail: seq<Byte>)
    ensures ValidItems(items) && Stops(tail) && data == Flat(items) + tail
    decreases |data|
  {
    if Stops(data) {
      items, tail := [], data;
    } else {
      var item, rest;
      if data[0] == PAD {
        item, rest := Padding, data[1..];
      } else {
        item, rest := FirstOption(data);
      }
      assert data == item.Bytes() + rest;
      var more;
      more, tail := EveryInputHasForm(rest);
      FlatMore(item, more, tail);
      items := [item] + more;
    }
  }

  /** The data is these items and then one lone byte that asks for a length. */
  ghost predicate CutOff(data: seq<Byte>, items: seq<Item>) {
    && ValidItems(items) && data != [] && data[|data| - 1] !in {PAD, END}
    && data == Flat(items) + [data[|data| - 1]]
  }

  /**
   For every input: the parser reads behind the data exactly when the data is a list of pads and complete
   options, followed by one lone byte that is neither a pad nor an end marker.
   */
  lemma {:induction false} PanicsIff(data: seq<Byte>, acc: Options)
    ensures ParseOptions(data, acc).Panicked? <==> exists items :: CutOff(data, items)
  {
    if ParseOptions(data, acc).Panicked? {
      var items, tail := EveryInputHasForm(data);
      ParseForm(items, tail, acc);
      assert data[|data| - 1] == tail[0] && tail == [tail[0]];
      assert CutOff(data, items);
    }
    if items :| CutOff(data, items) {
      ParseForm(items, [data[|data| - 1]], acc);
    }
  }

  // ---- Size of the buffer ----

  /** Bytes taken by the options in s with a code below n. */
  function SizeBelow(options: Options, s: set<Byte>, n: nat): nat
    requires s <= options.Keys && n <= 256
  {
    if n == 0 then 0
    else SizeBelow(options, s, n - 1) + if n - 1 in s then 2 + |options[n - 1]| else 0
  }

  function SizeOf(options: Options, s: set<Byte>): nat
    requires s <= options.Keys
  {
    SizeBelow(options, s, 256)
  }

  lemma {:induction false} SizeBelowWithout(options: Options, s: set<Byte>, c: Byte, n: nat)
    requires s <= options.Keys && c in s && n <= 256
    ensures SizeBelow(options, s, n) == SizeBelow(options, s - {c}, n) + if c < n then 2 + |options[c]| else 0
  {
    if n > 0 {
      SizeBelowWithout(options, s, c, n - 1);
    }
  }

  lemma SizeWithout(options: Options, s: set<Byte>, c: Byte)
    requires s <= options.Keys && c in s
    ensures SizeOf(options, s) == SizeOf(options, s - {c}) + 2 + |options[c]|
  {
    SizeBelowWithout(options, s, c, 256);
  }

  ghost predicate Distinct(codes: seq<Byte>) {
    forall i, j :: 0 <= i < j < |codes| ==> codes[i] != codes[j]
  }

  lemma {:induction false} EncodedSize(options: Options, codes: seq<Byte>, s: set<Byte>)
    requires Distinct(codes) && s <= options.Keys && forall c :: c in codes <==> c in s
    ensures |EncodeOptions(options, codes)| == SizeOf(options, s)
    decreases |codes|
  {
    if codes == [] {
      assert s == {};
      EmptySize(options, 256);
    } else {
      SizeWithout(options, s, codes[0]);
      assert forall c :: c in codes[1..] <==> c in s - {codes[0]};
      EncodedSize(options, codes[1..], s - {codes[0]});
    }
  }

  lemma {:induction false} EmptySize(options: Options, n: nat)
    requires n <= 256
    ensures SizeBelow(options, {}, n) == 0
  {
    if n > 0 {
      EmptySize(options, n - 1);
    }
  }

  lemma {:induction false} EncodeAppend(options: Options, codes: seq<Byte>, more: seq<Byte>)
    requires forall c :: c in codes || c in more ==> c in options
    ensures EncodeOptions(options, codes + more) == EncodeOptions(options, codes) + EncodeOptions(options, more)
    decreases |codes|
  {
    if codes == [] {
      assert codes + more == more;
    } else {
      EncodeAppend(options, codes[1..], more);
      assert (codes + more)[1..] == codes[1..] + more && (codes + more)[0] == codes[0];
      var head := [codes[0], |options[codes[0]]| % 256] + options[codes[0]];
      Regroup(head, EncodeOptions(options, codes[1..]), EncodeOptions(options, more));
    }
  }

  lemma {:induction false} Regroup(a: seq<Byte>, b: seq<Byte>, c: seq<Byte>)
    ensures a + (b + c) == (a + b) + c
  {
  }

  // ---- The encoder ----

  class Encoder {
    const options: Options
    const buf: array<Byte>
    var optionPos: nat
    ghost var written: seq<Byte>

    /** The cursor stands behind the written options, and what is left to write fits the buffer exactly. */
    ghost predicate Valid()
      reads this, buf
    {
      && Distinct(written) && (forall c :: c in written ==> c in options && c != END)
      && HEADER_SIZE <= optionPos <= buf.Length
      && buf[HEADER_SIZE..optionPos] == EncodeOptions(options, written)
      && optionPos + SizeOf(options, Left()) + 1 == buf.Length
    }

    /** Options still to be written. */
    ghost function Left(): set<Byte>
      reads this
      ensures Left() <= options.Keys
    {
      set c | c in options && c != END && c !in written
    }

    constructor (m: Message)
      ensures options == m.options && fresh(buf) && Valid() && written == []
      ensures buf.Length == HEADER_SIZE + SizeOf(m.options, m.options.Keys - {END}) + 1
      ensures buf[..HEADER_SIZE] == Header(m)
    {
      var estimated := EstimatedSize(m.options);
      options := m.options;
      buf := new Byte[estimated](_ => 0);
      optionPos := HEADER_SIZE;
      written := [];
      new;
      FillHeader(m, buf);
      assert Left() == m.options.Keys - {END};
    }

    method AddOption(code: Byte)
      requires Valid() && code in Left()
      modifies this, buf
      ensures Valid() && written == old(written) + [code]
      ensures buf[..HEADER_SIZE] == old(buf[..HEADER_SIZE])
    {
      var value := options[code];
      SizeWithout(options, Left(), code);
      EncodeAppend(options, written, [code]);
      PutOption(buf, optionPos, code, value);
      optionPos := optionPos + 2 + |value|;
      written := written + [code];
      assert Left() == old(Left()) - {code};
    }
  }

  method PutOption(buf: array<Byte>, start: nat, code: Byte, value: seq<Byte>)
    requires HEADER_SIZE <= start && start + 2 + |value| <= buf.Length
    modifies buf
    ensures buf[..HEADER_SIZE] == old(buf[..HEADER_SIZE])
    ensures buf[HEADER_SIZE..start + 2 + |value|] == old(buf[HEADER_SIZE..start]) + ([code, |value| % 256] + value)
  {
    var optionPos := start;
    buf[optionPos] := code;
    optionPos := optionPos + 1;
    buf[optionPos] := |value| % 256;
    optionPos := optionPos + 1;
    for i := 0 to |value|
      invariant forall k :: 0 <= k < start ==> buf[k] == old(buf[k])
      invariant buf[start] == code && buf[start + 1] == |value| % 256
      invariant forall k :: 0 <= k < i ==> buf[start + 2 + k] == value[k]
    {
      buf[optionPos + i] := value[i];
    }
  }

  method EstimatedSize(options: Options) returns (size: nat)
    ensures size == HEADER_SIZE + SizeOf(options, options.Keys - {END}) + 1
  {
    size := HEADER_SIZE;
    var todo := options.Keys;
    ghost var left := todo - {END};
    while todo != {}
      invariant todo <= options.Keys && left == todo - {END}
      invariant size + SizeOf(options, left) == HEADER_SIZE + SizeOf(options, options.Keys - {END})
      decreases todo
    {
      var code :| code in todo;
      if code != END {
        SizeWithout(options, left, code);
        size := size + 2 + |options[code]|;
      }
      assert left - {code} == (todo - {code}) - {END};
      if code == END {
        assert left - {code} == left;
      }
      todo, left := todo - {code}, left - {code};
    }
    assert left == {};
    EmptySize(options, 256);
    size := size + 1;
  }

  /** copy(buf[pos:limit], src) */
  method CopyInto(buf: array<Byte>, pos: nat, limit: nat, src: seq<Byte>)
    requires pos <= limit <= buf.Length
    modifies buf
    ensures buf[..] == Copied(old(buf[..]), pos, limit, src)
  {
    var n := if |src| <= limit - pos then |src| else limit - pos;
    for i := 0 to n
      invariant buf[..] == old(buf[..pos]) + src[..i] + old(buf[pos + i..])
    {
      buf[pos + i] := src[i];
    }
  }

  /** A zeroed buffer that has been filled from the left with prefix. */
  ghost predicate FilledWith(b: seq<Byte>, prefix: seq<Byte>) {
    |prefix| <= |b| && b == prefix + Zeros(|b| - |prefix|)
  }

  lemma FillNext(b: seq<Byte>, prefix: seq<Byte>, limit: nat, src: seq<Byte>)
    requires FilledWith(b, prefix) && |prefix| <= limit <= |b|
    ensures FilledWith(Copied(b, |prefix|, limit, src), prefix + Padded(src, limit - |prefix|))
  {
  }

  lemma CopiedPrefix(b: seq<Byte>, pos: nat, n: nat, src: seq<Byte>)
    requires pos <= n <= |b|
    ensures Copied(b, pos, |b|, src)[..n] == Copied(b[..n], pos, n, src)
  {
    forall k | 0 <= k < n ensures Copied(b, pos, |b|, src)[k] == Copied(b[..n], pos, n, src)[k] {
      CopiedAt(b, pos, |b|, src, k);
      CopiedAt(b[..n], pos, n, src, k);
    }
  }

  lemma {:induction false} CopiedAt(b: seq<Byte>, pos: nat, limit: nat, src: seq<Byte>, k: nat)
    requires pos <= limit <= |b| && k < |b|
    ensures Copied(b, pos, limit, src)[k] == if pos <= k < limit && k - pos < |src| then src[k - pos] else b[k]
  {
  }

  method CopyField(buf: array<Byte>, ghost prefix: seq<Byte>, pos: nat, limit: nat, src: seq<Byte>)
    requires FilledWith(buf[..], prefix) && pos == |prefix| <= limit <= buf.Length
    modifies buf
    ensures FilledWith(buf[..], prefix + Padded(src, limit - pos))
  {
    FillNext(buf[..], prefix, limit, src);
    CopyInto(buf, pos, limit, src);
  }

  method FillFields(m: Message, buf: array<Byte>)
    requires buf.Length >= HEADER_SIZE && FilledWith(buf[..], [])
    modifies buf
    ensures FilledWith(buf[..], Fields(m))
  {
    buf[0], buf[1], buf[2], buf[3] := m.opCode, m.hardwareType, m.hardwareLength, m.hops;
    ghost var p := [m.opCode, m.hardwareType, m.hardwareLength, m.hops];
    assert FilledWith(buf[..], p);
    PaddedFits(FromValue(m.transactionID, 4));
    PaddedFits(FromValue(m.seconds, 2));
    PaddedFits(FromValue(m.flags, 2));
    CopyField(buf, p, 4, 8, FromValue(m.transactionID, 4));
    p := p + FromValue(m.transactionID, 4);
    CopyField(buf, p, 8, 10, FromValue(m.seconds, 2));
    p := p + FromValue(m.seconds, 2);
    CopyField(buf, p, 10, 12, FromValue(m.flags, 2));
    p := p + FromValue(m.flags, 2);
    CopyField(buf, p, 12, 16, V4OrNothing(m.clientIP));
    p := p + Padded(V4OrNothing(m.clientIP), 4);
    CopyField(buf, p, 16, 20, V4OrNothing(m.yourIP));
    p := p + Padded(V4OrNothing(m.yourIP), 4);
    CopyField(buf, p, 20, 24, V4OrNothing(m.serverIP));
    p := p + Padded(V4OrNothing(m.serverIP), 4);
    CopyField(buf, p, 24, 28, V4OrNothing(m.gatewayIP));
    p := p + Padded(V4OrNothing(m.gatewayIP), 4);
    CopyField(buf, p, 28, 34, m.clientHardware);
  }

  method FillHeader(m: Message, buf: array<Byte>)
    requires buf.Length >= HEADER_SIZE && FilledWith(buf[..], [])
    modifies buf
    ensures buf[..HEADER_SIZE] == Header(m)
  {
    FillFields(m, buf);
    assert buf[..HEADER_SIZE] == Fields(m) + Zeros(206);
    CopiedPrefix(buf[..], 44, HEADER_SIZE, m.serverHostname);
    CopyInto(buf, 44, buf.Length, m.serverHostname);
    CopiedPrefix(buf[..], 108, HEADER_SIZE, m.bootFileName);
    CopyInto(buf, 108, buf.Length, m.bootFileName);
    ghost var b := buf[..HEADER_SIZE];
    buf[236], buf[237], buf[238], buf[239] := 99, 130, 83, 99;
    assert buf[..HEADER_SIZE] == b[..236] + COOKIE;
  }

  lemma {:induction false} PresentAppend(options: Options, codes: seq<Byte>, c: Byte)
    ensures Present(options, codes + [c]) == Present(options, codes) + (if c in options then [c] else [])
    decreases |codes|
  {
    if codes != [] {
      PresentAppend(options, codes[1..], c);
      assert (codes + [c])[1..] == codes[1..] + [c];
    }
  }

  lemma {:induction false} LeadingIsDistinct(k: nat)
    requires k < |LEADING|
    ensures LEADING[k] !in LEADING[..k] && LEADING[k] != END
  {
  }

  /** Adds an option if the message has it. */
  method AddIfPresent(e: Encoder, code: Byte)
    requires e.Valid() && code != END && code !in e.written
    modifies e, e.buf
    ensures e.Valid() && e.written == old(e.written) + (if code in e.options then [code] else [])
    ensures e.buf[..HEADER_SIZE] == old(e.buf[..HEADER_SIZE])
  {
    if code in e.options {
      e.AddOption(code);
    } else {
      assert e.written + [] == e.written;
    }
  }

  lemma {:induction false} NextLeading(options: Options, k: nat)
    requires k < |LEADING|
    ensures LEADING[k] != END && LEADING[k] !in Present(options, LEADING[..k])
    ensures Present(options, LEADING[..k + 1])
            == Present(options, LEADING[..k]) + (if LEADING[k] in options then [LEADING[k]] else [])
  {
    LeadingIsDistinct(k);
    assert LEADING[..k + 1] == LEADING[..k] + [LEADING[k]];
    PresentAppend(options, LEADING[..k], LEADING[k]);
  }

  /** The seven conditional writes, in their fixed order. */
  method WriteLeading(e: Encoder)
    requires e.Valid() && e.written == []
    modifies e, e.buf
    ensures e.Valid() && e.written == Present(e.options, LEADING)
    ensures e.buf[..HEADER_SIZE] == old(e.buf[..HEADER_SIZE])
  {
    for k := 0 to |LEADING|
      invariant e.Valid() && e.written == Present(e.options, LEADING[..k])
      invariant e.buf[..HEADER_SIZE] == old(e.buf[..HEADER_SIZE])
    {
      NextLeading(e.options, k);
      AddIfPresent(e, LEADING[k]);
    }
    assert LEADING[..|LEADING|] == LEADING;
  }

  /** Adds whatever is not handled yet, in the order in which the map hands it out. */
  method WriteRest(e: Encoder) returns (ghost rest: seq<Byte>)
    requires e.Valid() && e.written == Present(e.options, LEADING)
    modifies e, e.buf
    ensures e.Valid() && e.Left() == {} && IsOrder(e.options, rest)
    ensures e.written == Codes(e.options, rest)
    ensures e.buf[..HEADER_SIZE] == old(e.buf[..HEADER_SIZE])
  {
    ghost var leading := e.written;
    rest := [];
    var todo := set c | c in e.options && c !in LEADING && c != END;
    while todo != {}
      invariant e.Valid() && e.buf[..HEADER_SIZE] == old(e.buf[..HEADER_SIZE])
      invariant e.written == leading + rest && Distinct(rest)
      invariant forall c :: c in todo ==> c in e.options && c !in LEADING && c != END
      invariant forall c :: c in rest <==> c in e.options && c !in LEADING && c != END && c !in todo
      decreases todo
    {
      var code :| code in todo;
      e.AddOption(code);
      todo := todo - {code};
      rest := rest + [code];
    }
  }

  method Finish(e: Encoder) returns (data: seq<Byte>)
    requires e.Valid() && e.Left() == {}
    modifies e.buf
    ensures data == old(e.buf[..HEADER_SIZE]) + EncodeOptions(e.options, e.written) + [END]
    ensures |data| == e.buf.Length
  {
    EmptySize(e.options, 256);
    e.buf[e.optionPos] := END;
    data := e.buf[..e.optionPos + 1];
  }

  /**
   Serialises a message. The output is exactly as long as the estimate, so the cursor never leaves the
   buffer; rest reports the order in which the map handed out the remaining options.
   */
  method Marshal(m: Message) returns (data: seq<Byte>, ghost rest: seq<Byte>)
    ensures IsOrder(m.options, rest) && data == Wire(m, rest)
    ensures |data| == HEADER_SIZE + SizeOf(m.options, m.options.Keys - {END}) + 1
  {
    var e := new Encoder(m);
    WriteLeading(e);
    rest := WriteRest(e);
    data := Finish(e);
  }

  method ParseDHCPMessage(data: seq<Byte>) returns (r: Outcome<Message>)
    ensures r == Parse(data)
  {
    if |data| < HEADER_SIZE {
      return TooShort;
    }
    var options: Options := map[];
    var pos := HEADER_SIZE;
    while pos < |data| && data[pos] != END
      invariant HEADER_SIZE <= pos <= |data|
      invariant ParseOptions(data[HEADER_SIZE..], map[]) == ParseOptions(data[pos..], options)
      decreases |data| - pos
    {
      ghost var rest := data[pos..];
      if data[pos] == PAD {
        assert rest[1..] == data[pos + 1..];
        pos := pos + 1;
        continue;
      }
      if pos + 1 == |data| {
        return Panicked;
      }
      var length: int := data[pos + 1];
      if pos + 2 + length > |data| {
        break;
      }
      assert rest[2 + length..] == data[pos + 2 + length..];
      assert rest[2..2 + length] == data[pos + 2..pos + 2 + length];
      options := options[data[pos] := data[pos + 2..pos + 2 + length]];
      pos := pos + 2 + length;
    }
    assert ParseOptions(data[pos..], options) == Parsed(options);
    assert Pow256(4) == 0x1_0000_0000 && Pow256(2) == 0x1_0000;
    ValueBound(data[4..8]);
    ValueBound(data[8..10]);
    ValueBound(data[10..12]);
    r := Parsed(Message(data[0], data[1], data[2], data[3],
                        Value(data[4..8]), Value(data[8..10]), Value(data[10..12]),
                        data[12..16], data[16..20], data[20..24], data[24..28], data[28..34], [], [], options));
  }
}
