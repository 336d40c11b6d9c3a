/** Reading the server name and the ALPN list out of a TLS ClientHello. */
module ClientHello {
  import opened Bytes

  datatype Hello = Hello(raw: seq<Byte>, sni: seq<Byte>, alpn: seq<seq<Byte>>)

  const SERVER_NAME := 0x00
  const ALPN := 0x10

  // ---------------------------------------------------------------------------------------
  // The parse as a function of the bytes
  // ---------------------------------------------------------------------------------------

  function ParseSni(data: seq<Byte>): seq<Byte> {
    if |data| < 5 || data[2] != 0 then []
    else
      var nameLen := U16(data, 3);
      if 5 + nameLen > |data| then [] else data[5..5 + nameLen]
  }

  /** The protocols from `at` on; a protocol that is cut off ends the list. */
  function AlpnFrom(data: seq<Byte>, at: nat): seq<seq<Byte>>
    requires at <= |data|
    decreases |data| - at
  {
    if at == |data| then []
    else
      var end := at + 1 + data[at] as int;
      if end > |data| then [] else [data[at + 1..end]] + AlpnFrom(data, end)
  }

  function ParseAlpn(data: seq<Byte>): seq<seq<Byte>> {
    if |data| < 2 then [] else AlpnFrom(data, 2)
  }

  /** What the extensions from `at` on make of the names found so far. */
  function ExtensionsFrom(data: seq<Byte>, at: nat, extEnd: nat, hello: Hello): (h: Hello)
    requires at <= |data|
    ensures h.raw == hello.raw
    decreases |data| - at
  {
    if at >= extEnd || at + 4 > |data| then hello
    else
      var extType := U16(data, at);
      var extLen := U16(data, at + 2);
      if at + 4 + extLen > |data| then hello
      else ExtensionsFrom(data, at + 4 + extLen, extEnd, Extend(hello, extType, data[at + 4..at + 4 + extLen]))
  }

  function Extend(hello: Hello, extType: nat, body: seq<Byte>): (h: Hello)
    ensures h.raw == hello.raw
  {
    if extType == SERVER_NAME then hello.(sni := ParseSni(body))
    else if extType == ALPN then hello.(alpn := ParseAlpn(body))
    else hello
  }

  /** The offset of the extensions' length field, or None when a field before it is cut off. */
  function ExtensionsAt(data: seq<Byte>): (r: Option<nat>)
    ensures r.Some? ==> r.value + 2 <= |data|
  {
    if |data| < 6 || data[0] != 1 then None else
    if |data| < 4 + U24(data, 1) then None else
    if 38 >= |data| then None else
    var suites := 39 + data[38] as int;
    if suites + 2 > |data| then None else
    var compression := suites + 2 + U16(data, suites);
    if compression >= |data| then None else
    var extensions := compression + 1 + data[compression] as int;
    if extensions + 2 > |data| then None else Some(extensions)
  }

  function ParseHello(data: seq<Byte>): (r: Option<Hello>)
    ensures r.Some? ==> r.value.raw == data
  {
    var at := ExtensionsAt(data);
    if at.None? then None
    else
      var first := at.value + 2;
      Some(ExtensionsFrom(data, first, first + U16(data, at.value), Hello(data, [], [])))
  }

  // ---------------------------------------------------------------------------------------
  // The proxy's loops
  // ---------------------------------------------------------------------------------------

  method ParseALPN(data: seq<Byte>) returns (protocols: seq<seq<Byte>>)
    ensures protocols == ParseAlpn(data)
  {
    protocols := [];
    if |data| < 2 {
      return;
    }
    var offset := 2;
    while offset < |data|
      invariant 2 <= offset <= |data|
      invariant ParseAlpn(data) == protocols + AlpnFrom(data, offset)
    {
      var protoLen := data[offset] as int;
      offset := offset + 1;
      if offset + protoLen > |data| {
        break;
      }
      protocols := protocols + [data[offset..offset + protoLen]];
      offset := offset + protoLen;
    }
  }

  method ParseTLSClientHello(data: seq<Byte>) returns (r: Option<Hello>)
    ensures r == ParseHello(data)
  {
    hide ExtensionsAt, ParseSni, ParseAlpn;
    var at := FixedFields(data);
    if at.None? {
      return None;
    }
    var offset := at.value;
    var extensionsLen := U16(data, offset);
    offset := offset + 2;
    var hello := Hello(data, [], []);
    var extEnd := offset + extensionsLen;
    while offset < extEnd && offset + 4 <= |data|
      invariant offset <= |data|
      invariant ParseHello(data) == Some(ExtensionsFrom(data, offset, extEnd, hello))
      decreases |data| - offset
    {
      var extType := U16(data, offset);
      offset := offset + 2;
      var extLen := U16(data, offset);
      offset := offset + 2;
      if offset + extLen > |data| {
        break;
      }
      if extType == SERVER_NAME {
        hello := hello.(sni := ParseSni(data[offset..offset + extLen]));
      } else if extType == ALPN {
        var protocols := ParseALPN(data[offset..offset + extLen]);
        hello := hello.(alpn := protocols);
      }
      offset := offset + extLen;
    }
    r := Some(hello);
  }

  /** The fields in front of the extensions. */
  method FixedFields(data: seq<Byte>) returns (at: Option<nat>)
    ensures at == ExtensionsAt(data)
  {
    if |data| < 6 { return None; }
    if data[0] != 1 { return None; }
    var hsLen := U24(data, 1);
    if |data| < 4 + hsLen { return None; }
    var offset := 4;
    offset := offset + 2;   // version
    offset := offset + 32;  // random
    if offset >= |data| { return None; }
    var sessionIdLen := data[offset] as int;
    offset := offset + 1 + sessionIdLen;
    if offset + 2 > |data| { return None; }
    var cipherSuitesLen := U16(data, offset);
    offset := offset + 2 + cipherSuitesLen;
    if offset >= |data| { return None; }
    var compressionLen := data[offset] as int;
    offset := offset + 1 + compressionLen;
    if offset + 2 > |data| { return None; }
    at := Some(offset);
  }
}
