/** The layout of a ClientHello (section 4.1.2 of RFC 8446) and the parse that undoes it. */
module HelloCodec {
  import opened Bytes
  import opened ClientHello

  /** One entry of a server_name extension, section 3 of RFC 6066. */
  datatype ServerName = ServerName(typ: Byte, name: seq<Byte>) {
    predicate Valid() { |name| < 0x1_0000 }

    function Encode(): seq<Byte>
      requires Valid()
    {
      [typ] + (PutU16(|name|) + name)
    }
  }

  datatype Extension =
    | ServerNames(names: seq<ServerName>)
    | Protocols(protocols: seq<seq<Byte>>)
    | Other(typ: nat, body: seq<Byte>)
  {
    predicate Valid() {
      match this
      case ServerNames(names) =>
        && |names| > 0 && (forall n | n in names :: n.Valid()) && |EncodeNames(names)| < 0x1_0000 - 2
      case Protocols(ps) =>
        (forall p | p in ps :: |p| < 0x100) && |EncodeProtocols(ps)| < 0x1_0000 - 2
      case Other(typ, body) =>
        typ < 0x1_0000 && typ != SERVER_NAME && typ != ALPN && |body| < 0x1_0000
    }

    function Type(): nat {
      match this
      case ServerNames(_) => SERVER_NAME
      case Protocols(_) => ALPN
      case Other(typ, _) => typ
    }

    function Body(): (bs: seq<Byte>)
      requires Valid()
      ensures |bs| < 0x1_0000
    {
      match this
      case ServerNames(names) => PutU16(|EncodeNames(names)|) + EncodeNames(names)
      case Protocols(ps) => PutU16(|EncodeProtocols(ps)|) + EncodeProtocols(ps)
      case Other(_, body) => body
    }

    function Encode(): (bs: seq<Byte>)
      requires Valid()
      ensures |bs| == 4 + |Body()|
    {
      PutU16(Type()) + (PutU16(|Body()|) + Body())
    }
  }

  function EncodeNames(names: seq<ServerName>): seq<Byte>
    requires forall n | n in names :: n.Valid()
  {
    if names == [] then [] else names[0].Encode() + EncodeNames(names[1..])
  }

  function EncodeProtocols(ps: seq<seq<Byte>>): seq<Byte>
    requires forall p | p in ps :: |p| < 0x100
  {
    if ps == [] then [] else ([|ps[0]|] + ps[0]) + EncodeProtocols(ps[1..])
  }

  predicate AllExtensionsValid(es: seq<Extension>) {
    forall e | e in es :: e.Valid()
  }

  function EncodeExtensions(es: seq<Extension>): seq<Byte>
    requires AllExtensionsValid(es)
  {
    if es == [] then [] else es[0].Encode() + EncodeExtensions(es[1..])
  }

  datatype Layout = Layout(
    versionAndRandom: seq<Byte>, sessionId: seq<Byte>, suites: seq<Byte>, compression: seq<Byte>, extensions: seq<Extension>)
  {
    predicate Valid() {
      && |versionAndRandom| == 34 && |sessionId| < 0x100 && |suites| < 0x1_0000 && |compression| < 0x100
      && AllExtensionsValid(extensions) && |EncodeExtensions(extensions)| < 0x1_0000
    }

    function Body(): (bs: seq<Byte>)
      requires Valid()
      ensures |bs| < 0x100_0000
    {
      var es := EncodeExtensions(extensions);
      versionAndRandom + ([|sessionId|] + (sessionId + (PutU16(|suites|) + (suites
        + ([|compression|] + (compression + (PutU16(|es|) + es)))))))
    }

    /** The whole handshake message. */
    function Encode(): seq<Byte>
      requires Valid()
    {
      [1] + (PutU24(|Body()|) + Body())
    }
  }

  // ---------------------------------------------------------------------------------------
  // What should be found
  // ---------------------------------------------------------------------------------------

  /** The first host_name entry, or the empty string. */
  function FirstHostName(names: seq<ServerName>): seq<Byte> {
    if names == [] then []
    else if names[0].typ == 0 then names[0].name
    else FirstHostName(names[1..])
  }

  /** What the proxy reports for a list: its first entry when that is a host name. */
  function LeadingHostName(names: seq<ServerName>): seq<Byte>
    requires |names| > 0
  {
    if names[0].typ == 0 then names[0].name else []
  }

  /** What one extension adds to the names found before it. */
  function Apply(e: Extension, hello: Hello): Hello
    requires e.Valid()
  {
    match e
    case ServerNames(names) => hello.(sni := LeadingHostName(names))
    case Protocols(ps) => hello.(alpn := ps)
    case Other(_, _) => hello
  }

  function Found(es: seq<Extension>, hello: Hello): Hello
    requires AllExtensionsValid(es)
  {
    if es == [] then hello else Found(es[1..], Apply(es[0], hello))
  }

  // ---------------------------------------------------------------------------------------
  // The extension bodies
  // ---------------------------------------------------------------------------------------

  lemma SniUndoesEncode(e: Extension)
    requires e.Valid() && e.ServerNames?
    ensures ParseSni(e.Body()) == LeadingHostName(e.names)
  {
    hide ParseSni, PutU16, At, ServerName.Encode;
    var body := e.Body();
    AtPrefix(body, body);
    AtSplit(body, 0, PutU16(|EncodeNames(e.names)|), EncodeNames(e.names));
    AtSplit(body, 2, e.names[0].Encode(), EncodeNames(e.names[1..]));
    SniAt(body, e.names[0]);
  }

  lemma SniAt(body: seq<Byte>, n: ServerName)
    requires n.Valid() && At(body, 2, n.Encode())
    ensures ParseSni(body) == LeadingHostName([n])
  {
    hide PutU16, U16;
    AtSplit(body, 2, [n.typ], PutU16(|n.name|) + n.name);
    ByteAt(body, 2, n.typ);
    AtSplit(body, 3, PutU16(|n.name|), n.name);
    U16At(body, 3, |n.name|);
  }

  /** The list begins with a host name, or has none to report further on. */
  predicate HostNameLeads(names: seq<ServerName>)
    requires |names| > 0
  {
    names[0].typ == 0 || FirstHostName(names[1..]) == []
  }

  /** The parser reports the first host name of a list exactly when it leads the list, is empty, or is missing. */
  lemma FirstHostNameIsReportedExactlyWhen(e: Extension)
    requires e.Valid() && e.ServerNames?
    ensures ParseSni(e.Body()) == FirstHostName(e.names) <==> HostNameLeads(e.names)
  {
    hide Extension.Body, ParseSni;
    SniUndoesEncode(e);
  }

  /** A host name behind an entry of another type is missed. */
  lemma HostNameBehindAnotherEntry()
    ensures var e := ServerNames([ServerName(1, []), ServerName(0, [97])]);
            e.Valid() && FirstHostName(e.names) == [97] && ParseSni(e.Body()) == []
  {
    var names := [ServerName(1, []), ServerName(0, [97])];
    var e := ServerNames(names);
    assert names[1..] == [ServerName(0, [97])];
    assert names[1..][1..] == [];
    assert EncodeNames(names) == names[0].Encode() + (names[1].Encode() + []);
    SniUndoesEncode(e);
  }

  /** The name is empty when it is cut off, when the entry is of another type, or when there is no room for an entry. */
  lemma CutOffName(list: seq<Byte>, n: nat, part: seq<Byte>, rest: seq<Byte>)
    requires |list| == 2 && n < 0x1_0000 && |part| < n
    ensures ParseSni(list + [0] + PutU16(n) + part) == []
    ensures |rest| < 3 ==> ParseSni(list + rest) == []
  {
    var data := list + [0] + PutU16(n) + part;
    assert data[3..5] == PutU16(n);
    assert data[3] == data[3..5][0] && data[4] == data[3..5][1];
  }

  /** Protocols are read wherever they stand, and the list goes on behind them. */
  lemma {:induction false} AlpnUndoesEncode(data: seq<Byte>, at: nat, ps: seq<seq<Byte>>)
    requires forall p | p in ps :: |p| < 0x100
    requires At(data, at, EncodeProtocols(ps))
    ensures at + |EncodeProtocols(ps)| <= |data|
    ensures AlpnFrom(data, at) == ps + AlpnFrom(data, at + |EncodeProtocols(ps)|)
    decreases |ps|
  {
    hide At, AlpnFrom;
    AtBound(data, at, EncodeProtocols(ps));
    if ps != [] {
      var p := ps[0];
      AtSplit(data, at, [|p|] + p, EncodeProtocols(ps[1..]));
      ProtocolAt(data, at, p);
      AlpnUndoesEncode(data, at + 1 + |p|, ps[1..]);
    }
  }

  lemma ProtocolAt(data: seq<Byte>, at: nat, p: seq<Byte>)
    requires |p| < 0x100 && At(data, at, [|p|] + p)
    ensures at + 1 + |p| <= |data|
    ensures AlpnFrom(data, at) == [p] + AlpnFrom(data, at + 1 + |p|)
  {
    hide At;
    AtSplit(data, at, [|p|], p);
    ByteAt(data, at, |p|);
    AtBound(data, at + 1, p);
  }

  /** A protocol that is cut off ends the list; the ones before it are reported. */
  lemma CutOffProtocol(list: seq<Byte>, ps: seq<seq<Byte>>, n: Byte, part: seq<Byte>)
    requires |list| == 2 && (forall p | p in ps :: |p| < 0x100) && |part| < n
    ensures ParseAlpn(list + EncodeProtocols(ps) + [n] + part) == ps
  {
    var data := list + EncodeProtocols(ps) + [n] + part;
    assert data[2..2 + |EncodeProtocols(ps)|] == EncodeProtocols(ps);
    AlpnUndoesEncode(data, 2, ps);
    assert data[2 + |EncodeProtocols(ps)|] == n;
  }

  /** server_name has number 0 (section 3 of RFC 6066), application_layer_protocol_negotiation 16 (section 3.1 of RFC 7301). */
  lemma ExtensionNumbers(e: Extension)
    requires e.Valid()
    ensures e.ServerNames? <==> e.Encode()[..2] == [0, 0]
    ensures e.Protocols? <==> e.Encode()[..2] == [0, 16]
  {
    hide Extension.Body;
    assert e.Encode()[..2] == PutU16(e.Type());
    assert U16(PutU16(e.Type()), 0) == e.Type();
    assert U16([0, 0], 0) == 0 && U16([0, 16], 0) == 16;
  }

  lemma ExtendUndoesEncode(e: Extension, hello: Hello)
    requires e.Valid()
    ensures Extend(hello, e.Type(), e.Body()) == Apply(e, hello)
  {
    match e {
      case ServerNames(_) => SniUndoesEncode(e);
      case Protocols(ps) =>
        var body := e.Body();
        assert body[0..0 + |body|] == body;
        AtSplit(body, 0, PutU16(|EncodeProtocols(ps)|), EncodeProtocols(ps));
        AlpnUndoesEncode(body, 2, ps);
      case Other(_, _) =>
    }
  }

  // ---------------------------------------------------------------------------------------
  // The whole message
  // ---------------------------------------------------------------------------------------

  lemma ExtensionHeaderAt(data: seq<Byte>, at: nat, e: Extension)
    requires e.Valid() && At(data, at, e.Encode())
    ensures at + 4 + |e.Body()| <= |data|
    ensures U16(data, at) == e.Type() && U16(data, at + 2) == |e.Body()|
    ensures data[at + 4..at + 4 + |e.Body()|] == e.Body()
  {
    hide Extension.Body;
    AtSplit(data, at, PutU16(e.Type()), PutU16(|e.Body()|) + e.Body());
    AtSplit(data, at + 2, PutU16(|e.Body()|), e.Body());
    U16At(data, at, e.Type());
    U16At(data, at + 2, |e.Body()|);
  }

  lemma ExtensionStep(data: seq<Byte>, at: nat, extEnd: nat, e: Extension, hello: Hello)
    requires e.Valid() && At(data, at, e.Encode()) && at < extEnd
    ensures at + |e.Encode()| <= |data|
    ensures ExtensionsFrom(data, at, extEnd, hello) ==
            ExtensionsFrom(data, at + |e.Encode()|, extEnd, Apply(e, hello))
  {
    hide Extension.Body, Extension.Valid, Extend, Apply, U16;
    ExtensionHeaderAt(data, at, e);
    ExtendUndoesEncode(e, hello);
  }

  lemma NoExtensionsLeft(data: seq<Byte>, at: nat, hello: Hello)
    requires at <= |data|
    ensures ExtensionsFrom(data, at, at, hello) == hello
  {}

  /** Extensions are read wherever they stand, each one applied in order, and the walk goes on behind them. */
  lemma {:induction false} ExtensionsUndoEncode(data: seq<Byte>, at: nat, extEnd: nat, es: seq<Extension>, hello: Hello)
    requires AllExtensionsValid(es) && At(data, at, EncodeExtensions(es)) && at + |EncodeExtensions(es)| <= extEnd
    ensures at + |EncodeExtensions(es)| <= |data|
    ensures ExtensionsFrom(data, at, extEnd, hello) ==
            ExtensionsFrom(data, at + |EncodeExtensions(es)|, extEnd, Found(es, hello))
    decreases |es|
  {
    hide Extension.Encode, Extension.Body, Extension.Valid, Extend, Apply, At, ExtensionsFrom;
    AtBound(data, at, EncodeExtensions(es));
    if es != [] {
      var e, tail := es[0], es[1..];
      AtSplit(data, at, e.Encode(), EncodeExtensions(tail));
      ExtensionStep(data, at, extEnd, e, hello);
      ExtensionsUndoEncode(data, at + |e.Encode()|, extEnd, tail, Apply(e, hello));
    }
  }

  /** An extension that is cut off ends the walk; the ones before it count. */
  lemma CutOffExtension(data: seq<Byte>, at: nat, extEnd: nat, es: seq<Extension>, hello: Hello)
    requires AllExtensionsValid(es) && At(data, at, EncodeExtensions(es)) && at + |EncodeExtensions(es)| <= extEnd
    requires var end := at + |EncodeExtensions(es)|;
             end <= |data| && (|data| < end + 4 || |data| < end + 4 + U16(data, end + 2))
    ensures ExtensionsFrom(data, at, extEnd, hello) == Found(es, hello)
  {
    hide Found, EncodeExtensions, At;
    ExtensionsUndoEncode(data, at, extEnd, es, hello);
  }

  /** Of several extensions of one type the last one counts. */
  lemma {:induction false} LastExtensionCounts(es: seq<Extension>, e: Extension, hello: Hello)
    requires AllExtensionsValid(es + [e])
    ensures e in es + [e] && AllExtensionsValid(es)
    ensures var found := Found(es + [e], hello);
            match e
            case ServerNames(names) => found == Found(es, hello).(sni := LeadingHostName(names))
            case Protocols(ps) => found == Found(es, hello).(alpn := ps)
            case Other(_, _) => found == Found(es, hello)
    decreases |es|
  {
    assert (es + [e])[|es|] == e;
    forall x | x in es ensures x in es + [e] {}
    if es == [] {
      assert [e][1..] == [];
      assert Found([], Apply(e, hello)) == Apply(e, hello);
    } else {
      assert (es + [e])[1..] == es[1..] + [e];
      assert (es + [e])[0] == es[0];
      LastExtensionCounts(es[1..], e, Apply(es[0], hello));
    }
  }

  /** The fields up to the session id. */
  lemma FrontAt(data: seq<Byte>, l: Layout, length: nat, rest: seq<Byte>)
    requires l.Valid() && length < 0x100_0000
    requires At(data, 0, [1] + (PutU24(length) + (l.versionAndRandom + ([|l.sessionId| as Byte] + (l.sessionId + rest)))))
    ensures 39 <= |data| && data[0] == 1 && U24(data, 1) == length && data[38] == |l.sessionId|
    ensures At(data, 39 + |l.sessionId|, rest)
  {
    hide At, PutU24, U24, Layout.Valid;
    WidthOfFront(l);
    var t3 := l.sessionId + rest;
    var t2 := [|l.sessionId| as Byte] + t3;
    var t1 := l.versionAndRandom + t2;
    AtSplit(data, 0, [1], PutU24(length) + t1);
    ByteAt(data, 0, 1);
    AtSplit(data, 1, PutU24(length), t1);
    U24At(data, 1, length);
    AtSplit(data, 4, l.versionAndRandom, t2);
    AtSplit(data, 38, [|l.sessionId| as Byte], t3);
    ByteAt(data, 38, |l.sessionId|);
    AtSplit(data, 39, l.sessionId, rest);
  }

  lemma WidthOfFront(l: Layout)
    requires l.Valid()
    ensures |l.versionAndRandom| == 34 && |l.sessionId| < 0x100
  {}

  /** The cipher suites and the compression methods. */
  lemma MiddleAt(data: seq<Byte>, at: nat, suites: seq<Byte>, compression: seq<Byte>, rest: seq<Byte>)
    requires |suites| < 0x1_0000 && |compression| < 0x100
    requires At(data, at, PutU16(|suites|) + (suites + ([|compression| as Byte] + (compression + rest))))
    ensures var c := at + 2 + |suites|;
            && c < |data| && U16(data, at) == |suites| && data[c] == |compression|
            && At(data, c + 1 + |compression|, rest)
  {
    hide At, PutU16, U16;
    var t4 := compression + rest;
    var t3 := [|compression| as Byte] + t4;
    var t2 := suites + t3;
    AtSplit(data, at, PutU16(|suites|), t2);
    U16At(data, at, |suites|);
    AtSplit(data, at + 2, suites, t3);
    var c := at + 2 + |suites|;
    AtSplit(data, c, [|compression| as Byte], t4);
    ByteAt(data, c, |compression|);
    AtSplit(data, c + 1, compression, rest);
  }

  lemma ExtensionsFound(data: seq<Byte>, l: Layout)
    requires l.Valid() && At(data, 0, l.Encode())
    ensures var es := EncodeExtensions(l.extensions);
            var at := |l.Encode()| - |es| - 2;
            && ExtensionsAt(data) == Some(at) && U16(data, at) == |es|
            && At(data, at + 2, es)
  {
    hide EncodeExtensions, At, PutU16, PutU24, U16, U24;
    var es := EncodeExtensions(l.extensions);
    var t8 := PutU16(|es|) + es;
    var t4 := PutU16(|l.suites|) + (l.suites + ([|l.compression| as Byte] + (l.compression + t8)));
    FrontAt(data, l, |l.Body()|, t4);
    var a4 := 39 + |l.sessionId|;
    MiddleAt(data, a4, l.suites, l.compression, t8);
    var a8 := a4 + 2 + |l.suites| + 1 + |l.compression|;
    AtSplit(data, a8, PutU16(|es|), es);
    U16At(data, a8, |es|);
    AtBound(data, a8 + 2, es);
  }

  /** The parse of an encoded ClientHello, whatever follows it, is what its extensions say. */
  lemma ParseUndoesEncode(l: Layout, rest: seq<Byte>)
    requires l.Valid()
    ensures var data := l.Encode() + rest;
            ParseHello(data) == Some(Found(l.extensions, Hello(data, [], [])))
  {
    hide Layout.Encode, ExtensionsAt, EncodeExtensions;
    var data := l.Encode() + rest;
    assert data[0..0 + |l.Encode()|] == l.Encode();
    ExtensionsFound(data, l);
    var es := EncodeExtensions(l.extensions);
    var at := |l.Encode()| - |es|;
    ExtensionsUndoEncode(data, at, |l.Encode()|, l.extensions, Hello(data, [], []));
    NoExtensionsLeft(data, |l.Encode()|, Found(l.extensions, Hello(data, [], [])));
  }

  // ---------------------------------------------------------------------------------------
  // Distinct extension types
  // ---------------------------------------------------------------------------------------

  predicate DistinctTypes(es: seq<Extension>) {
    forall i, j | 0 <= i < j < |es| :: es[i].Type() != es[j].Type()
  }

  /** The host name of the one server_name extension, or the empty string. */
  ghost predicate IsServerName(es: seq<Extension>, sni: seq<Byte>)
    requires AllExtensionsValid(es)
  {
    && (forall e | e in es && e.ServerNames? :: sni == LeadingHostName(e.names))
    && ((forall e | e in es :: !e.ServerNames?) ==> sni == [])
  }

  /** The whole list of the one ALPN extension, in order, or the empty list. */
  ghost predicate IsProtocolList(es: seq<Extension>, alpn: seq<seq<Byte>>) {
    && (forall e | e in es && e.Protocols? :: alpn == e.protocols)
    && ((forall e | e in es :: !e.Protocols?) ==> alpn == [])
  }

  lemma {:induction false} FoundKeeps(es: seq<Extension>, hello: Hello)
    requires AllExtensionsValid(es)
    ensures Found(es, hello).raw == hello.raw
    ensures (forall e | e in es :: !e.ServerNames?) ==> Found(es, hello).sni == hello.sni
    ensures (forall e | e in es :: !e.Protocols?) ==> Found(es, hello).alpn == hello.alpn
    decreases |es|
  {
    if es != [] {
      FoundKeeps(es[1..], Apply(es[0], hello));
    }
  }

  lemma {:induction false} FoundIsUnique(es: seq<Extension>, hello: Hello)
    requires AllExtensionsValid(es) && DistinctTypes(es)
    ensures forall e | e in es && e.ServerNames? :: Found(es, hello).sni == LeadingHostName(e.names)
    ensures forall e | e in es && e.Protocols? :: Found(es, hello).alpn == e.protocols
    decreases |es|
  {
    if es != [] {
      var h := Apply(es[0], hello);
      var tail := es[1..];
      FoundIsUnique(tail, h);
      FoundKeeps(tail, h);
      forall e | e in tail ensures e.Type() != es[0].Type() {
        var j :| 0 <= j < |tail| && tail[j] == e;
        assert es[j + 1] == e;
      }
    }
  }

  /** With distinct extension types in any order the parser reports the server name and the ALPN list. */
  lemma ClientHelloRoundTrip(l: Layout, rest: seq<Byte>)
    requires l.Valid() && DistinctTypes(l.extensions)
    ensures var r := ParseHello(l.Encode() + rest);
            && r.Some? && r.value.raw == l.Encode() + rest
            && IsServerName(l.extensions, r.value.sni)
            && IsProtocolList(l.extensions, r.value.alpn)
            && forall e | e in l.extensions && e.ServerNames? ::
                 r.value.sni == FirstHostName(e.names) <==> HostNameLeads(e.names)
  {
    hide Layout.Encode, ParseHello;
    ParseUndoesEncode(l, rest);
    var h := Hello(l.Encode() + rest, [], []);
    FoundKeeps(l.extensions, h);
    FoundIsUnique(l.extensions, h);
  }
}
