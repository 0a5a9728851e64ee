/** The per-chunk protocol sniffer (`detectProtocol`): an ordered, first-match
    classifier over one captured chunk. The HTTP/2 rule tests for the client
    connection preface of section 3.4 of RFC 9113; the TLS rule tests for a
    record header of content type 22 (handshake) and major version 3, section
    6.2.1 of RFC 5246. */
module Sniffer {
  import opened Bytes

  /** The coarse labels the sniffer can give a chunk, in rule order. */
  datatype Protocol = Http1 | Http2 | Grpc | Tls | Unknown

  /** The label string the engine stores and reports for each protocol. */
  function Label(p: Protocol): (s: string)
    ensures s in {"HTTP/1.x", "HTTP/2", "gRPC", "TLS", "Unknown"}
  {
    match p
    case Http1 => "HTTP/1.x"
    case Http2 => "HTTP/2"
    case Grpc => "gRPC"
    case Tls => "TLS"
    case Unknown => "Unknown"
  }

  /** Position of a protocol's rule in the order the rules are tried. */
  function Rank(p: Protocol): (n: nat)
    ensures n <= 4
  {
    match p
    case Http1 => 0
    case Http2 => 1
    case Grpc => 2
    case Tls => 3
    case Unknown => 4
  }

  const HttpPrefixes: seq<seq<byte>> := [
    Ascii("GET "), Ascii("POST "), Ascii("PUT "), Ascii("DELETE "),
    Ascii("HEAD "), Ascii("OPTIONS "), Ascii("HTTP/1.")
  ]
  const Http2Preface: seq<byte> := Ascii("PRI * HTTP/2.0")
  const GrpcPath: seq<byte> := Ascii("/grpc.")
  const ProtoPath: seq<byte> := Ascii(".proto.")

  /** TLS record content type "handshake" and the major version byte. */
  const TlsHandshake: byte := 0x16
  const TlsMajorVersion: byte := 0x03

  /** The chunk starts with an HTTP/1.x request line or status line prefix. */
  predicate StartsLikeHttp1(data: seq<byte>)
  {
    exists i :: 0 <= i < |HttpPrefixes| && HasPrefix(data, HttpPrefixes[i])
  }

  /** The rule for protocol `p`, taken on its own; `Unknown` is the fallback
      that always matches. */
  predicate Matches(p: Protocol, data: seq<byte>)
  {
    match p
    case Http1 => StartsLikeHttp1(data)
    case Http2 => HasPrefix(data, Http2Preface)
    case Grpc => Contains(data, GrpcPath) || Contains(data, ProtoPath)
    case Tls => |data| > 5 && data[0] == TlsHandshake && data[1] == TlsMajorVersion
    case Unknown => true
  }

  /** The first rule, in rank order, that matches the chunk. */
  function DetectProtocol(data: seq<byte>): (r: Protocol)
    ensures Matches(r, data)
    ensures forall q: Protocol :: Rank(q) < Rank(r) ==> !Matches(q, data)
  {
    if HasPrefix(data, Ascii("GET ")) || HasPrefix(data, Ascii("POST ")) ||
       HasPrefix(data, Ascii("PUT ")) || HasPrefix(data, Ascii("DELETE ")) ||
       HasPrefix(data, Ascii("HEAD ")) || HasPrefix(data, Ascii("OPTIONS ")) ||
       HasPrefix(data, Ascii("HTTP/1."))
    then
      assert StartsLikeHttp1(data) by {
        if HasPrefix(data, Ascii("GET ")) { assert HasPrefix(data, HttpPrefixes[0]); }
        else if HasPrefix(data, Ascii("POST ")) { assert HasPrefix(data, HttpPrefixes[1]); }
        else if HasPrefix(data, Ascii("PUT ")) { assert HasPrefix(data, HttpPrefixes[2]); }
        else if HasPrefix(data, Ascii("DELETE ")) { assert HasPrefix(data, HttpPrefixes[3]); }
        else if HasPrefix(data, Ascii("HEAD ")) { assert HasPrefix(data, HttpPrefixes[4]); }
        else if HasPrefix(data, Ascii("OPTIONS ")) { assert HasPrefix(data, HttpPrefixes[5]); }
        else { assert HasPrefix(data, HttpPrefixes[6]); }
      }
      Http1
    else
      assert !StartsLikeHttp1(data);
      if HasPrefix(data, Http2Preface) then Http2
      else if Contains(data, GrpcPath) || Contains(data, ProtoPath) then Grpc
      else if |data| > 5 && data[0] == 0x16 && data[1] == 0x03 then Tls
      else Unknown
  }

  /** Distinct protocols are reported under distinct labels. */
  lemma LabelsDistinct(p: Protocol, q: Protocol)
    ensures Label(p) == Label(q) ==> p == q
  {
  }

  /** The reported label is always one of the five the engine documents. */
  lemma LabelIsOneOfFive(data: seq<byte>)
    ensures Label(DetectProtocol(data)) in {"HTTP/1.x", "HTTP/2", "gRPC", "TLS", "Unknown"}
  {
  }

  /** An HTTP/1.x prefix wins over every later rule, even when the chunk also
      carries a gRPC path or starts like a TLS record. */
  lemma Http1WinsOverLaterRules(data: seq<byte>)
    requires StartsLikeHttp1(data)
    ensures DetectProtocol(data) == Http1
  {
  }

  /** gRPC is reported exactly when neither HTTP rule matched and one of the two
      gRPC markers occurs somewhere in the chunk. */
  lemma GrpcExactly(data: seq<byte>)
    ensures DetectProtocol(data) == Grpc <==>
      !StartsLikeHttp1(data) && !HasPrefix(data, Http2Preface) &&
      ((exists i :: OccursAt(data, GrpcPath, i)) || (exists i :: OccursAt(data, ProtoPath, i)))
  {
    var r := DetectProtocol(data);
    assert Rank(Http1) < Rank(Grpc) && Rank(Http2) < Rank(Grpc);
    if r != Grpc && !StartsLikeHttp1(data) && !HasPrefix(data, Http2Preface) {
      assert Rank(Grpc) < Rank(r) || r == Http1 || r == Http2;
    }
  }

  /** TLS is reported exactly when no earlier rule matched, the chunk is longer
      than five bytes and it starts with 0x16 0x03. */
  lemma TlsExactly(data: seq<byte>)
    ensures DetectProtocol(data) == Tls <==>
      !Matches(Http1, data) && !Matches(Http2, data) && !Matches(Grpc, data) &&
      |data| > 5 && data[0] == 0x16 && data[1] == 0x03
  {
    var r := DetectProtocol(data);
    assert Rank(Http1) < Rank(Tls) && Rank(Http2) < Rank(Tls) && Rank(Grpc) < Rank(Tls);
  }

  /** A chunk of five bytes or fewer is never classified as TLS. */
  lemma ShortChunkIsNotTls(data: seq<byte>)
    requires |data| <= 5
    ensures DetectProtocol(data) != Tls
  {
  }

  /** A chunk that starts with the HTTP/2 connection preface is HTTP/2. */
  lemma Http2PrefaceExample()
    ensures DetectProtocol(Ascii("PRI * HTTP/2.0\r\n\r\nSM\r\n\r\n")) == Http2
  {
    var d := Ascii("PRI * HTTP/2.0\r\n\r\nSM\r\n\r\n");
    assert d[..|Http2Preface|] == Http2Preface;
    assert HasPrefix(d, Http2Preface);
    assert !StartsLikeHttp1(d) by {
      forall i | 0 <= i < |HttpPrefixes| ensures !HasPrefix(d, HttpPrefixes[i]) {
        assert d[0] == 'P' as int;
        assert HttpPrefixes[i][0] != 'P' as int || HttpPrefixes[i][1] != 'R' as int;
      }
    }
  }

  /** A TLS ClientHello record header is TLS. */
  lemma TlsRecordExample()
    ensures DetectProtocol([0x16, 0x03, 0x01, 0x00, 0x05, 0x01]) == Tls
  {
    var d: seq<byte> := [0x16, 0x03, 0x01, 0x00, 0x05, 0x01];
    NotContainsWithoutFirstByte(d, GrpcPath);
    NotContainsWithoutFirstByte(d, ProtoPath);
  }

  /** Plain text with none of the markers is Unknown: the bytes of
      "hello world". */
  lemma PlainTextExample(d: seq<byte>)
    requires d == [104, 101, 108, 108, 111, 32, 119, 111, 114, 108, 100]
    ensures DetectProtocol(d) == Unknown
  {
    assert GrpcPath[0] == 47 && ProtoPath[0] == 46;
    NotContainsWithoutFirstByte(d, GrpcPath);
    NotContainsWithoutFirstByte(d, ProtoPath);
    assert !StartsLikeHttp1(d) by {
      forall i | 0 <= i < |HttpPrefixes| ensures !HasPrefix(d, HttpPrefixes[i]) {
        assert HttpPrefixes[i][0] != 104;
      }
    }
  }
}
