/** Control-frame datagrams: a 12-byte packed little-endian header, then the body, either
    zero-run coded or raw when the code does not fit the sender's scratch buffer. */
module LanFrame {
  import opened Basics
  import opened Rle

  const LAN_MAGIC: nat := 0x11451400
  const HEADER_SIZE: nat := 12
  /** sizeof(NetworkInfo): 32 (ids) + 48 (common) + 1072 (ldn). */
  const NETWORK_INFO_SIZE: nat := 1152
  const U16: nat := 0x1_0000

  /** What the receiver hands to the frame handlers. */
  datatype Dispatch = Dispatch(kind: Byte, body: seq<Byte>, stamp: nat)

  function Le16(x: nat): (b: seq<Byte>)
    requires x < U16
    ensures |b| == 2
  {
    [x % 256, x / 256]
  }

  function Le32(x: nat): (b: seq<Byte>)
    requires x < U16 * U16
    ensures |b| == 4
  {
    Le16(x % U16) + Le16(x / U16)
  }

  function Read16(b: seq<Byte>, at: nat): nat
    requires at + 2 <= |b|
  {
    b[at] as int + 256 * b[at + 1] as int
  }

  function Read32(b: seq<Byte>, at: nat): nat
    requires at + 4 <= |b|
  {
    Read16(b, at) + U16 * Read16(b, at + 2)
  }

  function Header(kind: Byte, compressed: Byte, length: nat, plain: nat, stamp: nat): (h: seq<Byte>)
    requires length < U16 && plain < U16 && stamp < U16
    ensures |h| == HEADER_SIZE
  {
    Le32(LAN_MAGIC) + [kind, compressed] + Le16(length) + Le16(plain) + Le16(stamp)
  }

  /** The datagram of one frame. */
  function Datagram(kind: Byte, body: seq<Byte>, stamp: nat): seq<Byte>
    requires |body| <= NETWORK_INFO_SIZE && stamp < U16
  {
    if body == [] then Header(kind, 0, 0, 0, stamp)
    else if |Encode(body)| <= NETWORK_INFO_SIZE then
      Header(kind, 1, |Encode(body)|, |body|, stamp) + Encode(body)
    else Header(kind, 0, |body|, 0, stamp) + body
  }

  /** What the receiver makes of an arbitrary datagram; None means that it drops it. */
  function Parse(payload: seq<Byte>): Option<Dispatch> {
    if |payload| < HEADER_SIZE || Read32(payload, 0) != LAN_MAGIC then None
    else
      var length := Read16(payload, 6);
      if |payload| < HEADER_SIZE + length then None
      else
        var body := payload[HEADER_SIZE..HEADER_SIZE + length];
        var stamp := Read16(payload, 10);
        if payload[5] == 0 then Some(Dispatch(payload[4], body, stamp))
        else
          var r := Inflate(body, NETWORK_INFO_SIZE);
          if !r.0 || |r.1| != Read16(payload, 8) then None
          else Some(Dispatch(payload[4], r.1, stamp))
  }

  /** The send counter after one more frame: 16 bits, and 0 is skipped. */
  function NextStamp(stamp: nat): (r: nat)
    requires stamp < U16
    ensures 0 < r < U16
  {
    var bumped := (stamp + 1) % U16;
    if bumped == 0 then 1 else bumped
  }

  /** The sending side: the counter stamped into every header. */
  class FrameSender {
    var txSeq: nat

    ghost predicate Valid() reads this { txSeq < U16 }

    constructor ()
      ensures Valid() && txSeq == 0
    {
      txSeq := 0;
    }

    method SendFrame(kind: Byte, body: seq<Byte>) returns (datagram: seq<Byte>)
      requires Valid() && |body| <= NETWORK_INFO_SIZE
      modifies this
      ensures Valid() && txSeq == NextStamp(old(txSeq))
      ensures datagram == Datagram(kind, body, txSeq)
      ensures |datagram| <= HEADER_SIZE + NETWORK_INFO_SIZE
      ensures Parse(datagram) == Some(Dispatch(kind, body, txSeq))
    {
      txSeq := (txSeq + 1) % U16;
      if txSeq == 0 {
        txSeq := txSeq + 1;
      }
      datagram := Header(kind, 0, 0, 0, txSeq);
      if |body| > 0 {
        var compressed := new Byte[NETWORK_INFO_SIZE];
        var ok, n := Compress(body, compressed);
        if ok {
          datagram := Header(kind, 1, n, |body|, txSeq) + compressed[..n];
        } else {
          datagram := Header(kind, 0, |body|, 0, txSeq) + body;
        }
      }
      RoundTrip(kind, body, txSeq);
    }
  }

  /** The receiving side, up to the dispatch on the frame type. */
  method OnControlFrame(payload: seq<Byte>) returns (r: Option<Dispatch>)
    ensures r == Parse(payload)
  {
    if |payload| < HEADER_SIZE {
      return None;
    }
    if Read32(payload, 0) != LAN_MAGIC {
      return None;
    }
    var length := Read16(payload, 6);
    if |payload| < HEADER_SIZE + length {
      return None;
    }
    var body := payload[HEADER_SIZE..HEADER_SIZE + length];
    if payload[5] != 0 {
      var decompressed := new Byte[NETWORK_INFO_SIZE];
      var ok, n := Decompress(body, decompressed);
      if !ok {
        return None;
      }
      if n != Read16(payload, 8) {
        return None;
      }
      body := decompressed[..n];
    }
    r := Some(Dispatch(payload[4], body, Read16(payload, 10)));
  }

  // ---- what the pair promises ----

  lemma {:induction false} HeaderFields(kind: Byte, compressed: Byte, length: nat, plain: nat, stamp: nat, body: seq<Byte>)
    requires length < U16 && plain < U16 && stamp < U16
    ensures var p := Header(kind, compressed, length, plain, stamp) + body;
            && Read32(p, 0) == LAN_MAGIC && p[4] == kind && p[5] == compressed
            && Read16(p, 6) == length && Read16(p, 8) == plain && Read16(p, 10) == stamp
            && p[HEADER_SIZE..] == body
  {
    var p := Header(kind, compressed, length, plain, stamp) + body;
    assert p[0..4] == Le32(LAN_MAGIC);
    assert p[6..8] == Le16(length);
    assert p[8..10] == Le16(plain);
    assert p[10..12] == Le16(stamp);
  }

  /** The bytes on the wire, one by one. */
  lemma {:induction false} HeaderLayout(kind: Byte, compressed: Byte, length: nat, plain: nat, stamp: nat)
    requires length < U16 && plain < U16 && stamp < U16
    ensures Header(kind, compressed, length, plain, stamp)
         == [0x00, 0x14, 0x45, 0x11, kind, compressed, length % 256, length / 256, plain % 256, plain / 256,
             stamp % 256, stamp / 256]
  {
  }

  /** Every frame comes out as it went in: type, body and sequence number, on the coded and
      on the raw path. */
  lemma {:induction false} RoundTrip(kind: Byte, body: seq<Byte>, stamp: nat)
    requires |body| <= NETWORK_INFO_SIZE && stamp < U16
    ensures Parse(Datagram(kind, body, stamp)) == Some(Dispatch(kind, body, stamp))
  {
    TrailingBytesIgnored(kind, body, stamp, []);
    assert Datagram(kind, body, stamp) + [] == Datagram(kind, body, stamp);
  }

  lemma {:induction false} ParseParts(kind: Byte, compressed: Byte, plain: nat, stamp: nat, w: seq<Byte>, junk: seq<Byte>)
    requires |w| < U16 && plain < U16 && stamp < U16
    ensures Parse(Header(kind, compressed, |w|, plain, stamp) + w + junk)
         == if compressed == 0 then Some(Dispatch(kind, w, stamp))
            else if Inflate(w, NETWORK_INFO_SIZE).0 && |Inflate(w, NETWORK_INFO_SIZE).1| == plain then
              Some(Dispatch(kind, Inflate(w, NETWORK_INFO_SIZE).1, stamp))
            else None
  {
    var p := Header(kind, compressed, |w|, plain, stamp) + w + junk;
    HeaderFields(kind, compressed, |w|, plain, stamp, w + junk);
    assert p == Header(kind, compressed, |w|, plain, stamp) + (w + junk);
    assert p[HEADER_SIZE..HEADER_SIZE + |w|] == w;
  }

  /** Bytes behind the announced length change nothing. */
  lemma {:induction false} TrailingBytesIgnored(kind: Byte, body: seq<Byte>, stamp: nat, junk: seq<Byte>)
    requires |body| <= NETWORK_INFO_SIZE && stamp < U16
    ensures Parse(Datagram(kind, body, stamp) + junk) == Some(Dispatch(kind, body, stamp))
  {
    if body == [] {
      ParseParts(kind, 0, 0, stamp, [], junk);
      assert Header(kind, 0, 0, 0, stamp) + [] == Header(kind, 0, 0, 0, stamp);
    } else if |Encode(body)| <= NETWORK_INFO_SIZE {
      ParseParts(kind, 1, |body|, stamp, Encode(body), junk);
      InflateEncode(body, NETWORK_INFO_SIZE);
    } else {
      ParseParts(kind, 0, 0, stamp, body, junk);
    }
  }

  /** Cutting a datagram anywhere makes the receiver drop it. */
  lemma {:induction false} TruncatedIsDropped(kind: Byte, body: seq<Byte>, stamp: nat, n: nat)
    requires |body| <= NETWORK_INFO_SIZE && stamp < U16
    requires n < |Datagram(kind, body, stamp)|
    ensures Parse(Datagram(kind, body, stamp)[..n]) == None
  {
    var p := Datagram(kind, body, stamp);
    if body == [] {
    } else if |Encode(body)| <= NETWORK_INFO_SIZE {
      HeaderFields(kind, 1, |Encode(body)|, |body|, stamp, Encode(body));
    } else {
      HeaderFields(kind, 0, |body|, 0, stamp, body);
    }
    if n >= HEADER_SIZE {
      assert Read16(p[..n], 6) == Read16(p, 6);
    }
  }
}
