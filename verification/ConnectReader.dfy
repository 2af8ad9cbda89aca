/**
 Reading the reply to CONNECT (section 9.3.6 of RFC 9110) through a capped, buffered reader, and the
 tunnel after it (pkg/httpx/proxy_client.go, connectHandshake).
 */
module ConnectReader {
  import opened ByteStrings

  const MAX_HEADER := 64 * 1024
  const BUFFER_SIZE := 4096

  // What http.ReadResponse makes of the bytes of a header so far.
  datatype Progress = More | Complete(status: int) | Malformed

  const STATUS_OK := 200

  type Parser = bytes -> Progress

  // The header's length: the first point where the parser asks for no more.
  ghost predicate HeaderIs(sent: bytes, parse: Parser, h: nat) {
    && h <= |sent|
    && parse(sent[..h]) != More
    && forall n :: 0 <= n < h ==> parse(sent[..n]) == More
  }

  // The raw connection: the bytes the proxy sends, and how many have been read.
  class Conn {
    const sent: bytes
    var pos: nat

    ghost predicate Valid()
      reads this
    {
      pos <= |sent|
    }

    constructor (sent: bytes)
      ensures Valid() && this.sent == sent && pos == 0
    {
      this.sent := sent;
      pos := 0;
    }

    // A read returns between one and max bytes, as many as happen to be there; size stands for
    // how many. It returns none only at the end of the stream.
    method Read(max: nat, size: nat) returns (data: bytes)
      requires Valid() && max > 0
      modifies this
      ensures Valid() && pos == old(pos) + |data| && data == sent[old(pos)..pos] && |data| <= max
      ensures data == [] <==> old(pos) == |sent|
    {
      var n := if size == 0 then 1 else size;
      n := if n > max then max else n;
      n := if n > |sent| - pos then |sent| - pos else n;
      data := sent[pos..pos + n];
      pos := pos + n;
    }
  }

  // bufio.Reader over io.LimitReader over the connection, as used for the header.
  class HeaderReader {
    const conn: Conn
    var limit: nat
    var buffered: bytes

    ghost predicate Valid()
      reads this, conn
    {
      && conn.Valid()
      && limit + conn.pos == MAX_HEADER
      && |buffered| <= conn.pos
      && buffered == conn.sent[conn.pos - |buffered|..conn.pos]
    }

    // How many bytes have been handed out.
    ghost function Consumed(): nat
      requires Valid()
      reads this, conn
    {
      conn.pos - |buffered|
    }

    constructor (conn: Conn)
      requires conn.Valid() && conn.pos == 0
      ensures Valid() && this.conn == conn && Consumed() == 0 && buffered == []
    {
      this.conn := conn;
      limit := MAX_HEADER;
      buffered := [];
    }

    // One byte; None at the end of the stream or of the cap.
    method ReadByte(size: nat) returns (b: Option<byte>)
      requires Valid()
      modifies this, conn
      ensures Valid()
      ensures b.None? <==> old(Consumed()) == MAX_HEADER || old(Consumed()) == |conn.sent|
      ensures b.None? ==> Consumed() == old(Consumed())
      ensures b.Some? ==> Consumed() == old(Consumed()) + 1 && b.value == conn.sent[old(Consumed())]
    {
      if buffered == [] {
        if limit == 0 {
          return None;
        }
        var max := if limit < BUFFER_SIZE then limit else BUFFER_SIZE;
        var data := conn.Read(max, size);
        if data == [] {
          return None;
        }
        limit := limit - |data|;
        buffered := data;
      }
      b := Some(buffered[0]);
      buffered := buffered[1..];
    }
  }

  // A header length is unique.
  lemma HeaderIsUnique(sent: bytes, parse: Parser, h: nat, k: nat)
    requires HeaderIs(sent, parse, h) && HeaderIs(sent, parse, k)
    ensures h == k
  {
  }

  // Where the bytes or the cap end with the parser asking for more, there is no header.
  lemma NoHeader(sent: bytes, parse: Parser, n: nat)
    requires n <= |sent| && (n == MAX_HEADER || n == |sent|)
    requires forall i :: 0 <= i <= n ==> parse(sent[..i]) == More
    ensures forall h: nat :: h <= MAX_HEADER ==> !HeaderIs(sent, parse, h)
  {
    forall h: nat | h <= MAX_HEADER ensures !HeaderIs(sent, parse, h) {
      if h <= |sent| {
        assert parse(sent[..h]) == More;
      }
    }
  }

  // http.ReadResponse: bytes are read until the parser has its header. sizes tells how much each
  // read of the connection yields.
  method ReadResponse(r: HeaderReader, parse: Parser, sizes: nat -> nat) returns (reply: Progress)
    requires r.Valid() && r.Consumed() == 0
    modifies r, r.conn
    ensures r.Valid()
    ensures reply != More <==> exists h: nat :: h <= MAX_HEADER && HeaderIs(r.conn.sent, parse, h)
    ensures reply != More ==> HeaderIs(r.conn.sent, parse, r.Consumed()) && reply == parse(r.conn.sent[..r.Consumed()])
  {
    var header: bytes := [];
    while parse(header) == More
      invariant r.Valid() && header == r.conn.sent[..r.Consumed()]
      invariant forall n :: 0 <= n < |header| ==> parse(r.conn.sent[..n]) == More
      decreases MAX_HEADER - r.Consumed()
    {
      var b := r.ReadByte(sizes(|header|));
      if b.None? {
        NoHeader(r.conn.sent, parse, |header|);
        return More;
      }
      header := header + [b.value];
    }
    reply := parse(header);
    assert HeaderIs(r.conn.sent, parse, |header|);
  }

  // io.MultiReader over the bytes read past the header and the raw connection.
  class Tunnel {
    var prefix: bytes
    const conn: Conn

    ghost predicate Valid()
      reads this, conn
    {
      conn.Valid()
    }

    // Everything a caller will ever read.
    ghost function Remaining(): bytes
      requires Valid()
      reads this, conn
    {
      prefix + conn.sent[conn.pos..]
    }

    constructor (prefix: bytes, conn: Conn)
      requires conn.Valid()
      ensures Valid() && this.conn == conn && Remaining() == prefix + conn.sent[conn.pos..]
    {
      this.prefix := prefix;
      this.conn := conn;
    }

    method Read(max: nat, size: nat) returns (data: bytes)
      requires Valid() && max > 0
      modifies this, conn
      ensures Valid() && |data| <= max && old(Remaining()) == data + Remaining()
      ensures data == [] <==> old(Remaining()) == []
    {
      if prefix != [] {
        var n := if |prefix| < max then |prefix| else max;
        data := prefix[..n];
        prefix := prefix[n..];
      } else {
        data := conn.Read(max, size);
      }
    }
  }

  datatype Handshake = Tunneled(tunnel: Tunnel) | Refused

  // The reply's header is complete within the cap, h bytes long, and has status 200.
  ghost predicate Accepted(sent: bytes, parse: Parser, h: nat) {
    h <= 65_536 && HeaderIs(sent, parse, h) && parse(sent[..h]) == Complete(200)
  }

  // The bytes read past the header, then the connection's remaining ones, are those after the header.
  method OpenTunnel(br: HeaderReader) returns (tunnel: Tunnel)
    requires br.Valid()
    ensures fresh(tunnel) && tunnel.Valid() && tunnel.conn == br.conn
    ensures tunnel.Remaining() == br.conn.sent[br.Consumed()..]
  {
    var pipelined := br.buffered;
    tunnel := new Tunnel(pipelined, br.conn);
    assert pipelined + br.conn.sent[br.conn.pos..] == br.conn.sent[br.Consumed()..];
  }

  // The handshake after the request is written. However the proxy's bytes arrive, it succeeds
  // exactly when the reply's header is complete within the cap and has status 200, and the tunnel
  // then yields exactly the bytes after that header, not cut by the cap.
  method ConnectHandshake(conn: Conn, parse: Parser, sizes: nat -> nat) returns (r: Handshake)
    requires conn.Valid() && conn.pos == 0
    modifies conn
    ensures r.Tunneled? <==> exists h: nat :: Accepted(conn.sent, parse, h)
    ensures r.Tunneled? ==> fresh(r.tunnel) && r.tunnel.Valid() && r.tunnel.conn == conn
    ensures r.Tunneled? ==> forall h: nat :: Accepted(conn.sent, parse, h) ==> r.tunnel.Remaining() == conn.sent[h..]
  {
    var br := new HeaderReader(conn);
    var reply := ReadResponse(br, parse, sizes);
    ghost var h := br.Consumed();
    forall k: nat | reply != More && HeaderIs(conn.sent, parse, k) ensures k == h {
      HeaderIsUnique(conn.sent, parse, h, k);
    }
    if reply.More? || reply.Malformed? {
      return Refused;
    }
    if reply.status != STATUS_OK {
      return Refused;
    }
    assert Accepted(conn.sent, parse, h);
    var tunnel := OpenTunnel(br);
    return Tunneled(tunnel);
  }
}
