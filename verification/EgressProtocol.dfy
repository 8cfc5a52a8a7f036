/** Length-prefixed messages over a byte stream, and bounded response reading (egress_protocol.py). */
module EgressProtocol {
  import opened Flows

  type byte = x: int | 0 <= x < 256

  const CHUNK := 65536
  const LENGTH_LIMIT := 0x1_0000_0000

  /** JSON, seen from here: `decode` may fail on bytes that nobody encoded. */
  datatype Codec<!V> = Codec(encode: V -> seq<byte>, decode: seq<byte> -> Option<V>, emptyObject: V)

  /** Every encoded value is at least a pair of braces, and decoding undoes encoding. */
  ghost predicate Faithful<V(!new)>(c: Codec<V>) {
    forall v :: c.encode(v) != [] && c.decode(c.encode(v)) == Some(v)
  }

  // ------------------------------------------------------------- the length prefix

  /** `struct.pack(">I", n)` */
  function Pack(n: nat): (r: seq<byte>)
    requires n < LENGTH_LIMIT
    ensures |r| == 4
  {
    [n / 16777216, n / 65536 % 256, n / 256 % 256, n % 256]
  }

  /** `struct.unpack(">I", b)[0]` */
  function Unpack(b: seq<byte>): (n: nat)
    requires |b| == 4
    ensures n < LENGTH_LIMIT
  {
    b[0] as int * 16777216 + b[1] as int * 65536 + b[2] as int * 256 + b[3] as int
  }

  lemma UnpackPack(n: nat)
    requires n < LENGTH_LIMIT
    ensures Unpack(Pack(n)) == n
  {
    assert n / 65536 == n / 16777216 * 256 + n / 65536 % 256;
    assert n / 256 == n / 65536 * 256 + n / 256 % 256;
  }

  /** The most significant byte comes first. */
  lemma BigEndian(n: nat, b: seq<byte>)
    requires n < LENGTH_LIMIT && |b| == 4
    ensures Pack(n) == b <==> n == ((b[0] as int * 256 + b[1] as int) * 256 + b[2] as int) * 256 + b[3] as int
    ensures Unpack(b) == ((b[0] as int * 256 + b[1] as int) * 256 + b[2] as int) * 256 + b[3] as int
  {
    UnpackPack(n);
    var k := ((b[0] as int * 256 + b[1] as int) * 256 + b[2] as int) * 256 + b[3] as int;
    if n == k {
      assert n / 256 == (b[0] as int * 256 + b[1] as int) * 256 + b[2] as int && n % 256 == b[3] as int;
      assert n / 65536 == b[0] as int * 256 + b[1] as int && n / 16777216 == b[0] as int;
    }
  }

  // ------------------------------------------------------------------ reading, as a function of the bytes to come

  datatype Read<V> =
    | Nothing                 // the peer closed before a whole header arrived
    | Message(value: V)
    | TooLarge(length: nat)
    | Closed                  // the peer closed in the middle of a payload
    | Malformed               // the payload is not JSON

  function ReadFrom<V>(c: Codec<V>, maxSize: int, stream: seq<byte>): (Read<V>, seq<byte>) {
    if |stream| < 4 then (Nothing, [])
    else
      var length, rest := Unpack(stream[..4]), stream[4..];
      if length > maxSize then (TooLarge(length), rest)
      else if length == 0 then (Message(c.emptyObject), rest)
      else if |rest| < length then (Closed, [])
      else (Parsed(c, rest[..length]), rest[length..])
  }

  function Parsed<V>(c: Codec<V>, payload: seq<byte>): Read<V> {
    match c.decode(payload)
    case Some(v) => Message(v)
    case None => Malformed
  }

  /** Bytes put on the wire for one message; a payload of 4 GiB or more does not fit the prefix. */
  function Frame(payload: seq<byte>): Option<seq<byte>> {
    if |payload| < LENGTH_LIMIT then Some(Pack(|payload|) + payload) else None
  }

  predicate Framable<V>(c: Codec<V>, vs: seq<V>) { forall i :: 0 <= i < |vs| ==> |c.encode(vs[i])| < LENGTH_LIMIT }

  /** Every message has a frame and none is longer than the reader accepts. */
  predicate Sendable<V>(c: Codec<V>, maxSize: int, vs: seq<V>) {
    Framable(c, vs) && forall i :: 0 <= i < |vs| ==> |c.encode(vs[i])| <= maxSize
  }

  /** The wire after a sequence of messages. */
  function Stream<V>(c: Codec<V>, vs: seq<V>): seq<byte>
    requires Framable(c, vs)
  {
    if vs == [] then [] else Frame(c.encode(vs[0])).value + Stream(c, vs[1..])
  }

  /** Read messages until something else comes. */
  function Drain<V>(c: Codec<V>, maxSize: int, stream: seq<byte>): (seq<V>, Read<V>)
    decreases |stream|
  {
    var (r, rest) := ReadFrom(c, maxSize, stream);
    if !r.Message? then ([], r)
    else
      var (vs, last) := Drain(c, maxSize, rest);
      ([r.value] + vs, last)
  }

  lemma FrameParts(payload: seq<byte>, tail: seq<byte>)
    requires |payload| < LENGTH_LIMIT
    ensures var s := Frame(payload).value + tail;
            && |s| == 4 + |payload| + |tail| && s[..4] == Pack(|payload|)
            && s[4..][..|payload|] == payload && s[4..][|payload|..] == tail
  {
  }

  /** A message within the limit is read back, and exactly its bytes are consumed. */
  lemma ReadBack<V(!new)>(c: Codec<V>, maxSize: int, v: V, tail: seq<byte>)
    requires Faithful(c) && |c.encode(v)| <= maxSize && |c.encode(v)| < LENGTH_LIMIT
    ensures ReadFrom(c, maxSize, Frame(c.encode(v)).value + tail) == (Message(v), tail)
  {
    FrameParts(c.encode(v), tail);
    UnpackPack(|c.encode(v)|);
    assert c.decode(c.encode(v)) == Some(v);
  }

  /** A longer message is refused as soon as its header is in. */
  lemma OversizedRefused<V>(c: Codec<V>, maxSize: int, v: V, tail: seq<byte>)
    requires maxSize < |c.encode(v)| < LENGTH_LIMIT
    ensures ReadFrom(c, maxSize, Frame(c.encode(v)).value + tail) == (TooLarge(|c.encode(v)|), c.encode(v) + tail)
  {
    var s := Frame(c.encode(v)).value + tail;
    FrameParts(c.encode(v), tail);
    UnpackPack(|c.encode(v)|);
    assert s[4..] == c.encode(v) + tail;
  }

  /** An empty payload stands for the empty object, and bytes that do not decode are reported; both are consumed. */
  lemma OtherPayloads<V>(c: Codec<V>, maxSize: int, payload: seq<byte>, tail: seq<byte>)
    requires |payload| <= maxSize && |payload| < LENGTH_LIMIT
    ensures var r := ReadFrom(c, maxSize, Frame(payload).value + tail);
            && r.1 == tail
            && (payload == [] ==> r.0 == Message(c.emptyObject))
            && (payload != [] && c.decode(payload) == None ==> r.0 == Malformed)
            && (forall v :: payload != [] && c.decode(payload) == Some(v) ==> r.0 == Message(v))
  {
    FrameParts(payload, tail);
    UnpackPack(|payload|);
    if payload == [] { assert (Frame(payload).value + tail)[4..] == tail; }
  }

  /** How many whole messages the first `n` bytes of the wire hold. */
  function Complete<V>(c: Codec<V>, vs: seq<V>, n: nat): (k: nat)
    ensures k <= |vs|
  {
    if vs == [] || n < 4 + |c.encode(vs[0])| then 0 else 1 + Complete(c, vs[1..], n - 4 - |c.encode(vs[0])|)
  }

  /** How many bytes of the next message follow them. */
  function Overhang<V>(c: Codec<V>, vs: seq<V>, n: nat): nat {
    if vs == [] || n < 4 + |c.encode(vs[0])| then n else Overhang(c, vs[1..], n - 4 - |c.encode(vs[0])|)
  }

  lemma CutFrame<V(!new)>(c: Codec<V>, maxSize: int, v: V, n: nat, s: seq<byte>)
    requires Faithful(c) && |c.encode(v)| <= maxSize && |c.encode(v)| < LENGTH_LIMIT && n < 4 + |c.encode(v)|
    requires n <= |s|
    requires s[..n] == Frame(c.encode(v)).value[..n]
    ensures ReadFrom(c, maxSize, s[..n]) == (if n < 4 then Nothing else Closed, [])
  {
    if n >= 4 {
      FrameParts(c.encode(v), []);
      UnpackPack(|c.encode(v)|);
      assert s[..n][..4] == Frame(c.encode(v)).value[..4] == Pack(|c.encode(v)|);
      assert c.encode(v) != [];
    }
  }

  lemma TakeFrame(frame: seq<byte>, rest: seq<byte>, n: nat)
    requires n <= |frame| + |rest|
    ensures n >= |frame| ==> (frame + rest)[..n] == frame + rest[..n - |frame|]
    ensures n <= |frame| ==> (frame + rest)[..n] == frame[..n]
  {
  }

  lemma DrainMessage<V(!new)>(c: Codec<V>, maxSize: int, v: V, tail: seq<byte>)
    requires Faithful(c) && |c.encode(v)| <= maxSize && |c.encode(v)| < LENGTH_LIMIT
    ensures var (vs, last) := Drain(c, maxSize, tail);
            Drain(c, maxSize, Frame(c.encode(v)).value + tail) == ([v] + vs, last)
  {
    ReadBack(c, maxSize, v, tail);
  }

  lemma DrainCut<V(!new)>(c: Codec<V>, maxSize: int, v: V, n: nat, s: seq<byte>)
    requires Faithful(c) && |c.encode(v)| <= maxSize && |c.encode(v)| < LENGTH_LIMIT && n < 4 + |c.encode(v)|
    requires n <= |s|
    requires s[..n] == Frame(c.encode(v)).value[..n]
    ensures Drain(c, maxSize, s[..n]) == ([], if n < 4 then Nothing else Closed)
  {
    CutFrame(c, maxSize, v, n, s);
  }

  lemma CompleteNext<V>(c: Codec<V>, vs: seq<V>, n: nat)
    requires vs != [] && n >= 4 + |c.encode(vs[0])|
    ensures var k := n - 4 - |c.encode(vs[0])|;
            && vs[..Complete(c, vs, n)] == [vs[0]] + vs[1..][..Complete(c, vs[1..], k)]
            && Overhang(c, vs, n) == Overhang(c, vs[1..], k)
  {
  }

  /** Whatever the connection delivers of a stream of messages, the reader gets exactly the messages that arrived
      whole, in order, and then notices the cut: quietly before or inside a header, as an error inside a payload. */
  lemma {:induction false} DrainPrefix<V(!new)>(c: Codec<V>, maxSize: int, vs: seq<V>, n: nat)
    requires Faithful(c) && Sendable(c, maxSize, vs) && n <= |Stream(c, vs)|
    ensures Drain(c, maxSize, Stream(c, vs)[..n])
         == (vs[..Complete(c, vs, n)], if Overhang(c, vs, n) < 4 then Nothing else Closed)
    decreases |vs|
  {
    if vs != [] {
      var frame, rest := Frame(c.encode(vs[0])).value, Stream(c, vs[1..]);
      TakeFrame(frame, rest, n);
      if n < |frame| {
        DrainCut(c, maxSize, vs[0], n, Stream(c, vs));
      } else {
        DrainMessage(c, maxSize, vs[0], rest[..n - |frame|]);
        DrainPrefix(c, maxSize, vs[1..], n - |frame|);
        CompleteNext(c, vs, n);
      }
    }
  }

  lemma {:induction false} AllComplete<V>(c: Codec<V>, vs: seq<V>)
    requires Framable(c, vs)
    ensures Complete(c, vs, |Stream(c, vs)|) == |vs| && Overhang(c, vs, |Stream(c, vs)|) == 0
  {
    if vs != [] { AllComplete(c, vs[1..]); }
  }

  /** Written messages are read back unchanged. */
  lemma RoundTrip<V(!new)>(c: Codec<V>, maxSize: int, vs: seq<V>)
    requires Faithful(c) && Sendable(c, maxSize, vs)
    ensures Drain(c, maxSize, Stream(c, vs)) == (vs, Nothing)
  {
    var s := Stream(c, vs);
    DrainPrefix(c, maxSize, vs, |s|);
    AllComplete(c, vs);
    assert s[..|s|] == s && vs[..|vs|] == vs;
  }

  // ------------------------------------------------------------------- the two ends

  /** A connected socket or a response body: the bytes still to come, handed out in pieces of any size. */
  class Source {
    var pending: seq<byte>
    var turn: nat
    const pieces: nat -> nat       // how much the next call would like to return
    const breaks: nat -> bool      // whether the next call raises

    constructor (bytes: seq<byte>, pieces: nat -> nat, breaks: nat -> bool)
      ensures pending == bytes && turn == 0 && this.pieces == pieces && this.breaks == breaks
    {
      pending, turn := bytes, 0;
      this.pieces, this.breaks := pieces, breaks;
    }

    method Recv(n: nat) returns (raised: bool, chunk: seq<byte>)
      modifies this
      ensures turn == old(turn) + 1 && raised == breaks(old(turn))
      ensures |chunk| <= n && chunk + pending == old(pending)
      ensures raised ==> chunk == []
      ensures !raised && n > 0 ==> (chunk == [] <==> old(pending) == [])
    {
      raised, chunk := breaks(turn), [];
      if !raised {
        var k := if pieces(turn) == 0 then 1 else pieces(turn);
        k := if k > n then n else k;
        k := if k > |pending| then |pending| else k;
        chunk, pending := pending[..k], pending[k..];
      }
      turn := turn + 1;
    }
  }

  class Sink {
    var sent: seq<byte>

    method SendAll(bytes: seq<byte>)
      modifies this
      ensures sent == old(sent) + bytes
    {
      sent := sent + bytes;
    }
  }

  /** Whether one of the calls between two turns raised. */
  ghost predicate Broke(sock: Source, from: nat, to: nat) { exists t :: from <= t < to && sock.breaks(t) }

  /** `recv` in a loop until `n` bytes are there; every request is for what is missing, at most `most` bytes. */
  method ReadExactly(sock: Source, n: nat, most: nat) returns (raised: bool, got: seq<byte>)
    requires most > 0
    modifies sock
    ensures got + sock.pending == old(sock.pending) && old(sock.turn) <= sock.turn
    ensures raised <==> Broke(sock, old(sock.turn), sock.turn)
    ensures |got| <= n && (|got| < n && !raised ==> sock.pending == [])
  {
    raised, got := false, [];
    while |got| < n
      invariant got + sock.pending == old(sock.pending) && |got| <= n
      invariant !raised && old(sock.turn) <= sock.turn && !Broke(sock, old(sock.turn), sock.turn)
      decreases n - |got|
    {
      var want := if n - |got| > most then most else n - |got|;
      ghost var before := sock.pending;
      var chunk;
      raised, chunk := sock.Recv(want);
      if raised {
        assert sock.breaks(sock.turn - 1);
        return;
      }
      if chunk == [] { return; }
      assert (got + chunk) + sock.pending == got + (chunk + sock.pending);
      got := got + chunk;
    }
  }

  /** Every fragmentation gives the same answer and consumes the same bytes; an error of `recv` goes to the caller. */
  method ReadLengthPrefixed<V>(sock: Source, maxSize: int, c: Codec<V>) returns (raised: bool, r: Read<V>)
    modifies sock
    ensures old(sock.turn) <= sock.turn && (raised <==> Broke(sock, old(sock.turn), sock.turn))
    ensures !raised ==> (r, sock.pending) == ReadFrom(c, maxSize, old(sock.pending))
  {
    ghost var stream := sock.pending;
    var lengthData;
    r := Nothing;
    raised, lengthData := ReadExactly(sock, 4, 4);
    if raised || |lengthData| < 4 { return; }
    assert lengthData == stream[..4] && sock.pending == stream[4..];
    var length := Unpack(lengthData);
    if length > maxSize { return false, TooLarge(length); }
    if length == 0 { return false, Message(c.emptyObject); }
    ghost var rest, between := sock.pending, sock.turn;
    var data;
    raised, data := ReadExactly(sock, length, CHUNK);
    BrokeInParts(sock, old(sock.turn), between, sock.turn);
    if raised { return; }
    if |data| < length { return false, Closed; }
    assert data == rest[..length] && sock.pending == rest[length..];
    r := Parsed(c, data);
  }

  lemma BrokeInParts(sock: Source, from: nat, between: nat, to: nat)
    requires from <= between <= to
    ensures Broke(sock, from, to) <==> Broke(sock, from, between) || Broke(sock, between, to)
  {
    if t :| from <= t < to && sock.breaks(t) { assert t < between || between <= t; }
  }

  /** What a reader ends up with that has got `vs` already. */
  function DrainAfter<V>(c: Codec<V>, maxSize: int, vs: seq<V>, stream: seq<byte>): (seq<V>, Read<V>) {
    var (more, last) := Drain(c, maxSize, stream);
    (vs + more, last)
  }

  lemma DrainNext<V>(c: Codec<V>, maxSize: int, vs: seq<V>, stream: seq<byte>)
    ensures var (r, rest) := ReadFrom(c, maxSize, stream);
            if r.Message? then |rest| < |stream|
                && DrainAfter(c, maxSize, vs, stream) == DrainAfter(c, maxSize, vs + [r.value], rest)
            else DrainAfter(c, maxSize, vs, stream) == (vs, r)
  {
    var (r, rest) := ReadFrom(c, maxSize, stream);
    if r.Message? {
      var (more, last) := Drain(c, maxSize, rest);
      assert vs + ([r.value] + more) == vs + [r.value] + more;
    } else {
      assert vs + [] == vs;
    }
  }

  /** A reader that asks until something other than a message comes gets what the wire holds, whatever the pieces. */
  method ReadAll<V>(sock: Source, maxSize: int, c: Codec<V>) returns (raised: bool, vs: seq<V>, last: Read<V>)
    modifies sock
    ensures old(sock.turn) <= sock.turn && (raised <==> Broke(sock, old(sock.turn), sock.turn))
    ensures !raised ==> (vs, last) == Drain(c, maxSize, old(sock.pending))
  {
    vs := [];
    assert [] + Drain(c, maxSize, sock.pending).0 == Drain(c, maxSize, sock.pending).0;
    while true
      invariant old(sock.turn) <= sock.turn && !Broke(sock, old(sock.turn), sock.turn)
      invariant DrainAfter(c, maxSize, vs, sock.pending) == Drain(c, maxSize, old(sock.pending))
      decreases |sock.pending|
    {
      ghost var turn := sock.turn;
      DrainNext(c, maxSize, vs, sock.pending);
      raised, last := ReadLengthPrefixed(sock, maxSize, c);
      BrokeInParts(sock, old(sock.turn), turn, sock.turn);
      if raised || !last.Message? { return; }
      vs := vs + [last.value];
    }
  }

  /** End to end: whatever the pieces, and however far the connection gets, exactly the messages that arrived whole. */
  method ReceiveMessages<V(!new)>(sock: Source, maxSize: int, c: Codec<V>, ghost vs: seq<V>, ghost n: nat)
      returns (raised: bool, got: seq<V>, last: Read<V>)
    requires Faithful(c) && Sendable(c, maxSize, vs) && n <= |Stream(c, vs)| && sock.pending == Stream(c, vs)[..n]
    modifies sock
    ensures raised <==> Broke(sock, old(sock.turn), sock.turn)
    ensures !raised ==> got == vs[..Complete(c, vs, n)] && (last == if Overhang(c, vs, n) < 4 then Nothing else Closed)
    ensures !raised && n == |Stream(c, vs)| ==> got == vs && last == Nothing
  {
    DrainPrefix(c, maxSize, vs, n);
    if n == |Stream(c, vs)| { AllComplete(c, vs); }
    raised, got, last := ReadAll(sock, maxSize, c);
  }

  /** False stands for the `struct.error` of an oversized payload, before anything is sent. */
  method WriteLengthPrefixed<V>(sock: Sink, c: Codec<V>, v: V) returns (ok: bool)
    modifies sock
    ensures ok <==> |c.encode(v)| < LENGTH_LIMIT
    ensures sock.sent == if ok then old(sock.sent) + Stream(c, [v]) else old(sock.sent)
  {
    var payload := c.encode(v);
    if |payload| >= LENGTH_LIMIT { return false; }
    assert [v][1..] == [];
    assert Pack(|payload|) + payload + [] == Pack(|payload|) + payload;
    sock.SendAll(Pack(|payload|) + payload);
    return true;
  }

  /** What was sent and then a further message make the wire of the longer sequence. */
  lemma {:induction false} StreamAppend<V>(c: Codec<V>, vs: seq<V>, v: V)
    requires Framable(c, vs) && Framable(c, [v])
    ensures Framable(c, vs + [v]) && Stream(c, vs + [v]) == Stream(c, vs) + Stream(c, [v])
  {
    if vs == [] {
      assert [] + [v] == [v];
    } else {
      assert (vs + [v])[1..] == vs[1..] + [v];
      StreamAppend(c, vs[1..], v);
    }
  }

  /** `declared` is the Content-Length when there is one and it is an integer. Excess is reported exactly when it was
      announced or the body is longer than the limit; never more than one byte beyond the limit is taken. */
  method ReadResponseWithLimit(resp: Source, declared: Option<int>, maxSize: nat)
      returns (data: seq<byte>, exceeded: bool, bytesRead: nat)
    modifies resp
    ensures declared.Some? && declared.value > maxSize ==>
      data == [] && exceeded && bytesRead == 0 && resp.pending == old(resp.pending)
    ensures declared.None? || declared.value <= maxSize ==>
      && bytesRead <= maxSize + 1 && bytesRead <= |old(resp.pending)|
      && resp.pending == old(resp.pending)[bytesRead..]
      && data == old(resp.pending)[..if bytesRead > maxSize then maxSize else bytesRead]
      && (exceeded <==> bytesRead == maxSize + 1)
      && (!Broke(resp, old(resp.turn), resp.turn) ==>
            bytesRead == if |old(resp.pending)| > maxSize then maxSize + 1 else |old(resp.pending)|)
  {
    data, exceeded, bytesRead := [], false, 0;
    if declared.Some? && declared.value > maxSize { return [], true, 0; }
    ghost var body := resp.pending;
    while true
      invariant bytesRead <= maxSize && !exceeded && bytesRead <= |body|
      invariant data == body[..bytesRead] && resp.pending == body[bytesRead..] && old(resp.turn) <= resp.turn
      decreases |body| - bytesRead
    {
      var remaining := maxSize - bytesRead + 1;
      var raised, chunk := resp.Recv(if remaining < CHUNK then remaining else CHUNK);
      if raised { assert resp.breaks(resp.turn - 1); }
      if raised || chunk == [] { break; }
      assert chunk == body[bytesRead..bytesRead + |chunk|];
      assert resp.pending == body[bytesRead + |chunk|..];
      bytesRead := bytesRead + |chunk|;
      if bytesRead > maxSize {
        exceeded := true;
        data := data + chunk[..maxSize - (bytesRead - |chunk|)];
        break;
      }
      data := data + chunk;
    }
  }
}
