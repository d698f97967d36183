/** Response frames of the administrative socket: how a response is cut, labelled and put together again. */
module IpcWire {
  import opened Common

  type Byte = x: int | 0 <= x < 256
  type Bytes = seq<Byte>

  const MAX_RESPONSE := 1048576
  const CHUNK := 61440
  const HEADER := 16
  const MAGIC := 0x00464943
  const WORD := 0x1_0000_0000

  // ----- words in network order

  /** htonl of a value cut to 32 bits. */
  function Word(n: nat): (b: Bytes)
    ensures |b| == 4
  {
    [(n / 0x100_0000) % 256, (n / 0x1_0000) % 256, (n / 0x100) % 256, n % 256]
  }

  function ReadWord(b: Bytes): (n: nat)
    requires |b| == 4
    ensures n < WORD
  {
    (b[0] as int) * 0x100_0000 + (b[1] as int) * 0x1_0000 + (b[2] as int) * 0x100 + (b[3] as int)
  }

  lemma WordRoundTrip(n: nat)
    ensures ReadWord(Word(n)) == n % WORD
  {
    var q := n / 0x100;
    assert n == q * 0x100 + n % 0x100;
    var r := q / 0x100;
    assert q == r * 0x100 + q % 0x100;
    var s := r / 0x100;
    assert r == s * 0x100 + r % 0x100;
    assert n / 0x1_0000 == r && n / 0x100_0000 == s;
    var t := s / 0x100;
    assert s == t * 0x100 + s % 0x100;
    assert n == t * WORD + ReadWord(Word(n));
  }

  // ----- frames

  function ResponseFrame(response: Bytes, offset: nat, chunk: nat): (frame: Bytes)
    requires offset + chunk <= |response|
    ensures |frame| == HEADER + chunk
  {
    Word(MAGIC) + Word(|response|) + Word(offset) + Word(chunk) + response[offset..offset + chunk]
  }

  datatype Header = Header(total: nat, offset: nat, chunk: nat)

  function ParseHeader(frame: Bytes): (h: Option<Header>)
    ensures h.Some? ==> |frame| == HEADER + h.value.chunk
  {
    if |frame| < HEADER then None
    else if ReadWord(frame[0..4]) != MAGIC then None
    else
      var h := Header(ReadWord(frame[4..8]), ReadWord(frame[8..12]), ReadWord(frame[12..16]));
      if |frame| != HEADER + h.chunk then None else Some(h)
  }

  lemma FourWords(a: Bytes, b: Bytes, c: Bytes, d: Bytes, rest: Bytes)
    requires |a| == |b| == |c| == |d| == 4
    ensures var frame := a + b + c + d + rest;
            && frame[0..4] == a && frame[4..8] == b && frame[8..12] == c && frame[12..16] == d && frame[16..] == rest
  {
  }

  /** Reading a frame gives back what was written, for every response below the word size. */
  lemma FrameRoundTrip(response: Bytes, offset: nat, chunk: nat)
    requires offset + chunk <= |response| < WORD
    ensures ParseHeader(ResponseFrame(response, offset, chunk)) == Some(Header(|response|, offset, chunk))
    ensures ResponseFrame(response, offset, chunk)[HEADER..] == response[offset..offset + chunk]
  {
    hide Word, ReadWord;
    FourWords(Word(MAGIC), Word(|response|), Word(offset), Word(chunk), response[offset..offset + chunk]);
    WordRoundTrip(MAGIC);
    WordRoundTrip(|response|);
    WordRoundTrip(offset);
    WordRoundTrip(chunk);
  }

  // ----- the receiving side

  datatype Arrival = Retry | Failure | Ended | Truncated | Frame(bytes: Bytes)

  /** What has been put together so far; `expected` is 0 before the first frame. */
  datatype Partial = Partial(expected: nat, response: Bytes)

  ghost predicate Open(p: Partial) {
    if p.expected == 0 then p.response == [] else |p.response| < p.expected <= MAX_RESPONSE
  }

  /** The checks on one frame, in order; a remainder is only taken where it cannot be negative. */
  function Accept(p: Partial, frame: Bytes): (q: Option<Partial>)
    requires Open(p)
    ensures q.Some? ==>
              |p.response| < |q.value.response| <= q.value.expected <= MAX_RESPONSE && p.response <= q.value.response
    ensures q.Some? && p.expected != 0 ==> q.value.expected == p.expected
  {
    var h := ParseHeader(frame);
    if h.None? then None
    else
      var (total, offset, chunk) := (h.value.total, h.value.offset, h.value.chunk);
      if total == 0 || total > MAX_RESPONSE then None
      else if (p.expected != 0 && total != p.expected) || offset != |p.response| then None
      else
        var left: nat := total - offset;
        if chunk == 0 || chunk > CHUNK || chunk > left then None
        else Some(Partial(total, p.response + frame[HEADER..]))
  }

  /** A frame is accepted exactly when it continues the same response: known magic and length, a total within
      bounds and as before, the next offset, and a chunk that is neither empty, too long nor past the end. */
  lemma AcceptExactly(p: Partial, frame: Bytes)
    requires Open(p)
    ensures Accept(p, frame).Some? <==>
            ParseHeader(frame).Some? &&
            var h := ParseHeader(frame).value;
            && 1 <= h.total <= MAX_RESPONSE && (p.expected == 0 || h.total == p.expected) && h.offset == |p.response|
            && 1 <= h.chunk <= CHUNK && h.offset + h.chunk <= h.total
    ensures Accept(p, frame).Some? ==>
              Accept(p, frame).value == Partial(ParseHeader(frame).value.total, p.response + frame[HEADER..])
  {
    hide ParseHeader;
  }

  lemma Shifted(x: nat, b: Byte)
    ensures (x * 256 + b as int) / 256 == x && (x * 256 + b as int) % 256 == b as int
  {
  }

  lemma WordInverse(b: Bytes)
    requires |b| == 4
    ensures Word(ReadWord(b)) == b
  {
    var one: nat := b[0] as int;
    var two: nat := one * 256 + b[1] as int;
    var three: nat := two * 256 + b[2] as int;
    var four: nat := three * 256 + b[3] as int;
    assert ReadWord(b) == four;
    Shifted(0, b[0]);
    Shifted(one, b[1]);
    Shifted(two, b[2]);
    Shifted(three, b[3]);
    Quotients(four);
  }

  lemma Quotients(n: nat)
    ensures n / 0x100 == n / 256 && n / 0x1_0000 == n / 256 / 256 && n / 0x100_0000 == n / 256 / 256 / 256
  {
    var q := n / 256;
    assert n == q * 256 + n % 256;
    var r := q / 256;
    assert q == r * 256 + q % 256;
    assert n / 0x1_0000 == r;
  }

  /** A header is read only off the bytes that would be written for it. */
  lemma HeaderIsInverse(frame: Bytes)
    requires ParseHeader(frame).Some?
    ensures var h := ParseHeader(frame).value;
            |frame| == HEADER + h.chunk &&
            frame[..HEADER] == Word(MAGIC) + Word(h.total) + Word(h.offset) + Word(h.chunk)
  {
    hide Word, ReadWord;
    WordInverse(frame[0..4]);
    WordInverse(frame[4..8]);
    WordInverse(frame[8..12]);
    WordInverse(frame[12..16]);
    assert frame[..HEADER] == frame[0..4] + frame[4..8] + frame[8..12] + frame[12..16];
  }

  /** The client's answer to a sequence of arrivals; running out of them is its deadline. */
  function Reassemble(arrivals: seq<Arrival>, p: Partial): (r: Option<Bytes>)
    requires Open(p)
    ensures r.Some? ==>
              0 < |r.value| <= MAX_RESPONSE && p.response <= r.value &&
              (p.expected != 0 ==> |r.value| == p.expected)
    decreases |arrivals|
  {
    if arrivals == [] then None
    else match arrivals[0]
      case Retry => Reassemble(arrivals[1..], p)
      case Frame(bytes) =>
        (var q := Accept(p, bytes);
         if q.None? then None
         else if |q.value.response| == q.value.expected then Some(q.value.response)
         else Reassemble(arrivals[1..], q.value))
      case _ => None
  }

  method TakeFrame(expected: nat, response: Bytes, frame: Bytes) returns (ok: bool, newExpected: nat,
                   newResponse: Bytes)
    requires Open(Partial(expected, response))
    ensures ok == Accept(Partial(expected, response), frame).Some?
    ensures ok ==> Accept(Partial(expected, response), frame).value == Partial(newExpected, newResponse)
  {
    hide ParseHeader;
    ok, newExpected, newResponse := false, expected, response;
    var h := ParseHeader(frame);
    if h.None? {
      return;
    }
    var total, offset, chunk := h.value.total, h.value.offset, h.value.chunk;
    if total == 0 || total > MAX_RESPONSE {
      return;
    }
    if (expected != 0 && total != expected) || offset != |response| || chunk == 0 || chunk > CHUNK ||
        chunk > total - offset {
      return;
    }
    ok, newExpected, newResponse := true, total, response + frame[HEADER..HEADER + chunk];
  }

  method ReceiveResponse(arrivals: seq<Arrival>) returns (r: Option<Bytes>)
    ensures r == Reassemble(arrivals, Partial(0, []))
  {
    hide Accept;
    var expected: nat, response: Bytes := 0, [];
    var i := 0;
    while |response| < expected || expected == 0
      invariant 0 <= i <= |arrivals| && (Open(Partial(expected, response)) || |response| == expected)
      invariant Open(Partial(expected, response)) ==>
                  Reassemble(arrivals, Partial(0, [])) == Reassemble(arrivals[i..], Partial(expected, response))
      invariant !Open(Partial(expected, response)) ==> Reassemble(arrivals, Partial(0, [])) == Some(response)
      decreases |arrivals| - i
    {
      if i == |arrivals| {
        return None;
      }
      var arrival := arrivals[i];
      assert arrivals[i..][1..] == arrivals[i + 1..];
      i := i + 1;
      if arrival == Retry {
        continue;
      }
      if !arrival.Frame? {
        return None;
      }
      var ok;
      ok, expected, response := TakeFrame(expected, response, arrival.bytes);
      if !ok {
        return None;
      }
    }
    r := Some(response);
  }

  // ----- the sending side

  function ChunkAt(response: Bytes, offset: nat): nat
    requires offset <= |response|
  {
    if |response| - offset < CHUNK then |response| - offset else CHUNK
  }

  /** All frames of a response from an offset on. */
  function FramesFrom(response: Bytes, offset: nat): seq<Bytes>
    requires offset <= |response|
    decreases |response| - offset
  {
    if offset == |response| then []
    else
      var chunk := ChunkAt(response, offset);
      [ResponseFrame(response, offset, chunk)] + FramesFrom(response, offset + chunk)
  }

  datatype Sending = Again | Refused | Short | Whole

  /** The frames that leave while the socket answers each attempt; a failure ends the connection. */
  function FramesSent(response: Bytes, offset: nat, outcomes: seq<Sending>): seq<Bytes>
    requires offset <= |response|
    decreases |outcomes|
  {
    if outcomes == [] || offset == |response| then []
    else match outcomes[0]
      case Again => FramesSent(response, offset, outcomes[1..])
      case Whole =>
        var chunk := ChunkAt(response, offset);
        [ResponseFrame(response, offset, chunk)] + FramesSent(response, offset + chunk, outcomes[1..])
      case _ => []
  }

  /** However sends are retried or fail, what leaves is a beginning of the same frames. */
  lemma {:induction false} SentIsPrefix(response: Bytes, offset: nat, outcomes: seq<Sending>)
    requires offset <= |response|
    ensures FramesSent(response, offset, outcomes) <= FramesFrom(response, offset)
    decreases |outcomes|
  {
    hide ResponseFrame;
    if outcomes != [] && offset != |response| {
      match outcomes[0] {
        case Again => SentIsPrefix(response, offset, outcomes[1..]);
        case Whole =>
          var chunk := ChunkAt(response, offset);
          SentIsPrefix(response, offset + chunk, outcomes[1..]);
        case _ =>
      }
    }
  }

  // ----- end to end

  /** The frames the client meets before anything ends its waiting. */
  function FramesMet(arrivals: seq<Arrival>): seq<Bytes> {
    if arrivals == [] then []
    else match arrivals[0]
      case Retry => FramesMet(arrivals[1..])
      case Frame(bytes) => [bytes] + FramesMet(arrivals[1..])
      case _ => []
  }

  lemma OwnFrameAccepted(response: Bytes, offset: nat)
    requires 0 < |response| <= MAX_RESPONSE && offset < |response|
    ensures var p := Partial(if offset == 0 then 0 else |response|, response[..offset]);
            var chunk := ChunkAt(response, offset);
            Open(p) && Accept(p, ResponseFrame(response, offset, chunk)) ==
              Some(Partial(|response|, response[..offset + chunk]))
  {
    var chunk := ChunkAt(response, offset);
    FrameRoundTrip(response, offset, chunk);
    hide ParseHeader, ResponseFrame;
    assert response[..offset] + response[offset..offset + chunk] == response[..offset + chunk];
  }

  lemma {:induction false} ReassemblyFrom(arrivals: seq<Arrival>, response: Bytes, offset: nat)
    requires 0 < |response| <= MAX_RESPONSE && offset < |response|
    requires FramesMet(arrivals) <= FramesFrom(response, offset)
    ensures var p := Partial(if offset == 0 then 0 else |response|, response[..offset]);
            Open(p) && Reassemble(arrivals, p) ==
              if FramesMet(arrivals) == FramesFrom(response, offset) then Some(response) else None
    decreases |arrivals|
  {
    hide Accept, ResponseFrame;
    var p := Partial(if offset == 0 then 0 else |response|, response[..offset]);
    var chunk := ChunkAt(response, offset);
    var frames := FramesFrom(response, offset);
    OwnFrameAccepted(response, offset);
    if arrivals != [] {
      var rest := arrivals[1..];
      match arrivals[0] {
        case Retry => ReassemblyFrom(rest, response, offset);
        case Frame(bytes) =>
          assert FramesMet(arrivals)[0] == bytes == frames[0];
          assert frames[1..] == FramesFrom(response, offset + chunk);
          assert FramesMet(arrivals)[1..] == FramesMet(rest);
          if offset + chunk == |response| {
            assert response[..offset + chunk] == response;
            assert FramesMet(rest) <= [];
          } else {
            assert FramesMet(rest) <= FramesFrom(response, offset + chunk);
            ReassemblyFrom(rest, response, offset + chunk);
          }
        case _ =>
      }
    }
  }

  /**
   * For every response the server may send, every pattern of retried or failing sends and every
   * pattern of waiting at the client: the client's result is the response, exactly when all of its
   * frames got through, and an error otherwise.
   */
  lemma {:induction false} ReassemblyExact(response: Bytes, outcomes: seq<Sending>, arrivals: seq<Arrival>)
    requires 0 < |response| <= MAX_RESPONSE && FramesMet(arrivals) <= FramesSent(response, 0, outcomes)
    ensures Reassemble(arrivals, Partial(0, [])) ==
            if FramesMet(arrivals) == FramesFrom(response, 0) then Some(response) else None
  {
    SentIsPrefix(response, 0, outcomes);
    ReassemblyFrom(arrivals, response, 0);
    assert response[..0] == [];
  }

  /** Whatever frames arrive, from anyone: an accepted result has the length every accepted frame declared. */
  lemma {:induction false} DeclaredLength(arrivals: seq<Arrival>, p: Partial)
    requires Open(p) && Reassemble(arrivals, p).Some?
    ensures exists bytes ::
              Frame(bytes) in arrivals && ParseHeader(bytes).Some? &&
              ParseHeader(bytes).value.total == |Reassemble(arrivals, p).value|
    decreases |arrivals|
  {
    hide ParseHeader;
    match arrivals[0] {
      case Retry =>
        DeclaredLength(arrivals[1..], p);
        var bytes :| Frame(bytes) in arrivals[1..] && ParseHeader(bytes).Some? &&
          ParseHeader(bytes).value.total == |Reassemble(arrivals[1..], p).value|;
        assert Frame(bytes) in arrivals;
      case Frame(bytes) =>
        var q := Accept(p, bytes).value;
        assert arrivals[0] in arrivals;
        assert ParseHeader(bytes).value.total == q.expected == |Reassemble(arrivals, p).value|;
    }
  }

  // ----- what the server sends at all

  /** An empty or oversized answer is replaced by an error text. */
  function Bounded(response: Bytes, errorText: Bytes): (r: Bytes)
    requires 0 < |errorText| <= MAX_RESPONSE
    ensures 0 < |r| <= MAX_RESPONSE
    ensures r == response || (r == errorText && (response == [] || |response| > MAX_RESPONSE))
  {
    if response != [] && |response| <= MAX_RESPONSE then response else errorText
  }
}
