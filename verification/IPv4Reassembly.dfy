/** Reassembly of fragmented IPv4 datagrams (section 3.2 of RFC 791). */
module IPv4Reassembly {
  import opened Numbers
  import opened Outcomes

  type byte = b: int | 0 <= b < 256

  /** What a packet carries; `kind` is the protocol its bytes were decoded with. */
  datatype Payload = Payload(kind: byte, bytes: seq<byte>)

  /** The parts of an IP packet that matter here; the offset counts blocks of eight bytes. */
  datatype Packet = Packet(id: nat, src: nat, dst: nat, protocol: byte, offset: nat, more: bool, inner: Option<Payload>)
  {
    /** The offset is a 13-bit field. */
    predicate Valid() {
      offset < 0x2000
    }

    predicate Fragmented?() {
      more || offset != 0
    }
  }

  datatype Fragment = Fragment(offset: nat, bytes: seq<byte>)

  /** The fields of a stream. */
  datatype StreamState = StreamState(fragments: seq<Fragment>, receivedEnd: bool, proto: byte, receivedSize: nat,
                                     totalSize: nat)

  const EMPTY: StreamState := StreamState([], false, 0xff, 0, 0)

  // ----- one stream -----

  /** Where a fragment belongs: behind all leading fragments with a smaller offset. */
  function Position(fs: seq<Fragment>, offset: nat): (i: nat)
    ensures i <= |fs|
  {
    if fs == [] || offset <= fs[0].offset then 0 else 1 + Position(fs[1..], offset)
  }

  function ExtractOffset(p: Packet): nat {
    p.offset * 8
  }

  /** `add_fragment`. */
  function Added(st: StreamState, p: Packet): StreamState
    requires p.inner.Some?
  {
    var offset, bytes := ExtractOffset(p), p.inner.value.bytes;
    var i := Position(st.fragments, offset);
    if i < |st.fragments| && st.fragments[i].offset == offset then st
    else
      StreamState(st.fragments[..i] + [Fragment(offset, bytes)] + st.fragments[i..],
                  st.receivedEnd || !p.more,
                  if offset == 0 then p.protocol else st.proto,
                  st.receivedSize + |bytes|,
                  if p.more then st.totalSize else offset + |bytes|)
  }

  /** `is_complete`. */
  predicate Complete(st: StreamState) {
    st.receivedEnd && st.receivedSize == st.totalSize
  }

  /** The loop of `allocate_pdu`: the bytes of all fragments, unless one is not where the 16-bit running
      offset expects it. */
  function Joined(fs: seq<Fragment>, expected: nat): Option<seq<byte>> {
    if fs == [] then Some([])
    else if expected != fs[0].offset then None
    else Before(fs[0].bytes, Joined(fs[1..], (fs[0].offset + |fs[0].bytes|) % UINT16_RANGE))
  }

  /** `allocate_pdu`. */
  function Allocated(st: StreamState): Option<Payload> {
    var r := Joined(st.fragments, 0);
    if r.None? then None else Some(Payload(st.proto, r.value))
  }

  /** Bytes put before the rest, if there is one. */
  function Before(bytes: seq<byte>, rest: Option<seq<byte>>): Option<seq<byte>> {
    if rest.None? then None else Some(bytes + rest.value)
  }

  lemma BeforeBoth(a: seq<byte>, b: seq<byte>, rest: Option<seq<byte>>)
    ensures Before(a, Before(b, rest)) == Before(a + b, rest)
  {
    assert rest.Some? ==> a + (b + rest.value) == a + b + rest.value;
  }

  class IPv4Stream {
    var fragments: seq<Fragment>
    var receivedEnd: bool
    var transportProto: byte
    var receivedSize: nat
    var totalSize: nat

    constructor ()
      ensures State() == EMPTY
    {
      fragments, receivedEnd, transportProto, receivedSize, totalSize := [], false, 0xff, 0, 0;
    }

    ghost function State(): StreamState
      reads this
    {
      StreamState(fragments, receivedEnd, transportProto, receivedSize, totalSize)
    }

    method AddFragment(p: Packet)
      requires p.inner.Some?
      modifies this
      ensures State() == Added(old(State()), p)
    {
      var bytes := p.inner.value.bytes;
      var it := 0;
      var offset := ExtractOffset(p);
      while it < |fragments| && offset > fragments[it].offset
        invariant it <= |fragments| && Position(fragments, offset) == it + Position(fragments[it..], offset)
      {
        assert fragments[it..][1..] == fragments[it + 1..];
        it := it + 1;
      }
      if it < |fragments| && fragments[it].offset == offset {
        return;
      }
      fragments := fragments[..it] + [Fragment(offset, bytes)] + fragments[it..];
      receivedSize := receivedSize + |bytes|;
      if !p.more {
        totalSize := offset + |bytes|;
        receivedEnd := true;
      }
      if offset == 0 {
        transportProto := p.protocol;
      }
    }

    method IsComplete() returns (b: bool)
      ensures b == Complete(State())
    {
      return receivedEnd && receivedSize == totalSize;
    }

    method AllocatePdu() returns (pdu: Option<Payload>)
      ensures pdu == Allocated(State())
    {
      var buffer := [];
      var expected: nat := 0;
      var it := 0;
      ghost var whole := Joined(fragments, 0);
      assert fragments[0..] == fragments && (whole.Some? ==> [] + whole.value == whole.value);
      while it < |fragments|
        invariant it <= |fragments| && whole == Before(buffer, Joined(fragments[it..], expected))
      {
        var f := fragments[it];
        if expected != f.offset {
          return None;
        }
        assert fragments[it..][1..] == fragments[it + 1..];
        BeforeBoth(buffer, f.bytes, Joined(fragments[it + 1..], (f.offset + |f.bytes|) % UINT16_RANGE));
        expected := (f.offset + |f.bytes|) % UINT16_RANGE;
        buffer := buffer + f.bytes;
        it := it + 1;
      }
      assert buffer + [] == buffer;
      return Some(Payload(transportProto, buffer));
    }
  }

  // ----- the reassembler -----

  datatype Key = Key(id: nat, low: nat, high: nat)

  /** The addresses of a key are sorted, so both directions share it. */
  function MakeKey(id: nat, addr1: nat, addr2: nat): Key
  {
    if addr1 < addr2 then Key(id, addr1, addr2) else Key(id, addr2, addr1)
  }

  function KeyOf(p: Packet): Key {
    MakeKey(p.id, p.src, p.dst)
  }

  datatype Status = NotFragmented | StillFragmented | Reassembled

  type Streams = map<Key, StreamState>

  /** The new streams, the answer and the packet as `process` leaves it. */
  datatype Outcome = Outcome(streams: Streams, status: Status, packet: Option<Packet>)

  function StreamAt(m: Streams, k: Key): StreamState {
    if k in m then m[k] else EMPTY
  }

  /** `process`; without an IP layer there is no packet. */
  function Processed(m: Streams, p: Option<Packet>): Outcome {
    if p.None? || p.value.inner.None? || !p.value.Fragmented?() then Outcome(m, NotFragmented, p)
    else
      var k := KeyOf(p.value);
      var st := Added(StreamAt(m, k), p.value);
      if !Complete(st) then Outcome(m[k := st], StillFragmented, p)
      else
        var pdu := Allocated(st);
        if pdu.None? then Outcome(m - {k}, StillFragmented, p)
        else Outcome(m - {k}, Reassembled, Some(p.value.(inner := pdu, offset := 0, more := false)))
  }

  lemma UpdateTwice(m: Streams, k: Key, first: StreamState, second: StreamState)
    ensures m[k := first][k := second] == m[k := second]
  {
  }

  lemma ProcessedFragment(m: Streams, p: Packet)
    requires p.inner.Some? && p.Fragmented?()
    ensures var k := KeyOf(p); var st := Added(StreamAt(m, k), p); var pdu := Allocated(st);
      Processed(m, Some(p)) ==
        if !Complete(st) then Outcome(m[k := st], StillFragmented, Some(p))
        else if pdu.None? then Outcome(m - {k}, StillFragmented, Some(p))
        else Outcome(m - {k}, Reassembled, Some(p.(inner := pdu, offset := 0, more := false)))
  {
  }

  class IPv4Reassembler {
    var streams: map<Key, IPv4Stream>

    constructor ()
      ensures Valid() && State() == map[]
    {
      streams := map[];
    }

    /** No stream is filed under two keys. */
    ghost predicate Valid()
      reads this
    {
      forall k, l | k in streams && l in streams && k != l :: streams[k] != streams[l]
    }

    ghost function State(): Streams
      reads this, streams.Values
    {
      map k | k in streams :: streams[k].State()
    }

    /** `streams_[key]`: the stream of a key, created if there is none. */
    method StreamFor(key: Key) returns (stream: IPv4Stream)
      requires Valid()
      modifies this
      ensures Valid() && key in streams && stream == streams[key]
      ensures fresh(streams.Values - old(streams.Values))
      ensures stream.State() == StreamAt(old(State()), key) && State() == old(State())[key := stream.State()]
    {
      if key !in streams {
        var created := new IPv4Stream();
        streams := streams[key := created];
        assert forall k | k in streams :: streams[k] == created || streams[k] in old(streams.Values);
      }
      stream := streams[key];
    }

    /** Adding a fragment to one stream leaves the others alone. */
    method Feed(stream: IPv4Stream, ghost key: Key, p: Packet)
      requires Valid() && p.inner.Some? && key in streams && stream == streams[key]
      modifies stream
      ensures Valid() && stream.State() == Added(old(stream.State()), p)
      ensures State() == old(State())[key := stream.State()]
    {
      stream.AddFragment(p);
    }

    method Erase(key: Key)
      requires Valid()
      modifies this
      ensures Valid() && State() == old(State()) - {key}
      ensures streams.Values <= old(streams.Values)
    {
      streams := streams - {key};
    }

    method Process(p: Option<Packet>) returns (status: Status, packet: Option<Packet>)
      requires Valid()
      modifies this, streams.Values
      ensures Valid() && fresh(streams.Values - old(streams.Values))
      ensures Outcome(State(), status, packet) == Processed(old(State()), p)
    {
      hide Added, Complete, Allocated, StreamAt, Valid, State, IPv4Stream.State, KeyOf;
      packet := p;
      if p.Some? && p.value.inner.Some? {
        var ip := p.value;
        if ip.Fragmented?() {
          var key := KeyOf(ip);
          ghost var m := State();
          var stream := StreamFor(key);
          assert stream in streams.Values;
          Feed(stream, key, ip);
          ghost var st := stream.State();
          assert State() == m[key := st] by { UpdateTwice(m, key, StreamAt(m, key), st); }
          assert p == Some(ip);
          ProcessedFragment(m, ip);
          var complete := stream.IsComplete();
          if complete {
            var pdu := stream.AllocatePdu();
            Erase(key);
            assert State() == m - {key} by { assert m[key := st] - {key} == m - {key}; }
            if pdu.None? {
              return StillFragmented, packet;
            }
            packet := Some(ip.(inner := pdu, offset := 0, more := false));
            return Reassembled, packet;
          } else {
            return StillFragmented, packet;
          }
        }
      }
      return NotFragmented, packet;
    }

    method ClearStreams()
      modifies this
      ensures Valid() && State() == map[]
    {
      streams := map[];
    }

    method RemoveStream(id: nat, addr1: nat, addr2: nat)
      requires Valid()
      modifies this
      ensures Valid() && State() == old(State()) - {MakeKey(id, addr1, addr2)}
    {
      Erase(MakeKey(id, addr1, addr2));
    }
  }
}
