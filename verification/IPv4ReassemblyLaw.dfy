/** What reassembly guarantees: for arbitrary fragments, and for the fragments of one datagram. */
module IPv4ReassemblyLaw {
  import opened IPv4Reassembly
  import opened Numbers
  import opened Outcomes

  // ----- lists of fragments -----

  predicate OffsetsIncrease(fs: seq<Fragment>) {
    forall i, j | 0 <= i < j < |fs| :: fs[i].offset < fs[j].offset
  }

  predicate InRange(fs: seq<Fragment>) {
    forall i | 0 <= i < |fs| :: fs[i].offset < UINT16_RANGE
  }

  function SizeOf(fs: seq<Fragment>): nat {
    if fs == [] then 0 else |fs[0].bytes| + SizeOf(fs[1..])
  }

  function Concat(fs: seq<Fragment>): (bytes: seq<byte>)
    ensures |bytes| == SizeOf(fs)
  {
    if fs == [] then [] else fs[0].bytes + Concat(fs[1..])
  }

  /** Every fragment starts where the one before it ends: no gap and no overlap. */
  predicate Tiles(fs: seq<Fragment>, from: nat) {
    fs == [] || (fs[0].offset == from && Tiles(fs[1..], from + |fs[0].bytes|))
  }

  lemma {:induction false} SizeOfAppend(a: seq<Fragment>, b: seq<Fragment>)
    ensures SizeOf(a + b) == SizeOf(a) + SizeOf(b)
  {
    if a == [] {
      assert a + b == b;
    } else {
      SizeOfAppend(a[1..], b);
      assert (a + b)[1..] == a[1..] + b;
    }
  }

  /** Fragments that tile are joined; the 16-bit offset does no harm. */
  lemma {:induction false} TilesAreJoined(fs: seq<Fragment>, from: nat)
    requires Tiles(fs, from) && InRange(fs)
    ensures Joined(fs, from % UINT16_RANGE) == Some(Concat(fs))
  {
    if fs != [] {
      TilesAreJoined(fs[1..], from + |fs[0].bytes|);
    }
  }

  /** Only fragments that tile are joined: with fragments shorter than 65536 bytes the wrap of the offset
      cannot hide a gap, because it leads back before the last fragment. */
  lemma {:induction false} JoinedTiles(fs: seq<Fragment>, from: nat, last: nat)
    requires OffsetsIncrease(fs) && InRange(fs) && (forall i | 0 <= i < |fs| :: |fs[i].bytes| < UINT16_RANGE)
    requires
      from < UINT16_RANGE || (fs != [] ==> last < fs[0].offset && last < UINT16_RANGE && from < last + UINT16_RANGE)
    requires Joined(fs, from % UINT16_RANGE).Some?
    ensures Tiles(fs, from)
  {
    if fs != [] {
      assert from < UINT16_RANGE;
      JoinedTiles(fs[1..], fs[0].offset + |fs[0].bytes|, fs[0].offset);
    }
  }

  // ----- what a stream has kept -----

  predicate Sound(ps: seq<Packet>) {
    forall i | 0 <= i < |ps| :: ps[i].Valid() && ps[i].inner.Some? && |ps[i].inner.value.bytes| < UINT16_RANGE
  }

  /** The stream that has been given these packets. */
  function AddedAll(ps: seq<Packet>): StreamState
    requires forall i | 0 <= i < |ps| :: ps[i].inner.Some?
  {
    if ps == [] then EMPTY else Added(AddedAll(ps[..|ps| - 1]), ps[|ps| - 1])
  }

  function FragmentOf(p: Packet): Fragment
    requires p.inner.Some?
  {
    Fragment(ExtractOffset(p), p.inner.value.bytes)
  }

  /** The first packet with its offset is kept, later ones are dropped. */
  predicate Kept(ps: seq<Packet>, i: nat) {
    i < |ps| && forall j | 0 <= j < i :: ps[j].offset != ps[i].offset
  }

  /** The last packet without the MF flag that was kept. */
  predicate LastEnd(ps: seq<Packet>, i: nat) {
    Kept(ps, i) && !ps[i].more && forall j | i < j < |ps| :: Kept(ps, j) ==> ps[j].more
  }

  lemma {:induction false} PositionSplits(fs: seq<Fragment>, offset: nat)
    requires OffsetsIncrease(fs)
    ensures var i := Position(fs, offset);
      && (forall k | 0 <= k < i :: fs[k].offset < offset)
      && (forall k | i <= k < |fs| :: offset <= fs[k].offset)
  {
    if fs != [] && fs[0].offset < offset {
      PositionSplits(fs[1..], offset);
      var i := Position(fs[1..], offset);
      forall k | 0 <= k < |fs| ensures if k < i + 1 then fs[k].offset < offset else offset <= fs[k].offset {
        if k > 0 { assert fs[k] == fs[1..][k - 1]; }
      }
    }
  }

  /** Whether the offset of a packet is taken already. */
  predicate Taken(fs: seq<Fragment>, offset: nat) {
    exists i :: 0 <= i < |fs| && fs[i].offset == offset
  }

  function Inserted(fs: seq<Fragment>, i: nat, f: Fragment): seq<Fragment>
    requires i <= |fs|
  {
    fs[..i] + [f] + fs[i..]
  }

  /** A packet with a taken offset changes nothing. */
  lemma TakenIsDropped(st: StreamState, p: Packet)
    requires p.inner.Some? && OffsetsIncrease(st.fragments) && Taken(st.fragments, ExtractOffset(p))
    ensures Added(st, p) == st
  {
    PositionSplits(st.fragments, ExtractOffset(p));
  }

  /** A packet with a new offset has its fragment put in its place. */
  lemma NewIsInserted(st: StreamState, p: Packet)
    requires p.inner.Some? && OffsetsIncrease(st.fragments) && !Taken(st.fragments, ExtractOffset(p))
    ensures var offset, bytes := ExtractOffset(p), p.inner.value.bytes; var i := Position(st.fragments, offset);
      && OffsetsIncrease(Inserted(st.fragments, i, FragmentOf(p)))
      && Added(st, p) == StreamState(Inserted(st.fragments, i, FragmentOf(p)), st.receivedEnd || !p.more,
                                     if offset == 0 then p.protocol else st.proto, st.receivedSize + |bytes|,
                                     if p.more then st.totalSize else offset + |bytes|)
  {
    PositionSplits(st.fragments, ExtractOffset(p));
    InsertedSorted(st.fragments, Position(st.fragments, ExtractOffset(p)), FragmentOf(p));
  }

  lemma InsertedSorted(fs: seq<Fragment>, i: nat, f: Fragment)
    requires OffsetsIncrease(fs) && i <= |fs| && !Taken(fs, f.offset)
    requires (forall k | 0 <= k < i :: fs[k].offset < f.offset) && forall k | i <= k < |fs| :: f.offset <= fs[k].offset
    ensures OffsetsIncrease(Inserted(fs, i, f))
  {
    var gs := Inserted(fs, i, f);
    forall k | 0 <= k < |gs| ensures gs[k] == if k < i then fs[k] else if k == i then f else fs[k - 1] {}
    assert forall k | i <= k < |fs| :: f.offset < fs[k].offset;
  }

  lemma InsertedAt(fs: seq<Fragment>, i: nat, f: Fragment)
    requires i <= |fs|
    ensures var gs := Inserted(fs, i, f);
      && (forall g :: g in gs <==> g in fs || g == f)
      && SizeOf(gs) == SizeOf(fs) + |f.bytes|
  {
    var gs := Inserted(fs, i, f);
    assert fs == fs[..i] + fs[i..];
    SizeOfAppend(fs[..i], fs[i..]);
    SizeOfAppend(fs[..i] + [f], fs[i..]);
    SizeOfAppend(fs[..i], [f]);
    assert [f][1..] == [];
    forall g ensures g in gs <==> g in fs || g == f {
      if g in fs {
        assert g in fs[..i] || g in fs[i..];
      }
    }
  }

  /** What holds of a stream that has been given the packets `ps`. */
  ghost predicate Summary(ps: seq<Packet>, st: StreamState)
    requires Sound(ps)
  {
    && OffsetsIncrease(st.fragments)
    && (forall f :: f in st.fragments <==> exists i: nat :: Kept(ps, i) && f == FragmentOf(ps[i]))
    && st.receivedSize == SizeOf(st.fragments)
    && (st.receivedEnd <==> exists i: nat :: LastEnd(ps, i))
    && (forall i: nat :: LastEnd(ps, i) ==> st.totalSize == ExtractOffset(ps[i]) + |ps[i].inner.value.bytes|)
    && (forall i: nat :: Kept(ps, i) && ps[i].offset == 0 ==> st.proto == ps[i].protocol)
  }

  lemma KeptExtended(ps: seq<Packet>, p: Packet, i: nat)
    ensures i < |ps| ==> (Kept(ps + [p], i) <==> Kept(ps, i))
    ensures Kept(ps + [p], |ps|) <==> forall j | 0 <= j < |ps| :: ps[j].offset != p.offset
  {
    assert i < |ps| ==> forall j | 0 <= j <= i :: (ps + [p])[j] == ps[j];
    assert forall j | 0 <= j < |ps| :: (ps + [p])[j] == ps[j];
  }

  /** An offset is taken exactly if a packet with it has come before. */
  lemma {:induction false} FirstWithOffset(ps: seq<Packet>, j: nat) returns (i: nat)
    requires j < |ps|
    ensures i <= j && Kept(ps, i) && ps[i].offset == ps[j].offset
    decreases j
  {
    if k :| 0 <= k < j && ps[k].offset == ps[j].offset {
      i := FirstWithOffset(ps, k);
    } else {
      i := j;
    }
  }

  lemma TakenMeansSeen(ps: seq<Packet>, st: StreamState, p: Packet)
    requires Sound(ps) && Summary(ps, st)
    ensures Taken(st.fragments, ExtractOffset(p)) <==> exists j :: 0 <= j < |ps| && ps[j].offset == p.offset
  {
    hide OffsetsIncrease;
    if k :| 0 <= k < |st.fragments| && st.fragments[k].offset == ExtractOffset(p) {
      assert st.fragments[k] in st.fragments;
      var i: nat :| Kept(ps, i) && st.fragments[k] == FragmentOf(ps[i]);
      assert ps[i].offset == p.offset;
    }
    if j :| 0 <= j < |ps| && ps[j].offset == p.offset {
      var i := FirstWithOffset(ps, j);
      assert FragmentOf(ps[i]) in st.fragments;
    }
  }

  lemma DroppedExtended(ps: seq<Packet>, st: StreamState, p: Packet)
    requires Sound(ps + [p]) && Sound(ps) && Summary(ps, st) && Taken(st.fragments, ExtractOffset(p))
    ensures Summary(ps + [p], st)
  {
    hide OffsetsIncrease, Taken;
    var qs := ps + [p];
    TakenMeansSeen(ps, st, p);
    forall i: nat ensures Kept(qs, i) <==> Kept(ps, i) { KeptExtended(ps, p, i); }
    forall i: nat ensures LastEnd(qs, i) <==> LastEnd(ps, i) {}
  }

  /** The fragments after a new one has been inserted. */
  lemma FragmentsExtended(ps: seq<Packet>, fs: seq<Fragment>, k: nat, p: Packet)
    requires Sound(ps + [p]) && Sound(ps) && p.inner.Some? && k <= |fs|
    requires forall j | 0 <= j < |ps| :: ps[j].offset != p.offset
    requires forall f :: f in fs <==> exists i: nat :: Kept(ps, i) && f == FragmentOf(ps[i])
    ensures var qs := ps + [p];
      forall f :: f in Inserted(fs, k, FragmentOf(p)) <==> exists i: nat :: Kept(qs, i) && f == FragmentOf(qs[i])
  {
    var qs := ps + [p];
    InsertedAt(fs, k, FragmentOf(p));
    forall i: nat ensures i < |ps| ==> (Kept(qs, i) <==> Kept(ps, i)) { KeptExtended(ps, p, i); }
    KeptExtended(ps, p, |ps|);
    hide Inserted, Kept;
    forall f ensures f in Inserted(fs, k, FragmentOf(p)) <==> exists i: nat :: Kept(qs, i) && f == FragmentOf(qs[i]) {
      if f == FragmentOf(p) {
        assert Kept(qs, |ps|) && f == FragmentOf(qs[|ps|]);
      }
      if f in fs {
        var i: nat :| Kept(ps, i) && f == FragmentOf(ps[i]);
        assert Kept(qs, i) && f == FragmentOf(qs[i]);
      }
      if i: nat :| Kept(qs, i) && f == FragmentOf(qs[i]) {
        if i < |ps| { assert Kept(ps, i) && f == FragmentOf(ps[i]); }
      }
    }
  }

  /** A new packet without the MF flag becomes the end; one with it leaves the end as it was. */
  lemma EndExtended(ps: seq<Packet>, p: Packet)
    requires forall j | 0 <= j < |ps| :: ps[j].offset != p.offset
    ensures !p.more ==> LastEnd(ps + [p], |ps|) && forall i: nat | i != |ps| :: !LastEnd(ps + [p], i)
    ensures p.more ==> forall i: nat :: LastEnd(ps + [p], i) <==> LastEnd(ps, i)
  {
    var qs := ps + [p];
    forall i: nat ensures i < |ps| ==> (Kept(qs, i) <==> Kept(ps, i)) { KeptExtended(ps, p, i); }
    KeptExtended(ps, p, |ps|);
    hide Kept;
    forall i: nat ensures if p.more then LastEnd(qs, i) <==> LastEnd(ps, i) else (LastEnd(qs, i) <==> i == |ps|) {
      assert qs[|ps|] == p;
      KeptBound(qs, i);
      KeptBound(ps, i);
    }
  }

  lemma KeptBound(ps: seq<Packet>, i: nat)
    ensures Kept(ps, i) ==> i < |ps|
  {
  }

  lemma InsertedExtended(ps: seq<Packet>, st: StreamState, p: Packet)
    requires Sound(ps + [p]) && Sound(ps) && p.inner.Some? && Summary(ps, st) && !Taken(st.fragments, ExtractOffset(p))
    ensures Summary(ps + [p], Added(st, p))
  {
    TakenMeansSeen(ps, st, p);
    NewIsInserted(st, p);
    var i := Position(st.fragments, ExtractOffset(p));
    InsertedAt(st.fragments, i, FragmentOf(p));
    FragmentsExtended(ps, st.fragments, i, p);
    EndExtended(ps, p);
    hide OffsetsIncrease, Taken, Added, LastEnd, Inserted;
    var qs := ps + [p];
    forall k: nat ensures Kept(qs, k) && qs[k].offset == 0 ==> Added(st, p).proto == qs[k].protocol {
      KeptExtended(ps, p, k);
      KeptBound(qs, k);
    }
    assert !p.more ==> qs[|ps|] == p;
  }

  /** `add_fragment` keeps the summary, so it holds after any packets in any order. */
  lemma {:induction false} StreamSummary(ps: seq<Packet>)
    requires Sound(ps)
    ensures Summary(ps, AddedAll(ps))
    decreases |ps|
  {
    hide Summary, Taken;
    if ps == [] {
      EmptySummary();
    } else {
      var front, p := ps[..|ps| - 1], ps[|ps| - 1];
      StreamSummary(front);
      assert ps == front + [p];
      if Taken(AddedAll(front).fragments, ExtractOffset(p)) {
        SummaryIsSorted(front, AddedAll(front));
        TakenIsDropped(AddedAll(front), p);
        DroppedExtended(front, AddedAll(front), p);
      } else {
        InsertedExtended(front, AddedAll(front), p);
      }
    }
  }

  lemma EmptySummary()
    ensures Summary([], EMPTY)
  {
  }

  lemma SummaryIsSorted(ps: seq<Packet>, st: StreamState)
    requires Sound(ps) && Summary(ps, st)
    ensures OffsetsIncrease(st.fragments) && InRange(st.fragments)
    ensures forall i | 0 <= i < |st.fragments| :: |st.fragments[i].bytes| < UINT16_RANGE
  {
    hide OffsetsIncrease;
    forall i | 0 <= i < |st.fragments|
      ensures st.fragments[i].offset < UINT16_RANGE && |st.fragments[i].bytes| < UINT16_RANGE
    {
      assert st.fragments[i] in st.fragments;
      var k: nat :| Kept(ps, k) && st.fragments[i] == FragmentOf(ps[k]);
      KeptBound(ps, k);
    }
  }

  /** For arbitrary fragments shorter than 65536 bytes, overlapping ones included: a complete stream is
      allocated exactly if the kept fragments tile from 0, and then its bytes end where the last kept
      fragment without the MF flag ends. */
  lemma AllocatedTiles(ps: seq<Packet>)
    requires Sound(ps)
    ensures var st := AddedAll(ps);
      && (Complete(st) ==> (Allocated(st).Some? <==> Tiles(st.fragments, 0)))
      && (Complete(st) && Allocated(st).Some? ==>
            && Allocated(st).value.bytes == Concat(st.fragments)
            && (forall i: nat :: Kept(ps, i) && ps[i].offset == 0 ==> Allocated(st).value.kind == ps[i].protocol)
            && exists i: nat :: LastEnd(ps, i)
                 && |Concat(st.fragments)| == ExtractOffset(ps[i]) + |ps[i].inner.value.bytes|)
  {
    hide AddedAll;
    var st := AddedAll(ps);
    StreamSummary(ps);
    SummaryIsSorted(ps, st);
    hide Joined, Tiles, OffsetsIncrease, InRange;
    if Tiles(st.fragments, 0) {
      TilesAreJoined(st.fragments, 0);
    }
    if Joined(st.fragments, 0).Some? {
      JoinedTiles(st.fragments, 0, 0);
      TilesAreJoined(st.fragments, 0);
    }
  }

  // ----- streams of a reassembler -----

  /** The streams after some packets. */
  function RunStreams(m: Streams, ps: seq<Option<Packet>>): Streams {
    if ps == [] then m else Processed(RunStreams(m, ps[..|ps| - 1]), ps[|ps| - 1]).streams
  }

  /** Packets of one datagram: the same identifier, and the same two hosts in either direction. */
  predicate Between(p: Packet, id: nat, a: nat, b: nat) {
    p.id == id && ((p.src == a && p.dst == b) || (p.src == b && p.dst == a))
  }

  /** Two packets share a stream exactly if identifier and hosts agree. */
  lemma StreamIsShared(p: Packet, q: Packet, id: nat, a: nat, b: nat)
    ensures KeyOf(p) == KeyOf(q) <==> Between(p, q.id, q.src, q.dst)
    ensures KeyOf(p) == MakeKey(id, a, b) <==> Between(p, id, a, b)
  {
  }

  /** The packet is a fragment of this datagram. */
  predicate Touches(p: Option<Packet>, id: nat, a: nat, b: nat) {
    && p.Some? && p.value.inner.Some?
    && (p.value.more || p.value.offset > 0)
    && Between(p.value, id, a, b)
  }

  /** Exactly the packets without payload, or without MF flag and offset, are no fragments, and nothing happens to
      them. */
  lemma NotFragmentedExactly(m: Streams, p: Option<Packet>)
    ensures var o := Processed(m, p);
      && (o.status == NotFragmented <==>
            p.None? || p.value.inner.None? || (!p.value.more && p.value.offset == 0))
      && (o.status == NotFragmented ==> o.streams == m && o.packet == p)
  {
    hide Added, Complete, Allocated;
  }

  /** A packet changes no stream but that of its own identifier and hosts. */
  lemma OtherStreamsUntouched(m: Streams, p: Option<Packet>, id: nat, a: nat, b: nat)
    requires !Touches(p, id, a, b)
    ensures var m', k := Processed(m, p).streams, MakeKey(id, a, b);
      (k in m' <==> k in m) && StreamAt(m', k) == StreamAt(m, k)
  {
    hide Added, Complete, Allocated, MakeKey;
    if p.Some? { StreamIsShared(p.value, p.value, id, a, b); }
  }

  /** The fragments of an identifier and two hosts since their stream was last erased. */
  function Pending(ps: seq<Option<Packet>>, id: nat, a: nat, b: nat): (qs: seq<Packet>)
    ensures forall i | 0 <= i < |qs| :: qs[i].inner.Some?
  {
    if ps == [] then []
    else
      var before, p := Pending(ps[..|ps| - 1], id, a, b), ps[|ps| - 1];
      if !Touches(p, id, a, b) then before
      else if Complete(AddedAll(before + [p.value])) then []
      else before + [p.value]
  }

  /** Every stream is what the pending fragments have made of it. */
  lemma {:induction false} StreamsArePending(ps: seq<Option<Packet>>, id: nat, a: nat, b: nat)
    ensures StreamAt(RunStreams(map[], ps), MakeKey(id, a, b)) == AddedAll(Pending(ps, id, a, b))
    decreases |ps|
  {
    hide Added, Complete, Allocated, Touches, MakeKey;
    if ps != [] {
      var front, p := ps[..|ps| - 1], ps[|ps| - 1];
      StreamsArePending(front, id, a, b);
      var m := RunStreams(map[], front);
      if !Touches(p, id, a, b) {
        OtherStreamsUntouched(m, p, id, a, b);
      } else {
        TouchingStep(m, p, id, a, b);
        var qs := Pending(front, id, a, b) + [p.value];
        assert qs[..|qs| - 1] == Pending(front, id, a, b);
      }
    }
  }

  /** What `process` does to a fragment. */
  lemma TouchingStep(m: Streams, p: Option<Packet>, id: nat, a: nat, b: nat)
    requires Touches(p, id, a, b)
    ensures p.Some? && p.value.inner.Some?
    ensures var k := MakeKey(id, a, b); var st := Added(StreamAt(m, k), p.value); var o := Processed(m, p);
      && StreamAt(o.streams, k) == (if Complete(st) then EMPTY else st)
      && (k in o.streams <==> !Complete(st))
      && (o.status == Reassembled <==> Complete(st) && Allocated(st).Some?)
      && (o.status == Reassembled ==> o.packet == Some(p.value.(inner := Allocated(st), offset := 0, more := false)))
      && (o.status != Reassembled ==> o.status == StillFragmented && o.packet == p)
  {
    hide Added, Complete, Allocated, MakeKey;
    assert p == Some(p.value);
    StreamIsShared(p.value, p.value, id, a, b);
    ProcessedFragment(m, p.value);
  }

  /** Whenever a reassembler answers that a datagram is reassembled, the fragments it has kept for that identifier and
      these hosts tile from 0 without gap or overlap, up to the end of the last kept fragment without the MF flag,
      and the packet carries their bytes.  Otherwise a packet is never changed. */
  lemma ReassembledTiles(ps: seq<Option<Packet>>, p: Option<Packet>)
    requires forall x | x in ps + [p] && x.Some? && x.value.inner.Some? ::
      x.value.Valid() && |x.value.inner.value.bytes| < UINT16_RANGE
    ensures var o := Processed(RunStreams(map[], ps), p);
      if o.status != Reassembled then o.packet == p
      else
        && p.Some? && p.value.inner.Some?
        && var qs := Pending(ps, p.value.id, p.value.src, p.value.dst) + [p.value];
           var fs := AddedAll(qs).fragments;
           && Tiles(fs, 0)
           && o.packet.Some? && o.packet.value.inner.Some? && o.packet.value.inner.value.bytes == Concat(fs)
           && (forall i: nat :: Kept(qs, i) && qs[i].offset == 0 ==> o.packet.value.inner.value.kind == qs[i].protocol)
           && exists i: nat :: LastEnd(qs, i) && |Concat(fs)| == ExtractOffset(qs[i]) + |qs[i].inner.value.bytes|
  {
    hide Allocated, Complete, Added, Tiles, LastEnd, RunStreams;
    var m := RunStreams(map[], ps);
    if p.Some? && Touches(p, p.value.id, p.value.src, p.value.dst) {
      var (id, a, b) := (p.value.id, p.value.src, p.value.dst);
      TouchingStep(m, p, id, a, b);
      StreamsArePending(ps, id, a, b);
      PendingIsSound(ps, id, a, b);
      var qs := Pending(ps, id, a, b) + [p.value];
      assert qs[..|qs| - 1] == Pending(ps, id, a, b);
      assert p in ps + [p];
      AllocatedTiles(qs);
    }
  }

  lemma {:induction false} PendingIsSound(ps: seq<Option<Packet>>, id: nat, a: nat, b: nat)
    requires forall x | x in ps && x.Some? && x.value.inner.Some? ::
      x.value.Valid() && |x.value.inner.value.bytes| < UINT16_RANGE
    ensures Sound(Pending(ps, id, a, b))
    decreases |ps|
  {
    hide Complete, AddedAll;
    if ps != [] {
      PendingIsSound(ps[..|ps| - 1], id, a, b);
    }
  }

  // ----- the fragments of one datagram -----

  function Below(n: nat): (s: set<nat>)
    ensures forall i: nat :: i in s <==> i < n
  {
    if n == 0 then {} else Below(n - 1) + {n - 1}
  }

  /** A datagram cut into pieces, with the protocol field each fragment carries. */
  datatype Datagram = Datagram(id: nat, src: nat, dst: nat, pieces: seq<seq<byte>>, protocols: seq<byte>) {
    /** Where its stream is filed. */
    function Filed(): Key {
      MakeKey(id, src, dst)
    }

    /** Where a piece starts. */
    function Start(i: nat): nat
      requires i <= |pieces|
    {
      if i == 0 then 0 else Start(i - 1) + |pieces[i - 1]|
    }

    /** The bytes of the first `n` pieces. */
    function Bytes(n: nat): (b: seq<byte>)
      requires n <= |pieces|
      ensures |b| == Start(n)
    {
      if n == 0 then [] else Bytes(n - 1) + pieces[n - 1]
    }

    /** At least two pieces, none of them empty, all but the last a multiple of eight bytes long, and all
        offsets representable. */
    predicate Valid() {
      && |pieces| >= 2 && |protocols| == |pieces|
      && (forall i | 0 <= i < |pieces| :: pieces[i] != [])
      && (forall i | 0 <= i < |pieces| - 1 :: |pieces[i]| % 8 == 0)
      && Start(|pieces| - 1) < UINT16_RANGE
    }

    /** The packet is the fragment that carries the `i`-th piece. */
    predicate IsPiece(p: Packet, i: nat) {
      && i < |pieces| == |protocols|
      && Between(p, id, src, dst) && p.Valid()
      && p.offset * 8 == Start(i) && p.more == (i < |pieces| - 1)
      && p.inner.Some? && p.inner.value.bytes == pieces[i] && p.protocol == protocols[i]
    }

    /** The pieces of `arrived` from the `lo`-th up to the `hi`-th. */
    function Stored(arrived: set<nat>, lo: nat, hi: nat): seq<Fragment>
      requires hi <= |pieces|
    {
      if hi <= lo then []
      else Stored(arrived, lo, hi - 1) + if hi - 1 in arrived then [Fragment(Start(hi - 1), pieces[hi - 1])] else []
    }

    function All(): set<nat> {
      Below(|pieces|)
    }

    /** The stream when the pieces of `arrived` have arrived. */
    function StateOf(arrived: set<nat>): StreamState
      requires Valid()
    {
      var n := |pieces|;
      var fs := Stored(arrived, 0, n);
      StreamState(fs, n - 1 in arrived, if 0 in arrived then protocols[0] else 0xff, SizeOf(fs),
                  if n - 1 in arrived then Start(n) else 0)
    }
  }

  lemma {:induction false} StartGrows(d: Datagram, i: nat, j: nat)
    requires d.Valid() && i < j <= |d.pieces|
    ensures d.Start(i) < d.Start(j)
    decreases j
  {
    if i < j - 1 {
      StartGrows(d, i, j - 1);
    }
  }

  /** Every cut is representable: a piece can be sent as a fragment, in 8-byte blocks. */
  lemma {:induction false} StartIsAligned(d: Datagram, i: nat)
    requires d.Valid() && i < |d.pieces|
    ensures d.Start(i) % 8 == 0 && d.Start(i) / 8 < 0x2000
    decreases i
  {
    if i > 0 {
      StartIsAligned(d, i - 1);
    }
    if i < |d.pieces| - 1 {
      StartGrows(d, i, |d.pieces| - 1);
    }
  }

  lemma {:induction false} StoredSplit(d: Datagram, a: set<nat>, lo: nat, mid: nat, hi: nat)
    requires lo <= mid <= hi <= |d.pieces|
    ensures d.Stored(a, lo, hi) == d.Stored(a, lo, mid) + d.Stored(a, mid, hi)
    decreases hi
  {
    if mid < hi {
      StoredSplit(d, a, lo, mid, hi - 1);
    }
  }

  /** Offsets of stored pieces lie between the bounds. */
  lemma {:induction false} StoredBounds(d: Datagram, a: set<nat>, lo: nat, hi: nat)
    requires d.Valid() && lo <= hi <= |d.pieces|
    ensures forall f | f in d.Stored(a, lo, hi) :: d.Start(lo) <= f.offset < d.Start(hi)
    decreases hi
  {
    if lo < hi {
      StoredBounds(d, a, lo, hi - 1);
      StartGrows(d, lo, hi);
      StartGrows(d, hi - 1, hi);
      if lo < hi - 1 { StartGrows(d, lo, hi - 1); }
    }
  }

  lemma {:induction false} StoredAgrees(d: Datagram, a: set<nat>, b: set<nat>, lo: nat, hi: nat)
    requires hi <= |d.pieces| && forall i: nat | lo <= i < hi :: i in a <==> i in b
    ensures d.Stored(a, lo, hi) == d.Stored(b, lo, hi)
    decreases hi
  {
    if lo < hi {
      StoredAgrees(d, a, b, lo, hi - 1);
    }
  }

  lemma {:induction false} PositionAt(a: seq<Fragment>, b: seq<Fragment>, offset: nat)
    requires (forall f | f in a :: f.offset < offset) && (b == [] || offset <= b[0].offset)
    ensures Position(a + b, offset) == |a|
  {
    if a == [] {
      assert a + b == b;
    } else {
      assert a[0] in a && (a + b)[1..] == a[1..] + b;
      PositionAt(a[1..], b, offset);
    }
  }

  /** The stored pieces before, at and after the `i`-th. */
  lemma StoredAround(d: Datagram, a: set<nat>, i: nat)
    requires d.Valid() && i < |d.pieces|
    ensures var f := Fragment(d.Start(i), d.pieces[i]); var n := |d.pieces|;
      d.Stored(a, 0, n) == d.Stored(a, 0, i) + (if i in a then [f] else []) + d.Stored(a, i + 1, n)
  {
    StoredSplit(d, a, 0, i, |d.pieces|);
    StoredSplit(d, a, i, i + 1, |d.pieces|);
    assert d.Stored(a, i, i) == [];
  }

  /** A fragment between those with smaller and those with larger offsets. */
  lemma AddedBetween(st: StreamState, p: Packet, low: seq<Fragment>, high: seq<Fragment>)
    requires p.inner.Some? && (forall f | f in low :: f.offset < ExtractOffset(p))
    requires high != [] ==> ExtractOffset(p) < high[0].offset
    ensures st.fragments == low + [FragmentOf(p)] + high ==> Added(st, p) == st
    ensures st.fragments == low + high ==>
      Added(st, p) == StreamState(low + [FragmentOf(p)] + high, st.receivedEnd || !p.more,
                                  if ExtractOffset(p) == 0 then p.protocol else st.proto,
                                  st.receivedSize + |p.inner.value.bytes|,
                                  if p.more then st.totalSize else ExtractOffset(p) + |p.inner.value.bytes|)
  {
    var f := FragmentOf(p);
    assert low + [f] + high == low + ([f] + high);
    PositionAt(low, [f] + high, f.offset);
    PositionAt(low, high, f.offset);
    hide Position;
    assert (low + ([f] + high))[|low|] == f;
    assert (low + high)[..|low|] == low && (low + high)[|low|..] == high;
    assert high != [] ==> (low + high)[|low|] == high[0];
  }

  /** Adding a piece to the stream: it takes its place, or is dropped as a duplicate. */
  lemma PieceArrives(d: Datagram, a: set<nat>, i: nat, p: Packet)
    requires d.Valid() && d.IsPiece(p, i) && a <= d.All()
    ensures Added(d.StateOf(a), p) == d.StateOf(a + {i})
  {
    hide Added, Datagram.Stored;
    var n := |d.pieces|;
    var b := a + {i};
    var low, high, f := d.Stored(a, 0, i), d.Stored(a, i + 1, n), FragmentOf(p);
    StoredAround(d, a, i);
    StoredAround(d, b, i);
    StoredAgrees(d, a, b, 0, i);
    StoredAgrees(d, a, b, i + 1, n);
    PieceBetween(d, a, i);
    AddedBetween(d.StateOf(a), p, low, high);
    if i in a {
      assert b == a;
    } else {
      assert low + [] + high == low + high;
      NewPiece(low, high, f);
      ZeroIsFirst(d, i);
      LastPieceEnds(d);
      hide Datagram.Start, Datagram.Valid;
    }
  }

  lemma PieceBetween(d: Datagram, a: set<nat>, i: nat)
    requires d.Valid() && i < |d.pieces|
    ensures forall f | f in d.Stored(a, 0, i) :: f.offset < d.Start(i)
    ensures var high := d.Stored(a, i + 1, |d.pieces|); high != [] ==> d.Start(i) < high[0].offset
  {
    hide Datagram.Stored, Datagram.Start;
    StoredBounds(d, a, 0, i);
    StoredBounds(d, a, i + 1, |d.pieces|);
    StartGrows(d, i, i + 1);
  }

  lemma NewPiece(low: seq<Fragment>, high: seq<Fragment>, f: Fragment)
    ensures SizeOf(low + [f] + high) == SizeOf(low + high) + |f.bytes|
  {
    SizeOfAppend(low + [f], high);
    SizeOfAppend(low, [f]);
    SizeOfAppend(low, high);
    assert [f][1..] == [];
  }

  lemma ZeroIsFirst(d: Datagram, i: nat)
    requires d.Valid() && i < |d.pieces|
    ensures d.Start(i) == 0 <==> i == 0
  {
    if i > 0 { StartGrows(d, 0, i); }
  }

  lemma LastPieceEnds(d: Datagram)
    requires d.Valid()
    ensures d.Start(|d.pieces|) == d.Start(|d.pieces| - 1) + |d.pieces[|d.pieces| - 1]|
  {
  }

  /** The sizes add up to the whole only if nothing is missing, because no piece is empty. */
  lemma {:induction false} SizeTellsAll(d: Datagram, a: set<nat>, n: nat)
    requires d.Valid() && n <= |d.pieces|
    ensures SizeOf(d.Stored(a, 0, n)) <= d.Start(n)
    ensures SizeOf(d.Stored(a, 0, n)) == d.Start(n) <==> forall i: nat | i < n :: i in a
    decreases n
  {
    if n > 0 {
      SizeTellsAll(d, a, n - 1);
      var f := Fragment(d.Start(n - 1), d.pieces[n - 1]);
      SizeOfAppend(d.Stored(a, 0, n - 1), [f]);
      assert [f][1..] == [] && d.Stored(a, 0, n - 1) + [] == d.Stored(a, 0, n - 1);
    }
  }

  lemma CompleteExactly(d: Datagram, a: set<nat>)
    requires d.Valid() && a <= d.All()
    ensures Complete(d.StateOf(a)) <==> a == d.All()
  {
    SizeTellsAll(d, a, |d.pieces|);
    if forall i: nat | i < |d.pieces| :: i in a {
      assert a == d.All();
    }
  }

  lemma {:induction false} TilesAppend(fs: seq<Fragment>, from: nat, f: Fragment)
    requires Tiles(fs, from) && f.offset == from + SizeOf(fs)
    ensures Tiles(fs + [f], from) && Concat(fs + [f]) == Concat(fs) + f.bytes
  {
    if fs == [] {
      assert fs + [f] == [f] && Concat([]) == [] && [f][1..] == [];
    } else {
      TilesAppend(fs[1..], from + |fs[0].bytes|, f);
      assert (fs + [f])[1..] == fs[1..] + [f];
    }
  }

  /** All pieces together tile and hold the original bytes. */
  lemma {:induction false} AllPiecesTile(d: Datagram, n: nat)
    requires d.Valid() && n <= |d.pieces|
    ensures var fs := d.Stored(d.All(), 0, n); Tiles(fs, 0) && Concat(fs) == d.Bytes(n) && InRange(fs)
    decreases n
  {
    hide Tiles, Concat;
    if n == 0 {
      NothingTiles();
    } else {
      AllPiecesTile(d, n - 1);
      StartIsAligned(d, n - 1);
      TilesAppend(d.Stored(d.All(), 0, n - 1), 0, Fragment(d.Start(n - 1), d.pieces[n - 1]));
    }
  }

  lemma NothingTiles()
    ensures Tiles([], 0) && Concat([]) == []
  {
  }

  /** When everything has arrived, the original payload is allocated, with the first fragment's protocol. */
  lemma AllPiecesAllocated(d: Datagram)
    requires d.Valid()
    ensures Allocated(d.StateOf(d.All())) == Some(Payload(d.protocols[0], d.Bytes(|d.pieces|)))
  {
    hide Tiles, Joined, Concat;
    AllPiecesTile(d, |d.pieces|);
    TilesAreJoined(d.Stored(d.All(), 0, |d.pieces|), 0);
  }

  /** The stream of the datagram's key, or its absence, reflects the pieces that have arrived. */
  predicate Reflects(m: Streams, d: Datagram, a: set<nat>)
    requires d.Valid()
  {
    && a < d.All()
    && (d.Filed() in m <==> a != {})
    && StreamAt(m, d.Filed()) == d.StateOf(a)
  }

  lemma NothingArrived(d: Datagram)
    requires d.Valid()
    ensures d.StateOf({}) == EMPTY && {} < d.All()
  {
    SizeTellsAll(d, {}, |d.pieces|);
    StoredIsEmpty(d, |d.pieces|);
    assert 0 in d.All();
  }

  lemma {:induction false} StoredIsEmpty(d: Datagram, n: nat)
    requires n <= |d.pieces|
    ensures d.Stored({}, 0, n) == []
    decreases n
  {
    if n > 0 { StoredIsEmpty(d, n - 1); }
  }

  /** The packet that is handed back when the datagram is complete. */
  function Whole(d: Datagram, p: Packet): Packet
    requires d.Valid()
  {
    p.(inner := Some(Payload(d.protocols[0], d.Bytes(|d.pieces|))), offset := 0, more := false)
  }

  /** One piece: reassembled exactly when it is the last one missing. */
  lemma PieceProcessed(m: Streams, d: Datagram, a: set<nat>, i: nat, p: Packet)
    requires d.Valid() && Reflects(m, d, a) && d.IsPiece(p, i)
    ensures var o := Processed(m, Some(p));
      if a + {i} == d.All() then
        o.status == Reassembled && o.packet == Some(Whole(d, p)) && Reflects(o.streams, d, {})
      else
        o.status == StillFragmented && o.packet == Some(p) && Reflects(o.streams, d, a + {i})
  {
    ZeroIsFirst(d, i);
    assert Touches(Some(p), d.id, d.src, d.dst);
    PieceArrives(d, a, i, p);
    CompleteExactly(d, a + {i});
    AllPiecesAllocated(d);
    NothingArrived(d);
    hide Added, Complete, Allocated, Datagram.StateOf, Datagram.Valid;
    TouchingStep(m, Some(p), d.id, d.src, d.dst);
    assert i in a + {i};
  }

  // ----- whole runs -----

  /** A run in which `which[t]` says which piece of the datagram the `t`-th packet is, if any. */
  predicate Delivers(d: Datagram, ps: seq<Option<Packet>>, which: seq<Option<nat>>) {
    && |which| == |ps|
    && forall t | 0 <= t < |ps| ::
      if which[t].Some? then ps[t].Some? && d.IsPiece(ps[t].value, which[t].value)
      else !Touches(ps[t], d.id, d.src, d.dst)
  }

  /** The pieces that have arrived since the datagram was last complete. */
  function Arrived(d: Datagram, which: seq<Option<nat>>): set<nat> {
    if which == [] then {}
    else
      var a, w := Arrived(d, which[..|which| - 1]), which[|which| - 1];
      if w.None? then a else if a + {w.value} == d.All() then {} else a + {w.value}
  }

  lemma {:induction false} RunReflects(d: Datagram, m: Streams, ps: seq<Option<Packet>>, which: seq<Option<nat>>)
    requires d.Valid() && d.Filed() !in m && Delivers(d, ps, which)
    ensures Reflects(RunStreams(m, ps), d, Arrived(d, which))
    decreases |ps|
  {
    hide Processed, Reflects, Datagram.Valid, Datagram.IsPiece, Touches;
    if ps == [] {
      NothingReflected(d, m);
    } else {
      var n := |ps| - 1;
      RunReflects(d, m, ps[..n], which[..n]);
      var before := RunStreams(m, ps[..n]);
      if which[n].Some? {
        assert ps[n] == Some(ps[n].value);
        PieceProcessed(before, d, Arrived(d, which[..n]), which[n].value, ps[n].value);
      } else {
        ReflectsStill(before, d, Arrived(d, which[..n]), ps[n]);
      }
    }
  }

  lemma NothingReflected(d: Datagram, m: Streams)
    requires d.Valid() && d.Filed() !in m
    ensures Reflects(m, d, {})
  {
    NothingArrived(d);
  }

  lemma ReflectsStill(m: Streams, d: Datagram, a: set<nat>, p: Option<Packet>)
    requires d.Valid() && Reflects(m, d, a) && !Touches(p, d.id, d.src, d.dst)
    ensures Reflects(Processed(m, p).streams, d, a)
  {
    hide Datagram.StateOf;
    OtherStreamsUntouched(m, p, d.id, d.src, d.dst);
  }

  /** For every order, with any duplicates and any packets of other datagrams in between: the answer to a piece is
      that the datagram is reassembled exactly when it is the last one missing; the packet then carries the
      original payload with the protocol of the first fragment, and the stream is gone. */
  lemma EveryDelivery(d: Datagram, m: Streams, ps: seq<Option<Packet>>, which: seq<Option<nat>>, t: nat)
    requires d.Valid() && d.Filed() !in m && Delivers(d, ps, which) && t < |ps| && which[t].Some?
    ensures ps[t].Some?
    ensures var o := Processed(RunStreams(m, ps[..t]), ps[t]);
      if Arrived(d, which[..t]) + {which[t].value} == d.All() then
        o.status == Reassembled && o.packet == Some(Whole(d, ps[t].value)) && d.Filed() !in o.streams
      else
        o.status == StillFragmented && o.packet == ps[t]
  {
    hide Processed, Datagram.Valid, RunStreams, Arrived, Datagram.IsPiece, Touches;
    RunReflects(d, m, ps[..t], which[..t]);
    assert ps[t] == Some(ps[t].value);
    PieceProcessed(RunStreams(m, ps[..t]), d, Arrived(d, which[..t]), which[t].value, ps[t].value);
  }

  /** The pieces that have been seen at all. */
  function Seen(which: seq<Option<nat>>): set<nat> {
    if which == [] then {}
    else Seen(which[..|which| - 1]) + if which[|which| - 1].Some? then {which[|which| - 1].value} else {}
  }

  lemma {:induction false} ArrivedIsSeen(d: Datagram, which: seq<Option<nat>>)
    requires Seen(which) < d.All()
    ensures Arrived(d, which) == Seen(which)
    decreases |which|
  {
    if which != [] {
      ArrivedIsSeen(d, which[..|which| - 1]);
    }
  }

  /** As long as some piece has not been seen, a piece completes the datagram exactly if with it all of them
      have been seen. */
  lemma LastMissingPiece(d: Datagram, m: Streams, ps: seq<Option<Packet>>, which: seq<Option<nat>>, t: nat)
    requires d.Valid() && d.Filed() !in m && Delivers(d, ps, which) && t < |ps| && which[t].Some?
    requires Seen(which[..t]) < d.All()
    ensures Processed(RunStreams(m, ps[..t]), ps[t]).status ==
      if Seen(which[..t + 1]) == d.All() then Reassembled else StillFragmented
  {
    hide Processed, Datagram.Valid, RunStreams, Datagram.IsPiece, Touches;
    EveryDelivery(d, m, ps, which, t);
    ArrivedIsSeen(d, which[..t]);
    assert which[..t + 1][..t] == which[..t];
  }
}
