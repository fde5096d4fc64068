/** Capturing 802.1X four-way handshakes, flow by flow. */
module HandshakeCapture {
  import opened Numbers
  import opened Outcomes

  /** An EAPOL key frame: the flags that classify it and everything else it holds. */
  datatype Eapol = Eapol(keyT: bool, keyAck: bool, keyMic: bool, install: bool, secure: bool, content: seq<char>)

  /** The addresses of a data frame, compared as numbers. */
  datatype Dot11 = Dot11(src: nat, dst: nat)

  /** A packet and the layers that are found in it. */
  datatype Packet = Packet(eapol: Option<Eapol>, dot11: Option<Dot11>)

  /** A pair of addresses, regardless of the direction. */
  datatype Flow = Flow(first: nat, second: nat)

  function FlowOf(d: Dot11): Flow {
    Flow(Min(d.src, d.dst), Max(d.src, d.dst))
  }

  datatype Handshake = Handshake(client: nat, supplicant: nat, messages: seq<Eapol>)

  /** The four messages of a handshake. */
  datatype Kind = First | Second | Third | Fourth

  /** Which message a frame is, if any. */
  function KindOf(e: Eapol): Option<Kind> {
    if !e.keyT then None
    else if e.keyAck && !e.keyMic && !e.install then Some(First)
    else if !e.keyAck && e.keyMic && !e.install then Some(if e.secure then Fourth else Second)
    else if e.keyAck && e.keyMic && e.install then Some(Third)
    else None
  }

  type Flows = map<Flow, seq<Eapol>>

  // ----- the state machine of one flow -----

  /** `do_insert`: the new entry, if the flow has one, and whether the message was added. */
  function Inserted(entry: Option<seq<Eapol>>, e: Eapol, expected: nat): (Option<seq<Eapol>>, bool) {
    if entry.None? then (None, false)
    else if |entry.value| == expected then (Some(entry.value + [e]), true)
    else if |entry.value| == expected + 1 then (entry, false)
    else (Some([]), false)
  }

  /** One classified message: the new entry of its flow and the completed record, if there is one. */
  function Advanced(entry: Option<seq<Eapol>>, k: Kind, e: Eapol): (Option<seq<Eapol>>, Option<seq<Eapol>>) {
    match k
    case First => (Some([e]), None)
    case Second => (Inserted(entry, e, 1).0, None)
    case Third => (Inserted(entry, e, 2).0, None)
    case Fourth =>
      var (entry', added) := Inserted(entry, e, 3);
      if added then (None, entry') else (entry', None)
  }

  function EntryAt(m: Flows, f: Flow): Option<seq<Eapol>> {
    if f in m then Some(m[f]) else None
  }

  function WithEntry(m: Flows, f: Flow, entry: Option<seq<Eapol>>): Flows {
    if entry.Some? then m[f := entry.value] else m - {f}
  }

  /** A packet that counts: its flow, the message and its kind. */
  datatype Message = Message(flow: Flow, kind: Kind, frame: Eapol)

  function Classified(p: Packet): Option<Message> {
    if p.eapol.None? || p.dot11.None? || KindOf(p.eapol.value).None? then None
    else Some(Message(FlowOf(p.dot11.value), KindOf(p.eapol.value).value, p.eapol.value))
  }

  /** `process_packet`: the new flows and the completed handshake, if there is one. */
  function Processed(m: Flows, p: Packet): (Flows, Option<Handshake>) {
    var c := Classified(p);
    if c.None? then (m, None)
    else
      var (flow, kind, frame) := (c.value.flow, c.value.kind, c.value.frame);
      var (entry, record) := Advanced(EntryAt(m, flow), kind, frame);
      (WithEntry(m, flow, entry),
       if record.None? then None else Some(Handshake(flow.first, flow.second, record.value)))
  }

  class RSNHandshakeCapturer {
    var handshakes: map<Flow, seq<Eapol>>
    var completed: seq<Handshake>

    constructor ()
      ensures handshakes == map[] && completed == []
    {
      handshakes, completed := map[], [];
    }

    method ProcessPacket(p: Packet) returns (done: bool)
      modifies this
      ensures var (flows, report) := Processed(old(handshakes), p);
        && handshakes == flows
        && done == report.Some?
        && completed == old(completed) + if report.Some? then [report.value] else []
    {
      if p.eapol.None? || p.dot11.None? {
        return false;
      }
      var eapol := p.eapol.value;
      var addresses := Flow(Min(p.dot11.value.src, p.dot11.value.dst), Max(p.dot11.value.src, p.dot11.value.dst));
      if eapol.keyT && eapol.keyAck && !eapol.keyMic && !eapol.install {
        handshakes := handshakes[addresses := [eapol]];
      } else if eapol.keyT && !eapol.keyAck && eapol.keyMic && !eapol.install {
        if !eapol.secure {
          var _ := DoInsert(addresses, eapol, 1);
        } else {
          var added := DoInsert(addresses, eapol, 3);
          if added {
            completed := completed + [Handshake(addresses.first, addresses.second, handshakes[addresses])];
            handshakes := handshakes - {addresses};
            return true;
          }
        }
      } else if eapol.keyT && eapol.keyAck && eapol.keyMic && eapol.install {
        var _ := DoInsert(addresses, eapol, 2);
      }
      return false;
    }

    method DoInsert(key: Flow, eapol: Eapol, expected: nat) returns (added: bool)
      modifies this`handshakes
      ensures var (entry, a) := Inserted(EntryAt(old(handshakes), key), eapol, expected);
        handshakes == WithEntry(old(handshakes), key, entry) && added == a
    {
      if key in handshakes {
        if |handshakes[key]| != expected {
          if |handshakes[key]| != expected + 1 {
            handshakes := handshakes[key := []];
          }
        } else {
          handshakes := handshakes[key := handshakes[key] + [eapol]];
          return true;
        }
      }
      return false;
    }

    method ClearHandshakes()
      modifies this`completed
      ensures completed == []
    {
      completed := [];
    }
  }

  // ----- histories -----

  /** The two addresses, in one order or the other. */
  predicate Connects(d: Dot11, a: nat, b: nat) {
    (d.src == a && d.dst == b) || (d.src == b && d.dst == a)
  }

  /** Two frames share a flow exactly if their addresses agree in one order or the other; the flow names the smaller
      address first. */
  lemma FlowIsShared(d: Dot11, a: nat, b: nat)
    ensures FlowOf(d) == FlowOf(Dot11(a, b)) <==> Connects(d, a, b)
    ensures FlowOf(d).first <= FlowOf(d).second && Connects(d, FlowOf(d).first, FlowOf(d).second)
  {
  }

  /** The four patterns of the key information flags; every other frame is none of the four messages. */
  lemma KindByFlags(e: Eapol)
    ensures KindOf(e) == Some(First) <==> e.keyT && e.keyAck && !e.keyMic && !e.install
    ensures KindOf(e) == Some(Second) <==> e.keyT && !e.keyAck && e.keyMic && !e.install && !e.secure
    ensures KindOf(e) == Some(Third) <==> e.keyT && e.keyAck && e.keyMic && e.install
    ensures KindOf(e) == Some(Fourth) <==> e.keyT && !e.keyAck && e.keyMic && !e.install && e.secure
  {
  }

  /** The messages between two addresses, in order of arrival. */
  function History(ps: seq<Packet>, a: nat, b: nat): (h: seq<Message>) {
    if ps == [] then []
    else
      var before, p := History(ps[..|ps| - 1], a, b), ps[|ps| - 1];
      if p.eapol.Some? && p.dot11.Some? && KindOf(p.eapol.value).Some? && Connects(p.dot11.value, a, b) then
        before + [Message(FlowOf(p.dot11.value), KindOf(p.eapol.value).value, p.eapol.value)]
      else before
  }

  /** The flows after some packets. */
  function RunFlows(ps: seq<Packet>): Flows {
    if ps == [] then map[] else Processed(RunFlows(ps[..|ps| - 1]), ps[|ps| - 1]).0
  }

  /** The entry of a flow after its messages. */
  function EntryAfter(h: seq<Message>): Option<seq<Eapol>> {
    if h == [] then None
    else Advanced(EntryAfter(h[..|h| - 1]), h[|h| - 1].kind, h[|h| - 1].frame).0
  }

  /** What is kept for two addresses depends on the messages between them only. */
  lemma {:induction false} FlowsAreIndependent(ps: seq<Packet>, a: nat, b: nat)
    ensures EntryAt(RunFlows(ps), FlowOf(Dot11(a, b))) == EntryAfter(History(ps, a, b))
    decreases |ps|
  {
    hide Advanced, KindOf, FlowOf, Connects;
    if ps != [] {
      var p := ps[|ps| - 1];
      FlowsAreIndependent(ps[..|ps| - 1], a, b);
      var h := History(ps[..|ps| - 1], a, b);
      var c := Classified(p);
      if c.Some? {
        FlowIsShared(p.dot11.value, a, b);
        assert (h + [c.value])[..|h|] == h;
      }
    }
  }

  // ----- the language of complete handshakes -----

  predicate AllOf(h: seq<Message>, kind: Kind, lo: nat, hi: nat)
    requires hi <= |h|
  {
    forall x | lo <= x < hi :: h[x].kind == kind
  }

  /** The history ends in a first message at `i`. */
  predicate EndsFirst(h: seq<Message>, i: nat) {
    i + 1 == |h| && h[i].kind == First
  }

  /** The history ends in a first message at `i` and one or more second ones. */
  predicate EndsSecond(h: seq<Message>, i: nat) {
    i + 1 < |h| && h[i].kind == First && AllOf(h, Second, i + 1, |h|)
  }

  /** The history ends in a first message at `i`, second ones and one or more third ones from `j` on. */
  predicate EndsThird(h: seq<Message>, i: nat, j: nat) {
    i + 1 < j < |h| && h[i].kind == First && AllOf(h, Second, i + 1, j) && AllOf(h, Third, j, |h|)
  }

  /** The history ends in 1 2+ 3+ 4; the positions are those of the first message and the first third one. */
  predicate EndsComplete(h: seq<Message>, i: nat, j: nat) {
    h != [] && h[|h| - 1].kind == Fourth && EndsThird(h[..|h| - 1], i, j)
  }

  /** Which of these endings a history has. */
  datatype Ending = Nothing | One(i: nat) | Two(i: nat) | Three(i: nat, j: nat)

  function EndingOf(h: seq<Message>): Ending {
    if h == [] then Nothing
    else
      var n := |h| - 1;
      match (h[n].kind, EndingOf(h[..n]))
      case (First, _) => One(n)
      case (Second, One(i)) => Two(i)
      case (Second, Two(i)) => Two(i)
      case (Third, Two(i)) => Three(i, n)
      case (Third, Three(i, j)) => Three(i, j)
      case _ => Nothing
  }

  /** How one more message changes the end of a history. */
  lemma EndsExtended(h: seq<Message>, i: nat, j: nat)
    requires h != []
    ensures var n := |h| - 1; var g, kind := h[..n], h[n].kind;
      && (EndsFirst(h, i) <==> i == n && kind == First)
      && (EndsSecond(h, i) <==> kind == Second && (EndsFirst(g, i) || EndsSecond(g, i)))
      && (EndsThird(h, i, j) <==> kind == Third && (EndsThird(g, i, j) || (EndsSecond(g, i) && j == n)))
  {
    var g := h[..|h| - 1];
    assert forall x | 0 <= x < |g| :: g[x] == h[x];
    if EndsSecond(h, i) { assert h[|g|].kind == Second; }
    if EndsThird(h, i, j) { assert h[|g|].kind == Third; }
  }

  /** The endings are those of the regular language. */
  lemma {:induction false} EndingIsExact(h: seq<Message>, i: nat, j: nat)
    ensures EndingOf(h) == One(i) <==> EndsFirst(h, i)
    ensures EndingOf(h) == Two(i) <==> EndsSecond(h, i)
    ensures EndingOf(h) == Three(i, j) <==> EndsThird(h, i, j)
    decreases |h|
  {
    if h != [] {
      hide EndsFirst, EndsSecond, EndsThird;
      EndsExtended(h, i, j);
      EndingIsExact(h[..|h| - 1], i, j);
    }
  }

  /** The frames that belong to an ending. */
  function FramesOf(h: seq<Message>, e: Ending): seq<Eapol>
    requires match e case Nothing => true case One(i) => i < |h| case Two(i) => i + 1 < |h|
      case Three(i, j) => i + 1 < |h| && j < |h|
  {
    match e
    case Nothing => []
    case One(i) => [h[i].frame]
    case Two(i) => [h[i].frame, h[i + 1].frame]
    case Three(i, j) => [h[i].frame, h[i + 1].frame, h[j].frame]
  }

  lemma {:induction false} EndingIsInside(h: seq<Message>)
    ensures match EndingOf(h) case Nothing => true case One(i) => i + 1 == |h| case Two(i) => i + 1 < |h|
      case Three(i, j) => i + 1 < j < |h|
    decreases |h|
  {
    if h != [] { EndingIsInside(h[..|h| - 1]); }
  }

  /** The entry of a flow holds exactly the frames of the ending of its history; an entry without frames
      counts as none. */
  lemma {:induction false} EntryHoldsEnding(h: seq<Message>)
    ensures match EndingOf(h) case Nothing => true case One(i) => i < |h| case Two(i) => i + 1 < |h|
      case Three(i, j) => i + 1 < |h| && j < |h|
    ensures var entry := EntryAfter(h);
      FramesOf(h, EndingOf(h)) == if entry.None? then [] else entry.value
    decreases |h|
  {
    EndingIsInside(h);
    if h != [] {
      var g, m := h[..|h| - 1], h[|h| - 1];
      EndingIsInside(g);
      EntryHoldsEnding(g);
      assert forall x | 0 <= x < |g| :: g[x] == h[x];
    }
  }

  /** The history ends in 1 2+ 3+ 4, and these are the frames of the first message, the first second one, the
      first third one and the fourth one. */
  ghost predicate CompleteRecord(h: seq<Message>, frames: seq<Eapol>) {
    exists i: nat, j: nat ::
      EndsComplete(h, i, j) && frames == [h[i].frame, h[i + 1].frame, h[j].frame, h[|h| - 1].frame]
  }

  lemma RecordIsComplete(h: seq<Message>, g: seq<Message>)
    requires h != [] && g == h[..|h| - 1]
    ensures var record := Advanced(EntryAfter(g), h[|h| - 1].kind, h[|h| - 1].frame).1;
      forall frames :: record == Some(frames) <==> CompleteRecord(h, frames)
  {
    var m := h[|h| - 1];
    var record := Advanced(EntryAfter(g), m.kind, m.frame).1;
    EntryHoldsEnding(g);
    EndingIsInside(g);
    CompletedExactly(EntryAfter(g), g, m);
    CompleteExactly(h, g);
    hide Advanced, EndsComplete, EntryAfter, EndingOf;
    if record.Some? {
      var (i, j) := (EndingOf(g).i, EndingOf(g).j);
      assert EndsComplete(h, i, j);
      assert record.value == [h[i].frame, h[i + 1].frame, h[j].frame, m.frame];
    }
  }

  /** Every report, for whole runs: `process_packet` reports a handshake exactly when the messages of the
      packet's two addresses end in 1 2+ 3+ 4, and the record is the latest first message followed by the first
      second message, the first third message and the fourth one.  Messages between others have no influence. */
  lemma ReportedExactly(ps: seq<Packet>, p: Packet, r: Handshake)
    ensures Processed(RunFlows(ps), p).1 == Some(r) <==>
      && p.eapol.Some? && p.dot11.Some? && KindOf(p.eapol.value).Some?
      && r.client <= r.supplicant && Connects(p.dot11.value, r.client, r.supplicant)
      && CompleteRecord(History(ps + [p], p.dot11.value.src, p.dot11.value.dst), r.messages)
  {
    hide KindOf, CompleteRecord, Advanced, FlowOf;
    var c := Classified(p);
    if c.Some? {
      var (a, b) := (p.dot11.value.src, p.dot11.value.dst);
      var g := History(ps, a, b);
      assert (ps + [p])[..|ps|] == ps;
      var h := History(ps + [p], a, b);
      assert h == g + [c.value] && h[..|h| - 1] == g;
      assert p.dot11.value == Dot11(a, b);
      FlowIsShared(p.dot11.value, r.client, r.supplicant);
      SmallerFirst(r.client, r.supplicant);
      FlowsAreIndependent(ps, a, b);
      RecordIsComplete(h, g);
    }
  }

  lemma SmallerFirst(a: nat, b: nat)
    ensures a <= b ==> FlowOf(Dot11(a, b)) == Flow(a, b)
  {
  }

  lemma CompleteExactly(h: seq<Message>, g: seq<Message>)
    requires h != [] && g == h[..|h| - 1]
    ensures forall i: nat, j: nat ::
      EndsComplete(h, i, j) <==> h[|h| - 1].kind == Fourth && EndingOf(g) == Three(i, j)
  {
    forall i: nat, j: nat
      ensures EndsComplete(h, i, j) <==> h[|h| - 1].kind == Fourth && EndingOf(g) == Three(i, j)
    {
      EndingIsExact(g, i, j);
    }
  }

  /** A record is completed by a fourth message when the entry holds three frames. */
  lemma CompletedExactly(entry: Option<seq<Eapol>>, g: seq<Message>, m: Message)
    requires match EndingOf(g) case Nothing => true case One(i) => i < |g| case Two(i) => i + 1 < |g|
      case Three(i, j) => i + 1 < |g| && j < |g|
    requires FramesOf(g, EndingOf(g)) == if entry.None? then [] else entry.value
    ensures var record := Advanced(entry, m.kind, m.frame).1;
      record == if m.kind == Fourth && EndingOf(g).Three? then Some(FramesOf(g, EndingOf(g)) + [m.frame]) else None
  {
  }
}
