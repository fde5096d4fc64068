/** The TCP echo application on one connection: what was received is sent back, nothing lost or reordered. */
module Echo {

  const BSIZE: nat := 2048

  /** A connection, with everything it has ever handed out or taken.  How much a call moves is not known
      beforehand. */
  class Socket {
    var incoming: seq<char>
    var delivered: seq<char>
    var outgoing: seq<char>
    var shutDown: bool

    /** How often it has been read and written, what the last call answered, and how often it took nothing. */
    var readCalls: nat
    var lastRead: int
    var writeCalls: nat
    var lastWrite: int
    var refusals: nat

    constructor ()
      ensures incoming == delivered == outgoing == "" && !shutDown
      ensures readCalls == writeCalls == refusals == 0
    {
      incoming, delivered, outgoing, shutDown := "", "", "", false;
      readCalls, lastRead, writeCalls, lastWrite, refusals := 0, 0, 0, 0, 0;
    }

    /** `pico_socket_read`: up to `max` bytes into the buffer; a result that is not positive means none. */
    method Read(buf: array<char>, start: nat, max: nat) returns (r: int)
      requires start + max <= buf.Length
      modifies this`incoming, this`delivered, this`readCalls, this`lastRead, buf
      ensures r <= max && lastRead == r && readCalls == old(readCalls) + 1
      ensures r > 0 ==>
        && r <= |old(incoming)|
        && delivered == old(delivered) + old(incoming)[..r] && incoming == old(incoming)[r..]
        && buf[..] == old(buf[..start]) + old(incoming)[..r] + old(buf[start + r..])
      ensures r <= 0 ==> delivered == old(delivered) && incoming == old(incoming) && buf[..] == old(buf[..])
    {
      var limit := if max < |incoming| then max else |incoming|;
      r := *;
      r := if r > limit then limit else r;
      forall i | 0 <= i < r {
        buf[start + i] := incoming[i];
      }
      assert r > 0 ==> buf[start..start + r] == incoming[..r];
      if r > 0 {
        delivered, incoming := delivered + incoming[..r], incoming[r..];
      }
      readCalls, lastRead := readCalls + 1, r;
    }

    /** `pico_socket_write`: takes up to `count` bytes of the buffer. */
    method Write(buf: array<char>, start: nat, count: nat) returns (w: int)
      requires start + count <= buf.Length
      modifies this`outgoing, this`writeCalls, this`lastWrite, this`refusals
      ensures w <= count && lastWrite == w && writeCalls == old(writeCalls) + 1
      ensures refusals == old(refusals) + if w > 0 then 0 else 1
      ensures outgoing == old(outgoing) + if w > 0 then buf[start..start + w] else []
    {
      w := *;
      w := if w > count then count else w;
      if w > 0 {
        outgoing := outgoing + buf[start..start + w];
      } else {
        refusals := refusals + 1;
      }
      writeCalls, lastWrite := writeCalls + 1, w;
    }
  }

  datatype Event = Event(rd: bool, conn: bool, fin: bool, err: bool, close: bool, wr: bool)

  /** What becomes of the process: it goes on, exits after two seconds or exits at once. */
  datatype Fate = GoesOn | DeferredExit | Exits

  lemma SentPrefix(sent: seq<char>, pending: seq<char>, w: nat)
    requires w <= |pending|
    ensures sent + pending == sent + pending[..w] + pending[w..]
  {
  }

  lemma TakenFront(had: seq<char>, coming: seq<char>, r: nat)
    requires r <= |coming|
    ensures had + coming[..r] + coming[r..] == had + coming && had <= had + coming[..r]
  {
  }

  class EchoServer {
    const recvbuf: array<char>
    var read: int
    var pos: nat
    var len: nat
    var flagRd: bool
    var flagWr: bool

    constructor ()
      ensures fresh(recvbuf) && Valid() && Pending() == "" && recvbuf.Length == 2048
    {
      recvbuf := new char[BSIZE];
      read, pos, len, flagRd, flagWr := 0, 0, 0, false, false;
    }

    predicate Valid()
      reads this`pos, this`len
    {
      recvbuf.Length == BSIZE && len <= BSIZE && (pos < len || pos == len == 0)
    }

    /** The bytes received and not yet sent. */
    function Pending(): seq<char>
      requires Valid()
      reads this`pos, this`len, recvbuf
    {
      recvbuf[pos..len]
    }

    /** Nothing is lost, duplicated or reordered. */
    predicate Conserves(s: Socket)
      requires Valid()
      reads this`pos, this`len, recvbuf, s`delivered, s`outgoing
    {
      s.delivered == s.outgoing + Pending()
    }

    /** The buffer was read to its end, or the socket has been asked and had nothing more. */
    ghost predicate Drained(s: Socket, before: nat)
      reads s`readCalls, s`lastRead
    {
      s.readCalls > before && s.lastRead <= 0
    }

    /** What was pending has been sent, or the socket has been asked and took nothing more. */
    ghost predicate Flushed(s: Socket, before: nat)
      requires Valid()
      reads this`pos, this`len, recvbuf, s`writeCalls, s`lastWrite
    {
      Pending() == "" || (s.writeCalls > before && s.lastWrite <= 0)
    }

    /** One read of that loop: what the socket has goes behind what is pending. */
    method ReadSome(s: Socket)
      requires Valid() && Conserves(s) && len < BSIZE
      modifies this`read, this`len, this`flagRd, recvbuf, s`incoming, s`delivered, s`readCalls, s`lastRead
      ensures Valid() && Conserves(s) && (flagRd <==> read <= 0)
      ensures s.readCalls == old(s.readCalls) + 1 && s.lastRead == read
      ensures old(s.delivered) <= s.delivered && s.delivered + s.incoming == old(s.delivered + s.incoming)
      ensures len == old(len) + if read > 0 then read else 0
      ensures |s.delivered| == |old(s.delivered)| + if read > 0 then read else 0
    {
      ghost var before, had, coming := Pending(), s.delivered, s.incoming;
      read := s.Read(recvbuf, len, BSIZE - len);
      if read > 0 {
        TakenFront(had, coming, read);
        len := len + read;
        flagRd := false;
        assert recvbuf[..][pos..len] == before + coming[..read];
        assert had + coming[..read] == s.outgoing + Pending();
      } else {
        flagRd := true;
        assert recvbuf[..][pos..len] == before;
      }
    }

    /** The loop that reads the available data, until the buffer is full or the socket has nothing more. */
    method ReadAll(s: Socket)
      requires Valid() && Conserves(s)
      modifies this, recvbuf, s`incoming, s`delivered, s`readCalls, s`lastRead
      ensures |s.delivered| - |old(s.delivered)| == BSIZE - old(len) || Drained(s, old(s.readCalls))
      ensures s.readCalls > old(s.readCalls) ==> (flagRd <==> s.lastRead <= 0)
      ensures s.readCalls == old(s.readCalls) ==> flagRd == old(flagRd)
      ensures Valid() && Conserves(s)
      ensures old(s.delivered) <= s.delivered && s.delivered + s.incoming == old(s.delivered + s.incoming)
      ensures flagWr == old(flagWr) && (len == BSIZE || flagRd)
    {
      hide Conserves;
      while len < BSIZE
        invariant Valid() && Conserves(s) && flagWr == old(flagWr)
        invariant |s.delivered| - |old(s.delivered)| == len - old(len) && s.readCalls >= old(s.readCalls)
        invariant if s.readCalls > old(s.readCalls) then !flagRd && s.lastRead > 0 else flagRd == old(flagRd)
        invariant old(s.delivered) <= s.delivered && s.delivered + s.incoming == old(s.delivered + s.incoming)
        decreases BSIZE - len
      {
        ReadSome(s);
        if read <= 0 {
          break;
        }
      }
    }

    /** One write of that loop. */
    method WriteSome(s: Socket) returns (w: int)
      requires Valid() && Conserves(s) && pos < len
      modifies this`pos, this`len, s`outgoing, s`writeCalls, s`lastWrite, s`refusals
      ensures Valid() && Conserves(s) && old(s.outgoing) <= s.outgoing
      ensures s.writeCalls == old(s.writeCalls) + 1 && s.lastWrite == w
      ensures s.refusals == old(s.refusals) + if w > 0 then 0 else 1
      ensures |s.outgoing| - |old(s.outgoing)| == if w > 0 then w else 0
      ensures if w > 0 then len - pos < old(len - pos) else pos == old(pos) && len == old(len)
    {
      ghost var before, sent := Pending(), s.outgoing;
      w := s.Write(recvbuf, pos, len - pos);
      if w > 0 {
        SentPrefix(sent, before, w);
        assert recvbuf[pos..pos + w] == before[..w] && recvbuf[pos + w..len] == before[w..];
        pos := pos + w;
        if pos >= len {
          pos := 0;
          len := 0;
        }
      }
    }

    /** `send_resp`: writes until everything is sent or the socket takes no more; returns how much it took. */
    method SendResp(s: Socket) returns (ww: int)
      requires Valid() && Conserves(s)
      modifies this`pos, this`len, s`outgoing, s`writeCalls, s`lastWrite, s`refusals
      ensures Valid() && Conserves(s) && old(s.outgoing) <= s.outgoing
      ensures ww == |s.outgoing| - |old(s.outgoing)|
      ensures ww == 0 ==> pos == old(pos) && len == old(len)
      ensures Flushed(s, old(s.writeCalls)) && s.writeCalls >= old(s.writeCalls)
      ensures old(Pending()) != "" ==> s.writeCalls > old(s.writeCalls)
      ensures s.refusals >= old(s.refusals) && (s.refusals == old(s.refusals) ==> Pending() == "")
    {
      hide Conserves;
      ww := 0;
      if len > pos {
        var more := true;
        while more
          invariant Valid() && Conserves(s) && old(s.outgoing) <= s.outgoing
          invariant ww == |s.outgoing| - |old(s.outgoing)|
          invariant ww == 0 ==> pos == old(pos) && len == old(len)
          invariant more ==> pos < len
          invariant s.writeCalls >= old(s.writeCalls) && (s.writeCalls == old(s.writeCalls) ==> more)
          invariant more ==> s.refusals == old(s.refusals)
          invariant !more ==> pos >= len || s.lastWrite <= 0
          invariant !more ==> s.refusals == old(s.refusals) + if s.lastWrite > 0 then 0 else 1
          decreases len - pos, more
        {
          var w := WriteSome(s);
          if w > 0 {
            ww := ww + w;
          }
          more := w > 0 && pos < len;
        }
      }
    }

    lemma FlushedSince(s: Socket, before: nat, later: nat)
      requires Valid() && Flushed(s, later) && before <= later
      ensures Flushed(s, before)
    {
    }

    /** The first branch: data is available. */
    method OnReadable(backup: bool, s: Socket)
      requires Valid() && Conserves(s)
      modifies this, recvbuf, s`incoming, s`delivered, s`readCalls, s`lastRead, s`outgoing, s`writeCalls,
               s`lastWrite, s`refusals
      ensures Valid() && Conserves(s) && !flagWr
      ensures old(s.delivered) <= s.delivered && s.delivered + s.incoming == old(s.delivered + s.incoming)
      ensures old(s.outgoing) <= s.outgoing && (backup ==> s.outgoing == old(s.outgoing))
      ensures |s.delivered| - |old(s.delivered)| == BSIZE - old(len) || Drained(s, old(s.readCalls))
      ensures s.readCalls > old(s.readCalls) ==> (flagRd <==> s.lastRead <= 0)
      ensures s.writeCalls >= old(s.writeCalls) && s.refusals >= old(s.refusals)
      ensures !old(flagWr) ==> s.outgoing == old(s.outgoing)
      ensures !backup && old(flagWr) ==>
        Flushed(s, old(s.writeCalls)) && (s.refusals == old(s.refusals) ==> Pending() == "")
    {
      hide Valid, Conserves, Pending;
      ReadAll(s);
      if flagWr {
        flagWr := false;
        if !backup {
          var _ := SendResp(s);
        }
      }
    }

    /** The last branch: the socket can be written. */
    method OnWritable(backup: bool, s: Socket)
      requires Valid() && Conserves(s)
      modifies this`read, this`pos, this`len, this`flagWr, s`outgoing, s`writeCalls, s`lastWrite, s`refusals
      ensures Valid() && Conserves(s) && (flagWr <==> read == 0)
      ensures old(s.outgoing) <= s.outgoing && (backup ==> s.outgoing == old(s.outgoing))
      ensures !backup ==> read == |s.outgoing| - |old(s.outgoing)|
      ensures s.refusals >= old(s.refusals)
      ensures !backup ==> Flushed(s, old(s.writeCalls)) && (s.refusals == old(s.refusals) ==> Pending() == "")
    {
      hide Valid, Conserves, Pending;
      if !backup {
        read := SendResp(s);
      }
      flagWr := read == 0;
    }

    /** `cb_tcpserver`; `backup` is the configuration at the time of the call.  A backup receives and never
        sends; the main server reads all there is and room for, and sends until the buffer is empty or the socket
        takes no more. */
    method CbTcpServer(ev: Event, backup: bool, s: Socket) returns (fate: Fate)
      requires Valid() && Conserves(s)
      modifies this, recvbuf, s
      ensures Valid() && Conserves(s)
      ensures old(s.delivered) <= s.delivered && s.delivered + s.incoming == old(s.delivered + s.incoming)
      ensures old(s.outgoing) <= s.outgoing && (backup ==> s.outgoing == old(s.outgoing))
      ensures fate == if ev.err then Exits else if ev.fin then DeferredExit else GoesOn
      ensures ev.wr && !ev.err ==> (flagWr <==> read == 0)
      ensures !ev.rd && ev.wr && !ev.err && !backup ==> read == |s.outgoing| - |old(s.outgoing)|
      ensures !ev.rd ==> flagRd == old(flagRd) && s.delivered == old(s.delivered)
      ensures !ev.rd && (!ev.wr || ev.err) ==>
        pos == old(pos) && len == old(len) && read == old(read) && flagWr == old(flagWr)
      ensures s.shutDown <==> old(s.shutDown) || (ev.close && !ev.err && flagRd)
      ensures ev.rd ==> |s.delivered| - |old(s.delivered)| == BSIZE - old(len) || Drained(s, old(s.readCalls))
      ensures ev.rd && s.readCalls > old(s.readCalls) ==> (flagRd <==> s.lastRead <= 0)
      ensures ev.rd && (!ev.wr || ev.err) ==> !flagWr
      ensures !(ev.wr && !ev.err) && !(ev.rd && old(flagWr)) ==> s.outgoing == old(s.outgoing)
      ensures !backup && ((ev.wr && !ev.err) || (ev.rd && old(flagWr))) ==>
        Flushed(s, old(s.writeCalls)) && (s.refusals == old(s.refusals) ==> Pending() == "")
      ensures s.refusals >= old(s.refusals)
    {
      hide Valid, Conserves, Pending, Flushed;
      fate := GoesOn;
      if ev.rd {
        OnReadable(backup, s);
      }
      if ev.fin {
        fate := DeferredExit;
      }
      if ev.err {
        return Exits;
      }
      if ev.close {
        if flagRd {
          s.shutDown := true;
        }
      }
      if ev.wr {
        ghost var later := s.writeCalls;
        OnWritable(backup, s);
        if !backup { FlushedSince(s, old(s.writeCalls), later); }
      }
    }
  }

  // ----- whole runs -----

  /** One call: the data that has arrived before it, the event and whether the server is a backup then. */
  datatype Call = Call(arrived: seq<char>, event: Event, backup: bool)

  function Arrivals(calls: seq<Call>): seq<char> {
    if calls == [] then [] else Arrivals(calls[..|calls| - 1]) + calls[|calls| - 1].arrived
  }

  /** A server that is no backup is told that it can write. */
  predicate Answers(call: Call) {
    call.event.wr && !call.event.err && !call.backup
  }

  /** Any run of one connection, the switch from backup to main at any time included: what has been sent is
      exactly what was received up to the bytes still in the buffer, what was received is a part of what has
      arrived, and a server that has only been a backup has sent nothing.  If the socket takes something at every
      write, everything that was received has been sent after a call for writing. */
  method Serve(calls: seq<Call>) returns (server: EchoServer, s: Socket)
    ensures server.Valid() && s.delivered == s.outgoing + server.Pending()
    ensures s.delivered + s.incoming == Arrivals(calls)
    ensures (forall i | 0 <= i < |calls| :: calls[i].backup) ==> s.outgoing == ""
    ensures s.refusals == 0 && calls != [] && Answers(calls[|calls| - 1]) ==> s.outgoing == s.delivered
  {
    server := new EchoServer();
    s := new Socket();
    for i := 0 to |calls|
      invariant fresh(server) && fresh(server.recvbuf) && fresh(s)
      invariant server.Valid() && server.Conserves(s)
      invariant s.delivered + s.incoming == Arrivals(calls[..i])
      invariant (forall k | 0 <= k < i :: calls[k].backup) ==> s.outgoing == ""
      invariant i > 0 && s.refusals == 0 && Answers(calls[i - 1]) ==> server.Pending() == ""
    {
      assert calls[..i + 1][..i] == calls[..i];
      s.incoming := s.incoming + calls[i].arrived;
      var fate := server.CbTcpServer(calls[i].event, calls[i].backup, s);
    }
    assert calls[..|calls|] == calls;
  }
}
