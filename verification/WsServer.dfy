/** The client table of WsServer.cpp: accepting, sending, broadcasting and dropping clients. */
module WsServer {
  import opened Bits
  import opened WsFrames

  class WsServer {
    /** The ids in `_clients`. */
    var clients: set<int>
    var nextId: int
    /** The bytes each client's socket has taken so far. */
    var received: map<int, bytes>
    /** The frames written to each client's socket, while all of them went out whole. */
    ghost var written: map<int, seq<Frame>>
    /** The clients to whose socket a write came short. */
    ghost var broken: set<int>

    function Received(c: int): bytes
      reads this
    {
      if c in received then received[c] else []
    }

    ghost function Written(c: int): seq<Frame>
      reads this
    {
      if c in written then written[c] else []
    }

    /** The texts sent to client `c`. */
    ghost function Sent(c: int): seq<bytes>
      reads this
    {
      TextsOf(Written(c))
    }

    /** The clients that are connected and whose every write went through. */
    ghost function Up(): set<int>
      reads this
    {
      clients - broken
    }

    ghost predicate Valid()
      reads this
    {
      && (forall c :: c in clients || c in received || c in written || c in broken ==> c < nextId)
      && forall c :: c !in broken ==> IsStream(Received(c), Written(c))
    }

    constructor ()
      ensures Valid() && clients == {} && received == map[] && broken == {}
    {
      clients, nextId, received, written, broken := {}, 0, map[], map[], {};
      new;
      EmptyStream();
    }

    /** One turn of acceptLoop: ids are never used twice. */
    method Accept() returns (id: int)
      requires Valid()
      modifies this`clients, this`nextId
      ensures Valid() && id == old(nextId) && nextId == id + 1
      ensures clients == old(clients) + {id} && id !in old(clients) && Sent(id) == [] && id !in broken
    {
      id := nextId;
      nextId := nextId + 1;
      clients := clients + {id};
    }

    /** The client thread takes its id out of the table. */
    method Erase(id: int)
      requires Valid()
      modifies this`clients
      ensures Valid() && clients == old(clients) - {id}
    {
      clients := clients - {id};
    }

    /** Writes a frame to the socket of client `id`: all of it, or a part and the stream is broken off. */
    method WriteTo(id: int, frame: bytes, ghost f: Frame) returns (k: nat)
      requires Valid() && id < nextId && Readable(f) && frame == EncodeFrame(f)
      modifies this`received, this`written, this`broken
      ensures Valid()
      ensures k <= |frame| && Received(id) == old(Received(id)) + frame[..k]
      ensures broken == if k == |frame| then old(broken) else old(broken) + {id}
      ensures id !in broken ==> Received(id) == old(Received(id)) + frame && Sent(id) == old(Sent(id)) + TextOf(f)
      ensures forall c :: c != id ==> Received(c) == old(Received(c)) && Sent(c) == old(Sent(c))
    {
      hide IsStream, EncodeFrame, TextsOf;
      k :| 0 <= k <= |frame|;
      received := received[id := Received(id) + frame[..k]];
      if k == |frame| {
        assert frame[..k] == frame;
        if id !in broken {
          StreamAppend(old(Received(id)), Written(id), f);
        }
        written := written[id := Written(id) + [f]];
      } else {
        broken := broken + {id};
      }
    }

    /** `ok` is the result of writeFrame, which the source drops. */
    method Send(id: int, msg: WireText) returns (ok: bool)
      requires Valid()
      modifies this`received, this`written, this`broken
      ensures Valid()
      ensures id !in clients ==> received == old(received) && written == old(written) && broken == old(broken)
      ensures id in clients ==> broken == if ok then old(broken) else old(broken) + {id}
      ensures id in clients ==> exists k ::
                0 <= k <= |FrameOf(msg)| && Received(id) == old(Received(id)) + FrameOf(msg)[..k]
      ensures id in Up() ==> Received(id) == old(Received(id)) + FrameOf(msg) && Sent(id) == old(Sent(id)) + [msg]
      ensures forall c :: c != id ==> Received(c) == old(Received(c)) && Sent(c) == old(Sent(c))
    {
      hide IsStream, EncodeFrame, TextsOf;
      if id !in clients { return false; }
      var frame := BuildFrame(msg);
      var k := WriteTo(id, frame, TextFrame(msg));
      ok := k == |frame|;
      assert Received(id) == old(Received(id)) + FrameOf(msg)[..k];
    }

    /**
     * What other threads do to the table between two lock sections: clients come and go, and client threads
     * answer pings.
     */
    method Others()
      requires Valid()
      modifies this
      ensures Valid() && nextId >= old(nextId) && old(broken) <= broken
      ensures forall c :: c in clients ==> c in old(clients) || c >= old(nextId)
      ensures forall c :: c !in broken ==> Sent(c) == old(Sent(c))
    {
      hide IsStream, EncodeFrame, TextsOf;
      PongIsFrame();
      var n: nat := *;
      while n > 0
        invariant Valid() && nextId >= old(nextId) && old(broken) <= broken
        invariant forall c :: c in clients ==> c in old(clients) || c >= old(nextId)
        invariant forall c :: c !in broken ==> Sent(c) == old(Sent(c))
      {
        var id: int := *;
        if * {
          var accepted := Accept();
        } else if * {
          Erase(id);
        } else if id < nextId {
          var k := WriteTo(id, PONG_FRAME, PONG);
        }
        n := n - 1;
      }
    }

    /**
     * Every client in the table at the copy gets the text once, also if others come or go meanwhile; a socket
     * closed meanwhile breaks off.
     */
    method Broadcast(msg: WireText)
      requires Valid()
      modifies this
      ensures Valid() && nextId >= old(nextId) && old(broken) <= broken
      ensures forall c :: c in clients ==> c in old(clients) || c >= old(nextId)
      ensures forall c :: c !in broken ==> Sent(c) == old(Sent(c)) + if c in old(clients) then [msg] else []
    {
      hide IsStream, EncodeFrame, TextsOf;
      var socks := clients;
      while socks != {}
        invariant Valid() && nextId >= old(nextId) && socks <= old(clients) && old(broken) <= broken
        invariant forall c :: c in clients ==> c in old(clients) || c >= old(nextId)
        invariant forall c :: c !in broken ==>
                    Sent(c) == old(Sent(c)) + if c in old(clients) && c !in socks then [msg] else []
        decreases socks
      {
        SomeMember(socks);
        var s: int :| s in socks;
        Others();
        var frame := BuildFrame(msg);
        var k := WriteTo(s, frame, TextFrame(msg));
        socks := socks - {s};
      }
    }
  }

  /** The bytes of a stream are exactly these frames. */
  ghost predicate IsStream(bs: bytes, fs: seq<Frame>) {
    AllReadable(fs) && bs == EncodeFrames(fs)
  }

  lemma EmptyStream()
    ensures IsStream([], [])
  {
  }

  lemma StreamAppend(bs: bytes, fs: seq<Frame>, f: Frame)
    requires IsStream(bs, fs) && Readable(f)
    ensures IsStream(bs + EncodeFrame(f), fs + [f])
    ensures TextsOf(fs + [f]) == TextsOf(fs) + TextOf(f)
  {
    FramesAppend(fs, f);
  }

  /** A client no write to which came short reads exactly the texts sent to it. */
  lemma ReadBack(server: WsServer, c: int)
    requires server.Valid() && c !in server.broken
    ensures Texts(server.Received(c)) == server.Sent(c)
  {
    hide TextsOf, EncodeFrames, Texts;
    assert IsStream(server.Received(c), server.Written(c));
    TextsReadBack(server.Written(c));
  }
}
