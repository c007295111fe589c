/** The WebSocket opening handshake of WsServer.cpp: finding the key and answering it. */
module Handshake {
  import opened Bits
  import opened Transport
  import opened Base64

  const KEY_HEADER: bytes := Ascii("Sec-WebSocket-Key:")
  const CRLF: bytes := Ascii("\r\n")
  const SPACE: byte := 32
  const RESPONSE_HEAD: bytes :=
    Ascii("HTTP/1.1 101 Switching Protocols\r\n") +
    Ascii("Upgrade: websocket\r\n") +
    Ascii("Connection: Upgrade\r\n") +
    Ascii("Sec-WebSocket-Accept: ")

  predicate At(s: bytes, i: nat, pattern: bytes) {
    i + |pattern| <= |s| && s[i..i + |pattern|] == pattern
  }

  /** `s.find(pattern, from)`: the first occurrence. */
  function Find(s: bytes, pattern: bytes, from: nat): (r: Option<nat>)
    ensures r.Some? ==> from <= r.value && At(s, r.value, pattern)
                        && forall i: nat :: from <= i < r.value ==> !At(s, i, pattern)
    ensures r.None? ==> forall i: nat :: from <= i ==> !At(s, i, pattern)
    decreases |s| - from
  {
    if from > |s| then None
    else if At(s, from, pattern) then Some(from)
    else Find(s, pattern, from + 1)
  }

  function SkipSpaces(s: bytes, pos: nat): (r: nat)
    requires pos <= |s|
    ensures pos <= r <= |s| && (forall i :: pos <= i < r ==> s[i] == SPACE) && (r < |s| ==> s[r] != SPACE)
    decreases |s| - pos
  {
    if pos < |s| && s[pos] == SPACE then SkipSpaces(s, pos + 1) else pos
  }

  /** The key the server takes from a request. */
  function KeyOf(req: bytes): Option<bytes> {
    match Find(req, KEY_HEADER, 0)
    case None => None
    case Some(at) =>
      var pos := SkipSpaces(req, at + |KEY_HEADER|);
      match Find(req, CRLF, pos)
      case None => None
      case Some(end) => Some(req[pos..end])
  }

  function Response(accept: bytes): bytes {
    RESPONSE_HEAD + accept + CRLF + CRLF
  }

  method ExtractKey(req: bytes) returns (key: Option<bytes>)
    ensures key == KeyOf(req)
  {
    var found := Find(req, KEY_HEADER, 0);
    if found.None? { return None; }
    var pos := found.value;
    pos := pos + |KEY_HEADER|;
    ghost var first := pos;
    while pos < |req| && req[pos] == SPACE
      invariant first <= pos <= |req|
      invariant SkipSpaces(req, first) == SkipSpaces(req, pos)
    {
      pos := pos + 1;
    }
    var end := Find(req, CRLF, pos);
    if end.None? { return None; }
    key := Some(req[pos..end.value]);
  }

  /**
   * One read of the request; the upgrade is confirmed, with the accept value of the key found in it,
   * exactly when there is a key and the response goes out.
   */
  method AnswerHandshake(sock: Socket) returns (ok: bool, req: bytes)
    modifies sock`inbox, sock`outbox
    ensures |req| < 4096 && req + sock.inbox == old(sock.inbox)
    ensures ok ==> req != [] && KeyOf(req).Some?
                   && sock.outbox == old(sock.outbox)
                        + (Ascii("HTTP/1.1 101 Switching Protocols\r\n") + Ascii("Upgrade: websocket\r\n")
                           + Ascii("Connection: Upgrade\r\n") + Ascii("Sec-WebSocket-Accept: ")
                           + AcceptKey(KeyOf(req).value) + [13, 10, 13, 10])
    ensures KeyOf(req).None? ==> !ok && sock.outbox == old(sock.outbox)
    ensures sock.reliable && req != [] ==> (ok <==> KeyOf(req).Some?)
  {
    hide KeyOf, AcceptKey, Response;
    var n;
    n, req := sock.Read(4095);
    if n <= 0 {
      assert KeyOf([]).None? by { NoKeyInNothing(); }
      return false, req;
    }
    var key := ExtractKey(req);
    if key.None? { return false, req; }
    var accept := DeriveAcceptKey(key.value);
    var resp := Response(accept);
    n := sock.Send(resp);
    ok := n == |resp|;
    assert resp[..|resp|] == resp;
    assert |resp| > 0 by { ResponseLong(accept); }
    ResponseBytes(accept);
  }

  lemma NoKeyInNothing()
    ensures KeyOf([]).None?
  {
  }

  lemma ResponseLong(accept: bytes)
    ensures |Response(accept)| > 0
  {
  }

  /** The response, header by header, with the accept value in its place. */
  lemma ResponseBytes(accept: bytes)
    ensures Response(accept) == Ascii("HTTP/1.1 101 Switching Protocols\r\n") + Ascii("Upgrade: websocket\r\n")
                              + Ascii("Connection: Upgrade\r\n") + Ascii("Sec-WebSocket-Accept: ")
                              + accept + [13, 10, 13, 10]
  {
    CrlfIs();
    hide Ascii;
    var head := RESPONSE_HEAD + accept;
    assert head + [13, 10] + [13, 10] == head + [13, 10, 13, 10];
  }

  lemma FindIs(s: bytes, pattern: bytes, from: nat, i: nat)
    requires from <= i && At(s, i, pattern) && forall j: nat :: from <= j < i ==> !At(s, j, pattern)
    ensures Find(s, pattern, from) == Some(i)
  {
    hide At;
  }

  lemma SkipSpacesIs(s: bytes, from: nat, to: nat)
    requires from <= to < |s| && (forall i :: from <= i < to ==> s[i] == SPACE) && s[to] != SPACE
    ensures SkipSpaces(s, from) == to
  {
  }

  lemma CrlfIs()
    ensures CRLF == [13, 10]
  {
  }

  /** The value of the first Sec-WebSocket-Key header is found, leading spaces dropped. */
  lemma KeyFound(before: bytes, spaces: bytes, key: bytes, after: bytes)
    requires forall i: nat :: i < |before| ==>
               !At(before + Ascii("Sec-WebSocket-Key:") + spaces + key + [13, 10] + after, i,
                   Ascii("Sec-WebSocket-Key:"))
    requires forall i :: 0 <= i < |spaces| ==> spaces[i] == 32
    requires key != [] ==> key[0] != 32
    requires forall i: nat :: i < |key| ==> !At(key + [13, 10], i, [13, 10])
    ensures KeyOf(before + Ascii("Sec-WebSocket-Key:") + spaces + key + [13, 10] + after) == Some(key)
  {
    CrlfIs();
    hide Find, At, SkipSpaces;
    var req := before + KEY_HEADER + spaces + key + CRLF + after;
    var head := before + KEY_HEADER;
    var tail := key + CRLF + after;
    var start, pos := |head|, |head| + |spaces|;
    assert req[..start] == head && req[start..pos] == spaces && req[pos..] == tail;
    HeaderFound(req, before);
    assert tail[0] == (key + CRLF)[0] && req[pos] == req[pos..][0];
    assert forall i :: start <= i < pos ==> req[i] == req[start..pos][i - start];
    SkipSpacesIs(req, start, pos);
    LineEndFound(req, pos, key, after);
    assert req[pos..pos + |key|] == tail[..|key|] == key;
  }

  lemma HeaderFound(req: bytes, before: bytes)
    requires before + KEY_HEADER <= req
    requires forall i: nat :: i < |before| ==> !At(req, i, KEY_HEADER)
    ensures Find(req, KEY_HEADER, 0) == Some(|before|)
  {
    assert req[|before|..|before| + |KEY_HEADER|] == KEY_HEADER;
    FindIs(req, KEY_HEADER, 0, |before|);
  }

  /** A slice of a part is a slice of the whole. */
  lemma SliceOfPart(s: bytes, pos: nat, part: bytes, k: nat, n: nat)
    requires pos + |part| <= |s| && s[pos..][..|part|] == part && k + n <= |part|
    ensures s[pos + k..pos + k + n] == part[k..k + n]
  {
    assert forall i :: 0 <= i < |part| ==> s[pos + i] == s[pos..][..|part|][i] == part[i];
  }

  lemma CrlfAt(s: bytes, i: nat)
    requires i + 2 <= |s| && s[i..i + 2] == CRLF && |CRLF| == 2
    ensures At(s, i, CRLF)
  {
  }

  lemma NoLineEnd(s: bytes, pos: nat, line: bytes, k: nat)
    requires pos + |line| <= |s| && s[pos..][..|line|] == line && k + 2 <= |line| && |CRLF| == 2
    requires !At(line, k, CRLF)
    ensures !At(s, pos + k, CRLF)
  {
    SliceOfPart(s, pos, line, k, 2);
  }

  lemma LineEndFound(req: bytes, pos: nat, key: bytes, after: bytes)
    requires pos <= |req| && req[pos..] == key + CRLF + after
    requires forall i: nat :: i < |key| ==> !At(key + CRLF, i, CRLF)
    ensures Find(req, CRLF, pos) == Some(pos + |key|)
  {
    var line, end := key + CRLF, pos + |key|;
    CrlfIs();
    assert req[pos..][..|line|] == line;
    hide *;
    SliceOfPart(req, pos, line, |key|, 2);
    assert line[|key|..|key| + 2] == CRLF;
    CrlfAt(req, end);
    forall i: nat | pos <= i < end
      ensures !At(req, i, CRLF)
    {
      NoLineEnd(req, pos, line, i - pos);
    }
    FindIs(req, CRLF, pos, end);
  }
}
