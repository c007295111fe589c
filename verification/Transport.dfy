/** A connected byte stream: what recv, send, SSL_read and SSL_write may do with it. */
module Transport {
  import opened Bits

  class Socket {
    /** Bytes the peer has sent and this side has not read yet; the peer then closes. */
    var inbox: bytes
    /** Bytes accepted for the peer so far. */
    var outbox: bytes
    /** No call fails except for the end of the stream. */
    const reliable: bool

    /** One read of at most `max` bytes; a result below 1 is an error or the end of the stream. */
    method Read(max: int) returns (n: int, chunk: bytes)
      modifies this`inbox
      ensures n > 0 ==> n <= max && n <= |old(inbox)| && chunk == old(inbox)[..n] && inbox == old(inbox)[n..]
      ensures n <= 0 ==> chunk == [] && inbox == old(inbox)
      ensures reliable && max > 0 && old(inbox) != [] ==> n > 0
    {
      n, chunk := 0, [];
      if max > 0 && inbox != [] {
        n :| n <= max && n <= |inbox| && (reliable ==> n > 0);
        if n > 0 {
          chunk, inbox := inbox[..n], inbox[n..];
        }
      }
    }

    /** One blocking send: all of `data` when nothing fails. */
    method Send(data: bytes) returns (n: int)
      modifies this`outbox
      ensures n > 0 ==> n <= |data| && outbox == old(outbox) + data[..n]
      ensures n <= 0 ==> outbox == old(outbox)
      ensures reliable ==> n == |data|
    {
      n :| n <= |data| && (reliable ==> n == |data|);
      if n > 0 {
        outbox := outbox + data[..n];
      }
    }

    /** One write of at most `max` bytes of `data`; a result below 1 is an error. */
    method Write(data: bytes, max: int) returns (n: int)
      requires max <= |data|
      modifies this`outbox
      ensures n > 0 ==> n <= max && outbox == old(outbox) + data[..n]
      ensures n <= 0 ==> outbox == old(outbox)
      ensures reliable && max > 0 ==> n > 0
    {
      n := 0;
      if max > 0 {
        n :| n <= max && (reliable ==> n > 0);
        if n > 0 {
          outbox := outbox + data[..n];
        }
      }
    }
  }
}
