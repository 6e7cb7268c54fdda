// The resumable writer of examples/tcp/tcp-large-transfer.cc (lines 46-53, 81-86, 198-219).

module TcpWriter {

  const TOTAL_TX_BYTES: nat := 2000000
  const WRITE_SIZE: nat := 1040

  newtype byte = b: int | 0 <= b < 256

  // The byte the receiver expects at position k of the stream: 'a' to 'z', over and over.
  function Expected(k: nat): byte {
    (97 + k % 26) as byte
  }

  // The stream spells the alphabet, over and over.
  lemma ExpectedIsAlphabet(k: nat)
    ensures Expected(k) as int as char == "abcdefghijklmnopqrstuvwxyz"[k % 26]
  {
    assert forall i: nat :: i < 26 ==> (97 + i) as char == "abcdefghijklmnopqrstuvwxyz"[i];
  }

  // What the application sees of the socket. Buffer space and the fate of a send are up to it.
  class Socket {
    var txAvailable: nat
    var accepted: seq<byte>
    var failures: nat
    var closedAt: seq<nat>

    constructor ()
      ensures accepted == [] && closedAt == []
    {
      txAvailable, accepted, failures, closedAt := 0, [], 0, [];
    }

    // Fails, or takes at least one byte of a nonempty slice.
    method Send(data: array<byte>, offset: nat, n: nat) returns (amountSent: int)
      requires n > 0 && offset + n <= data.Length
      modifies this`txAvailable, this`accepted, this`failures
      ensures amountSent <= n && amountSent != 0
      ensures failures == old(failures) + if amountSent < 0 then 1 else 0
      ensures accepted == if amountSent < 0 then old(accepted) else old(accepted) + data[offset..offset + amountSent]
    {
      amountSent :| amountSent != 0 && amountSent <= n;
      if amountSent > 0 {
        accepted := accepted + data[offset..offset + amountSent];
      } else {
        failures := failures + 1;
      }
      var space: nat :| true;
      txAvailable := space;
    }

    method Close()
      modifies this`closedAt
      ensures closedAt == old(closedAt) + [|accepted|]
    {
      closedAt := closedAt + [|accepted|];
    }
  }

  function Min(a: nat, b: nat): (r: nat)
    ensures r <= a && r <= b && (r == a || r == b)
  {
    if a <= b then a else b
  }

  lemma ModShift(a: nat, q: nat)
    ensures (a + 26 * q) % 26 == a % 26
  {
  }

  // The buffer holds whole alphabets, so an offset into it is in phase with the stream.
  lemma SamePhase(sent: nat, k: nat)
    requires sent % WRITE_SIZE + k < WRITE_SIZE
    ensures Expected(sent % WRITE_SIZE + k) == Expected(sent + k)
  {
    assert WRITE_SIZE == 26 * 40;
    var q := sent / WRITE_SIZE;
    assert sent + k == (sent % WRITE_SIZE + k) + 26 * (40 * q);
    ModShift(sent % WRITE_SIZE + k, 40 * q);
  }

  class Writer {
    const data: array<byte>
    const socket: Socket
    var currentTxBytes: nat

    // The stream so far is an uninterrupted prefix of the expected one; it was closed only when complete.
    ghost predicate Valid()
      reads this, data, socket
    {
      && data.Length == WRITE_SIZE
      && (forall i :: 0 <= i < data.Length ==> data[i] == Expected(i))
      && |socket.accepted| == currentTxBytes <= TOTAL_TX_BYTES
      && (forall k :: 0 <= k < |socket.accepted| ==> socket.accepted[k] == Expected(k))
      && (forall i :: 0 <= i < |socket.closedAt| ==> socket.closedAt[i] == TOTAL_TX_BYTES)
      && (socket.closedAt != [] ==> currentTxBytes == TOTAL_TX_BYTES)
    }

    constructor ()
      ensures Valid() && currentTxBytes == 0 && fresh(socket) && fresh(data)
    {
      data := new byte[WRITE_SIZE];
      socket := new Socket();
      currentTxBytes := 0;
      new;
      for i := 0 to WRITE_SIZE
        invariant forall j :: 0 <= j < i ==> data[j] == Expected(j)
        invariant |socket.accepted| == 0 && socket.closedAt == [] && currentTxBytes == 0
      {
        data[i] := (97 + i % 26) as byte;
      }
    }

    // The send callback; it may be called any number of times. It gives up only when the socket has no
    // room or a send has just failed, and it closes the socket whenever the stream is complete.
    method WriteUntilBufferFull()
      requires Valid()
      modifies this`currentTxBytes, socket
      ensures Valid() && old(socket.accepted) <= socket.accepted
      ensures currentTxBytes == TOTAL_TX_BYTES ==> socket.closedAt == old(socket.closedAt) + [TOTAL_TX_BYTES]
      ensures currentTxBytes < TOTAL_TX_BYTES ==>
                && socket.closedAt == old(socket.closedAt)
                && (socket.txAvailable == 0 || socket.failures == old(socket.failures) + 1)
      ensures socket.failures <= old(socket.failures) + 1
    {
      while currentTxBytes < TOTAL_TX_BYTES && socket.txAvailable > 0
        invariant Valid() && old(socket.accepted) <= socket.accepted
        invariant socket.closedAt == old(socket.closedAt) && socket.failures == old(socket.failures)
        decreases TOTAL_TX_BYTES - currentTxBytes
      {
        var left := TOTAL_TX_BYTES - currentTxBytes;
        var dataOffset := currentTxBytes % WRITE_SIZE;
        var toWrite := WRITE_SIZE - dataOffset;
        toWrite := Min(toWrite, left);
        toWrite := Min(toWrite, socket.txAvailable);
        ghost var sent := currentTxBytes;
        var amountSent := socket.Send(data, dataOffset, toWrite);
        if amountSent < 0 {
          return;
        }
        currentTxBytes := currentTxBytes + amountSent;
        forall k | sent <= k < currentTxBytes ensures socket.accepted[k] == Expected(k) {
          SamePhase(sent, k - sent);
        }
      }
      if currentTxBytes >= TOTAL_TX_BYTES {
        socket.Close();
      }
    }
  }
}
