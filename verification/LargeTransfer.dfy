/** The chunked TCP writer of examples/tcp/tcp-large-transfer.cc (43-56, 105-110, 197-243),
    against a socket that accepts as much or as little as it likes. */
module LargeTransfer {

  const TOTAL_TX_BYTES: nat := 2000000
  const WRITE_SIZE: nat := 1040

  /** Byte `k` of the alphabet pattern. */
  function PatternByte(k: nat): nat {
    97 + k % 26
  }

  /** The alphabet, again and again. */
  lemma PatternIsAlphabet(k: nat)
    ensures PatternByte(k) as char == "abcdefghijklmnopqrstuvwxyz"[k % 26]
  {
    var alphabet := "abcdefghijklmnopqrstuvwxyz";
    assert |alphabet| == 26 && forall i | 0 <= i < 26 :: alphabet[i] == (97 + i) as char;
  }

  /** The first `n` bytes of the endless alphabet pattern. */
  ghost function Pattern(n: nat): (p: seq<nat>)
    ensures |p| == n && forall k | 0 <= k < n :: p[k] == PatternByte(k)
  {
    seq(n, k requires 0 <= k < n => PatternByte(k))
  }

  /** A send buffer of `size` bytes that is written over and over yields the pattern for a
      stream of `n` bytes if and only if its size is a multiple of 26 or it is never
      wrapped. This is why the write size is what it is. */
  lemma CyclicBufferIff(size: nat, n: nat)
    requires size > 0
    ensures (forall k: nat | k < n :: PatternByte(k % size) == PatternByte(k)) <==> size % 26 == 0 || n <= size
  {
    if size % 26 == 0 {
      forall k: nat | k < n
        ensures PatternByte(k % size) == PatternByte(k)
      {
        ModuloOfModulo(k, size, size / 26);
      }
    } else if n <= size {
      forall k: nat | k < n
        ensures PatternByte(k % size) == PatternByte(k)
      {
        assert k % size == k by { SmallModulo(k, size); }
      }
    } else {
      assert PatternByte(size % size) != PatternByte(size) by { FullModulo(size); }
    }
  }

  lemma SmallModulo(k: nat, size: nat)
    requires k < size
    ensures k % size == k
  {
  }

  lemma FullModulo(size: nat)
    requires size > 0
    ensures size % size == 0
  {
  }

  lemma ModuloOfModulo(k: nat, size: nat, m: nat)
    requires size > 0 && size == 26 * m
    ensures k % size % 26 == k % 26
  {
    var r, t := WholeAlphabets(k, size, m);
    AddMultiple(r, t);
  }

  /** What a division by a multiple of 26 leaves differs from the number by alphabets. */
  lemma WholeAlphabets(k: nat, size: nat, m: nat) returns (r: nat, t: nat)
    requires size > 0 && size == 26 * m
    ensures r == k % size && k == r + 26 * t
  {
    var q;
    q, r := DivideBy(k, size);
    t := m * q;
    Regroup(size, m, q);
  }

  lemma DivideBy(k: nat, size: nat) returns (q: nat, r: nat)
    requires size > 0
    ensures r == k % size && k == r + size * q
  {
    q, r := k / size, k % size;
  }

  lemma Regroup(size: nat, m: nat, q: nat)
    requires size == 26 * m
    ensures size * q == 26 * (m * q)
  {
  }

  lemma {:induction false} AddMultiple(a: nat, t: nat)
    ensures (a + 26 * t) % 26 == a % 26
  {
    if t > 0 {
      AddMultiple(a, t - 1);
      assert a + 26 * t == (a + 26 * (t - 1)) + 26;
    }
  }

  /** What is accepted from the buffer at its offset continues the pattern. */
  lemma PatternContinues(data: seq<nat>, current: nat, sent: nat)
    requires |data| == WRITE_SIZE && forall i | 0 <= i < WRITE_SIZE :: data[i] == PatternByte(i)
    requires current % WRITE_SIZE + sent <= WRITE_SIZE
    ensures var offset := current % WRITE_SIZE;
            Pattern(current) + data[offset..offset + sent] == Pattern(current + sent)
  {
    var offset := current % WRITE_SIZE;
    var chunk := data[offset..offset + sent];
    forall j | 0 <= j < sent
      ensures chunk[j] == PatternByte(current + j)
    {
      var q := current / WRITE_SIZE;
      assert current + j == (offset + j) + 26 * (40 * q);
      AddMultiple(offset + j, 40 * q);
    }
  }

  /** The sending side of a connection. `accepted` is the byte stream it has taken. */
  class Socket {
    var txAvailable: nat
    ghost var accepted: seq<nat>
    /** How often nothing was taken. */
    ghost var refusals: nat
    /** Whether more was offered than there was room for. */
    ghost var overrun: bool
    var closes: nat

    constructor ()
      ensures accepted == [] && closes == 0 && refusals == 0 && !overrun
    {
      txAvailable := *;
      accepted, closes, refusals, overrun := [], 0, 0, false;
    }

    /** Refuses with a negative result, or takes at least one byte of those offered. */
    method Send(data: array<nat>, offset: nat, size: nat) returns (sent: int)
      requires size > 0 && offset + size <= data.Length
      modifies this`txAvailable, this`accepted, this`refusals, this`overrun
      ensures sent <= size && sent != 0
      ensures sent < 0 ==> accepted == old(accepted)
      ensures sent > 0 ==> accepted == old(accepted) + data[offset..offset + sent]
      ensures refusals == old(refusals) + if sent < 0 then 1 else 0
      ensures overrun == (old(overrun) || size > old(txAvailable))
    {
      overrun := overrun || size > txAvailable;
      txAvailable := *;
      if * {
        sent :| sent < 0;
        refusals := refusals + 1;
      } else {
        sent :| 0 < sent <= size;
        accepted := accepted + data[offset..offset + sent];
      }
    }

    method Close()
      modifies this`closes
      ensures closes == old(closes) + 1
    {
      closes := closes + 1;
    }
  }

  class Writer {
    const data: array<nat>
    const socket: Socket
    var currentTxBytes: nat

    /** What is accepted so far is the pattern, and the socket is closed only at its end. */
    ghost predicate Valid()
      reads this, data, socket
    {
      && data.Length == WRITE_SIZE && (forall i | 0 <= i < WRITE_SIZE :: data[i] == PatternByte(i))
      && currentTxBytes <= TOTAL_TX_BYTES
      && socket.accepted == Pattern(currentTxBytes) && !socket.overrun
      && (socket.closes > 0 ==> currentTxBytes == TOTAL_TX_BYTES)
    }

    constructor ()
      ensures Valid() && fresh(data) && fresh(socket)
      ensures currentTxBytes == 0 && socket.closes == 0
    {
      data := new nat[WRITE_SIZE];
      socket := new Socket();
      currentTxBytes := 0;
      new;
      for i := 0 to WRITE_SIZE
        invariant currentTxBytes == 0 && socket.accepted == [] && socket.closes == 0 && !socket.overrun
        invariant forall j | 0 <= j < i :: data[j] == PatternByte(j)
      {
        data[i] := 97 + i % 26;
      }
    }

    /** The send callback. It only ever adds to the stream, never offers more than there is
        room for, goes on until the stream is complete, there is no room, or the socket
        refuses, and closes the socket if and only if the stream is complete when it ends. */
    method WriteUntilBufferFull()
      requires Valid()
      modifies this`currentTxBytes, socket
      ensures Valid()
      ensures old(currentTxBytes) <= currentTxBytes
      ensures currentTxBytes == TOTAL_TX_BYTES || socket.txAvailable == 0 || socket.refusals > old(socket.refusals)
      ensures socket.closes == old(socket.closes) + if currentTxBytes == TOTAL_TX_BYTES then 1 else 0
    {
      while currentTxBytes < TOTAL_TX_BYTES && socket.txAvailable > 0
        invariant Valid()
        invariant old(currentTxBytes) <= currentTxBytes && socket.closes == old(socket.closes)
        invariant socket.refusals == old(socket.refusals)
        decreases TOTAL_TX_BYTES - currentTxBytes
      {
        var left := TOTAL_TX_BYTES - currentTxBytes;
        var dataOffset := currentTxBytes % WRITE_SIZE;
        var toWrite := WRITE_SIZE - dataOffset;
        toWrite := if left < toWrite then left else toWrite;
        toWrite := if socket.txAvailable < toWrite then socket.txAvailable else toWrite;
        var amountSent := socket.Send(data, dataOffset, toWrite);
        if amountSent < 0 {
          return;
        }
        PatternContinues(data[..], currentTxBytes, amountSent);
        assert data[dataOffset..dataOffset + amountSent] == data[..][dataOffset..dataOffset + amountSent];
        currentTxBytes := currentTxBytes + amountSent;
      }
      if currentTxBytes >= TOTAL_TX_BYTES {
        socket.Close();
      }
    }
  }

  /** A whole flow: `StartFlow` and then any number of send callbacks, with any amount of
      free buffer space at each. What the socket has accepted is always a prefix of the
      pattern, and it is the whole of it as soon as the socket is closed. */
  method Flow(callbacks: nat) returns (writer: Writer)
    ensures fresh(writer) && writer.Valid()
    ensures writer.socket.accepted <= Pattern(TOTAL_TX_BYTES)
    ensures writer.socket.closes > 0 <==> writer.socket.accepted == Pattern(TOTAL_TX_BYTES)
  {
    writer := new Writer();
    writer.WriteUntilBufferFull();
    for i := 0 to callbacks
      invariant fresh(writer) && fresh(writer.socket) && writer.Valid()
      invariant writer.socket.closes > 0 <==> writer.currentTxBytes == TOTAL_TX_BYTES
    {
      writer.socket.txAvailable := *;
      writer.WriteUntilBufferFull();
    }
  }
}
