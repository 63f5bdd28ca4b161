/** The sending "application" of tcp-large-transfer.cc: a periodic stream written from a fixed
    buffer, resumed wherever the socket stopped taking bytes.
  */
module LargeTransfer {
  /** The socket: how much it takes and when is up to the network. */
  class Socket {
    var txAvailable: nat
    var closes: nat
    ghost var accepted: seq<int>
    ghost var refusals: nat  // how many writes it has refused
    ghost var largest: bool  // no write could have been larger

    constructor ()
      ensures accepted == [] && closes == 0 && refusals == 0 && largest
    {
      txAvailable, closes, accepted, refusals, largest := *, 0, [], 0, true;
    }

    method GetTxAvailable() returns (n: nat)
      ensures n == txAvailable
    {
      n := txAvailable;
    }

    /** Refuses, or takes between one and all of the bytes offered. */
    method Send(data: array<int>, offset: nat, size: nat, ghost left: nat) returns (sent: int)
      requires 0 < size && offset + size <= data.Length
      modifies this
      ensures closes == old(closes) && sent <= size && sent != 0
      ensures refusals == old(refusals) + (if sent < 0 then 1 else 0)
      ensures largest == (old(largest) && IsLargest(size, left, data.Length - offset, old(txAvailable)))
      ensures accepted == if sent < 0 then old(accepted) else old(accepted) + data[offset..offset + sent]
    {
      largest := largest && IsLargest(size, left, data.Length - offset, txAvailable);
      if * {
        sent := -1;
        refusals := refusals + 1;
      } else {
        sent :| 1 <= sent <= size;
        accepted := accepted + data[offset..offset + sent];
      }
      txAvailable := *;
    }

    method Close()
      modifies this`closes
      ensures closes == old(closes) + 1
    {
      closes := closes + 1;
    }
  }

  /** A write of `size` bytes is as large as what is left, the rest of the buffer and the free space allow. */
  ghost predicate IsLargest(size: nat, left: nat, inBuffer: nat, space: nat) {
    && size <= left && size <= inBuffer && size <= space
    && (size == left || size == inBuffer || size == space)
  }

  function ToAscii(n: nat): int {
    n % 128
  }

  /** Byte `k` of what a buffer of `writeSize` bytes sends. */
  function SentByte(writeSize: nat, k: nat): int
    requires writeSize > 0
  {
    97 + k % writeSize % 26
  }

  /** Byte `k` of the stream that is meant. */
  function StreamByte(k: nat): int {
    97 + k % 26
  }

  ghost predicate IsSent(writeSize: nat, bytes: seq<int>)
    requires writeSize > 0
  {
    forall k | 0 <= k < |bytes| :: bytes[k] == SentByte(writeSize, k)
  }

  class Sender {
    const writeSize: nat
    const totalTxBytes: nat
    const data: array<int>
    var currentTxBytes: nat

    ghost predicate Buffer()
      reads data
    {
      && 0 < writeSize && totalTxBytes < 0x1_0000_0000 && data.Length == writeSize
      && forall i | 0 <= i < writeSize :: data[i] == 97 + i % 26
    }

    /** What the socket has accepted is what was sent so far, and it is closed only after the last byte. */
    ghost predicate Valid(socket: Socket)
      reads this, data, socket
    {
      && Buffer()
      && currentTxBytes <= totalTxBytes && |socket.accepted| == currentTxBytes
      && IsSent(writeSize, socket.accepted)
      && (socket.closes > 0 ==> currentTxBytes == totalTxBytes)
      && socket.largest
    }

    /** Initialise the transmit buffer. */
    constructor (writeSize: nat, totalTxBytes: nat)
      requires writeSize > 0 && totalTxBytes < 0x1_0000_0000
      ensures Buffer() && currentTxBytes == 0 && fresh(data)
      ensures this.writeSize == writeSize && this.totalTxBytes == totalTxBytes
    {
      this.writeSize, this.totalTxBytes, currentTxBytes := writeSize, totalTxBytes, 0;
      data := new int[writeSize];
      new;
      for i := 0 to writeSize
        invariant currentTxBytes == 0
        invariant forall k | 0 <= k < i :: data[k] == 97 + k % 26
      {
        data[i] := ToAscii(97 + i % 26);
      }
    }

    /** One write: as many bytes as are left, as the rest of the buffer holds and as there is space for. */
    method WriteOnce(socket: Socket) returns (amountSent: int)
      requires Valid(socket) && currentTxBytes < totalTxBytes && socket.txAvailable > 0
      modifies this, socket
      ensures Valid(socket) && socket.closes == old(socket.closes)
      ensures amountSent < 0 ==>
        currentTxBytes == old(currentTxBytes) && socket.accepted == old(socket.accepted) && socket.refusals == old(socket.refusals) + 1
      ensures amountSent >= 0 ==>
        currentTxBytes > old(currentTxBytes) && old(socket.accepted) < socket.accepted && socket.refusals == old(socket.refusals)
    {
      var left := totalTxBytes - currentTxBytes;
      var dataOffset := currentTxBytes % writeSize;
      var toWrite := writeSize - dataOffset;
      toWrite := if left < toWrite then left else toWrite;
      var available := socket.GetTxAvailable();
      toWrite := if available < toWrite then available else toWrite;
      ghost var before := socket.accepted;
      amountSent := socket.Send(data, dataOffset, toWrite, left);
      if amountSent >= 0 {
        ghost var chunk := data[dataOffset..dataOffset + amountSent];
        assert forall j | 0 <= j < |chunk| :: chunk[j] == data[dataOffset + j];
        Resumes(writeSize, before, chunk);
        currentTxBytes := currentTxBytes + amountSent;
      }
    }

    /** Write until everything is sent, the socket is full or it refuses. */
    method WriteUntilBufferFull(socket: Socket, txSpace: nat) returns (ghost refused: bool)
      requires Valid(socket)
      modifies this, socket
      ensures Valid(socket) && old(socket.accepted) <= socket.accepted
      ensures socket.closes == old(socket.closes) + (if currentTxBytes == totalTxBytes then 1 else 0)
      ensures currentTxBytes == totalTxBytes || refused || socket.txAvailable == 0
      ensures socket.refusals == old(socket.refusals) + (if refused then 1 else 0)
      ensures old(currentTxBytes) < totalTxBytes && old(socket.txAvailable) > 0 ==> refused || old(socket.accepted) < socket.accepted
    {
      refused := false;
      while currentTxBytes < totalTxBytes && socket.txAvailable > 0
        invariant Valid(socket) && old(socket.accepted) <= socket.accepted && socket.closes == old(socket.closes)
        invariant socket.refusals == old(socket.refusals)
        invariant currentTxBytes == old(currentTxBytes) ==> socket.txAvailable == old(socket.txAvailable)
        decreases totalTxBytes - currentTxBytes
      {
        var amountSent := WriteOnce(socket);
        if amountSent < 0 {
          refused := true;
          return;
        }
      }
      if currentTxBytes >= totalTxBytes {
        socket.Close();
      }
    }
  }

  /** Reading the buffer at the offset reached continues the stream where it stopped. */
  lemma Resumes(writeSize: nat, before: seq<int>, chunk: seq<int>)
    requires writeSize > 0 && IsSent(writeSize, before) && |before| % writeSize + |chunk| <= writeSize
    requires forall j | 0 <= j < |chunk| :: chunk[j] == 97 + (|before| % writeSize + j) % 26
    ensures IsSent(writeSize, before + chunk)
  {
    forall k | 0 <= k < |before + chunk| ensures (before + chunk)[k] == SentByte(writeSize, k) {
      if k >= |before| {
        assert (before + chunk)[k] == chunk[k - |before|];
        ByteAt(writeSize, |before|, k - |before|);
      }
    }
  }

  lemma ByteAt(writeSize: nat, k: nat, j: nat)
    requires writeSize > 0 && k % writeSize + j < writeSize
    ensures 97 + (k % writeSize + j) % 26 == SentByte(writeSize, k + j)
  {
    OffsetInBuffer(writeSize, k, j);
  }

  lemma OffsetInBuffer(n: nat, k: nat, j: nat)
    requires n > 0 && k % n + j < n
    ensures (k + j) % n == k % n + j
  {
    Remainder(n, k / n, k % n + j, k + j);
  }

  /** A number between 0 and n-1 that differs from `a` by a multiple of n is its remainder. */
  lemma Remainder(n: nat, q: int, r: nat, a: nat)
    requires r < n && a == q * n + r
    ensures a % n == r
  {
    var q', r' := a / n, a % n;
    assert a == q' * n + r';
    Apart(n, q, q');
  }

  lemma Apart(n: nat, p: int, q: int)
    ensures p < q ==> p * n + n <= q * n
    ensures q < p ==> q * n + n <= p * n
  {
    if p < q { AtLeast(n, q - p); } else if q < p { AtLeast(n, p - q); }
    assert (q - p) * n == q * n - p * n;
  }

  lemma AtLeast(n: nat, d: int)
    requires d >= 1
    ensures d * n >= n
  {}

  // ----- A whole flow -----

  /** One call of the sender: the free space it found, the bytes accepted before and after, and whether it was refused. */
  datatype Call = Call(space: nat, before: nat, after: nat, refused: bool)

  /** A call that finds space and has bytes left sends something or is refused. */
  ghost predicate Progresses(call: Call, totalTxBytes: nat) {
    call.space > 0 && call.before < totalTxBytes ==> call.after > call.before || call.refused
  }

  /** The calls so far: each goes on where the one before it stopped, and finds the space it is given. */
  ghost predicate IsHistory(calls: seq<Call>, spaces: seq<nat>, totalTxBytes: nat, first: nat, last: nat, refusals: nat) {
    && 0 < |calls| <= |spaces|
    && calls[0].before == first && calls[|calls| - 1].after == last
    && (forall i | 0 <= i < |calls| :: calls[i].space == spaces[i] && Progresses(calls[i], totalTxBytes))
    && (forall i | 0 < i < |calls| :: calls[i].before == calls[i - 1].after)
    && Refusals(calls, |calls|) == refusals
  }

  ghost function Refusals(calls: seq<Call>, n: nat): nat
    requires n <= |calls|
  {
    if n == 0 then 0 else Refusals(calls, n - 1) + (if calls[n - 1].refused then 1 else 0)
  }

  lemma {:induction false} RefusalsOfPrefix(calls: seq<Call>, call: Call, n: nat)
    requires n <= |calls|
    ensures Refusals(calls + [call], n) == Refusals(calls, n)
  {
    if n == 0 {
    } else {
      RefusalsOfPrefix(calls, call, n - 1);
    }
  }

  lemma HistoryGrows(calls: seq<Call>, spaces: seq<nat>, totalTxBytes: nat, first: nat, last: nat, refusals: nat, call: Call)
    requires IsHistory(calls, spaces, totalTxBytes, first, last, refusals) && |calls| < |spaces|
    requires call.space == spaces[|calls|] && call.before == last && Progresses(call, totalTxBytes)
    ensures IsHistory(calls + [call], spaces, totalTxBytes, first, call.after, refusals + (if call.refused then 1 else 0))
  {
    RefusalsOfPrefix(calls, call, |calls|);
  }

  /** One call. */
  method Serve(sender: Sender, socket: Socket) returns (ghost call: Call)
    requires sender.Valid(socket)
    modifies sender, socket
    ensures sender.Valid(socket) && old(socket.accepted) <= socket.accepted
    ensures sender.currentTxBytes == sender.totalTxBytes || call.refused || socket.txAvailable == 0
    ensures call == Call(old(socket.txAvailable), old(|socket.accepted|), |socket.accepted|, call.refused)
    ensures Progresses(call, sender.totalTxBytes)
    ensures socket.refusals == old(socket.refusals) + (if call.refused then 1 else 0)
  {
    var space := socket.GetTxAvailable();
    ghost var before := |socket.accepted|;
    ghost var refused := sender.WriteUntilBufferFull(socket, space);
    call := Call(space, before, |socket.accepted|, refused);
  }

  /** Start the flow and serve any number of callbacks; between them the free space changes at will.  At the end all is
      sent, or the last call was refused, or there is no free space; and every call that found space sent something or was
      refused. */
  method StartFlow(sender: Sender, socket: Socket, spaces: seq<nat>) returns (ghost calls: seq<Call>)
    requires sender.Valid(socket)
    modifies sender, socket
    ensures sender.Valid(socket) && old(socket.accepted) <= socket.accepted
    ensures |calls| == |spaces| + 1 && old(socket.refusals) <= socket.refusals
    ensures IsHistory(calls, [old(socket.txAvailable)] + spaces, sender.totalTxBytes,
                      old(|socket.accepted|), |socket.accepted|, socket.refusals - old(socket.refusals))
    ensures sender.currentTxBytes == sender.totalTxBytes || calls[|spaces|].refused || socket.txAvailable == 0
  {
    ghost var first, refusals, all := |socket.accepted|, socket.refusals, [socket.txAvailable] + spaces;
    ghost var call := Serve(sender, socket);
    calls := [call];
    assert Refusals(calls, 1) == Refusals(calls, 0) + (if call.refused then 1 else 0);
    for i := 0 to |spaces|
      invariant sender.Valid(socket) && old(socket.accepted) <= socket.accepted
      invariant |calls| == i + 1 && refusals <= socket.refusals
      invariant IsHistory(calls, all, sender.totalTxBytes, first, |socket.accepted|, socket.refusals - refusals)
      invariant sender.currentTxBytes == sender.totalTxBytes || calls[i].refused || socket.txAvailable == 0
    {
      socket.txAvailable := spaces[i];
      ghost var last, sofar := |socket.accepted|, socket.refusals - refusals;
      call := Serve(sender, socket);
      HistoryGrows(calls, all, sender.totalTxBytes, first, last, sofar, call);
      calls := calls + [call];
    }
  }

  // ----- When the buffer sends the stream that is meant -----

  lemma PeriodKept(m: nat, k: nat)
    requires m > 0
    ensures k % (26 * m) % 26 == k % 26
  {
    var n := 26 * m;
    var q, r := k / n, k % n;
    assert k == q * n + r;
    assert q * n == 26 * (q * m);
    Remainder26(q * m, r, k);
  }

  lemma Remainder26(q: int, r: int, a: int)
    requires a == 26 * q + r
    ensures a % 26 == r % 26
  {}

  /** The bytes sent are those of the stream, whatever their number, exactly when 26 divides the buffer's size. */
  lemma StreamSentIff(writeSize: nat)
    requires writeSize > 0
    ensures (forall k: nat :: SentByte(writeSize, k) == StreamByte(k)) <==> writeSize % 26 == 0
  {
    if writeSize % 26 == 0 {
      forall k: nat ensures SentByte(writeSize, k) == StreamByte(k) {
        assert writeSize == 26 * (writeSize / 26);
        PeriodKept(writeSize / 26, k);
      }
    } else {
      Remainder(writeSize, 1, 0, writeSize);
      assert SentByte(writeSize, writeSize) != StreamByte(writeSize);
    }
  }

  /** For a run of `totalTxBytes` bytes: exactly when 26 divides the buffer's size or one buffer holds them all. */
  lemma RunSendsStreamIff(writeSize: nat, totalTxBytes: nat)
    requires writeSize > 0
    ensures (forall k | 0 <= k < totalTxBytes :: SentByte(writeSize, k) == StreamByte(k))
            <==> (writeSize % 26 == 0 || totalTxBytes <= writeSize)
  {
    if writeSize % 26 == 0 {
      StreamSentIff(writeSize);
    } else if totalTxBytes <= writeSize {
      forall k | 0 <= k < totalTxBytes ensures SentByte(writeSize, k) == StreamByte(k) {
        Remainder(writeSize, 0, k, k);
      }
    } else {
      Remainder(writeSize, 1, 0, writeSize);
      assert SentByte(writeSize, writeSize) != StreamByte(writeSize);
    }
  }

  /** What the socket has accepted is a prefix of the stream, and for a completed run only under that condition. */
  lemma AcceptedIsStreamIff(writeSize: nat, totalTxBytes: nat, accepted: seq<int>)
    requires writeSize > 0 && IsSent(writeSize, accepted) && |accepted| <= totalTxBytes
    ensures writeSize % 26 == 0 || totalTxBytes <= writeSize ==>
              forall k | 0 <= k < |accepted| :: accepted[k] == StreamByte(k)
    ensures |accepted| == totalTxBytes && (forall k | 0 <= k < |accepted| :: accepted[k] == StreamByte(k)) ==>
              writeSize % 26 == 0 || totalTxBytes <= writeSize
  {
    RunSendsStreamIff(writeSize, totalTxBytes);
    if |accepted| == totalTxBytes && forall k | 0 <= k < |accepted| :: accepted[k] == StreamByte(k) {
      forall k | 0 <= k < totalTxBytes ensures SentByte(writeSize, k) == StreamByte(k) {
        assert accepted[k] == SentByte(writeSize, k);
      }
    }
  }

  /** With the sizes of the program, the socket has accepted a prefix of the stream. */
  lemma AcceptedIsStreamPrefix(accepted: seq<int>, k: nat)
    requires IsSent(1040, accepted) && k < |accepted|
    ensures accepted[k] == 97 + k % 26
  {
    StreamSentIff(1040);
    assert SentByte(1040, k) == StreamByte(k);
  }
}
