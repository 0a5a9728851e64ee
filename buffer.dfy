/** The byte-budgeted capture buffer of one proxy instance (`RingBuffer`): a
    circular array of captured packets whose total raw size never exceeds the
    budget, kept by evicting the oldest packets first and by doubling the array
    when every slot is in use. */
module Buffer {
  import opened Bytes
  import opened Wrappers
  import opened Sniffer

  /** One captured chunk, immutable once built. `hexPreview` holds the bytes
      the hex dump is made of; the dump's text layout is not modelled. */
  datatype Packet = Packet(
    timestamp: int,
    direction: string,
    bytes: int,
    hexPreview: seq<byte>,
    asciiStrings: seq<seq<byte>>,
    protocol: Protocol,
    rawData: seq<byte>)

  /** Budget used when the requested one is not positive: 10 MiB. */
  const DefaultMaxSize: int := 10 * 1024 * 1024
  /** Number of slots a new buffer starts with. */
  const InitialCapacity: int := 1000

  /** Sum of the raw-data lengths of `s`: what the buffer charges for it. */
  function TotalSize(s: seq<Packet>): (r: nat)
    decreases |s|
  {
    if s == [] then 0 else |s[0].rawData| + TotalSize(s[1..])
  }

  /** Every packet's raw data counts toward the total. */
  lemma {:induction false} TotalSizeBoundsEach(s: seq<Packet>)
    ensures forall k :: 0 <= k < |s| ==> |s[k].rawData| <= TotalSize(s)
    decreases |s|
  {
    if s != [] {
      TotalSizeBoundsEach(s[1..]);
      assert forall k :: 1 <= k < |s| ==> s[k] == s[1..][k - 1];
    }
  }

  /** Appending a packet adds its raw-data length to the total. */
  lemma {:induction false} TotalSizeAppend(s: seq<Packet>, p: Packet)
    ensures TotalSize(s + [p]) == TotalSize(s) + |p.rawData|
  {
    if s != [] {
      assert (s + [p])[1..] == s[1..] + [p];
      TotalSizeAppend(s[1..], p);
    } else {
      assert s + [p] == [p];
    }
  }

  /** The packet as stored: raw data cut to the budget when longer; every
      other field, including the recorded byte count, is kept as it was. */
  function Truncate(p: Packet, budget: nat): (r: Packet)
    ensures |r.rawData| <= budget
    ensures |p.rawData| <= budget ==> r == p
    ensures |p.rawData| > budget ==> r.rawData == p.rawData[..budget]
    ensures r.(rawData := p.rawData) == p
  {
    if |p.rawData| > budget then p.(rawData := p.rawData[..budget]) else p
  }

  /** Drops packets from the front of `s` while `s` is not empty and it plus
      the incoming `incoming` bytes would exceed `budget`. */
  function Evict(s: seq<Packet>, incoming: nat, budget: int): (r: seq<Packet>)
    ensures |r| <= |s| && r == s[|s| - |r|..]
    decreases |s|
  {
    if s != [] && TotalSize(s) + incoming > budget then Evict(s[1..], incoming, budget) else s
  }

  /** After eviction the incoming packet fits, whenever it fits on its own. */
  lemma {:induction false} EvictFits(s: seq<Packet>, incoming: nat, budget: int)
    requires incoming <= budget
    ensures TotalSize(Evict(s, incoming, budget)) + incoming <= budget
    decreases |s|
  {
    if s != [] && TotalSize(s) + incoming > budget {
      EvictFits(s[1..], incoming, budget);
    }
  }

  /** Eviction is minimal: every longer suffix of `s` than the one retained
      would still overflow the budget. */
  lemma {:induction false} EvictMinimal(s: seq<Packet>, incoming: nat, budget: int)
    ensures forall j :: 0 <= j < |s| - |Evict(s, incoming, budget)| ==> TotalSize(s[j..]) + incoming > budget
    decreases |s|
  {
    if s != [] && TotalSize(s) + incoming > budget {
      EvictMinimal(s[1..], incoming, budget);
      forall j | 0 < j < |s| - |Evict(s, incoming, budget)|
        ensures TotalSize(s[j..]) + incoming > budget
      {
        assert s[1..][j - 1..] == s[j..];
      }
      assert s[0..] == s;
    }
  }

  /** The retained contents after adding `p` to contents `s` under `budget`. */
  function Added(s: seq<Packet>, p: Packet, budget: nat): (r: seq<Packet>)
  {
    var q := Truncate(p, budget);
    Evict(s, |q.rawData|, budget) + [q]
  }

  /** Adding keeps the byte budget. */
  lemma AddedWithinBudget(s: seq<Packet>, p: Packet, budget: nat)
    ensures TotalSize(Added(s, p, budget)) <= budget
  {
    var q := Truncate(p, budget);
    EvictFits(s, |q.rawData|, budget);
    TotalSizeAppend(Evict(s, |q.rawData|, budget), q);
  }

  /** FIFO and minimal: the result of an add is a suffix `s[j..]` of the old
      contents followed by the (truncated) new packet, where every packet before
      `j` had to go and the packet at `j`, if any, fits. */
  lemma AddedIsMinimalFifo(s: seq<Packet>, p: Packet, budget: nat)
    ensures exists j ::
      && 0 <= j <= |s|
      && Added(s, p, budget) == s[j..] + [Truncate(p, budget)]
      && (forall i :: 0 <= i < j ==> TotalSize(s[i..]) + |Truncate(p, budget).rawData| > budget)
      && TotalSize(s[j..]) + |Truncate(p, budget).rawData| <= budget
  {
    var q := Truncate(p, budget);
    var r := Evict(s, |q.rawData|, budget);
    var j := |s| - |r|;
    EvictMinimal(s, |q.rawData|, budget);
    EvictFits(s, |q.rawData|, budget);
    assert r == s[j..];
  }

  /** Budget 2X holding two packets of X bytes: adding a third of X bytes
      evicts exactly the first. */
  lemma FifoExample(s: seq<Packet>, p1: Packet, p2: Packet, p3: Packet, x: nat)
    requires x > 0 && |p1.rawData| == x && |p2.rawData| == x && |p3.rawData| == x
    requires s == [p1, p2]
    ensures Added(s, p3, 2 * x) == [p2, p3]
  {
    assert [p1, p2][1..] == [p2];
    assert [p2][1..] == [];
    assert TotalSize([p2]) == x;
    assert TotalSize([p1, p2]) == 2 * x;
    assert Evict([p2], x, 2 * x) == [p2];
  }

  /** Index `i` of a circular array of `n` slots, for `i < 2 * n`. */
  function Wrap(i: int, n: int): (r: int)
    requires 0 < n && 0 <= i < 2 * n
    ensures 0 <= r < n
  {
    if i < n then i else i - n
  }

  /** `Wrap` is Go's `i % len(data)` on the indices it is used for. */
  lemma WrapIsMod(i: int, n: int)
    requires 0 < n && 0 <= i < 2 * n
    ensures Wrap(i, n) == i % n
  {
    if i >= n {
      assert i == n + (i - n);
    }
  }

  /** The slot contents that hold the packets `c`, in order. */
  function Slots(c: seq<Packet>): (r: seq<Option<Packet>>)
    ensures |r| == |c| && forall k :: 0 <= k < |c| ==> r[k] == Some(c[k])
  {
    seq(|c|, k requires 0 <= k < |c| => Some(c[k]))
  }

  /** The values of a run of occupied slots. */
  function Values(s: seq<Option<Packet>>): (r: seq<Packet>)
    requires forall i :: 0 <= i < |s| ==> s[i].Some?
    ensures Slots(r) == s
  {
    var r := seq(|s|, i requires 0 <= i < |s| => s[i].value);
    assert Slots(r) == s;
    r
  }

  /** The ring layout of slot array `a`: `count` occupied slots from `tail`,
      wrapping around the end, holding `c` oldest first, and `head` the slot
      just after the newest one (modulo the length). */
  ghost predicate Ring(a: seq<Option<Packet>>, tail: int, count: int, head: int, c: seq<Packet>)
  {
    && 0 < |a|
    && 0 <= count <= |a|
    && 0 <= tail < |a|
    && head == Wrap(tail + count, |a|)
    && |c| == count
    && forall k :: 0 <= k < count ==> a[Wrap(tail + k, |a|)] == Some(c[k])
  }

  /** The oldest packet sits at `tail`; removing it advances `tail` by one. */
  lemma RingPop(a: seq<Option<Packet>>, tail: int, count: int, head: int, c: seq<Packet>)
    requires Ring(a, tail, count, head, c) && count > 0
    ensures a[tail] == Some(c[0])
    ensures Ring(a, Wrap(tail + 1, |a|), count - 1, head, c[1..])
  {
    assert a[Wrap(tail + 0, |a|)] == Some(c[0]);
    var t := Wrap(tail + 1, |a|);
    forall k | 0 <= k < count - 1
      ensures a[Wrap(t + k, |a|)] == Some(c[1..][k])
    {
      assert Wrap(t + k, |a|) == Wrap(tail + (k + 1), |a|);
    }
  }

  /** Writing the slot at `head` of a ring that is not full appends. */
  lemma RingPush(a: seq<Option<Packet>>, tail: int, count: int, head: int, c: seq<Packet>, p: Packet)
    requires Ring(a, tail, count, head, c) && count < |a|
    ensures Ring(a[head := Some(p)], tail, count + 1, Wrap(head + 1, |a|), c + [p])
  {
    var b := a[head := Some(p)];
    forall k | 0 <= k < count + 1
      ensures b[Wrap(tail + k, |a|)] == Some((c + [p])[k])
    {
      if k < count {
        assert Wrap(tail + k, |a|) != head;
      }
    }
  }

  /** The occupied slots read out as `GetAll` reads them: one slice when they
      do not wrap, else the part up to the end followed by the part from 0. */
  lemma RingSlices(a: seq<Option<Packet>>, tail: int, count: int, head: int, c: seq<Packet>)
    requires Ring(a, tail, count, head, c) && count > 0
    ensures tail < head ==> a[tail..head] == Slots(c)
    ensures tail >= head ==> a[tail..] + a[..head] == Slots(c)
  {
    var n := |a|;
    if tail < head {
      assert head == tail + count;
      forall k | 0 <= k < count ensures a[tail..head][k] == Slots(c)[k] {
        assert a[Wrap(tail + k, n)] == Some(c[k]);
      }
    } else {
      assert tail + count >= n && head == tail + count - n;
      var w := a[tail..] + a[..head];
      forall k | 0 <= k < count ensures w[k] == Slots(c)[k] {
        assert a[Wrap(tail + k, n)] == Some(c[k]);
        if k < n - tail {
          assert w[k] == a[tail + k];
        } else {
          assert w[k] == a[k - (n - tail)];
        }
      }
    }
  }

  /** A ring laid out from slot 0 of a larger array. */
  lemma RingFromZero(b: seq<Option<Packet>>, c: seq<Packet>)
    requires |c| < |b| && b[..|c|] == Slots(c)
    ensures Ring(b, 0, |c|, |c|, c)
  {
    forall k | 0 <= k < |c| ensures b[Wrap(0 + k, |b|)] == Some(c[k]) {
      assert b[..|c|][k] == b[k];
    }
  }

  /** Go's built-in `copy(dst[at:], src)` into a destination with room: the
      range written holds `src` and every other slot is as it was. */
  method CopyInto(dst: array<Option<Packet>>, at: int, src: seq<Option<Packet>>)
    requires 0 <= at && at + |src| <= dst.Length
    modifies dst
    ensures dst[at..at + |src|] == src
    ensures forall j :: 0 <= j < dst.Length && !(at <= j < at + |src|) ==> dst[j] == old(dst[j])
  {
    for k := 0 to |src|
      invariant forall j :: at <= j < at + k ==> dst[j] == src[j - at]
      invariant forall j :: 0 <= j < dst.Length && !(at <= j < at + k) ==> dst[j] == old(dst[j])
    {
      dst[at + k] := src[k];
    }
    assert forall j :: at <= j < at + |src| ==> dst[j] == src[j - at];
  }

  /** A prefix of `s` is its shorter prefix followed by the slice between. */
  lemma SplitAt<T>(s: seq<T>, i: int, j: int)
    requires 0 <= i <= j <= |s|
    ensures s[..j] == s[..i] + s[i..j]
  {
  }

  /** What `GetStats` reports. */
  datatype Stats = Stats(packets: int, bytes: int, usage: real)

  class RingBuffer {
    var data: array<Option<Packet>>
    const maxSize: int
    var currentSize: int
    var head: int
    var tail: int
    var count: int

    /** The retained packets, oldest first. */
    ghost var Contents: seq<Packet>

    /** The ring invariant: `count` live slots starting at `tail`, wrapping
        modulo the array length (`Wrap`), with `head` the next free slot, and
        the byte counter equal to the size of the contents and within the
        budget. */
    ghost predicate Valid()
      reads this, data
    {
      && 0 < maxSize
      && Ring(data[..], tail, count, head, Contents)
      && currentSize == TotalSize(Contents)
      && currentSize <= maxSize
    }

    /** `NewRingBuffer`: a non-positive budget means the 10 MiB default. */
    constructor (maxSize: int)
      ensures Valid() && fresh(data)
      ensures this.maxSize == if maxSize <= 0 then DefaultMaxSize else maxSize
      ensures data.Length == InitialCapacity
      ensures Contents == [] && count == 0 && currentSize == 0 && head == 0 && tail == 0
    {
      this.maxSize := if maxSize <= 0 then DefaultMaxSize else maxSize;
      data := new Option<Packet>[InitialCapacity];
      currentSize, head, tail, count := 0, 0, 0, 0;
      Contents := [];
    }

    /** Truncate, evict oldest-first until the packet fits, grow when full,
        then append at `head`. */
    method Add(packet: Packet)
      requires Valid()
      modifies this, data
      ensures Valid()
      ensures Contents == Added(old(Contents), packet, maxSize)
      ensures data == old(data) || (fresh(data) && data.Length == 2 * old(data.Length))
    {
      var p := packet;
      var packetSize := |p.rawData|;
      if packetSize > maxSize {
        p := p.(rawData := p.rawData[..maxSize]);
        packetSize := maxSize;
      }
      assert p == Truncate(packet, maxSize);

      EvictFor(packetSize);
      if count == data.Length {
        Grow();
      }
      Push(p);
    }

    /** The eviction loop of `Add`: drops the oldest packet while the incoming
        `packetSize` bytes would not fit and something is left to drop. */
    method EvictFor(packetSize: nat)
      requires Valid() && packetSize <= maxSize
      modifies this, data
      ensures Valid() && data == old(data)
      ensures Contents == Evict(old(Contents), packetSize, maxSize)
      ensures currentSize + packetSize <= maxSize
    {
      while currentSize + packetSize > maxSize && count > 0
        invariant Valid() && data == old(data)
        invariant Evict(Contents, packetSize, maxSize) == Evict(old(Contents), packetSize, maxSize)
        decreases count
      {
        DropOldest();
      }
    }

    /** One step of the eviction loop: the packet at `tail` leaves, its bytes
        are given back and `tail` advances modulo the length. */
    method DropOldest()
      requires Valid() && count > 0
      modifies this
      ensures Valid() && data == old(data)
      ensures Contents == old(Contents)[1..]
    {
      ghost var a := data[..];
      RingPop(a, tail, count, head, Contents);
      WrapIsMod(tail + 1, data.Length);
      var oldPacket := data[tail].value;
      currentSize := currentSize - |oldPacket.rawData|;
      tail := (tail + 1) % data.Length;
      count := count - 1;
      Contents := Contents[1..];
    }

    /** Writes `p` into the free slot at `head` of a ring that is not full. */
    method Push(p: Packet)
      requires Valid() && count < data.Length && currentSize + |p.rawData| <= maxSize
      modifies this, data
      ensures Valid() && data == old(data)
      ensures Contents == old(Contents) + [p]
    {
      ghost var a := data[..];
      ghost var c := Contents;
      var h := head;
      RingPush(a, tail, count, h, c, p);
      WrapIsMod(h + 1, data.Length);
      TotalSizeAppend(c, p);
      data[h] := Some(p);
      assert data[..] == a[h := Some(p)];
      head := (h + 1) % data.Length;
      count := count + 1;
      currentSize := currentSize + |p.rawData|;
      Contents := c + [p];
    }

    /** `grow`: copy the live slots, oldest first, to the front of an array
        twice as long. */
    method Grow()
      requires Valid()
      modifies this
      ensures Valid() && fresh(data)
      ensures data.Length == 2 * old(data.Length)
      ensures Contents == old(Contents) && count == old(count) && currentSize == old(currentSize)
      ensures tail == 0 && head == count
    {
      var newData := new Option<Packet>[data.Length * 2];
      CopyLive(newData);
      RingFromZero(newData[..], Contents);
      data := newData;
      tail := 0;
      head := count;
      assert Ring(data[..], tail, count, head, Contents);
    }

    /** The copy step of `grow`: the live slots, oldest first, to the front of
        `dst`, in one piece or in the two pieces either side of the wrap. */
    method CopyLive(dst: array<Option<Packet>>)
      requires Valid() && dst != data && data.Length <= dst.Length
      modifies dst
      ensures dst[..count] == Slots(Contents)
    {
      var a := data[..];
      if tail < head {
        RingSlices(a, tail, count, head, Contents);
        CopyInto(dst, 0, a[tail..head]);
        assert dst[..count] == dst[0..head - tail];
      } else if count > 0 {
        RingSlices(a, tail, count, head, Contents);
        var n := |a| - tail;
        CopyInto(dst, 0, a[tail..]);
        ghost var first := dst[..n];
        CopyInto(dst, n, a[..head]);
        assert dst[..n] == first;
        SplitAt(dst[..], n, count);
      }
    }

    /** A snapshot of the retained packets, oldest first; empty when there
        are none. */
    method GetAll() returns (r: seq<Packet>)
      requires Valid()
      ensures r == Contents
    {
      if count == 0 {
        return [];
      }
      RingSlices(data[..], tail, count, head, Contents);
      if tail < head {
        r := Values(data[tail..head]);
      } else {
        r := Values(data[tail..] + data[..head]);
      }
      assert Slots(r) == Slots(Contents);
      assert forall k :: 0 <= k < |r| ==> Slots(r)[k] == Some(r[k]);
    }

    /** Empties the buffer and releases every slot. */
    method Clear()
      requires Valid()
      modifies this, data
      ensures Valid() && data == old(data)
      ensures Contents == [] && head == 0 && tail == 0 && count == 0 && currentSize == 0
      ensures forall i :: 0 <= i < data.Length ==> data[i] == None
    {
      head, tail, count, currentSize := 0, 0, 0, 0;
      Contents := [];
      for i := 0 to data.Length
        modifies data
        invariant forall j :: 0 <= j < i ==> data[j] == None
      {
        data[i] := None;
      }
    }

    /** `getUsagePercentLocked`: bytes held as a percentage of the budget. */
    function UsagePercent(): (u: real)
      reads this, data
      requires Valid()
      ensures 0.0 <= u <= 100.0
      ensures u == 0.0 <==> TotalSize(Contents) == 0
      ensures u * (maxSize as real) == 100.0 * (TotalSize(Contents) as real)
    {
      if maxSize == 0 then 0.0 else (currentSize as real) * 100.0 / (maxSize as real)
    }

    /** Packet count, bytes held and usage, read together. */
    function GetStats(): (s: Stats)
      reads this, data
      requires Valid()
      ensures s.packets == |Contents| && s.bytes == TotalSize(Contents)
      ensures s.usage == UsagePercent()
    {
      Stats(count, currentSize, UsagePercent())
    }
  }

  /** A packet that fits an empty buffer is kept whole and alone. */
  lemma AddedToEmpty(s: seq<Packet>, p: Packet, budget: nat)
    requires s == [] && |p.rawData| <= budget
    ensures Added(s, p, budget) == [p]
    ensures TotalSize(Added(s, p, budget)) == |p.rawData|
  {
    TotalSizeAppend([], p);
  }

  /** One 100-byte packet in a 1 MiB buffer: one packet, 100 bytes, usage
      above zero. */
  method OnePacketStats(p: Packet) returns (s: Stats)
    requires |p.rawData| == 100
    ensures s.packets == 1 && s.bytes == 100 && s.usage > 0.0
  {
    var b := new RingBuffer(1024 * 1024);
    ghost var c0 := b.Contents;
    b.Add(p);
    AddedToEmpty(c0, p, b.maxSize);
    s := b.GetStats();
  }
}
