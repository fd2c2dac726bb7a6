/** The bit-banged exchange of `spi_bb_send`: eight clocks, most significant bit first. */
module Spi {
  import opened Word

  /** The bits of a byte, most significant first. */
  function Bits(b: uint8): (bits: seq<bool>)
    ensures |bits| == 8
  {
    [b & 0x80 != 0, b & 0x40 != 0, b & 0x20 != 0, b & 0x10 != 0,
     b & 0x08 != 0, b & 0x04 != 0, b & 0x02 != 0, b & 0x01 != 0]
  }

  lemma BitsOfSame(a: uint8, b: uint8)
    requires Bits(a) == Bits(b)
    ensures a == b
  {
    var s, t := Bits(a), Bits(b);
    assert s[0] == t[0] && s[1] == t[1] && s[2] == t[2] && s[3] == t[3];
    assert s[4] == t[4] && s[5] == t[5] && s[6] == t[6] && s[7] == t[7];
  }

  /** Shifting a byte left drops its first bit and brings in the given last one. */
  function ShiftIn(b: uint8, bit: bool): uint8 {
    ((b << 1) & 0xFF) | (if bit then 1 else 0)
  }

  lemma ShiftBits(b: uint8, bit: bool)
    ensures Bits(ShiftIn(b, bit)) == Bits(b)[1..] + [bit]
  {
  }

  lemma ShiftWindows(bits: seq<bool>, bit: bool, m: nat)
    requires |bits| == 8 && 1 <= m <= 8
    ensures (bits[1..] + [bit])[..m - 1] == bits[1..m]
    ensures (bits[1..] + [bit])[m - 1..] == bits[m..] + [bit]
    ensures bits[..m] == [bits[0]] + bits[1..m]
  {
  }

  lemma Regroup(s: seq<bool>, b: bool, t: seq<bool>)
    ensures s + ([b] + t) == (s + [b]) + t
  {
  }

  /** What one clock keeps: the bits driven and those still to drive make up the whole, and the
      bits read so far are the first of the reply. */
  lemma OneClock(out: uint8, dataIn: uint8, bit: bool, i: nat, mosi: seq<bool>, whole: seq<bool>, reply: seq<bool>)
    requires i < 8 && |reply| == 8 && bit == reply[i]
    requires mosi + Bits(out)[..8 - i] == whole && Bits(dataIn)[8 - i..] == reply[..i]
    ensures (mosi + [Bits(out)[0]]) + Bits(ShiftIn(out, false))[..7 - i] == whole
    ensures Bits(ShiftIn(dataIn, bit))[7 - i..] == reply[..i + 1]
  {
    hide *;
    DrivenClock(out, i, mosi, whole);
    ReadClock(dataIn, bit, i, reply);
  }

  lemma DrivenClock(out: uint8, i: nat, mosi: seq<bool>, whole: seq<bool>)
    requires i < 8 && mosi + Bits(out)[..8 - i] == whole
    ensures (mosi + [Bits(out)[0]]) + Bits(ShiftIn(out, false))[..7 - i] == whole
  {
    hide *;
    ShiftBits(out, false);
    ShiftWindows(Bits(out), false, 8 - i);
    Regroup(mosi, Bits(out)[0], Bits(out)[1..8 - i]);
  }

  lemma ReadClock(dataIn: uint8, bit: bool, i: nat, reply: seq<bool>)
    requires i < 8 && |reply| == 8 && bit == reply[i] && Bits(dataIn)[8 - i..] == reply[..i]
    ensures Bits(ShiftIn(dataIn, bit))[7 - i..] == reply[..i + 1]
  {
    hide *;
    ShiftBits(dataIn, bit);
    ShiftWindows(Bits(dataIn), bit, 8 - i);
    assert reply[..i + 1] == reply[..i] + [bit];
  }

  /** The wires: what the slave sends, byte by byte, as the clock runs, and what the master has
      driven so far. */
  class Bus {
    const slave: nat -> uint8
    var clock: nat
    ghost var mosi: seq<bool>

    constructor (slave: nat -> uint8)
      ensures this.slave == slave && clock == 0 && mosi == []
    {
      this.slave := slave;
      clock := 0;
      mosi := [];
    }

    /** The level of the slave's line at a clock. */
    function Miso(c: nat): bool
    {
      Bits(slave(c / 8))[c % 8]
    }

    /** Eight clocks exchange the two bytes. */
    method Send(data: uint8) returns (dataIn: uint8)
      requires clock % 8 == 0
      modifies this
      ensures clock == old(clock) + 8
      ensures dataIn == slave(old(clock) / 8)
      ensures mosi == old(mosi) + Bits(data)
    {
      hide Bits, ShiftIn;
      var out: uint8 := data;
      dataIn := 0;
      ghost var n, reply := clock / 8, slave(clock / 8);
      ghost var before := mosi;
      for i := 0 to 8
        invariant clock == 8 * n + i
        invariant mosi + Bits(out)[..8 - i] == before + Bits(data)
        invariant Bits(dataIn)[8 - i..] == Bits(reply)[..i]
      {
        var level := TopBit(out);
        var bit := Miso(clock);
        MisoIs(n, i);
        OneClock(out, dataIn, bit, i, mosi, before + Bits(data), Bits(reply));
        mosi := mosi + [level];
        dataIn := ShiftIn(dataIn, bit);
        out := ShiftIn(out, false);
        clock := clock + 1;
      }
      assert mosi + [] == mosi;
      BitsOfSame(dataIn, reply);
    }

    lemma MisoIs(n: nat, i: nat)
      requires i < 8
      ensures Miso(8 * n + i) == Bits(slave(n))[i]
    {
    }

    /** Reading is sending all ones. */
    method Receive() returns (dataIn: uint8)
      requires clock % 8 == 0
      modifies this
      ensures clock == old(clock) + 8
      ensures dataIn == slave(old(clock) / 8)
      ensures mosi == old(mosi) + Bits(0xFF)
    {
      dataIn := Send(0xFF);
    }
  }

  function TopBit(b: uint8): (bit: bool)
    ensures bit == Bits(b)[0]
  {
    b & 0x80 != 0
  }

  /** A whole byte string exchanged for as many bytes of the slave. */
  method SendAll(bus: Bus, data: seq<uint8>) returns (received: seq<uint8>)
    requires bus.clock % 8 == 0
    modifies bus
    ensures bus.clock == old(bus.clock) + 8 * |data|
    ensures |received| == |data|
    ensures forall k | 0 <= k < |data| :: received[k] == bus.slave(old(bus.clock) / 8 + k)
    ensures bus.mosi == old(bus.mosi) + AllBits(data)
  {
    hide AllBits, Bits;
    received := [];
    AllBitsStart(bus.mosi);
    for k := 0 to |data|
      invariant bus.clock == old(bus.clock) + 8 * k && |received| == k
      invariant forall i | 0 <= i < k :: received[i] == bus.slave(old(bus.clock) / 8 + i)
      invariant bus.mosi == old(bus.mosi) + AllBits(data[..k])
    {
      var b := bus.Send(data[k]);
      received := received + [b];
      AllBitsNext(data[..k], data[k]);
      assert data[..k] + [data[k]] == data[..k + 1];
    }
    assert data[..|data|] == data;
  }

  function AllBits(data: seq<uint8>): (bits: seq<bool>)
    ensures |bits| == 8 * |data|
  {
    if data == [] then [] else AllBits(data[..|data| - 1]) + Bits(data[|data| - 1])
  }

  lemma AllBitsStart(mosi: seq<bool>)
    ensures mosi == mosi + AllBits([])
  {
  }

  lemma AllBitsNext(data: seq<uint8>, b: uint8)
    ensures AllBits(data + [b]) == AllBits(data) + Bits(b)
  {
    assert (data + [b])[..|data|] == data;
  }

  /** The bits on a wire determine the bytes. */
  lemma {:induction false} AllBitsInjective(a: seq<uint8>, b: seq<uint8>)
    requires AllBits(a) == AllBits(b)
    ensures a == b
  {
    hide Bits;
    assert |a| == |b|;
    if a != [] {
      var n := |a| - 1;
      var s := AllBits(a);
      assert s[..8 * n] == AllBits(a[..n]) && s[8 * n..] == Bits(a[n]);
      assert s[..8 * n] == AllBits(b[..n]) && s[8 * n..] == Bits(b[n]);
      AllBitsInjective(a[..n], b[..n]);
      BitsOfSame(a[n], b[n]);
      assert a == a[..n] + [a[n]] && b == b[..n] + [b[n]];
    }
  }
}
