/** Address arithmetic and CIDR enumeration (netutil/ip.go). */
module Addresses {
  import opened Arithmetic
  import opened Bytes

  function NextOf(s: seq<Byte>): (r: seq<Byte>)
    ensures |r| == |s|
  {
    if s == [] then []
    else
      var n := |s| - 1;
      if s[n] == 255 then NextOf(s[..n]) + [0] else s[..n] + [s[n] + 1]
  }

  function PrevOf(s: seq<Byte>): (r: seq<Byte>)
    ensures |r| == |s|
  {
    if s == [] then []
    else
      var n := |s| - 1;
      if s[n] == 0 then PrevOf(s[..n]) + [255] else s[..n] + [s[n] - 1]
  }

  lemma {:induction false} NextOfWraps(s: seq<Byte>)
    ensures Value(NextOf(s)) == if Value(s) + 1 == Pow256(|s|) then 0 else Value(s) + 1
  {
    if s != [] {
      var n := |s| - 1;
      var head := s[..n];
      ValueBound(head);
      if s[n] == 255 {
        NextOfWraps(head);
        assert NextOf(s)[..n] == NextOf(head);
      } else {
        assert NextOf(s)[..n] == head;
      }
    }
  }

  lemma {:induction false} PrevUndoesNext(s: seq<Byte>)
    ensures PrevOf(NextOf(s)) == s
    ensures NextOf(PrevOf(s)) == s
  {
    if s != [] {
      var n := |s| - 1;
      PrevUndoesNext(s[..n]);
      assert s == s[..n] + [s[n]];
      assert NextOf(s)[..n] == (if s[n] == 255 then NextOf(s[..n]) else s[..n]);
      assert PrevOf(s)[..n] == (if s[n] == 0 then PrevOf(s[..n]) else s[..n]);
    }
  }

  lemma {:induction false} PrevOfWraps(s: seq<Byte>)
    ensures Value(PrevOf(s)) == if Value(s) == 0 then Pow256(|s|) - 1 else Value(s) - 1
  {
    ValueBound(PrevOf(s));
    PrevUndoesNext(s);
    NextOfWraps(PrevOf(s));
  }

  lemma {:induction false} CarriedIsNext(s: seq<Byte>, r: seq<Byte>, i: int)
    requires |r| == |s| && -1 <= i < |s|
    requires forall k :: 0 <= k < i ==> r[k] == s[k]
    requires i >= 0 ==> s[i] < 255 && r[i] == s[i] + 1
    requires forall k :: i < k < |s| ==> s[k] == 255 && r[k] == 0
    ensures r == NextOf(s)
  {
    if i < |s| - 1 {
      CarriedIsNext(s[..|s| - 1], r[..|s| - 1], i);
    }
  }

  lemma {:induction false} BorrowedIsPrev(s: seq<Byte>, r: seq<Byte>, i: int)
    requires |r| == |s| && -1 <= i < |s|
    requires forall k :: 0 <= k < i ==> r[k] == s[k]
    requires i >= 0 ==> s[i] > 0 && r[i] == s[i] - 1
    requires forall k :: i < k < |s| ==> s[k] == 0 && r[k] == 255
    ensures r == PrevOf(s)
  {
    if i < |s| - 1 {
      BorrowedIsPrev(s[..|s| - 1], r[..|s| - 1], i);
    }
  }

  /** Successor modulo 256^n of an address of any length n. */
  method NextIP(ip: seq<Byte>) returns (next: seq<Byte>)
    ensures |next| == |ip|
    ensures Value(next) == if Value(ip) + 1 == Pow256(|ip|) then 0 else Value(ip) + 1
  {
    var n := |ip|;
    var result := new Byte[n](i requires 0 <= i < n => ip[i]);
    var i := n - 1;
    while i >= 0
      invariant -1 <= i < n
      invariant forall k :: 0 <= k <= i ==> result[k] == ip[k]
      invariant forall k :: i < k < n ==> ip[k] == 255 && result[k] == 0
    {
      result[i] := if result[i] == 255 then 0 else result[i] + 1;
      if result[i] != 0 {
        break;
      }
      i := i - 1;
    }
    next := result[..];
    CarriedIsNext(ip, next, i);
    NextOfWraps(ip);
  }

  /** Predecessor modulo 256^n. */
  method PrevIP(ip: seq<Byte>) returns (prev: seq<Byte>)
    ensures |prev| == |ip|
    ensures Value(prev) == if Value(ip) == 0 then Pow256(|ip|) - 1 else Value(ip) - 1
  {
    var n := |ip|;
    var result := new Byte[n](i requires 0 <= i < n => ip[i]);
    var i := n - 1;
    while i >= 0
      invariant -1 <= i < n
      invariant forall k :: 0 <= k <= i ==> result[k] == ip[k]
      invariant forall k :: i < k < n ==> ip[k] == 0 && result[k] == 255
    {
      if result[i] > 0 {
        result[i] := result[i] - 1;
        break;
      }
      result[i] := 255;
      i := i - 1;
    }
    prev := result[..];
    BorrowedIsPrev(ip, prev, i);
    PrevOfWraps(ip);
  }

  // ---- IPv4 addresses as 32-bit numbers ----

  function IPToUint32(ip: seq<Byte>): nat {
    match To4(ip)
    case Some(v4) => Value(v4)
    case None => 0
  }

  function Uint32ToIP(n: nat): (ip: seq<Byte>)
    ensures |ip| == 4
  {
    FromValue(n, 4)
  }

  lemma Uint32RoundTrip(n: nat, ip: seq<Byte>)
    requires n < 0x1_0000_0000
    ensures IPToUint32(Uint32ToIP(n)) == n
    ensures To4(ip).Some? ==> Uint32ToIP(IPToUint32(ip)) == To4(ip).value
  {
    assert Pow256(4) == 0x1_0000_0000;
    ValueOfFromValue(n, 4);
    if To4(ip).Some? {
      FromValueOfValue(To4(ip).value);
    }
  }

  /** The sixteen-byte form of an IPv4 address. */
  function Mapped(v4: seq<Byte>): seq<Byte> {
    [0, 0, 0, 0, 0, 0, 0, 0, 0, 0, 255, 255] + v4
  }

  /** Both forms of an IPv4 address stand for it; an address of any other length, or another prefix, is none. */
  lemma {:induction false} BothForms(v4: seq<Byte>, ip: seq<Byte>)
    requires |v4| == 4
    ensures To4(v4) == To4(Mapped(v4)) == Some(v4)
    ensures IPToUint32(Mapped(v4)) == IPToUint32(v4) == Value(v4)
    ensures To4(ip).Some? ==> ip == To4(ip).value || ip == Mapped(To4(ip).value)
    ensures To4(ip).None? ==> IPToUint32(ip) == 0
  {
    assert Mapped(v4)[12..] == v4;
  }

  // ---- CIDR blocks ----

  /** What net.ParseCIDR accepts: a 4- or 16-byte address and a prefix length that fits it. */
  datatype CIDR = CIDR(ip: seq<Byte>, ones: nat) {
    ghost predicate Valid() {
      (|ip| == 4 || |ip| == 16) && ones <= 8 * |ip|
    }

    function HostBits(): nat
      requires ones <= 8 * |ip|
    {
      8 * |ip| - ones
    }
  }

  /** Bitwise AND and OR of n-bit numbers. */
  function AndBits(a: nat, b: nat, n: nat): (r: nat)
    ensures r < Pow2(n)
  {
    if n == 0 then 0
    else 2 * AndBits(a / 2, b / 2, n - 1) + if a % 2 == 1 && b % 2 == 1 then 1 else 0
  }

  function OrBits(a: nat, b: nat, n: nat): (r: nat)
    ensures r < Pow2(n)
  {
    if n == 0 then 0
    else 2 * OrBits(a / 2, b / 2, n - 1) + if a % 2 == 1 || b % 2 == 1 then 1 else 0
  }

  function And(a: Byte, b: Byte): Byte {
    assert Pow2(8) == 256;
    AndBits(a, b, 8)
  }

  /** a | ^b on bytes. */
  function OrNot(a: Byte, b: Byte): Byte {
    assert Pow2(8) == 256;
    OrBits(a, 255 - b, 8)
  }

  /** a with its h lowest bits cleared. */
  function Round(a: nat, h: nat): nat {
    if h == 0 then a else 2 * Round(a / 2, h - 1)
  }

  lemma {:induction false} AndRounds(a: nat, h: nat, n: nat)
    requires h <= n && a < Pow2(n)
    ensures Pow2(h) <= Pow2(n) && AndBits(a, Pow2(n) - Pow2(h), n) == Round(a, h)
  {
    if n > 0 {
      var h' := if h == 0 then 0 else h - 1;
      AndRounds(a / 2, h', n - 1);
      var b := Pow2(n) - Pow2(h);
      assert b / 2 == Pow2(n - 1) - Pow2(h') && b % 2 == (if h == 0 then 1 else 0);
    }
  }

  lemma {:induction false} OrFills(a: nat, h: nat, n: nat)
    requires h <= n && a < Pow2(n)
    ensures OrBits(Round(a, h), Pow2(h) - 1, n) == Round(a, h) + Pow2(h) - 1
  {
    if n > 0 {
      var h' := if h == 0 then 0 else h - 1;
      OrFills(a / 2, h', n - 1);
      var b := Pow2(h) - 1;
      assert b / 2 == Pow2(h') - 1 && b % 2 == (if h == 0 then 0 else 1);
    }
  }

  /** Rounding down puts a number into an interval of length 2^h. */
  lemma {:induction false} SameRound(x: nat, y: nat, h: nat)
    ensures Round(x, h) == Round(y, h) <==> Round(x, h) <= y < Round(x, h) + Pow2(h)
  {
    if h > 0 {
      SameRound(x / 2, y / 2, h - 1);
    }
  }

  function Shift(v: nat, k: nat): nat {
    if k == 0 then v else 2 * Shift(v, k - 1)
  }

  lemma {:induction false} ShiftByte(v: nat)
    ensures Shift(v, 8) == 256 * v
  {
    assert Shift(v, 1) == 2 * v;
    assert Shift(v, 3) == 4 * Shift(v, 1);
    assert Shift(v, 5) == 4 * Shift(v, 3);
    assert Shift(v, 7) == 4 * Shift(v, 5);
  }

  lemma {:induction false} ShiftPow2(h: nat, k: nat)
    ensures Pow2(h + k) == Shift(Pow2(h), k)
  {
    if k > 0 {
      ShiftPow2(h, k - 1);
      assert h + k - 1 == h + (k - 1);
    }
  }

  lemma {:induction false} RoundHigh(v: nat, low: nat, h: nat, k: nat)
    requires low < Pow2(k)
    ensures Round(Shift(v, k) + low, h + k) == Shift(Round(v, h), k)
  {
    if k > 0 {
      assert (Shift(v, k) + low) / 2 == Shift(v, k - 1) + low / 2;
      RoundHigh(v, low / 2, h, k - 1);
    }
  }

  lemma {:induction false} RoundLow(v: nat, low: nat, h: nat, k: nat)
    requires h <= k
    ensures Round(Shift(v, k) + low, h) == Shift(v, k) + Round(low, h)
  {
    if h > 0 {
      assert (Shift(v, k) + low) / 2 == Shift(v, k - 1) + low / 2;
      RoundLow(v, low / 2, h - 1, k - 1);
    }
  }

  /** Host bits inside byte i of an address whose mask has the given number of leading ones. */
  function ByteHostBits(ones: nat, i: nat): (h: nat)
    ensures h <= 8
  {
    if ones >= 8 * i + 8 then 0 else if ones <= 8 * i then 8 else 8 * i + 8 - ones
  }

  function MaskByte(ones: nat, i: nat): (m: Byte) {
    Pow2Of8();
    AndRounds(0, ByteHostBits(ones, i), 8);
    256 - Pow2(ByteHostBits(ones, i))
  }

  lemma {:induction false} Pow2Of8()
    ensures Pow2(8) == 256
  {
  }

  function Masked(a: seq<Byte>, ones: nat): (r: seq<Byte>)
    ensures |r| == |a|
  {
    seq(|a|, i requires 0 <= i < |a| => And(a[i], MaskByte(ones, i)))
  }

  function NetworkOf(c: CIDR): seq<Byte> {
    Masked(c.ip, c.ones)
  }

  /** Membership as net.IPNet defines it: equal to the network once masked. */
  ghost predicate InBlock(c: CIDR, a: seq<Byte>) {
    |a| == |c.ip| && Masked(a, c.ones) == NetworkOf(c)
  }

  lemma {:induction false} MaskByteRounds(b: Byte, ones: nat, i: nat)
    ensures var h := ByteHostBits(ones, i);
            && And(b, MaskByte(ones, i)) == Round(b, h)
            && OrNot(And(b, MaskByte(ones, i)), MaskByte(ones, i)) == Round(b, h) + Pow2(h) - 1
  {
    var h := ByteHostBits(ones, i);
    Pow2Of8();
    AndRounds(b, h, 8);
    OrFills(b, h, 8);
    assert MaskByte(ones, i) == Pow2(8) - Pow2(h) && 255 - MaskByte(ones, i) == Pow2(h) - 1;
  }

  lemma {:induction false} FullMask(a: seq<Byte>, ones: nat)
    requires ones >= 8 * |a|
    ensures Masked(a, ones) == a
  {
    forall i | 0 <= i < |a| ensures Masked(a, ones)[i] == a[i] {
      MaskByteRounds(a[i], ones, i);
    }
  }

  lemma {:induction false} RoundHighByte(v: nat, last: Byte, h: nat)
    requires h >= 8
    ensures Round(256 * v + last, h) == 256 * Round(v, h - 8)
  {
    Pow2Of8();
    ShiftByte(v);
    ShiftByte(Round(v, h - 8));
    RoundHigh(v, last, h - 8, 8);
  }

  lemma {:induction false} RoundLowByte(v: nat, last: Byte, h: nat)
    requires h <= 8
    ensures Round(256 * v + last, h) == 256 * v + Round(last, h)
  {
    ShiftByte(v);
    RoundLow(v, last, h, 8);
  }

  lemma {:induction false} Pow2HighByte(h: nat)
    requires h >= 8
    ensures Pow2(h) == 256 * Pow2(h - 8)
  {
    ShiftPow2(h - 8, 8);
    ShiftByte(Pow2(h - 8));
  }

  /** The last byte of a masked address, and the rest of it. */
  lemma {:induction false} MaskedSplit(a: seq<Byte>, ones: nat)
    requires a != []
    ensures var n := |a| - 1;
            Value(Masked(a, ones)) == 256 * Value(Masked(a[..n], ones)) + Round(a[n], ByteHostBits(ones, n))
  {
    var n := |a| - 1;
    MaskByteRounds(a[n], ones, n);
    assert Masked(a, ones)[..n] == Masked(a[..n], ones);
  }

  /** Masking an address clears its host bits, wherever they end. */
  lemma {:induction false} MaskedValue(a: seq<Byte>, ones: nat)
    requires ones <= 8 * |a|
    ensures Value(Masked(a, ones)) == Round(Value(a), 8 * |a| - ones)
  {
    if a != [] {
      if ones <= 8 * (|a| - 1) {
        MaskedValue(a[..|a| - 1], ones);
        MaskEndsBefore(a, ones);
      } else {
        MaskEndsInside(a, ones);
      }
    }
  }

  lemma {:induction false} MaskEndsBefore(a: seq<Byte>, ones: nat)
    requires a != [] && ones <= 8 * (|a| - 1)
    requires var head := a[..|a| - 1]; Value(Masked(head, ones)) == Round(Value(head), 8 * |head| - ones)
    ensures Value(Masked(a, ones)) == Round(Value(a), 8 * |a| - ones)
  {
    var n := |a| - 1;
    MaskedSplit(a, ones);
    RoundHighByte(Value(a[..n]), a[n], 8 * |a| - ones);
    LowByteIsCleared(a[n]);
    assert ByteHostBits(ones, n) == 8;
  }

  lemma {:induction false} LowByteIsCleared(b: Byte)
    ensures Round(b, 8) == 0
  {
    RoundHighByte(0, b, 8);
  }

  lemma {:induction false} MaskEndsInside(a: seq<Byte>, ones: nat)
    requires a != [] && 8 * (|a| - 1) < ones <= 8 * |a|
    ensures Value(Masked(a, ones)) == Round(Value(a), 8 * |a| - ones)
  {
    var n := |a| - 1;
    MaskedSplit(a, ones);
    FullMask(a[..n], ones);
    RoundLowByte(Value(a[..n]), a[n], 8 * |a| - ones);
  }

  /** Bytewise start | ^mask, the last address of the block. */
  function LastOf(start: seq<Byte>, ones: nat): (r: seq<Byte>)
    ensures |r| == |start|
  {
    seq(|start|, i requires 0 <= i < |start| => OrNot(start[i], MaskByte(ones, i)))
  }

  /** How far the last address lies behind the network, byte by byte. */
  function HostSpan(ones: nat, n: nat): int {
    if n == 0 then 0 else 256 * HostSpan(ones, n - 1) + Pow2(ByteHostBits(ones, n - 1)) - 1
  }

  lemma {:induction false} HostSpanIsPower(ones: nat, n: nat)
    ensures HostSpan(ones, n) == if ones <= 8 * n then Pow2(8 * n - ones) - 1 else 0
  {
    if n > 0 {
      HostSpanIsPower(ones, n - 1);
      Pow2Of8();
      if ones <= 8 * (n - 1) {
        Pow2HighByte(8 * n - ones);
      }
    }
  }

  lemma {:induction false} LastBySpan(a: seq<Byte>, ones: nat)
    ensures Value(LastOf(Masked(a, ones), ones)) == Value(Masked(a, ones)) + HostSpan(ones, |a|)
  {
    if a != [] {
      var n := |a| - 1;
      LastBySpan(a[..n], ones);
      MaskByteRounds(a[n], ones, n);
      assert LastOf(Masked(a, ones), ones)[..n] == LastOf(Masked(a[..n], ones), ones);
      assert Masked(a, ones)[..n] == Masked(a[..n], ones);
    }
  }

  lemma {:induction false} LastValue(a: seq<Byte>, ones: nat)
    requires ones <= 8 * |a|
    ensures Value(LastOf(Masked(a, ones), ones)) == Value(Masked(a, ones)) + Pow2(8 * |a| - ones) - 1
  {
    LastBySpan(a, ones);
    HostSpanIsPower(ones, |a|);
  }

  /** The block is exactly the interval of 2^hostBits values that starts at its network address. */
  lemma {:induction false} BlockIsInterval(c: CIDR, a: seq<Byte>)
    requires c.Valid() && |a| == |c.ip|
    ensures var net := Value(NetworkOf(c));
            InBlock(c, a) <==> net <= Value(a) < net + Pow2(c.HostBits())
  {
    MaskedValue(c.ip, c.ones);
    MaskedValue(a, c.ones);
    SameRound(Value(c.ip), Value(a), c.HostBits());
    if Value(Masked(a, c.ones)) == Value(NetworkOf(c)) {
      ValueInjective(Masked(a, c.ones), NetworkOf(c));
    }
  }

  lemma {:induction false} LastInBlock(c: CIDR)
    requires c.Valid()
    ensures var start, end := NetworkOf(c), LastOf(NetworkOf(c), c.ones);
            && Value(end) == Value(start) + Pow2(c.HostBits()) - 1
            && InBlock(c, start) && InBlock(c, end)
  {
    LastValue(c.ip, c.ones);
    BlockIsInterval(c, NetworkOf(c));
    BlockIsInterval(c, LastOf(NetworkOf(c), c.ones));
  }

  datatype IPRange = IPRange(start: seq<Byte>, end: seq<Byte>)

  /** First and last address of a block: the whole block is the interval between them. */
  method ParseCIDRRange(c: CIDR) returns (r: IPRange)
    requires c.Valid()
    ensures r.start == NetworkOf(c) && |r.end| == |c.ip|
    ensures Value(r.end) == Value(r.start) + Pow2(c.HostBits()) - 1
    ensures InBlock(c, r.start) && InBlock(c, r.end)
  {
    var start := NetworkOf(c);
    var n := |start|;
    var end := new Byte[n](i requires 0 <= i < n => start[i]);
    for i := 0 to n
      invariant end[..i] == LastOf(start, c.ones)[..i]
    {
      end[i] := OrNot(start[i], MaskByte(c.ones, i));
    }
    r := IPRange(start, end[..]);
    assert r.end == LastOf(start, c.ones);
    LastInBlock(c);
  }

  /** The addresses sent on the channel: the whole block, in ascending order, each exactly once. */
  method GenerateIPsInCIDR(c: CIDR) returns (sent: seq<seq<Byte>>)
    requires c.Valid()
    ensures |sent| == Pow2(c.HostBits())
    ensures forall i :: 0 <= i < |sent| ==>
              InBlock(c, sent[i]) && Value(sent[i]) == Value(NetworkOf(c)) + i
  {
    var r := ParseCIDRRange(c);
    ghost var net := Value(r.start);
    ValueBound(r.end);
    var current := r.start;
    sent := [current];
    while current != r.end
      invariant |current| == |c.ip|
      invariant |sent| >= 1 && Value(current) == net + |sent| - 1 <= Value(r.end)
      invariant forall i :: 0 <= i < |sent| ==> InBlock(c, sent[i]) && Value(sent[i]) == net + i
      decreases Value(r.end) - Value(current)
    {
      if Value(current) == Value(r.end) {
        ValueInjective(current, r.end);
        assert false;
      }
      current := NextIP(current);
      BlockIsInterval(c, current);
      sent := sent + [current];
    }
  }

  /** Nothing of the block is missing: an address is sent if and only if it is in the block. */
  lemma {:induction false} GeneratedIffInBlock(c: CIDR, sent: seq<seq<Byte>>, a: seq<Byte>)
    requires c.Valid() && |sent| == Pow2(c.HostBits())
    requires forall i :: 0 <= i < |sent| ==>
               InBlock(c, sent[i]) && Value(sent[i]) == Value(NetworkOf(c)) + i
    ensures a in sent <==> InBlock(c, a)
  {
    if InBlock(c, a) {
      BlockIsInterval(c, a);
      var i := Value(a) - Value(NetworkOf(c));
      ValueInjective(a, sent[i]);
    }
  }

  /** 1 << hostBits in 64-bit arithmetic. */
  function CountIPsInCIDR(c: CIDR): nat
    requires c.ones <= 8 * |c.ip|
  {
    Pow2(c.HostBits()) % 0x1_0000_0000_0000_0000
  }

  /** The 64-bit count is the size of the block exactly when there are fewer than 64 host bits. */
  lemma {:induction false} CountIsExactIff(c: CIDR)
    requires c.Valid()
    ensures CountIPsInCIDR(c) == Pow2(c.HostBits()) <==> c.HostBits() < 64
  {
    Pow2Of64();
    var h := c.HostBits();
    if h < 64 {
      Pow2Add(h, 64 - h);
      if Pow2(64 - h) == 1 {
        assert false;
      }
      MulGap(Pow2(h), 1, Pow2(64 - h));
      DivModUnique(Pow2(h), Pow2(64), 0, Pow2(h));
    } else {
      Pow2Add(64, h - 64);
      DivModUnique(Pow2(h), Pow2(64), Pow2(h - 64), 0);
    }
  }

  lemma Pow2Of64()
    ensures Pow2(64) == 0x1_0000_0000_0000_0000
  {
    Pow2Bytes(8);
    assert Pow256(4) == 0x1_0000_0000;
    assert Pow256(8) == 256 * (256 * (256 * (256 * Pow256(4))));
  }
}
