/** The ICMP checksum and echo request of path MTU discovery (mtu/discovery.go; RFC 792 and RFC 1071). */
module IcmpChecksum {
  import opened Arithmetic
  import opened Bytes

  const WORD32 := 0x1_0000_0000


  function Word(high: Byte, low: Byte): nat {
    256 * high + low
  }

  /** The exact sum of the big-endian 16-bit words; an odd last byte is the high half of a word. */
  function WordSum(data: seq<Byte>): nat {
    if data == [] then 0
    else if |data| == 1 then Word(data[0], 0)
    else Word(data[0], data[1]) + WordSum(data[2..])
  }

  lemma {:induction false} ResidueOfSum(q: nat, x: nat)
    ensures (0xFFFF * q + x) % 0xFFFF == x % 0xFFFF
  {
    var a, b := x / 0xFFFF, x % 0xFFFF;
    DivModUnique(0xFFFF * q + x, 0xFFFF, q + a, b);
  }

  /** The value to which adding carries back in reduces a sum: its ones' complement residue. */
  function Folded(n: nat): Uint16 {
    if n == 0 then 0 else if n % 0xFFFF == 0 then 0xFFFF else n % 0xFFFF
  }

  /** One round of folding keeps it. */
  lemma {:induction false} FoldStep(n: nat)
    ensures Folded(n / 0x1_0000 + n % 0x1_0000) == Folded(n)
  {
    var q, r := n / 0x1_0000, n % 0x1_0000;
    assert n == 0xFFFF * q + (q + r);
    ResidueOfSum(q, q + r);
  }

  /** The checksum as the code computes it, with a 32-bit accumulator. */
  function Checksum(data: seq<Byte>): Uint16 {
    0xFFFF - Folded(WordSum(data) % WORD32)
  }

  lemma {:induction false} WordSumStep(data: seq<Byte>, i: nat)
    requires i + 1 < |data|
    ensures WordSum(data[i..]) == Word(data[i], data[i + 1]) + WordSum(data[i + 2..])
  {
    assert data[i..][2..] == data[i + 2..];
  }

  method CalculateChecksum(data: seq<Byte>) returns (c: Uint16)
    ensures c == Checksum(data)
  {
    var sum, carries := SumWords(data);
    SumIsModulo(data, carries, sum);
    c := FoldSum(sum);
  }

  lemma {:induction false} SumIsModulo(data: seq<Byte>, carries: nat, sum: nat)
    requires sum < WORD32 && Total(carries, sum) == WordSum(data)
    ensures sum == WordSum(data) % WORD32
  {
    TimesIsProduct(carries, WORD32);
    DivModUnique(WordSum(data), WORD32, carries, sum);
  }

  /** The 32-bit sum, and how many carries out of it are lost. */
  method SumWords(data: seq<Byte>) returns (sum: nat, ghost carries: nat)
    ensures sum < WORD32 && Total(carries, sum) == WordSum(data)
  {
    sum, carries := 0, 0;
    var length := |data|;
    var i := 0;
    ghost var words: nat := 0;
    assert data[0..] == data;
    while i < length - 1
      invariant i == 2 * words <= length && sum < WORD32
      invariant Total(carries, sum) + WordSum(data[i..]) == WordSum(data)
      decreases length - i
    {
      WordSumStep(data, i);
      sum, carries := AddUint32(sum, carries, Word(data[i], data[i + 1]));
      i, words := i + 2, words + 1;
    }
    OddByteIsLeft(length, words);
    if length % 2 == 1 {
      assert data[i..] == [data[length - 1]];
      sum, carries := AddUint32(sum, carries, Word(data[length - 1], 0));
    } else {
      assert data[i..] == [];
    }
  }

  lemma {:induction false} OddByteIsLeft(length: nat, words: nat)
    requires length - 1 <= 2 * words <= length
    ensures length % 2 == 1 <==> 2 * words == length - 1
  {
  }

  /** The exact sum behind a 32-bit one. */
  ghost function Total(carries: nat, sum: nat): int {
    Times(carries, WORD32) + sum
  }

  /** Addition of unsigned 32-bit numbers, which drops the carry. */
  method AddUint32(a: nat, ghost carries: nat, b: nat) returns (sum: nat, ghost after: nat)
    requires a < WORD32 && b < WORD32
    ensures sum < WORD32 && Total(after, sum) == Total(carries, a) + b
  {
    sum := if a + b >= WORD32 then a + b - WORD32 else a + b;
    after := if a + b >= WORD32 then carries + 1 else carries;
  }

  method FoldSum(total: nat) returns (c: Uint16)
    ensures c == 0xFFFF - Folded(total)
  {
    var sum := total;
    while sum > 0xFFFF
      invariant sum >= 0 && Folded(sum) == Folded(total)
    {
      FoldStep(sum);
      sum := sum / 0x1_0000 + sum % 0x1_0000;
    }
    c := 0xFFFF - sum;
  }

  /** A draft has zeros in bytes 2 and 3, where the finished message has the checksum. */
  function WithChecksum(draft: seq<Byte>): (r: seq<Byte>)
    requires |draft| >= 4
  {
    draft[..2] + FromValue(Checksum(draft), 2) + draft[4..]
  }

  lemma {:induction false} PatchAddsUp(draft: seq<Byte>, c: Uint16, msg: seq<Byte>)
    requires |draft| >= 4 && draft[2] == draft[3] == 0
    requires msg == draft[..2] + FromValue(c, 2) + draft[4..]
    ensures WordSum(msg) == WordSum(draft) + c
  {
    assert Pow256(2) == 0x1_0000;
    ValueOfFromValue(c, 2);
    var f := FromValue(c, 2);
    assert Value(f) == Word(f[0], f[1]) by {
      assert f[..1] == [f[0]];
    }
    WordSumStep(draft, 0);
    WordSumStep(draft, 2);
    WordSumStep(msg, 0);
    WordSumStep(msg, 2);
    assert draft[0..] == draft && msg[0..] == msg && msg[4..] == draft[4..];
  }

  lemma {:induction false} ChecksumAddsUp(draft: seq<Byte>)
    requires |draft| >= 4 && draft[2] == draft[3] == 0
    ensures WordSum(WithChecksum(draft)) == WordSum(draft) + Checksum(draft)
  {
    PatchAddsUp(draft, Checksum(draft), WithChecksum(draft));
  }

  /** Adding the checksum to the 32-bit sum never carries out of 32 bits, and makes it a multiple of 65535. */
  lemma {:induction false} ComplementFits(s: nat)
    requires s < WORD32
    ensures var c := 0xFFFF - Folded(s);
            0 < s + c < WORD32 && (s + c) % 0xFFFF == 0
  {
    var q, r := s / 0xFFFF, s % 0xFFFF;
    assert s == 0xFFFF * q + r;
    var c := 0xFFFF - Folded(s);
    if s == 0 {
      DivModUnique(s + c, 0xFFFF, 1, 0);
    } else if r == 0 {
      assert s + c == 0xFFFF * q;
    } else {
      DivModUnique(s + c, 0xFFFF, q + 1, 0);
    }
  }

  /**
   The finished message verifies: recomputing the checksum over it gives zero, for every kind, identifier,
   sequence number and body of any length, odd lengths and 32-bit overflow of the sum included.
   */
  lemma {:induction false} SelfVerifying(draft: seq<Byte>)
    requires |draft| >= 4 && draft[2] == draft[3] == 0
    ensures Checksum(WithChecksum(draft)) == 0
  {
    var t := WordSum(draft);
    var s, w := t % WORD32, t / WORD32;
    var c := Checksum(draft);
    ComplementFits(s);
    ChecksumAddsUp(draft);
    assert t + c == WORD32 * w + (s + c);
    DivModUnique(t + c, WORD32, w, s + c);
  }

  /** RFC 1071: the exact sum over a valid message is a positive multiple of 65535. */
  ghost predicate ValidByRFC1071(data: seq<Byte>) {
    WordSum(data) > 0 && WordSum(data) % 0xFFFF == 0
  }

  /** The message is valid in the exact sense if and only if the number of lost carries is a multiple of 65535. */
  lemma {:induction false} ConformsIff(draft: seq<Byte>)
    requires |draft| >= 4 && draft[2] == draft[3] == 0
    ensures ValidByRFC1071(WithChecksum(draft)) <==> (WordSum(draft) / WORD32) % 0xFFFF == 0
  {
    ChecksumAddsUp(draft);
    FinishedSum(WordSum(draft));
  }

  lemma {:induction false} FinishedSum(t: nat)
    ensures var c := 0xFFFF - Folded(t % WORD32);
            t + c > 0 && ((t + c) % 0xFFFF == 0 <==> (t / WORD32) % 0xFFFF == 0)
  {
    var s, w := t % WORD32, t / WORD32;
    ComplementFits(s);
    var c := 0xFFFF - Folded(s);
    LostCarries(t + c, w, s + c);
  }

  lemma {:induction false} LostCarries(t: nat, w: nat, s: nat)
    requires t == WORD32 * w + s && s % 0xFFFF == 0
    ensures t % 0xFFFF == w % 0xFFFF
  {
    var k := s / 0xFFFF;
    assert t == 0xFFFF * (0x1_0001 * w + k) + w;
    ResidueOfSum(0x1_0001 * w + k, w);
  }

  lemma {:induction false} WordSumBound(data: seq<Byte>)
    ensures 2 * WordSum(data) <= 0xFFFF * (|data| + 1)
    ensures |data| % 2 == 0 ==> 2 * WordSum(data) <= 0xFFFF * |data|
  {
    if |data| >= 2 {
      WordSumBound(data[2..]);
    }
  }

  /** No carry is lost up to 131076 bytes, far beyond any probe, so those messages conform. */
  lemma {:induction false} ShortMessagesConform(draft: seq<Byte>)
    requires 4 <= |draft| <= 131076 && draft[2] == draft[3] == 0
    ensures ValidByRFC1071(WithChecksum(draft))
  {
    ShortSum(draft);
    assert WordSum(draft) / WORD32 == 0;
    ConformsIff(draft);
  }

  lemma {:induction false} ShortSum(draft: seq<Byte>)
    requires 4 <= |draft| <= 131076 && draft[2] == draft[3] == 0
    ensures WordSum(draft) < WORD32
  {
    WordSumStep(draft, 0);
    WordSumStep(draft, 2);
    assert draft[0..] == draft;
    WordSumBound(draft[4..]);
    assert Word(draft[0], draft[1]) <= 0xFFFF && Word(draft[2], draft[3]) == 0;
    HalfBound(|draft[4..]|, WordSum(draft[4..]));
  }

  lemma {:induction false} HalfBound(n: nat, sum: nat)
    requires n <= 131072 && 2 * sum <= 0xFFFF * (n + 1)
    requires n % 2 == 0 ==> 2 * sum <= 0xFFFF * n
    ensures sum <= 65536 * 0xFFFF
  {
  }

  function Layout(kind: Byte, checksum: Uint16, id: Uint16, number: Uint16, body: seq<Byte>): (r: seq<Byte>)
    ensures |r| == 8 + |body|
  {
    [kind, 0] + FromValue(checksum, 2) + FromValue(id, 2) + FromValue(number, 2) + body
  }

  lemma {:induction false} LayoutFields(kind: Byte, checksum: Uint16, id: Uint16, number: Uint16, body: seq<Byte>)
    ensures var msg := Layout(kind, checksum, id, number, body);
            && msg[0] == kind && msg[1] == 0 && msg[2..4] == FromValue(checksum, 2)
            && msg[4..6] == FromValue(id, 2) && msg[6..8] == FromValue(number, 2) && msg[8..] == body
  {
  }

  /** The message as it is sent: the layout with the checksum of its draft. */
  function Echo(kind: Byte, id: Uint16, number: Uint16, body: seq<Byte>): (msg: seq<Byte>)
    ensures |msg| == 8 + |body|
  {
    Layout(kind, Checksum(Layout(kind, 0, id, number, body)), id, number, body)
  }

  lemma {:induction false} EchoIsPatchedDraft(kind: Byte, id: Uint16, number: Uint16, body: seq<Byte>)
    ensures var draft := Layout(kind, 0, id, number, body);
            draft[2] == draft[3] == 0 && Echo(kind, id, number, body) == WithChecksum(draft)
  {
    var draft := Layout(kind, 0, id, number, body);
    LayoutFields(kind, 0, id, number, body);
    assert draft[2..4] == [0, 0];
    assert draft[2] == draft[2..4][0] && draft[3] == draft[2..4][1];
  }

  lemma {:induction false} EchoVerifies(kind: Byte, id: Uint16, number: Uint16, body: seq<Byte>)
    ensures Checksum(Echo(kind, id, number, body)) == 0
    ensures |body| <= 131068 ==> ValidByRFC1071(Echo(kind, id, number, body))
  {
    var draft := Layout(kind, 0, id, number, body);
    EchoIsPatchedDraft(kind, id, number, body);
    SelfVerifying(draft);
    if |body| <= 131068 {
      ShortMessagesConform(draft);
    }
  }

  // ---- Bodies long enough to lose a carry ----

  function Fill(b: Byte, n: nat): seq<Byte> {
    seq(n, _ => b)
  }

  lemma {:induction false} WordSumFill(b: Byte, k: nat, tail: seq<Byte>)
    ensures WordSum(Fill(b, 2 * k) + tail) == Times(k, Word(b, b)) + WordSum(tail)
  {
    var data := Fill(b, 2 * k) + tail;
    if k == 0 {
      assert data == tail;
    } else {
      assert data[2..] == Fill(b, 2 * (k - 1)) + tail;
      WordSumFill(b, k - 1, tail);
    }
  }

  lemma {:induction false} WordSumZeros(n: nat)
    ensures WordSum(Fill(0, n)) == 0
  {
    if n >= 2 {
      assert Fill(0, n)[2..] == Fill(0, n - 2);
      WordSumZeros(n - 2);
    }
  }

  /** Bytes of 255 as far as they are needed, and zeros. */
  function LongBody(n: nat): (body: seq<Byte>)
    requires n >= 131069
    ensures |body| == n
  {
    Fill(255, 131068) + ([255] + Fill(0, n - 131069))
  }

  lemma {:induction false} LongBodySum(n: nat)
    requires n >= 131069
    ensures WordSum(LongBody(n)) == 65534 * 0xFFFF + 0xFF00
  {
    var tail := [255] + Fill(0, n - 131069);
    WordSumFill(255, 65534, tail);
    TimesIsProduct(65534, 0xFFFF);
    if |tail| > 1 {
      assert tail[2..] == Fill(0, n - 131070);
      WordSumZeros(n - 131070);
    }
  }

  lemma {:induction false} LayoutSum(kind: Byte, body: seq<Byte>)
    ensures WordSum(Layout(kind, 0, 0xFFFF, 0xFFFF, body)) == 256 * kind + 2 * 0xFFFF + WordSum(body)
  {
    var draft := Layout(kind, 0, 0xFFFF, 0xFFFF, body);
    assert FromValue(0, 2) == [0, 0];
    assert FromValue(0xFFFF, 2) == [255, 255] by {
      assert FromValue(0xFFFF, 2) == FromValue(255, 1) + [255];
      assert FromValue(255, 1) == FromValue(0, 0) + [255];
    }
    assert draft == [kind, 0, 0, 0, 255, 255, 255, 255] + body;
    WordSumStep(draft, 0);
    WordSumStep(draft, 2);
    WordSumStep(draft, 4);
    WordSumStep(draft, 6);
    assert draft[0..] == draft && draft[8..] == body;
  }

  lemma {:induction false} LongEchoFails(kind: Byte, n: nat)
    requires kind > 0 && n >= 131069
    ensures !ValidByRFC1071(Echo(kind, 0xFFFF, 0xFFFF, LongBody(n)))
  {
    var draft := Layout(kind, 0, 0xFFFF, 0xFFFF, LongBody(n));
    LayoutSum(kind, LongBody(n));
    LongBodySum(n);
    EchoIsPatchedDraft(kind, 0xFFFF, 0xFFFF, LongBody(n));
    assert WORD32 <= WordSum(draft) < 2 * WORD32;
    ConformsIff(draft);
  }

  /** All echo requests with a body of a given length conform to RFC 1071 exactly up to 131068 bytes. */
  lemma {:induction false} EchoConformsIff(kind: Byte, n: nat)
    requires kind > 0
    ensures (forall id: Uint16, number: Uint16, body: seq<Byte> :: |body| == n ==>
                                                                     ValidByRFC1071(Echo(kind, id, number, body)))
            <==> n <= 131068
  {
    if n <= 131068 {
      forall id: Uint16, number: Uint16, body: seq<Byte> | |body| == n
        ensures ValidByRFC1071(Echo(kind, id, number, body))
      {
        EchoVerifies(kind, id, number, body);
      }
    } else {
      LongEchoFails(kind, n);
      assert |LongBody(n)| == n;
    }
  }

  /** The message with its checksum field still zero. */
  method DraftEcho(kind: Byte, id: Uint16, number: Uint16, body: seq<Byte>) returns (buf: array<Byte>)
    ensures fresh(buf) && buf[..] == Layout(kind, 0, id, number, body)
  {
    var n := 8 + |body|;
    var idBytes, numberBytes := FromValue(id, 2), FromValue(number, 2);
    buf := new Byte[n](i requires 0 <= i < n => if i < 8 then 0 else body[i - 8]);
    buf[0], buf[1], buf[2], buf[3] := kind, 0, 0, 0;
    buf[4], buf[5], buf[6], buf[7] := idBytes[0], idBytes[1], numberBytes[0], numberBytes[1];
    LayoutBytes(kind, id, number, body);
    ghost var head := [kind, 0, 0, 0, idBytes[0], idBytes[1], numberBytes[0], numberBytes[1]];
    assert forall k :: 8 <= k < n ==> buf[k] == body[k - 8];
    assert forall k :: 0 <= k < n ==> buf[k] == (head + body)[k];
  }

  lemma {:induction false} LayoutBytes(kind: Byte, id: Uint16, number: Uint16, body: seq<Byte>)
    ensures var i, n := FromValue(id, 2), FromValue(number, 2);
            Layout(kind, 0, id, number, body) == [kind, 0, 0, 0, i[0], i[1], n[0], n[1]] + body
  {
    assert FromValue(0, 2) == [0, 0];
    var i, n := FromValue(id, 2), FromValue(number, 2);
    assert i == [i[0], i[1]] && n == [n[0], n[1]];
  }

  /** kind is 8 for ICMP and 128 for ICMPv6. */
  method BuildICMPEchoRequest(kind: Byte, id: Uint16, number: Uint16, body: seq<Byte>) returns (msg: seq<Byte>)
    ensures |msg| == 8 + |body| && msg[0] == kind && msg[1] == 0
    ensures Value(msg[4..6]) == id && Value(msg[6..8]) == number && msg[8..] == body
    ensures Checksum(msg) == 0
    ensures |body| <= 131068 ==> ValidByRFC1071(msg)
  {
    var buf := DraftEcho(kind, id, number, body);
    var checksum := CalculateChecksum(buf[..]);
    var sumBytes := FromValue(checksum, 2);
    buf[2], buf[3] := sumBytes[0], sumBytes[1];
    msg := buf[..];
    assert msg == Layout(kind, checksum, id, number, body);
    LayoutFields(kind, checksum, id, number, body);
    EchoVerifies(kind, id, number, body);
    assert Pow256(2) == 0x1_0000;
    ValueOfFromValue(id, 2);
    ValueOfFromValue(number, 2);
  }
}
