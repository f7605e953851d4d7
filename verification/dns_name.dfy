/**
 Host names in DNS queries: buildDNSQuery (dns/resolver.go) against parseDNSQueryHostname (dns/server.go);
 sections 3.1 and 4.1.2 of RFC 1035. Go strings are byte strings.
 */
module DnsName {
  import opened Bytes
  import opened Strings

  const DOT: Byte := 46
  const HEADER_SIZE := 12
  const MAX_LABEL := 63

  type Text = seq<Byte>

  datatype Result<T> = Ok(value: T) | LabelTooLong | QueryTooShort | InvalidFormat

  /** strings.TrimSuffix with a dot. */
  function Trimmed(name: Text): Text {
    if name != [] && name[|name| - 1] == DOT then name[..|name| - 1] else name
  }

  // ---- Specification of the two directions ----

  /** No label is too long for its length byte. */
  predicate Short(labels: seq<Text>) {
    forall i :: 0 <= i < |labels| ==> |labels[i]| <= MAX_LABEL
  }

  function EncodeLabels(labels: seq<Text>): seq<Byte>
    requires Short(labels)
  {
    if labels == [] then [] else [|labels[0]|] + labels[0] + EncodeLabels(labels[1..])
  }

  function Header(id: Uint16): (h: seq<Byte>)
    ensures |h| == HEADER_SIZE
  {
    FromValue(id, 2) + [1, 0] + [0, 1] + [0, 0] + [0, 0] + [0, 0]
  }

  function Query(name: Text, id: Uint16, qtype: Uint16): Result<seq<Byte>> {
    var labels := Split<Byte>(Trimmed(name), DOT);
    if Short(labels)
    then Ok(Header(id) + EncodeLabels(labels) + [0] + FromValue(qtype, 2) + [0, 1])
    else LabelTooLong
  }

  /** The labels at the start of the data, and how many bytes the reader steps over. */
  function ReadLabels(data: seq<Byte>): (seq<Text>, nat)
    decreases |data|
  {
    if data == [] then ([], 0)
    else
      var length: int := data[0];
      if length == 0 then ([], 1)
      else if length > MAX_LABEL then ([], 2)
      else if 1 + length > |data| then ([], 1)
      else
        var (rest, size) := ReadLabels(data[1 + length..]);
        ([data[1..1 + length]] + rest, 1 + length + size)
  }

  function Hostname(query: seq<Byte>): Result<Text> {
    if |query| < HEADER_SIZE then QueryTooShort
    else
      var (labels, size) := ReadLabels(query[HEADER_SIZE..]);
      if HEADER_SIZE + size + 4 > |query| then InvalidFormat else Ok(Join<Byte>(labels, DOT))
  }

  // ---- Round trip ----

  /** The labels in front of the first empty one, which ends the name on the wire. */
  function Visible(labels: seq<Text>): seq<Text> {
    if labels == [] || labels[0] == [] then [] else [labels[0]] + Visible(labels[1..])
  }

  lemma {:induction false} VisibleIsPrefix(labels: seq<Text>)
    ensures var r := Visible(labels);
            && |r| <= |labels| && r == labels[..|r|]
            && (|r| < |labels| ==> labels[|r|] == [])
            && (forall l :: l in r ==> l != [])
  {
    if labels != [] && labels[0] != [] {
      VisibleIsPrefix(labels[1..]);
    }
  }

  /** No label is empty. */
  predicate Visibles(labels: seq<Text>) {
    forall i :: 0 <= i < |labels| ==> labels[i] != []
  }

  /** What ends the labels: nothing, the root label, a compression pointer, or a label that is cut off. */
  predicate Stops(stop: seq<Byte>) {
    stop == [] || stop[0] == 0 || stop[0] > MAX_LABEL || |stop| <= stop[0]
  }

  /** How much of it the reader steps over. */
  function Skipped(stop: seq<Byte>): nat {
    if stop == [] then 0 else if stop[0] > MAX_LABEL then 2 else 1
  }

  lemma {:induction false} Unpack(data: seq<Byte>, x: Byte, l: Text, rest: seq<Byte>)
    requires data == [x] + l + rest
    ensures |data| > |l| && data[0] == x && data[1..1 + |l|] == l && data[1 + |l|..] == rest
  {
  }

  lemma {:induction false} Regroup(a: seq<Byte>, b: seq<Byte>, c: seq<Byte>)
    ensures (a + b) + c == a + (b + c)
  {
  }

  lemma {:induction false} ReadLabel(l: Text, rest: seq<Byte>)
    requires 0 < |l| <= MAX_LABEL
    ensures var after := ReadLabels(rest);
            ReadLabels([|l|] + l + rest) == ([l] + after.0, 1 + |l| + after.1)
  {
    Unpack([|l|] + l + rest, |l|, l, rest);
  }

  /** The reader returns the labels up to whatever stops them, and steps over the stop. */
  lemma {:induction false} ReadUpTo(labels: seq<Text>, stop: seq<Byte>)
    requires Short(labels) && Visibles(labels) && Stops(stop)
    ensures ReadLabels(EncodeLabels(labels) + stop) == (labels, |EncodeLabels(labels)| + Skipped(stop))
    decreases |labels|
  {
    if labels == [] {
      assert EncodeLabels(labels) + stop == stop;
      ReadStop(stop);
    } else {
      ReadUpTo(labels[1..], stop);
      ReadFirst(labels, stop);
    }
  }

  lemma {:induction false} ReadStop(stop: seq<Byte>)
    requires Stops(stop)
    ensures ReadLabels(stop) == ([], Skipped(stop))
  {
  }

  lemma {:induction false} ReadFirst(labels: seq<Text>, stop: seq<Byte>)
    requires labels != [] && Short(labels) && Visibles(labels)
    requires ReadLabels(EncodeLabels(labels[1..]) + stop).0 == labels[1..]
    ensures ReadLabels(EncodeLabels(labels) + stop).0 == labels
    ensures ReadLabels(EncodeLabels(labels) + stop).1
            == |EncodeLabels(labels)| - |EncodeLabels(labels[1..])| + ReadLabels(EncodeLabels(labels[1..]) + stop).1
  {
    var l, rest := labels[0], labels[1..];
    Regroup([|l|] + l, EncodeLabels(rest), stop);
    ReadLabel(l, EncodeLabels(rest) + stop);
    assert [l] + rest == labels;
  }

  /** An empty label reads as the root: the labels behind it are part of what follows the name. */
  lemma {:induction false} EmptyLabelStops(labels: seq<Text>, after: seq<Byte>) returns (stop: seq<Byte>)
    requires Short(labels)
    ensures Short(Visible(labels)) && Visibles(Visible(labels))
    ensures EncodeLabels(labels) + after == EncodeLabels(Visible(labels)) + stop
    ensures if Visible(labels) == labels then stop == after else |stop| > |after| && stop[0] == 0
  {
    if labels == [] || labels[0] == [] {
      stop := EncodeLabels(labels) + after;
    } else {
      var l, rest := labels[0], labels[1..];
      stop := EmptyLabelStops(rest, after);
      assert Visible(labels)[1..] == Visible(rest);
      assert labels == [l] + rest;
      Regroup([|l|] + l, EncodeLabels(rest), after);
      Regroup([|l|] + l, EncodeLabels(Visible(rest)), stop);
    }
  }

  lemma {:induction false} ReadBack(labels: seq<Text>, after: seq<Byte>)
    requires Short(labels)
    ensures ReadLabels(EncodeLabels(labels) + ([0] + after)).0 == Visible(labels)
    ensures ReadLabels(EncodeLabels(labels) + ([0] + after)).1 <= |EncodeLabels(labels)| + 1
  {
    var stop := EmptyLabelStops(labels, [0] + after);
    ReadUpTo(Visible(labels), stop);
  }

  lemma {:induction false} JoinStops(labels: seq<Text>, j: nat)
    requires j < |labels| && labels[j] == []
    ensures Join<Byte>(labels[..j], DOT) == Join<Byte>(labels, DOT) <==> labels == [[]]
  {
    if j == 0 {
      if |labels| == 1 {
        assert labels == [[]];
      } else {
        assert |Join<Byte>(labels, DOT)| >= 1;
      }
    } else {
      var tail := labels[1..];
      assert Join<Byte>(labels, DOT) == labels[0] + [DOT] + Join<Byte>(tail, DOT);
      if j == 1 {
        assert labels[..1] == [labels[0]];
        assert |Join<Byte>(labels, DOT)| > |labels[0]|;
      } else {
        JoinStops(tail, j - 1);
        assert labels[..j][1..] == tail[..j - 1];
        assert Join<Byte>(labels[..j], DOT) == labels[0] + [DOT] + Join<Byte>(tail[..j - 1], DOT);
        SamePrefix(labels[0] + [DOT], Join<Byte>(tail[..j - 1], DOT), Join<Byte>(tail, DOT));
      }
    }
  }

  lemma SamePrefix(p: Text, a: Text, b: Text)
    ensures p + a == p + b <==> a == b
  {
    if p + a == p + b {
      assert a == (p + a)[|p|..] && b == (p + b)[|p|..];
    }
  }

  /**
   Reading a built query gives the name back, up to one trailing dot, exactly when the name is the root or
   has no empty label; with an empty label the reader sees only what precedes it.
   */
  lemma {:induction false} RoundTripIff(name: Text, id: Uint16, qtype: Uint16)
    requires Query(name, id, qtype).Ok?
    ensures Hostname(Query(name, id, qtype).value) == Ok(Join<Byte>(Visible(Split<Byte>(Trimmed(name), DOT)), DOT))
    ensures Hostname(Query(name, id, qtype).value) == Ok(Trimmed(name))
            <==> Trimmed(name) == [] || forall l :: l in Split<Byte>(Trimmed(name), DOT) ==> l != []
  {
    var labels := Split<Byte>(Trimmed(name), DOT);
    var after := FromValue(qtype, 2) + [0, 1];
    var query := Query(name, id, qtype).value;
    assert query == Header(id) + (EncodeLabels(labels) + ([0] + after));
    assert query[HEADER_SIZE..] == EncodeLabels(labels) + ([0] + after);
    ReadBack(labels, after);
    JoinSplit<Byte>(Trimmed(name), DOT);
    var seen := Visible(labels);
    VisibleIsPrefix(labels);
    if |seen| < |labels| {
      JoinStops(labels, |seen|);
      assert labels[|seen|] in labels;
      if labels == [[]] {
        assert Trimmed(name) == [];
      }
    } else {
      assert seen == labels;
    }
  }

  // ---- Layout of a query ----

  lemma {:induction false} EncodedSize(labels: seq<Text>)
    requires Short(labels) && labels != []
    ensures |EncodeLabels(labels)| == |Join<Byte>(labels, DOT)| + 1
  {
    if |labels| > 1 {
      EncodedSize(labels[1..]);
    } else {
      assert labels[1..] == [];
    }
  }

  lemma {:induction false} Parts(a: seq<Byte>, b: seq<Byte>, c: seq<Byte>)
    ensures (a + b + c)[..|a|] == a && (a + b + c)[|a|..|a| + |b|] == b && (a + b + c)[|a| + |b|..] == c
  {
  }

  /** What stands where in a built query, by value: header, encoded name, root label, type and class. */
  lemma {:induction false} QueryLayout(name: Text, id: Uint16, qtype: Uint16)
    requires Query(name, id, qtype).Ok?
    ensures var q, n := Query(name, id, qtype).value, |Trimmed(name)| + 1;
            && |q| == 12 + n + 5
            && Value(q[..2]) == id && Value(q[2..4]) == 0x0100 && Value(q[4..6]) == 1
            && Value(q[6..8]) == 0 && Value(q[8..10]) == 0 && Value(q[10..12]) == 0
            && q[12..12 + n] == EncodeLabels(Split<Byte>(Trimmed(name), DOT))
            && q[12 + n] == 0 && Value(q[13 + n..15 + n]) == qtype && Value(q[15 + n..]) == 1
  {
    var labels := Split<Byte>(Trimmed(name), DOT);
    var q, encoded := Query(name, id, qtype).value, EncodeLabels(labels);
    EncodedSize(labels);
    JoinSplit<Byte>(Trimmed(name), DOT);
    HeaderLayout(id);
    var tail := [0] + FromValue(qtype, 2) + [0, 1];
    assert q == Header(id) + encoded + tail;
    Parts(Header(id), encoded, tail);
    HeaderInside(q, Header(id));
    TailLayout(q, 12 + |encoded|, qtype);
  }

  lemma {:induction false} TwoBytes(a: Byte, b: Byte)
    ensures Value([a, b]) == 256 * a + b
  {
    var one: seq<Byte>, two: seq<Byte> := [a], [a, b];
    assert two[..1] == one && one[..0] == [];
    assert Value(one) == a;
  }

  lemma {:induction false} HeaderLayout(id: Uint16)
    ensures var h := Header(id);
            && Value(h[..2]) == id && Value(h[2..4]) == 0x0100 && Value(h[4..6]) == 1
            && Value(h[6..8]) == 0 && Value(h[8..10]) == 0 && Value(h[10..12]) == 0
  {
    var h := Header(id);
    assert Pow256(2) == 0x1_0000;
    ValueOfFromValue(id, 2);
    assert h[..2] == FromValue(id, 2);
    assert h[2..4] == [1, 0] && h[4..6] == [0, 1];
    assert h[6..8] == [0, 0] && h[8..10] == [0, 0] && h[10..12] == [0, 0];
    TwoBytes(1, 0);
    TwoBytes(0, 1);
    TwoBytes(0, 0);
  }

  lemma {:induction false} HeaderInside(q: seq<Byte>, h: seq<Byte>)
    requires |h| == 12 <= |q| && q[..12] == h
    ensures q[..2] == h[..2] && q[2..4] == h[2..4] && q[4..6] == h[4..6]
    ensures q[6..8] == h[6..8] && q[8..10] == h[8..10] && q[10..12] == h[10..12]
  {
  }

  lemma {:induction false} TailLayout(q: seq<Byte>, at: nat, qtype: Uint16)
    requires at <= |q| && q[at..] == [0] + FromValue(qtype, 2) + [0, 1]
    ensures |q| == at + 5 && q[at] == 0 && Value(q[at + 1..at + 3]) == qtype && Value(q[at + 3..]) == 1
  {
    var tail := q[at..];
    assert Pow256(2) == 0x1_0000;
    ValueOfFromValue(qtype, 2);
    TwoBytes(0, 1);
    assert q[at] == tail[0];
    assert q[at + 1..at + 3] == tail[1..3] == FromValue(qtype, 2);
    assert q[at + 3..] == tail[3..] == [0, 1];
  }

  // ---- Every input of the reader ----

  /**
   A header, whole labels and whatever stops them: the reader joins the labels with dots if at least four bytes,
   for type and class, are left behind the stop, and refuses the query otherwise.
   */
  lemma {:induction false} HostnameOf(header: seq<Byte>, labels: seq<Text>, stop: seq<Byte>)
    requires |header| == 12 && Short(labels) && Visibles(labels) && Stops(stop)
    ensures Hostname(header + EncodeLabels(labels) + stop)
            == if |stop| >= Skipped(stop) + 4 then Ok(Join<Byte>(labels, DOT)) else InvalidFormat
  {
    var query := header + EncodeLabels(labels) + stop;
    assert query[12..] == EncodeLabels(labels) + stop;
    ReadUpTo(labels, stop);
  }

  /** Whatever follows the header is of that form. */
  lemma {:induction false} EveryQueryHasForm(data: seq<Byte>) returns (labels: seq<Text>, stop: seq<Byte>)
    ensures Short(labels) && Visibles(labels) && Stops(stop) && data == EncodeLabels(labels) + stop
    decreases |data|
  {
    if Stops(data) {
      labels, stop := [], data;
    } else {
      var n: int := data[0];
      var l, tail := data[1..1 + n], data[1 + n..];
      var rest;
      rest, stop := EveryQueryHasForm(tail);
      labels := [l] + rest;
      assert labels[1..] == rest;
      assert data == [|l|] + l + tail;
      Regroup([|l|] + l, EncodeLabels(rest), stop);
    }
  }

  /** One trailing dot, and only one, makes no difference. */
  lemma {:induction false} TrailingDot(name: Text, id: Uint16, qtype: Uint16)
    requires name == [] || name[|name| - 1] != DOT
    ensures Trimmed(name) == name && Trimmed(name + [DOT]) == name && Trimmed(name + [DOT, DOT]) == name + [DOT]
    ensures Query(name + [DOT], id, qtype) == Query(name, id, qtype)
  {
    assert (name + [DOT])[..|name|] == name;
    assert (name + [DOT, DOT])[..|name| + 1] == name + [DOT];
  }

  /** Building fails exactly when some label is longer than 63 bytes. */
  lemma BuildFailsIff(name: Text, id: Uint16, qtype: Uint16)
    ensures Query(name, id, qtype) == LabelTooLong
            <==> exists l :: l in Split<Byte>(Trimmed(name), DOT) && |l| > MAX_LABEL
  {
  }

  // ---- The code ----

  method BuildDNSQuery(name: Text, qtype: Uint16, id: Uint16) returns (r: Result<seq<Byte>>)
    ensures r == Query(name, id, qtype)
  {
    var hostname := name;
    if hostname != [] && hostname[|hostname| - 1] == DOT {
      hostname := hostname[..|hostname| - 1];
    }
    var labels := Split<Byte>(hostname, DOT);
    var written := WriteLabels(labels);
    if !written.Ok? {
      return LabelTooLong;
    }
    return Ok(Header(id) + written.value + [0] + FromValue(qtype, 2) + [0, 1]);
  }

  method WriteLabels(labels: seq<Text>) returns (r: Result<seq<Byte>>)
    ensures if Short(labels) then r == Ok(EncodeLabels(labels)) else r == LabelTooLong
  {
    var buf := [];
    for i := 0 to |labels|
      invariant Short(labels[..i])
      invariant buf == EncodeLabels(labels[..i])
    {
      if |labels[i]| > MAX_LABEL {
        assert labels[i] in labels;
        return LabelTooLong;
      }
      EncodeMore(labels[..i], labels[i]);
      assert labels[..i + 1] == labels[..i] + [labels[i]];
      buf := buf + [|labels[i]|] + labels[i];
    }
    assert labels[..|labels|] == labels;
    return Ok(buf);
  }

  lemma {:induction false} EncodeMore(labels: seq<Text>, l: Text)
    requires |l| <= MAX_LABEL && Short(labels)
    ensures EncodeLabels(labels + [l]) == EncodeLabels(labels) + [|l|] + l
  {
    if labels == [] {
      assert labels + [l] == [l];
    } else {
      EncodeMore(labels[1..], l);
      assert (labels + [l])[1..] == labels[1..] + [l];
    }
  }

  method ParseDNSQueryHostname(query: seq<Byte>) returns (r: Result<Text>)
    ensures r == Hostname(query)
  {
    if |query| < HEADER_SIZE {
      return QueryTooShort;
    }
    var offset := HEADER_SIZE;
    var labels: seq<Text> := [];
    ghost var all := ReadLabels(query[HEADER_SIZE..]);
    var reading := true;
    assert labels + all.0 == all.0;
    while reading
      invariant HEADER_SIZE <= offset
      invariant reading ==> offset <= |query| && Reads(labels, offset, query, all)
      invariant !reading ==> all == (labels, offset - HEADER_SIZE)
      decreases reading, |query| - offset
    {
      ghost var data := query[offset..];
      assert labels + [] == labels;
      if offset >= |query| {
        reading := false;
      } else {
        var length: int := query[offset];
        assert data[0] == length;
        if length == 0 {
          offset, reading := offset + 1, false;
        } else if length > MAX_LABEL {
          offset, reading := offset + 2, false;
        } else if offset + 1 + length > |query| {
          offset, reading := offset + 1, false;
        } else {
          var text := query[offset + 1..offset + 1 + length];
          ReadsMore(labels, offset, query, all, length);
          labels := labels + [text];
          offset := offset + 1 + length;
        }
      }
    }
    if offset + 4 > |query| {
      return InvalidFormat;
    }
    var hostname := JoinLabels(labels);
    return Ok(hostname);
  }

  /** The labels read so far, and what the rest of the query will add to them. */
  ghost predicate Reads(labels: seq<Text>, offset: nat, query: seq<Byte>, all: (seq<Text>, nat))
    requires HEADER_SIZE <= offset <= |query|
  {
    var rest := ReadLabels(query[offset..]);
    all == (labels + rest.0, offset - HEADER_SIZE + rest.1)
  }

  lemma {:induction false} ReadsMore(
    labels: seq<Text>, offset: nat, query: seq<Byte>, all: (seq<Text>, nat), length: nat)
    requires HEADER_SIZE <= offset <= |query| && Reads(labels, offset, query, all)
    requires offset + 1 + length <= |query| && 0 < length <= MAX_LABEL && query[offset] == length
    ensures Reads(labels + [query[offset + 1..offset + 1 + length]], offset + 1 + length, query, all)
  {
    var data, text := query[offset..], query[offset + 1..offset + 1 + length];
    assert data[0] == length && data[1..1 + length] == text;
    assert data[1 + length..] == query[offset + 1 + length..];
    var rest := ReadLabels(data[1 + length..]);
    assert labels + ([text] + rest.0) == (labels + [text]) + rest.0;
  }

  method JoinLabels(labels: seq<Text>) returns (hostname: Text)
    ensures hostname == Join<Byte>(labels, DOT)
  {
    hostname := [];
    if |labels| > 0 {
      hostname := labels[0];
      for i := 1 to |labels|
        invariant hostname == Join<Byte>(labels[..i], DOT)
      {
        JoinMore(labels[..i], labels[i]);
        assert labels[..i + 1] == labels[..i] + [labels[i]];
        hostname := hostname + [DOT] + labels[i];
      }
      assert labels[..|labels|] == labels;
    }
  }

  lemma {:induction false} JoinMore(labels: seq<Text>, l: Text)
    requires labels != []
    ensures Join<Byte>(labels + [l], DOT) == Join<Byte>(labels, DOT) + [DOT] + l
  {
    assert (labels + [l])[1..] == labels[1..] + [l];
    if |labels| > 1 {
      JoinMore(labels[1..], l);
    } else {
      assert labels[1..] + [l] == [l];
    }
  }
}
