/**
 Port specifications such as "80,443,8000-9000": the range matcher (cfg/port_range.go) against the set of
 ports that parsePorts builds (cfg/config.go), and the validator ParsePortRange.
 */
module PortSpec {
  import opened Bytes
  import opened Strings

  const MAX_PORT := 65535

  datatype PortRange = PortRange(start: nat, end: nat) {
    predicate Contains(port: nat) {
      start <= port <= end
    }
  }

  // ---- The library functions the code uses ----

  /** unicode.IsSpace */
  predicate IsSpace(c: char) {
    || '\U{9}' <= c <= '\U{D}' || c == ' ' || c == '\U{85}' || c == '\U{A0}' || c == '\U{1680}'
    || '\U{2000}' <= c <= '\U{200A}' || c == '\U{2028}' || c == '\U{2029}' || c == '\U{202F}'
    || c == '\U{205F}' || c == '\U{3000}'
  }

  function TrimLeft(s: string): string {
    if s != "" && IsSpace(s[0]) then TrimLeft(s[1..]) else s
  }

  function TrimRight(s: string): string {
    if s != "" && IsSpace(s[|s| - 1]) then TrimRight(s[..|s| - 1]) else s
  }

  function TrimSpace(s: string): string {
    TrimRight(TrimLeft(s))
  }

  predicate AllDigits(s: string) {
    forall i :: 0 <= i < |s| ==> '0' <= s[i] <= '9'
  }

  function Decimal(s: string): nat
    requires AllDigits(s)
  {
    if s == "" then 0 else 10 * Decimal(s[..|s| - 1]) + (s[|s| - 1] as int - '0' as int)
  }

  /** strconv.ParseUint(s, 10, 16) */
  function ParseUint16(s: string): (r: Option<nat>)
    ensures r.Some? ==> r.value <= MAX_PORT
  {
    if s != "" && AllDigits(s) && Decimal(s) <= MAX_PORT then Some(Decimal(s)) else None
  }

  // ---- Meaning of a specification ----

  /** The ports one comma-separated part stands for. */
  function PartRange(part: string): (r: Option<PortRange>)
    ensures r.Some? ==> r.value.start <= r.value.end <= MAX_PORT
  {
    var text := TrimSpace(part);
    if '-' in text then
      var ends := Split(text, '-');
      if |ends| != 2 then None
      else
        var low, high := ParseUint16(TrimSpace(ends[0])), ParseUint16(TrimSpace(ends[1]));
        if low.Some? && high.Some? && low.value <= high.value then Some(PortRange(low.value, high.value)) else None
    else
      var port := ParseUint16(text);
      if port.Some? then Some(PortRange(port.value, port.value)) else None
  }

  function Parts(spec: string): seq<string> {
    if spec == "" then [] else Split(spec, ',')
  }

  ghost predicate WellFormed(spec: string) {
    forall part :: part in Parts(spec) ==> PartRange(part).Some?
  }

  ghost predicate Selects(parts: seq<string>, port: nat) {
    exists i :: 0 <= i < |parts| && PartRange(parts[i]).Some? && PartRange(parts[i]).value.Contains(port)
  }

  // ---- The matcher ----

  method ParseMatcherPart(part: string) returns (r: Option<PortRange>)
    ensures r == PartRange(part)
  {
    var text := TrimSpace(part);
    if '-' in text {
      var ends := Split(text, '-');
      if |ends| != 2 {
        return None;
      }
      var start := ParseUint16(TrimSpace(ends[0]));
      if start.None? {
        return None;
      }
      var end := ParseUint16(TrimSpace(ends[1]));
      if end.None? || start.value > end.value {
        return None;
      }
      return Some(PortRange(start.value, end.value));
    }
    var port := ParseUint16(text);
    if port.None? {
      return None;
    }
    return Some(PortRange(port.value, port.value));
  }

  ghost predicate Covered(ranges: seq<PortRange>, port: nat) {
    exists i :: 0 <= i < |ranges| && ranges[i].Contains(port)
  }

  /** Succeeds exactly on well-formed specifications, and then covers exactly the selected ports. */
  method NewPortMatcher(spec: string) returns (r: Option<seq<PortRange>>)
    ensures r.Some? <==> WellFormed(spec)
    ensures r.Some? ==> forall port: nat :: Covered(r.value, port) <==> Selects(Parts(spec), port)
  {
    if spec == "" {
      return Some([]);
    }
    var parts := Split(spec, ',');
    var ranges: seq<PortRange> := [];
    for i := 0 to |parts|
      invariant |ranges| == i
      invariant forall k :: 0 <= k < i ==> PartRange(parts[k]) == Some(ranges[k])
    {
      var range := ParseMatcherPart(parts[i]);
      if range.None? {
        assert parts[i] in parts;
        return None;
      }
      ranges := ranges + [range.value];
    }
    forall port: nat ensures Covered(ranges, port) <==> Selects(parts, port) {
      SamePorts(ranges, parts, port);
    }
    return Some(ranges);
  }

  lemma {:induction false} SamePorts(ranges: seq<PortRange>, parts: seq<string>, port: nat)
    requires |ranges| == |parts| && forall k :: 0 <= k < |parts| ==> PartRange(parts[k]) == Some(ranges[k])
    ensures Covered(ranges, port) <==> Selects(parts, port)
  {
    if Covered(ranges, port) {
      var i :| 0 <= i < |ranges| && ranges[i].Contains(port);
      assert PartRange(parts[i]).Some?;
    }
    if Selects(parts, port) {
      var i :| 0 <= i < |parts| && PartRange(parts[i]).Some? && PartRange(parts[i]).value.Contains(port);
      assert ranges[i].Contains(port);
    }
  }

  method Matches(ranges: seq<PortRange>, port: nat) returns (found: bool)
    ensures found <==> Covered(ranges, port)
  {
    for i := 0 to |ranges|
      invariant forall k :: 0 <= k < i ==> !ranges[k].Contains(port)
    {
      if ranges[i].Contains(port) {
        return true;
      }
    }
    return false;
  }

  // ---- The set of parsePorts, which looks for the dash before it trims ----

  lemma {:induction false} TrimKeepsDash(s: string)
    ensures '-' in TrimSpace(s) <==> '-' in s
  {
    TrimLeftKeepsDash(s);
    TrimRightKeepsDash(TrimLeft(s));
  }

  lemma {:induction false} TrimLeftKeepsDash(s: string)
    ensures '-' in TrimLeft(s) <==> '-' in s
  {
    if s != "" && IsSpace(s[0]) {
      TrimLeftKeepsDash(s[1..]);
      assert s == [s[0]] + s[1..];
    }
  }

  lemma {:induction false} TrimRightKeepsDash(s: string)
    ensures '-' in TrimRight(s) <==> '-' in s
  {
    if s != "" && IsSpace(s[|s| - 1]) {
      TrimRightKeepsDash(s[..|s| - 1]);
      assert s == s[..|s| - 1] + [s[|s| - 1]];
    }
  }

  method ParseSetPart(port: string) returns (ok: bool, ports: set<nat>)
    ensures ok <==> PartRange(port).Some?
    ensures ok ==> forall p: nat :: p in ports <==> PartRange(port).value.Contains(p)
  {
    TrimKeepsDash(port);
    ports := {};
    if '-' in port {
      var ends := Split(TrimSpace(port), '-');
      if |ends| != 2 {
        return false, ports;
      }
      var low := ParseUint16(TrimSpace(ends[0]));
      if low.None? {
        return false, ports;
      }
      var high := ParseUint16(TrimSpace(ends[1]));
      if high.None? || low.value > high.value {
        return false, ports;
      }
      for i := low.value to high.value + 1
        invariant forall p: nat :: p in ports <==> low.value <= p < i
      {
        ports := ports + {i};
      }
      return true, ports;
    }
    var single := ParseUint16(TrimSpace(port));
    if single.None? {
      return false, ports;
    }
    return true, {single.value};
  }

  /** The same specifications succeed, and the set holds exactly the selected ports. */
  method ParsePorts(spec: string) returns (ok: bool, m: set<nat>)
    ensures ok <==> WellFormed(spec)
    ensures ok ==> forall port: nat :: port in m <==> Selects(Parts(spec), port)
  {
    m := {};
    if spec == "" {
      return true, m;
    }
    var parts := Split(spec, ',');
    for i := 0 to |parts|
      invariant forall k :: 0 <= k < i ==> PartRange(parts[k]).Some?
      invariant forall port: nat :: port in m <==> Selects(parts[..i], port)
    {
      var good, ports := ParseSetPart(parts[i]);
      if !good {
        assert parts[i] in parts;
        return false, m;
      }
      forall port: nat ensures port in m + ports <==> Selects(parts[..i + 1], port) {
        SelectsMore(parts, i, port);
      }
      m := m + ports;
    }
    assert parts[..|parts|] == parts;
    return true, m;
  }

  lemma {:induction false} SelectsMore(parts: seq<string>, i: nat, port: nat)
    requires i < |parts| && PartRange(parts[i]).Some?
    ensures Selects(parts[..i + 1], port) <==> Selects(parts[..i], port) || PartRange(parts[i]).value.Contains(port)
  {
    var before, after := parts[..i], parts[..i + 1];
    assert after[i] == parts[i];
    if Selects(before, port) {
      var k :| 0 <= k < i && PartRange(before[k]).Some? && PartRange(before[k]).value.Contains(port);
      assert after[k] == before[k];
    }
    if Selects(after, port) && !PartRange(parts[i]).value.Contains(port) {
      var k :| 0 <= k <= i && PartRange(after[k]).Some? && PartRange(after[k]).value.Contains(port);
      assert k < i && before[k] == after[k];
    }
  }

  // ---- The validator ----

  method ValidatePart(part: string) returns (ok: bool)
    ensures ok <==> PartRange(part).Some? && PartRange(part).value.start != 0
  {
    var range := ParseMatcherPart(part);
    if range.None? {
      return false;
    }
    return range.value.start != 0 && range.value.end <= MAX_PORT;
  }

  /** Accepts exactly what the matcher accepts without ever matching port 0. */
  method ParsePortRange(spec: string) returns (ok: bool)
    ensures ok <==> WellFormed(spec) && !Selects(Parts(spec), 0)
  {
    if spec == "" {
      return true;
    }
    var parts := Split(spec, ',');
    for i := 0 to |parts|
      invariant forall k :: 0 <= k < i ==> PartRange(parts[k]).Some? && PartRange(parts[k]).value.start != 0
    {
      var good := ValidatePart(parts[i]);
      if !good {
        assert parts[i] in parts;
        assert PartRange(parts[i]).Some? ==> PartRange(parts[i]).value.Contains(0);
        return false;
      }
    }
    return true;
  }

  // ---- Every list of ranges can be written down ----

  function Digits(n: nat): (s: string)
    ensures s != "" && AllDigits(s)
  {
    var last := ('0' as int + n % 10) as char;
    if n < 10 then [last] else Digits(n / 10) + [last]
  }

  lemma {:induction false} DecimalOfDigits(n: nat)
    ensures Decimal(Digits(n)) == n
  {
    if n >= 10 {
      DecimalOfDigits(n / 10);
      assert Digits(n)[..|Digits(n)| - 1] == Digits(n / 10);
    } else {
      assert Digits(n)[..0] == "";
    }
  }

  function RenderRange(r: PortRange): string {
    Digits(r.start) + "-" + Digits(r.end)
  }

  lemma TrimPlain(s: string)
    requires s != "" && !IsSpace(s[0]) && !IsSpace(s[|s| - 1])
    ensures TrimSpace(s) == s
  {
  }

  /** A decimal numeral is read back, and holds neither a separator nor white space. */
  lemma {:induction false} DigitsReadBack(n: nat)
    ensures n <= MAX_PORT ==> ParseUint16(TrimSpace(Digits(n))) == Some(n)
    ensures '-' !in Digits(n) && ',' !in Digits(n)
    ensures !IsSpace(Digits(n)[0]) && !IsSpace(Digits(n)[|Digits(n)| - 1])
  {
    TrimPlain(Digits(n));
    DecimalOfDigits(n);
  }

  lemma {:induction false} RangeText(a: string, b: string)
    requires a != "" && b != "" && '-' !in a && '-' !in b
    requires !IsSpace(a[0]) && !IsSpace(b[|b| - 1])
    ensures TrimSpace(a + "-" + b) == a + "-" + b
    ensures '-' in a + "-" + b && Split(a + "-" + b, '-') == [a, b]
  {
    var text := a + "-" + b;
    assert text[0] == a[0] && text[|a|] == '-' && text[|text| - 1] == b[|b| - 1];
    TrimPlain(text);
    SplitFirst(a, '-', b);
    SplitPlain(b, '-');
  }

  lemma {:induction false} RenderRangeRoundTrip(r: PortRange)
    requires r.start <= r.end <= MAX_PORT
    ensures PartRange(RenderRange(r)) == Some(r)
    ensures ',' !in RenderRange(r)
  {
    DigitsReadBack(r.start);
    DigitsReadBack(r.end);
    RangeText(Digits(r.start), Digits(r.end));
  }

  // ---- Single ports and white space ----

  /** A number alone selects just that port, and none above the last port is taken. */
  lemma {:induction false} SinglePort(n: nat)
    ensures PartRange(Digits(n)) == if n <= MAX_PORT then Some(PortRange(n, n)) else None
  {
    DigitsReadBack(n);
    TrimPlain(Digits(n));
    DecimalOfDigits(n);
  }

  predicate Blank(s: string) {
    forall i :: 0 <= i < |s| ==> IsSpace(s[i])
  }

  lemma {:induction false} TrimLeftBlank(w: string, s: string)
    requires Blank(w)
    ensures TrimLeft(w + s) == TrimLeft(s)
  {
    if w == "" {
      assert w + s == s;
    } else {
      assert (w + s)[1..] == w[1..] + s;
      TrimLeftBlank(w[1..], s);
    }
  }

  lemma {:induction false} TrimRightBlank(s: string, w: string)
    requires Blank(w)
    ensures TrimRight(s + w) == TrimRight(s)
  {
    if w == "" {
      assert s + w == s;
    } else {
      var n := |w| - 1;
      assert (s + w)[..|s + w| - 1] == s + w[..n];
      TrimRightBlank(s, w[..n]);
    }
  }

  /** White space around a text does not matter. */
  lemma {:induction false} TrimBlank(before: string, s: string, after: string)
    requires Blank(before) && Blank(after)
    ensures TrimSpace(before + s + after) == TrimSpace(s)
  {
    assert before + s + after == before + (s + after);
    TrimLeftBlank(before, s + after);
    TrimAfter(s, after);
  }

  lemma {:induction false} TrimAfter(s: string, after: string)
    requires Blank(after)
    ensures TrimSpace(s + after) == TrimSpace(s)
  {
    if s == "" {
      assert s + after == after + "";
      TrimLeftBlank(after, "");
    } else if IsSpace(s[0]) {
      assert (s + after)[1..] == s[1..] + after;
      TrimAfter(s[1..], after);
    } else {
      assert (s + after)[0] == s[0];
      TrimRightBlank(s, after);
    }
  }

  /** A part means the same with white space around it. */
  lemma {:induction false} BlanksAroundPart(before: string, part: string, after: string)
    requires Blank(before) && Blank(after)
    ensures PartRange(before + part + after) == PartRange(part)
  {
    TrimBlank(before, part, after);
  }

  lemma {:induction false} PaddedEnds(a: string, w1: string, w2: string, b: string)
    requires '-' !in a && '-' !in b && Blank(w1) && Blank(w2) && a != "" && b != ""
    requires !IsSpace(a[0]) && !IsSpace(b[|b| - 1])
    ensures var text := (a + w1) + "-" + (w2 + b);
            TrimSpace(text) == text && '-' in text && Split(text, '-') == [a + w1, w2 + b]
  {
    assert !IsSpace('-');
    RangeText(a + w1, w2 + b);
  }

  /** A range means the same with white space around its bounds. */
  lemma {:induction false} BlanksAroundBounds(r: PortRange, w1: string, w2: string)
    requires r.start <= r.end <= MAX_PORT && Blank(w1) && Blank(w2)
    ensures PartRange((Digits(r.start) + w1) + "-" + (w2 + Digits(r.end))) == Some(r)
  {
    var a, b := Digits(r.start), Digits(r.end);
    DigitsReadBack(r.start);
    DigitsReadBack(r.end);
    PaddedEnds(a, w1, w2, b);
    TrimAfter(a, w1);
    TrimLeftBlank(w2, b);
  }

  /** The white space of ASCII is blank; digits, dashes and commas are not. */
  lemma {:induction false} BlankCharacters(c: char)
    ensures c < '\U{80}' ==>
              (IsSpace(c) <==> c == ' ' || c == '\t' || c == '\n' || c == '\U{B}' || c == '\U{C}' || c == '\r')
    ensures '0' <= c <= '9' || c == '-' || c == ',' ==> !IsSpace(c)
  {
  }

  function Dashes(s: string): nat {
    if s == "" then 0 else Dashes(s[1..]) + if s[0] == '-' then 1 else 0
  }

  lemma {:induction false} SplitCountsDashes(s: string)
    ensures |Split(s, '-')| == Dashes(s) + 1
  {
    if s != "" {
      SplitCountsDashes(s[1..]);
    }
  }

  lemma {:induction false} DashesOfLast(s: string)
    requires s != ""
    ensures Dashes(s) == Dashes(s[..|s| - 1]) + if s[|s| - 1] == '-' then 1 else 0
  {
    if |s| > 1 {
      DashesOfLast(s[1..]);
      assert s[1..][..|s| - 2] == s[..|s| - 1][1..];
    }
  }

  lemma {:induction false} TrimLeftKeepsDashes(s: string)
    ensures Dashes(TrimLeft(s)) == Dashes(s)
  {
    if s != "" && IsSpace(s[0]) {
      TrimLeftKeepsDashes(s[1..]);
    }
  }

  lemma {:induction false} TrimRightKeepsDashes(s: string)
    ensures Dashes(TrimRight(s)) == Dashes(s)
  {
    if s != "" && IsSpace(s[|s| - 1]) {
      DashesOfLast(s);
      TrimRightKeepsDashes(s[..|s| - 1]);
    }
  }

  /** A part with more than one dash is refused. */
  lemma {:induction false} OneDashAtMost(part: string)
    ensures PartRange(part).Some? ==> Dashes(part) <= 1
  {
    TrimLeftKeepsDashes(part);
    TrimRightKeepsDashes(TrimLeft(part));
    SplitCountsDashes(TrimSpace(part));
    if '-' !in TrimSpace(part) {
      SplitPlain(TrimSpace(part), '-');
    }
  }

  /** The empty specification is accepted and selects nothing; an empty part is not accepted. */
  lemma {:induction false} EmptySpecification(port: nat)
    ensures WellFormed("") && !Selects(Parts(""), port)
    ensures PartRange("") == None && !WellFormed(",")
  {
    assert Split(",", ',') == [""] + Split("", ',');
    assert Parts(",")[0] == "";
  }

  function Render(ranges: seq<PortRange>): string
    requires ranges != []
  {
    if |ranges| == 1 then RenderRange(ranges[0]) else RenderRange(ranges[0]) + "," + Render(ranges[1..])
  }

  lemma {:induction false} RenderParts(ranges: seq<PortRange>)
    requires ranges != [] && forall r :: r in ranges ==> r.start <= r.end <= MAX_PORT
    ensures Render(ranges) != "" && |Split(Render(ranges), ',')| == |ranges|
    ensures forall i :: 0 <= i < |ranges| ==> PartRange(Split(Render(ranges), ',')[i]) == Some(ranges[i])
  {
    RenderRangeRoundTrip(ranges[0]);
    if |ranges| == 1 {
      SplitPlain(RenderRange(ranges[0]), ',');
    } else {
      RenderParts(ranges[1..]);
      SplitFirst(RenderRange(ranges[0]), ',', Render(ranges[1..]));
    }
  }

  /** Any ranges within the port numbers have a specification that selects exactly their ports. */
  lemma RenderRoundTrip(ranges: seq<PortRange>, port: nat)
    requires ranges != [] && forall r :: r in ranges ==> r.start <= r.end <= MAX_PORT
    ensures WellFormed(Render(ranges)) && (Selects(Parts(Render(ranges)), port) <==> Covered(ranges, port))
  {
    RenderParts(ranges);
    SamePorts(ranges, Parts(Render(ranges)), port);
  }
}
