/** The board's hash routes: pages to canonical hashes and back. */
module Routing {
  import opened Text

  /* ---- UTF-8 (section 3 of RFC 3629) in percent-encoding (section 2.1 of RFC 3986) ---- */

  const PERCENT: CodeUnit := 37
  const HASH: CodeUnit := 35

  /** What encodeURIComponent leaves as it is: letters, digits and - _ . ! ~ * ' ( ). */
  predicate Unescaped(c: CodeUnit) {
    || 48 <= c <= 57
    || 65 <= c <= 90
    || 97 <= c <= 122
    || c == 45 || c == 95 || c == 46 || c == 33 || c == 126 || c == 42 || c == 39 || c == 40 || c == 41
  }

  function HexDigit(d: int): CodeUnit
    requires 0 <= d < 16
  {
    if d < 10 then 48 + d else 55 + d
  }

  function HexValue(c: CodeUnit): (d: Option<int>)
    ensures d.Some? ==> 0 <= d.value < 16
  {
    if 48 <= c <= 57 then Some(c - 48)
    else if 65 <= c <= 70 then Some(c - 55)
    else if 97 <= c <= 102 then Some(c - 87)
    else None
  }

  function Octet(b: int): Text
    requires 0 <= b < 256
  {
    [PERCENT, HexDigit(b / 16), HexDigit(b % 16)]
  }

  /** A code point that is not a surrogate. */
  predicate IsScalar(p: int) {
    0 <= p < 0xD800 || 0xE000 <= p < 0x11_0000
  }

  predicate Octets(bytes: seq<int>) {
    forall i | 0 <= i < |bytes| :: 0 <= bytes[i] < 256
  }

  /** The UTF-8 octets of a scalar. */
  function Utf8(p: int): (bytes: seq<int>)
    requires IsScalar(p)
    ensures 1 <= |bytes| <= 4 && Octets(bytes)
  {
    if p < 0x80 then [p]
    else if p < 0x800 then [0xC0 + p / 64, 0x80 + p % 64]
    else if p < 0x1_0000 then [0xE0 + p / 64 / 64, 0x80 + p / 64 % 64, 0x80 + p % 64]
    else [0xF0 + p / 64 / 64 / 64, 0x80 + p / 64 / 64 % 64, 0x80 + p / 64 % 64, 0x80 + p % 64]
  }

  function PercentEncode(bytes: seq<int>): Text
    requires Octets(bytes)
  {
    if bytes == [] then [] else Octet(bytes[0]) + PercentEncode(bytes[1..])
  }

  function EncodeScalar(p: int): Text
    requires IsScalar(p)
  {
    PercentEncode(Utf8(p))
  }

  function ScalarOfPair(high: CodeUnit, low: CodeUnit): int {
    0x1_0000 + (high - 0xD800) * 0x400 + (low - 0xDC00)
  }

  function UnitsOfScalar(p: int): Text
    requires IsScalar(p)
  {
    if p < 0x1_0000 then [p] else [0xD800 + (p - 0x1_0000) / 0x400, 0xDC00 + (p - 0x1_0000) % 0x400]
  }

  /** `encodeURIComponent`, or None where it throws. */
  function EncodeComponent(s: Text): Option<Text> {
    if s == [] then Some([])
    else if |s| >= 2 && HighSurrogate(s[0]) && LowSurrogate(s[1]) then
      var rest := EncodeComponent(s[2..]);
      if rest.None? then None else Some(EncodeScalar(ScalarOfPair(s[0], s[1])) + rest.value)
    else if HighSurrogate(s[0]) || LowSurrogate(s[0]) then None
    else
      var rest := EncodeComponent(s[1..]);
      if rest.None? then None else Some((if Unescaped(s[0]) then [s[0]] else EncodeScalar(s[0])) + rest.value)
  }

  /** The octet that a percent sign and two digits stand for. */
  function OctetAt(t: Text): (b: Option<int>)
    ensures b.Some? ==> 0 <= b.value < 256
  {
    if |t| < 3 || t[0] != PERCENT || HexValue(t[1]).None? || HexValue(t[2]).None? then None
    else Some(HexValue(t[1]).value * 16 + HexValue(t[2]).value)
  }

  /** The first `n` percent-encoded octets. */
  function TakeOctets(t: Text, n: nat): (r: Option<seq<int>>)
    ensures r.Some? ==> |r.value| == n && 3 * n <= |t| && Octets(r.value)
  {
    if n == 0 then Some([])
    else if OctetAt(t).None? then None
    else
      var rest := TakeOctets(t[3..], n - 1);
      if rest.None? then None else Some([OctetAt(t).value] + rest.value)
  }

  predicate IsContinuation(b: int) {
    0x80 <= b < 0xC0
  }

  /** How many octets the sequence has that starts with this one; 0 if none does. */
  function SequenceLength(b: int): nat {
    if b < 0x80 then 1
    else if 0xC0 <= b < 0xE0 then 2
    else if 0xE0 <= b < 0xF0 then 3
    else if 0xF0 <= b < 0xF8 then 4
    else 0
  }

  /** The scalar one UTF-8 sequence stands for: not overlong, not a surrogate, not beyond the last code point. */
  function ScalarOf(bytes: seq<int>): (p: Option<int>)
    ensures p.Some? && Octets(bytes) ==> IsScalar(p.value)
  {
    if !(forall i | 1 <= i < |bytes| :: IsContinuation(bytes[i])) then None
    else match |bytes|
      case 1 => Some(bytes[0])
      case 2 => AtLeast(0x80, (bytes[0] - 0xC0) * 64 + (bytes[1] - 0x80))
      case 3 => AtLeast(0x800, ((bytes[0] - 0xE0) * 64 + (bytes[1] - 0x80)) * 64 + (bytes[2] - 0x80))
      case 4 =>
        var high := ((bytes[0] - 0xF0) * 64 + (bytes[1] - 0x80)) * 64 + (bytes[2] - 0x80);
        AtLeast(0x1_0000, high * 64 + (bytes[3] - 0x80))
      case _ => None
  }

  function AtLeast(least: int, p: int): Option<int> {
    if p >= least && IsScalar(p) then Some(p) else None
  }

  /** The scalar percent-encoded at the start of `t` and the units it takes; None if that is not valid UTF-8. */
  function DecodeScalar(t: Text): (r: Option<(int, nat)>)
    ensures r.Some? ==> IsScalar(r.value.0) && 3 <= r.value.1 <= |t|
  {
    if OctetAt(t).None? then None
    else
      var n := SequenceLength(OctetAt(t).value);
      var bytes := TakeOctets(t, n);
      if n == 0 || bytes.None? then None
      else
        var p := ScalarOf(bytes.value);
        if p.None? then None else Some((p.value, 3 * n))
  }

  /** `decodeURIComponent`, or None where it throws. */
  function DecodeComponent(t: Text): Option<Text>
    decreases |t|
  {
    if t == [] then Some([])
    else if t[0] != PERCENT then
      var rest := DecodeComponent(t[1..]);
      if rest.None? then None else Some([t[0]] + rest.value)
    else
      match DecodeScalar(t)
      case None => None
      case Some((p, length)) =>
        var rest := DecodeComponent(t[length..]);
        if rest.None? then None else Some(UnitsOfScalar(p) + rest.value)
  }

  lemma OctetReads(b: int, rest: Text)
    requires 0 <= b < 256
    ensures OctetAt(Octet(b) + rest) == Some(b)
    ensures (Octet(b) + rest)[3..] == rest
  {
    var t := Octet(b) + rest;
    assert t[1] == HexDigit(b / 16) && t[2] == HexDigit(b % 16);
  }

  lemma {:induction false} OctetsRead(bytes: seq<int>, rest: Text)
    requires Octets(bytes)
    ensures TakeOctets(PercentEncode(bytes) + rest, |bytes|) == Some(bytes)
    ensures |PercentEncode(bytes)| == 3 * |bytes|
    ensures bytes != [] ==> OctetAt(PercentEncode(bytes) + rest) == Some(bytes[0])
  {
    if bytes != [] {
      var tail := PercentEncode(bytes[1..]);
      ConcatAssociates(Octet(bytes[0]), tail, rest);
      OctetReads(bytes[0], tail + rest);
      OctetsRead(bytes[1..], rest);
      assert bytes == [bytes[0]] + bytes[1..];
    }
  }

  lemma Utf8Reads(p: int)
    requires IsScalar(p)
    ensures SequenceLength(Utf8(p)[0]) == |Utf8(p)| && ScalarOf(Utf8(p)) == Some(p)
  {
  }

  /** The octets of a scalar decode to it, whatever follows. */
  lemma ScalarReads(p: int, rest: Text)
    requires IsScalar(p)
    ensures DecodeScalar(EncodeScalar(p) + rest) == Some((p, |EncodeScalar(p)|))
  {
    OctetsRead(Utf8(p), rest);
    Utf8Reads(p);
  }

  /** A percent sign and two hexadecimal digits of either case stand for an octet, and nothing else does. */
  lemma OctetsAreRead(t: Text)
    ensures OctetAt(t).Some? <==> |t| >= 3 && t[0] == '%' as int && IsHexDigit(t[1]) && IsHexDigit(t[2])
    ensures OctetAt(t).Some? ==> OctetAt(t).value == DigitValue(t[1]) * 16 + DigitValue(t[2])
  {
  }

  predicate IsHexDigit(c: CodeUnit) {
    '0' as int <= c <= '9' as int || 'A' as int <= c <= 'F' as int || 'a' as int <= c <= 'f' as int
  }

  function DigitValue(c: CodeUnit): int {
    if c <= '9' as int then c - '0' as int else if c <= 'F' as int then c - 'A' as int + 10 else c - 'a' as int + 10
  }

  /** Only the UTF-8 octets of a scalar decode to it: nothing overlong, no surrogate, nothing beyond the last one. */
  lemma DecodesOnlyUtf8(t: Text)
    requires DecodeScalar(t).Some?
    ensures var (p, length) := DecodeScalar(t).value; TakeOctets(t, length / 3) == Some(Utf8(p))
  {
    var n := SequenceLength(OctetAt(t).value);
    var bytes := TakeOctets(t, n).value;
    assert bytes[0] == OctetAt(t).value;
    OctetsAreUtf8(bytes);
  }

  lemma OctetsAreUtf8(bytes: seq<int>)
    requires bytes != [] && Octets(bytes) && |bytes| == SequenceLength(bytes[0]) && ScalarOf(bytes).Some?
    ensures Utf8(ScalarOf(bytes).value) == bytes
  {
    match |bytes|
    case 1 =>
    case 2 => TwoOctets(bytes[0], bytes[1]);
    case 3 => ThreeOctets(bytes[0], bytes[1], bytes[2]);
    case _ => FourOctets(bytes[0], bytes[1], bytes[2], bytes[3]);
  }

  lemma TwoOctets(a: int, b: int)
    requires 0xC0 <= a < 0xE0 && IsContinuation(b)
    ensures var p := (a - 0xC0) * 64 + (b - 0x80); p >= 0x80 && IsScalar(p) ==> Utf8(p) == [a, b]
  {
  }

  lemma ThreeOctets(a: int, b: int, c: int)
    requires 0xE0 <= a < 0xF0 && IsContinuation(b) && IsContinuation(c)
    ensures var p := ((a - 0xE0) * 64 + (b - 0x80)) * 64 + (c - 0x80);
      p >= 0x800 && IsScalar(p) ==> Utf8(p) == [a, b, c]
  {
    var p := ((a - 0xE0) * 64 + (b - 0x80)) * 64 + (c - 0x80);
    assert p / 64 == (a - 0xE0) * 64 + (b - 0x80);
  }

  lemma FourOctets(a: int, b: int, c: int, d: int)
    requires 0xF0 <= a < 0xF8 && IsContinuation(b) && IsContinuation(c) && IsContinuation(d)
    ensures var p := (((a - 0xF0) * 64 + (b - 0x80)) * 64 + (c - 0x80)) * 64 + (d - 0x80);
      p >= 0x1_0000 && IsScalar(p) ==> Utf8(p) == [a, b, c, d]
  {
    var p := (((a - 0xF0) * 64 + (b - 0x80)) * 64 + (c - 0x80)) * 64 + (d - 0x80);
    assert p / 64 == ((a - 0xF0) * 64 + (b - 0x80)) * 64 + (c - 0x80);
    assert p / 64 / 64 == (a - 0xF0) * 64 + (b - 0x80);
  }

  lemma UnescapedAre(c: CodeUnit)
    ensures Unescaped(c) <==>
      || 'a' as int <= c <= 'z' as int || 'A' as int <= c <= 'Z' as int || '0' as int <= c <= '9' as int
      || c in Units("-_.!~*'()")
  {
    assert Units("-_.!~*'()") == [45, 95, 46, 33, 126, 42, 39, 40, 41];
  }

  /** Letters, digits and nine marks stay; any other unit below 0x80 is a percent sign and two upper-case digits. */
  lemma UnitEncodes(c: CodeUnit)
    requires c < 0x80
    ensures EncodeComponent([c]) == Some(
      if || 'a' as int <= c <= 'z' as int || 'A' as int <= c <= 'Z' as int || '0' as int <= c <= '9' as int
         || c in Units("-_.!~*'()")
      then [c] else ['%' as int, Units("0123456789ABCDEF")[c / 16], Units("0123456789ABCDEF")[c % 16]])
  {
    UnescapedAre(c);
    DigitIs(c / 16);
    DigitIs(c % 16);
    AsciiEncodes(c);
  }

  lemma AsciiEncodes(c: CodeUnit)
    requires c < 0x80
    ensures EncodeComponent([c]) == Some(if Unescaped(c) then [c] else Octet(c))
  {
    assert EncodeComponent([]) == Some([]) && [c][1..] == [];
    assert Utf8(c) == [c as int] && [c as int][1..] == [] && PercentEncode([]) == [];
    var first := if Unescaped(c) then [c] else EncodeScalar(c);
    assert EncodeScalar(c) == Octet(c) + [] == Octet(c);
    assert EncodeComponent([c]) == Some(first + []) && first + [] == first;
  }

  lemma DigitIs(d: int)
    requires 0 <= d < 16
    ensures Units("0123456789ABCDEF")[d] == HexDigit(d)
  {
    assert d < 10 ==> "0123456789ABCDEF"[d] as int == 48 + d;
    assert d >= 10 ==> "0123456789ABCDEF"[d] as int == 55 + d;
  }

  /* ---- Components ---- */

  predicate CleanComponent(t: Text) {
    forall i | 0 <= i < |t| :: t[i] == PERCENT || Unescaped(t[i])
  }

  lemma {:induction false} EncodingIsClean(bytes: seq<int>)
    requires Octets(bytes)
    ensures CleanComponent(PercentEncode(bytes))
    decreases |bytes|
  {
    if bytes != [] {
      EncodingIsClean(bytes[1..]);
    }
  }

  /** Encoding succeeds exactly on well-formed text, and leaves no separator in it. */
  lemma {:induction false} EncodesWellFormed(s: Text)
    ensures EncodeComponent(s).Some? <==> WellFormedText(s)
    ensures EncodeComponent(s).Some? ==> CleanComponent(EncodeComponent(s).value)
    ensures EncodeComponent(s).Some? && s != [] ==> EncodeComponent(s).value != []
    decreases |s|
  {
    if s != [] {
      if |s| >= 2 && HighSurrogate(s[0]) && LowSurrogate(s[1]) {
        EncodesWellFormed(s[2..]);
        EncodingIsClean(Utf8(ScalarOfPair(s[0], s[1])));
        OctetsRead(Utf8(ScalarOfPair(s[0], s[1])), []);
      } else {
        EncodesWellFormed(s[1..]);
        if !HighSurrogate(s[0]) && !LowSurrogate(s[0]) {
          EncodingIsClean(Utf8(s[0]));
          OctetsRead(Utf8(s[0]), []);
        }
      }
    }
  }

  lemma ScalarDecodes(p: int, rest: Text)
    requires IsScalar(p)
    ensures DecodeComponent(EncodeScalar(p) + rest)
         == match DecodeComponent(rest) case Some(d) => Some(UnitsOfScalar(p) + d) case None => None
  {
    var t := EncodeScalar(p) + rest;
    ScalarReads(p, rest);
    assert t[0] == PERCENT;
    assert t[|EncodeScalar(p)|..] == rest;
  }

  lemma PairUnits(high: CodeUnit, low: CodeUnit)
    requires HighSurrogate(high) && LowSurrogate(low)
    ensures IsScalar(ScalarOfPair(high, low)) && UnitsOfScalar(ScalarOfPair(high, low)) == [high, low]
  {
  }

  lemma {:induction false} PairUndone(s: Text, rest: Text)
    requires |s| >= 2 && HighSurrogate(s[0]) && LowSurrogate(s[1]) && DecodeComponent(rest) == Some(s[2..])
    ensures DecodeComponent(EncodeScalar(ScalarOfPair(s[0], s[1])) + rest) == Some(s)
  {
    PairUnits(s[0], s[1]);
    ScalarDecodes(ScalarOfPair(s[0], s[1]), rest);
    assert s == [s[0], s[1]] + s[2..];
  }

  lemma {:induction false} UnitUndone(s: Text, rest: Text)
    requires s != [] && IsScalar(s[0]) && DecodeComponent(rest) == Some(s[1..])
    ensures DecodeComponent((if Unescaped(s[0]) then [s[0]] else EncodeScalar(s[0])) + rest) == Some(s)
  {
    assert s == [s[0]] + s[1..];
    if Unescaped(s[0]) {
      assert ([s[0]] + rest)[1..] == rest;
    } else {
      ScalarDecodes(s[0], rest);
    }
  }

  /** Decoding undoes encoding. */
  lemma {:induction false} DecodeUndoesEncode(s: Text)
    requires WellFormedText(s)
    ensures EncodeComponent(s).Some? && DecodeComponent(EncodeComponent(s).value) == Some(s)
    decreases |s|
  {
    if s != [] {
      if |s| >= 2 && HighSurrogate(s[0]) && LowSurrogate(s[1]) {
        DecodeUndoesEncode(s[2..]);
        PairUndone(s, EncodeComponent(s[2..]).value);
      } else {
        DecodeUndoesEncode(s[1..]);
        UnitUndone(s, EncodeComponent(s[1..]).value);
      }
    }
  }

  predicate NoSurrogates(t: Text) {
    forall i | 0 <= i < |t| :: !HighSurrogate(t[i]) && !LowSurrogate(t[i])
  }

  lemma {:induction false} WellFormedAfter(x: Text, y: Text)
    requires NoSurrogates(x)
    ensures WellFormedText(x + y) <==> WellFormedText(y)
    decreases |x|
  {
    if x == [] {
      assert x + y == y;
    } else {
      WellFormedAfter(x[1..], y);
      assert (x + y)[1..] == x[1..] + y;
    }
  }

  lemma WellFormedAfterPair(high: CodeUnit, low: CodeUnit, y: Text)
    requires HighSurrogate(high) && LowSurrogate(low)
    ensures WellFormedText([high, low] + y) <==> WellFormedText(y)
  {
    assert ([high, low] + y)[2..] == y;
  }

  lemma {:induction false} OctetsHaveNoSurrogates(t: Text, n: nat)
    requires TakeOctets(t, n).Some?
    ensures NoSurrogates(t[..3 * n])
    decreases n
  {
    if n > 0 {
      OctetsHaveNoSurrogates(t[3..], n - 1);
      assert forall i | 3 <= i < 3 * n :: t[i] == t[3..][i - 3];
    }
  }

  /** What a decoded text starts with is a raw unit, or no low surrogate. */
  lemma DecodedStart(t: Text)
    requires DecodeComponent(t).Some? && t != []
    ensures DecodeComponent(t).value != []
    ensures LowSurrogate(DecodeComponent(t).value[0]) ==> t[0] == DecodeComponent(t).value[0]
  {
  }

  lemma WellFormedAfterScalar(p: int, rest: Text)
    requires IsScalar(p)
    ensures WellFormedText(UnitsOfScalar(p) + rest) <==> WellFormedText(rest)
  {
    var units := UnitsOfScalar(p);
    if |units| == 1 {
      WellFormedAfter(units, rest);
    } else {
      WellFormedAfterPair(units[0], units[1], rest);
      assert units == [units[0], units[1]];
    }
  }

  lemma {:induction false} ScalarKeepsWellFormed(t: Text, p: int, length: nat)
    requires DecodeScalar(t) == Some((p, length)) && DecodeComponent(t[length..]).Some?
    ensures WellFormedText(t) <==> WellFormedText(t[length..])
    ensures var rest := DecodeComponent(t[length..]).value;
      WellFormedText(UnitsOfScalar(p) + rest) <==> WellFormedText(rest)
  {
    AfterOctets(t, length / 3);
    WellFormedAfterScalar(p, DecodeComponent(t[length..]).value);
  }

  lemma {:induction false} AfterOctets(t: Text, n: nat)
    requires TakeOctets(t, n).Some? && 3 * n <= |t|
    ensures WellFormedText(t) <==> WellFormedText(t[3 * n..])
  {
    OctetsHaveNoSurrogates(t, n);
    assert t == t[..3 * n] + t[3 * n..];
    WellFormedAfter(t[..3 * n], t[3 * n..]);
  }

  /** Decoding adds no surrogate that is not half of a pair, and mends none. */
  lemma {:induction false} DecodingKeepsWellFormed(t: Text)
    requires DecodeComponent(t).Some?
    ensures WellFormedText(t) <==> WellFormedText(DecodeComponent(t).value)
    decreases |t|
  {
    if t == [] {
    } else if t[0] == PERCENT {
      var (p, length) := DecodeScalar(t).value;
      DecodingKeepsWellFormed(t[length..]);
      ScalarKeepsWellFormed(t, p, length);
    } else {
      if |t| >= 2 && HighSurrogate(t[0]) && LowSurrogate(t[1]) {
        RawPair(t);
        DecodingKeepsWellFormed(t[2..]);
      } else {
        RawSingle(t);
        DecodingKeepsWellFormed(t[1..]);
      }
    }
  }

  lemma RawUnit(t: Text)
    requires DecodeComponent(t).Some? && t != [] && t[0] != PERCENT
    ensures DecodeComponent(t[1..]).Some? && DecodeComponent(t).value == [t[0]] + DecodeComponent(t[1..]).value
  {
  }

  lemma RawPair(t: Text)
    requires DecodeComponent(t).Some? && |t| >= 2 && HighSurrogate(t[0]) && LowSurrogate(t[1])
    ensures DecodeComponent(t[2..]).Some?
    ensures WellFormedText(DecodeComponent(t).value) <==> WellFormedText(DecodeComponent(t[2..]).value)
  {
    RawUnit(t);
    RawUnit(t[1..]);
    assert t[1..][1..] == t[2..];
    var rest := DecodeComponent(t[2..]).value;
    WellFormedAfterPair(t[0], t[1], rest);
    ConcatAssociates([t[0]], [t[1]], rest);
    assert [t[0]] + [t[1]] == [t[0], t[1]];
  }

  lemma RawSingle(t: Text)
    requires DecodeComponent(t).Some? && t != [] && t[0] != PERCENT
    requires |t| < 2 || !HighSurrogate(t[0]) || !LowSurrogate(t[1])
    ensures DecodeComponent(t[1..]).Some?
    ensures WellFormedText(DecodeComponent(t).value)
       <==> NoSurrogates([t[0]]) && WellFormedText(DecodeComponent(t[1..]).value)
  {
    RawUnit(t);
    var d := DecodeComponent(t).value;
    assert d[1..] == DecodeComponent(t[1..]).value;
    if |t| >= 2 {
      DecodedStart(t[1..]);
    }
  }

  /* ---- Pages and hashes ---- */

  const TASKS: Text := [116, 97, 115, 107, 115]
  const INTAKE: Text := [105, 110, 116, 97, 107, 101]
  const AUTOMATION: Text := [97, 117, 116, 111, 109, 97, 116, 105, 111, 110]
  const LEDGERS: Text := [108, 101, 100, 103, 101, 114, 115]
  const PROJECT: Text := [112, 114, 111, 106, 101, 99, 116]
  const AGENT: Text := [97, 103, 101, 110, 116]
  const REPLACEMENT: Text := [37, 69, 70, 37, 66, 70, 37, 66, 68]
  const UNENCODABLE: Text := [117, 110, 101, 110, 99, 111, 100, 97, 98, 108, 101]

  /** An encoded replacement character and one segment too many. */
  const SENTINEL: Text := REPLACEMENT + [SLASH] + UNENCODABLE

  datatype Page =
    | TasksPage(taskId: Option<Text>)
    | IntakePage(workItemId: Text)
    | AutomationPage
    | LedgersPage
    | ProjectPage(projectId: Text)
    | AgentPage(agentId: Text)

  const TASKS_PAGE := TasksPage(None)

  /** The path of a hash, without its leading "#" and "/". */
  function HashPath(hash: Text): Text {
    var withoutMarker := if StartsWith(hash, [HASH]) then hash[1..] else hash;
    if StartsWith(withoutMarker, [SLASH]) then withoutMarker[1..] else withoutMarker
  }

  function HashSegments(hash: Text): (segments: seq<Text>)
    ensures |segments| >= 1
  {
    Split(HashPath(hash), SLASH)
  }

  predicate AcceptsSegmentCount(kind: Text, count: nat) {
    if kind == TASKS then count == 1 || count == 2
    else if kind == AUTOMATION || kind == LEDGERS then count == 1
    else (kind == PROJECT || kind == AGENT || kind == INTAKE) && count == 2
  }

  /** No id, an id that does not decode, or an id. */
  datatype RawId = Absent | Invalid | Id(id: Text)

  function DecodeId(value: Option<Text>): RawId {
    if value.None? then Absent
    else if value.value == [] then Invalid
    else
      match DecodeComponent(value.value)
      case Some(decoded) => if decoded != [] then Id(decoded) else Invalid
      case None => Invalid
  }

  function PageHashWithId(kind: Text, id: Text): Text {
    match EncodeComponent(id)
    case Some(encoded) => [HASH, SLASH] + kind + [SLASH] + encoded
    case None => [HASH, SLASH] + kind + [SLASH] + SENTINEL
  }

  function PageToHash(page: Page): Text {
    match page
    case TasksPage(taskId) =>
      if taskId.Some? && taskId.value != [] then PageHashWithId(TASKS, taskId.value) else [HASH, SLASH] + TASKS
    case IntakePage(id) => PageHashWithId(INTAKE, id)
    case AutomationPage => [HASH, SLASH] + AUTOMATION
    case LedgersPage => [HASH, SLASH] + LEDGERS
    case ProjectPage(id) => PageHashWithId(PROJECT, id)
    case AgentPage(id) => PageHashWithId(AGENT, id)
  }

  function HashToPage(hash: Text): Page {
    var segments := HashSegments(hash);
    var kind := segments[0];
    if !AcceptsSegmentCount(kind, |segments|) then TASKS_PAGE
    else
      var id := DecodeId(if |segments| > 1 then Some(segments[1]) else None);
      if kind == TASKS then if id.Id? then TasksPage(Some(id.id)) else TASKS_PAGE
      else if kind == AUTOMATION then AutomationPage
      else if kind == LEDGERS then LedgersPage
      else if !id.Id? then TASKS_PAGE
      else if kind == PROJECT then ProjectPage(id.id)
      else if kind == AGENT then AgentPage(id.id)
      else IntakePage(id.id)
  }

  /** The hash of every kind of page, as it is written. */
  lemma PagesAreNamed(page: Page)
    ensures PageToHash(page) ==
      match page
      case TasksPage(None) => Units("#/tasks")
      case TasksPage(Some(id)) => if id == [] then Units("#/tasks") else Units("#/tasks/") + Written(id)
      case IntakePage(id) => Units("#/intake/") + Written(id)
      case AutomationPage => Units("#/automation")
      case LedgersPage => Units("#/ledgers")
      case ProjectPage(id) => Units("#/project/") + Written(id)
      case AgentPage(id) => Units("#/agent/") + Written(id)
  {
    KindsAreNamed();
  }

  /** An id in a hash, or the mark of one that cannot be encoded. */
  function Written(id: Text): Text {
    match EncodeComponent(id)
    case Some(encoded) => encoded
    case None => Units("%EF%BF%BD/unencodable")
  }

  lemma KindsAreNamed()
    ensures [HASH, SLASH] + TASKS == Units("#/tasks") && [HASH, SLASH] + TASKS + [SLASH] == Units("#/tasks/")
    ensures [HASH, SLASH] + AUTOMATION == Units("#/automation") && [HASH, SLASH] + LEDGERS == Units("#/ledgers")
    ensures [HASH, SLASH] + INTAKE + [SLASH] == Units("#/intake/")
    ensures [HASH, SLASH] + PROJECT + [SLASH] == Units("#/project/")
    ensures [HASH, SLASH] + AGENT + [SLASH] == Units("#/agent/")
    ensures SENTINEL == Units("%EF%BF%BD/unencodable")
  {
  }

  /* ---- Round trips ---- */

  function IdOf(page: Page): Option<Text> {
    match page
    case TasksPage(taskId) => taskId
    case IntakePage(id) => Some(id)
    case ProjectPage(id) => Some(id)
    case AgentPage(id) => Some(id)
    case _ => None
  }

  /** The page names no entity, or one whose id is non-empty well-formed text. */
  predicate Representable(page: Page) {
    var id := IdOf(page);
    id.Some? ==> id.value != [] && WellFormedText(id.value)
  }

  lemma OneSegment(kind: Text)
    requires SLASH !in kind && kind != []
    ensures HashSegments([HASH, SLASH] + kind) == [kind]
  {
    var hash := [HASH, SLASH] + kind;
    assert hash[1..] == [SLASH] + kind && hash[1..][1..] == kind;
    SplitAt(kind, [], SLASH);
  }

  lemma MoreSegments(kind: Text, rest: Text)
    requires SLASH !in kind && kind != []
    ensures HashSegments([HASH, SLASH] + kind + [SLASH] + rest) == [kind] + Split(rest, SLASH)
  {
    var hash := [HASH, SLASH] + kind + [SLASH] + rest;
    assert hash[1..] == [SLASH] + (kind + [SLASH] + rest);
    assert hash[1..][1..] == kind + [SLASH] + rest;
    SplitAt(kind, rest, SLASH);
  }

  lemma TwoSegments(kind: Text, rawId: Text)
    requires SLASH !in kind && kind != [] && SLASH !in rawId
    ensures HashSegments([HASH, SLASH] + kind + [SLASH] + rawId) == [kind, rawId]
  {
    MoreSegments(kind, rawId);
    SplitAt(rawId, [], SLASH);
  }

  predicate IsKind(kind: Text) {
    kind == TASKS || kind == INTAKE || kind == PROJECT || kind == AGENT
  }

  function PageWithId(kind: Text, id: Text): Page
    requires IsKind(kind)
  {
    if kind == TASKS then TasksPage(Some(id))
    else if kind == INTAKE then IntakePage(id)
    else if kind == PROJECT then ProjectPage(id)
    else AgentPage(id)
  }

  lemma ManySegmentsRead(kind: Text, a: Text, b: Text)
    requires SLASH !in kind && kind != [] && SLASH !in a && SLASH !in b
    ensures HashToPage([HASH, SLASH] + kind + [SLASH] + (a + [SLASH] + b)) == TASKS_PAGE
  {
    MoreSegments(kind, a + [SLASH] + b);
    SplitAt(a, b, SLASH);
    SplitAt(b, [], SLASH);
  }

  lemma TwoSegmentsRead(hash: Text, kind: Text, rawId: Text)
    requires IsKind(kind) && HashSegments(hash) == [kind, rawId]
    ensures var id := DecodeId(Some(rawId));
      HashToPage(hash) == if id.Id? then PageWithId(kind, id.id) else TASKS_PAGE
  {
  }

  /** An id in a hash comes back if it is non-empty and well-formed, and is an invalid route otherwise. */
  lemma {:induction false} IdHashReads(kind: Text, id: Text)
    requires IsKind(kind)
    ensures HashToPage(PageHashWithId(kind, id))
         == if id != [] && WellFormedText(id) then PageWithId(kind, id) else TASKS_PAGE
  {
    EncodesWellFormed(id);
    if WellFormedText(id) {
      DecodeUndoesEncode(id);
      var encoded := EncodeComponent(id).value;
      TwoSegments(kind, encoded);
      TwoSegmentsRead(PageHashWithId(kind, id), kind, encoded);
    } else {
      ManySegmentsRead(kind, REPLACEMENT, UNENCODABLE);
    }
  }

  lemma OneSegmentReads(kind: Text)
    requires SLASH !in kind && kind != []
    ensures HashToPage([HASH, SLASH] + kind)
         == if kind == TASKS then TASKS_PAGE
            else if kind == AUTOMATION then AutomationPage
            else if kind == LEDGERS then LedgersPage
            else TASKS_PAGE
  {
    OneSegment(kind);
  }

  function PlainKind(page: Page): Text {
    match page
    case AutomationPage => AUTOMATION
    case LedgersPage => LEDGERS
    case _ => TASKS
  }

  lemma PlainHashReads(page: Page)
    requires IdOf(page).None? || page == TasksPage(Some([]))
    ensures HashToPage(PageToHash(page)) == if IdOf(page).None? then page else TASKS_PAGE
  {
    var kind := PlainKind(page);
    assert SLASH !in kind && kind != [];
    OneSegmentReads(kind);
    assert TASKS[0] != AUTOMATION[0] && TASKS[0] != LEDGERS[0] && AUTOMATION[0] != LEDGERS[0];
    assert PageToHash(page) == [HASH, SLASH] + kind;
  }

  lemma IdPageRoundTrips(kind: Text, id: Text)
    requires IsKind(kind)
    ensures HashToPage(PageHashWithId(kind, id)) == PageWithId(kind, id) <==> Representable(PageWithId(kind, id))
  {
    IdHashReads(kind, id);
  }

  /** A page survives the trip through its hash exactly when it is representable. */
  lemma PageRoundTrips(page: Page)
    ensures HashToPage(PageToHash(page)) == page <==> Representable(page)
  {
    var id := IdOf(page);
    if id.None? || page == TasksPage(Some([])) {
      PlainHashReads(page);
    } else {
      var kind := if page.TasksPage? then TASKS else if page.IntakePage? then INTAKE
                  else if page.ProjectPage? then PROJECT else AGENT;
      IdPageRoundTrips(kind, id.value);
      KindsDiffer();
    }
  }

  lemma KindsDiffer()
    ensures TASKS != INTAKE && TASKS != PROJECT && TASKS != AGENT
    ensures INTAKE != PROJECT && INTAKE != AGENT && PROJECT != AGENT
  {
    assert TASKS[0] != INTAKE[0] && TASKS[0] != PROJECT[0] && TASKS[0] != AGENT[0];
    assert INTAKE[0] != PROJECT[0] && INTAKE[0] != AGENT[0] && PROJECT[0] != AGENT[0];
  }

  /* ---- Canonical hashes ---- */

  function CanonicalHash(hash: Text): Text {
    PageToHash(HashToPage(hash))
  }

  /** A parsed page never has an empty id. */
  lemma ParsedIdIsNotEmpty(hash: Text)
    ensures IdOf(HashToPage(hash)) != Some([])
  {
  }

  /** The hash has two segments: a kind of page with an id, and something that decodes. */
  predicate HasIdSegment(hash: Text) {
    var segments := HashSegments(hash);
    |segments| == 2 && IsKind(segments[0]) && segments[1] != [] && DecodeComponent(segments[1]).Some?
  }

  /** The raw id segment, if there is one, is well-formed text. */
  predicate IdSegmentWellFormed(hash: Text) {
    HasIdSegment(hash) ==> WellFormedText(HashSegments(hash)[1])
  }

  /** Every page a hash can read as, and from which segments. */
  lemma HashesRead(hash: Text)
    ensures var segments := HashSegments(hash);
      HashToPage(hash) ==
        if segments == [Units("automation")] then AutomationPage
        else if segments == [Units("ledgers")] then LedgersPage
        else if HasIdSegment(hash) then EntityPage(segments[0], DecodeComponent(segments[1]).value)
        else TASKS_PAGE
  {
    var segments := HashSegments(hash);
    KindsAreNames();
    KindsDiffer();
    if |segments| == 1 {
      assert segments == [segments[0]];
    } else if |segments| == 2 && segments[1] != [] && DecodeComponent(segments[1]).Some? {
      DecodedStart(segments[1]);
    }
  }

  function EntityPage(kind: Text, id: Text): Page {
    if kind == Units("intake") then IntakePage(id)
    else if kind == Units("project") then ProjectPage(id)
    else if kind == Units("agent") then AgentPage(id)
    else TasksPage(Some(id))
  }

  lemma KindsAreNames()
    ensures TASKS == Units("tasks") && INTAKE == Units("intake") && PROJECT == Units("project")
    ensures AGENT == Units("agent") && AUTOMATION == Units("automation") && LEDGERS == Units("ledgers")
    ensures forall kind | IsKind(kind) :: kind != AUTOMATION && kind != LEDGERS
  {
    assert TASKS[0] != AUTOMATION[0] && INTAKE[0] != AUTOMATION[0] && PROJECT[0] != AUTOMATION[0];
    assert TASKS[0] != LEDGERS[0] && INTAKE[0] != LEDGERS[0] && PROJECT[0] != LEDGERS[0] && AGENT[0] != LEDGERS[0];
    assert |AGENT| != |AUTOMATION|;
  }

  /** The marker and the first slash may be left out. */
  lemma MarkerIsOptional(path: Text)
    requires path == [] || (path[0] != HASH && path[0] != SLASH)
    ensures HashSegments([HASH, SLASH] + path) == HashSegments([SLASH] + path)
         == HashSegments([HASH] + path) == HashSegments(path) == Split(path, SLASH)
  {
    assert ([HASH, SLASH] + path)[1..] == [SLASH] + path && ([SLASH] + path)[1..] == path;
    assert ([HASH] + path)[1..] == path;
  }

  /** A hash parses to an entity exactly when it has an id segment, whose decoding is the id. */
  lemma ParsedIdDecodes(hash: Text)
    ensures IdOf(HashToPage(hash))
         == if HasIdSegment(hash) then DecodeComponent(HashSegments(hash)[1]) else None
  {
    var segments := HashSegments(hash);
    KindsDiffer();
    if |segments| == 2 && DecodeComponent(segments[1]).Some? && segments[1] != [] {
      DecodedStart(segments[1]);
    }
  }

  lemma ParsedIsRepresentable(hash: Text)
    ensures Representable(HashToPage(hash)) <==> IdSegmentWellFormed(hash)
  {
    ParsedIdIsNotEmpty(hash);
    ParsedIdDecodes(hash);
    if HasIdSegment(hash) {
      DecodingKeepsWellFormed(HashSegments(hash)[1]);
    }
  }

  /** A page that is not representable gets a hash that reads as the tasks page, which gets another hash. */
  lemma UnrepresentableMovesOn(page: Page)
    requires !Representable(page) && IdOf(page) != Some([])
    ensures HashToPage(PageToHash(page)) == TASKS_PAGE
    ensures PageToHash(page) != PageToHash(TASKS_PAGE)
  {
    var id := IdOf(page).value;
    var kind := if page.TasksPage? then TASKS else if page.IntakePage? then INTAKE
                else if page.ProjectPage? then PROJECT else AGENT;
    EncodesWellFormed(id);
    IdHashReads(kind, id);
    assert PageToHash(page) == [HASH, SLASH] + kind + [SLASH] + SENTINEL;
    assert |PageToHash(page)| > |[HASH, SLASH] + TASKS|;
  }

  /** Rewriting a hash to its canonical form is final after one step exactly when its raw id is well-formed text. */
  lemma CanonicalAfterOneStep(hash: Text)
    ensures CanonicalHash(CanonicalHash(hash)) == CanonicalHash(hash) <==> IdSegmentWellFormed(hash)
  {
    var page := HashToPage(hash);
    ParsedIsRepresentable(hash);
    ParsedIdIsNotEmpty(hash);
    PageRoundTrips(page);
    if !Representable(page) {
      UnrepresentableMovesOn(page);
    }
  }

  /** It is always final after two. */
  lemma CanonicalAfterTwoSteps(hash: Text)
    ensures var twice := CanonicalHash(CanonicalHash(hash)); CanonicalHash(twice) == twice
  {
    var page := HashToPage(hash);
    ParsedIdIsNotEmpty(hash);
    PageRoundTrips(page);
    if !Representable(page) {
      UnrepresentableMovesOn(page);
      PlainHashReads(TASKS_PAGE);
    }
  }

  /** "#/agent/" and a lone surrogate: rewritten twice before it rests. */
  lemma LoneSurrogateMovesTwice()
    ensures var hash := [HASH, SLASH] + AGENT + [SLASH] + [0xD800];
      CanonicalHash(CanonicalHash(hash)) != CanonicalHash(hash)
  {
    var raw: Text := [0xD800];
    assert DecodeComponent(raw[1..]) == Some([]);
    TwoSegments(AGENT, raw);
    CanonicalAfterOneStep([HASH, SLASH] + AGENT + [SLASH] + raw);
  }

  lemma {:induction false} SplitKeepsWellFormed(t: Text)
    requires WellFormedText(t)
    ensures forall i | 0 <= i < |Split(t, SLASH)| :: WellFormedText(Split(t, SLASH)[i])
    decreases |t|
  {
    var i := IndexOf(t, SLASH);
    if i < |t| {
      WellFormedParts(t, i);
      assert t[i..][1..] == t[i + 1..];
      SplitKeepsWellFormed(t[i + 1..]);
    }
  }

  /** Cutting before a unit that is no surrogate cuts no pair. */
  lemma {:induction false} WellFormedParts(t: Text, i: nat)
    requires WellFormedText(t) && i < |t| && !HighSurrogate(t[i]) && !LowSurrogate(t[i])
    ensures WellFormedText(t[..i]) && WellFormedText(t[i..])
    decreases i
  {
    if i == 0 {
      assert t[..0] == [] && t[0..] == t;
    } else {
      var step := if HighSurrogate(t[0]) then 2 else 1;
      WellFormedTail(t);
      WellFormedParts(t[step..], i - step);
      assert t[step..][i - step..] == t[i..];
      WellFormedStart(t, i, step);
    }
  }

  lemma {:induction false} WellFormedTail(t: Text)
    requires WellFormedText(t) && t != []
    ensures var step := if HighSurrogate(t[0]) then 2 else 1;
      step <= |t| && WellFormedText(t[step..]) && (step == 2 ==> LowSurrogate(t[1]))
  {
  }

  lemma WellFormedStart(t: Text, i: nat, step: nat)
    requires WellFormedText(t) && 0 < step <= i <= |t| && step == if HighSurrogate(t[0]) then 2 else 1
    requires WellFormedText(t[step..][..i - step])
    ensures WellFormedText(t[..i])
  {
    var start := t[..i];
    assert start[step..] == t[step..][..i - step];
    assert start[0] == t[0] && (step == 2 ==> start[1] == t[1]);
  }

  /** Every hash that is well-formed text is canonical after one rewrite. */
  lemma WellFormedHashIsCanonicalAfterOneStep(hash: Text)
    requires WellFormedText(hash)
    ensures CanonicalHash(CanonicalHash(hash)) == CanonicalHash(hash)
  {
    SplitKeepsWellFormed(HashPath(hash));
    CanonicalAfterOneStep(hash);
  }
}
