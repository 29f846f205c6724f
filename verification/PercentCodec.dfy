/**
  Percent-encoding (sections 2.1 and 2.3 of RFC 3986) as `Util::uriEncode` and `Util::uriDecode`
  perform it. The two methods append to a string their caller owns; `Encode` and `Decode` say
  what they append. The rest of the module says what those two functions mean without them.
 */
module PercentCodec {
  import opened Text

  /** `illegalCharStr`: percent, angle brackets, braces, bar, backslash, quote, caret, backquote. */
  const ILLEGAL: Str := [0x25, 0x3C, 0x3E, 0x7B, 0x7D, 0x7C, 0x5C, 0x22, 0x5E, 0x60]

  predicate Upper(c: Byte) { 0x41 <= c <= 0x5A }
  predicate Lower(c: Byte) { 0x61 <= c <= 0x7A }

  /** Letters, digits and `-`, `_`, `.`, `~`. */
  predicate Unreserved(c: Byte) {
    Lower(c) || Upper(c) || Digit(c) || c == 0x2D || c == 0x5F || c == DOT || c == 0x7E
  }

  /** The bytes `uriEncode` replaces. `c <= 0x20 || c >= 0x7F` selects the same bytes for a signed `char`. */
  predicate Escaped(c: Byte, reserved: Str) {
    !Unreserved(c) && (c <= 0x20 || c >= 0x7F || c in ILLEGAL || c in reserved)
  }

  predicate UpperHex(c: Byte) {
    Digit(c) || 0x41 <= c <= 0x46
  }

  predicate Hex(c: Byte) {
    UpperHex(c) || 0x61 <= c <= 0x66
  }

  function HexDigit(n: nat): (c: Byte)
    requires n < 16
    ensures UpperHex(c) && HexValue(c) == n
  {
    if n < 10 then (n + 0x30) as Byte else (n - 10 + 0x41) as Byte
  }

  function HexValue(c: Byte): (n: nat)
    requires Hex(c)
    ensures n < 16
  {
    if Digit(c) then c as int - 0x30
    else if Upper(c) then c as int - 0x41 + 10
    else c as int - 0x61 + 10
  }

  /** The byte two hex digits spell; 8-bit `char` arithmetic wraps to the same byte. */
  function ByteOf(hi: Byte, lo: Byte): Byte
    requires Hex(hi) && Hex(lo)
  {
    (16 * HexValue(hi) + HexValue(lo)) as Byte
  }

  function Escape(c: Byte): (e: Str)
    ensures |e| == 3 && e[0] == PERCENT && UpperHex(e[1]) && UpperHex(e[2]) && ByteOf(e[1], e[2]) == c
  {
    [PERCENT, HexDigit(c as int / 16), HexDigit(c as int % 16)]
  }

  function EncodeByte(c: Byte, reserved: Str): Str {
    if Escaped(c, reserved) then Escape(c) else [c]
  }

  function Encode(s: Str, reserved: Str): Str {
    if s == [] then [] else EncodeByte(s[0], reserved) + Encode(s[1..], reserved)
  }

  /** What a decode appended, and whether it reached the end of its input. */
  datatype Decoded = Decoded(ok: bool, text: Str)

  /** `s` begins with a percent sign that two hex digits do not follow. */
  predicate BadEscape(s: Str) {
    s != [] && s[0] == PERCENT && (|s| < 3 || !Hex(s[1]) || !Hex(s[2]))
  }

  /** The bytes the first unit of encoded text takes up. */
  function Width(s: Str): (n: nat)
    requires s != [] && !BadEscape(s)
    ensures 1 <= n <= |s|
  {
    if s[0] == PERCENT then 3 else 1
  }

  /** The byte the first unit of encoded text stands for. */
  function Head(s: Str): Byte
    requires s != [] && !BadEscape(s)
  {
    if s[0] == PERCENT then ByteOf(s[1], s[2]) else s[0]
  }

  function Decode(s: Str): Decoded {
    if s == [] then
      Decoded(true, [])
    else if BadEscape(s) then
      Decoded(false, [])
    else
      var rest := Decode(s[Width(s)..]);
      Decoded(rest.ok, [Head(s)] + rest.text)
  }

  // ---------------------------------------------------------------- the two methods

  lemma EncodeStep(done: Str, s: Str, i: nat, reserved: Str)
    requires i < |s|
    ensures done + Encode(s[i..], reserved) == done + EncodeByte(s[i], reserved) + Encode(s[i + 1..], reserved)
  {
  }

  lemma DecodeStep(s: Str, rest: Str)
    requires s != [] && !BadEscape(s) && s[Width(s)..] == rest
    ensures Decode(s).ok == Decode(rest).ok
    ensures Decode(s).text == [Head(s)] + Decode(rest).text
  {
  }

  lemma DecodeStepAfter(done: Str, s: Str, rest: Str)
    requires s != [] && !BadEscape(s) && s[Width(s)..] == rest
    ensures Decode(s).ok == Decode(rest).ok
    ensures done + Decode(s).text == done + [Head(s)] + Decode(rest).text
  {
  }

  method UriEncode(str: Str, reserved: Str, encodedStr: Str) returns (rc: int, appended: Str)
    ensures rc == 0
    ensures appended == encodedStr + Encode(str, reserved)
  {
    appended := encodedStr;
    var it := 0;
    while it != |str|
      invariant it <= |str|
      invariant appended + Encode(str[it..], reserved) == encodedStr + Encode(str, reserved)
      decreases |str| - it
    {
      var c := str[it];
      EncodeStep(appended, str, it, reserved);
      if Unreserved(c) {
        appended := appended + [c];
      } else if c <= 0x20 || c >= 0x7F || c in ILLEGAL || c in reserved {
        appended := appended + Escape(c);
      } else {
        appended := appended + [c];
      }
      it := it + 1;
    }
    rc := 0;
  }

  method UriDecode(str: Str, decodedStr: Str) returns (rc: int, appended: Str)
    ensures rc == if Decode(str).ok then 0 else -1
    ensures appended == decodedStr + Decode(str).text
  {
    appended := decodedStr;
    var it := 0;
    while it != |str|
      invariant it <= |str|
      invariant Decode(str[it..]).ok == Decode(str).ok
      invariant appended + Decode(str[it..]).text == decodedStr + Decode(str).text
      decreases |str| - it
    {
      ghost var rest := str[it..];
      var c := str[it];
      it := it + 1;
      assert rest[1..] == str[it..];
      if c == PERCENT {
        if it == |str| {
          return -1, appended;
        }
        var hi := str[it];
        it := it + 1;
        if it == |str| {
          return -1, appended;
        }
        var lo := str[it];
        it := it + 1;
        assert rest[1] == hi && rest[2] == lo && rest[3..] == str[it..];
        var value: int;
        if Digit(hi) {
          value := hi as int - 0x30;
        } else if 0x41 <= hi <= 0x46 {
          value := hi as int - 0x41 + 10;
        } else if 0x61 <= hi <= 0x66 {
          value := hi as int - 0x61 + 10;
        } else {
          return -1, appended;
        }
        value := value * 16;
        if Digit(lo) {
          value := value + lo as int - 0x30;
        } else if 0x41 <= lo <= 0x46 {
          value := value + lo as int - 0x41 + 10;
        } else if 0x61 <= lo <= 0x66 {
          value := value + lo as int - 0x61 + 10;
        } else {
          return -1, appended;
        }
        c := value as Byte;
      }
      DecodeStepAfter(appended, rest, str[it..]);
      appended := appended + [c];
    }
    rc := 0;
  }

  // ---------------------------------------------------------------- encoding

  lemma {:induction false} EncodeConcat(a: Str, b: Str, reserved: Str)
    ensures Encode(a + b, reserved) == Encode(a, reserved) + Encode(b, reserved)
  {
    if a == [] {
      assert a + b == b;
    } else {
      assert (a + b)[1..] == a[1..] + b;
      EncodeConcat(a[1..], b, reserved);
    }
  }

  /** A byte that is neither a percent sign nor a hex digit survives encoding exactly when it needs no escape. */
  lemma {:induction false} EncodeMembers(s: Str, reserved: Str, c: Byte)
    requires c != PERCENT && !UpperHex(c)
    ensures c in Encode(s, reserved) <==> c in s && !Escaped(c, reserved)
  {
    if s != [] {
      EncodeMembers(s[1..], reserved, c);
      assert s == [s[0]] + s[1..];
    }
  }

  // ---------------------------------------------------------------- decoding inverts encoding

  lemma HeadConcat(a: Str, b: Str)
    requires a != [] && !BadEscape(a)
    ensures !BadEscape(a + b) && Width(a + b) == Width(a) && Head(a + b) == Head(a)
  {
  }

  /** Decoding goes through concatenation after any prefix it accepts. */
  lemma {:induction false} DecodeConcat(a: Str, b: Str)
    requires Decode(a).ok
    ensures Decode(a + b).ok == Decode(b).ok
    ensures Decode(a + b).text == Decode(a).text + Decode(b).text
    decreases |a|
  {
    if a == [] {
      assert a + b == b;
    } else {
      var rest := a[Width(a)..];
      HeadConcat(a, b);
      DecodeStep(a, rest);
      assert (a + b)[Width(a)..] == rest + b;
      DecodeStep(a + b, rest + b);
      DecodeConcat(rest, b);
      var h, u, v := [Head(a)], Decode(rest).text, Decode(b).text;
      assert h + (u + v) == (h + u) + v;
    }
  }

  lemma {:induction false} DecodeEncode(s: Str, reserved: Str)
    ensures Decode(Encode(s, reserved)) == Decoded(true, s)
  {
    if s != [] {
      var e := EncodeByte(s[0], reserved);
      assert Decode(e) == Decoded(true, [s[0]]) by {
        assert e[|e|..] == [];
      }
      DecodeEncode(s[1..], reserved);
      DecodeConcat(e, Encode(s[1..], reserved));
      assert s == [s[0]] + s[1..];
    }
  }

  lemma EncodeInjective(s: Str, t: Str, reserved: Str)
    ensures Encode(s, reserved) == Encode(t, reserved) ==> s == t
  {
    DecodeEncode(s, reserved);
    DecodeEncode(t, reserved);
  }

  // ---------------------------------------------------------------- which texts decode, and to what

  /** Every percent sign, wherever it stands, is followed by two hex digits. */
  ghost predicate WellFormed(s: Str) {
    forall i :: 0 <= i < |s| && s[i] == PERCENT ==> i + 2 < |s| && Hex(s[i + 1]) && Hex(s[i + 2])
  }

  /** `k` is the position of the first percent sign that two hex digits do not follow. */
  ghost predicate FirstBad(s: Str, k: nat) {
    k < |s| && BadEscape(s[k..]) && WellFormed(s[..k])
  }

  lemma WellFormedStep(s: Str, rest: Str)
    requires s != [] && !BadEscape(s) && s[Width(s)..] == rest
    ensures WellFormed(s) <==> WellFormed(rest)
  {
  }

  lemma {:induction false} DecodesWellFormed(s: Str)
    ensures Decode(s).ok <==> WellFormed(s)
    decreases |s|
  {
    if s != [] {
      if BadEscape(s) {
        assert s[0] == PERCENT;
      } else {
        var rest := s[Width(s)..];
        DecodesWellFormed(rest);
        WellFormedStep(s, rest);
        DecodeStep(s, rest);
      }
    }
  }

  /** A failed decode stopped at the first bad percent sign and kept the decoding of what precedes it. */
  lemma DecodeStopsAtFirstBad(s: Str, k: nat)
    requires FirstBad(s, k)
    ensures !Decode(s).ok && Decode(s).text == Decode(s[..k]).text
  {
    DecodesWellFormed(s[..k]);
    DecodeConcat(s[..k], s[k..]);
    assert s == s[..k] + s[k..];
  }

  lemma {:induction false} FirstBadExists(s: Str)
    requires !WellFormed(s)
    ensures exists k :: FirstBad(s, k)
    decreases |s|
  {
    if BadEscape(s) {
      assert s[0..] == s;
      assert FirstBad(s, 0);
    } else {
      var rest := s[Width(s)..];
      WellFormedStep(s, rest);
      FirstBadExists(rest);
      var k: nat :| FirstBad(rest, k);
      FirstBadStep(s, rest, k);
    }
  }

  lemma FirstBadStep(s: Str, rest: Str, k: nat)
    requires s != [] && !BadEscape(s) && s[Width(s)..] == rest && FirstBad(rest, k)
    ensures FirstBad(s, Width(s) + k)
  {
    var n := Width(s);
    assert s[n + k..] == rest[k..];
    assert s[..n + k][n..] == rest[..k];
    HeadConcat(s[..n], rest[..k]);
    assert s[..n + k] == s[..n] + rest[..k];
    WellFormedStep(s[..n + k], rest[..k]);
  }

  /** One unit of encoded text: a byte standing for itself, or an escape. */
  datatype Token = Plain(c: Byte) | Pct(hi: Byte, lo: Byte) {
    predicate Valid() {
      match this
      case Plain(c) => c != PERCENT
      case Pct(hi, lo) => Hex(hi) && Hex(lo)
    }

    function Spelling(): Str {
      match this
      case Plain(c) => [c]
      case Pct(hi, lo) => [PERCENT, hi, lo]
    }

    function Meaning(): Byte
      requires Valid()
    {
      match this
      case Plain(c) => c
      case Pct(hi, lo) => ByteOf(hi, lo)
    }
  }

  function Spell(tokens: seq<Token>): Str {
    if tokens == [] then [] else tokens[0].Spelling() + Spell(tokens[1..])
  }

  /** Any way of writing bytes as valid tokens decodes to exactly those bytes. */
  lemma {:induction false} DecodeSpelling(tokens: seq<Token>)
    requires forall t :: t in tokens ==> t.Valid()
    ensures Decode(Spell(tokens)).ok
    ensures |Decode(Spell(tokens)).text| == |tokens|
    ensures forall i :: 0 <= i < |tokens| ==> Decode(Spell(tokens)).text[i] == tokens[i].Meaning()
  {
    if tokens != [] {
      var t, rest := tokens[0], Spell(tokens[1..]);
      DecodeSpelling(tokens[1..]);
      TokenFirst(t, rest);
      DecodeStep(t.Spelling() + rest, rest);
    }
  }

  lemma TokenFirst(t: Token, rest: Str)
    requires t.Valid()
    ensures var s := t.Spelling() + rest;
            s != [] && !BadEscape(s) && s[Width(s)..] == rest && Head(s) == t.Meaning()
  {
  }

  /** Every well-formed text is a spelling of valid tokens, so `DecodeSpelling` covers all of them. */
  lemma {:induction false} WellFormedIsSpelled(s: Str) returns (tokens: seq<Token>)
    requires WellFormed(s)
    ensures Spell(tokens) == s && forall t :: t in tokens ==> t.Valid()
    decreases |s|
  {
    if s == [] {
      tokens := [];
    } else {
      var n := Width(s);
      DecodesWellFormed(s);
      DecodesWellFormed(s[n..]);
      var rest := WellFormedIsSpelled(s[n..]);
      var t := if s[0] == PERCENT then Pct(s[1], s[2]) else Plain(s[0]);
      tokens := [t] + rest;
      assert s == t.Spelling() + s[n..];
    }
  }

  // ---------------------------------------------------------------- the digits of an escape

  const HEX_UPPER: Str := Ascii("0123456789ABCDEF")
  const HEX_LOWER: Str := Ascii("0123456789abcdef")

  /** `hi` and `lo` are the digits of `c` in base sixteen, each in either case. */
  ghost predicate DigitsOf(c: Byte, hi: Byte, lo: Byte) {
    && (hi == HEX_UPPER[c as int / 16] || hi == HEX_LOWER[c as int / 16])
    && (lo == HEX_UPPER[c as int % 16] || lo == HEX_LOWER[c as int % 16])
  }

  lemma HexTable(n: nat, c: Byte)
    requires n < 16
    ensures HEX_UPPER[n] == c || HEX_LOWER[n] == c <==> Hex(c) && HexValue(c) == n
    ensures HEX_UPPER[n] == HexDigit(n)
  {
  }

  /** A percent sign and two bytes decode to `c` exactly if the two bytes are its digits, in either case. */
  lemma EscapeDecodes(c: Byte, hi: Byte, lo: Byte)
    ensures Decode([PERCENT, hi, lo]) == Decoded(true, [c]) <==> DigitsOf(c, hi, lo)
  {
    HexTable(c as int / 16, hi);
    HexTable(c as int % 16, lo);
    DecodeTriple(hi, lo);
    if Hex(hi) && Hex(lo) {
      var h, l := HexValue(hi), HexValue(lo);
      assert (16 * h + l) / 16 == h && (16 * h + l) % 16 == l;
    }
  }

  lemma DecodeTriple(hi: Byte, lo: Byte)
    ensures Decode([PERCENT, hi, lo]) ==
            if Hex(hi) && Hex(lo) then Decoded(true, [ByteOf(hi, lo)]) else Decoded(false, [])
  {
    assert [PERCENT, hi, lo][3..] == [];
  }

  /** The encoder's escapes: both digits, high one first, in upper case. */
  lemma EncodeOne(c: Byte, reserved: Str)
    ensures Encode([c], reserved) ==
            if Escaped(c, reserved) then [PERCENT, HEX_UPPER[c as int / 16], HEX_UPPER[c as int % 16]] else [c]
  {
    HexTable(c as int / 16, c);
    HexTable(c as int % 16, c);
    assert [c][1..] == [];
  }

  /** The same letter in the other case. */
  predicate OtherCase(c: Byte, d: Byte) {
    (Upper(c) && d as int == c as int + 0x20) || (Lower(c) && d as int == c as int - 0x20)
  }

  /** `t` is `s` with some letters one or two places after a percent sign in the other case. */
  ghost predicate Recased(s: Str, t: Str) {
    |t| == |s| && forall i :: 0 <= i < |s| ==> RecasedAt(s, t, i)
  }

  predicate RecasedAt(s: Str, t: Str, i: nat)
    requires i < |s| == |t|
  {
    t[i] == s[i] || (OtherCase(s[i], t[i]) && ((i > 0 && s[i - 1] == PERCENT) || (i > 1 && s[i - 2] == PERCENT)))
  }

  lemma SameDigit(c: Byte, d: Byte)
    requires c == d || OtherCase(c, d)
    ensures Hex(c) == Hex(d) && (Hex(c) ==> HexValue(c) == HexValue(d))
  {
  }

  lemma RecasedHead(s: Str, t: Str)
    requires Recased(s, t) && s != []
    ensures BadEscape(s) == BadEscape(t)
    ensures !BadEscape(s) ==> Width(s) == Width(t) && Head(s) == Head(t)
  {
    assert RecasedAt(s, t, 0);
    if |s| >= 3 {
      assert RecasedAt(s, t, 1) && RecasedAt(s, t, 2);
      SameDigit(s[1], t[1]);
      SameDigit(s[2], t[2]);
    }
  }

  /** Whether and what a text decodes to does not depend on the case of the digits of its escapes. */
  lemma {:induction false} DecodeIgnoresCase(s: Str, t: Str)
    requires Recased(s, t)
    ensures Decode(s) == Decode(t)
    decreases |s|
  {
    if s != [] {
      RecasedHead(s, t);
      if !BadEscape(s) {
        var n := Width(s);
        forall i | 0 <= i < |s| - n ensures RecasedAt(s[n..], t[n..], i) {
          assert RecasedAt(s, t, n + i);
        }
        DecodeIgnoresCase(s[n..], t[n..]);
      }
    }
  }

  // ---------------------------------------------------------------- the image of the encoder

  /**
    Every percent sign starts an uppercase escape of a byte that needs escaping, and every other
    byte needs none. The digits of an escape are unreserved, so they may be asked the same question.
   */
  ghost predicate Canonical(t: Str, reserved: Str) {
    forall i :: 0 <= i < |t| ==> CanonicalAt(t, i, reserved)
  }

  predicate CanonicalAt(t: Str, i: nat, reserved: Str)
    requires i < |t|
  {
    if t[i] == PERCENT then
      i + 2 < |t| && UpperHex(t[i + 1]) && UpperHex(t[i + 2]) && Escaped(ByteOf(t[i + 1], t[i + 2]), reserved)
    else
      !Escaped(t[i], reserved)
  }

  lemma CanonicalSuffix(t: Str, n: nat, reserved: Str)
    requires n <= |t|
    ensures forall i :: 0 <= i < |t| - n ==> CanonicalAt(t, n + i, reserved) == CanonicalAt(t[n..], i, reserved)
  {
  }

  lemma {:induction false} EncodeCanonical(s: Str, reserved: Str)
    ensures Canonical(Encode(s, reserved), reserved)
  {
    if s != [] {
      EncodeCanonical(s[1..], reserved);
      var e, rest := EncodeByte(s[0], reserved), Encode(s[1..], reserved);
      var t := e + rest;
      assert t[|e|..] == rest;
      CanonicalSuffix(t, |e|, reserved);
      forall i | 0 <= i < |t| ensures CanonicalAt(t, i, reserved) {
        if i >= |e| {
          assert CanonicalAt(rest, i - |e|, reserved);
          assert CanonicalAt(t, |e| + (i - |e|), reserved);
        }
      }
    }
  }

  lemma CanonicalHead(t: Str, reserved: Str)
    requires t != [] && Canonical(t, reserved)
    ensures !BadEscape(t) && EncodeByte(Head(t), reserved) == t[..Width(t)]
    ensures Canonical(t[Width(t)..], reserved)
  {
    assert CanonicalAt(t, 0, reserved);
    CanonicalSuffix(t, Width(t), reserved);
    if t[0] == PERCENT {
      EscapeOf(t[1], t[2]);
    }
  }

  lemma {:induction false} EncodeDecode(t: Str, reserved: Str)
    requires Canonical(t, reserved)
    ensures Decode(t).ok && Encode(Decode(t).text, reserved) == t
    decreases |t|
  {
    if t != [] {
      CanonicalHead(t, reserved);
      var rest := t[Width(t)..];
      EncodeDecode(rest, reserved);
      DecodeStep(t, rest);
      assert Decode(t).text[1..] == Decode(rest).text;
      assert t == t[..Width(t)] + rest;
    }
  }

  lemma EscapeOf(hi: Byte, lo: Byte)
    requires UpperHex(hi) && UpperHex(lo)
    ensures Escape(ByteOf(hi, lo)) == [PERCENT, hi, lo]
  {
    var h, l := HexValue(hi), HexValue(lo);
    assert (16 * h + l) / 16 == h && (16 * h + l) % 16 == l;
    assert HexDigit(h) == hi && HexDigit(l) == lo;
  }

  /** The image of `uriEncode` under a reserved set is exactly the canonical texts. */
  lemma EncodeImage(t: Str, reserved: Str)
    ensures (exists s :: Encode(s, reserved) == t) <==> Canonical(t, reserved)
  {
    if Canonical(t, reserved) {
      EncodeDecode(t, reserved);
    }
    if s :| Encode(s, reserved) == t {
      EncodeCanonical(s, reserved);
    }
  }
}
