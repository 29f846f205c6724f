/**
  What a printed query looks like from outside: which ones the `query` rule of section 3.4 of
  RFC 3986 admits, and where two dots in a row can come from.
 */
module QueryText {
  import opened Text
  import opened PercentCodec
  import opened Query

  lemma {:induction false} JoinMembers(parts: seq<Str>, sep: Byte, c: Byte)
    requires c != sep
    ensures c in Join(parts, sep) <==> exists p :: p in parts && c in p
  {
    if |parts| == 1 {
      assert parts[0] in parts;
    } else if |parts| > 1 {
      JoinMembers(parts[1..], sep, c);
      assert parts == [parts[0]] + parts[1..];
    }
  }

  /** Every key and every value of `m`, unescaped. */
  ghost function Texts(m: Fields): set<Str> {
    m.Keys + m.Values
  }

  lemma FieldOfPart(m: Fields, part: Str) returns (key: Str)
    requires part in EncodePairs(Entries(m))
    ensures key in m && part == EncodePair((key, m[key]))
  {
    EntriesMembers(m);
    var i :| 0 <= i < |Entries(m)| && EncodePairs(Entries(m))[i] == part;
    key := Entries(m)[i].0;
    assert Entries(m)[i] in Entries(m);
  }

  lemma PartOfField(m: Fields, key: Str)
    requires key in m
    ensures EncodePair((key, m[key])) in EncodePairs(Entries(m))
  {
    EntriesMembers(m);
    var i :| 0 <= i < |Entries(m)| && Entries(m)[i] == (key, m[key]);
    assert EncodePairs(Entries(m))[i] == EncodePair((key, m[key]));
  }

  lemma KeyOfText(m: Fields, t: Str) returns (key: Str)
    requires t in Texts(m)
    ensures key in m && (t == key || t == m[key])
  {
    if t in m {
      key := t;
    } else {
      key :| key in m && m[key] == t;
    }
  }

  /** A byte that is no delimiter was printed by some key or value. */
  lemma PrintedByText(m: Fields, c: Byte) returns (t: Str)
    requires c !in RESERVED && c in Flatten(m)
    ensures t in Texts(m) && c in Encode(t, RESERVED)
  {
    JoinMembers(EncodePairs(Entries(m)), AMPERSAND, c);
    var part :| part in EncodePairs(Entries(m)) && c in part;
    var key := FieldOfPart(m, part);
    t := if c in Encode(key, RESERVED) then key else m[key];
  }

  lemma TextPrints(m: Fields, t: Str, c: Byte)
    requires c !in RESERVED && t in Texts(m) && c in Encode(t, RESERVED)
    ensures c in Flatten(m)
  {
    JoinMembers(EncodePairs(Entries(m)), AMPERSAND, c);
    var key := KeyOfText(m, t);
    PartOfField(m, key);
    assert c in EncodePair((key, m[key]));
  }

  // ---------------------------------------------------------------- the query rule of RFC 3986

  /** `!`, `$`, `&`, `'`, `(`, `)`, `*`, `+`, `,`, `;`, `=` */
  const SUB_DELIMS: Str := [0x21, 0x24, 0x26, 0x27, 0x28, 0x29, 0x2A, 0x2B, 0x2C, 0x3B, 0x3D]

  /** A byte a query may hold as itself: unreserved, sub-delims, `:`, `@`, `/` or `?`. */
  predicate QueryByte(c: Byte) {
    Unreserved(c) || c in SUB_DELIMS || c == 0x3A || c == 0x40 || c == SLASH || c == QUESTION
  }

  /** `:`, `/`, `?`, `#`, `[`, `]`, `@` */
  const GEN_DELIMS: Str := [0x3A, SLASH, QUESTION, HASH, LEFT_BRACKET, RIGHT_BRACKET, 0x40]

  /**
    The encoder against sections 2.2 and 2.3 of RFC 3986: letters, digits, hyphen, period,
    underscore, tilde and the reserved bytes it was not told to escape stay; all others are escaped.
   */
  lemma EscapedByRule(c: Byte, reserved: Str)
    ensures var ch := c as int as char;
            var unreserved := 'A' <= ch <= 'Z' || 'a' <= ch <= 'z' || '0' <= ch <= '9' || ch in "-._~";
            Escaped(c, reserved) <==> !unreserved && (c in reserved || !(c in GEN_DELIMS || c in SUB_DELIMS))
  {
  }

  /** So a byte that a query may hold stays as it is unless it delimits the pairs of the query. */
  lemma {:induction false} QueryBytesStay(s: Str)
    requires forall c :: c in s ==> QueryByte(c) && c !in RESERVED
    ensures Encode(s, RESERVED) == s
  {
    if s != [] {
      EscapedByRule(s[0], RESERVED);
      QueryBytesStay(s[1..]);
      assert s == [s[0]] + s[1..];
    }
  }

  predicate QueryToken(t: Token) {
    match t
    case Plain(c) => QueryByte(c)
    case Pct(hi, lo) => Hex(hi) && Hex(lo)
  }

  /** `query = *( pchar / "/" / "?" )` */
  ghost predicate MatchesQueryRule(s: Str) {
    exists tokens :: Spell(tokens) == s && forall t :: t in tokens ==> QueryToken(t)
  }

  lemma {:induction false} TokenBytes(tokens: seq<Token>)
    requires forall t :: t in tokens ==> QueryToken(t)
    ensures forall c :: c in Spell(tokens) ==> c == PERCENT || QueryByte(c)
  {
    if tokens != [] {
      TokenBytes(tokens[1..]);
      assert QueryToken(tokens[0]);
    }
  }

  lemma {:induction false} TokensOfBytes(tokens: seq<Token>)
    requires forall t :: t in tokens ==> t.Valid()
    requires forall c :: c in Spell(tokens) ==> c == PERCENT || QueryByte(c)
    ensures forall t :: t in tokens ==> QueryToken(t)
  {
    if tokens != [] {
      var t, rest := tokens[0], Spell(tokens[1..]);
      assert Spell(tokens) == t.Spelling() + rest;
      assert t.Plain? ==> t.c in t.Spelling();
      TokensOfBytes(tokens[1..]);
      assert tokens == [t] + tokens[1..];
    }
  }

  lemma QueryRuleByBytes(s: Str)
    ensures MatchesQueryRule(s) <==> WellFormed(s) && forall c :: c in s ==> c == PERCENT || QueryByte(c)
  {
    if tokens :| Spell(tokens) == s && forall t :: t in tokens ==> QueryToken(t) {
      TokenBytes(tokens);
      assert forall t :: t in tokens ==> QueryToken(t) && t.Valid();
      DecodeSpelling(tokens);
      DecodesWellFormed(s);
    }
    if WellFormed(s) && forall c :: c in s ==> c == PERCENT || QueryByte(c) {
      var tokens := WellFormedIsSpelled(s);
      TokensOfBytes(tokens);
    }
  }

  predicate OutsideRule(c: Byte) {
    c == HASH || c == LEFT_BRACKET || c == RIGHT_BRACKET
  }

  lemma EncodedBytes(s: Str, reserved: Str, c: Byte)
    requires c in Encode(s, reserved)
    ensures c == PERCENT || !Escaped(c, reserved)
  {
  }

  lemma PrintedByte(m: Fields, c: Byte)
    requires c in Flatten(m)
    ensures c == PERCENT || QueryByte(c) || OutsideRule(c)
  {
    if c !in RESERVED {
      var t := PrintedByText(m, c);
      EncodedBytes(t, RESERVED, c);
      if c != PERCENT {
        UnescapedByte(c);
      }
    }
  }

  lemma UnescapedByte(c: Byte)
    requires !Escaped(c, RESERVED)
    ensures QueryByte(c) || OutsideRule(c)
  {
  }

  lemma OutsideUnescaped(c: Byte)
    requires OutsideRule(c)
    ensures !Escaped(c, RESERVED) && c !in RESERVED && c != PERCENT && !UpperHex(c)
  {
  }

  lemma OutsidePrinted(m: Fields, c: Byte)
    requires OutsideRule(c)
    ensures c in Flatten(m) <==> exists t :: t in Texts(m) && c in t
  {
    OutsideUnescaped(c);
    if c in Flatten(m) {
      var t := PrintedByText(m, c);
      EncodeMembers(t, RESERVED, c);
    }
    if t :| t in Texts(m) && c in t {
      EncodeMembers(t, RESERVED, c);
      TextPrints(m, t, c);
    }
  }

  predicate InRule(s: Str) {
    HASH !in s && LEFT_BRACKET !in s && RIGHT_BRACKET !in s
  }

  lemma FlattenWellFormed(m: Fields)
    ensures WellFormed(Flatten(m))
  {
    DecodeJoined(Entries(m));
    DecodesWellFormed(Flatten(m));
  }

  lemma OutsideIsOutside()
    ensures forall c :: OutsideRule(c) ==> c != PERCENT && !QueryByte(c)
  {
  }

  lemma RuleOfPrinted(m: Fields)
    ensures MatchesQueryRule(Flatten(m)) <==> InRule(Flatten(m))
  {
    var q := Flatten(m);
    FlattenWellFormed(m);
    QueryRuleByBytes(q);
    forall c | c in q ensures c == PERCENT || QueryByte(c) || OutsideRule(c) {
      PrintedByte(m, c);
    }
    OutsideIsOutside();
  }

  /** The encoder leaves `#`, `[` and `]` alone, and everything else it leaves alone a query may hold. */
  lemma QueryRuleFlatten(m: Fields)
    ensures MatchesQueryRule(Flatten(m)) <==> forall t :: t in Texts(m) ==> InRule(t)
  {
    RuleOfPrinted(m);
    OutsidePrinted(m, HASH);
    OutsidePrinted(m, LEFT_BRACKET);
    OutsidePrinted(m, RIGHT_BRACKET);
    assert forall t :: t in Texts(m) && !InRule(t) ==> HASH in t || LEFT_BRACKET in t || RIGHT_BRACKET in t;
  }

  // ---------------------------------------------------------------- two dots in a row

  predicate HasDotDot(s: Str) {
    exists i :: 0 <= i < |s| - 1 && s[i] == DOT && s[i + 1] == DOT
  }

  lemma DotDotConcat(a: Str, b: Str)
    ensures HasDotDot(a + b) <==>
            HasDotDot(a) || HasDotDot(b) || (a != [] && b != [] && a[|a| - 1] == DOT && b[0] == DOT)
  {
    var s := a + b;
    if i :| 0 <= i < |s| - 1 && s[i] == DOT && s[i + 1] == DOT {
      if i >= |a| {
        assert b[i - |a|] == DOT && b[i - |a| + 1] == DOT;
      }
    }
    if i :| 0 <= i < |a| - 1 && a[i] == DOT && a[i + 1] == DOT {
      assert s[i] == DOT && s[i + 1] == DOT;
    }
    if i :| 0 <= i < |b| - 1 && b[i] == DOT && b[i + 1] == DOT {
      assert s[|a| + i] == DOT && s[|a| + i + 1] == DOT;
    }
    if a != [] && b != [] && a[|a| - 1] == DOT && b[0] == DOT {
      assert s[|a| - 1] == DOT && s[|a| - 1 + 1] == DOT;
    }
  }

  lemma DotDotSeparated(a: Str, sep: Byte, b: Str)
    requires sep != DOT
    ensures HasDotDot(a + [sep] + b) <==> HasDotDot(a) || HasDotDot(b)
  {
    DotDotConcat(a, [sep]);
    DotDotConcat(a + [sep], b);
  }

  /** Encoding neither makes nor hides a pair of dots. */
  lemma {:induction false} DotDotEncode(s: Str, reserved: Str)
    ensures HasDotDot(Encode(s, reserved)) <==> HasDotDot(s)
  {
    if s != [] {
      var e, rest := EncodeByte(s[0], reserved), Encode(s[1..], reserved);
      DotDotEncode(s[1..], reserved);
      DotDotConcat(e, rest);
      DotDotConcat([s[0]], s[1..]);
      assert s == [s[0]] + s[1..];
      assert !HasDotDot(e);
      assert e[|e| - 1] == DOT <==> s[0] == DOT;
      if s[1..] != [] {
        assert rest[0] == EncodeByte(s[1..][0], reserved)[0];
      }
    }
  }

  lemma {:induction false} DotDotJoin(parts: seq<Str>, sep: Byte)
    requires sep != DOT
    ensures HasDotDot(Join(parts, sep)) <==> exists p :: p in parts && HasDotDot(p)
  {
    if |parts| == 1 {
      assert parts[0] in parts;
    } else if |parts| > 1 {
      DotDotJoin(parts[1..], sep);
      DotDotSeparated(parts[0], sep, Join(parts[1..], sep));
      assert parts == [parts[0]] + parts[1..];
    }
  }

  lemma DotDotPair(p: Pair)
    ensures HasDotDot(EncodePair(p)) <==> HasDotDot(p.0) || HasDotDot(p.1)
  {
    DotDotEncode(p.0, RESERVED);
    DotDotEncode(p.1, RESERVED);
    DotDotSeparated(Encode(p.0, RESERVED), EQUALS, Encode(p.1, RESERVED));
  }

  lemma DotDotFlatten(m: Fields)
    ensures HasDotDot(Flatten(m)) <==> exists t :: t in Texts(m) && HasDotDot(t)
  {
    DotDotJoin(EncodePairs(Entries(m)), AMPERSAND);
    if part :| part in EncodePairs(Entries(m)) && HasDotDot(part) {
      var key := FieldOfPart(m, part);
      DotDotPair((key, m[key]));
      assert key in Texts(m) && m[key] in Texts(m);
    }
    if t :| t in Texts(m) && HasDotDot(t) {
      var key := KeyOfText(m, t);
      PartOfField(m, key);
      DotDotPair((key, m[key]));
    }
  }
}
