/**
  Cookies: the two formats `CookieImpl::toString` prints (Netscape, and section 4.2.2 of RFC 2109)
  and the constructor that reads a cookie from a map of attributes.
 */
module Cookie {
  import opened Text
  import opened Query

  type Int32 = x: int | -0x8000_0000 <= x < 0x8000_0000

  datatype SameSite = Unspecified | Unrestricted | Lax | Strict

  datatype CookieData = CookieData(
    version: Int32, name: Str, value: Str, comment: Str, domain: Str, path: Str, priority: Str,
    secure: bool, maxAge: Int32, httpOnly: bool, sameSite: SameSite)

  /** A cookie without attributes; a max-age of -1 means none was set. */
  const EMPTY := CookieData(0, [], [], [], [], [], [], false, -1, false, Unspecified)

  // ---------------------------------------------------------------- decimal numbers

  const MINUS: Byte := 0x2D
  const PLUS: Byte := 0x2B

  predicate IsSpace(c: Byte) {
    c == SPACE || 0x09 <= c <= 0x0D
  }

  function DecimalNat(n: nat): (s: Str)
    ensures s != [] && forall c :: c in s ==> Digit(c)
    ensures if n == 0 then s == Ascii("0") else s[0] != 0x30
  {
    if n < 10 then [(0x30 + n) as Byte] else DecimalNat(n / 10) + [(0x30 + n % 10) as Byte]
  }

  /** `std::to_string` of an `int`. */
  function Decimal(n: int): Str {
    if n < 0 then [MINUS] + DecimalNat(-n) else DecimalNat(n)
  }

  function NatValue(digits: Str): nat
    requires forall c :: c in digits ==> Digit(c)
  {
    if digits == [] then
      0
    else
      var last := digits[|digits| - 1];
      assert last in digits && Digit(last);
      10 * NatValue(digits[..|digits| - 1]) + (last as int - 0x30)
  }

  function SkipSpaces(s: Str): Str {
    if s != [] && IsSpace(s[0]) then SkipSpaces(s[1..]) else s
  }

  function DigitPrefix(s: Str): (d: Str)
    ensures forall c :: c in d ==> Digit(c)
  {
    if s != [] && Digit(s[0]) then [s[0]] + DigitPrefix(s[1..]) else []
  }

  /** What `strtol` converts: leading white space, a sign, and the digits up to the first other byte. */
  function ParseInt(s: Str): Option<int> {
    var t := SkipSpaces(s);
    var signed := t != [] && (t[0] == MINUS || t[0] == PLUS);
    var digits := DigitPrefix(if signed then t[1..] else t);
    var n: int := NatValue(digits);
    if digits == [] then None else Some(if signed && t[0] == MINUS then -n else n)
  }

  /** `std::stoi`; `None` is a thrown exception, for no digits or a value that is no `int`. */
  function Stoi(s: Str): Option<Int32> {
    match ParseInt(s)
    case None => None
    case Some(n) => if -0x8000_0000 <= n < 0x8000_0000 then Some(n) else None
  }

  lemma {:induction false} NatValueDecimal(n: nat)
    ensures NatValue(DecimalNat(n)) == n
  {
    if n >= 10 {
      NatValueDecimal(n / 10);
      var s := DecimalNat(n);
      assert s[..|s| - 1] == DecimalNat(n / 10);
    } else {
      assert NatValue(DecimalNat(n)[..0]) == 0;
    }
  }

  function Power10(k: nat): nat {
    if k == 0 then 1 else 10 * Power10(k - 1)
  }

  lemma NatValueLast(front: Str, last: Byte)
    requires forall c :: c in front + [last] ==> Digit(c)
    ensures (forall c :: c in front ==> Digit(c)) && Digit(last)
    ensures NatValue(front + [last]) == 10 * NatValue(front) + (last as int - 0x30)
  {
    var s := front + [last];
    assert s[..|s| - 1] == front && s[|s| - 1] == last && last in s;
    assert forall c :: c in front ==> c in s;
  }

  lemma Shift(x: nat, p: nat, y: nat)
    ensures 10 * (x * p + y) == x * (10 * p) + 10 * y
  {
  }

  /** Decimal notation: a digit counts for itself, and every digit after it for a factor of ten. */
  lemma {:induction false} NatValueConcat(a: Str, b: Str)
    requires (forall c :: c in a ==> Digit(c)) && (forall c :: c in b ==> Digit(c))
    ensures NatValue(a + b) == NatValue(a) * Power10(|b|) + NatValue(b)
    ensures |a| == 1 ==> NatValue(a) == a[0] as int - 0x30
    decreases |b|
  {
    hide NatValue;
    if |a| == 1 {
      assert [] + [a[0]] == a;
      NatValueLast([], a[0]);
      NatValueEmpty();
    }
    if b == [] {
      assert a + b == a;
      NatValueEmpty();
    } else {
      var front, last := b[..|b| - 1], b[|b| - 1];
      assert a + b == (a + front) + [last] && b == front + [last];
      NatValueLast(a + front, last);
      NatValueLast(front, last);
      NatValueConcat(a, front);
      Shift(NatValue(a), Power10(|front|), NatValue(front));
    }
  }

  lemma NatValueEmpty()
    ensures NatValue([]) == 0
  {
  }

  lemma {:induction false} SkipSpacesAll(spaces: Str, rest: Str)
    requires forall c :: c in spaces ==> IsSpace(c)
    requires rest == [] || !IsSpace(rest[0])
    ensures SkipSpaces(spaces + rest) == rest
  {
    if spaces == [] {
      assert spaces + rest == rest;
    } else {
      assert (spaces + rest)[1..] == spaces[1..] + rest;
      SkipSpacesAll(spaces[1..], rest);
    }
  }

  lemma {:induction false} DigitPrefixStops(digits: Str, rest: Str)
    requires forall c :: c in digits ==> Digit(c)
    requires rest == [] || !Digit(rest[0])
    ensures DigitPrefix(digits + rest) == digits
  {
    if digits == [] {
      assert digits + rest == rest;
    } else {
      assert (digits + rest)[1..] == digits[1..] + rest;
      DigitPrefixStops(digits[1..], rest);
      assert digits == [digits[0]] + digits[1..];
    }
  }

  /** A text cut as `strtol` cuts it: white space, a sign or none, digits, and what stops them. */
  datatype NumberText = NumberText(spaces: Str, sign: Str, digits: Str, rest: Str) {
    ghost predicate Valid() {
      && (forall c :: c in spaces ==> c in Ascii(" \t\n\r") || c == 0x0B || c == 0x0C)
      && (sign == [] || sign == Ascii("-") || sign == Ascii("+"))
      && digits != [] && (forall c :: c in digits ==> Digit(c))
      && (rest == [] || !Digit(rest[0]))
    }

    function Text(): Str {
      spaces + (sign + (digits + rest))
    }

    function Number(): int
      requires forall c :: c in digits ==> Digit(c)
    {
      if sign == Ascii("-") then 0 - NatValue(digits) else NatValue(digits)
    }
  }

  lemma SpaceBytes(c: Byte)
    ensures IsSpace(c) <==> c in Ascii(" \t\n\r") || c == 0x0B || c == 0x0C
  {
    var blanks := Ascii(" \t\n\r");
    assert blanks[0] == 0x20 && blanks[1] == 0x09 && blanks[2] == 0x0A && blanks[3] == 0x0D;
  }

  /** Every text that can be cut so is read as the number its sign and digits spell. */
  lemma ParseIntReads(t: NumberText)
    requires t.Valid()
    ensures ParseInt(t.Text()) == Some(t.Number())
  {
    var numeral := t.sign + (t.digits + t.rest);
    forall c: Byte ensures IsSpace(c) <==> c in Ascii(" \t\n\r") || c == 0x0B || c == 0x0C {
      SpaceBytes(c);
    }
    assert Ascii("-") == [MINUS] && Ascii("+") == [PLUS];
    assert t.digits[0] in t.digits;
    assert numeral[0] == if t.sign == [] then t.digits[0] else t.sign[0];
    SkipSpacesAll(t.spaces, numeral);
    DigitPrefixStops(t.digits, t.rest);
    if t.sign == [] {
      assert numeral == t.digits + t.rest;
    } else {
      assert numeral[1..] == t.digits + t.rest;
    }
  }

  lemma {:induction false} SpacesSkipped(s: Str) returns (spaces: Str)
    ensures s == spaces + SkipSpaces(s) && forall c :: c in spaces ==> IsSpace(c)
  {
    if s != [] && IsSpace(s[0]) {
      hide IsSpace;
      var more := SpacesSkipped(s[1..]);
      spaces := [s[0]] + more;
      assert s == [s[0]] + (more + SkipSpaces(s[1..]));
    } else {
      spaces := [];
    }
  }

  lemma {:induction false} AfterDigits(s: Str) returns (rest: Str)
    ensures s == DigitPrefix(s) + rest && (rest == [] || !Digit(rest[0]))
  {
    if s != [] && Digit(s[0]) {
      rest := AfterDigits(s[1..]);
      assert s == [s[0]] + s[1..];
    } else {
      rest := s;
    }
  }

  /** And only such a text is read as a number. */
  lemma ParseIntOnlyReads(s: Str) returns (t: NumberText)
    requires ParseInt(s).Some?
    ensures t.Valid() && t.Text() == s
  {
    var spaces := SpacesSkipped(s);
    var numeral := SkipSpaces(s);
    var signed := numeral != [] && (numeral[0] == MINUS || numeral[0] == PLUS);
    var sign := if signed then numeral[..1] else [];
    var rest := AfterDigits(if signed then numeral[1..] else numeral);
    var digits := DigitPrefix(if signed then numeral[1..] else numeral);
    forall c | c in spaces ensures c in Ascii(" \t\n\r") || c == 0x0B || c == 0x0C {
      SpaceBytes(c);
    }
    assert Ascii("-") == [MINUS] && Ascii("+") == [PLUS];
    t := NumberText(spaces, sign, digits, rest);
    assert numeral == sign + (digits + rest);
  }

  predicate IsInt(n: int) {
    -0x8000_0000 <= n < 0x8000_0000
  }

  /** `stoi` succeeds exactly on the texts that can be cut so with a number that is an `int`, and returns it. */
  lemma StoiReads(s: Str)
    ensures Stoi(s).Some? <==> exists t: NumberText :: t.Valid() && t.Text() == s && IsInt(t.Number())
    ensures forall t: NumberText :: t.Valid() && t.Text() == s && IsInt(t.Number()) ==> Stoi(s) == Some(t.Number())
  {
    hide ParseInt;
    forall t: NumberText | t.Valid() && t.Text() == s ensures ParseInt(s) == Some(t.Number()) {
      ParseIntReads(t);
    }
    if ParseInt(s).Some? {
      var t := ParseIntOnlyReads(s);
    }
  }

  lemma ParseDigits(s: Str)
    requires s != [] && forall c :: c in s ==> Digit(c)
    ensures ParseInt(s) == Some(NatValue(s))
    ensures ParseInt([MINUS] + s) == Some(0 - NatValue(s))
  {
    hide ParseInt;
    var plain, negative := NumberText([], [], s, []), NumberText([], Ascii("-"), s, []);
    ParseIntReads(plain);
    ParseIntReads(negative);
    assert plain.Text() == s && negative.Text() == [MINUS] + s;
  }

  /** Every `int` survives printing and reading back, so its printed form determines it. */
  lemma StoiDecimal(n: Int32)
    ensures Stoi(Decimal(n)) == Some(n)
  {
    var m: nat := if n < 0 then -(n as int) else n;
    NatValueDecimal(m);
    ParseDigits(DecimalNat(m));
  }

  lemma DecimalBytes(n: int)
    ensures QUOTE !in Decimal(n) && Decimal(n) != []
  {
  }

  // ---------------------------------------------------------------- printing

  const DOMAIN_0: Str := Ascii("; domain=")
  const PATH_0: Str := Ascii("; path=")
  const PRIORITY_0: Str := Ascii("; Priority=")
  const EXPIRES_0: Str := Ascii("; expires=")
  const COMMENT_1: Str := Ascii("; Comment=\"")
  const DOMAIN_1: Str := Ascii("; Domain=\"")
  const PATH_1: Str := Ascii("; Path=\"")
  const PRIORITY_1: Str := Ascii("; Priority=\"")
  const MAX_AGE_1: Str := Ascii("; Max-Age=\"")
  const VERSION_1: Str := Ascii("; Version=\"1\"")
  const SAME_SITE: Str := Ascii("; SameSite=")
  const NONE: Str := Ascii("None")
  const LAX: Str := Ascii("Lax")
  const STRICT: Str := Ascii("Strict")
  const SECURE: Str := Ascii("; secure")
  const HTTP_ONLY: Str := Ascii("; HttpOnly")

  function Plain(tag: Str, text: Str): Str {
    if text == [] then [] else tag + text
  }

  function Quoted(tag: Str, text: Str): Str {
    if text == [] then [] else tag + text + [QUOTE]
  }

  function Flag(tag: Str, on: bool): Str {
    if on then tag else []
  }

  function SameSiteWord(s: SameSite): Str {
    match s
    case Unspecified => []
    case Unrestricted => NONE
    case Lax => LAX
    case Strict => STRICT
  }

  function AgeText(maxAge: Int32): Str {
    if maxAge == -1 then [] else Decimal(maxAge)
  }

  // What is printed from some point on; the tail names say which attribute comes first.

  function FlagsTail(c: CookieData, end: Str): Str {
    Plain(SAME_SITE, SameSiteWord(c.sameSite)) + SecureTail(c, end)
  }

  function SecureTail(c: CookieData, end: Str): Str {
    Flag(SECURE, c.secure) + HttpOnlyTail(c, end)
  }

  function HttpOnlyTail(c: CookieData, end: Str): Str {
    Flag(HTTP_ONLY, c.httpOnly) + end
  }

  function PathTail0(c: CookieData, expires: Str): Str {
    Plain(PATH_0, c.path) + PriorityTail0(c, expires)
  }

  function PriorityTail0(c: CookieData, expires: Str): Str {
    Plain(PRIORITY_0, c.priority) + ExpiresTail0(c, expires)
  }

  function ExpiresTail0(c: CookieData, expires: Str): Str {
    Flag(EXPIRES_0 + expires, c.maxAge != -1) + FlagsTail(c, [])
  }

  function DomainTail1(c: CookieData): Str {
    Quoted(DOMAIN_1, c.domain) + PathTail1(c)
  }

  function PathTail1(c: CookieData): Str {
    Quoted(PATH_1, c.path) + PriorityTail1(c)
  }

  function PriorityTail1(c: CookieData): Str {
    Quoted(PRIORITY_1, c.priority) + AgeTail1(c)
  }

  function AgeTail1(c: CookieData): Str {
    Quoted(MAX_AGE_1, AgeText(c.maxAge)) + FlagsTail(c, VERSION_1)
  }

  /** The Netscape format; `expires` is the formatted date that lies max-age seconds ahead. */
  function Render0(c: CookieData, expires: Str): Str {
    c.name + [EQUALS] + c.value + (Plain(DOMAIN_0, c.domain) + PathTail0(c, expires))
  }

  /** The RFC 2109 format. */
  function Render1(c: CookieData): Str {
    c.name + [EQUALS] + ([QUOTE] + c.value + [QUOTE]) + (Quoted(COMMENT_1, c.comment) + DomainTail1(c))
  }

  function Render(c: CookieData, expires: Str): Str {
    if c.version == 0 then Render0(c, expires) else Render1(c)
  }

  /** `; SameSite=` and its word. */
  function SameSiteSpelled(s: SameSite): Str {
    match s
    case Unspecified => []
    case Unrestricted => Ascii("; SameSite=None")
    case Lax => Ascii("; SameSite=Lax")
    case Strict => Ascii("; SameSite=Strict")
  }

  lemma FlagsSpelled(done: Str, c: CookieData, end: Str)
    ensures done + FlagsTail(c, end) ==
            done + SameSiteSpelled(c.sameSite)
              + (if c.secure then Ascii("; secure") else [])
              + (if c.httpOnly then Ascii("; HttpOnly") else [])
              + end
  {
    var s := Plain(SAME_SITE, SameSiteWord(c.sameSite));
    assert s == SameSiteSpelled(c.sameSite);
    Grow(done, s, SecureTail(c, end));
    Grow(done + s, Flag(SECURE, c.secure), HttpOnlyTail(c, end));
    Grow(done + s + Flag(SECURE, c.secure), Flag(HTTP_ONLY, c.httpOnly), end);
  }

  /** The Netscape format, spelled out. */
  lemma NetscapeSpelled(c: CookieData, expires: Str)
    requires c.version == 0
    ensures Render(c, expires) ==
            c.name + Ascii("=") + c.value
              + (if c.domain != [] then Ascii("; domain=") + c.domain else [])
              + (if c.path != [] then Ascii("; path=") + c.path else [])
              + (if c.priority != [] then Ascii("; Priority=") + c.priority else [])
              + (if c.maxAge != -1 then Ascii("; expires=") + expires else [])
              + SameSiteSpelled(c.sameSite)
              + (if c.secure then Ascii("; secure") else [])
              + (if c.httpOnly then Ascii("; HttpOnly") else [])
  {
    assert Ascii("=") == [EQUALS];
    var s0 := c.name + Ascii("=") + c.value;
    var s1 := s0 + Plain(DOMAIN_0, c.domain);
    var s2 := s1 + Plain(PATH_0, c.path);
    var s3 := s2 + Plain(PRIORITY_0, c.priority);
    var s4 := s3 + Flag(EXPIRES_0 + expires, c.maxAge != -1);
    Grow(s0, Plain(DOMAIN_0, c.domain), PathTail0(c, expires));
    Grow(s1, Plain(PATH_0, c.path), PriorityTail0(c, expires));
    Grow(s2, Plain(PRIORITY_0, c.priority), ExpiresTail0(c, expires));
    Grow(s3, Flag(EXPIRES_0 + expires, c.maxAge != -1), FlagsTail(c, []));
    FlagsSpelled(s4, c, []);
  }

  /** The RFC 2109 format, spelled out. */
  lemma Rfc2109Spelled(c: CookieData, expires: Str)
    requires c.version != 0
    ensures Render(c, expires) ==
            c.name + Ascii("=") + (Ascii("\"") + c.value + Ascii("\""))
              + (if c.comment != [] then Ascii("; Comment=\"") + c.comment + Ascii("\"") else [])
              + (if c.domain != [] then Ascii("; Domain=\"") + c.domain + Ascii("\"") else [])
              + (if c.path != [] then Ascii("; Path=\"") + c.path + Ascii("\"") else [])
              + (if c.priority != [] then Ascii("; Priority=\"") + c.priority + Ascii("\"") else [])
              + (if c.maxAge != -1 then Ascii("; Max-Age=\"") + Decimal(c.maxAge) + Ascii("\"") else [])
              + SameSiteSpelled(c.sameSite)
              + (if c.secure then Ascii("; secure") else [])
              + (if c.httpOnly then Ascii("; HttpOnly") else [])
              + Ascii("; Version=\"1\"")
  {
    assert Ascii("=") == [EQUALS] && Ascii("\"") == [QUOTE];
    DecimalBytes(c.maxAge);
    var s0 := c.name + Ascii("=") + (Ascii("\"") + c.value + Ascii("\""));
    var s1 := s0 + Quoted(COMMENT_1, c.comment);
    var s2 := s1 + Quoted(DOMAIN_1, c.domain);
    var s3 := s2 + Quoted(PATH_1, c.path);
    var s4 := s3 + Quoted(PRIORITY_1, c.priority);
    Grow(s0, Quoted(COMMENT_1, c.comment), DomainTail1(c));
    Grow(s1, Quoted(DOMAIN_1, c.domain), PathTail1(c));
    Grow(s2, Quoted(PATH_1, c.path), PriorityTail1(c));
    Grow(s3, Quoted(PRIORITY_1, c.priority), AgeTail1(c));
    Grow(s4, Quoted(MAX_AGE_1, AgeText(c.maxAge)), FlagsTail(c, VERSION_1));
    FlagsSpelled(s4 + Quoted(MAX_AGE_1, AgeText(c.maxAge)), c, VERSION_1);
  }

  // ---------------------------------------------------------------- the object

  const COMMENT: Str := Ascii("comment")
  const DOMAIN: Str := Ascii("domain")
  const MAX_AGE: Str := Ascii("max-age")
  const SECURE_KEY: Str := Ascii("secure")
  const EXPIRES: Str := Ascii("expires")
  const SAME_SITE_KEY: Str := Ascii("SameSite")
  const VERSION: Str := Ascii("version")
  const HTTP_ONLY_KEY: Str := Ascii("HttpOnly")

  /** The attribute names the map constructor recognises. */
  predicate IsWord(key: Str) {
    key == COMMENT || key == DOMAIN || key == PATH || key == PRIORITY || key == MAX_AGE || key == SECURE_KEY ||
    key == EXPIRES || key == SAME_SITE_KEY || key == VERSION || key == HTTP_ONLY_KEY
  }

  function SameSiteOf(word: Str, otherwise: SameSite): SameSite {
    if word == NONE then Unrestricted
    else if word == LAX then Lax
    else if word == STRICT then Strict
    else otherwise
  }

  /** What one pair of a map does to a cookie; `None` is a thrown exception. */
  function WithAttribute(c: CookieData, key: Str, value: Str, secondsUntil: Str -> Int32): Option<CookieData> {
    if key == COMMENT then Some(c.(comment := value))
    else if key == DOMAIN then Some(c.(domain := value))
    else if key == PATH then Some(c.(path := value))
    else if key == PRIORITY then Some(c.(priority := value))
    else if key == MAX_AGE then (match Stoi(value) case None => None case Some(n) => Some(c.(maxAge := n)))
    else if key == SECURE_KEY then Some(c.(secure := true))
    else if key == EXPIRES then Some(c.(maxAge := secondsUntil(value)))
    else if key == SAME_SITE_KEY then Some(c.(sameSite := SameSiteOf(value, c.sameSite)))
    else if key == VERSION then (match Stoi(value) case None => None case Some(n) => Some(c.(version := n)))
    else if key == HTTP_ONLY_KEY then Some(c.(httpOnly := true))
    else Some(c.(name := key, value := value))
  }

  /** A map with a `max-age` or a `version` that is no number. */
  predicate Throws(nvc: Fields) {
    (MAX_AGE in nvc && Stoi(nvc[MAX_AGE]).None?) || (VERSION in nvc && Stoi(nvc[VERSION]).None?)
  }

  function FieldOr(nvc: Fields, key: Str): Str {
    if key in nvc then nvc[key] else []
  }

  /** What the constructor makes of a map it does not throw on. */
  ghost predicate Reads(nvc: Fields, secondsUntil: Str -> Int32, c: CookieData) {
    && NameRead(nvc, c.name, c.value)
    && TextsRead(nvc, c.comment, c.domain, c.path, c.priority)
    && NumbersRead(nvc, secondsUntil, c.version, c.maxAge)
    && FlagsRead(nvc, c.secure, c.httpOnly, c.sameSite)
  }

  ghost predicate TextsRead(nvc: Fields, comment: Str, domain: Str, path: Str, priority: Str) {
    && comment == FieldOr(nvc, COMMENT)
    && domain == FieldOr(nvc, DOMAIN)
    && path == FieldOr(nvc, PATH)
    && priority == FieldOr(nvc, PRIORITY)
  }

  /** `max-age` comes after `expires` in key order and overrides it. */
  ghost predicate NumbersRead(nvc: Fields, secondsUntil: Str -> Int32, version: Int32, maxAge: Int32) {
    && !Throws(nvc)
    && version == (if VERSION in nvc then Stoi(nvc[VERSION]).value else 0)
    && maxAge == (if MAX_AGE in nvc then Stoi(nvc[MAX_AGE]).value
                  else if EXPIRES in nvc then secondsUntil(nvc[EXPIRES]) else -1)
  }

  ghost predicate FlagsRead(nvc: Fields, secure: bool, httpOnly: bool, sameSite: SameSite) {
    && secure == (SECURE_KEY in nvc)
    && httpOnly == (HTTP_ONLY_KEY in nvc)
    && sameSite == (if SAME_SITE_KEY in nvc then SameSiteOf(nvc[SAME_SITE_KEY], Unspecified) else Unspecified)
  }

  /** The greatest key that is no attribute name is the cookie's name. */
  ghost predicate NameRead(nvc: Fields, name: Str, value: Str) {
    if forall k :: k in nvc ==> IsWord(k) then
      name == [] && value == []
    else
      && name in nvc && !IsWord(name) && value == nvc[name]
      && forall k :: k in nvc && !IsWord(k) ==> k == name || Less(k, name)
  }

  lemma NameReadStep(walked: Fields, name: Str, value: Str, key: Str, v: Str)
    requires NameRead(walked, name, value)
    requires key !in walked && forall k :: k in walked ==> Less(k, key)
    ensures if IsWord(key) then NameRead(walked[key := v], name, value) else NameRead(walked[key := v], key, v)
  {
  }

  lemma TextsStep(walked: Fields, c: CookieData, key: Str, v: Str)
    requires TextsRead(walked, c.comment, c.domain, c.path, c.priority)
    ensures TextsRead(
              walked[key := v], if key == COMMENT then v else c.comment, if key == DOMAIN then v else c.domain,
              if key == PATH then v else c.path, if key == PRIORITY then v else c.priority)
  {
  }

  lemma NumbersStep(walked: Fields, secondsUntil: Str -> Int32, c: CookieData, key: Str, v: Str)
    requires NumbersRead(walked, secondsUntil, c.version, c.maxAge)
    requires key !in walked && forall k :: k in walked ==> Less(k, key)
    ensures if (key == MAX_AGE || key == VERSION) && Stoi(v).None? then
              Throws(walked[key := v])
            else
              NumbersRead(
                walked[key := v], secondsUntil, if key == VERSION then Stoi(v).value else c.version,
                if key == MAX_AGE then Stoi(v).value else if key == EXPIRES then secondsUntil(v) else c.maxAge)
  {
  }

  lemma FlagsStep(walked: Fields, c: CookieData, key: Str, v: Str)
    requires FlagsRead(walked, c.secure, c.httpOnly, c.sameSite) && key !in walked
    ensures FlagsRead(
              walked[key := v], c.secure || key == SECURE_KEY, c.httpOnly || key == HTTP_ONLY_KEY,
              if key == SAME_SITE_KEY then SameSiteOf(v, c.sameSite) else c.sameSite)
  {
  }

  lemma AttributeFields(c: CookieData, key: Str, v: Str, secondsUntil: Str -> Int32)
    ensures match WithAttribute(c, key, v, secondsUntil)
            case None => (key == MAX_AGE || key == VERSION) && Stoi(v).None?
            case Some(d) =>
              && !((key == MAX_AGE || key == VERSION) && Stoi(v).None?)
              && d.version == (if key == VERSION then Stoi(v).value else c.version)
              && d.name == (if IsWord(key) then c.name else key)
              && d.value == (if IsWord(key) then c.value else v)
              && d.comment == (if key == COMMENT then v else c.comment)
              && d.domain == (if key == DOMAIN then v else c.domain)
              && d.path == (if key == PATH then v else c.path)
              && d.priority == (if key == PRIORITY then v else c.priority)
              && d.secure == (c.secure || key == SECURE_KEY)
              && d.maxAge == (if key == MAX_AGE then Stoi(v).value
                              else if key == EXPIRES then secondsUntil(v) else c.maxAge)
              && d.httpOnly == (c.httpOnly || key == HTTP_ONLY_KEY)
              && d.sameSite == (if key == SAME_SITE_KEY then SameSiteOf(v, c.sameSite) else c.sameSite)
  {
    WordShapes();
  }

  /** Adding a pair with a key above all others changes what is read as one step of the constructor does. */
  lemma ReadsStep(walked: Fields, secondsUntil: Str -> Int32, c: CookieData, key: Str, v: Str)
    requires Reads(walked, secondsUntil, c)
    requires key !in walked && forall k :: k in walked ==> Less(k, key)
    ensures match WithAttribute(c, key, v, secondsUntil)
            case None => Throws(walked[key := v])
            case Some(d) => Reads(walked[key := v], secondsUntil, d)
  {
    NameReadStep(walked, c.name, c.value, key, v);
    TextsStep(walked, c, key, v);
    NumbersStep(walked, secondsUntil, c, key, v);
    FlagsStep(walked, c, key, v);
    AttributeFields(c, key, v, secondsUntil);
  }

  /** The length and the first byte tell the attribute names apart. */
  lemma WordShapes()
    ensures |COMMENT| == 7 && COMMENT[0] == 0x63 && |DOMAIN| == 6 && DOMAIN[0] == 0x64
    ensures |PATH| == 4 && |PRIORITY| == 8 && PRIORITY[0] == 0x70
    ensures |MAX_AGE| == 7 && MAX_AGE[0] == 0x6D && |SECURE_KEY| == 6 && SECURE_KEY[0] == 0x73
    ensures |EXPIRES| == 7 && EXPIRES[0] == 0x65 && |VERSION| == 7 && VERSION[0] == 0x76
    ensures |SAME_SITE_KEY| == 8 && SAME_SITE_KEY[0] == 0x53 && |HTTP_ONLY_KEY| == 8 && HTTP_ONLY_KEY[0] == 0x48
    ensures Less(EXPIRES, MAX_AGE)
  {
  }

  lemma Words(key: Str)
    ensures IsWord(key) <==>
            key in {Ascii("comment"), Ascii("domain"), Ascii("path"), Ascii("priority"), Ascii("max-age"),
                    Ascii("secure"), Ascii("expires"), Ascii("SameSite"), Ascii("version"), Ascii("HttpOnly")}
  {
  }

  // The reading of a map, attribute by attribute, with the names as the map spells them.

  lemma ThrowsMeans(nvc: Fields)
    ensures Throws(nvc) <==>
            exists key :: (key == Ascii("max-age") || key == Ascii("version")) && key in nvc && Stoi(nvc[key]).None?
  {
    if Throws(nvc) {
      var key := if MAX_AGE in nvc && Stoi(nvc[MAX_AGE]).None? then MAX_AGE else VERSION;
      assert key in nvc && Stoi(nvc[key]).None?;
    }
  }

  lemma ReadsTexts(nvc: Fields, secondsUntil: Str -> Int32, c: CookieData)
    requires Reads(nvc, secondsUntil, c)
    ensures c.comment == FieldOr(nvc, Ascii("comment")) && c.domain == FieldOr(nvc, Ascii("domain"))
    ensures c.path == FieldOr(nvc, Ascii("path")) && c.priority == FieldOr(nvc, Ascii("priority"))
  {
  }

  lemma ReadsNumbers(nvc: Fields, secondsUntil: Str -> Int32, c: CookieData)
    requires Reads(nvc, secondsUntil, c)
    ensures if Ascii("max-age") in nvc then Some(c.maxAge) == Stoi(nvc[Ascii("max-age")])
            else if Ascii("expires") in nvc then c.maxAge == secondsUntil(nvc[Ascii("expires")])
            else c.maxAge == -1
    ensures if Ascii("version") in nvc then Some(c.version) == Stoi(nvc[Ascii("version")]) else c.version == 0
  {
  }

  lemma ReadsFlags(nvc: Fields, secondsUntil: Str -> Int32, c: CookieData)
    requires Reads(nvc, secondsUntil, c)
    ensures c.secure == (Ascii("secure") in nvc) && c.httpOnly == (Ascii("HttpOnly") in nvc)
    ensures var word := FieldOr(nvc, Ascii("SameSite"));
            c.sameSite == if word == Ascii("None") then Unrestricted else if word == Ascii("Lax") then Lax
                          else if word == Ascii("Strict") then Strict else Unspecified
  {
    assert |NONE| == 4 && |LAX| == 3 && |STRICT| == 6;
  }

  class CookieImpl {
    var version: Int32
    var name: Str
    var value: Str
    var comment: Str
    var domain: Str
    var path: Str
    var priority: Str
    var secure: bool
    var maxAge: Int32
    var httpOnly: bool
    var sameSite: SameSite

    function View(): CookieData
      reads this
    {
      CookieData(version, name, value, comment, domain, path, priority, secure, maxAge, httpOnly, sameSite)
    }

    constructor ()
      ensures View() == EMPTY
    {
      version, maxAge := 0, -1;
      name, value, comment, domain, path, priority := [], [], [], [], [], [];
      secure, httpOnly, sameSite := false, false, Unspecified;
    }

    /** The constructor from a map; `None` is a thrown exception. The clock answers `expires`. */
    static method FromMap(nvc: Fields, secondsUntil: Str -> Int32) returns (cookie: CookieImpl?)
      ensures cookie == null <==> Throws(nvc)
      ensures cookie != null ==> fresh(cookie) && Reads(nvc, secondsUntil, cookie.View())
    {
      var c := new CookieImpl();
      var keys := SortedKeys(nvc.Keys);
      ghost var walked: Fields := map[];
      var i := 0;
      while i < |keys|
        invariant 0 <= i <= |keys|
        invariant Walked(nvc, keys, i, walked)
        invariant Reads(walked, secondsUntil, c.View())
      {
        var key := keys[i];
        WalkOne(nvc, keys, i, walked);
        ReadsStep(walked, secondsUntil, c.View(), key, nvc[key]);
        var ok := c.SetAttribute(key, nvc[key], secondsUntil);
        if !ok {
          return null;
        }
        walked := walked[key := nvc[key]];
        i := i + 1;
      }
      WalkedAll(nvc, keys, walked);
      cookie := c;
    }

    /** One pair of the map: `false` stands for a thrown exception. The clock answers `expires`. */
    method SetAttribute(key: Str, value: Str, secondsUntil: Str -> Int32) returns (ok: bool)
      modifies this
      ensures ok <==> WithAttribute(old(View()), key, value, secondsUntil).Some?
      ensures ok ==> Some(View()) == WithAttribute(old(View()), key, value, secondsUntil)
    {
      ok := true;
      if key == COMMENT {
        this.comment := value;
      } else if key == DOMAIN {
        this.domain := value;
      } else if key == PATH {
        this.path := value;
      } else if key == PRIORITY {
        this.priority := value;
      } else if key == MAX_AGE {
        var n := Stoi(value);
        if n.None? {
          return false;
        }
        this.maxAge := n.value;
      } else if key == SECURE_KEY {
        this.secure := true;
      } else if key == EXPIRES {
        this.maxAge := secondsUntil(value);
      } else if key == SAME_SITE_KEY {
        this.sameSite := SameSiteOf(value, sameSite);
      } else if key == VERSION {
        var n := Stoi(value);
        if n.None? {
          return false;
        }
        this.version := n.value;
      } else if key == HTTP_ONLY_KEY {
        this.httpOnly := true;
      } else {
        this.name, this.value := key, value;
      }
    }

    method ToString(expires: Str) returns (result: Str)
      ensures result == Render(View(), expires)
    {
      result := name;
      result := result + [EQUALS];
      if version == 0 {
        result := AppendNetscape(result + value, expires);
      } else {
        result := AppendRfc2109(result + ([QUOTE] + value + [QUOTE]));
      }
    }

    method AppendNetscape(before: Str, expires: Str) returns (result: Str)
      ensures result == before + (Plain(DOMAIN_0, domain) + PathTail0(View(), expires))
    {
      ghost var c := View();
      result := before;
      Grow(result, Plain(DOMAIN_0, domain), PathTail0(c, expires));
      if domain != [] {
        result := result + (DOMAIN_0 + domain);
      }
      Grow(result, Plain(PATH_0, path), PriorityTail0(c, expires));
      if path != [] {
        result := result + (PATH_0 + path);
      }
      Grow(result, Plain(PRIORITY_0, priority), ExpiresTail0(c, expires));
      if priority != [] {
        result := result + (PRIORITY_0 + priority);
      }
      Grow(result, Flag(EXPIRES_0 + expires, maxAge != -1), FlagsTail(c, []));
      if maxAge != -1 {
        result := result + (EXPIRES_0 + expires);
      }
      result := AppendFlags(result, []);
    }

    method AppendRfc2109(before: Str) returns (result: Str)
      ensures result == before + (Quoted(COMMENT_1, comment) + DomainTail1(View()))
    {
      ghost var c := View();
      result := before;
      Grow(result, Quoted(COMMENT_1, comment), DomainTail1(c));
      result := AppendQuoted(result, COMMENT_1, comment);
      Grow(result, Quoted(DOMAIN_1, domain), PathTail1(c));
      result := AppendQuoted(result, DOMAIN_1, domain);
      Grow(result, Quoted(PATH_1, path), PriorityTail1(c));
      result := AppendQuoted(result, PATH_1, path);
      Grow(result, Quoted(PRIORITY_1, priority), AgeTail1(c));
      result := AppendQuoted(result, PRIORITY_1, priority);
      DecimalBytes(maxAge);
      Grow(result, Quoted(MAX_AGE_1, AgeText(maxAge)), FlagsTail(c, VERSION_1));
      if maxAge != -1 {
        result := AppendQuoted(result, MAX_AGE_1, Decimal(maxAge));
      }
      result := AppendFlags(result, VERSION_1);
    }

    /** The end of both formats. */
    method AppendFlags(before: Str, end: Str) returns (result: Str)
      ensures result == before + FlagsTail(View(), end)
    {
      result := before;
      Grow(result, Plain(SAME_SITE, SameSiteWord(sameSite)), SecureTail(View(), end));
      match sameSite {
        case Unrestricted => result := result + (SAME_SITE + NONE);
        case Lax => result := result + (SAME_SITE + LAX);
        case Strict => result := result + (SAME_SITE + STRICT);
        case Unspecified =>
      }
      Grow(result, Flag(SECURE, secure), HttpOnlyTail(View(), end));
      if secure {
        result := result + SECURE;
      }
      Grow(result, Flag(HTTP_ONLY, httpOnly), end);
      if httpOnly {
        result := result + HTTP_ONLY;
      }
      result := result + end;
    }
  }

  method AppendQuoted(before: Str, tag: Str, text: Str) returns (result: Str)
    ensures result == before + Quoted(tag, text)
  {
    result := before;
    if text != [] {
      result := result + (tag + text + [QUOTE]);
    }
  }

  lemma Grow(done: Str, next: Str, rest: Str)
    ensures done + (next + rest) == done + next + rest
    ensures next == [] ==> done + (next + rest) == done + rest
  {
  }
}
