/**
  What the RFC 2109 format of a cookie determines. The printer escapes nothing, so a print may be
  that of several cookies: none with quotes excluded, and otherwise under an exact condition.
 */
module Rfc2109 {
  import opened Text
  import opened Cookie

  // ---------------------------------------------------------------- cookies without quotes

  /** Which attribute a printed tail starts with, told by the third and fourth byte. */
  function Rank(s: Str): nat
    requires |s| >= 4
  {
    if s[2] == 0x43 then 0
    else if s[2] == 0x44 then 1
    else if s[2] == 0x50 && s[3] == 0x61 then 2
    else if s[2] == 0x50 then 3
    else if s[2] == 0x4D then 4
    else if s[2] == 0x53 then 5
    else if s[2] == 0x73 then 6
    else if s[2] == 0x48 then 7
    else 8
  }

  predicate From(s: Str, rank: nat) {
    |s| >= 4 && Rank(s) >= rank
  }

  predicate IsTag(tag: Str, rank: nat) {
    |tag| >= 4 && Rank(tag) == rank
  }

  lemma Tags()
    ensures IsTag(COMMENT_1, 0) && IsTag(DOMAIN_1, 1) && IsTag(PATH_1, 2) && IsTag(PRIORITY_1, 3) && IsTag(MAX_AGE_1, 4)
    ensures IsTag(SAME_SITE, 5) && IsTag(SECURE, 6) && IsTag(HTTP_ONLY, 7) && IsTag(VERSION_1, 8)
  {
  }

  lemma FromPrefixed(x: Str, rest: Str, rank: nat)
    requires x == [] || IsTag(x, rank)
    requires From(rest, rank + 1)
    ensures From(x + rest, rank)
    ensures x != [] ==> Rank(x + rest) == rank
    ensures x == [] ==> Rank(x + rest) > rank
  {
  }

  lemma QuotedIsTag(tag: Str, text: Str, rank: nat)
    requires IsTag(tag, rank)
    ensures Quoted(tag, text) == [] || IsTag(Quoted(tag, text), rank)
  {
  }

  /** A quoted text is determined by where its quote ends. */
  lemma QuotedApart(tag: Str, rank: nat, x: Str, y: Str, s: Str, t: Str)
    requires IsTag(tag, rank) && From(s, rank + 1) && From(t, rank + 1)
    requires QUOTE !in x && QUOTE !in y
    requires Quoted(tag, x) + s == Quoted(tag, y) + t
    ensures x == y && s == t
  {
    QuotedIsTag(tag, x, rank);
    QuotedIsTag(tag, y, rank);
    FromPrefixed(Quoted(tag, x), s, rank);
    FromPrefixed(Quoted(tag, y), t, rank);
    if x != [] {
      var whole := Quoted(tag, x) + s;
      assert whole[|tag|..] == x + [QUOTE] + s;
      assert whole[|tag|..] == y + [QUOTE] + t;
      CutAtQuote(x, y, s, t);
    } else {
      assert [] + s == s && [] + t == t;
    }
  }

  lemma CutAtQuote(x: Str, y: Str, s: Str, t: Str)
    requires QUOTE !in x && QUOTE !in y
    requires x + [QUOTE] + s == y + [QUOTE] + t
    ensures x == y && s == t
  {
    CutAt(x, QUOTE, y, s, t);
  }

  lemma CutAt(x: Str, c: Byte, y: Str, s: Str, t: Str)
    requires c !in x && c !in y
    requires x + [c] + s == y + [c] + t
    ensures x == y && s == t
  {
    FindFirst(x, c, s);
    FindFirst(y, c, t);
    var whole := x + [c] + s;
    assert whole[..|x|] == x && whole[..|y|] == y;
    assert whole[|x| + 1..] == s && whole[|y| + 1..] == t;
  }

  lemma FlagApart(tag: Str, rank: nat, a: bool, b: bool, s: Str, t: Str)
    requires IsTag(tag, rank) && From(s, rank + 1) && From(t, rank + 1)
    requires Flag(tag, a) + s == Flag(tag, b) + t
    ensures a == b && s == t
  {
    FromPrefixed(Flag(tag, a), s, rank);
    FromPrefixed(Flag(tag, b), t, rank);
    var whole := Flag(tag, a) + s;
    var n := |Flag(tag, a)|;
    assert whole[n..] == s && whole[n..] == t;
  }

  lemma SameSiteApart(a: SameSite, b: SameSite, s: Str, t: Str)
    requires From(s, 6) && From(t, 6)
    requires Plain(SAME_SITE, SameSiteWord(a)) + s == Plain(SAME_SITE, SameSiteWord(b)) + t
    ensures a == b && s == t
  {
    Tags();
    var x, y := Plain(SAME_SITE, SameSiteWord(a)), Plain(SAME_SITE, SameSiteWord(b));
    FromPrefixed(x, s, 5);
    FromPrefixed(y, t, 5);
    assert |NONE| == 4 && |LAX| == 3 && |STRICT| == 6;
    assert NONE[0] == 0x4E && LAX[0] == 0x4C && STRICT[0] == 0x53;
    if a != Unspecified && b != Unspecified {
      assert (x + s)[|SAME_SITE|] == SameSiteWord(a)[0];
      assert (y + t)[|SAME_SITE|] == SameSiteWord(b)[0];
    }
    assert a == b;
    assert (x + s)[|x|..] == s && (y + t)[|y|..] == t;
  }

  /** Two cookies that agree in everything an RFC 2109 rendering shows: all but the version number. */
  predicate SameShown(c: CookieData, d: CookieData) {
    c == d.(version := c.version)
  }

  predicate Quotable(c: CookieData) {
    && EQUALS !in c.name && QUOTE !in c.value && QUOTE !in c.comment && QUOTE !in c.domain
    && QUOTE !in c.path && QUOTE !in c.priority
  }

  lemma TailsFrom(c: CookieData)
    ensures From(HttpOnlyTail(c, VERSION_1), 7) && From(SecureTail(c, VERSION_1), 6)
    ensures From(FlagsTail(c, VERSION_1), 5) && From(AgeTail1(c), 4) && From(PriorityTail1(c), 3)
    ensures From(PathTail1(c), 2) && From(DomainTail1(c), 1)
  {
  }

  lemma FlagsApart(c: CookieData, d: CookieData)
    requires FlagsTail(c, VERSION_1) == FlagsTail(d, VERSION_1)
    ensures c.sameSite == d.sameSite && c.secure == d.secure && c.httpOnly == d.httpOnly
  {
    Tags();
    TailsFrom(c);
    TailsFrom(d);
    SameSiteApart(c.sameSite, d.sameSite, SecureTail(c, VERSION_1), SecureTail(d, VERSION_1));
    FlagApart(SECURE, 6, c.secure, d.secure, HttpOnlyTail(c, VERSION_1), HttpOnlyTail(d, VERSION_1));
    FlagApart(HTTP_ONLY, 7, c.httpOnly, d.httpOnly, VERSION_1, VERSION_1);
  }

  lemma AgeApart(m: Int32, n: Int32)
    requires AgeText(m) == AgeText(n)
    ensures m == n
  {
    StoiDecimal(m);
    StoiDecimal(n);
    DecimalBytes(m);
    DecimalBytes(n);
  }

  /** Equal RFC 2109 renderings come from cookies equal in all they show. */
  lemma Rfc2109Unambiguous(c: CookieData, d: CookieData, expires: Str)
    requires c.version != 0 && d.version != 0 && Quotable(c) && Quotable(d)
    ensures Render(c, expires) == Render(d, expires) <==> SameShown(c, d)
  {
    if Render1(c) == Render1(d) {
      HeadApart(c, d);
      AttributesApart(c, d);
    }
    if SameShown(c, d) {
      assert FlagsTail(c, VERSION_1) == FlagsTail(d, VERSION_1);
    }
  }

  lemma HeadOf(c: CookieData, tail: Str)
    requires tail == Quoted(COMMENT_1, c.comment) + DomainTail1(c)
    ensures Render1(c) == c.name + [EQUALS] + ([QUOTE] + (c.value + [QUOTE] + tail))
  {
  }

  lemma HeadApart(c: CookieData, d: CookieData)
    requires Quotable(c) && Quotable(d) && Render1(c) == Render1(d)
    ensures c.name == d.name && c.value == d.value
    ensures Quoted(COMMENT_1, c.comment) + DomainTail1(c) == Quoted(COMMENT_1, d.comment) + DomainTail1(d)
  {
    var s, t := Quoted(COMMENT_1, c.comment) + DomainTail1(c), Quoted(COMMENT_1, d.comment) + DomainTail1(d);
    var x, y := c.value + [QUOTE] + s, d.value + [QUOTE] + t;
    HeadOf(c, s);
    HeadOf(d, t);
    CutAt(c.name, EQUALS, d.name, [QUOTE] + x, [QUOTE] + y);
    assert ([QUOTE] + x)[1..] == x && ([QUOTE] + y)[1..] == y;
    CutAtQuote(c.value, d.value, s, t);
  }

  lemma AttributesApart(c: CookieData, d: CookieData)
    requires Quotable(c) && Quotable(d)
    requires Quoted(COMMENT_1, c.comment) + DomainTail1(c) == Quoted(COMMENT_1, d.comment) + DomainTail1(d)
    ensures c.comment == d.comment && c.domain == d.domain && c.path == d.path && c.priority == d.priority
    ensures c.maxAge == d.maxAge && c.sameSite == d.sameSite && c.secure == d.secure && c.httpOnly == d.httpOnly
  {
    Tags();
    TailsFrom(c);
    TailsFrom(d);
    DecimalBytes(c.maxAge);
    DecimalBytes(d.maxAge);
    QuotedApart(COMMENT_1, 0, c.comment, d.comment, DomainTail1(c), DomainTail1(d));
    QuotedApart(DOMAIN_1, 1, c.domain, d.domain, PathTail1(c), PathTail1(d));
    QuotedApart(PATH_1, 2, c.path, d.path, PriorityTail1(c), PriorityTail1(d));
    QuotedApart(PRIORITY_1, 3, c.priority, d.priority, AgeTail1(c), AgeTail1(d));
    QuotedApart(MAX_AGE_1, 4, AgeText(c.maxAge), AgeText(d.maxAge), FlagsTail(c, VERSION_1), FlagsTail(d, VERSION_1));
    AgeApart(c.maxAge, d.maxAge);
    FlagsApart(c, d);
  }

  /** Why quotes are excluded: a quoted comment and the same bytes at the end of a value print alike. */
  lemma QuoteConfuses(c: CookieData, value: Str, comment: Str)
    requires comment != []
    ensures Render1(c.(value := value + [QUOTE] + COMMENT_1 + comment, comment := [])) ==
            Render1(c.(value := value, comment := comment))
  {
    var x := c.(value := value + [QUOTE] + COMMENT_1 + comment, comment := []);
    var y := c.(value := value, comment := comment);
    assert DomainTail1(x) == DomainTail1(y) by {
      assert FlagsTail(x, VERSION_1) == FlagsTail(y, VERSION_1);
    }
  }

  // ---------------------------------------------------------------- the quoted attributes, by number

  function Tag(k: nat): Str
    requires k < 5
  {
    if k == 0 then COMMENT_1 else if k == 1 then DOMAIN_1 else if k == 2 then PATH_1
    else if k == 3 then PRIORITY_1 else MAX_AGE_1
  }

  function TextOf(c: CookieData, k: nat): Str
    requires k < 5
  {
    if k == 0 then c.comment else if k == 1 then c.domain else if k == 2 then c.path
    else if k == 3 then c.priority else AgeText(c.maxAge)
  }

  /** What is printed from the `k`-th quoted attribute on. */
  function Tail(c: CookieData, k: nat): Str
    requires k <= 5
    decreases 5 - k
  {
    if k == 5 then FlagsTail(c, VERSION_1) else Quoted(Tag(k), TextOf(c, k)) + Tail(c, k + 1)
  }

  /** The printed form of a max-age that is set. */
  predicate IsAge(text: Str) {
    match Stoi(text)
    case None => false
    case Some(n) => n != -1 && text == Decimal(n)
  }

  /** A text the `k`-th attribute can be printed with. */
  predicate Fits(k: nat, text: Str) {
    text != [] && (k == 4 ==> IsAge(text))
  }

  /** `c` with the text of its `k`-th attribute replaced. */
  function Put(c: CookieData, k: nat, text: Str): CookieData
    requires k < 5 && (text == [] || Fits(k, text))
  {
    if k == 0 then c.(comment := text)
    else if k == 1 then c.(domain := text)
    else if k == 2 then c.(path := text)
    else if k == 3 then c.(priority := text)
    else c.(maxAge := if text == [] then -1 else Stoi(text).value)
  }

  lemma PutFrame(c: CookieData, k: nat, text: Str)
    requires k < 5 && (text == [] || Fits(k, text))
    ensures var d := Put(c, k, text);
            && d.version == c.version && d.name == c.name && d.value == c.value
            && d.sameSite == c.sameSite && d.secure == c.secure && d.httpOnly == c.httpOnly
            && forall j :: 0 <= j < 5 ==> TextOf(d, j) == if j == k then text else TextOf(c, j)
  {
  }

  lemma TextsFit(c: CookieData, k: nat)
    requires k < 5 && TextOf(c, k) != []
    ensures Fits(k, TextOf(c, k))
    ensures k == 4 ==> QUOTE !in TextOf(c, k)
  {
    StoiDecimal(c.maxAge);
    DecimalBytes(c.maxAge);
  }

  lemma NoAge(c: CookieData)
    ensures TextOf(c, 4) == [] <==> c.maxAge == -1
  {
    DecimalBytes(c.maxAge);
  }

  /** The number of the first attribute that is set, 5 if none is. */
  function FirstText(c: CookieData, k: nat): (n: nat)
    requires k <= 5
    ensures k <= n <= 5
    ensures forall j :: k <= j < n ==> TextOf(c, j) == []
    ensures n < 5 ==> TextOf(c, n) != []
    decreases 5 - k
  {
    if k == 5 || TextOf(c, k) != [] then k else FirstText(c, k + 1)
  }

  lemma {:induction false} TailSkips(c: CookieData, k: nat, n: nat)
    requires k <= n <= 5 && forall j :: k <= j < n ==> TextOf(c, j) == []
    ensures Tail(c, k) == Tail(c, n)
    decreases n - k
  {
    if k < n {
      TailSkips(c, k + 1, n);
    }
  }

  lemma {:induction false} SameTails(c: CookieData, d: CookieData, k: nat)
    requires k <= 5 && forall j :: k <= j < 5 ==> TextOf(c, j) == TextOf(d, j)
    requires c.sameSite == d.sameSite && c.secure == d.secure && c.httpOnly == d.httpOnly
    ensures Tail(c, k) == Tail(d, k)
    decreases 5 - k
  {
    if k < 5 {
      SameTails(c, d, k + 1);
    }
  }

  lemma {:induction false} TailFrom(c: CookieData, k: nat)
    requires k <= 5
    ensures From(Tail(c, k), k)
    decreases 5 - k
  {
    if k == 5 {
      TailsFrom(c);
    } else {
      TailFrom(c, k + 1);
      Tags();
      QuotedIsTag(Tag(k), TextOf(c, k), k);
      FromPrefixed(Quoted(Tag(k), TextOf(c, k)), Tail(c, k + 1), k);
    }
  }

  lemma WholeTail(c: CookieData)
    ensures Quoted(COMMENT_1, c.comment) + DomainTail1(c) == Tail(c, 0)
  {
    assert Tail(c, 4) == AgeTail1(c);
    assert Tail(c, 3) == PriorityTail1(c);
    assert Tail(c, 2) == PathTail1(c);
    assert Tail(c, 1) == DomainTail1(c);
  }

  // ---------------------------------------------------------------- where quotes can stand

  /** Quotes are among the last three bytes only. */
  ghost predicate Late(s: Str) {
    forall i :: 0 <= i < |s| && s[i] == QUOTE ==> i >= |s| - 3
  }

  lemma LatePrefixed(x: Str, s: Str)
    requires QUOTE !in x && Late(s)
    ensures Late(x + s)
  {
  }

  lemma TextsWithoutQuotes()
    ensures QUOTE !in SAME_SITE && QUOTE !in NONE && QUOTE !in LAX && QUOTE !in STRICT
    ensures QUOTE !in SECURE && QUOTE !in HTTP_ONLY
    ensures |VERSION_1| == 13 && Late(VERSION_1)
  {
  }

  lemma FlagsLate(c: CookieData)
    ensures Late(FlagsTail(c, VERSION_1))
  {
    TextsWithoutQuotes();
    LatePrefixed(Flag(HTTP_ONLY, c.httpOnly), VERSION_1);
    LatePrefixed(Flag(SECURE, c.secure), HttpOnlyTail(c, VERSION_1));
    LatePrefixed(Plain(SAME_SITE, SameSiteWord(c.sameSite)), SecureTail(c, VERSION_1));
  }

  lemma {:induction false} TailLong(c: CookieData, k: nat)
    requires k <= 5
    ensures |Tail(c, k)| >= 13
    decreases 5 - k
  {
    if k == 5 {
      TextsWithoutQuotes();
    } else {
      TailLong(c, k + 1);
    }
  }

  /** No quote of `f` has three bytes after it, so a cut at a quote that leaves three falls before `f`. */
  lemma CutBefore(x: Str, f: Str, y: Str, t: Str)
    requires x + [QUOTE] + f == y + [QUOTE] + t
    requires Late(f) && |t| >= 3
    ensures |y| <= |x|
  {
    var whole := x + [QUOTE] + f;
    assert whole[|y|] == QUOTE;
    assert forall i :: |x| < i < |whole| ==> whole[i] == f[i - |x| - 1];
  }

  lemma SplitAtQuote(x: Str, f: Str, y: Str, t: Str) returns (z: Str)
    requires x + [QUOTE] + f == y + [QUOTE] + t
    requires |y| < |x|
    ensures x == y + [QUOTE] + z && z + [QUOTE] + f == t
  {
    var whole := x + [QUOTE] + f;
    z := x[|y| + 1..];
    assert whole[..|y|] == x[..|y|] == y && whole[|y|] == x[|y|] == QUOTE;
    assert whole[|y| + 1..] == z + [QUOTE] + f;
    assert whole[|y| + 1..] == t;
  }

  // ---------------------------------------------------------------- which prints identify their cookie

  /** `s` reads as the `k`-th attribute, up to its closing quote. */
  predicate Poses(s: Str, k: nat)
    requires k < 5
  {
    Tag(k) <= s && Fits(k, s[|Tag(k)|..])
  }

  /** Some quote in `value` is followed by what reads as the `k`-th attribute up to the end of `value`. */
  predicate Hides(value: Str, k: nat)
    requires k < 5
  {
    exists i :: 0 <= i < |value| && value[i] == QUOTE && Poses(value[i + 1..], k)
  }

  /**
    No quoted attribute is set, and the value hides none: a comment, domain, path or priority tag
    after a quote with any byte after it, or a max-age tag with a number that ends the value.
   */
  predicate Identified(c: CookieData) {
    && c.comment == [] && c.domain == [] && c.path == [] && c.priority == [] && c.maxAge == -1
    && forall k | 0 <= k < 5 :: !Hides(c.value, k)
  }

  predicate Alike(c: CookieData, d: CookieData) {
    d.version != 0 && EQUALS !in d.name && Render1(d) == Render1(c)
  }

  lemma Bodies(c: CookieData, d: CookieData)
    requires EQUALS !in c.name && EQUALS !in d.name
    ensures Render1(c) == Render1(d) <==>
            c.name == d.name && c.value + [QUOTE] + Tail(c, 0) == d.value + [QUOTE] + Tail(d, 0)
  {
    var x, y := c.value + [QUOTE] + Tail(c, 0), d.value + [QUOTE] + Tail(d, 0);
    WholeTail(c);
    WholeTail(d);
    HeadOf(c, Tail(c, 0));
    HeadOf(d, Tail(d, 0));
    if Render1(c) == Render1(d) {
      CutAt(c.name, EQUALS, d.name, [QUOTE] + x, [QUOTE] + y);
      assert ([QUOTE] + x)[1..] == x && ([QUOTE] + y)[1..] == y;
    }
  }

  lemma NoTexts(c: CookieData)
    ensures FirstText(c, 0) == 5 <==>
            c.comment == [] && c.domain == [] && c.path == [] && c.priority == [] && c.maxAge == -1
  {
    NoAge(c);
    var n := FirstText(c, 0);
    assert n == 5 ==> TextOf(c, 0) == TextOf(c, 1) == TextOf(c, 2) == TextOf(c, 3) == TextOf(c, 4) == [];
  }

  lemma Regroup(value: Str, tag: Str, text: Str, rest: Str)
    requires text != []
    ensures value + [QUOTE] + (Quoted(tag, text) + rest) == value + [QUOTE] + tag + text + [QUOTE] + rest
  {
  }

  /** `c` with its first quoted attribute, number `k`, turned into the end of its value. */
  function Absorbed(c: CookieData, k: nat): CookieData
    requires k < 5
  {
    Put(c.(value := c.value + [QUOTE] + Tag(k) + TextOf(c, k)), k, [])
  }

  lemma AbsorbedFrame(c: CookieData, k: nat)
    requires k < 5
    ensures var d := Absorbed(c, k);
            && d.version == c.version && d.name == c.name && d.value == c.value + [QUOTE] + Tag(k) + TextOf(c, k)
            && d.sameSite == c.sameSite && d.secure == c.secure && d.httpOnly == c.httpOnly
            && forall j :: 0 <= j < 5 ==> TextOf(d, j) == if j == k then [] else TextOf(c, j)
  {
    var e := c.(value := c.value + [QUOTE] + Tag(k) + TextOf(c, k));
    PutFrame(e, k, []);
    assert forall j :: 0 <= j < 5 ==> TextOf(e, j) == TextOf(c, j);
  }

  lemma AbsorbedTail(c: CookieData, k: nat)
    requires k == FirstText(c, 0) < 5
    ensures Tail(c, 0) == Quoted(Tag(k), TextOf(c, k)) + Tail(c, k + 1)
    ensures Tail(Absorbed(c, k), 0) == Tail(c, k + 1)
  {
    var d := Absorbed(c, k);
    AbsorbedFrame(c, k);
    TailSkips(c, 0, k);
    TailSkips(d, 0, k + 1);
    SameTails(c, d, k + 1);
  }

  lemma AbsorbedTwin(c: CookieData, k: nat)
    requires EQUALS !in c.name && k == FirstText(c, 0) < 5
    ensures Render1(Absorbed(c, k)) == Render1(c)
    ensures |Absorbed(c, k).value| > |c.value|
  {
    var d := Absorbed(c, k);
    AbsorbedFrame(c, k);
    AbsorbedTail(c, k);
    Regroup(c.value, Tag(k), TextOf(c, k), Tail(c, k + 1));
    Bodies(c, d);
  }

  /** What a value hides can be taken for an attribute; absorbing that again gives the cookie back. */
  lemma ExposedTwin(c: CookieData, k: nat) returns (d: CookieData)
    requires FirstText(c, 0) == 5 && k < 5 && Hides(c.value, k)
    ensures FirstText(d, 0) == k && Absorbed(d, k) == c && d.name == c.name && d.version == c.version
  {
    var i :| 0 <= i < |c.value| && c.value[i] == QUOTE && Poses(c.value[i + 1..], k);
    var u, text := c.value[..i], c.value[i + 1..][|Tag(k)|..];
    ValueAround(c.value, i, Tag(k));
    d := Put(c.(value := u), k, text);
    ExposedFrame(c, u, k, text);
    FirstTextIs(d, k);
    AbsorbedBack(c, u, k, text);
  }

  lemma AbsorbedBack(c: CookieData, value: Str, k: nat, text: Str)
    requires FirstText(c, 0) == 5 && k < 5 && Fits(k, text)
    requires c.value == value + [QUOTE] + Tag(k) + text
    ensures Absorbed(Put(c.(value := value), k, text), k) == c
  {
    ExposedFrame(c, value, k, text);
    PutBack(c, value, k, text);
  }

  lemma ExposedFrame(c: CookieData, value: Str, k: nat, text: Str)
    requires FirstText(c, 0) == 5 && k < 5 && Fits(k, text)
    ensures var d := Put(c.(value := value), k, text);
            && d.version == c.version && d.name == c.name && d.value == value
            && forall j :: 0 <= j < 5 ==> TextOf(d, j) == if j == k then text else []
  {
    PutFrame(c.(value := value), k, text);
    assert forall j :: 0 <= j < 5 ==> TextOf(c.(value := value), j) == TextOf(c, j);
  }

  lemma FirstTextIs(c: CookieData, k: nat)
    requires k < 5 && TextOf(c, k) != [] && forall j :: 0 <= j < k ==> TextOf(c, j) == []
    ensures FirstText(c, 0) == k
  {
  }

  lemma PutBack(c: CookieData, value: Str, k: nat, text: Str)
    requires k < 5 && TextOf(c, k) == [] && Fits(k, text)
    ensures Put(Put(c.(value := value), k, text).(value := c.value), k, []) == c
  {
    NoAge(c);
    var changed := Put(c.(value := value), k, text);
    if k == 0 {
      assert changed == c.(value := value, comment := text);
    } else if k == 1 {
      assert changed == c.(value := value, domain := text);
    } else if k == 2 {
      assert changed == c.(value := value, path := text);
    } else if k == 3 {
      assert changed == c.(value := value, priority := text);
    } else {
      assert changed == c.(value := value, maxAge := changed.maxAge);
    }
  }

  lemma ValueAround(value: Str, i: nat, tag: Str)
    requires i < |value| && value[i] == QUOTE && tag <= value[i + 1..]
    ensures value == value[..i] + [QUOTE] + tag + value[i + 1..][|tag|..]
  {
    var rest := value[i + 1..];
    assert rest == tag + rest[|tag|..];
    assert value == value[..i] + [QUOTE] + rest;
  }

  lemma PosesBefore(z: Str, f: Str, k: nat, text: Str, rest: Str)
    requires k < 5 && Fits(k, text)
    requires z + [QUOTE] + f == Tag(k) + text + [QUOTE] + rest
    requires Late(f) && |f| >= 3 && |rest| >= 3
    requires k == 4 ==> Late(rest)
    ensures Poses(z, k)
  {
    var whole, x := z + [QUOTE] + f, Tag(k) + text;
    CutBefore(z, f, x, rest);
    assert whole[..|z|] == z && whole[..|x|] == x;
    assert z[..|x|] == x;
    assert z[..|Tag(k)|] == x[..|Tag(k)|] == Tag(k);
    if k == 4 {
      CutBefore(x, rest, z, f);
      assert z == x;
    }
  }

  lemma SameCut(x: Str, f: Str, y: Str, t: Str)
    requires x + [QUOTE] + f == y + [QUOTE] + t && |x| == |y|
    ensures x == y && f == t
  {
    var whole := x + [QUOTE] + f;
    assert whole[..|x|] == x && whole[..|y|] == y;
    assert whole[|x| + 1..] == f && whole[|y| + 1..] == t;
  }

  lemma LateSplit(z: Str, f: Str, t: Str)
    requires z + [QUOTE] + f == t && Late(t)
    ensures |f| <= 2
  {
    assert t[|z|] == QUOTE;
  }

  /** A cookie with a shorter value and the same print takes an attribute out of the longer value. */
  lemma ShorterHides(c: CookieData, d: CookieData)
    requires FirstText(c, 0) == 5 && |d.value| < |c.value|
    requires c.value + [QUOTE] + Tail(c, 0) == d.value + [QUOTE] + Tail(d, 0)
    ensures exists k :: 0 <= k < 5 && Hides(c.value, k)
  {
    var f, t, k := Tail(c, 0), Tail(d, 0), FirstText(d, 0);
    var z := SplitAtQuote(c.value, f, d.value, t);
    TailSkips(c, 0, 5);
    TailSkips(d, 0, k);
    FlagsLate(c);
    FlagsLate(d);
    TailLong(c, 0);
    if k == 5 {
      LateSplit(z, f, t);
    } else {
      TextsFit(d, k);
      TailLong(d, k + 1);
      PosesBefore(z, f, k, TextOf(d, k), Tail(d, k + 1));
      var i := |d.value|;
      assert c.value[i] == QUOTE && c.value[i + 1..] == z;
      assert Hides(c.value, k);
    }
  }

  /** A tail without quoted attributes is that of a cookie without any. */
  lemma PlainTail(c: CookieData, d: CookieData)
    requires FirstText(c, 0) == 5 && Tail(c, 0) == Tail(d, 0)
    ensures FirstText(d, 0) == 5
    ensures c.sameSite == d.sameSite && c.secure == d.secure && c.httpOnly == d.httpOnly
  {
    var k := FirstText(d, 0);
    TailSkips(c, 0, 5);
    TailSkips(d, 0, k);
    TailFrom(c, 5);
    if k < 5 {
      Tags();
      TailFrom(d, k + 1);
      QuotedIsTag(Tag(k), TextOf(d, k), k);
      FromPrefixed(Quoted(Tag(k), TextOf(d, k)), Tail(d, k + 1), k);
    } else {
      FlagsApart(c, d);
    }
  }

  /** An identified cookie is the only one its print can be taken for. */
  lemma NoTwin(c: CookieData, d: CookieData)
    requires EQUALS !in c.name && Identified(c) && Alike(c, d)
    ensures SameShown(c, d)
  {
    hide Render1, FlagsTail, Hides, Quoted;
    Bodies(c, d);
    NoTexts(c);
    NoTexts(d);
    var f, t := Tail(c, 0), Tail(d, 0);
    TailSkips(c, 0, 5);
    FlagsLate(c);
    TailLong(d, 0);
    CutBefore(c.value, f, d.value, t);
    if |d.value| < |c.value| {
      ShorterHides(c, d);
    } else {
      SameCut(c.value, f, d.value, t);
      PlainTail(c, d);
    }
  }

  /** When an RFC 2109 print identifies its cookie among all cookies with a name the format can carry. */
  lemma Rfc2109Identifies(c: CookieData)
    requires c.version != 0 && EQUALS !in c.name
    ensures (forall d :: Alike(c, d) ==> SameShown(c, d)) <==> Identified(c)
  {
    NoTexts(c);
    if Identified(c) {
      forall d | Alike(c, d) ensures SameShown(c, d) {
        NoTwin(c, d);
      }
    } else if FirstText(c, 0) < 5 {
      var d := Absorbed(c, FirstText(c, 0));
      AbsorbedTwin(c, FirstText(c, 0));
      assert Alike(c, d) && !SameShown(c, d);
    } else {
      var k :| 0 <= k < 5 && Hides(c.value, k);
      var d := ExposedTwin(c, k);
      AbsorbedTwin(d, k);
      assert Alike(c, d) && !SameShown(c, d);
    }
  }
}
