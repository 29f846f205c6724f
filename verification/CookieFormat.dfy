/**
  Reading a printed Netscape cookie back.
 */
module CookieFormat {
  import opened Text
  import opened Query
  import opened Cookie

  // ---------------------------------------------------------------- reading the Netscape format

  /** One part of a printed cookie, cut at its first `=`; a part without one has an empty value. */
  function Cut(part: Str): Pair {
    var pos := Find(part, EQUALS);
    if pos == |part| then (part, []) else (part[..pos], part[pos + 1..])
  }

  function DropSpace(part: Str): Str {
    if part != [] && part[0] == SPACE then part[1..] else part
  }

  function CutAll(parts: seq<Str>): seq<Pair> {
    seq(|parts|, i requires 0 <= i < |parts| => Cut(if i == 0 then parts[i] else DropSpace(parts[i])))
  }

  /** The map a reader of a printed cookie hands to the constructor. */
  function Attributes(text: Str): Fields {
    InsertAll(map[], CutAll(Split(text, SEMICOLON)))
  }

  lemma CutClean(part: Str)
    requires SEMICOLON !in part
    ensures SEMICOLON !in Cut(part).0 && EQUALS !in Cut(part).0 && SEMICOLON !in Cut(part).1
  {
  }

  lemma AttributesClean(text: Str)
    ensures forall k :: k in Attributes(text) ==>
              SEMICOLON !in k && EQUALS !in k && SEMICOLON !in Attributes(text)[k]
  {
    var parts := Split(text, SEMICOLON);
    var pairs := CutAll(parts);
    forall k | k in Attributes(text)
      ensures SEMICOLON !in k && EQUALS !in k && SEMICOLON !in Attributes(text)[k]
    {
      InsertAllLookup(map[], pairs, k);
      var i :| 0 <= i < |pairs| && pairs[i] == (k, Attributes(text)[k]);
      assert parts[i] in parts;
      CutClean(if i == 0 then parts[i] else DropSpace(parts[i]));
    }
  }

  // ---------------------------------------------------------------- what the Netscape format lists

  /** An attribute as printed: `word=text`, or `word` alone. */
  datatype Attr = Attr(word: Str, text: Option<Str>) {
    function Part(): Str {
      [SPACE] + word + (match text case None => [] case Some(t) => [EQUALS] + t)
    }

    function AsPair(): Pair {
      (word, match text case None => [] case Some(t) => t)
    }
  }

  /** The capital letter is the printer's; the constructor knows only `priority`. */
  const PRIORITY_PRINTED: Str := Ascii("Priority")

  function Given(word: Str, text: Str): seq<Attr> {
    if text == [] then [] else [Attr(word, Some(text))]
  }

  function Switch(word: Str, on: bool): seq<Attr> {
    if on then [Attr(word, None)] else []
  }

  function FlagAttrs(c: CookieData): seq<Attr> {
    Given(SAME_SITE_KEY, SameSiteWord(c.sameSite)) + (Switch(SECURE_KEY, c.secure) + Switch(HTTP_ONLY_KEY, c.httpOnly))
  }

  /** A max-age is printed as the date `expires`. */
  function Dated(c: CookieData, expires: Str): seq<Attr> {
    if c.maxAge != -1 then [Attr(EXPIRES, Some(expires))] else []
  }

  function LaterAttrs(c: CookieData, expires: Str): seq<Attr> {
    Given(PRIORITY_PRINTED, c.priority) + (Dated(c, expires) + FlagAttrs(c))
  }

  function Attrs(c: CookieData, expires: Str): seq<Attr> {
    Given(DOMAIN, c.domain) + (Given(PATH, c.path) + LaterAttrs(c, expires))
  }

  function Shown(attrs: seq<Attr>): Str {
    if attrs == [] then [] else [SEMICOLON] + attrs[0].Part() + Shown(attrs[1..])
  }

  function PairsOf(attrs: seq<Attr>): seq<Pair> {
    seq(|attrs|, i requires 0 <= i < |attrs| => attrs[i].AsPair())
  }

  function PartsOf(attrs: seq<Attr>): seq<Str> {
    seq(|attrs|, i requires 0 <= i < |attrs| => attrs[i].Part())
  }

  lemma {:induction false} ShownConcat(a: seq<Attr>, b: seq<Attr>)
    ensures Shown(a + b) == Shown(a) + Shown(b)
  {
    if a == [] {
      assert a + b == b;
    } else {
      assert (a + b)[1..] == a[1..] + b;
      ShownConcat(a[1..], b);
      var head := [SEMICOLON] + a[0].Part();
      assert head + (Shown(a[1..]) + Shown(b)) == head + Shown(a[1..]) + Shown(b);
    }
  }

  lemma {:induction false} JoinShown(first: Str, attrs: seq<Attr>)
    ensures Join([first] + PartsOf(attrs), SEMICOLON) == first + Shown(attrs)
    decreases attrs
  {
    var parts := [first] + PartsOf(attrs);
    if attrs != [] {
      JoinShown(attrs[0].Part(), attrs[1..]);
      assert parts[1..] == [attrs[0].Part()] + PartsOf(attrs[1..]);
      var p, rest := attrs[0].Part(), Shown(attrs[1..]);
      assert first + [SEMICOLON] + (p + rest) == first + ([SEMICOLON] + p + rest);
    }
  }

  lemma ShownGiven(tag: Str, word: Str, text: Str)
    requires tag == [SEMICOLON, SPACE] + word + [EQUALS]
    ensures Plain(tag, text) == Shown(Given(word, text))
  {
  }

  lemma ShownSwitch(tag: Str, word: Str, on: bool)
    requires tag == [SEMICOLON, SPACE] + word
    ensures Flag(tag, on) == Shown(Switch(word, on))
  {
  }

  lemma TagsOfWords()
    ensures DOMAIN_0 == [SEMICOLON, SPACE] + DOMAIN + [EQUALS]
    ensures PATH_0 == [SEMICOLON, SPACE] + PATH + [EQUALS]
    ensures PRIORITY_0 == [SEMICOLON, SPACE] + PRIORITY_PRINTED + [EQUALS]
    ensures EXPIRES_0 == [SEMICOLON, SPACE] + EXPIRES + [EQUALS]
    ensures SAME_SITE == [SEMICOLON, SPACE] + SAME_SITE_KEY + [EQUALS]
    ensures SECURE == [SEMICOLON, SPACE] + SECURE_KEY
    ensures HTTP_ONLY == [SEMICOLON, SPACE] + HTTP_ONLY_KEY
  {
  }

  lemma FlagsShown(c: CookieData)
    ensures FlagsTail(c, []) == Shown(FlagAttrs(c))
  {
    TagsOfWords();
    ShownGiven(SAME_SITE, SAME_SITE_KEY, SameSiteWord(c.sameSite));
    ShownSwitch(SECURE, SECURE_KEY, c.secure);
    ShownSwitch(HTTP_ONLY, HTTP_ONLY_KEY, c.httpOnly);
    var s, h := Switch(SECURE_KEY, c.secure), Switch(HTTP_ONLY_KEY, c.httpOnly);
    ShownConcat(s, h);
    ShownConcat(Given(SAME_SITE_KEY, SameSiteWord(c.sameSite)), s + h);
    assert Shown(h) + [] == Shown(h);
  }

  lemma DatedShown(c: CookieData, expires: Str)
    ensures Flag(EXPIRES_0 + expires, c.maxAge != -1) == Shown(Dated(c, expires))
  {
    TagsOfWords();
    if c.maxAge != -1 {
      assert Dated(c, expires)[1..] == [];
      assert Shown(Dated(c, expires)) == [SEMICOLON] + ([SPACE] + EXPIRES + ([EQUALS] + expires));
    }
  }

  lemma LaterShown(c: CookieData, expires: Str)
    ensures PriorityTail0(c, expires) == Shown(LaterAttrs(c, expires))
  {
    TagsOfWords();
    ShownGiven(PRIORITY_0, PRIORITY_PRINTED, c.priority);
    DatedShown(c, expires);
    FlagsShown(c);
    ShownConcat(Dated(c, expires), FlagAttrs(c));
    ShownConcat(Given(PRIORITY_PRINTED, c.priority), Dated(c, expires) + FlagAttrs(c));
  }

  lemma TailShown(c: CookieData, expires: Str)
    ensures Plain(DOMAIN_0, c.domain) + PathTail0(c, expires) == Shown(Attrs(c, expires))
  {
    TagsOfWords();
    ShownGiven(DOMAIN_0, DOMAIN, c.domain);
    ShownGiven(PATH_0, PATH, c.path);
    LaterShown(c, expires);
    ShownConcat(Given(PATH, c.path), LaterAttrs(c, expires));
    ShownConcat(Given(DOMAIN, c.domain), Given(PATH, c.path) + LaterAttrs(c, expires));
  }

  // ---------------------------------------------------------------- back from the Netscape format

  /** No part that is printed holds the delimiter of parts, nor the name that of name and value. */
  predicate Delimited(c: CookieData) {
    && SEMICOLON !in c.name && EQUALS !in c.name && SEMICOLON !in c.value
    && SEMICOLON !in c.domain && SEMICOLON !in c.path && SEMICOLON !in c.priority
  }

  lemma WordsClean()
    ensures forall w | w in [DOMAIN, PATH, PRIORITY_PRINTED, EXPIRES, SAME_SITE_KEY, SECURE_KEY, HTTP_ONLY_KEY] ::
              SEMICOLON !in w && EQUALS !in w
    ensures forall s :: SEMICOLON !in SameSiteWord(s)
  {
  }

  predicate CleanAttr(a: Attr) {
    SEMICOLON !in a.word && EQUALS !in a.word && (a.text.Some? ==> SEMICOLON !in a.text.value)
  }

  lemma FlagAttrsClean(c: CookieData)
    ensures forall a :: a in FlagAttrs(c) ==> CleanAttr(a)
  {
    WordsClean();
  }

  lemma AttrsClean(c: CookieData, expires: Str)
    requires Delimited(c) && SEMICOLON !in expires
    ensures forall a :: a in Attrs(c, expires) ==> CleanAttr(a)
  {
    WordsClean();
    FlagAttrsClean(c);
    assert forall a :: a in Dated(c, expires) ==> CleanAttr(a);
    assert forall a :: a in LaterAttrs(c, expires) ==> CleanAttr(a);
  }

  lemma CutPart(a: Attr)
    requires CleanAttr(a)
    ensures SEMICOLON !in a.Part() && Cut(DropSpace(a.Part())) == a.AsPair()
  {
    var part := a.Part();
    assert DropSpace(part) == part[1..];
    match a.text
    case None =>
      assert part[1..] == a.word;
      FindNone(a.word, EQUALS);
    case Some(t) =>
      var s := a.word + [EQUALS] + t;
      assert part[1..] == s;
      FindFirst(a.word, EQUALS, t);
      assert s[..|a.word|] == a.word && s[|a.word| + 1..] == t;
  }

  lemma SplitRendered(c: CookieData, expires: Str)
    requires Delimited(c) && SEMICOLON !in expires
    ensures Split(Render0(c, expires), SEMICOLON) == [c.name + [EQUALS] + c.value] + PartsOf(Attrs(c, expires))
  {
    var first, attrs := c.name + [EQUALS] + c.value, Attrs(c, expires);
    TailShown(c, expires);
    JoinShown(first, attrs);
    AttrsClean(c, expires);
    forall i | 0 <= i < |attrs| ensures SEMICOLON !in PartsOf(attrs)[i] {
      assert attrs[i] in attrs;
      CutPart(attrs[i]);
    }
    SplitJoin([first] + PartsOf(attrs), SEMICOLON);
  }

  lemma CutParts(first: Str, attrs: seq<Attr>)
    requires forall a :: a in attrs ==> CleanAttr(a)
    ensures CutAll([first] + PartsOf(attrs)) == [Cut(first)] + PairsOf(attrs)
  {
    var parts, pairs := [first] + PartsOf(attrs), [Cut(first)] + PairsOf(attrs);
    forall i | 0 <= i < |parts| ensures Cut(if i == 0 then parts[i] else DropSpace(parts[i])) == pairs[i] {
      if i > 0 {
        assert parts[i] == attrs[i - 1].Part() && pairs[i] == attrs[i - 1].AsPair();
        assert attrs[i - 1] in attrs;
        CutPart(attrs[i - 1]);
      }
    }
    assert CutAll(parts) == pairs;
  }

  lemma CutNameValue(name: Str, value: Str)
    requires EQUALS !in name
    ensures Cut(name + [EQUALS] + value) == (name, value)
  {
    var first := name + [EQUALS] + value;
    FindFirst(name, EQUALS, value);
    assert first[..|name|] == name && first[|name| + 1..] == value;
  }

  lemma CutRendered(c: CookieData, expires: Str)
    requires Delimited(c) && SEMICOLON !in expires
    ensures CutAll(Split(Render0(c, expires), SEMICOLON)) == [(c.name, c.value)] + PairsOf(Attrs(c, expires))
  {
    SplitRendered(c, expires);
    AttrsClean(c, expires);
    CutNameValue(c.name, c.value);
    CutParts(c.name + [EQUALS] + c.value, Attrs(c, expires));
  }

  lemma MatchGiven(word: Str, text: Str, key: Str)
    ensures FirstMatch(PairsOf(Given(word, text)), key) == if key == word && text != [] then Some(text) else None
  {
  }

  lemma MatchSwitch(word: Str, on: bool, key: Str)
    ensures FirstMatch(PairsOf(Switch(word, on)), key) == if key == word && on then Some([]) else None
  {
  }

  lemma MatchConcat(a: seq<Attr>, b: seq<Attr>, key: Str)
    ensures FirstMatch(PairsOf(a + b), key) ==
            if FirstMatch(PairsOf(a), key).Some? then FirstMatch(PairsOf(a), key) else FirstMatch(PairsOf(b), key)
  {
    assert PairsOf(a + b) == PairsOf(a) + PairsOf(b);
    FirstMatchConcat(PairsOf(a), PairsOf(b), key);
  }

  lemma MatchFlags(c: CookieData, key: Str)
    ensures FirstMatch(PairsOf(FlagAttrs(c)), key) ==
            if key == SAME_SITE_KEY && c.sameSite != Unspecified then Some(SameSiteWord(c.sameSite))
            else if (key == SECURE_KEY && c.secure) || (key == HTTP_ONLY_KEY && c.httpOnly) then Some([])
            else None
  {
    var s, h := Switch(SECURE_KEY, c.secure), Switch(HTTP_ONLY_KEY, c.httpOnly);
    MatchConcat(Given(SAME_SITE_KEY, SameSiteWord(c.sameSite)), s + h, key);
    MatchConcat(s, h, key);
    MatchGiven(SAME_SITE_KEY, SameSiteWord(c.sameSite), key);
    MatchSwitch(SECURE_KEY, c.secure, key);
    MatchSwitch(HTTP_ONLY_KEY, c.httpOnly, key);
    assert c.sameSite != Unspecified <==> SameSiteWord(c.sameSite) != [];
  }

  /** The value of `key` in the map read off a printed cookie. */
  lemma ReadBack(c: CookieData, expires: Str, key: Str)
    requires Delimited(c) && SEMICOLON !in expires
    ensures Lookup(Attributes(Render0(c, expires)), key) ==
            if key == c.name then Some(c.value)
            else if key == DOMAIN && c.domain != [] then Some(c.domain)
            else if key == PATH && c.path != [] then Some(c.path)
            else if key == PRIORITY_PRINTED && c.priority != [] then Some(c.priority)
            else if key == EXPIRES && c.maxAge != -1 then Some(expires)
            else FirstMatch(PairsOf(FlagAttrs(c)), key)
  {
    var d, p, late := Given(DOMAIN, c.domain), Given(PATH, c.path), LaterAttrs(c, expires);
    CutRendered(c, expires);
    InsertAllLookup(map[], [(c.name, c.value)] + PairsOf(Attrs(c, expires)), key);
    FirstMatchConcat([(c.name, c.value)], PairsOf(Attrs(c, expires)), key);
    MatchConcat(d, p + late, key);
    MatchConcat(p, late, key);
    MatchGiven(DOMAIN, c.domain, key);
    MatchGiven(PATH, c.path, key);
    MatchLater(c, expires, key);
  }

  lemma MatchLater(c: CookieData, expires: Str, key: Str)
    ensures FirstMatch(PairsOf(LaterAttrs(c, expires)), key) ==
            if key == PRIORITY_PRINTED && c.priority != [] then Some(c.priority)
            else if key == EXPIRES && c.maxAge != -1 then Some(expires)
            else FirstMatch(PairsOf(FlagAttrs(c)), key)
  {
    var y, e := Given(PRIORITY_PRINTED, c.priority), Dated(c, expires);
    MatchConcat(y, e + FlagAttrs(c), key);
    MatchConcat(e, FlagAttrs(c), key);
    MatchGiven(PRIORITY_PRINTED, c.priority, key);
    assert FirstMatch(PairsOf(e), key) == if key == EXPIRES && c.maxAge != -1 then Some(expires) else None;
  }

  /** When the map constructor gives back the cookie that was printed. */
  predicate Survives(c: CookieData, expires: Str, secondsUntil: Str -> Int32) {
    && Delimited(c) && !IsWord(c.name) && c.comment == [] && c.priority == []
    && (c.maxAge == -1 || secondsUntil(expires) == c.maxAge)
  }

  lemma ReadBackNames(c: CookieData, expires: Str)
    requires Delimited(c) && SEMICOLON !in expires
    ensures NameRead(Attributes(Render0(c, expires)), c.name, c.value) <==>
            !IsWord(c.name) && (c.priority != [] ==> c.name == PRIORITY_PRINTED || Less(PRIORITY_PRINTED, c.name))
  {
    var m := Attributes(Render0(c, expires));
    PrintedWords();
    forall k ensures k in m && !IsWord(k) <==>
                     !IsWord(k) && (k == c.name || (k == PRIORITY_PRINTED && c.priority != []))
    {
      ReadBack(c, expires, k);
      MatchFlags(c, k);
    }
    ReadBack(c, expires, c.name);
  }

  lemma PrintedWords()
    ensures !IsWord(PRIORITY_PRINTED) && !IsWord([])
    ensures IsWord(DOMAIN) && IsWord(PATH) && IsWord(EXPIRES)
    ensures IsWord(SAME_SITE_KEY) && IsWord(SECURE_KEY) && IsWord(HTTP_ONLY_KEY)
  {
    WordShapes();
    assert |PRIORITY_PRINTED| == 8 && PRIORITY_PRINTED[0] == 0x50;
  }

  lemma ReadBackTexts(c: CookieData, expires: Str)
    requires Delimited(c) && SEMICOLON !in expires && !IsWord(c.name)
    ensures TextsRead(Attributes(Render0(c, expires)), c.comment, c.domain, c.path, c.priority) <==>
            c.comment == [] && c.priority == []
  {
    hide Attributes, Render0, FlagAttrs, FirstMatch;
    WordShapes();
    PrintedWords();
    forall k | k == COMMENT || k == DOMAIN || k == PATH || k == PRIORITY
      ensures FieldOr(Attributes(Render0(c, expires)), k) ==
              if k == DOMAIN then c.domain else if k == PATH then c.path else []
    {
      ReadBack(c, expires, k);
      MatchFlags(c, k);
    }
  }

  lemma ReadBackNumbers(c: CookieData, expires: Str, secondsUntil: Str -> Int32)
    requires c.version == 0 && Delimited(c) && SEMICOLON !in expires && !IsWord(c.name)
    ensures NumbersRead(Attributes(Render0(c, expires)), secondsUntil, c.version, c.maxAge) <==>
            c.maxAge == -1 || secondsUntil(expires) == c.maxAge
  {
    hide Attributes, Render0, FlagAttrs, FirstMatch, Stoi;
    WordShapes();
    PrintedWords();
    ReadBack(c, expires, EXPIRES);
    MatchFlags(c, EXPIRES);
    forall k | k == VERSION || k == MAX_AGE ensures k !in Attributes(Render0(c, expires)) {
      ReadBack(c, expires, k);
      MatchFlags(c, k);
    }
  }

  lemma ReadBackFlags(c: CookieData, expires: Str)
    requires Delimited(c) && SEMICOLON !in expires && !IsWord(c.name)
    ensures FlagsRead(Attributes(Render0(c, expires)), c.secure, c.httpOnly, c.sameSite)
  {
    WordShapes();
    PrintedWords();
    SameSiteWords();
    ReadBack(c, expires, SECURE_KEY);
    ReadBack(c, expires, HTTP_ONLY_KEY);
    ReadBack(c, expires, SAME_SITE_KEY);
    MatchFlags(c, SECURE_KEY);
    MatchFlags(c, HTTP_ONLY_KEY);
    MatchFlags(c, SAME_SITE_KEY);
  }

  lemma SameSiteWords()
    ensures forall s :: s != Unspecified ==> SameSiteOf(SameSiteWord(s), Unspecified) == s
  {
  }

  lemma ReadFieldsAreDelimited(text: Str, secondsUntil: Str -> Int32, c: CookieData)
    requires Reads(Attributes(text), secondsUntil, c)
    ensures Delimited(c) && !IsWord(c.name)
  {
    AttributesClean(text);
    PrintedWords();
  }

  /**
    Reading a printed Netscape cookie gives that cookie back exactly when no delimiter is in its
    fields, its name is no attribute name, it has no comment and no priority, and the clock reads the
    printed date as the max-age it was printed for.
   */
  lemma NetscapeRoundTrip(c: CookieData, expires: Str, secondsUntil: Str -> Int32)
    requires c.version == 0 && SEMICOLON !in expires
    ensures Reads(Attributes(Render(c, expires)), secondsUntil, c) <==> Survives(c, expires, secondsUntil)
  {
    if Reads(Attributes(Render(c, expires)), secondsUntil, c) {
      ReadFieldsAreDelimited(Render(c, expires), secondsUntil, c);
    }
    if Delimited(c) && !IsWord(c.name) {
      ReadBackNames(c, expires);
      ReadBackTexts(c, expires);
      ReadBackNumbers(c, expires, secondsUntil);
      ReadBackFlags(c, expires);
    }
  }

  /** A map is read as one cookie at most, so what `NetscapeRoundTrip` reads is the only reading. */
  lemma ReadsUnique(nvc: Fields, secondsUntil: Str -> Int32, c: CookieData, d: CookieData)
    requires Reads(nvc, secondsUntil, c) && Reads(nvc, secondsUntil, d)
    ensures c == d
  {
    if c.name != d.name {
      LessAsymmetric(c.name, d.name);
    }
  }
}
