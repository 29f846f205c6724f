/**
  The query of a URL, kept twice as `QueryImpl` keeps it: decoded, as a key/value map, and
  encoded, as `key=value` pairs in key order joined by `&`.
 */
module Query {
  import opened Text
  import opened PercentCodec

  type Fields = map<Str, Str>
  type Pair = (Str, Str)

  /** The delimiters of the format, escaped inside keys and values. */
  const RESERVED: Str := [AMPERSAND, EQUALS]

  // ---------------------------------------------------------------- printing

  /** The pairs of a `std::map` in iteration order. */
  function Entries(m: Fields): (r: seq<Pair>)
    ensures |r| == |m|
  {
    var keys := SortedKeys(m.Keys);
    seq(|keys|, i requires 0 <= i < |keys| => (keys[i], m[keys[i]]))
  }

  lemma EntriesInKeyOrder(m: Fields)
    ensures forall i, j :: 0 <= i < j < |Entries(m)| ==> Less(Entries(m)[i].0, Entries(m)[j].0)
  {
  }

  lemma EntriesMembers(m: Fields)
    ensures forall p :: p in Entries(m) <==> p.0 in m && m[p.0] == p.1
  {
    var keys := SortedKeys(m.Keys);
    forall p: Pair | p.0 in m && m[p.0] == p.1 ensures p in Entries(m) {
      assert p.0 in keys;
      var i :| 0 <= i < |keys| && keys[i] == p.0;
      assert Entries(m)[i] == p;
    }
  }

  function PairText(key: Str, val: Str): Str {
    key + [EQUALS] + val
  }

  function EncodePair(p: Pair): Str {
    PairText(Encode(p.0, RESERVED), Encode(p.1, RESERVED))
  }

  function EncodePairs(ps: seq<Pair>): seq<Str> {
    seq(|ps|, i requires 0 <= i < |ps| => EncodePair(ps[i]))
  }

  function Flatten(m: Fields): Str {
    Join(EncodePairs(Entries(m)), AMPERSAND)
  }

  lemma KeysPeel(keys: set<Str>, key: Str)
    requires IsLeast(key, keys)
    ensures SortedKeys(keys) == [key] + SortedKeys(keys - {key})
  {
    LeastUnique(keys, key, Least(keys));
  }

  lemma EntryAt(m: Fields, i: nat)
    requires i < |m|
    ensures SortedKeys(m.Keys)[i] in m
    ensures Entries(m)[i] == (SortedKeys(m.Keys)[i], m[SortedKeys(m.Keys)[i]])
  {
    assert SortedKeys(m.Keys)[i] in SortedKeys(m.Keys);
  }

  lemma EntriesPeel(m: Fields, key: Str)
    requires IsLeast(key, m.Keys)
    ensures Entries(m) == [(key, m[key])] + Entries(m - {key})
  {
    hide *;
    var rest := m - {key};
    assert rest.Keys == m.Keys - {key};
    KeysPeel(m.Keys, key);
    forall i | 0 <= i < |m| ensures Entries(m)[i] == if i == 0 then (key, m[key]) else Entries(rest)[i - 1] {
      EntryAt(m, i);
      if i > 0 {
        EntryAt(rest, i - 1);
      }
    }
  }

  /** The print, byte for byte: the encoded pair of the least key, then the print of the other pairs. */
  lemma FlattenPeels(m: Fields, key: Str)
    requires IsLeast(key, m.Keys)
    ensures var first := Encode(key, RESERVED) + [EQUALS] + Encode(m[key], RESERVED);
            Flatten(m) == if |m| == 1 then first else first + [AMPERSAND] + Flatten(m - {key})
  {
    hide Encode, Entries, Least, SortedKeys;
    EntriesPeel(m, key);
    var rest := Entries(m - {key});
    var parts := EncodePairs(Entries(m));
    assert parts[0] == EncodePair((key, m[key]));
    assert parts[1..] == EncodePairs(rest);
  }

  /** `s` is the print of `m` up to its first `i` fields, with the delimiter that announces more. */
  ghost predicate Printed(m: Fields, i: nat, s: Str)
    requires i <= |m|
  {
    s + Join(EncodePairs(Entries(m))[i..], AMPERSAND) == Flatten(m)
  }

  lemma PrintedEnds(m: Fields, s: Str)
    ensures Printed(m, 0, [])
    ensures Printed(m, |m|, s) ==> s == Flatten(m)
  {
    assert EncodePairs(Entries(m))[0..] == EncodePairs(Entries(m));
    assert s + [] == s;
  }

  lemma PrintStep(m: Fields, i: nat, done: Str, key: Str, val: Str)
    requires i < |m| && Printed(m, i, done)
    requires key == [] + Encode(SortedKeys(m.Keys)[i], RESERVED)
    requires val == [] + Encode(m[SortedKeys(m.Keys)[i]], RESERVED)
    ensures i + 1 == |m| ==> Printed(m, i + 1, done + PairText(key, val))
    ensures i + 1 < |m| ==> Printed(m, i + 1, done + PairText(key, val) + [AMPERSAND])
  {
    var entry := Entries(m)[i];
    assert key == Encode(entry.0, RESERVED) && val == Encode(entry.1, RESERVED);
    JoinFrom(done, EncodePairs(Entries(m)), i, AMPERSAND);
    assert EncodePairs(Entries(m))[i] == PairText(key, val);
    assert done + PairText(key, val) + [] == done + PairText(key, val);
  }

  // ---------------------------------------------------------------- parsing

  /**
    One part of a query string. A part with no `=` is its own value: the cut is at `npos`, and
    `npos + 1` is 0. A part that does not decode contributes what precedes its first bad escape.
   */
  function DecodePart(part: Str): Pair {
    var pos := Find(part, EQUALS);
    (Decode(part[..pos]).text, Decode(if pos == |part| then part else part[pos + 1..]).text)
  }

  /** The cut is at the first `=`: later ones belong to the value. */
  lemma PartCases(key: Str, val: Str)
    requires EQUALS !in key
    ensures DecodePart(key + [EQUALS] + val) == (Decode(key).text, Decode(val).text)
    ensures DecodePart(key) == (Decode(key).text, Decode(key).text)
  {
    FindFirst(key, EQUALS, val);
    FindNone(key, EQUALS);
    var part := PairText(key, val);
    assert part[..|key|] == key && part[|key| + 1..] == val && key[..|key|] == key;
  }

  function DecodeParts(parts: seq<Str>): seq<Pair> {
    seq(|parts|, i requires 0 <= i < |parts| => DecodePart(parts[i]))
  }

  function Parse(q: Str): seq<Pair> {
    DecodeParts(Split(q, AMPERSAND))
  }

  /** Every part between two `&` gives one pair, in order: none is dropped, however empty or malformed. */
  lemma ParseJoined(parts: seq<Str>)
    requires parts != [] && forall p :: p in parts ==> AMPERSAND !in p
    ensures |Parse(Join(parts, AMPERSAND))| == |parts|
    ensures forall i :: 0 <= i < |parts| ==> Parse(Join(parts, AMPERSAND))[i] == DecodePart(parts[i])
  {
    SplitJoin(parts, AMPERSAND);
  }

  /** `std::map::insert`: a key that is present keeps its value. */
  function Insert(m: Fields, p: Pair): Fields {
    if p.0 in m then m else m[p.0 := p.1]
  }

  function InsertAll(m: Fields, ps: seq<Pair>): Fields
    decreases ps
  {
    if ps == [] then m else InsertAll(Insert(m, ps[0]), ps[1..])
  }

  function Lookup(m: Fields, key: Str): Option<Str> {
    if key in m then Some(m[key]) else None
  }

  lemma InsertStep(m: Fields, parts: seq<Str>, i: nat, key: Str, val: Str)
    requires i < |parts|
    requires key == [] + Decode(parts[i][..Find(parts[i], EQUALS)]).text
    requires var pos := Find(parts[i], EQUALS);
             val == [] + Decode(if pos == |parts[i]| then parts[i] else parts[i][pos + 1..]).text
    ensures InsertAll(m, DecodeParts(parts[i..])) == InsertAll(Insert(m, (key, val)), DecodeParts(parts[i + 1..]))
  {
    var pairs := DecodeParts(parts[i..]);
    assert key == DecodePart(parts[i]).0 && val == DecodePart(parts[i]).1;
    assert pairs[0] == DecodePart(parts[i]) && pairs[1..] == DecodeParts(parts[i + 1..]);
  }

  /** The fields that a fresh object holds after parsing `q`. */
  function ParseFresh(q: Str): Fields {
    InsertAll(map[], Parse(q))
  }

  // ---------------------------------------------------------------- the object

  datatype State = State(fields: Fields, encoded: Str)

  datatype Op = SetMap(m: Fields) | SetEncoded(q: Str)

  function Step(s: State, op: Op): State {
    match op
    case SetMap(m) => State(m, Flatten(m))
    case SetEncoded(q) => State(InsertAll(s.fields, Parse(q)), q)
  }

  class QueryImpl {
    var queryMap: Fields
    var queryEncodedStr: Str

    function View(): State
      reads this
    {
      State(queryMap, queryEncodedStr)
    }

    constructor ()
      ensures View() == State(map[], [])
    {
      queryMap := map[];
      queryEncodedStr := [];
    }

    method SetQuery(fields: Fields) returns (rc: int)
      modifies this
      ensures rc == 0
      ensures View() == Step(old(View()), SetMap(fields))
      ensures queryMap == fields && queryEncodedStr == Flatten(fields)
    {
      queryMap := fields;
      queryEncodedStr := FlattenQueryMap();
      rc := 0;
    }

    method SetEncodedQuery(q: Str) returns (rc: int)
      modifies this
      ensures rc == 0
      ensures View() == Step(old(View()), SetEncoded(q))
      ensures queryMap == InsertAll(old(queryMap), Parse(q)) && queryEncodedStr == q
    {
      queryEncodedStr := q;
      var _ := GenerateQueryMap(q);
      rc := 0;
    }

    method FlattenQueryMap() returns (fieldsStr: Str)
      ensures fieldsStr == Flatten(queryMap)
    {
      fieldsStr := [];
      var fields := queryMap;
      var keys := SortedKeys(fields.Keys);
      PrintedEnds(fields, []);
      var fieldIt := 0;
      while fieldIt != |keys|
        invariant fieldIt <= |keys| == |fields|
        invariant Printed(fields, fieldIt, fieldsStr)
        decreases |keys| - fieldIt
      {
        var _, key := UriEncode(keys[fieldIt], RESERVED, []);
        var _, val := UriEncode(fields[keys[fieldIt]], RESERVED, []);
        PrintStep(fields, fieldIt, fieldsStr, key, val);
        fieldsStr := fieldsStr + PairText(key, val);
        fieldIt := fieldIt + 1;
        if fieldIt != |keys| {
          fieldsStr := fieldsStr + [AMPERSAND];
        }
      }
      PrintedEnds(fields, fieldsStr);
    }

    /** Adds what `q` says to the map: present keys keep their values, and decode errors are ignored. */
    method GenerateQueryMap(q: Str) returns (rc: int)
      modifies this`queryMap
      ensures rc == 0
      ensures queryMap == InsertAll(old(queryMap), Parse(q))
    {
      var result := Split(q, AMPERSAND);
      var i := 0;
      assert result[0..] == result;
      while i < |result|
        invariant i <= |result|
        invariant InsertAll(queryMap, DecodeParts(result[i..])) == InsertAll(old(queryMap), Parse(q))
      {
        var queryPart := result[i];
        var queryPartPos := Find(queryPart, EQUALS);
        var _, key := UriDecode(queryPart[..queryPartPos], []);
        var _, val := UriDecode(if queryPartPos == |queryPart| then queryPart else queryPart[queryPartPos + 1..], []);
        InsertStep(queryMap, result, i, key, val);
        queryMap := if key in queryMap then queryMap else queryMap[key := val];
        i := i + 1;
      }
      rc := 0;
    }

    method GetQuery() returns (queryDecodedStr: Str)
      ensures queryDecodedStr == Decode(queryEncodedStr).text
    {
      var _, decoded := UriDecode(queryEncodedStr, []);
      queryDecodedStr := decoded;
    }

    function GetEncodedQuery(): (q: Str)
      reads this
      ensures q == queryEncodedStr
    {
      queryEncodedStr
    }

    function GetQueryValue(key: Str): (value: Option<Str>)
      reads this
      ensures value.Some? <==> key in queryMap
      ensures value.Some? ==> value.value == queryMap[key]
    {
      Lookup(queryMap, key)
    }
  }

  // ---------------------------------------------------------------- index and scan

  /** The first value a left-to-right scan finds for `key`. */
  function FirstMatch(ps: seq<Pair>, key: Str): (r: Option<Str>)
    ensures r.Some? ==>
              exists i :: 0 <= i < |ps| && ps[i] == (key, r.value) && forall j :: 0 <= j < i ==> ps[j].0 != key
    ensures r.None? ==> forall p :: p in ps ==> p.0 != key
  {
    if ps == [] then None
    else if ps[0].0 == key then Some(ps[0].1)
    else FirstMatch(ps[1..], key)
  }

  lemma {:induction false} InsertAllLookup(m: Fields, ps: seq<Pair>, key: Str)
    ensures Lookup(InsertAll(m, ps), key) == if key in m then Some(m[key]) else FirstMatch(ps, key)
    decreases ps
  {
    if ps != [] {
      InsertAllLookup(Insert(m, ps[0]), ps[1..], key);
    }
  }

  lemma {:induction false} FirstMatchConcat(a: seq<Pair>, b: seq<Pair>, key: Str)
    ensures FirstMatch(a + b, key) == if FirstMatch(a, key).Some? then FirstMatch(a, key) else FirstMatch(b, key)
  {
    if a == [] {
      assert a + b == b;
    } else {
      assert (a + b)[1..] == a[1..] + b;
      FirstMatchConcat(a[1..], b, key);
    }
  }

  lemma EntriesFirstMatch(m: Fields, key: Str)
    ensures FirstMatch(Entries(m), key) == Lookup(m, key)
  {
    EntriesMembers(m);
    if key in m {
      assert (key, m[key]) in Entries(m);
    }
  }

  lemma SameLookups(m: Fields, n: Fields)
    requires forall key :: Lookup(m, key) == Lookup(n, key)
    ensures m == n
  {
    forall key ensures key in m <==> key in n {
      assert Lookup(m, key) == Lookup(n, key);
    }
    forall key | key in m ensures m[key] == n[key] {
      assert Lookup(m, key) == Lookup(n, key);
    }
  }

  lemma InsertEntries(m: Fields)
    ensures InsertAll(map[], Entries(m)) == m
  {
    forall key ensures Lookup(InsertAll(map[], Entries(m)), key) == Lookup(m, key) {
      InsertAllLookup(map[], Entries(m), key);
      EntriesFirstMatch(m, key);
    }
    SameLookups(InsertAll(map[], Entries(m)), m);
  }

  /** The state of an object after a run of setter calls on a fresh one. */
  function After(ops: seq<Op>): State {
    if ops == [] then State(map[], []) else Step(After(ops[..|ops| - 1]), ops[|ops| - 1])
  }

  /** The pairs of the last map set, then the parts of every encoded query set later, in order. */
  function History(ops: seq<Op>): seq<Pair> {
    if ops == [] then
      []
    else
      match ops[|ops| - 1]
      case SetMap(m) => Entries(m)
      case SetEncoded(q) => History(ops[..|ops| - 1]) + Parse(q)
  }

  lemma {:induction false} IndexAgreesWithScan(ops: seq<Op>, key: Str)
    ensures Lookup(After(ops).fields, key) == FirstMatch(History(ops), key)
  {
    if ops != [] {
      var before := ops[..|ops| - 1];
      IndexAgreesWithScan(before, key);
      match ops[|ops| - 1]
      case SetMap(m) => EntriesFirstMatch(m, key);
      case SetEncoded(q) =>
        InsertAllLookup(After(before).fields, Parse(q), key);
        FirstMatchConcat(History(before), Parse(q), key);
    }
  }

  /** The same on an object: what it answers for a key, after any run of setter calls on it. */
  lemma ValueAfterRun(query: QueryImpl, ops: seq<Op>, key: Str)
    requires query.View() == After(ops)
    ensures query.GetQueryValue(key) == FirstMatch(History(ops), key)
  {
    IndexAgreesWithScan(ops, key);
  }

  /** Parsing distributes over `&`, whatever the object held before and however malformed the halves. */
  lemma ParseDistributes(s: State, a: Str, b: Str)
    ensures Step(Step(s, SetEncoded(a)), SetEncoded(b)).fields == Step(s, SetEncoded(a + [AMPERSAND] + b)).fields
  {
    ParseConcat(a, b);
    InsertAllConcat(s.fields, Parse(a), Parse(b));
  }

  lemma ParseConcat(a: Str, b: Str)
    ensures Parse(a + [AMPERSAND] + b) == Parse(a) + Parse(b)
  {
    SplitConcat(a, b, AMPERSAND);
  }

  lemma {:induction false} InsertAllConcat(m: Fields, a: seq<Pair>, b: seq<Pair>)
    ensures InsertAll(InsertAll(m, a), b) == InsertAll(m, a + b)
    decreases a
  {
    if a == [] {
      assert a + b == b;
    } else {
      assert (a + b)[1..] == a[1..] + b;
      InsertAllConcat(Insert(m, a[0]), a[1..], b);
    }
  }

  /**
    The encoded string and the map say the same thing after `setEncodedQuery` exactly when the
    string repeats everything the map already held: the setter replaces one and adds to the other.
   */
  lemma EncodedMatchesFields(s: State, q: Str)
    ensures ParseFresh(q) == Step(s, SetEncoded(q)).fields <==>
            forall key :: key in s.fields ==> FirstMatch(Parse(q), key) == Some(s.fields[key])
  {
    var m, n := ParseFresh(q), Step(s, SetEncoded(q)).fields;
    forall key
      ensures Lookup(m, key) == FirstMatch(Parse(q), key)
      ensures Lookup(n, key) == if key in s.fields then Some(s.fields[key]) else FirstMatch(Parse(q), key)
    {
      InsertAllLookup(map[], Parse(q), key);
      InsertAllLookup(s.fields, Parse(q), key);
    }
    if forall key :: key in s.fields ==> FirstMatch(Parse(q), key) == Some(s.fields[key]) {
      SameLookups(m, n);
    }
  }

  // ---------------------------------------------------------------- parsing inverts printing

  lemma EncodeAvoidsDelimiters(s: Str)
    ensures AMPERSAND !in Encode(s, RESERVED) && EQUALS !in Encode(s, RESERVED)
  {
  }

  lemma DecodeEncodedPair(p: Pair)
    ensures AMPERSAND !in EncodePair(p)
    ensures DecodePart(EncodePair(p)) == p
  {
    EncodeAvoidsDelimiters(p.0);
    EncodeAvoidsDelimiters(p.1);
    PartCases(Encode(p.0, RESERVED), Encode(p.1, RESERVED));
    DecodeEncode(p.0, RESERVED);
    DecodeEncode(p.1, RESERVED);
  }

  lemma ParseFlatten(m: Fields)
    requires m != map[]
    ensures Parse(Flatten(m)) == Entries(m)
  {
    var ps := Entries(m);
    var parts := EncodePairs(ps);
    forall i | 0 <= i < |ps| ensures AMPERSAND !in parts[i] && DecodePart(parts[i]) == ps[i] {
      DecodeEncodedPair(ps[i]);
    }
    SplitJoin(parts, AMPERSAND);
    assert DecodeParts(parts) == ps;
  }

  lemma ParseEmpty()
    ensures Parse([]) == [([], [])]
    ensures Flatten(map[]) == []
  {
  }

  /** Printing and parsing back is the identity on every map but the empty one, which gains an empty key. */
  lemma RoundTrip(m: Fields)
    ensures ParseFresh(Flatten(m)) == m <==> m != map[]
    ensures m == map[] ==> ParseFresh(Flatten(m)) == map[[] := []]
  {
    if m == map[] {
      ParseEmpty();
      assert ParseFresh([]) == InsertAll(Insert(map[], ([], [])), []);
      assert [] in ParseFresh([]);
    } else {
      ParseFlatten(m);
      InsertEntries(m);
    }
  }

  /** Different maps print differently, the empty one included. */
  lemma FlattenInjective(m: Fields, n: Fields)
    requires Flatten(m) == Flatten(n)
    ensures m == n
  {
    RoundTrip(m);
    RoundTrip(n);
    FlattenNonempty(m);
    FlattenNonempty(n);
  }

  lemma FlattenNonempty(m: Fields)
    ensures Flatten(m) == [] <==> m == map[]
  {
  }

  /** Whether some map prints as `q`: parsing it and printing again tells. */
  predicate IsPrint(q: Str) {
    q == [] || Flatten(ParseFresh(q)) == q
  }

  lemma PrintImage(q: Str)
    ensures (exists m :: Flatten(m) == q) <==> IsPrint(q)
  {
    ParseEmpty();
    if m :| Flatten(m) == q {
      RoundTrip(m);
    }
  }

  lemma MapPrinting(q: Str) returns (m: Fields)
    requires IsPrint(q)
    ensures Flatten(m) == q
  {
    PrintImage(q);
    m :| Flatten(m) == q;
  }

  /** Parsing never leaves a fresh object empty, so printing what was parsed loses nothing, however malformed it was. */
  lemma NormalForm(q: Str)
    ensures ParseFresh(Flatten(ParseFresh(q))) == ParseFresh(q)
  {
    var key := Parse(q)[0].0;
    InsertAllLookup(map[], Parse(q), key);
    assert Lookup(ParseFresh(q), key) == Some(Parse(q)[0].1);
    RoundTrip(ParseFresh(q));
  }

  // ---------------------------------------------------------------- the whole string, decoded at once

  function RawPairs(ps: seq<Pair>): seq<Str> {
    seq(|ps|, i requires 0 <= i < |ps| => PairText(ps[i].0, ps[i].1))
  }

  lemma DecodeOne(c: Byte)
    requires c != PERCENT
    ensures Decode([c]) == Decoded(true, [c])
  {
  }

  lemma DecodeWholePair(p: Pair)
    ensures Decode(EncodePair(p)) == Decoded(true, PairText(p.0, p.1))
  {
    var k, v := Encode(p.0, RESERVED), Encode(p.1, RESERVED);
    DecodeEncode(p.0, RESERVED);
    DecodeEncode(p.1, RESERVED);
    DecodeOne(EQUALS);
    DecodeConcat(k, [EQUALS]);
    DecodeConcat(k + [EQUALS], v);
  }

  lemma {:induction false} DecodeJoined(ps: seq<Pair>)
    ensures Decode(Join(EncodePairs(ps), AMPERSAND)) == Decoded(true, Join(RawPairs(ps), AMPERSAND))
  {
    if ps != [] {
      DecodeWholePair(ps[0]);
      DecodeJoined(ps[1..]);
      var head, rest := EncodePair(ps[0]), Join(EncodePairs(ps[1..]), AMPERSAND);
      assert EncodePairs(ps)[1..] == EncodePairs(ps[1..]) && RawPairs(ps)[1..] == RawPairs(ps[1..]);
      DecodeOne(AMPERSAND);
      DecodeConcat(head, [AMPERSAND]);
      DecodeConcat(head + [AMPERSAND], rest);
    }
  }

  /** After the map setter, the no-argument getter shows the raw pairs in key order, delimiters in them unescaped. */
  lemma DecodedQueryShowsRawPairs(s: State, m: Fields)
    ensures Decode(Step(s, SetMap(m)).encoded) == Decoded(true, Join(RawPairs(Entries(m)), AMPERSAND))
  {
    DecodeJoined(Entries(m));
  }
}
