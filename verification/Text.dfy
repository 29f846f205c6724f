/**
  Byte strings as the C++ code sees them: `std::string` values, their order, the key order in
  which a `std::map` is walked, and the cutting and joining of strings at a one-byte delimiter.
 */
module Text {

  /** One `char` of a `std::string`, read as an unsigned byte. */
  newtype Byte = c: int | 0 <= c < 256
  type Str = seq<Byte>

  const SPACE: Byte := 0x20
  const QUOTE: Byte := 0x22
  const HASH: Byte := 0x23
  const PERCENT: Byte := 0x25
  const AMPERSAND: Byte := 0x26
  const STAR: Byte := 0x2A
  const DOT: Byte := 0x2E
  const SLASH: Byte := 0x2F
  const SEMICOLON: Byte := 0x3B
  const EQUALS: Byte := 0x3D
  const QUESTION: Byte := 0x3F
  const LEFT_BRACKET: Byte := 0x5B
  const RIGHT_BRACKET: Byte := 0x5D

  /** A string literal of the source. */
  function Ascii(text: string): (s: Str)
    requires forall i :: 0 <= i < |text| ==> text[i] as int < 128
    ensures |s| == |text|
    ensures forall i :: 0 <= i < |s| ==> s[i] as int == text[i] as int
  {
    seq(|text|, i requires 0 <= i < |text| => text[i] as int as Byte)
  }

  predicate Digit(c: Byte) {
    0x30 <= c <= 0x39
  }

  // Two words that name an option of a route and an attribute of a cookie alike.
  const PATH: Str := Ascii("path")
  const PRIORITY: Str := Ascii("priority")

  datatype Option<+T> = None | Some(value: T)

  // ---------------------------------------------------------------- order of strings and keys

  /** `operator<` of `std::string`: lexicographic on unsigned bytes. */
  predicate Less(a: Str, b: Str) {
    b != [] && (a == [] || a[0] < b[0] || (a[0] == b[0] && Less(a[1..], b[1..])))
  }

  lemma {:induction false} LessTotal(a: Str, b: Str)
    ensures a == b || Less(a, b) || Less(b, a)
  {
    if a != [] && b != [] && a[0] == b[0] {
      LessTotal(a[1..], b[1..]);
      assert a == [a[0]] + a[1..] && b == [b[0]] + b[1..];
    }
  }

  lemma {:induction false} LessAsymmetric(a: Str, b: Str)
    requires Less(a, b)
    ensures a != b && !Less(b, a)
  {
    if a != [] && a[0] == b[0] {
      LessAsymmetric(a[1..], b[1..]);
    }
  }

  lemma {:induction false} LessTransitive(a: Str, b: Str, c: Str)
    requires Less(a, b) && Less(b, c)
    ensures Less(a, c)
  {
    if a != [] && a[0] == b[0] && b[0] == c[0] {
      LessTransitive(a[1..], b[1..], c[1..]);
    }
  }

  /**
    The order without its recursion: after the longest common prefix, the shorter string or the
    smaller byte comes first.
   */
  lemma {:induction false} LessMeans(a: Str, b: Str)
    ensures Less(a, b) <==>
            exists n: nat :: n <= |a| && n < |b| && a[..n] == b[..n] && (n == |a| || a[n] < b[n])
  {
    if a != [] && b != [] && a[0] == b[0] {
      LessMeans(a[1..], b[1..]);
      if n: nat :| n <= |a| && n < |b| && a[..n] == b[..n] && (n == |a| || a[n] < b[n]) {
        assert n > 0 && a[1..][..n - 1] == a[..n][1..] && b[1..][..n - 1] == b[..n][1..];
      }
      var x, y := a[1..], b[1..];
      if n: nat :| n <= |x| && n < |y| && x[..n] == y[..n] && (n == |x| || x[n] < y[n]) {
        assert a[..n + 1] == [a[0]] + x[..n] && b[..n + 1] == [b[0]] + y[..n];
      }
    } else if Less(a, b) {
      assert a[..0] == b[..0];
    }
  }

  predicate IsLeast(k: Str, keys: set<Str>) {
    k in keys && forall x | x in keys :: x == k || Less(k, x)
  }

  lemma {:induction false} LeastExists(keys: set<Str>)
    requires keys != {}
    ensures exists k :: IsLeast(k, keys)
    decreases |keys|
  {
    var x :| x in keys;
    if keys == {x} {
      assert IsLeast(x, keys);
    } else {
      LeastExists(keys - {x});
      var y :| IsLeast(y, keys - {x});
      LessTotal(x, y);
      if Less(y, x) {
        assert IsLeast(y, keys);
      } else {
        forall z | z in keys ensures z == x || Less(x, z) {
          if z != x && z != y {
            LessTransitive(x, y, z);
          }
        }
        assert IsLeast(x, keys);
      }
    }
  }

  lemma LeastUnique(keys: set<Str>, j: Str, k: Str)
    requires IsLeast(j, keys) && IsLeast(k, keys)
    ensures j == k
  {
    if j != k {
      LessAsymmetric(j, k);
    }
  }

  ghost predicate Ascending(keys: seq<Str>) {
    forall i, j :: 0 <= i < j < |keys| ==> Less(keys[i], keys[j])
  }

  function Least(keys: set<Str>): (k: Str)
    requires keys != {}
    ensures IsLeast(k, keys)
  {
    LeastExists(keys);
    assert forall j, k | IsLeast(j, keys) && IsLeast(k, keys) :: j == k by {
      forall j, k | IsLeast(j, keys) && IsLeast(k, keys) ensures j == k {
        LeastUnique(keys, j, k);
      }
    }
    var k :| k in keys && IsLeast(k, keys);
    k
  }

  /** The keys of a `std::map` from `begin()` to `end()`. */
  function SortedKeys(keys: set<Str>): (r: seq<Str>)
    ensures forall k :: k in r <==> k in keys
    ensures Ascending(r)
    ensures |r| == |keys|
    decreases |keys|
  {
    if keys == {} then
      []
    else
      var k := Least(keys);
      var rest := SortedKeys(keys - {k});
      assert forall x :: x in rest ==> x in keys - {k};
      PrependAscending(k, rest);
      [k] + rest
  }

  lemma PrependAscending(k: Str, rest: seq<Str>)
    requires Ascending(rest) && forall x :: x in rest ==> Less(k, x)
    ensures Ascending([k] + rest)
  {
  }

  lemma AscendingDistinct(keys: seq<Str>)
    requires Ascending(keys)
    ensures forall i, j :: 0 <= i < j < |keys| ==> keys[i] != keys[j]
  {
    forall i, j | 0 <= i < j < |keys| ensures keys[i] != keys[j] {
      LessAsymmetric(keys[i], keys[j]);
    }
  }

  /** `walked` is the map cut down to the first `i` of its keys. */
  ghost predicate Walked<V>(m: map<Str, V>, keys: seq<Str>, i: nat, walked: map<Str, V>)
    requires i <= |keys|
  {
    && (forall k :: k in walked <==> k in keys[..i])
    && (forall k :: k in walked ==> k in m && walked[k] == m[k])
  }

  /** A walk in key order adds one key at a time, above all those before it. */
  lemma WalkOne<V>(m: map<Str, V>, keys: seq<Str>, i: nat, walked: map<Str, V>)
    requires Ascending(keys) && i < |keys| && keys[i] in m && Walked(m, keys, i, walked)
    ensures Walked(m, keys, i + 1, walked[keys[i] := m[keys[i]]])
    ensures keys[i] !in walked && forall k :: k in walked ==> Less(k, keys[i])
  {
    assert keys[..i + 1] == keys[..i] + [keys[i]];
    AscendingDistinct(keys);
  }

  lemma WalkedAll<V>(m: map<Str, V>, keys: seq<Str>, walked: map<Str, V>)
    requires (forall k :: k in keys <==> k in m) && Walked(m, keys, |keys|, walked)
    ensures walked == m
  {
  }

  // ---------------------------------------------------------------- cutting and joining

  /** `find_first_of(c)`, with `|s|` standing for `npos`. */
  function Find(s: Str, c: Byte): (i: nat)
    ensures i <= |s|
    ensures c !in s[..i]
    ensures i < |s| ==> s[i] == c
  {
    if s == [] || s[0] == c then
      0
    else
      var i := 1 + Find(s[1..], c);
      assert s[..i] == [s[0]] + s[1..][..i - 1];
      i
  }

  lemma FindAtMost(s: Str, c: Byte, i: nat)
    requires i < |s| && s[i] == c
    ensures Find(s, c) <= i
  {
  }

  lemma FindFirst(a: Str, c: Byte, b: Str)
    requires c !in a
    ensures Find(a + [c] + b, c) == |a|
  {
    var s := a + [c] + b;
    assert forall j :: 0 <= j < |a| ==> s[j] == a[j] && s[j] != c;
    assert s[|a|] == c && forall j :: 0 <= j < Find(s, c) ==> s[j] == s[..Find(s, c)][j];
  }

  lemma FindNone(s: Str, c: Byte)
    ensures Find(s, c) == |s| <==> c !in s
  {
  }

  /** The parts of `s` between occurrences of `sep`, empty parts kept: never no part at all. */
  function Split(s: Str, sep: Byte): (parts: seq<Str>)
    ensures parts != []
    ensures forall p :: p in parts ==> sep !in p
    ensures Join(parts, sep) == s
  {
    var i := Find(s, sep);
    assert s[..|s|] == s;
    if i == |s| then
      [s]
    else
      assert s == s[..i] + [sep] + s[i + 1..];
      [s[..i]] + Split(s[i + 1..], sep)
  }

  function Join(parts: seq<Str>, sep: Byte): Str {
    if parts == [] then []
    else if |parts| == 1 then parts[0]
    else parts[0] + [sep] + Join(parts[1..], sep)
  }

  /** Joining, without its recursion: nothing around one part, and the delimiter once between two groups of parts. */
  lemma {:induction false} JoinConcat(a: seq<Str>, b: seq<Str>, sep: Byte)
    ensures |a| == 1 ==> Join(a, sep) == a[0]
    ensures a != [] && b != [] ==> Join(a + b, sep) == Join(a, sep) + [sep] + Join(b, sep)
  {
    if |a| > 1 && b != [] {
      JoinConcat(a[1..], b, sep);
      assert (a + b)[1..] == a[1..] + b;
      var head, u, v := a[0] + [sep], Join(a[1..], sep), [sep] + Join(b, sep);
      assert head + (u + v) == head + u + v;
    } else if |a| == 1 {
      assert (a + b)[1..] == b;
    }
  }

  /** One step of printing joined parts after what is already `done`. */
  lemma JoinFrom(done: Str, parts: seq<Str>, i: nat, sep: Byte)
    requires i < |parts|
    ensures done + Join(parts[i..], sep) ==
            done + parts[i] + (if i + 1 == |parts| then [] else [sep]) + Join(parts[i + 1..], sep)
  {
  }

  lemma SplitHead(a: Str, b: Str, sep: Byte)
    requires sep !in a
    ensures Split(a + [sep] + b, sep) == [a] + Split(b, sep)
  {
    var s := a + [sep] + b;
    FindFirst(a, sep, b);
    assert s[..|a|] == a && s[|a| + 1..] == b;
  }

  lemma SplitWhole(a: Str, sep: Byte)
    requires sep !in a
    ensures Split(a, sep) == [a]
  {
  }

  lemma {:induction false} SplitJoin(parts: seq<Str>, sep: Byte)
    requires parts != [] && forall p :: p in parts ==> sep !in p
    ensures Split(Join(parts, sep), sep) == parts
  {
    if |parts| == 1 {
      SplitWhole(parts[0], sep);
    } else {
      var head, rest := parts[0], parts[1..];
      SplitJoin(rest, sep);
      SplitHead(head, Join(rest, sep), sep);
      assert parts == [head] + rest;
    }
  }

  lemma {:induction false} SplitConcat(a: Str, b: Str, sep: Byte)
    ensures Split(a + [sep] + b, sep) == Split(a, sep) + Split(b, sep)
    decreases |a|
  {
    hide Split, Join;
    var i := Find(a, sep);
    FindNone(a, sep);
    if i == |a| {
      SplitHead(a, b, sep);
      SplitWhole(a, sep);
    } else {
      assert a == a[..i] + [sep] + a[i + 1..];
      assert a + [sep] + b == a[..i] + [sep] + (a[i + 1..] + [sep] + b);
      SplitHead(a[..i], a[i + 1..], sep);
      SplitHead(a[..i], a[i + 1..] + [sep] + b, sep);
      SplitConcat(a[i + 1..], b, sep);
    }
  }
}
