/** The two Python string builtins the reader relies on: str.strip() with no
    argument and str.split(sep) with a one-character separator. */
module StrOps {

  /** The characters for which Python's str.isspace() holds; these are the
      characters that str.strip() with no argument removes. */
  predicate IsSpace(c: char)
  {
    ('\U{9}' <= c <= '\U{D}') || ('\U{1C}' <= c <= '\U{20}') ||
    c == '\U{85}' || c == '\U{A0}' || c == '\U{1680}' ||
    ('\U{2000}' <= c <= '\U{200A}') || c == '\U{2028}' || c == '\U{2029}' ||
    c == '\U{202F}' || c == '\U{205F}' || c == '\U{3000}'
  }

  /** Number of leading whitespace characters of s. */
  function StripStart(s: string): (i: nat)
    ensures i <= |s|
    ensures forall k :: 0 <= k < i ==> IsSpace(s[k])
    ensures i < |s| ==> !IsSpace(s[i])
  {
    if |s| > 0 && IsSpace(s[0]) then 1 + StripStart(s[1..]) else 0
  }

  /** Length of s without its trailing whitespace. */
  function StripEnd(s: string): (j: nat)
    ensures j <= |s|
    ensures forall k :: j <= k < |s| ==> IsSpace(s[k])
    ensures 0 < j ==> !IsSpace(s[j - 1])
  {
    if |s| > 0 && IsSpace(s[|s| - 1]) then StripEnd(s[..|s| - 1]) else |s|
  }

  /** Python's s.strip(): s without its leading and trailing whitespace. */
  function Strip(s: string): (r: string)
    ensures StripStart(s) + |r| <= |s|
    ensures r == s[StripStart(s)..StripStart(s) + |r|]
    ensures forall k :: StripStart(s) + |r| <= k < |s| ==> IsSpace(s[k])
    ensures r != [] ==> !IsSpace(r[0]) && !IsSpace(r[|r| - 1])
    ensures r == [] <==> forall k :: 0 <= k < |s| ==> IsSpace(s[k])
  {
    var t := s[StripStart(s)..];
    t[..StripEnd(t)]
  }

  /** A string without whitespace at either end is its own strip. */
  lemma StripTrimmed(s: string)
    requires s != [] && !IsSpace(s[0]) && !IsSpace(s[|s| - 1])
    ensures Strip(s) == s
  {
  }

  /** The parts joined back together with sep between consecutive ones. */
  function Join(parts: seq<string>, sep: char): string
    requires |parts| >= 1
  {
    if |parts| == 1 then parts[0] else parts[0] + [sep] + Join(parts[1..], sep)
  }

  /** Python's s.split(sep) for a one-character sep: the maximal pieces of s
      between occurrences of sep, empty pieces included. */
  function Split(s: string, sep: char): (parts: seq<string>)
    ensures |parts| >= 1
  {
    if s == [] then [[]]
    else
      var rest := Split(s[1..], sep);
      assert s == [s[0]] + s[1..];
      if s[0] == sep then [[]] + rest
      else [[s[0]] + rest[0]] + rest[1..]
  }

  /** There is one part more than s has separators, and no part holds one. */
  lemma {:induction false} SplitParts(s: string, sep: char)
    ensures |Split(s, sep)| == multiset(s)[sep] + 1
    ensures forall i :: 0 <= i < |Split(s, sep)| ==> sep !in Split(s, sep)[i]
  {
    if s != [] {
      SplitParts(s[1..], sep);
      assert s == [s[0]] + s[1..];
      assert multiset(s) == multiset([s[0]]) + multiset(s[1..]);
      var rest := Split(s[1..], sep);
      var parts := Split(s, sep);
      if s[0] == sep {
        assert parts == [[]] + rest;
        assert forall i :: 1 <= i < |parts| ==> parts[i] == rest[i - 1];
      } else {
        assert parts == [[s[0]] + rest[0]] + rest[1..];
        assert forall i :: 1 <= i < |parts| ==> parts[i] == rest[i];
        assert sep !in rest[0];
      }
    }
  }

  /** One step of Split: the first character starts the parts of the rest
      with an empty part (a separator) or is prepended to their first part. */
  lemma SplitCons(s: string, sep: char)
    requires s != []
    ensures var rest := Split(s[1..], sep);
      Split(s, sep) == if s[0] == sep then [[]] + rest else [[s[0]] + rest[0]] + rest[1..]
  {
  }

  /** One step of Join. */
  lemma JoinCons(p: string, parts: seq<string>, sep: char)
    requires |parts| >= 1
    ensures Join([p] + parts, sep) == p + [sep] + Join(parts, sep)
  {
  }

  /** Prepending a character to the first part prepends it to the joined text. */
  lemma JoinGrow(c: char, parts: seq<string>, sep: char)
    requires |parts| >= 1
    ensures Join([[c] + parts[0]] + parts[1..], sep) == [c] + Join(parts, sep)
  {
  }

  /** Joining the parts of a split gives the string back. */
  lemma {:induction false} JoinSplit(s: string, sep: char)
    ensures Join(Split(s, sep), sep) == s
  {
    if s != [] {
      var t := s[1..];
      JoinSplit(t, sep);
      SplitCons(s, sep);
      var rest := Split(t, sep);
      if s[0] == sep {
        JoinCons([], rest, sep);
      } else {
        JoinGrow(s[0], rest, sep);
      }
      assert s == [s[0]] + t;
    }
  }

  /** Splitting around one separator splits each side separately. */
  lemma {:induction false} SplitAround(x: string, t: string, sep: char)
    ensures Split(x + [sep] + t, sep) == Split(x, sep) + Split(t, sep)
  {
    if x == [] {
      assert [sep] + t == x + [sep] + t;
      assert ([sep] + t)[1..] == t;
    } else {
      assert (x + [sep] + t)[1..] == x[1..] + [sep] + t;
      assert (x + [sep] + t)[0] == x[0];
      SplitAround(x[1..], t, sep);
    }
  }

  /** A string without sep is a single part. */
  lemma {:induction false} SplitNoSep(x: string, sep: char)
    requires sep !in x
    ensures Split(x, sep) == [x]
  {
    if x != [] {
      assert x[0] != sep;
      assert sep !in x[1..];
      SplitNoSep(x[1..], sep);
      assert x == [x[0]] + x[1..];
    }
  }

  /** The parts Split finds are exactly the parts that were joined. */
  lemma {:induction false} SplitJoin(parts: seq<string>, sep: char)
    requires |parts| >= 1
    requires forall i :: 0 <= i < |parts| ==> sep !in parts[i]
    ensures Split(Join(parts, sep), sep) == parts
  {
    if |parts| == 1 {
      SplitNoSep(parts[0], sep);
    } else {
      SplitJoin(parts[1..], sep);
      SplitNoSep(parts[0], sep);
      SplitAround(parts[0], Join(parts[1..], sep), sep);
      assert parts == [parts[0]] + parts[1..];
    }
  }

  /** Appending one character either starts a new part (the separator) or
      extends the last part; this is what a character-at-a-time scanner does. */
  lemma {:induction false} SplitSnoc(s: string, c: char, sep: char)
    ensures var p := Split(s, sep);
      Split(s + [c], sep) == if c == sep then p + [[]] else p[..|p| - 1] + [p[|p| - 1] + [c]]
  {
    if c == sep {
      var empty: string := [];
      SplitAround(s, empty, sep);
      assert s + [sep] + empty == s + [c];
      assert Split(empty, sep) == [[]];
    } else {
      ExtendLastPart(s, c, sep);
    }
  }

  lemma {:induction false} ExtendLastPart(s: string, c: char, sep: char)
    requires c != sep
    ensures var p := Split(s, sep); Split(s + [c], sep) == p[..|p| - 1] + [p[|p| - 1] + [c]]
  {
    if s == [] {
      var one: string := [c];
      var empty: string := [];
      assert one[1..] == empty && one[0] == c && one != empty;
      assert Split(empty, sep) == [empty];
      assert Split(one, sep) == [[c] + empty];
      assert s + [c] == one;
      assert empty + [c] == one && [c] + empty == one;
    } else {
      ExtendLastPart(s[1..], c, sep);
      assert (s + [c])[1..] == s[1..] + [c];
      assert (s + [c])[0] == s[0];
      if s[0] == sep {
        ExtendAfterSep(s, c, sep);
      } else {
        ExtendFirstPart(s, c, sep);
      }
    }
  }

  lemma {:induction false} ExtendAfterSep(s: string, c: char, sep: char)
    requires s != [] && s[0] == sep && (s + [c])[1..] == s[1..] + [c] && (s + [c])[0] == s[0]
    requires var r := Split(s[1..], sep); Split(s[1..] + [c], sep) == r[..|r| - 1] + [r[|r| - 1] + [c]]
    ensures var p := Split(s, sep); Split(s + [c], sep) == p[..|p| - 1] + [p[|p| - 1] + [c]]
  {
  }

  lemma {:induction false} ExtendFirstPart(s: string, c: char, sep: char)
    requires s != [] && s[0] != sep && (s + [c])[1..] == s[1..] + [c] && (s + [c])[0] == s[0]
    requires var r := Split(s[1..], sep); Split(s[1..] + [c], sep) == r[..|r| - 1] + [r[|r| - 1] + [c]]
    ensures var p := Split(s, sep); Split(s + [c], sep) == p[..|p| - 1] + [p[|p| - 1] + [c]]
  {
    var r := Split(s[1..], sep);
    var big := Split(s[1..] + [c], sep);
    SplitCons(s, sep);
    SplitCons(s + [c], sep);
    var p := Split(s, sep);
    assert p == [[s[0]] + r[0]] + r[1..];
    assert Split(s + [c], sep) == [[s[0]] + big[0]] + big[1..];
    if |r| == 1 {
      GrowSingle(s[0], r[0], c);
    } else {
      assert big[0] == r[0];
      assert big[1..] == r[1..|r| - 1] + [r[|r| - 1] + [c]];
      assert p[..|p| - 1] == [[s[0]] + r[0]] + r[1..|r| - 1];
    }
  }

  lemma GrowSingle(a: char, x: string, c: char)
    ensures [[a] + (x + [c])] == [([a] + x) + [c]]
  {
    assert [a] + (x + [c]) == ([a] + x) + [c];
  }

  /** Three separator-free pieces joined by two separators split back into
      the three. */
  lemma SplitThree(a: string, b: string, c: string, sep: char)
    requires sep !in a && sep !in b && sep !in c
    ensures Split(a + [sep] + b + [sep] + c, sep) == [a, b, c]
  {
    assert a + [sep] + b + [sep] + c == a + [sep] + (b + [sep] + c);
    SplitAround(a, b + [sep] + c, sep);
    SplitAround(b, c, sep);
    SplitNoSep(a, sep);
    SplitNoSep(b, sep);
    SplitNoSep(c, sep);
  }
}
