/** The compact serialisation of a token: segments separated by '.', as
    `JsonWebToken.encode` joins them and `JsonWebToken.decode` splits them with
    `String.split("\\.")`. */
module TokenText {

  /** The position of the first '.' in `s`. */
  function FirstDot(s: string): (i: nat)
    requires '.' in s
    ensures i < |s| && s[i] == '.'
    ensures forall k :: 0 <= k < i ==> s[k] != '.'
  {
    if s[0] == '.' then 0
    else
      assert s == [s[0]] + s[1..];
      1 + FirstDot(s[1..])
  }

  /** The pieces of `s` between its '.' characters, empty pieces included: the
      split that keeps every piece. */
  function Split(s: string): (parts: seq<string>)
    ensures |parts| >= 1
    ensures forall k :: 0 <= k < |parts| ==> '.' !in parts[k]
    decreases |s|
  {
    if '.' !in s then [s]
    else
      var i := FirstDot(s);
      [s[..i]] + Split(s[i + 1..])
  }

  /** Segments written one after the other with a '.' between neighbours. */
  function Join(parts: seq<string>): (s: string)
    requires |parts| >= 1
  {
    if |parts| == 1 then parts[0] else parts[0] + "." + Join(parts[1..])
  }

  /** Every piece is free of '.'. */
  predicate DotFree(parts: seq<string>)
  {
    forall k :: 0 <= k < |parts| ==> '.' !in parts[k]
  }

  /** Splitting at the first '.' of a text that starts with a dot-free piece. */
  lemma SplitFirst(p: string, rest: string)
    requires '.' !in p
    ensures Split(p + "." + rest) == [p] + Split(rest)
  {
    var s := p + "." + rest;
    assert s[|p|] == '.';
    var i := FirstDot(s);
    assert i == |p|;
    assert s[..i] == p;
    assert s[i + 1..] == rest;
  }

  /** Joining a first segment in front of others puts one '.' between. */
  lemma JoinCons(p: string, parts: seq<string>)
    requires |parts| >= 1
    ensures Join([p] + parts) == p + "." + Join(parts)
  {
    assert ([p] + parts)[1..] == parts;
  }

  /** Three segments joined with '.'. */
  lemma JoinThree(a: string, b: string, c: string)
    ensures Join([a, b, c]) == a + "." + b + "." + c
  {
    JoinCons(b, [c]);
    assert [b] + [c] == [b, c];
    JoinCons(a, [b, c]);
    assert [a] + [b, c] == [a, b, c];
  }

  /** A text is the part before one of its dots, the dot, and the part after. */
  lemma AroundDot(s: string, i: nat)
    requires i < |s| && s[i] == '.'
    ensures s == s[..i] + "." + s[i + 1..]
  {
  }

  /** Joining the pieces of a split gives the text back. */
  lemma {:induction false} JoinSplit(s: string)
    ensures Join(Split(s)) == s
    decreases |s|
  {
    if '.' in s {
      var i := FirstDot(s);
      var rest := s[i + 1..];
      JoinSplit(rest);
      JoinCons(s[..i], Split(rest));
      AroundDot(s, i);
    }
  }

  /** Splitting joined dot-free segments gives the segments back. */
  lemma {:induction false} SplitJoin(parts: seq<string>)
    requires |parts| >= 1 && DotFree(parts)
    ensures Split(Join(parts)) == parts
  {
    if |parts| > 1 {
      SplitJoin(parts[1..]);
      SplitFirst(parts[0], Join(parts[1..]));
      assert parts == [parts[0]] + parts[1..];
    }
  }

  /** `parts` without its trailing empty pieces. */
  function DropTrailingEmpty(parts: seq<string>): (kept: seq<string>)
    ensures |kept| <= |parts| && kept == parts[..|kept|]
    ensures kept == [] || kept[|kept| - 1] != ""
    ensures forall k :: |kept| <= k < |parts| ==> parts[k] == ""
  {
    if parts == [] then []
    else if parts[|parts| - 1] == "" then DropTrailingEmpty(parts[..|parts| - 1])
    else parts
  }

  /** `String.split("\\.")` in Java: a text without any '.' comes back whole
      (so "" gives [""]); otherwise the pieces between the dots with every
      trailing empty piece removed (so "..." gives no piece at all). So it is
      the plain split minus trailing empty pieces, its pieces are dot-free, and
      for a non-empty text the last piece, if any, is non-empty. */
  function JavaSplit(s: string): (parts: seq<string>)
    ensures var plain := Split(s);
      |parts| <= |plain| && parts == plain[..|parts|]
      && (forall k :: |parts| <= k < |plain| ==> plain[k] == "")
      && DotFree(parts)
      && (s != "" ==> parts == [] || parts[|parts| - 1] != "")
  {
    if '.' !in s then [s] else DropTrailingEmpty(Split(s))
  }

  /** Java's split of joined dot-free segments starts with the first segment
      when that segment is non-empty. */
  lemma JavaSplitFirst(parts: seq<string>)
    requires |parts| >= 1 && DotFree(parts) && parts[0] != ""
    ensures |JavaSplit(Join(parts))| >= 1 && JavaSplit(Join(parts))[0] == parts[0]
  {
    SplitJoin(parts);
  }

  /** Java's split of joined dot-free segments gives the segments back when
      the last segment is non-empty (or there is only one). */
  lemma JavaSplitJoin(parts: seq<string>)
    requires |parts| >= 1 && DotFree(parts)
    requires |parts| == 1 || parts[|parts| - 1] != ""
    ensures JavaSplit(Join(parts)) == parts
  {
    SplitJoin(parts);
    if |parts| > 1 {
      assert Join(parts)[|parts[0]|] == '.';
    }
  }
}
