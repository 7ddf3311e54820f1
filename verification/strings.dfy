/**
 The three string builtins the command parser leans on: stripping whitespace
 from both ends, splitting on the single literal character ' ', and joining
 with ' '. Stripping and splitting recurse over the characters, joining over
 the pieces; each is characterised by its contract and by the round-trip
 lemmas at the end of the module.
 */
module Strings {

  /** Code points that Python 3's `str.isspace` accepts, the set `str.strip()`
      with no argument removes from both ends of a string. */
  predicate IsWhitespace(c: char) {
    var n := c as int;
    || (0x09 <= n <= 0x0D)
    || (0x1C <= n <= 0x20)
    || n == 0x85
    || n == 0xA0
    || n == 0x1680
    || (0x2000 <= n <= 0x200A)
    || n == 0x2028
    || n == 0x2029
    || n == 0x202F
    || n == 0x205F
    || n == 0x3000
  }

  /** Sample characters on either side of the line: the ASCII controls,
      the separator controls U+001C to U+001F, and the wide Unicode spaces are
      whitespace; letters and the zero-width space U+200B are not. */
  lemma WhitespaceSamples()
    ensures IsWhitespace(' ') && IsWhitespace('\t') && IsWhitespace('\n') && IsWhitespace('\r')
    ensures IsWhitespace('\U{0B}') && IsWhitespace('\U{0C}')
    ensures IsWhitespace('\U{1C}') && IsWhitespace('\U{1F}')
    ensures IsWhitespace('\U{85}') && IsWhitespace('\U{A0}') && IsWhitespace('\U{3000}')
    ensures !IsWhitespace('a') && !IsWhitespace('\U{08}') && !IsWhitespace('\U{200B}')
  {
  }

  predicate AllWhitespace(s: string) {
    forall i :: 0 <= i < |s| ==> IsWhitespace(s[i])
  }

  /** True of the strings `strip()` can return: nothing to remove at either end. */
  predicate IsStripped(s: string) {
    |s| == 0 || (!IsWhitespace(s[0]) && !IsWhitespace(s[|s| - 1]))
  }

  /** Number of ' ' characters in `s`. */
  function CountSpaces(s: string): nat {
    multiset(s)[' ']
  }

  /** Drops the leading characters that satisfy `drop`, keeping a suffix of `s`. */
  function TrimStart(s: string, drop: char -> bool): (r: string)
    ensures |r| <= |s| && r == s[|s| - |r|..]
    decreases |s|
  {
    if |s| > 0 && drop(s[0]) then TrimStart(s[1..], drop) else s
  }

  /** Drops the trailing characters that satisfy `drop`, keeping a prefix of `s`. */
  function TrimEnd(s: string, drop: char -> bool): (r: string)
    ensures |r| <= |s| && r == s[..|r|]
    decreases |s|
  {
    if |s| > 0 && drop(s[|s| - 1]) then TrimEnd(s[..|s| - 1], drop) else s
  }

  /** `TrimStart` drops only characters satisfying `drop`, and what it keeps
      does not start with one. */
  lemma {:induction false} TrimStartDrops(s: string, drop: char -> bool)
    ensures forall i :: 0 <= i < |s| - |TrimStart(s, drop)| ==> drop(s[i])
    ensures |TrimStart(s, drop)| > 0 ==> !drop(TrimStart(s, drop)[0])
    decreases |s|
  {
    if |s| > 0 && drop(s[0]) {
      var tail := s[1..];
      TrimStartDrops(tail, drop);
      var r := TrimStart(tail, drop);
      assert TrimStart(s, drop) == r;
      forall i | 1 <= i < |s| - |r| ensures drop(s[i]) {
        assert s[i] == tail[i - 1];
      }
    }
  }

  /** `TrimEnd` drops only characters satisfying `drop`, and what it keeps
      does not end with one. */
  lemma {:induction false} TrimEndDrops(s: string, drop: char -> bool)
    ensures forall i :: |TrimEnd(s, drop)| <= i < |s| ==> drop(s[i])
    ensures |TrimEnd(s, drop)| > 0 ==> !drop(TrimEnd(s, drop)[|TrimEnd(s, drop)| - 1])
    decreases |s|
  {
    if |s| > 0 && drop(s[|s| - 1]) {
      var init := s[..|s| - 1];
      TrimEndDrops(init, drop);
      var r := TrimEnd(init, drop);
      assert TrimEnd(s, drop) == r;
      forall i | |r| <= i < |s| - 1 ensures drop(s[i]) {
        assert s[i] == init[i];
      }
    }
  }

  /** Trimming both ends keeps the piece of `s` that starts at `lo`, and
      everything around that piece satisfies `drop`. */
  lemma TrimBothKeepsMiddle(s: string, drop: char -> bool, lo: nat)
    requires lo == |s| - |TrimStart(s, drop)|
    ensures lo + |TrimEnd(TrimStart(s, drop), drop)| <= |s|
    ensures TrimEnd(TrimStart(s, drop), drop) == s[lo..lo + |TrimEnd(TrimStart(s, drop), drop)|]
    ensures forall i :: 0 <= i < lo ==> drop(s[i])
    ensures forall i :: lo + |TrimEnd(TrimStart(s, drop), drop)| <= i < |s| ==> drop(s[i])
  {
    var t := TrimStart(s, drop);
    var r := TrimEnd(t, drop);
    TrimStartDrops(s, drop);
    TrimEndDrops(t, drop);
    assert t == s[lo..];
    assert r == s[lo..lo + |r|] by {
      assert r == t[..|r|];
      forall j | 0 <= j < |r| ensures r[j] == s[lo + j] {
        assert r[j] == t[j];
      }
    }
    forall i | lo + |r| <= i < |s| ensures drop(s[i]) {
      assert s[i] == t[i - lo];
    }
  }

  /** Python's `str.strip()` with no argument. */
  function Strip(s: string): (r: string)
    ensures |r| <= |s|
    ensures IsStripped(r)
    ensures IsStripped(s) ==> r == s
  {
    var t := TrimStart(s, IsWhitespace);
    TrimStartDrops(s, IsWhitespace);
    TrimEndDrops(t, IsWhitespace);
    TrimStripped(s);
    TrimEnd(t, IsWhitespace)
  }

  /** A string with nothing to strip is left as it is. */
  lemma TrimStripped(s: string)
    ensures IsStripped(s) ==> TrimEnd(TrimStart(s, IsWhitespace), IsWhitespace) == s
  {
  }

  /** Stripping leaves nothing exactly when the string is all whitespace. */
  lemma StripEmpty(s: string)
    ensures |Strip(s)| == 0 <==> AllWhitespace(s)
  {
    var t := TrimStart(s, IsWhitespace);
    TrimStartDrops(s, IsWhitespace);
    TrimEndDrops(t, IsWhitespace);
    assert Strip(s) == TrimEnd(t, IsWhitespace);
  }

  /** Stripping keeps a contiguous piece of the string, starting at `lo`,
      and removes only whitespace on either side of it. */
  lemma StripKeepsMiddle(s: string) returns (lo: nat)
    ensures lo + |Strip(s)| <= |s|
    ensures Strip(s) == s[lo..lo + |Strip(s)|]
    ensures forall i :: 0 <= i < lo ==> IsWhitespace(s[i])
    ensures forall i :: lo + |Strip(s)| <= i < |s| ==> IsWhitespace(s[i])
  {
    lo := |s| - |TrimStart(s, IsWhitespace)|;
    assert Strip(s) == TrimEnd(TrimStart(s, IsWhitespace), IsWhitespace);
    TrimBothKeepsMiddle(s, IsWhitespace, lo);
  }

  /** Python's `str.split(' ')`: the pieces between consecutive ' '
      characters, so adjacent spaces give empty pieces and the result is
      never empty. */
  function Split(s: string): (r: seq<string>)
    ensures |r| >= 1
    ensures forall i :: 0 <= i < |r| ==> ' ' !in r[i]
    decreases |s|
  {
    if |s| == 0 then [""]
    else if s[0] == ' ' then [""] + Split(s[1..])
    else
      var rest := Split(s[1..]);
      [[s[0]] + rest[0]] + rest[1..]
  }

  /** A split has one more piece than the string has spaces. */
  lemma {:induction false} SplitCount(s: string)
    ensures |Split(s)| == CountSpaces(s) + 1
    decreases |s|
  {
    if |s| > 0 {
      SplitCount(s[1..]);
      assert s == [s[0]] + s[1..];
    }
  }

  /** Python's `' '.join(ts)`. */
  function Join(ts: seq<string>): string
    decreases |ts|
  {
    if |ts| == 0 then ""
    else if |ts| == 1 then ts[0]
    else ts[0] + " " + Join(ts[1..])
  }

  /** Joining the pieces of a split gives the original string back. */
  lemma {:induction false} JoinSplit(s: string)
    ensures Join(Split(s)) == s
    decreases |s|
  {
    if |s| > 0 {
      JoinSplit(s[1..]);
      var rest := Split(s[1..]);
      if s[0] == ' ' {
        assert Split(s) == [""] + rest;
        assert Join(Split(s)) == "" + " " + Join(rest);
      } else if |rest| == 1 {
        assert Join(Split(s)) == [s[0]] + rest[0];
      } else {
        var r := Split(s);
        assert r[1..] == rest[1..];
        assert Join(r) == [s[0]] + rest[0] + " " + Join(rest[1..]);
        assert Join(rest) == rest[0] + " " + Join(rest[1..]);
      }
    }
  }

  /** A string without ' ' splits into itself alone. */
  lemma {:induction false} SplitNoSpace(t: string)
    requires ' ' !in t
    ensures Split(t) == [t]
    decreases |t|
  {
    if |t| > 0 {
      assert forall c :: c in t[1..] ==> c in t;
      SplitNoSpace(t[1..]);
      assert [t[0]] + t[1..] == t;
    }
  }

  /** A space-free token followed by ' ' splits off as the first piece. */
  lemma {:induction false} SplitAfterToken(a: string, b: string)
    requires ' ' !in a
    ensures Split(a + " " + b) == [a] + Split(b)
    decreases |a|
  {
    var s := a + " " + b;
    if |a| == 0 {
      assert s[1..] == b;
    } else {
      assert s[1..] == a[1..] + " " + b;
      assert forall c :: c in a[1..] ==> c in a;
      SplitAfterToken(a[1..], b);
      assert [a[0]] + a[1..] == a;
    }
  }

  /** Splitting a join of space-free pieces gives the pieces back. */
  lemma {:induction false} SplitJoin(ts: seq<string>)
    requires |ts| >= 1
    requires forall i :: 0 <= i < |ts| ==> ' ' !in ts[i]
    ensures Split(Join(ts)) == ts
    decreases |ts|
  {
    if |ts| == 1 {
      SplitNoSpace(ts[0]);
    } else {
      SplitJoin(ts[1..]);
      SplitAfterToken(ts[0], Join(ts[1..]));
      assert [ts[0]] + ts[1..] == ts;
    }
  }
}
