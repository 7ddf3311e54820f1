/**
 The shared library of the key-value cache: the command-line parser and the
 key-value store with age-bounded lookups. The wall clock the store reads is
 an explicit `now` argument; times and ages are seconds as `real`.
 */
module Library {
  import opened Wrappers
  import opened Strings

  // ---------------------------------------------------------------------------
  // Command parser
  // ---------------------------------------------------------------------------

  /** The triple `(command, arg1, remainder)`; `None` marks an absent part. */
  datatype ParsedCommand = ParsedCommand(command: Option<string>, arg1: Option<string>, remainder: Option<string>)

  /** Strips the line, splits it on every single ' ', and picks the parts
      out of the pieces. */
  function ParseCommand(line: string): (r: ParsedCommand)
    ensures r.command.Some? && ' ' !in r.command.value
    ensures r.arg1.Some? ==> ' ' !in r.arg1.value
    ensures r.remainder.Some? ==> r.arg1.Some?
  {
    FromPieces(Split(Strip(line)))
  }

  /** The first piece, the second piece, and the pieces from the third on
      joined back with ' ', each `None` when there are too few pieces. */
  function FromPieces(args: seq<string>): ParsedCommand {
    var command := if |args| > 0 then Some(args[0]) else None;
    var arg1 := if |args| > 1 then Some(args[1]) else None;
    var remainder := if |args| > 2 then Some(Join(args[2..])) else None;
    ParsedCommand(command, arg1, remainder)
  }

  /** The line a parsed command stands for: its present parts joined with ' '. */
  function Unparse(p: ParsedCommand): string {
    (if p.command.Some? then p.command.value else "")
    + (if p.arg1.Some? then " " + p.arg1.value else "")
    + (if p.remainder.Some? then " " + p.remainder.value else "")
  }

  /** The shape of every triple the parser can return. */
  predicate WellFormed(p: ParsedCommand) {
    && p.command.Some? && ' ' !in p.command.value
    && (p.arg1.Some? ==> ' ' !in p.arg1.value)
    && (p.remainder.Some? ==> p.arg1.Some?)
    && IsStripped(Unparse(p))
  }

  /** Joining the parts back with single spaces gives the stripped line. */
  lemma ParseCommandRoundTrip(line: string)
    ensures Unparse(ParseCommand(line)) == Strip(line)
  {
    var t := Strip(line);
    JoinSplit(t);
    UnparseFromPieces(Split(t));
  }

  /** Joining the parts picked out of the pieces is joining the pieces. */
  lemma UnparseFromPieces(args: seq<string>)
    requires |args| >= 1
    ensures Unparse(FromPieces(args)) == Join(args)
  {
    if |args| > 2 {
      assert args[1..][1..] == args[2..];
    }
  }

  /** The parser inverts `Unparse` on every well-formed triple, so the
      triples it returns are exactly the well-formed ones. */
  lemma ParseCommandInvertsUnparse(p: ParsedCommand)
    requires WellFormed(p)
    ensures ParseCommand(Unparse(p)) == p
  {
    var line := Unparse(p);
    assert Strip(line) == line;
    PiecesOfUnparse(p);
  }

  /** Splitting the line a well-formed triple stands for gives back its parts. */
  lemma PiecesOfUnparse(p: ParsedCommand)
    requires p.command.Some? && ' ' !in p.command.value
    requires p.arg1.Some? ==> ' ' !in p.arg1.value
    requires p.remainder.Some? ==> p.arg1.Some?
    ensures FromPieces(Split(Unparse(p))) == p
  {
    var c := p.command.value;
    if p.arg1.None? {
      assert Unparse(p) == c;
      SplitNoSpace(c);
    } else if p.remainder.None? {
      var a := p.arg1.value;
      assert Unparse(p) == c + " " + a;
      SplitAfterToken(c, a);
      SplitNoSpace(a);
    } else {
      var a := p.arg1.value;
      var rest := p.remainder.value;
      assert Unparse(p) == c + " " + (a + " " + rest);
      PiecesOfThreeParts(c, a, rest);
    }
  }

  /** A line of two space-free tokens and a tail splits into the tokens and
      the pieces of the tail, which join back to the tail. */
  lemma PiecesOfThreeParts(c: string, a: string, rest: string)
    requires ' ' !in c && ' ' !in a
    ensures FromPieces(Split(c + " " + (a + " " + rest))) == ParsedCommand(Some(c), Some(a), Some(rest))
  {
    SplitAfterToken(c, a + " " + rest);
    SplitAfterToken(a, rest);
    var args := [c, a] + Split(rest);
    assert Split(c + " " + (a + " " + rest)) == args;
    assert args[2..] == Split(rest);
    JoinSplit(rest);
  }

  /** Every result of the parser is well formed. */
  lemma ParseCommandWellFormed(line: string)
    ensures WellFormed(ParseCommand(line))
  {
    ParseCommandRoundTrip(line);
  }

  /** `arg1` is present exactly when the stripped line holds a ' ', and
      `remainder` exactly when it holds two; adjacent spaces count. */
  lemma ParseCommandArity(line: string)
    ensures ParseCommand(line).arg1.Some? <==> CountSpaces(Strip(line)) >= 1
    ensures ParseCommand(line).remainder.Some? <==> CountSpaces(Strip(line)) >= 2
  {
    SplitCount(Strip(line));
  }

  /** Empty or whitespace-only input, and only such input, gives
      `("", None, None)`: the command is the empty string, never absent. */
  lemma ParseCommandBlank(line: string)
    ensures AllWhitespace(line) <==> ParseCommand(line) == ParsedCommand(Some(""), None, None)
  {
    StripEmpty(line);
    if ParseCommand(line) == ParsedCommand(Some(""), None, None) {
      ParseCommandRoundTrip(line);
    }
  }

  /** Only ' ' separates tokens: a stripped line without ' ' is returned
      whole as the command, tabs and other whitespace inside it included. */
  lemma ParseCommandSingleToken(line: string)
    requires ' ' !in Strip(line)
    ensures ParseCommand(line) == ParsedCommand(Some(Strip(line)), None, None)
  {
    SplitNoSpace(Strip(line));
  }

  /** A lone token is the command. */
  lemma ParseCommandOneToken()
    ensures ParseCommand("SET") == ParsedCommand(Some("SET"), None, None)
  {
    var p := ParsedCommand(Some("SET"), None, None);
    assert Unparse(p) == "SET";
    assert IsStripped("SET");
    ParseCommandInvertsUnparse(p);
  }

  /** Two tokens give a command and `arg1`, with no remainder. */
  lemma ParseCommandTwoTokens()
    ensures ParseCommand("SET foo") == ParsedCommand(Some("SET"), Some("foo"), None)
  {
    var p := ParsedCommand(Some("SET"), Some("foo"), None);
    assert Unparse(p) == "SET foo";
    assert IsStripped("SET foo");
    ParseCommandInvertsUnparse(p);
  }

  /** From the third token on, the line is the remainder, spaces included. */
  lemma ParseCommandFourTokens()
    ensures ParseCommand("SET foo bar baz") == ParsedCommand(Some("SET"), Some("foo"), Some("bar baz"))
  {
    var p := ParsedCommand(Some("SET"), Some("foo"), Some("bar baz"));
    assert Unparse(p) == "SET foo bar baz";
    assert IsStripped("SET foo bar baz");
    ParseCommandInvertsUnparse(p);
  }

  /** A double space yields an empty `arg1`, not a collapsed separator. */
  lemma ParseCommandDoubleSpace()
    ensures ParseCommand("A  b") == ParsedCommand(Some("A"), Some(""), Some("b"))
  {
    var p := ParsedCommand(Some("A"), Some(""), Some("b"));
    assert Unparse(p) == "A  b";
    assert IsStripped("A  b");
    ParseCommandInvertsUnparse(p);
  }

  /** Blank input gives an empty command rather than an absent one. */
  lemma ParseCommandBlankExample()
    ensures ParseCommand("   ") == ParsedCommand(Some(""), None, None)
  {
    ParseCommandBlank("   ");
  }

  /** Surrounding whitespace goes; a tab inside the line stays in its token. */
  lemma ParseCommandTabExample()
    ensures ParseCommand(" GET\tk v \n") == ParsedCommand(Some("GET\tk"), Some("v"), None)
  {
    var p := ParsedCommand(Some("GET\tk"), Some("v"), None);
    TabTriple();
    StripTabLine();
    ParseCommandByStrip(" GET\tk v \n", p);
  }

  /** The expected triple is well formed and stands for the stripped line. */
  lemma TabTriple()
    ensures var p := ParsedCommand(Some("GET\tk"), Some("v"), None);
            WellFormed(p) && Unparse(p) == "GET\tk v"
  {
    assert Unparse(ParsedCommand(Some("GET\tk"), Some("v"), None)) == "GET\tk v";
  }

  /** A line whose stripped form is the line of a well-formed triple parses
      as that triple. */
  lemma ParseCommandByStrip(line: string, p: ParsedCommand)
    requires WellFormed(p)
    requires Strip(line) == Unparse(p)
    ensures ParseCommand(line) == p
  {
    PiecesOfUnparse(p);
  }

  /** The leading space and the trailing space and newline are stripped. */
  lemma StripTabLine()
    ensures Strip(" GET\tk v \n") == "GET\tk v"
  {
    TrimStartTabLine();
    TrimEndTabLine();
  }

  /** The leading space is dropped and the `G` stops the trim. */
  lemma TrimStartTabLine()
    ensures TrimStart(" GET\tk v \n", IsWhitespace) == "GET\tk v \n"
  {
    var line := " GET\tk v \n";
    var t := "GET\tk v \n";
    assert IsWhitespace(line[0]) && !IsWhitespace(t[0]);
    assert line[1..] == t;
    assert TrimStart(t, IsWhitespace) == t;
  }

  /** The trailing newline and space are dropped one at a time. */
  lemma TrimEndTabLine()
    ensures TrimEnd("GET\tk v \n", IsWhitespace) == "GET\tk v"
  {
    var t := "GET\tk v \n";
    var u := "GET\tk v ";
    var v := "GET\tk v";
    assert t[..|t| - 1] == u;
    assert u[..|u| - 1] == v;
    assert TrimEnd(v, IsWhitespace) == v;
    assert TrimEnd(u, IsWhitespace) == v;
  }

  // ---------------------------------------------------------------------------
  // Key-value store
  // ---------------------------------------------------------------------------

  /** A stored value and the clock reading taken when it was stored. */
  datatype ValTimeStore = ValTimeStore(value: string, timestamp: real)

  /** The cache: entries by key, and whether any store has succeeded yet. */
  datatype KeyValueStore = KeyValueStore(dict: map<string, ValTimeStore>, hasBeenSet: bool)

  /** What `StoreValue` returns: 0 on success, 1 for a missing argument. */
  const STORE_OK: int := 0
  const STORE_INVALID_PARAMETERS: int := 1

  datatype StoreResult = StoreResult(status: int, store: KeyValueStore)

  /** The flag is set exactly when the dictionary holds an entry. */
  predicate Valid(s: KeyValueStore) {
    s.hasBeenSet <==> |s.dict| > 0
  }

  /** An entry is fresh enough when no bound is given, or when the time since
      it was stored is at most the bound. */
  predicate WithinAge(e: ValTimeStore, maxAge: Option<real>, now: real) {
    maxAge.None? || now - e.timestamp <= maxAge.value
  }

  /** A new, empty store on which no store has succeeded. */
  function NewKeyValueStore(): (s: KeyValueStore)
    ensures Valid(s)
    ensures Keys(s) == {}
    ensures forall key, maxAge, now :: GetValue(s, key, maxAge, now) == None
  {
    KeyValueStore(map[], false)
  }

  /** Looks `key` up, optionally refusing entries older than `maxAge`
      seconds at clock reading `now`. Nothing is removed. */
  function GetValue(s: KeyValueStore, key: string, maxAge: Option<real>, now: real): (r: Option<string>)
    ensures !s.hasBeenSet ==> r == None
    ensures r.Some? ==> key in s.dict && r.value == s.dict[key].value
    ensures s.hasBeenSet && key in s.dict && WithinAge(s.dict[key], maxAge, now) ==> r.Some?
  {
    if s.hasBeenSet then
      if maxAge.None? then
        if key in s.dict then Some(s.dict[key].value) else None
      else
        if key in s.dict then
          var candidate := s.dict[key];
          if now - candidate.timestamp <= maxAge.value then Some(s.dict[key].value) else None
        else None
    else None
  }

  /** Stores `value` under `key` stamped with `now`, unless either is absent. */
  function StoreValue(s: KeyValueStore, key: Option<string>, value: Option<string>, now: real): (r: StoreResult)
    ensures key.None? || value.None? ==> r.status == STORE_INVALID_PARAMETERS && r.store == s
    ensures key.Some? && value.Some? ==>
      && r.status == STORE_OK
      && r.store.hasBeenSet
      && r.store.dict.Keys == s.dict.Keys + {key.value}
      && r.store.dict[key.value] == ValTimeStore(value.value, now)
      && (forall k :: k in s.dict && k != key.value ==> r.store.dict[k] == s.dict[k])
    ensures Valid(s) ==> Valid(r.store)
  {
    if key.Some? && value.Some? then
      var dict := s.dict[key.value := ValTimeStore(value.value, now)];
      StoreResult(STORE_OK, KeyValueStore(dict, true))
    else
      StoreResult(STORE_INVALID_PARAMETERS, s)
  }

  /** Every key present, aged-out entries included. */
  function Keys(s: KeyValueStore): (r: set<string>)
    ensures Valid(s) ==> forall key, now :: key in r <==> GetValue(s, key, None, now).Some?
    ensures Valid(s) ==> (r == {} <==> !s.hasBeenSet)
  {
    s.dict.Keys
  }

  /** On a valid store the flag never matters: a lookup succeeds exactly when
      the key is present and its entry is within the age bound. */
  lemma GetValueSpec(s: KeyValueStore, key: string, maxAge: Option<real>, now: real)
    requires Valid(s)
    ensures GetValue(s, key, maxAge, now).Some?
            <==> key in s.dict && WithinAge(s.dict[key], maxAge, now)
  {
  }

  /** A larger age bound never loses a value a smaller one returned, and
      leaving the bound out returns it too. */
  lemma GetValueMonotone(s: KeyValueStore, key: string, m1: real, m2: real, now: real)
    requires m1 <= m2
    requires GetValue(s, key, Some(m1), now).Some?
    ensures GetValue(s, key, Some(m2), now) == GetValue(s, key, Some(m1), now)
    ensures GetValue(s, key, None, now) == GetValue(s, key, Some(m1), now)
  {
  }

  /** An entry refused for its age was not removed: without a bound, or with
      a bound of its actual age, it is still returned. */
  lemma ExpiredStillRetrievable(s: KeyValueStore, key: string, maxAge: real, now: real)
    requires Valid(s) && key in s.dict
    requires GetValue(s, key, Some(maxAge), now) == None
    ensures GetValue(s, key, None, now) == Some(s.dict[key].value)
    ensures GetValue(s, key, Some(now - s.dict[key].timestamp), now) == Some(s.dict[key].value)
    ensures key in Keys(s)
  {
  }

  /** A successful store is visible to every later lookup whose bound covers
      the time since the store. */
  lemma ReadAfterWrite(s: KeyValueStore, key: string, value: string, storedAt: real, maxAge: Option<real>, now: real)
    requires maxAge.None? || now - storedAt <= maxAge.value
    ensures GetValue(StoreValue(s, Some(key), Some(value), storedAt).store, key, maxAge, now) == Some(value)
  {
  }

  /** Overwriting replaces the entry wholesale, so its age starts again from
      zero: a bound of 0 at the moment of the second store returns the new value. */
  lemma OverwriteResetsAge(s: KeyValueStore, key: string, v1: string, t1: real, v2: string, t2: real)
    ensures var s1 := StoreValue(s, Some(key), Some(v1), t1).store;
            var s2 := StoreValue(s1, Some(key), Some(v2), t2).store;
            GetValue(s2, key, Some(0.0), t2) == Some(v2)
  {
  }

  /** A store under one key leaves lookups of every other key as they were. */
  lemma StoreLeavesOtherKeys(s: KeyValueStore, key: string, value: string, storedAt: real,
                             other: string, maxAge: Option<real>, now: real)
    requires Valid(s)
    requires other != key
    ensures GetValue(StoreValue(s, Some(key), Some(value), storedAt).store, other, maxAge, now)
            == GetValue(s, other, maxAge, now)
  {
  }

  /** Storing "a" and then "b" in a new store lists exactly those two keys,
      whatever the clock readings `t1` and `t2`. */
  lemma KeysAfterTwoStores(t1: real, t2: real)
    ensures var s1 := StoreValue(NewKeyValueStore(), Some("a"), Some("1"), t1).store;
            var s2 := StoreValue(s1, Some("b"), Some("2"), t2).store;
            Keys(s2) == {"a", "b"}
  {
  }

  /** A store with a missing key or value leaves every lookup as it was. */
  lemma InvalidStoreChangesNothing(s: KeyValueStore, key: Option<string>, value: Option<string>,
                                   storedAt: real, k: string, maxAge: Option<real>, now: real)
    requires key.None? || value.None?
    ensures StoreValue(s, key, value, storedAt).status == STORE_INVALID_PARAMETERS
    ensures GetValue(StoreValue(s, key, value, storedAt).store, k, maxAge, now) == GetValue(s, k, maxAge, now)
  {
  }

  // ---------------------------------------------------------------------------
  // Sequences of calls on one store
  // ---------------------------------------------------------------------------

  /** One call on a store instance, with the clock reading it would take. */
  datatype Call =
    | Store(key: Option<string>, value: Option<string>, at: real)
    | Get(getKey: string, maxAge: Option<real>, getAt: real)
    | ListKeys

  /** The store after one call; lookups and key listings leave it as it is. */
  function Apply(s: KeyValueStore, c: Call): KeyValueStore {
    match c
    case Store(key, value, at) => StoreValue(s, key, value, at).store
    case Get(_, _, _) => s
    case ListKeys => s
  }

  /** The store after a sequence of calls, oldest first. */
  function Run(s: KeyValueStore, calls: seq<Call>): KeyValueStore
    decreases |calls|
  {
    if |calls| == 0 then s else Apply(Run(s, calls[..|calls| - 1]), calls[|calls| - 1])
  }

  /** The store calls of a sequence, in order. */
  function Writes(calls: seq<Call>): (w: seq<Call>)
    ensures forall i :: 0 <= i < |w| ==> w[i].Store?
    decreases |calls|
  {
    if |calls| == 0 then []
    else
      var last := calls[|calls| - 1];
      Writes(calls[..|calls| - 1]) + (if last.Store? then [last] else [])
  }

  /** The entry the latest successful store of `key` in `calls` created, if any. */
  function LastWrite(calls: seq<Call>, key: string): Option<ValTimeStore>
    decreases |calls|
  {
    if |calls| == 0 then None
    else
      var last := calls[|calls| - 1];
      if last.Store? && last.key == Some(key) && last.value.Some? then
        Some(ValTimeStore(last.value.value, last.at))
      else
        LastWrite(calls[..|calls| - 1], key)
  }

  /** Every call keeps the flag in step with the dictionary, so every store
      reachable from a new one is valid. */
  lemma {:induction false} RunPreservesValid(s: KeyValueStore, calls: seq<Call>)
    requires Valid(s)
    ensures Valid(Run(s, calls))
    decreases |calls|
  {
    if |calls| > 0 {
      RunPreservesValid(s, calls[..|calls| - 1]);
    }
  }

  /** Lookups and key listings never change the store: running only the
      store calls ends in the same state. */
  lemma {:induction false} ReadsDoNotModify(s: KeyValueStore, calls: seq<Call>)
    ensures Run(s, calls) == Run(s, Writes(calls))
    decreases |calls|
  {
    if |calls| > 0 {
      var init := calls[..|calls| - 1];
      var last := calls[|calls| - 1];
      ReadsDoNotModify(s, init);
      var w := Writes(init);
      if last.Store? {
        assert Writes(calls) == w + [last];
        assert (w + [last])[..|w|] == w;
      } else {
        assert Writes(calls) == w;
      }
    }
  }

  /** Nothing ever deletes: every key present before a run is present after it. */
  lemma {:induction false} RunNeverDeletes(s: KeyValueStore, calls: seq<Call>)
    ensures Keys(s) <= Keys(Run(s, calls))
    decreases |calls|
  {
    if |calls| > 0 {
      RunNeverDeletes(s, calls[..|calls| - 1]);
    }
  }

  /** Starting from a new store, a key is present exactly when some store of
      it succeeded, and its entry is the one the latest such store created:
      value and timestamp both refreshed. */
  lemma {:induction false} RunLastWriteWins(calls: seq<Call>, key: string)
    ensures key in Run(NewKeyValueStore(), calls).dict <==> LastWrite(calls, key).Some?
    ensures key in Run(NewKeyValueStore(), calls).dict ==>
              Run(NewKeyValueStore(), calls).dict[key] == LastWrite(calls, key).value
    decreases |calls|
  {
    if |calls| > 0 {
      RunLastWriteWins(calls[..|calls| - 1], key);
    }
  }

  /** Without an age bound, a lookup after a run from a new store returns the
      value of the latest successful store of that key. */
  lemma RunGetValue(calls: seq<Call>, key: string, now: real)
    ensures var r := GetValue(Run(NewKeyValueStore(), calls), key, None, now);
            && (r.Some? <==> LastWrite(calls, key).Some?)
            && (r.Some? ==> r.value == LastWrite(calls, key).value.value)
  {
    RunPreservesValid(NewKeyValueStore(), calls);
    RunLastWriteWins(calls, key);
  }
}
