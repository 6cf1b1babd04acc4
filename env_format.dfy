/**
 The text that `/usr/bin/env -0` prints and how `load_shell_environment` reads it back.

 The output is a sequence of `NAME=value` entries, each terminated by a NUL character.
 The parser splits the text with Rust's `str::split_terminator('\0')`, cuts every piece at
 its first `=` with `str::find('=')`, skips pieces that hold no `=`, and inserts each pair
 into a `HashMap`, so a later entry for the same name overwrites an earlier one.
 This module gives that reading as functions and proves what it promises.
 */
module EnvFormat {
  import opened Wrappers

  /** The terminator `env -0` writes after every entry. */
  const NUL: char := '\0'

  /** The separator between a variable's name and its value. */
  const EQ: char := '='

  /** Every name maps to a value: the abstract content of the parsed `HashMap`. */
  type Env = map<string, string>

  // ---------------------------------------------------------------------------
  // Character search and splitting (Rust's `str::find` and `str::split_terminator`)
  // ---------------------------------------------------------------------------

  /** The index of the first occurrence of `c` in `s`, as `str::find` returns it. */
  function Find(s: string, c: char): (r: Option<nat>)
    ensures r.None? <==> c !in s
    ensures r.Some? ==> r.value < |s| && s[r.value] == c && c !in s[..r.value]
    decreases |s|
  {
    if s == [] then None
    else if s[0] == c then Some(0)
    else match Find(s[1..], c)
      case None => None
      case Some(i) =>
        assert s[..i + 1] == [s[0]] + s[1..][..i];
        Some(i + 1)
  }

  /** `Find` returns the first occurrence and no other. */
  lemma FindFirst(s: string, c: char, i: nat)
    requires i < |s| && s[i] == c && c !in s[..i]
    ensures Find(s, c) == Some(i)
  {
  }

  /** The pieces between NUL characters, as `str::split('\0')` yields them. */
  function Split(s: string): (pieces: seq<string>)
    ensures |pieces| >= 1
    decreases |s|
  {
    match Find(s, NUL)
    case None => [s]
    case Some(k) => [s[..k]] + Split(s[k + 1..])
  }

  /** `str::split_terminator('\0')`: `Split`, except that an empty final piece is dropped.
      Only the empty text yields no piece at all. */
  function SplitTerminator(s: string): (pieces: seq<string>)
    ensures pieces == [] <==> s == []
  {
    var all := Split(s);
    assert s == [] ==> all == [[]];
    assert s != [] && Find(s, NUL).None? ==> all == [s];
    DropEmptyLast(all)
  }

  /** `pieces` without its final piece when that piece is empty. */
  function DropEmptyLast(pieces: seq<string>): seq<string>
    requires |pieces| >= 1
  {
    if pieces[|pieces| - 1] == [] then pieces[..|pieces| - 1] else pieces
  }

  /** Dropping an empty last piece does not touch the pieces before it. */
  lemma DropEmptyLastCons(first: string, rest: seq<string>)
    requires |rest| >= 1
    ensures DropEmptyLast([first] + rest) == [first] + DropEmptyLast(rest)
  {
    var all := [first] + rest;
    assert all[|all| - 1] == rest[|rest| - 1];
    if rest[|rest| - 1] == [] {
      assert all[..|all| - 1] == [first] + rest[..|rest| - 1];
    }
  }

  /** No piece contains the NUL it was split at. */
  lemma {:induction false} SplitNulFree(s: string)
    ensures forall p | p in Split(s) :: NUL !in p
    decreases |s|
  {
    match Find(s, NUL)
    case None =>
    case Some(k) =>
      SplitNulFree(s[k + 1..]);
  }

  /** No piece yielded by `split_terminator` contains a NUL. */
  lemma SplitTerminatorNulFree(s: string)
    ensures forall p | p in SplitTerminator(s) :: NUL !in p
  {
    SplitNulFree(s);
    var all := Split(s);
    assert forall p | p in DropEmptyLast(all) :: p in all;
  }

  /** The pieces of `Split` joined back with NUL separators. */
  function Joined(pieces: seq<string>): string
    requires |pieces| >= 1
    decreases |pieces|
  {
    if |pieces| == 1 then pieces[0] else pieces[0] + [NUL] + Joined(pieces[1..])
  }

  /** Splitting loses nothing: joining the pieces with NUL gives the text back. */
  lemma {:induction false} SplitJoined(s: string)
    ensures Joined(Split(s)) == s
    decreases |s|
  {
    match Find(s, NUL)
    case None =>
    case Some(k) =>
      var rest := Split(s[k + 1..]);
      assert Split(s) == [s[..k]] + rest;
      assert ([s[..k]] + rest)[1..] == rest;
      assert Joined(Split(s)) == s[..k] + [NUL] + Joined(rest);
      SplitJoined(s[k + 1..]);
      assert s == s[..k] + [NUL] + s[k + 1..];
  }

  /** Splitting at a NUL splits the two sides independently. */
  lemma {:induction false} SplitAppend(a: string, b: string)
    ensures Split(a + [NUL] + b) == Split(a) + Split(b)
    decreases |a|
  {
    var s := a + [NUL] + b;
    match Find(a, NUL)
    case None =>
      assert s[..|a|] == a;
      FindFirst(s, NUL, |a|);
      assert s[|a| + 1..] == b;
      assert Split(s) == [a] + Split(b);
    case Some(k) =>
      assert s[..k] == a[..k];
      FindFirst(s, NUL, k);
      var tail := a[k + 1..];
      assert s[k + 1..] == tail + [NUL] + b;
      assert Split(s) == [a[..k]] + Split(tail + [NUL] + b);
      SplitAppend(tail, b);
  }

  /** The `split_terminator` iterator on non-empty text without NUL yields that text alone. */
  lemma SplitTerminatorLast(t: string)
    requires t != [] && NUL !in t
    ensures SplitTerminator(t) == [t]
  {
    assert Split(t) == [t];
  }

  /** The `split_terminator` iterator yields the text up to the first NUL, then continues
      after that NUL. */
  lemma SplitTerminatorAtNul(t: string, k: nat)
    requires k < |t| && t[k] == NUL && NUL !in t[..k]
    ensures SplitTerminator(t) == [t[..k]] + SplitTerminator(t[k + 1..])
  {
    FindFirst(t, NUL, k);
    var rest := Split(t[k + 1..]);
    assert Split(t) == [t[..k]] + rest;
    DropEmptyLastCons(t[..k], rest);
  }

  /** One step of the `split_terminator` iterator over `s` from index `start`, after it has
      yielded the pieces `done`: the piece `line` it yields and the index `next` it continues
      from. */
  lemma NextPiece(s: string, start: nat, done: seq<string>, line: string, next: nat)
    requires start < |s|
    requires match Find(s[start..], NUL)
      case None => line == s[start..] && next == |s|
      case Some(k) => line == s[start..][..k] && next == start + k + 1
    ensures next <= |s|
    ensures SplitTerminator(s[start..]) == [line] + SplitTerminator(s[next..])
    ensures done + SplitTerminator(s[start..]) == (done + [line]) + SplitTerminator(s[next..])
  {
    var rest := s[start..];
    match Find(rest, NUL)
    case None =>
      SplitTerminatorLast(rest);
      SplitTerminatorEmpty();
      assert s[next..] == [];
    case Some(k) =>
      SplitTerminatorAtNul(rest, k);
      assert rest[k + 1..] == s[next..];
  }

  /** A NUL after the last entry yields no further piece, and the empty text yields none. */
  lemma SplitTerminatorEmpty()
    ensures SplitTerminator([]) == []
  {
    assert Split([]) == [[]];
  }

  // ---------------------------------------------------------------------------
  // One entry: cutting at the first `=`
  // ---------------------------------------------------------------------------

  /** The `(key, value)` pair of one piece: the key is the text before the first `=`, the
      value everything after it; a piece without `=` has none. */
  function ParseEntry(line: string): (r: Option<(string, string)>)
    ensures r.None? <==> EQ !in line
    ensures r.Some? ==> EQ !in r.value.0 && line == r.value.0 + [EQ] + r.value.1
  {
    match Find(line, EQ)
    case None => None
    case Some(i) =>
      assert line == line[..i] + [EQ] + line[i + 1..];
      Some((line[..i], line[i + 1..]))
  }

  /** The line `env` prints for one variable (before its NUL terminator). */
  function EntryLine(key: string, value: string): string
  {
    key + [EQ] + value
  }

  /** Cutting at the first `=` undoes `EntryLine` whenever the key holds no `=`; the value
      may hold any number of `=` and may be empty. */
  lemma ParseEntryLine(key: string, value: string)
    requires EQ !in key
    ensures ParseEntry(EntryLine(key, value)) == Some((key, value))
  {
    var line := EntryLine(key, value);
    assert line[..|key|] == key;
    FindFirst(line, EQ, |key|);
    assert line[|key| + 1..] == value;
  }

  /** The line defines the variable `key`. */
  predicate DefinesKey(line: string, key: string)
  {
    ParseEntry(line).Some? && ParseEntry(line).value.0 == key
  }

  // ---------------------------------------------------------------------------
  // The map built by the loop
  // ---------------------------------------------------------------------------

  /** One iteration of the loop body: insert the piece's pair, or skip a piece without `=`.
      A piece without `=` leaves the map as it is; otherwise the piece's key is added, bound
      to the value that completes the piece, and every other name keeps its value. */
  function Insert(env: Env, line: string): (r: Env)
    ensures EQ !in line ==> r == env
    ensures forall key | DefinesKey(line, key) :: key in r && EntryLine(key, r[key]) == line
    ensures forall key | key in env && !DefinesKey(line, key) :: key in r && r[key] == env[key]
    ensures forall key | key in r :: key in env || DefinesKey(line, key)
  {
    var entry := ParseEntry(line);
    if entry.None? then env else env[entry.value.0 := entry.value.1]
  }

  /** The map after the loop has run over `lines` in order, starting from an empty map.
      Every name in it is the text before the first `=` of some piece, so none contains `=`. */
  function Build(lines: seq<string>): (env: Env)
    ensures forall key | key in env :: EQ !in key
    decreases |lines|
  {
    if lines == [] then map[]
    else Insert(Build(lines[..|lines| - 1]), lines[|lines| - 1])
  }

  /** Running the loop over one more piece is one more `Insert`. */
  lemma BuildSnoc(lines: seq<string>, line: string)
    ensures Build(lines + [line]) == Insert(Build(lines), line)
  {
    assert (lines + [line])[..|lines|] == lines;
  }

  /** What `load_shell_environment` returns for the decoded standard output `stdout`: no name
      in it contains `=` or NUL, and no value contains NUL. */
  function ParsedEnv(stdout: string): (env: Env)
    ensures WellFormedEnv(env)
  {
    var lines := SplitTerminator(stdout);
    SplitTerminatorNulFree(stdout);
    BuildWellFormed(lines);
    Build(lines)
  }

  /** A name is in the map only if some piece defines it. */
  lemma {:induction false} BuildKeyDefined(lines: seq<string>, key: string) returns (j: nat)
    requires key in Build(lines)
    ensures j < |lines| && DefinesKey(lines[j], key)
    decreases |lines|
  {
    var n := |lines|;
    var init := lines[..n - 1];
    if DefinesKey(lines[n - 1], key) {
      j := n - 1;
    } else {
      assert key in Build(init);
      j := BuildKeyDefined(init, key);
      assert init[j] == lines[j];
    }
  }

  /** Every name some piece defines is in the map. */
  lemma {:induction false} BuildKeyPresent(lines: seq<string>, j: nat, key: string)
    requires j < |lines| && DefinesKey(lines[j], key)
    ensures key in Build(lines)
    decreases |lines|
  {
    var n := |lines|;
    if j < n - 1 {
      var init := lines[..n - 1];
      assert init[j] == lines[j];
      BuildKeyPresent(init, j, key);
    }
  }

  /** The map's names are exactly the names the pieces containing `=` define. */
  lemma BuildDomain(lines: seq<string>, key: string)
    ensures key in Build(lines) <==> exists j :: 0 <= j < |lines| && DefinesKey(lines[j], key)
  {
    if key in Build(lines) {
      var j := BuildKeyDefined(lines, key);
    }
    if exists j :: 0 <= j < |lines| && DefinesKey(lines[j], key) {
      var j :| 0 <= j < |lines| && DefinesKey(lines[j], key);
      BuildKeyPresent(lines, j, key);
    }
  }

  /** The value of a name is the one from the last piece that defines it. */
  lemma {:induction false} LastEntryWins(lines: seq<string>, j: nat, key: string, value: string)
    requires j < |lines| && ParseEntry(lines[j]) == Some((key, value))
    requires forall i :: j < i < |lines| ==> !DefinesKey(lines[i], key)
    ensures key in Build(lines) && Build(lines)[key] == value
    decreases |lines|
  {
    var n := |lines|;
    if j < n - 1 {
      var init := lines[..n - 1];
      assert init[j] == lines[j];
      forall i | j < i < |init| ensures !DefinesKey(init[i], key) {
        assert init[i] == lines[i];
      }
      LastEntryWins(init, j, key, value);
    }
  }

  /** A piece without `=` changes nothing wherever it stands, so empty pieces add nothing. */
  lemma {:induction false} SkippedLineIgnored(before: seq<string>, line: string, after: seq<string>)
    requires EQ !in line
    ensures Build(before + [line] + after) == Build(before + after)
    decreases |after|
  {
    if after == [] {
      assert before + [line] + after == before + [line];
      assert before + after == before;
      BuildSnoc(before, line);
    } else {
      var n := |after|;
      var init := after[..n - 1];
      var last := after[n - 1];
      var withLine, without := before + [line] + init, before + init;
      SkippedLineIgnored(before, line, init);
      assert Build(before + [line] + after) == Insert(Build(withLine), last) by {
        assert before + [line] + after == withLine + [last];
        BuildSnoc(withLine, last);
      }
      assert Build(before + after) == Insert(Build(without), last) by {
        assert before + after == without + [last];
        BuildSnoc(without, last);
      }
    }
  }

  /** What holds of every map the parser returns: no name contains `=` or NUL, and no value
      contains NUL. */
  predicate WellFormedEnv(env: Env)
  {
    forall key | key in env :: EQ !in key && NUL !in key && NUL !in env[key]
  }

  /** The loop keeps the map well formed as long as the pieces hold no NUL. */
  lemma {:induction false} BuildWellFormed(lines: seq<string>)
    requires forall p | p in lines :: NUL !in p
    ensures WellFormedEnv(Build(lines))
    decreases |lines|
  {
    if lines != [] {
      var n := |lines|;
      var init := lines[..n - 1];
      var line := lines[n - 1];
      assert forall p | p in init :: p in lines;
      BuildWellFormed(init);
      assert NUL !in line by { assert line in lines; }
      var env := Build(lines);
      assert env == Insert(Build(init), line);
      forall key | key in env ensures EQ !in key && NUL !in key && NUL !in env[key] {
        if DefinesKey(line, key) {
          var value := env[key];
          assert line == key + [EQ] + value;
          assert forall c | c in key :: c in line;
          assert forall c | c in value :: c in line;
        }
      }
    }
  }

  /** A trailing NUL after the last entry does not change the result. */
  lemma TrailingNulIgnored(stdout: string)
    ensures ParsedEnv(stdout + [NUL]) == ParsedEnv(stdout)
  {
    var all := Split(stdout);
    SplitTerminatorTrailingNul(stdout);
    if all[|all| - 1] == [] {
      var init := all[..|all| - 1];
      assert all == init + [[]];
      BuildSnoc(init, []);
    }
  }

  /** The NUL terminating the last entry yields no extra piece. */
  lemma SplitTerminatorTrailingNul(s: string)
    ensures SplitTerminator(s + [NUL]) == Split(s)
  {
    var all := Split(s);
    SplitAppend(s, []);
    assert s + [NUL] + [] == s + [NUL];
    assert Split([]) == [[]];
    assert (all + [[]])[..|all|] == all;
  }

  // ---------------------------------------------------------------------------
  // Serialisation: the `key=value\0` format `env -0` writes
  // ---------------------------------------------------------------------------

  /** Every line followed by a NUL terminator. */
  function Terminated(lines: seq<string>): string
    decreases |lines|
  {
    if lines == [] then []
    else Terminated(lines[..|lines| - 1]) + lines[|lines| - 1] + [NUL]
  }

  /** Splitting terminated text followed by an unterminated tail gives back the lines and the tail. */
  lemma {:induction false} SplitTerminatedTail(lines: seq<string>, tail: string)
    requires forall p | p in lines :: NUL !in p
    requires NUL !in tail
    ensures Split(Terminated(lines) + tail) == lines + [tail]
    decreases |lines|
  {
    if lines == [] {
      assert Terminated(lines) + tail == tail;
    } else {
      var n := |lines|;
      var init := lines[..n - 1];
      var last := lines[n - 1];
      assert last in lines;
      assert forall p | p in init :: p in lines;
      SplitTerminatedTail(init, last);
      SplitAppend(Terminated(init) + last, tail);
      assert Terminated(lines) + tail == (Terminated(init) + last) + [NUL] + tail;
      assert init + [last] == lines;
    }
  }

  /** `split_terminator` inverts `Terminated`: NUL-terminated lines are read back exactly. */
  lemma SplitTerminatorTerminated(lines: seq<string>)
    requires forall p | p in lines :: NUL !in p
    ensures SplitTerminator(Terminated(lines)) == lines
  {
    SplitTerminatedTail(lines, []);
    assert Terminated(lines) + [] == Terminated(lines);
    assert (lines + [[]])[..|lines|] == lines;
  }

  /** The output of `env -0` for the variables `entries`, printed in that order. */
  function Serialize(entries: seq<(string, string)>): string
  {
    Terminated(EntryLines(entries))
  }

  /** The `key=value` line of every entry, in order. */
  function EntryLines(entries: seq<(string, string)>): seq<string>
  {
    seq(|entries|, i requires 0 <= i < |entries| => EntryLine(entries[i].0, entries[i].1))
  }

  /** The map of `entries` where a later entry for a name overrides an earlier one. */
  function EntriesMap(entries: seq<(string, string)>): Env
    decreases |entries|
  {
    if entries == [] then map[]
    else
      var last := entries[|entries| - 1];
      EntriesMap(entries[..|entries| - 1])[last.0 := last.1]
  }

  /** Entries `env` can print and the parser can read: names without `=` or NUL, values
      without NUL. */
  predicate WellFormedEntries(entries: seq<(string, string)>)
  {
    forall i | 0 <= i < |entries| :: EQ !in entries[i].0 && NUL !in entries[i].0 && NUL !in entries[i].1
  }

  /** The loop over `key=value` lines builds the map of the entries. */
  lemma {:induction false} BuildEntryLines(entries: seq<(string, string)>)
    requires forall i | 0 <= i < |entries| :: EQ !in entries[i].0
    ensures Build(EntryLines(entries)) == EntriesMap(entries)
    decreases |entries|
  {
    if entries != [] {
      var n := |entries|;
      var init := entries[..n - 1];
      assert EntryLines(entries)[..n - 1] == EntryLines(init);
      BuildEntryLines(init);
      ParseEntryLine(entries[n - 1].0, entries[n - 1].1);
    }
  }

  /** Parsing the `env -0` output of a list of variables yields their map, the last
      assignment of a repeated name winning. */
  lemma RoundTrip(entries: seq<(string, string)>)
    requires WellFormedEntries(entries)
    ensures ParsedEnv(Serialize(entries)) == EntriesMap(entries)
  {
    var lines := EntryLines(entries);
    forall p | p in lines ensures NUL !in p {
      var i :| 0 <= i < |lines| && lines[i] == p;
      assert p == entries[i].0 + [EQ] + entries[i].1;
    }
    SplitTerminatorTerminated(lines);
    BuildEntryLines(entries);
  }

  /** Removing a present name makes the map smaller. */
  lemma RemoveShrinks(env: Env, key: string)
    requires key in env
    ensures |env - {key}| < |env|
  {
    assert (env - {key}).Keys == env.Keys - {key};
  }

  /** The variables of `env` in some order: one entry per name of the map. */
  ghost function EntriesOf(env: Env): (entries: seq<(string, string)>)
    ensures EntriesMap(entries) == env
    ensures forall i | 0 <= i < |entries| :: entries[i].0 in env && entries[i].1 == env[entries[i].0]
    decreases |env|
  {
    if env == map[] then []
    else
      var key :| key in env;
      var rest := env - {key};
      RemoveShrinks(env, key);
      var entries := EntriesOf(rest) + [(key, env[key])];
      assert entries[..|entries| - 1] == EntriesOf(rest);
      assert rest[key := env[key]] == env;
      entries
  }

  /** Any map of variables that `env -0` can print is read back unchanged. */
  lemma MapRoundTrip(env: Env)
    requires WellFormedEnv(env)
    ensures ParsedEnv(Serialize(EntriesOf(env))) == env
  {
    RoundTrip(EntriesOf(env));
  }
}
