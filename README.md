# strange-subshell: reading the shell environment

`load_shell_environment` (`src/shell_env.rs`) runs the user's login shell interactively
with `cd <dir>; /usr/bin/env -0; exit 0;`, fails when the shell does not exit
successfully, and otherwise reads the shell's standard output into a `HashMap` of
environment variables. `env -0` prints every variable as `NAME=value` followed by a NUL
character. The function splits the decoded output with `split_terminator('\0')`, cuts
each piece at its first `=` (the key is the text before it, the value everything after
it), skips pieces that contain no `=`, and inserts each pair into the map, so a later
entry for a name overwrites an earlier one.

This project models that parser and its exit-status check, and proves what the parser
promises:

- `wrappers.dfy`: `Option` and `Result`.
- `env_format.dfy` (module `EnvFormat`): the pure reading of the format. `Find` is
  `str::find`; `Split` and `SplitTerminator` are `str::split('\0')` and
  `str::split_terminator('\0')`; `ParseEntry` cuts a piece at its first `=`; `Insert` is
  one iteration of the loop body and `Build` the map after the loop has run over a list
  of pieces; `ParsedEnv(stdout)` is the map the function returns. `Terminated` and
  `Serialize` write the `NAME=value\0` format back, and the round-trip lemmas connect
  the two directions.
- `shell_env.dfy` (module `ShellEnv`): the parse loop as an imperative method that walks
  the output piece by piece, as the iterator does, and updates a map-valued local.
  Its loop invariant ties the pieces consumed so far to `SplitTerminator` and the map
  to `Build`. `LoadShellEnvironment` adds the exit-status check. The process exit status
  is an input (`ExitStatus`, with `Success()` true only for a normal exit with code 0),
  and so is the already decoded standard output.

## Model

| member | source | states |
|---|---|---|
| `EnvFormat.Find` | src/shell_env.rs:23 | `line.find('=')`: `None` exactly when the character does not occur; otherwise the index of an occurrence with no earlier occurrence (the first one) |
| `EnvFormat.SplitNulFree` | src/shell_env.rs:22 | no piece produced by splitting at NUL contains a NUL |
| `EnvFormat.SplitJoined` | src/shell_env.rs:22 | splitting at NUL loses nothing: joining the pieces with NUL separators gives back the text |
| `EnvFormat.SplitAppend` | src/shell_env.rs:22 | splitting `a + NUL + b` yields the pieces of `a` followed by the pieces of `b` |
| `EnvFormat.SplitTerminator` | src/shell_env.rs:22 | `split_terminator('\0')`: `Split` without an empty final piece; it yields no piece exactly when the output is empty |
| `EnvFormat.SplitTerminatorEmpty` | src/shell_env.rs:22 | empty output yields no piece at all |
| `EnvFormat.SplitTerminatorLast` | src/shell_env.rs:22 | non-empty text without NUL is a single piece |
| `EnvFormat.SplitTerminatorAtNul` | src/shell_env.rs:22 | the iterator yields the text before the first NUL, then continues right after that NUL |
| `EnvFormat.NextPiece` | src/shell_env.rs:22 | one step of the iterator from index `start`: the piece it yields and the index it resumes at, never past the end; the pieces yielded before it stay in front |
| `EnvFormat.SplitTerminatorTrailingNul` | src/shell_env.rs:22 | the NUL after the last entry yields no extra (empty) piece |
| `EnvFormat.SplitTerminatorNulFree` | src/shell_env.rs:22 | no piece yielded by `split_terminator('\0')` contains a NUL |
| `EnvFormat.ParseEntry` | src/shell_env.rs:23-25 | a piece has a pair exactly when it contains `=`; the key contains no `=` and key, `=`, value concatenate back to the piece, so the key is the text before the first `=` and the value all the rest |
| `EnvFormat.ParseEntryLine` | src/shell_env.rs:23-25 | cutting `key=value` at its first `=` gives back `key` and `value` whenever `key` has no `=`, whatever `=` characters the value holds and also when it is empty |
| `EnvFormat.Insert` | src/shell_env.rs:23-27 | one loop iteration: a piece without `=` leaves the map unchanged; otherwise the piece's key is bound to the value that completes `key=value` to the piece, every other name keeps its value, and no other name is added |
| `EnvFormat.Build` | src/shell_env.rs:21-28 | the loop as a fold of `Insert` from `map[]` over the pieces in order; no name in the result contains `=` |
| `EnvFormat.BuildSnoc` | src/shell_env.rs:22-28 | running the loop over one more piece is one more `Insert` of that piece into the map built so far |
| `EnvFormat.BuildKeyDefined` | src/shell_env.rs:21-28 | every name in the map is the key of some piece containing `=`; the lemma returns such a piece's index |
| `EnvFormat.BuildKeyPresent` | src/shell_env.rs:21-28 | every key of a piece containing `=` is in the map |
| `EnvFormat.BuildDomain` | src/shell_env.rs:21-28 | a name is in the map if and only if some piece defines it: the key set is exactly the keys of the pieces that contain `=` |
| `EnvFormat.LastEntryWins` | src/shell_env.rs:21-28 | when several pieces define the same name, the map holds the value of the last of them |
| `EnvFormat.SkippedLineIgnored` | src/shell_env.rs:23-27 | a piece without `=` (in particular an empty piece) leaves the map as if it were absent, wherever it stands |
| `EnvFormat.BuildWellFormed` | src/shell_env.rs:22-26 | from NUL-free pieces the loop builds a map whose keys contain neither `=` nor NUL and whose values contain no NUL |
| `EnvFormat.ParsedEnv` | src/shell_env.rs:21-29 | the returned map, `Build` over the pieces of `split_terminator('\0')`; no key contains `=` or NUL, and no value contains NUL |
| `EnvFormat.TrailingNulIgnored` | src/shell_env.rs:22 | appending one more NUL to the output does not change the returned map |
| `EnvFormat.SplitTerminatedTail` | src/shell_env.rs:22 | splitting NUL-terminated lines followed by an unterminated NUL-free tail yields the lines and then the tail |
| `EnvFormat.SplitTerminatorTerminated` | src/shell_env.rs:22 | `split_terminator('\0')` reads NUL-terminated, NUL-free lines back exactly |
| `EnvFormat.BuildEntryLines` | src/shell_env.rs:23-26 | running the loop over `key=value` lines builds the map of those entries, a later entry for a name overriding an earlier one |
| `EnvFormat.RoundTrip` | src/shell_env.rs:21-29 | parsing the `env -0` output of a list of entries (keys without `=` or NUL, values without NUL) yields the map of those entries, the last assignment of a repeated name winning |
| `EnvFormat.MapRoundTrip` | src/shell_env.rs:21-29 | every map whose keys contain neither `=` nor NUL and whose values contain no NUL is read back unchanged from its `env -0` output |
| `ShellEnv.ParseEnvironment` | src/shell_env.rs:21-28 | the loop over `split_terminator('\0')` with `find('=')` and `insert` returns exactly `ParsedEnv(stdout)`, a map with no `=` or NUL in its keys and no NUL in its values |
| `ShellEnv.ExitStatus.Success` | src/shell_env.rs:15 | `output.status.success()`: true exactly for a normal exit with code 0 (`Exited(0)`) |
| `ShellEnv.LoadShellEnvironment` | src/shell_env.rs:15-29 | an error carrying the exit status, and no map, exactly when the shell did not exit successfully; otherwise the parsed map of its output |

## Left out

- Reading `$SHELL` (src/shell_env.rs:7) and its error: an environment lookup; the model starts after the shell has run.
- Building the command string with Rust's `Debug` quoting of the directory path (src/shell_env.rs:9): string formatting of a path, not part of the parser.
- Spawning the shell and collecting its output, and the I/O errors `?` propagates from that (src/shell_env.rs:11-13): process I/O; the exit status and the output are inputs of `LoadShellEnvironment`.
- `String::from_utf8_lossy` (src/shell_env.rs:19): byte decoding; the model's input is the already decoded text as a sequence of characters.
- `EnvFormat.Find`: indices count characters, not the UTF-8 byte offsets Rust's `find` returns; slicing at the found index picks the same key and value either way.
- `HashMap` hashing and iteration order: the map is a Dafny `map`, where only the contents matter.
- All of `src/main.rs` (Ctrl-C handler, child spawning with a `setsid` pre-exec hook, `stty` diagnostics, the sleep loop): operating-system process, session and terminal behaviour with no functional result to state.
