# trane-transcription `create_course`, modelled in Dafny

The `transcription-cli` tool scaffolds new transcription courses for the Trane
spaced-repetition library. The one piece of logic it owns is `create_course`.
That function takes a course id typed by the user and does the following:

- it checks that a `courses` directory exists in the working directory;
- it turns the id into a directory path under that root, and refuses a path
  that already exists;
- it turns the id into the canonical course id `trane::transcription::…`;
- it builds a course manifest whose generator is an empty transcription
  configuration.

The model has three modules:

- `RustStr` (`rust_str.dfy`) gives the Rust `str` operations the function is
  built from. These are `starts_with`, `trim_start_matches`, `split` and
  `join`, plus `replace` as an independent reference definition. It proves
  their properties: split followed by join is lossless, split then join with
  another separator equals `replace`, no piece contains the separator, and
  the piece count is the match count plus one.
- `CourseId` (`course_id.dfy`) holds the identifier normaliser.
  `CanonicalId` gives the canonical id. `RelativePath` gives the directory.
  The lemmas cover prefixed and unprefixed ids and prove idempotence.
- `Scaffold` (`scaffold.dfy`) holds the manifest datatypes and
  `CreateCourse`, the guard sequence as a function of the observed file
  system.

The model follows the code as written:

- The manifest built at `src/main.rs:42-52` sets only `id` and
  `generator_config`. Every other field, authors and metadata included,
  keeps the builder's default and is not modelled.
- No directory is created, and the manifest file write is commented out
  (`src/main.rs:56-57`). A successful call therefore leaves the file system as
  it was, and a second call with the same id succeeds again.
  `ExistingDirectoryRefused` shows the refusal once the directory does exist.
- `std::env::current_dir()?` (`src/main.rs:17`) can fail before the root check.
  This is modelled as the first error, `WorkingDirectoryUnavailable`.
- `root.join(path).exists()` (`src/main.rs:27-32`) asks the operating system,
  which treats different spellings of one path as the same entry. The model
  therefore compares paths by their components: pieces between `/`, with
  empty pieces and `.` dropped. An id whose path is empty names the root
  itself, `courses/`. The model takes the root to be a directory, so such an
  id is refused once the root check passes. `a::` (path `a/`) is refused once
  `a` exists.
- `CreateCourse` returns the built manifest on success. The source returns
  `Ok(())` after serialising the manifest and dropping it. Returning the
  manifest lets its id and configuration be stated.

## Model

| member | source | states |
|---|---|---|
| `RustStr.StartsWith` | src/main.rs:21 | `starts_with` holds exactly when the pattern is no longer than the string and equals its first characters |
| `RustStr.TrimStartMatches` | src/main.rs:23 | the result is a suffix of the input; what was removed is a run of whole copies of the pattern; the result no longer starts with a non-empty pattern (every leading repetition goes, not just one) |
| `RustStr.Split` | src/main.rs:24-25 | `split` always yields at least one piece, and the first piece is a prefix of the input. Its full meaning is stated by four lemmas. `JoinSplitIsReplace` fixes where each split falls: at the left-to-right, non-overlapping matches. `JoinSplit`, `SplitCount` and `SplitPiecesFree` add losslessness, the piece count and separator-free pieces |
| `RustStr.Join` | src/main.rs:26 | `join` of no parts is empty and otherwise starts with the first part; it undoes `split` (`JoinSplit`) and, with another separator, equals `replace` (`JoinSplitIsReplace`) |
| `RustStr.JoinSplit` | src/main.rs:24-26 | joining the pieces of `split(sep)` with `sep` gives back the input, so split loses nothing |
| `RustStr.SplitPiecesFree` | src/main.rs:24-25 | no piece produced by `split(sep)` contains `sep` |
| `RustStr.SplitCount` | src/main.rs:29 | `split` yields exactly one more piece than there are left-to-right, non-overlapping separator matches, so `""` gives one piece and `"a::"` gives two |
| `RustStr.JoinSplitIsReplace` | src/main.rs:29 | splitting on `from` and joining with `to` equals replacing every non-overlapping match of `from` by `to` |
| `RustStr.ReplaceLength` | src/main.rs:29 | each replaced match changes the length by `|to| - |from|` |
| `CourseId.CanonicalId` | src/main.rs:37-41 | the canonical id always starts with `trane::transcription::` and ends with the raw id; it equals the raw id exactly when the raw id already has the prefix, and is otherwise the prefix's length longer (so it is the prefix followed by the id) |
| `CourseId.Unprefixed` | src/main.rs:21-23 | what remains of the id is a suffix of it that does not start with the prefix; a prefixed id loses a run of whole copies of the prefix, at least one; an unprefixed id is kept whole |
| `CourseId.Segments` | src/main.rs:24-25 | the directory names are the `::`-separated parts of the remainder: one more than the `::` matches, none containing `::`; rejoined with `::` they give the remainder back, and rejoined with `/` they give the remainder with every left-to-right `::` match replaced by `/` |
| `CourseId.RelativePath` | src/main.rs:21-31 | the course directory is the remainder with every `::` replaced by `/`; it is one character shorter per match and contains no `::` |
| `CourseId.ReplaceLeavesNoSep` | src/main.rs:29 | replacing every `::` by `/` leaves no `::` anywhere in the result |
| `CourseId.UnprefixedPath` | src/main.rs:28-30 | for an id without the prefix: the path is the id with each `::` replaced by `/`; there is one segment more than `::` matches; the path is one character shorter per match; it contains no `::` |
| `CourseId.PrefixedPath` | src/main.rs:21-27 | for an id with the prefix: at least one whole copy of the prefix is stripped, and every leading copy is stripped; the rest does not start with the prefix; the path is the rest with `::` replaced by `/` |
| `CourseId.DoublePrefixStripped` | src/main.rs:21-26 | `trane::transcription::trane::transcription::x` maps to the path `x` |
| `CourseId.PathIgnoresBranch` | src/main.rs:21-31 | the path is split/join of `trim_start_matches` applied to any id, because trimming an unprefixed id is a no-op; the branch on the prefix does not change the path |
| `CourseId.NormaliseIdempotent` | src/main.rs:21-41 | normalising the canonical id again gives the same canonical id and the same directory as the raw id |
| `Scaffold.NewManifest` | src/main.rs:42-50 | the manifest carries the given id and a `Transcription` generator with no dependencies, `passage_directory == ""`, no inlined passages and both skip flags false |
| `Scaffold.Components` | src/main.rs:27-32 | a path is resolved to the components the operating system looks up: none of them is empty or `.` |
| `Scaffold.Proper` | src/main.rs:27-32 | dropping unnamed pieces keeps only pieces that are neither empty nor `.`; it keeps every piece when all of them are named and none when none is; with `ProperAppend` this means the named pieces are kept, in order, on every list |
| `Scaffold.ProperKeepsNamedInOrder` | src/main.rs:27-32 | an empty piece between two named ones is dropped and the named ones stay in order, a consequence of the contracts of `Proper` and `ProperAppend` |
| `Scaffold.DoubledSepSameEntry` | src/main.rs:27-32 | the id `a::::b` gives the path `a//b`, whose components are `a` and `b`: the empty piece in the middle is dropped and the named ones are kept in order |
| `Scaffold.SplitJoinPath` | src/main.rs:27-32 | pieces free of `/` are recovered by splitting their `/`-join |
| `Scaffold.ComponentsOfJoin` | src/main.rs:27-32 | names that are not empty, not `.` and free of `/` are exactly the components of the path they spell when joined with `/`, so `Components` loses nothing real |
| `Scaffold.CreateCourse` | src/main.rs:15-58 | an unavailable working directory fails first; otherwise a missing root fails, whatever the id and the existing entries; "already exists" (carrying the path) happens exactly when the root exists and the path, compared by components, names the root or an existing entry; then build and serialisation failures; on success the manifest id is the canonical id, maps back to the same directory, and the generator is `Transcription` with no dependencies, `passage_directory == ""`, no inlined passages and both skip flags false |
| `Scaffold.CanonicalInputSameOutcome` | src/main.rs:21-41 | calling with the canonical id instead of the raw id gives the same outcome, errors included |
| `Scaffold.ExistingDirectoryRefused` | src/main.rs:32-34 | once the target directory exists under an existing root, the call fails with "already exists" for that path, whatever the build and serialisation would do |
| `Scaffold.TrailingSepSameEntry` | src/main.rs:30-32 | a path with a trailing `/` names the same entry as the path without it |
| `Scaffold.EmptyPathRefused` | src/main.rs:27-34 | an id whose path is empty names the root, `courses/`; with the root taken to be a directory, that entry exists once the root check passed, so the call fails with "already exists" |
| `Scaffold.BareIdsMapToRoot` | src/main.rs:21-31 | the empty id and the bare prefix `trane::transcription::` both map to the empty path |
| `Scaffold.TrailingNamespaceSepRefused` | src/main.rs:29-34 | the id `a::` maps to `a/`, which is the directory `a`, so the call is refused when `a` exists |

## Left out

- Command-line parsing and dispatch (`TranscriptionCLI`, `Subcommands`, `execute`, `main`, `src/main.rs:67-107`): argument plumbing generated by clap.
- `verify_courses` and its test (`src/main.rs:62-65`, `114-119`): they only construct the external Trane library from the working directory, which is a foreign call.
- File-system queries (`current_dir`, `Path::exists`, `PathBuf::join`) are inputs. `FileSystem` records whether the working directory is available, whether the root exists, and the entries under the root, each as its list of path components.
- `Components` drops empty pieces and `.` but does not resolve `..` or symbolic links. A path with `..` is compared as written.
- `Components` does not model the `join` rule that an absolute path replaces the root. An id starting with `::` gives a path starting with `/`, which the source looks up outside `courses/`; the model looks it up under the root.
- `Exists` does not distinguish files from directories. A trailing `/` after a regular file makes the real lookup fail, but the model still finds the entry. This covers the root too: when `courses` is a regular file, `root.exists()` holds but `courses/` does not exist, so the source goes on to build the manifest where the model refuses the empty path as an existing course.
- Error messages are error kinds. The displayed absolute paths are not modelled; `CourseAlreadyExists` carries the relative path.
- `CourseManifestBuilder::build` and `serde_json::to_string_pretty` (`src/main.rs:51-55`) are library code. Their outcomes are the boolean inputs `buildSucceeds` and `serializeSucceeds`. The manifest fields the function leaves to the builder's defaults are not modelled, and neither is the JSON text.
- `Passage` and `ExternalLink` are stand-ins for the element type of `inlined_passages` and the link it may carry. The function builds none of them (its passage list is always empty), so their fields are not modelled.
- `Ustr` interning is not modelled; ids are plain strings.
- `RustStr.Split` and `RustStr.Replace` are modelled only for a non-empty pattern, which is all the function uses (`"::"`). Rust's behaviour for an empty pattern is not modelled.
