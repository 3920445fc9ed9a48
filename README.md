# ruby-jemalloc image scripts, modelled in Dafny

The repository holds Dockerfiles for Ruby images built against jemalloc, plus
two scripts:

- `inject_jemalloc.rb` patches every Dockerfile in the tree. It makes the
  `apt-get install -y --no-install-recommends` line also install
  `libjemalloc-dev`. It makes every `./configure` call also pass
  `--with-jemalloc`. It then writes each file back with `IO#puts`.
- `build.rb` walks the Dockerfiles under the `2.3` and `2.4` directories.
  It skips the `onbuild` and `alpine` variants. For every other file it
  reads the Ruby version from the `ENV RUBY_VERSION` line and derives a
  variant name from the path. It then runs `docker build` and `docker push`
  for `callumj/ruby-jemalloc:<version>-<variant>` in the Dockerfile's
  directory.

The model is split into these modules:

- `Text` (text.dfy) holds the string operations both scripts rely on:
  - `String#index`, as `IndexFrom`;
  - `gsub` with a literal pattern, as `ReplaceAll`: a left-to-right,
    non-overlapping replace-all;
  - the matched positions of that scan, as `Scan`;
  - insertion after a needle, as `InsertAfter`, with its inverse `Strip`;
  - the set of positions holding a needle, as `Occurrences`.
- `VersionTag` (version_tag.dfy) is a hand-written matcher for
  `/ENV\s+RUBY_VERSION\s+(.+)/`. It is proved to report what a backtracking
  engine reports: the leftmost match, with the greedy `\s+` and the longest
  capture.
- `Build` (build.dfy) computes the commands the script issues, in order,
  each with the directory it runs in. A file without a version tag makes
  Ruby raise on `nil[1]`. That is modelled as a `Plan` whose `crash` names
  the file. Commands issued before the crash stand.
  - `RunVersion` and `Run` are the two nested loops, proved against the
    functions `VersionPlan` and `BuildPlan`.
- `Passes` (passes.dfy) shows that two insertion passes in a row do not
  interfere: each needle is matched as often as it occurred. This holds
  when neither needle can begin inside the other, the second needle cannot
  begin inside the first needle with its insertion, and that longer text
  cannot begin inside the second needle, with or without its insertion.
  `Inject.NeedlesDoNotInterfere` proves these conditions for the script's
  needles.
- `Inject` (inject.dfy) models the file system as a map from path to
  contents.
  - `Patch` is the script's loop, proved against `PatchAll`.
- `WorkedCases` (worked_cases.dfy) holds concrete derivations: variant
  segments, version lines, and one full build of a `slim` Dockerfile.

Behaviour worth knowing, where the code is the authority:

- The variant segment starts at the first occurrence of the version text
  anywhere in the path, the root directory included. A checkout under
  `.../2.4-builds/` therefore gets the segment `2.4-builds-slim`. See
  `WorkedCases.SegmentWhenRootHoldsVersion`.
- Every `/Dockerfile` and every `<version>/` is removed, not only a suffix
  and a prefix.
- The extracted version is not trimmed. A `\r` before the newline, or
  trailing blanks, stay in the tag.
- A kept Dockerfile without the version line ends the whole run. It is not
  skipped and reported.
- The push is issued whatever the build's outcome.
- The rewrite is not idempotent: a second run inserts the additions again.

## Model

| member | source | states |
|---|---|---|
| Text.ReplaceAll | build.rb:29 | defines `gsub` with a literal pattern: a left-to-right, non-overlapping replace-all; its properties are the `Text.Replace*` rows below |
| Text.Count | inject_jemalloc.rb:6-7 | defines the number of replacements `gsub` makes; `Text.ScanMatches`, `Text.CountPositive` and `Text.CountIsOccurrences` state what it counts |
| Text.Scan | inject_jemalloc.rb:6-7 | defines the positions `gsub` matches, in scan order; `Text.ScanMatches` states their properties |
| Text.InsertAfter | inject_jemalloc.rb:6-7 | defines `gsub(needle, needle + addition)`, the shape of both substitutions; `Text.InsertAtScanned`, `Text.InsertLength` and `Text.StripInsert` state its effect |
| Text.Strip | inject_jemalloc.rb:6-7 | defines the deletion of the addition after each `needle + addition`, the inverse that `Text.StripInsert` proves |
| Text.IndexFrom | build.rb:29 | `String#index`: the result is an occurrence at or after the start, with none before it; None means there is no occurrence at all |
| Text.ContainsIff | build.rb:24 | a substring match succeeds exactly when some position holds the pattern |
| Text.ReplaceAbsent | inject_jemalloc.rb:6-7 | gsub of a pattern that does not occur returns the text unchanged, with zero matches |
| Text.ReplaceAtFirst | build.rb:29 | gsub replaces the leftmost occurrence, keeps the text before it, and continues right after it |
| Text.ReplaceLength | build.rb:29 | gsub changes the length by the number of matches times the difference in length between the replacement and the pattern |
| Text.ReplaceKeepsOccurrence | inject_jemalloc.rb:6-7 | an occurrence of another needle survives a gsub when neither needle can start inside the other |
| Text.ReplaceCharRemoves | build.rb:29 | `gsub(/\//, "-")` leaves no '/' in the result |
| Text.ScanMatches | inject_jemalloc.rb:6 | the positions gsub matches each hold the pattern, do not overlap, run left to right, and there are `Count` of them |
| Text.InsertAtScanned | inject_jemalloc.rb:6-7 | after the insertion, the j-th matched needle sits j insertions further on and is followed by the inserted text |
| Text.EveryOccurrenceScanned | inject_jemalloc.rb:6-7 | for a needle that cannot overlap itself, gsub's scan meets every occurrence |
| Text.EveryOccurrenceFollowed | inject_jemalloc.rb:6-7 | for such a needle, every occurrence in the input is followed by the insertion in the output |
| Text.StripInsert | inject_jemalloc.rb:6-7 | deleting the inserted text after each needle recovers the input |
| Text.InsertLength | inject_jemalloc.rb:6-7 | insertion adds the insertion's length once per match |
| Text.InsertAtFirst | inject_jemalloc.rb:6-7 | the first needle occurrence is followed by the insertion, and the text before it is unchanged |
| Text.InsertGrows | inject_jemalloc.rb:6-7 | an insertion pass never shortens the text, strictly lengthens it when the needle occurs, and returns it unchanged when it does not |
| Text.CountPositive | inject_jemalloc.rb:6-7 | gsub matches at least once exactly when the text contains the needle |
| Text.CountIsOccurrences | inject_jemalloc.rb:6-7 | for a needle that cannot overlap itself, the number of gsub matches is the number of positions holding the needle |
| Text.InsertNotIdempotent | inject_jemalloc.rb:6-7 | a second insertion pass over text holding the needle makes it strictly longer |
| VersionTag.MatchAt | build.rb:2 | the pattern anchored at one start: a reported capture starts after `ENV`, the `\s+`, `RUBY_VERSION` and the second `\s+`, is non-empty and ends inside the text; `VersionTag.MatchAtIsPreferredParse` states which parse it is |
| VersionTag.ExtractVersion | build.rb:27-28 | defines `TAG_TO_FIND.match(contents)[1]`, None standing for nil; `VersionTag.ExtractVersionIsLeftmostParse` and `VersionTag.VersionShape` state what it returns |
| VersionTag.SpaceEnd | build.rb:2 | greedy `\s+`: every character up to the end is Ruby whitespace, and the one at the end is not |
| VersionTag.LineEnd | build.rb:2 | greedy `.+`: the run stops at the first newline or at the end of the text |
| VersionTag.MatchAtIsPreferredParse | build.rb:2 | at a given start, the matcher reports a parse exactly when one exists, and it is the one with the longest `\s+`, then the longest capture |
| VersionTag.MatchAtParses | build.rb:2 | a span the matcher reports is a parse of the pattern, and the capture ends at a newline or at the end of the text |
| VersionTag.FirstMatch | build.rb:27 | `Regexp#match` takes the leftmost start position where the pattern matches; None means no start matches |
| VersionTag.ExtractVersionIsLeftmostParse | build.rb:27-28 | `tag[1]` is nil exactly when no parse exists; otherwise it is the capture of the leftmost, then greediest, parse |
| VersionTag.VersionShape | build.rb:28 | the extracted version is non-empty, holds no newline, and runs to the end of its line |
| VersionTag.LineVersion | build.rb:2 | a text starting with `ENV RUBY_VERSION ` and then a version that starts with no whitespace and runs to the end of its line yields exactly that version |
| Build.Excluded | build.rb:24 | defines the `next if` filter: the path contains `onbuild` or `alpine`; `Build.ExcludedAnywhere` and `Build.KeptWithoutMarkers` state both directions |
| Build.ExcludedAnywhere | build.rb:24 | `onbuild` or `alpine` anywhere in the path, the root included, excludes the file |
| Build.KeptWithoutMarkers | build.rb:24 | a path holding neither marker is kept |
| Build.VariantSegment | build.rb:29 | the variant segment holds no '/' |
| Build.FileSuffixRemoved | build.rb:29 | the first gsub removes the trailing `/Dockerfile` of a path whose directories hold no other |
| Build.SegmentOfLayout | build.rb:29 | for `<root>/<v>/<sub>/Dockerfile`, where the first `<v>` is the version directory, `<sub>` holds no `<v>/`, and `<v>/<sub>` holds no `/Dockerfile` (not even across its middle '/'), the segment is `<sub>` with each '/' turned into '-' |
| Build.SegmentOfVersionLayout | build.rb:29 | for `<root>/<v>/Dockerfile`, where the first `<v>` is the version directory and `<v>` holds no `/Dockerfile`, the segment is `<v>` with each '/' turned into '-' |
| Build.ImageName | build.rb:30-31 | defines `"#{NAME}:#{full_version}-#{base}"`; `Build.ImageNameSplits` states how it splits back |
| Build.WorkDir | build.rb:32 | defines `File.dirname` on a normalised path; `Build.WorkDirOfDockerfile` states its value for a Dockerfile |
| Build.FileStep | build.rb:24-34 | defines what one globbed file contributes: nothing, two commands, or a crash; `Build.FileStepShape` states when each happens |
| Build.VersionPlan | build.rb:23-35 | defines the inner loop's effect as the sequence of the files' steps; the `Build.VersionPlan*` and `Build.CrashIsFirstUntagged` rows state it |
| Build.BuildPlan | build.rb:21-37 | defines the whole run as the sequence of the versions' plans; `Build.VersionsInOrder` and `Build.Run` state it |
| Build.ImageNameSplits | build.rb:30-31 | the image reference is `callumj/ruby-jemalloc`, a ':', then `<full version>-<segment>`, and the first ':' is the separator |
| Build.WorkDirOfDockerfile | build.rb:32 | the directory of `<dir>/Dockerfile` is `<dir>` |
| Build.SequenceAppend | build.rb:21-23 | running steps `a + b` is running `a` and then, unless it raised, `b` |
| Build.SequenceComplete | build.rb:21-23 | a run completes exactly when no step raises, and then it issues every step's commands in order |
| Build.SequenceCrash | build.rb:27-28 | a run that raises stops at the first raising step, after the commands of all earlier steps |
| Build.VersionPlanAppend | build.rb:23 | files are handled in the order the glob returned them |
| Build.ExcludedContributesNothing | build.rb:24 | an excluded Dockerfile adds no command, wherever it sits in the list |
| Build.KeptFileBuildsThenPushes | build.rb:32-34 | a kept, tagged Dockerfile yields exactly `docker build -t IMG .` and then `docker push IMG`, both in its directory, with the same IMG |
| Build.MissingVersionStopsRun | build.rb:27-28 | a kept Dockerfile without the version line ends the run: earlier commands stand, later files are never handled |
| Build.FileStepShape | build.rb:24-34 | one file's step raises exactly when it is kept and untagged; otherwise it issues two commands if kept and none if excluded |
| Build.VersionPlanComplete | build.rb:23-35 | a version's run completes exactly when every kept file is tagged, and then it issues two commands per kept file |
| Build.CrashIsFirstUntagged | build.rb:27-28 | a run that raises does so on the first kept untagged file, after two commands for each kept file before it |
| Build.VersionsInOrder | build.rb:1 | all of version 2.3's commands come before version 2.4's |
| Build.RunVersion | build.rb:23-35 | the inner loop appends exactly the version's plan to the commands already issued, and stops on a missing tag |
| Build.Run | build.rb:21-37 | the outer loop's commands and crash are exactly the build plan over the configured versions |
| WorkedCases.SegmentOfVariantDir | build.rb:29 | `<root>/2.4/slim/Dockerfile` gives the segment `slim`, as an instance of `Build.SegmentOfLayout` |
| WorkedCases.SegmentOfNestedDirs | build.rb:29 | `<root>/2.4/a/b/Dockerfile` gives `a-b`, as an instance of `Build.SegmentOfLayout` |
| WorkedCases.SegmentOfVersionDir | build.rb:29 | `<root>/2.4/Dockerfile` gives `2.4`, as an instance of `Build.SegmentOfVersionLayout` |
| WorkedCases.SegmentWhenRootHoldsVersion | build.rb:29 | `<root>/2.4-builds/2.4/slim/Dockerfile` gives `2.4-builds-slim`, because the first index of the version is used |
| WorkedCases.VersionFromLine | build.rb:2 | `ENV RUBY_VERSION 2.4.1` followed by a newline gives `2.4.1` |
| WorkedCases.VersionKeepsCarriageReturn | build.rb:2 | a CRLF line gives `2.4.1` followed by the `\r` |
| WorkedCases.VersionFromTrailingBlanks | build.rb:2 | `ENV RUBY_VERSION` followed by two blanks at the end of the text gives one blank: `\s+` gives one back so that `.+` can match |
| WorkedCases.SlimImage | build.rb:24-34 | `<root>/2.4/slim/Dockerfile` declaring 2.4.1 is built and pushed as `callumj/ruby-jemalloc:2.4.1-slim` from `<root>/2.4/slim` |
| Inject.AfterApt | inject_jemalloc.rb:6 | defines the text after the first `gsub!` only |
| Inject.Rewrite | inject_jemalloc.rb:6-7 | defines both `gsub!` calls, in the script's order, the second applied to the output of the first; its properties are the `Inject.Rewrite*` rows below |
| Inject.Written | inject_jemalloc.rb:10 | defines what ends up in the file: `puts` of the rewritten text; `Inject.WrittenWithoutNeedles` and `Inject.PatchAllEffect` state it |
| Inject.Puts | inject_jemalloc.rb:10 | `IO#puts` writes the text plus a newline unless it already ends with one; the result always ends with a newline |
| Inject.PutsIdempotent | inject_jemalloc.rb:10 | writing what puts produced, again with puts, changes nothing |
| Inject.RewriteUnchangedIff | inject_jemalloc.rb:6-7 | the two substitutions leave a text unchanged exactly when it holds neither needle |
| Inject.RewriteRecovers | inject_jemalloc.rb:6-7 | deleting ` --with-jemalloc` after each `./configure`, then ` libjemalloc-dev` after each apt-get needle, recovers the input |
| Inject.RewriteLength | inject_jemalloc.rb:6-7 | the output is longer by each addition's length times the number of positions of the input that hold its needle |
| Inject.RewriteMarksEveryNeedle | inject_jemalloc.rb:6-7 | the first substitution keeps the number of `./configure` matches, and the output holds each `needle + addition` exactly as often as the input held the needle |
| Inject.NeedlesDoNotInterfere | inject_jemalloc.rb:6-7 | neither needle can begin inside the other; `./configure` cannot begin inside the apt-get needle with its addition; and that longer text cannot begin inside `./configure`, with or without ` --with-jemalloc` |
| Passes.InsertKeepsCount | inject_jemalloc.rb:6-7 | a pass inserting after `p` keeps the number of `q` matches when neither can begin inside the other and `q` cannot begin inside `p + ins` |
| Passes.InsertCountsAdded | inject_jemalloc.rb:6-7 | after a pass inserting after `p`, `p + ins` is matched exactly as often as `p` was |
| Passes.TwoPassesCount | inject_jemalloc.rb:6-7 | two non-interfering passes: the first keeps every match of the second needle, and the output holds each `needle + addition` as often as the input held the needle |
| Inject.ConfigureNoSelfOverlap | inject_jemalloc.rb:7 | two occurrences of `./configure` cannot overlap |
| Inject.AptNoSelfOverlap | inject_jemalloc.rb:6 | two occurrences of the apt-get needle cannot overlap |
| Inject.EveryOccurrenceGainsAddition | inject_jemalloc.rb:6-7 | every occurrence of the apt-get needle in the input is followed by ` libjemalloc-dev` after the first `gsub!`, and every `./configure` in the text the second `gsub!` receives is followed by ` --with-jemalloc` after it |
| Inject.RewriteKeepsNeedles | inject_jemalloc.rb:6-7 | the output still holds each needle the input held, now followed by its addition |
| Inject.RewriteNotIdempotent | inject_jemalloc.rb:6-7 | rewriting a text that holds either needle a second time changes it again |
| Inject.WrittenWithoutNeedles | inject_jemalloc.rb:10 | a Dockerfile without either needle is still written back, and at most gains a final newline |
| Inject.PatchAll | inject_jemalloc.rb:4-10 | the script creates and deletes no file |
| Inject.PatchAllEffect | inject_jemalloc.rb:2-10 | each found file holds `puts` of its rewritten old contents, whether or not anything matched; every other file is untouched |
| Inject.Patch | inject_jemalloc.rb:4-11 | the loop leaves the files exactly as `PatchAll` describes |

## Left out

- `run_command` (build.rb:7-18) is not modelled: it is process I/O through `Open3.popen3`. The model records each command line and the directory it runs in, and assumes every `run_command` returns. The source does not guarantee that. `popen3` yields the child's stdin, stdout, stderr and wait thread, but build.rb:8 names them `stdout, stderr, status, thread`. So the thread of build.rb:9-13 calls `gets` on the child's stdin, raises `IOError` and ends. The loop of build.rb:14-16 drains the child's stdout. The child's stderr is never read. A `docker build` that writes more than a pipe buffer to stderr then blocks for good, and the push is never issued.
- The exit status of `docker build` and `docker push` is not modelled. The source never reads it, so the push follows the build unconditionally.
- `Dir.glob`, `File.read`, `File.expand_path` and the write in `File.open` are inputs and outputs. The glob result is a list of paths, or of path and contents pairs, in whatever order the glob returned. Its files exist, have distinct paths, and contain the version directory in their path.
- Build.Globbed: the requirement that a globbed path contains the version stands for the glob pattern `<root>/<version>/**/Dockerfile`. `path.index(version)` returning nil therefore does not arise.
- Build.WorkDir: models `File.dirname` for normalised paths only (no trailing slashes, no repeated slashes), which is what the glob yields.
- `Dir.chdir` is modelled as the directory paired with each command, not as a change of process state.
- General Ruby regular expressions are not modelled. The five fixed patterns are: the version pattern, by a hand-written matcher; `/(onbuild|alpine)/`, as two literal substring searches; and `/\//`, `/apt-get install -y --no-install-recommends/` and `/\.\/configure/`, as literal needles of a replace-all.
- Text encoding is not modelled: the model's strings are sequences of characters, as if every file held valid text. `File.read` tags the bytes with the default external encoding (US-ASCII under a C locale) without checking them. `Regexp#match` and `gsub!` then raise `ArgumentError` on an invalid byte sequence, which would abort build.rb:24 and build.rb:27 and inject_jemalloc.rb:6-7.
- Inject: the file system is a map from path to contents, so two globbed paths cannot name one file. A Dockerfile reached through a symbolic link as well as directly is patched twice by the script. The model patches it once.
- An exception raised inside `Dir.chdir` or by a file operation is not modelled. Only the `nil[1]` crash on a missing version line is.
- Inject.EveryOccurrenceGainsAddition: states the positional property per pass: the `./configure` positions are those of the text after the first substitution, not of the input. For the whole rewrite, `Inject.RewriteMarksEveryNeedle` proves it by counts: each `needle + addition` is matched in the output as often as the needle occurs in the input.
- Text.EveryOccurrenceFollowed: is stated for needles that cannot overlap themselves, which both needles satisfy. For other needles, gsub skips occurrences that overlap an earlier match, and `Text.InsertAtScanned` covers exactly the matched ones.
- Remedies the script does not implement are not modelled: idempotent patching, skipping the push after a failed build, and reporting a missing version instead of crashing.
