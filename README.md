# ssh_supporter config store in Dafny

This is a model of the config store of `ssh_supporter` (src/config.rs). The
store keeps one record per SSH host in `~/.ssh/config`. A record holds:

- a host alias;
- five optional settings: `HostName`, `User`, `IdentityFile`, `ProxyCommand`
  and a password. The password is written as a `#pass` comment line.

The store has these operations:

- `SshConfig::to_config_string` writes one record as a block of lines.
- `write_ssh_config` joins the blocks with a blank line and replaces the file.
- `parse_ssh_config` reads the file back. It tries the `Host` pattern on every
  line. While a record is open, it tries the five setting patterns on each
  line that is not a header. Before the first header, other lines are
  skipped without trying them.
- `find_config_by_host` returns the first record whose host is exactly the one
  asked for.
- `add_ssh_config` appends a record and rewrites the file.
- `update_ssh_config` replaces the first record for a host and rewrites the
  file. It returns whether such a record existed.

The project has these modules:

- `Wrappers` holds `Option`.
- `Text` models Rust's `str::trim`, `trim_start`, `trim_end` and `str::lines`
  on `seq<char>`. Whitespace means Unicode `White_Space`. `Lines` follows
  `str::lines` of current Rust releases. A '\r' is dropped only when it
  directly precedes a '\n'. A bare '\r' at the end of an unterminated last
  line is kept, so `Lines("a\r")` is `["a\r"]`. Older releases also stripped
  that final '\r'.
- `Record` holds the record, the block a record is written as (`Serialize`),
  the file text for a list of records (`SerializeAll`), and the methods
  `ToConfigString` and `BuildContent`. These follow the `push_str` steps of
  the source.
- `Parser` holds:
  - the six regexes, hand-coded, with proofs against the regex language;
  - a classification of each line as header, setting or other;
  - the parse as a fold over the lines (`Parse`);
  - the loop of `parse_ssh_config` as the method `ParseLines`, proved equal
    to `Parse`;
  - lemmas on the shape of the parse.
- `RoundTrip` proves that reading what was written gives the records back when
  every host and present value is non-empty, trimmed and on one line. It also
  proves what happens to five kinds of host or value that are not: empty
  hosts, empty values, untrimmed hosts and values on one line, a host or
  value "\r", and a host holding a line break followed by `Host `.
- `Records` holds find by host on the record list (`Position`, `Find`), and
  lemmas about append and replace-first on it.
- `ConfigStore` holds the class `ConfigFile`. Its one field `content` is the
  text of `~/.ssh/config`, or `None` when the file does not exist. Its methods
  are the five file operations. `WriteSshConfig` replaces the whole field. The
  other four first read and parse the whole field. Add, and an update that
  finds the host, then write the whole field again. An update that does not
  find the host writes nothing.

Three facts about the code shape what is modelled:

- The regexes at src/config.rs:67-72 carry no case-insensitive flag. So
  `host web` is not a header and `  hostname x` is not a setting
  (`Parser.LowercaseHostIgnored`, `Parser.LowercaseIgnored`).
- `SshConfig` has no port field, so a `Port` line is ignored
  (`Parser.PortIgnored`).
- Every write regenerates the whole file from the records. Every comment,
  unknown line, indentation choice and line before the first `Host` is
  therefore lost on any add, and on any update that finds the host
  (`ConfigStore.ConfigFile.UpdateSshConfig`).

Five consequences of the line format matter when a record is written and read
back:

- A setting whose value is empty is written as `  HostName ` and read as no
  setting at all (`RoundTrip.EmptyValueDropped`).
- A record whose host is empty is written as `Host `, which is not a header
  (`RoundTrip.EmptyHostDropped`). What happens next depends on its place:
  - Written first, it is read as no record. Its lines are skipped like any
    lines before the first header (`RoundTrip.EmptyHostFirstLost`).
  - Written after a record, it adds no record either. Its settings
    overwrite those of the record before it, and the settings it lacks keep
    that record's values (`RoundTrip.EmptyHostMerges`).
- An untrimmed host or value with no line break and no final '\r' is read
  back trimmed. A value `" x"` is written as `  User  x` and read as `x`
  (`RoundTrip.UntrimmedHostReadsTrimmed`, `RoundTrip.UntrimmedValueReadsTrimmed`).
- A host or value that ends in '\r' loses that '\r' to `str::lines` before
  any pattern sees the line. Host `"\r"` is written as `Host \r` and read as
  `Host `, so the record is lost (`RoundTrip.FinalCRHostLost`). Value `"\r"`
  is read as no setting (`RoundTrip.FinalCRValueDropped`).
- A host holding a line break followed by `Host ` is written as two header
  lines. Host `"a\nHost b"` is written as `Host a\nHost b\n` and read as two
  records, `a` and `b` (`RoundTrip.NewlineHostSplits`).

Values read from a file are always trimmed and on one line
(`RoundTrip.ParseContentNormal`). So re-reading, rewriting and reading again
is stable unless some host or value read was empty (`RoundTrip.RewriteStable`).

## Model

| member | source | states |
|---|---|---|
| Record.New | src/config.rs:17-26 | the new record has the given host and every setting absent |
| Record.Set | src/config.rs:81-90 | assigning one setting gives it the value and leaves the host and the other four settings unchanged |
| Record.RecordExt | src/config.rs:6-14 | two records with the same host and the same five settings are equal |
| Record.FieldOrderComplete | src/config.rs:31-45 | every setting has a place in the order HostName, User, IdentityFile, ProxyCommand, `#pass`, which is both the order of the pushes at lines 31-45 and the order of the pattern chain at lines 81-91 |
| Record.KeywordsDistinct | src/config.rs:68-72 | no two setting keywords share a first character |
| Record.Keyword | src/config.rs:32-44 | the keyword literals `HostName`, `User`, `IdentityFile`, `ProxyCommand` and `#pass`, used both in the `format!` strings at lines 32-44 and in the regexes at lines 68-72; each is non-empty and starts with a non-whitespace character |
| Record.HeaderLine | src/config.rs:29 | the `format!("Host {}\n", ...)` line without its '\n': `Host`, a space, the host |
| Record.DirectiveLine | src/config.rs:32-44 | the `format!("  <Keyword> {}\n", ...)` line without its '\n': two spaces, the keyword, a space, the value |
| Record.Render | src/config.rs:29-47 | the text after the `push_str` steps for the given settings: the header, then the formatted line of each present setting, in order (`Record.RenderIsTerminated` and `Record.RenderSteps` relate it to `Serialize` and to the method) |
| Record.Serialize | src/config.rs:28-48 | defined as the `Host <host>` line and the present settings' lines, in order, each followed by '\n'; `Record.ToConfigString` is proved equal to it |
| Record.SerializeAll | src/config.rs:115-121 | defined as the blocks of the records in order, with one '\n' between neighbours and the empty text for no records; `Record.BuildContent` is proved equal to it |
| Record.RenderIsTerminated | src/config.rs:28-48 | the pushes of `to_config_string` build the `Host` line followed by one line per present setting, each ended by '\n' |
| Record.RenderSteps | src/config.rs:29-45 | the text after each of the five `if let` pushes is the text before it plus that setting's formatted line when it is present, and unchanged when absent |
| Record.ToConfigString | src/config.rs:28-48 | the result is the block: `Host <host>`, then `  <Keyword> <value>` for each present setting in the order HostName, User, IdentityFile, ProxyCommand, `#pass`, every line ended by '\n' |
| Record.SerializeAllSnoc | src/config.rs:116-121 | appending a record to the list adds one '\n' and its block to the text, and no '\n' when the list was empty |
| Record.BuildContent | src/config.rs:115-121 | the loop builds the blocks of all records in order, with a '\n' before every block but the first, and the empty text for no records |
| Parser.Capture | src/config.rs:67-72 | defined as: the text starts with the keyword, then a whitespace character, then at least one more character; the value is the rest after the keyword, trimmed (`Parser.MatcherSound` and `Parser.MatcherComplete` relate it to the regex) |
| Parser.HeaderHost | src/config.rs:67-79 | `host_re`: `Capture` of the line itself with keyword `Host`, so column 0 and case-sensitive, and the capture trimmed |
| Parser.KeywordValue | src/config.rs:68-90 | the five setting regexes: `Capture` with the setting's keyword after the line's leading whitespace, and the capture trimmed |
| Parser.DirectiveOf | src/config.rs:81-91 | the `else if` chain: the first setting whose pattern matches, tried in the order HostName, User, IdentityFile, ProxyCommand, `#pass`, with its trimmed capture (`Parser.DirectiveOfUnrolled` states the chain) |
| Parser.FirstSetting | src/config.rs:81-91 | a result names one of the patterns tried, and that pattern matches the line with the capture as its value |
| Parser.DirectiveOfUnrolled | src/config.rs:81-91 | the settings are tried in the order HostName, User, IdentityFile, ProxyCommand, `#pass`, and the first that matches wins |
| Parser.KeywordsExclusive | src/config.rs:68-72 | no line matches two different setting patterns |
| Parser.FirstSettingFinds | src/config.rs:81-91 | when a pattern in the list matches, the ordered search finds a setting |
| Parser.DirectiveOfMatches | src/config.rs:81-91 | a line sets a field exactly when that field's pattern matches it, and the value is that pattern's trimmed capture |
| Parser.DirectiveOfNone | src/config.rs:80-92 | a line sets nothing exactly when none of the five patterns matches it |
| Parser.Classify | src/config.rs:75-92 | defined as: a header when `host_re` matches, else the setting of `DirectiveOf`, else a line the loop ignores |
| Parser.Step | src/config.rs:75-92 | one iteration on the records so far, the last being the open one: a header appends a new record for its host; a setting line overwrites that field of the last record, and changes nothing while no record is open; any other line changes nothing |
| Parser.ParseKinds | src/config.rs:74-97 | defined as the `Step` of each line in turn, starting from no records |
| Parser.Parse | src/config.rs:74-97 | defined as `ParseKinds` of the lines' kinds; `Parser.ParseLines` is proved equal to it |
| Parser.ParseContent | src/config.rs:59-99 | defined as no records for a missing file, else the parse of `str::lines` of the content |
| Parser.ApplyKinds | src/config.rs:80-92 | defined as the effect of a block's lines, in order, on the open record: each setting line overwrites its field |
| Parser.ClassifyUnrolled | src/config.rs:75-92 | a line is a header when the `Host` pattern matches, else the first matching setting pattern decides, else it is ignored |
| Parser.ClassifyAssigns | src/config.rs:80-92 | a non-header line assigns field `f` exactly when `f`'s pattern matches it, with that capture |
| Parser.ParseKindsSnoc | src/config.rs:74-93 | the parse of one more line is one more step of the loop |
| Parser.KindsAppend | src/config.rs:74 | classifying two runs of lines one after the other is classifying their concatenation |
| Parser.ParseSnoc | src/config.rs:74-93 | parsing one more line applies that line's step to the records so far |
| Parser.ReadSetting | src/config.rs:80-91 | inside a block, the first matching setting pattern overwrites its field of the open record, and a line without a match leaves it alone |
| Parser.Feed | src/config.rs:75-92 | one loop iteration: a header pushes the open record, if any, and opens a new one with the trimmed capture as host; other lines go to the open record or are dropped when none is open |
| Parser.ParseLines | src/config.rs:64-99 | the loop, with the final push of the open record, returns exactly the parse of the lines |
| Parser.MatcherSound | src/config.rs:67-72 | however the regex splits a matching line between `\s+` and `(.+)`, the hand-coded matcher reports the trimmed capture |
| Parser.MatcherComplete | src/config.rs:67-72 | on a line without '\n', the hand-coded matcher reports a value only when the regex matches |
| Parser.NotHeaders | src/config.rs:67 | `host web`, `HOST web`, `  Host web`, `Host`, `Host ` and `HostName web` are not headers: the match is case-sensitive, anchored at column 0, and needs whitespace and a capture |
| Parser.KeywordStarts | src/config.rs:68-72 | every setting keyword starts with one of `H`, `U`, `I`, `P`, `#` |
| Parser.NoKeywordStart | src/config.rs:68-72 | a line whose first non-blank character starts no keyword sets nothing |
| Parser.IndentedHostIgnored | src/config.rs:67-91 | every line with leading whitespace, then `Host`, then a whitespace character is neither a header (`host_re` is anchored at column 0) nor a setting line |
| Parser.LowercaseIgnored | src/config.rs:68 | a lower-case `hostname` line sets nothing |
| Parser.LowercaseHostIgnored | src/config.rs:67-72 | a lower-case `host web` line is neither a header nor a setting line |
| Parser.CommentIgnored | src/config.rs:72 | a line whose first non-blank character is `#` sets nothing unless it is `#pass`, a whitespace character and at least one more character |
| Parser.BlankIgnored | src/config.rs:80-92 | an empty line sets nothing |
| Parser.MismatchAt | src/config.rs:68-72 | a line whose text differs from a keyword at some position does not match that keyword's pattern |
| Parser.PortIgnored | src/config.rs:68-72 | a `Port` line sets nothing: the store has no port setting |
| Parser.ParseIgnoresUnmatched | src/config.rs:80-92 | a line that matches no pattern leaves the parse as it is |
| Parser.StepHosts | src/config.rs:80-92 | a line that is not a header keeps the number of records and their hosts |
| Parser.KindHostsOfLines | src/config.rs:75-79 | the hosts of the header kinds are the trimmed captures of the header lines, in order |
| Parser.ParseKindsHosts | src/config.rs:74-97 | the parse yields one record per header, in order, named by that header |
| Parser.ParseHosts | src/config.rs:74-97 | the records are exactly one per header line, in file order, each with the trimmed capture of its header as host |
| Parser.NoHeaderLines | src/config.rs:75 | lines none of which matches the `Host` pattern classify to no header |
| Parser.NoHeaderNoRecord | src/config.rs:80 | lines without a header give no records |
| Parser.ParseKindsSkipsPreamble | src/config.rs:76-80 | lines before the first header are dropped |
| Parser.ParseSkipsPreamble | src/config.rs:74-80 | lines before the first header contribute nothing to the parse |
| Parser.ParseKindsBody | src/config.rs:80-92 | lines without a header all go to the open record, in order |
| Parser.ParseBlock | src/config.rs:74-97 | a header and the lines up to the next header add exactly one record: the header's host with the effect of those lines applied in order |
| Parser.ApplyKindsAppend | src/config.rs:80-92 | applying two runs of lines to a record is applying the first and then the second |
| Parser.ApplyKindsLast | src/config.rs:81-90 | one more line changes only the field it assigns |
| Parser.LastWins | src/config.rs:81-90 | within a block the last line that sets a field decides its value |
| Parser.FieldUntouched | src/config.rs:80-92 | a field that no line of the block sets stays as it was |
| Parser.HostUntouched | src/config.rs:80-92 | no line inside a block changes the block's host |
| Text.IsSpace | src/config.rs:67-90 | the `\s` class of the regexes and the whitespace `.trim()` removes: Unicode `White_Space`, listed character by character |
| Text.TrimStart | src/config.rs:68-72 | the leading `\s*` of the setting patterns: removes the whitespace at the front; the result is no longer than the input (`Text.TrimStartShape` characterizes it) |
| Text.TrimEnd | src/config.rs:79-90 | the trailing half of `trim`: removes the whitespace at the end; the result is no longer than the input (`Text.TrimEndShape` characterizes it) |
| Text.Trim | src/config.rs:79-90 | the `.trim()` applied to every capture: defined as `TrimEnd` after `TrimStart` (`Text.TrimShape` characterizes it) |
| Text.TrimStartShape | src/config.rs:68 | `trim_start` removes exactly the longest whitespace prefix |
| Text.TrimEndShape | src/config.rs:79 | `trim_end` removes exactly the longest whitespace suffix |
| Text.TrimShape | src/config.rs:79 | `trim` gives a trimmed middle slice with only whitespace removed on either side |
| Text.TrimStartSkip | src/config.rs:68 | whitespace before a string does not change its `trim_start` |
| Text.TrimStartAt | src/config.rs:68 | when `j` whitespace characters precede a non-space character, `trim_start` drops exactly those `j` |
| Text.TrimSkip | src/config.rs:79 | whitespace before a string does not change its `trim` |
| Text.TrimAfterSpace | src/config.rs:29 | a space followed by a non-empty trimmed value trims back to the value |
| Text.TrimFixed | src/config.rs:79 | trimming a trimmed string changes nothing |
| Text.TrimKeeps | src/config.rs:79 | `trim` adds no character that was not in the string |
| Text.NewlineIndex | src/config.rs:74 | the index of the first '\n', or the length when there is none |
| Text.StripCR | src/config.rs:74 | the '\r' of a "\r\n" terminator that `str::lines` drops: one final '\r' of a line cut at a '\n' |
| Text.Lines | src/config.rs:74 | `str::lines` yields lines without '\n' |
| Text.TerminatedAppend | src/config.rs:28-48 | the text of two runs of '\n'-ended lines is their concatenation |
| Text.TerminatedEndsWithNewline | src/config.rs:28-48 | a non-empty run of '\n'-ended lines ends with '\n' |
| Text.FirstLine | src/config.rs:74 | `str::lines` of a line, '\n' and more text starts with that line |
| Text.LinesOfTerminated | src/config.rs:74 | `str::lines` of '\n'-ended lines without '\n' or trailing '\r' gives those lines back |
| Text.NewlineIndexPrefix | src/config.rs:74 | the first '\n' of a text is found in a prefix that holds it |
| Text.LinesAppend | src/config.rs:74 | `str::lines` of a '\n'-ended text followed by more text splits at that point |
| Text.LinesAfterNewline | src/config.rs:74 | `str::lines` of "\n" and a text is an empty line and the text's lines |
| Text.LinesJoin | src/config.rs:115-121 | the '\n' `write_ssh_config` puts between two blocks reads back as one empty line |
| RoundTrip.HeaderLineReads | src/config.rs:29 | the header line written for any non-empty host, when the patterns see it as one whole line, is a header for that host trimmed; a host of only whitespace gives the empty host |
| RoundTrip.HeaderLineParses | src/config.rs:29 | the `Host` line of a clean host is read back as a header for exactly that host |
| RoundTrip.KeywordOneLine | src/config.rs:32-44 | no keyword contains '\n' |
| RoundTrip.SettingLineValue | src/config.rs:68-72 | a two-space-indented `keyword value` line with a non-empty value gives the value back, trimmed, through its pattern |
| RoundTrip.DirectiveLineReads | src/config.rs:32-44 | the line written for any non-empty value, when the patterns see it as one whole line, is no header and sets its field to the value trimmed |
| RoundTrip.DirectiveLineParses | src/config.rs:32-44 | the line written for a clean value is not a header, and is read as setting that field to that value |
| RoundTrip.DirectiveLineSafe | src/config.rs:32-44 | the line written for a clean value contains no '\n' and does not end in '\r', so `str::lines` gives it back |
| RoundTrip.EmptyValueDropped | src/config.rs:32-44 | the line written for an empty value is read as no setting at all |
| RoundTrip.EmptyHostDropped | src/config.rs:29 | the header written for an empty host is read as neither a header nor a setting |
| RoundTrip.DirectiveLinesSafe | src/config.rs:31-45 | no setting line of a clean record is a header or contains '\n' |
| RoundTrip.DirectiveLinesApply | src/config.rs:31-45 | reading the setting lines of a clean record into a record gives it exactly those settings |
| RoundTrip.BlockRebuilt | src/config.rs:28-48 | reading the setting lines of a clean record into a fresh record for its host rebuilds the record |
| RoundTrip.BlockLinesSafe | src/config.rs:28-48 | the lines of a clean record's block contain no '\n' and no trailing '\r' |
| RoundTrip.LinesOfBlock | src/config.rs:28-48 | `str::lines` of a clean record's block gives its lines back |
| RoundTrip.ParseAddsBlock | src/config.rs:74-97 | the lines of a clean block after any lines add exactly that record to the parse |
| RoundTrip.SerializeAllEnds | src/config.rs:115-121 | the text of a non-empty list of records ends with '\n' |
| RoundTrip.LinesOfJoin | src/config.rs:116-120 | the lines of the text with one more block are the old lines, an empty line and the block's lines |
| RoundTrip.LinesOfAll | src/config.rs:115-121 | `str::lines` of the written text is the blocks' lines with one empty line between neighbouring blocks |
| RoundTrip.ParseJoin | src/config.rs:74-97 | the empty separator line never changes the parse |
| Parser.ParseEmpty | src/config.rs:74-99 | no lines give no records |
| RoundTrip.ParseSingle | src/config.rs:74-99 | the lines of one clean block give back that one record |
| RoundTrip.ParseAll | src/config.rs:74-99 | parsing the lines written for clean records gives the records back |
| RoundTrip.WrittenReadsBack | src/config.rs:28-48 | `parse_ssh_config` after `write_ssh_config` of records with clean hosts and values returns the same records in the same order |
| RoundTrip.NoSettingsNoLines | src/config.rs:31-45 | a record with no settings gets no setting lines |
| RoundTrip.NewlineHostText | src/config.rs:29 | the block of a settingless record whose host is `h1`, '\n', `Host `, `h2` is the two header lines for `h1` and `h2`, each ended by '\n' |
| RoundTrip.ParseTwoHeaders | src/config.rs:74-97 | two clean header lines are read as two settingless records for those hosts |
| RoundTrip.NewlineHostSplits | src/config.rs:28-48 | a settingless record whose host holds '\n' and then `Host ` is written and read back as two records, one per host |
| RoundTrip.SettinglessText | src/config.rs:28-48 | a record with no settings is written as its `Host` line and '\n' |
| RoundTrip.OneSettingLines | src/config.rs:28-48 | a record with one setting is written as its `Host` line and that setting's line |
| RoundTrip.OneSettingSplits | src/config.rs:74 | `str::lines` of such a record's text, when its setting line has no line break and no final '\r', gives those two lines |
| RoundTrip.UntrimmedHostReadsTrimmed | src/config.rs:74-79 | a settingless record whose non-empty host has no line break and no final '\r' is written and read back with its host trimmed |
| RoundTrip.UntrimmedValueReadsTrimmed | src/config.rs:74-92 | a record with a clean host and one non-empty setting value with no line break and no final '\r' is written and read back with that value trimmed |
| RoundTrip.LinesFinalCR | src/config.rs:74 | `str::lines` drops the '\r' of a line ended by "\r\n" |
| RoundTrip.FinalCRHostLines | src/config.rs:74 | the text written for host "\r" is read as the one line `Host ` |
| RoundTrip.FinalCRHostLost | src/config.rs:74-79 | a settingless record with host "\r" is written and read back as no record |
| RoundTrip.FinalCRValueText | src/config.rs:28-48 | a record whose one setting is "\r" is written as its `Host` line and the setting line with an empty value followed by "\r\n" |
| RoundTrip.FinalCRValueLines | src/config.rs:74 | `str::lines` of that text is the `Host` line and the setting line with an empty value |
| RoundTrip.FinalCRValueDropped | src/config.rs:74-92 | a record with a clean host whose one setting is "\r" is written and read back with no setting |
| RoundTrip.EmptyHostBlockLines | src/config.rs:28-48 | the block written for an empty host has no line that `host_re` matches, and splits back into its lines |
| RoundTrip.EmptyHostFirstLost | src/config.rs:76-80 | when a record with an empty host is written first, the read gives only the records after it, as written |
| RoundTrip.AllLinesSnoc | src/config.rs:116-120 | the lines of one more block are the earlier blocks' lines, a separating empty line when there are earlier blocks, and the block's lines |
| RoundTrip.ParseLeadIn | src/config.rs:74-97 | the lines of clean records with a trailing separator read back as those records |
| RoundTrip.SeparatorAndEmptyHeader | src/config.rs:75-92 | the empty separator line and the header `Host ` written for an empty host are both ignored inside a block |
| RoundTrip.MergeBody | src/config.rs:80-92 | inside `a`'s block, the setting lines of a following empty-host record overwrite `a`'s settings, and the settings it lacks keep `a`'s values |
| RoundTrip.MergeLinesShape | src/config.rs:116-120 | the lines written for `a` and an empty-host record are `a`'s header followed by one headerless body |
| RoundTrip.LinesOfMerge | src/config.rs:115-121 | `str::lines` of the text written for clean records, then `a`, then an empty-host record, is the earlier lines, `a`'s header and that body |
| RoundTrip.ParseMerge | src/config.rs:74-97 | those lines read as the earlier records and one record: `a`'s host with the body applied |
| RoundTrip.EmptyHostMerges | src/config.rs:74-97 | when a record with an empty host is written after a record `a`, the read gives one record fewer: the earlier records, then `a`'s host with the empty-host record's present settings overwriting `a`'s |
| RoundTrip.CaptureNormal | src/config.rs:79 | every trimmed capture taken from a line is trimmed and on one line |
| RoundTrip.ClassifyNormal | src/config.rs:79-90 | every host and setting value read from a line is trimmed and on one line |
| RoundTrip.ParseKindsNormal | src/config.rs:74-97 | a parse of such lines yields only records with trimmed single-line hosts and values |
| RoundTrip.ParseContentNormal | src/config.rs:56-99 | every record `parse_ssh_config` returns has a trimmed, single-line host and trimmed, single-line values |
| RoundTrip.RewriteStable | src/config.rs:129-133 | reading, rewriting and reading again gives the same records unless some host or value was empty |
| Records.Position | src/config.rs:138 | the index of the first record whose host equals the given one, or none exactly when no record has it |
| Records.Find | src/config.rs:104 | the lookup returns the record at that first matching index, or nothing when there is none |
| Records.FindFirstMatch | src/config.rs:102-105 | a lookup succeeds exactly when some record has the host, and then returns the first such record |
| Records.PositionIs | src/config.rs:138 | the first index holding the host is the position |
| Records.PositionNone | src/config.rs:138 | when no record has the host there is no position |
| Records.PositionExtends | src/config.rs:129-133 | appending records does not move the first match |
| Records.AddThenFind | src/config.rs:129-133 | after an append, and with no duplicate check, a lookup still finds an earlier record for that host if one exists; only otherwise does it find the new one |
| Records.UpdateThenFind | src/config.rs:135-145 | after the replacement, a lookup of the new record's host finds it unless an earlier record has that host |
| Records.UpdateKeepsOthers | src/config.rs:138-139 | replacing the first record for a host does not change lookups of any other host |
| ConfigStore.ConfigFile.constructor | src/config.rs:51-54 | the file starts with the given content, or as missing |
| ConfigStore.ConfigFile.ParseSshConfig | src/config.rs:56-100 | a missing file gives no records; otherwise the result is the parse of the file's lines |
| ConfigStore.ConfigFile.FindConfigByHost | src/config.rs:102-105 | a record comes back exactly when some record in the file has the host, and it is the first such record |
| ConfigStore.ConfigFile.WriteSshConfig | src/config.rs:107-127 | the file becomes the blocks of the records joined by '\n'; with clean hosts and values, reading it gives the records back |
| ConfigStore.ConfigFile.AddSshConfig | src/config.rs:129-133 | the file is rewritten from the records it held plus the new one at the end; with clean values, reading it gives that list |
| ConfigStore.ConfigFile.UpdateSshConfig | src/config.rs:135-145 | true exactly when some record has the host; then the file is rewritten with the first such record replaced and all others kept in order; when false the file is untouched |

## Left out

- `get_ssh_config_path` (src/config.rs:51-54) is not modelled. It reads `HOME` and panics when `HOME` is unset. The model's `ConfigFile` object stands for the file at that path.
- Real file-system access is not modelled: `exists`, `read_to_string`, `create_dir_all`, `File::create` and `write_all`. The file is the `content` field, with `None` for a missing file.
- ConfigStore.ConfigFile.ParseSshConfig: does not return the `io::Error` from an unreadable file or from content that is not valid UTF-8. A read in the model always succeeds.
- ConfigStore.ConfigFile.WriteSshConfig: does not return the `io::Error` from a failed directory creation or write. A write always succeeds, and a partly written file is not modelled.
- ConfigStore.ConfigFile.AddSshConfig and ConfigStore.ConfigFile.UpdateSshConfig: they inherit both of these, so the `?` early returns on read or write errors are absent.
- The `regex` crate is not modelled. The six patterns are hand-coded and related to the regex language by `Parser.MatcherSound` and `Parser.MatcherComplete`.
- Strings are sequences of Unicode scalar values. UTF-8 bytes are not modelled.
- Concurrent writers to the same file are not modelled. Each method reads and writes `content` with nothing in between.
- src/sshct.rs, src/sshr.rs, src/main.rs and src/utils.rs are not part of this model. They hold the command-line front ends, the interactive prompts and the spawning of the ssh client, which use this store.
- The `Debug` and `Clone` derivations are not modelled: a Dafny datatype is a value.
