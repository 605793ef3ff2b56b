/**
 * Reading the config file: the patterns of the parse loop in
 * `parse_ssh_config`, hand-coded, and the loop itself.
 */
module Parser {
  import opened Wrappers
  import opened Text
  import opened Record

  // ---------------------------------------------------------------------
  // The patterns

  /**
   * `t` starts with `kw`, then whitespace, then at least one more character:
   * the pattern `kw\s+(.+)$` anchored at the start of `t`. The result is the
   * captured text with `trim` applied.
   */
  function Capture(t: string, kw: string): Option<string>
  {
    if |t| >= |kw| + 2 && t[..|kw|] == kw && IsSpace(t[|kw|]) then Some(Trim(t[|kw|..])) else None
  }

  /** The block header pattern `^Host\s+(.+)$`: case-sensitive, at column 0. */
  function HeaderHost(line: string): Option<string>
  {
    Capture(line, "Host")
  }

  /** A setting pattern `^\s*kw\s+(.+)$`: any leading whitespace, then `kw`. */
  function KeywordValue(line: string, kw: string): Option<string>
  {
    Capture(TrimStart(line), kw)
  }

  /** A setting line the parser recognised: which field, and its trimmed value. */
  datatype Setting = Setting(field: Field, value: string)

  /** The first of the patterns of `fs`, tried in order, that matches `line`. */
  function FirstSetting(line: string, fs: seq<Field>): (r: Option<Setting>)
    ensures r.Some? ==> r.value.field in fs && KeywordValue(line, Keyword(r.value.field)) == Some(r.value.value)
    decreases |fs|
  {
    if fs == [] then None
    else
      match KeywordValue(line, Keyword(fs[0]))
      case Some(v) => Some(Setting(fs[0], v))
      case None => FirstSetting(line, fs[1..])
  }

  /** The setting a line inside a block assigns, if any. */
  function DirectiveOf(line: string): Option<Setting>
  {
    FirstSetting(line, FieldOrder())
  }

  /** The `else if` chain of the parse loop, one pattern after the other. */
  lemma DirectiveOfUnrolled(line: string)
    ensures DirectiveOf(line) ==
      if KeywordValue(line, "HostName").Some? then Some(Setting(HostName, KeywordValue(line, "HostName").value))
      else if KeywordValue(line, "User").Some? then Some(Setting(User, KeywordValue(line, "User").value))
      else if KeywordValue(line, "IdentityFile").Some? then Some(Setting(IdentityFile, KeywordValue(line, "IdentityFile").value))
      else if KeywordValue(line, "ProxyCommand").Some? then Some(Setting(ProxyCommand, KeywordValue(line, "ProxyCommand").value))
      else if KeywordValue(line, "#pass").Some? then Some(Setting(Password, KeywordValue(line, "#pass").value))
      else None
  {
    var po := FieldOrder();
    assert po[1..] == [User, IdentityFile, ProxyCommand, Password];
    assert po[1..][1..] == [IdentityFile, ProxyCommand, Password];
    assert po[1..][1..][1..] == [ProxyCommand, Password];
    assert po[1..][1..][1..][1..] == [Password];
    assert po[1..][1..][1..][1..][1..] == [];
  }

  /** The keywords start with distinct characters, so at most one pattern matches a line. */
  lemma KeywordsExclusive(line: string, f: Field, g: Field)
    requires KeywordValue(line, Keyword(f)).Some? && KeywordValue(line, Keyword(g)).Some?
    ensures f == g
  {
    var t := TrimStart(line);
    assert t[..|Keyword(f)|][0] == Keyword(f)[0];
    assert t[..|Keyword(g)|][0] == Keyword(g)[0];
    KeywordsDistinct(f, g);
  }

  /** A line that matches one of the patterns of `fs` is found by the search. */
  lemma {:induction false} FirstSettingFinds(line: string, fs: seq<Field>, f: Field)
    requires f in fs && KeywordValue(line, Keyword(f)).Some?
    ensures FirstSetting(line, fs).Some?
    decreases |fs|
  {
    if fs[0] != f {
      FirstSettingFinds(line, fs[1..], f);
    }
  }

  /** Trying the patterns in order is the same as asking which one matches. */
  lemma DirectiveOfMatches(line: string, f: Field)
    ensures SetsField(line, f) <==> KeywordValue(line, Keyword(f)).Some?
    ensures SetsField(line, f) ==> DirectiveOf(line).value.value == KeywordValue(line, Keyword(f)).value
  {
    if KeywordValue(line, Keyword(f)).Some? {
      FieldOrderComplete(f);
      FirstSettingFinds(line, FieldOrder(), f);
      KeywordsExclusive(line, f, DirectiveOf(line).value.field);
    }
  }

  /** A line is no setting line exactly when none of the five patterns matches it. */
  lemma DirectiveOfNone(line: string)
    ensures DirectiveOf(line).None? <==> forall f: Field :: KeywordValue(line, Keyword(f)).None?
  {
    forall f: Field
      ensures DirectiveOf(line).None? ==> KeywordValue(line, Keyword(f)).None?
    {
      DirectiveOfMatches(line, f);
    }
  }

  /** True when `line` is a setting line for field `f`. */
  predicate SetsField(line: string, f: Field)
  {
    DirectiveOf(line).Some? && DirectiveOf(line).value.field == f
  }

  // ---------------------------------------------------------------------
  // The parse, as a function of the lines read so far

  /** What one line means to the parse loop. */
  datatype LineKind = Header(host: string) | Assign(setting: Setting) | Other

  /** The header test comes first; any other line is tried against the setting patterns. */
  function Classify(line: string): LineKind
  {
    match HeaderHost(line)
    case Some(h) => Header(h)
    case None =>
      match DirectiveOf(line)
      case Some(s) => Assign(s)
      case None => Other
  }

  /** The meaning of each line, in order. */
  function Kinds(lines: seq<string>): seq<LineKind>
  {
    seq(|lines|, k requires 0 <= k < |lines| => Classify(lines[k]))
  }

  /** True when `kind` assigns field `f`. */
  predicate Assigns(kind: LineKind, f: Field)
  {
    kind.Assign? && kind.setting.field == f
  }

  /**
   * One iteration of the parse loop on the records so far, the last of them
   * being the open block: a header opens a new record; a setting line
   * overwrites its field in the open record, if there is one.
   */
  function Step(prev: seq<SshConfig>, kind: LineKind): seq<SshConfig>
  {
    match kind
    case Header(h) => prev + [New(h)]
    case Assign(s) => if prev == [] then [] else prev[..|prev| - 1] + [Set(prev[|prev| - 1], s.field, s.value)]
    case Other => prev
  }

  /** The records after the parse loop has seen the lines of kinds `ks`. */
  function ParseKinds(ks: seq<LineKind>): seq<SshConfig>
    decreases |ks|
  {
    if ks == [] then [] else Step(ParseKinds(ks[..|ks| - 1]), ks[|ks| - 1])
  }

  /** The records of a file's lines. */
  function Parse(lines: seq<string>): seq<SshConfig>
  {
    ParseKinds(Kinds(lines))
  }

  /** The list `parse_ssh_config` returns: none for a missing file, else the parse of its lines. */
  function ParseContent(content: Option<string>): seq<SshConfig>
  {
    match content
    case None => []
    case Some(text) => Parse(Lines(text))
  }

  /** The effect of the setting lines of a block body, in order. */
  function ApplyKinds(c: SshConfig, ks: seq<LineKind>): SshConfig
    decreases |ks|
  {
    if ks == [] then c
    else
      var prev := ApplyKinds(c, ks[..|ks| - 1]);
      match ks[|ks| - 1]
      case Assign(s) => Set(prev, s.field, s.value)
      case _ => prev
  }

  /** The trimmed hosts of the header lines, in file order. */
  function HeaderHosts(lines: seq<string>): seq<string>
    decreases |lines|
  {
    if lines == [] then []
    else
      HeaderHosts(lines[..|lines| - 1])
      + match HeaderHost(lines[|lines| - 1]) case Some(h) => [h] case None => []
  }

  /** The `if`/`else if` chain of the parse loop, one pattern after the other. */
  lemma ClassifyUnrolled(line: string)
    ensures Classify(line) ==
      if HeaderHost(line).Some? then Header(HeaderHost(line).value)
      else if KeywordValue(line, "HostName").Some? then Assign(Setting(HostName, KeywordValue(line, "HostName").value))
      else if KeywordValue(line, "User").Some? then Assign(Setting(User, KeywordValue(line, "User").value))
      else if KeywordValue(line, "IdentityFile").Some? then Assign(Setting(IdentityFile, KeywordValue(line, "IdentityFile").value))
      else if KeywordValue(line, "ProxyCommand").Some? then Assign(Setting(ProxyCommand, KeywordValue(line, "ProxyCommand").value))
      else if KeywordValue(line, "#pass").Some? then Assign(Setting(Password, KeywordValue(line, "#pass").value))
      else Other
  {
    DirectiveOfUnrolled(line);
  }

  /** A line that is no header assigns `f` exactly when the pattern for `f` matches it. */
  lemma ClassifyAssigns(line: string, f: Field)
    requires HeaderHost(line).None?
    ensures Assigns(Classify(line), f) <==> KeywordValue(line, Keyword(f)).Some?
    ensures Assigns(Classify(line), f) ==> Classify(line).setting.value == KeywordValue(line, Keyword(f)).value
  {
    DirectiveOfMatches(line, f);
  }

  lemma ParseKindsSnoc(ks: seq<LineKind>, kind: LineKind)
    ensures ParseKinds(ks + [kind]) == Step(ParseKinds(ks), kind)
  {
    assert (ks + [kind])[..|ks|] == ks;
  }

  lemma KindsAppend(a: seq<string>, b: seq<string>)
    ensures Kinds(a + b) == Kinds(a) + Kinds(b)
  {
    var ab := a + b;
    forall k | 0 <= k < |ab|
      ensures Kinds(ab)[k] == (Kinds(a) + Kinds(b))[k]
    {
      if k >= |a| {
        assert ab[k] == b[k - |a|];
      }
    }
  }

  /** No lines give no records. */
  lemma ParseEmpty()
    ensures Parse([]) == []
  {
    assert Kinds([]) == [];
  }

  /** Reading one more line is one more iteration of the loop. */
  lemma ParseSnoc(lines: seq<string>, line: string)
    ensures Parse(lines + [line]) == Step(Parse(lines), Classify(line))
  {
    KindsAppend(lines, [line]);
    assert Kinds([line]) == [Classify(line)];
    ParseKindsSnoc(Kinds(lines), Classify(line));
  }

  // ---------------------------------------------------------------------
  // The parse loop

  function AsSeq(current: Option<SshConfig>): seq<SshConfig>
  {
    match current
    case None => []
    case Some(c) => [c]
  }

  /**
   * The body of the parse loop for a line inside a block: the first setting
   * pattern that matches overwrites its field of the open record.
   */
  method ReadSetting(config: SshConfig, line: string) returns (updated: SshConfig)
    ensures updated == match DirectiveOf(line) case Some(s) => Set(config, s.field, s.value) case None => config
  {
    updated := config;
    var hostName := KeywordValue(line, "HostName");
    var user := KeywordValue(line, "User");
    var identityFile := KeywordValue(line, "IdentityFile");
    var proxyCommand := KeywordValue(line, "ProxyCommand");
    var password := KeywordValue(line, "#pass");
    if hostName.Some? {
      updated := updated.(hostname := hostName);
    } else if user.Some? {
      updated := updated.(user := user);
    } else if identityFile.Some? {
      updated := updated.(identityFile := identityFile);
    } else if proxyCommand.Some? {
      updated := updated.(proxyCommand := proxyCommand);
    } else if password.Some? {
      updated := updated.(password := password);
    }
    DirectiveOfUnrolled(line);
  }

  /**
   * One iteration of the loop of `parse_ssh_config`: a header pushes the
   * open block, if any, and opens a new one; any other line goes to the
   * open block, if any.
   */
  method Feed(configs: seq<SshConfig>, current: Option<SshConfig>, line: string)
    returns (configs': seq<SshConfig>, current': Option<SshConfig>)
    requires current.None? ==> configs == []
    ensures current'.None? ==> configs' == []
    ensures configs' + AsSeq(current') == Step(configs + AsSeq(current), Classify(line))
  {
    configs', current' := configs, current;
    var header := HeaderHost(line);
    if header.Some? {
      if current.Some? {
        configs' := configs + [current.value];
      }
      current' := Some(New(header.value));
    } else if current.Some? {
      var config := ReadSetting(current.value, line);
      current' := Some(config);
      assert (configs + [current.value])[..|configs|] == configs;
    }
  }

  /**
   * The loop of `parse_ssh_config`: `current` is the block being read;
   * it is pushed when the next header arrives and after the last line.
   */
  method ParseLines(lines: seq<string>) returns (configs: seq<SshConfig>)
    ensures configs == Parse(lines)
  {
    configs := [];
    var current: Option<SshConfig> := None;
    var i := 0;
    ParseEmpty();
    while i < |lines|
      invariant 0 <= i <= |lines|
      invariant current.None? ==> configs == []
      invariant configs + AsSeq(current) == Parse(lines[..i])
    {
      assert lines[..i + 1] == lines[..i] + [lines[i]];
      ParseSnoc(lines[..i], lines[i]);
      configs, current := Feed(configs, current, lines[i]);
      i := i + 1;
    }
    assert lines[..i] == lines;
    configs := configs + AsSeq(current);
  }

  // ---------------------------------------------------------------------
  // The hand-coded patterns against the regex language

  /**
   * One way a line can match `^\s*kw\s+(.+)$` (`lead`) or `^kw\s+(.+)$`
   * (not `lead`): `j` whitespace characters, `kw`, `k >= 1` whitespace
   * characters, then a capture of at least one character without '\n'.
   */
  ghost predicate PatternSplit(line: string, kw: string, lead: bool, j: nat, k: nat)
  {
    (lead || j == 0) && 1 <= k && j + |kw| + k < |line|
    && AllSpace(line[..j]) && line[j..j + |kw|] == kw && AllSpace(line[j + |kw|..j + |kw| + k])
    && '\n' !in line[j + |kw| + k..]
  }

  ghost predicate PatternMatches(line: string, kw: string, lead: bool)
  {
    exists j: nat, k: nat :: PatternSplit(line, kw, lead, j, k)
  }

  /** The hand-coded matcher for the pattern with or without leading whitespace. */
  function Matcher(line: string, kw: string, lead: bool): Option<string>
  {
    if lead then KeywordValue(line, kw) else Capture(line, kw)
  }

  /**
   * Whenever the regex matches, however it splits the line between `\s+`
   * and the capture, the matcher reports the trimmed capture.
   */
  lemma MatcherSound(line: string, kw: string, lead: bool, j: nat, k: nat)
    requires |kw| > 0 && !IsSpace(kw[0])
    requires PatternSplit(line, kw, lead, j, k)
    ensures Matcher(line, kw, lead) == Some(Trim(line[j + |kw| + k..]))
  {
    assert line[j..j + |kw|][0] == line[j];
    if lead {
      TrimStartAt(line, j);
    } else {
      assert line[..j] == [];
    }
    var t := line[j..];
    assert t == if lead then TrimStart(line) else line;
    assert t[..|kw|] == line[j..j + |kw|];
    assert line[j + |kw|..j + |kw| + k][0] == t[|kw|];
    var rest := t[|kw|..];
    assert rest[..k] == line[j + |kw|..j + |kw| + k];
    assert rest[k..] == line[j + |kw| + k..];
    TrimSkip(rest, k);
  }

  /** On a line without '\n', the matcher reports a value only when the regex matches. */
  lemma MatcherComplete(line: string, kw: string, lead: bool)
    requires '\n' !in line && |kw| > 0
    requires Matcher(line, kw, lead).Some?
    ensures PatternMatches(line, kw, lead)
  {
    var t := if lead then TrimStart(line) else line;
    var j := |line| - |t|;
    if lead {
      TrimStartShape(line);
    }
    assert t == line[j..];
    assert line[..j] == [] || lead;
    assert line[j..j + |kw|] == t[..|kw|];
    assert line[j + |kw|..j + |kw| + 1] == [t[|kw|]];
    assert PatternSplit(line, kw, lead, j, 1);
  }

  // ---------------------------------------------------------------------
  // What the parse keeps and what it ignores

  /** Header detection is case-sensitive and anchored at column 0. */
  lemma NotHeaders()
    ensures HeaderHost("host web") == None
    ensures HeaderHost("HOST web") == None
    ensures HeaderHost("  Host web") == None
    ensures HeaderHost("Host") == None && HeaderHost("Host ") == None
    ensures HeaderHost("HostName web") == None
  {
    assert "host web"[..4][0] == 'h';
    assert "HOST web"[..4][1] == 'O';
    assert "  Host web"[..4][0] == ' ';
    assert "HostName web"[4] == 'N';
  }

  /** Every keyword starts with one of the characters of "HUIP#". */
  lemma KeywordStarts(f: Field)
    ensures Keyword(f)[0] in "HUIP#"
  {
    match f
    case HostName => assert "HUIP#"[0] == 'H';
    case User => assert "HUIP#"[1] == 'U';
    case IdentityFile => assert "HUIP#"[2] == 'I';
    case ProxyCommand => assert "HUIP#"[3] == 'P';
    case Password => assert "HUIP#"[4] == '#';
  }

  /**
   * A blank line, or one whose first non-blank character starts no keyword,
   * sets nothing.
   */
  lemma NoKeywordStart(line: string, j: nat)
    requires j <= |line| && AllSpace(line[..j])
    requires j == |line| || (!IsSpace(line[j]) && line[j] !in "HUIP#")
    ensures DirectiveOf(line).None?
  {
    TrimStartSkip(line, j);
    var t := TrimStart(line);
    assert t == TrimStart(line[j..]);
    if j < |line| {
      TrimStartAt(line, j);
      assert t[0] == line[j];
    } else {
      assert line[j..] == [];
    }
    forall f: Field
      ensures KeywordValue(line, Keyword(f)).None?
    {
      KeywordStarts(f);
      if |t| >= |Keyword(f)| + 2 {
        assert t[..|Keyword(f)|][0] == t[0];
      }
    }
    DirectiveOfNone(line);
  }

  /** An indented `Host` line is neither a header nor a setting line. */
  lemma IndentedHostIgnored(line: string, j: nat)
    requires 0 < j && j + 5 <= |line| && AllSpace(line[..j])
    requires line[j..j + 4] == "Host" && IsSpace(line[j + 4])
    ensures Classify(line) == Other
  {
    assert line[..4][0] == line[0] == line[..j][0];
    TrimStartAt(line, j);
    var t := TrimStart(line);
    assert t == line[j..];
    assert t[..4] == "Host";
    if |t| > 4 {
      MismatchAt(line, "HostName", 4);
    }
    MismatchAt(line, "User", 0);
    MismatchAt(line, "IdentityFile", 0);
    MismatchAt(line, "ProxyCommand", 0);
    MismatchAt(line, "#pass", 0);
    DirectiveOfUnrolled(line);
  }

  /** Setting keywords are case-sensitive. */
  lemma LowercaseIgnored()
    ensures DirectiveOf("  hostname 10.0.0.1") == None
  {
    NoKeywordStart("  hostname 10.0.0.1", 2);
  }

  /** The header keyword is case-sensitive: `host web` is neither a header nor a setting. */
  lemma LowercaseHostIgnored()
    ensures Classify("host web") == Other
  {
    var line := "host web";
    assert line[..4][0] == 'h';
    NoKeywordStart(line, 0);
  }

  /** A comment line that is not a `#pass` setting line sets nothing. */
  lemma CommentIgnored(line: string, j: nat)
    requires j < |line| && AllSpace(line[..j]) && line[j] == '#'
    requires !(j + 6 < |line| && line[j..j + 5] == "#pass" && IsSpace(line[j + 5]))
    ensures DirectiveOf(line).None?
  {
    TrimStartAt(line, j);
    var t := TrimStart(line);
    forall f: Field
      ensures KeywordValue(line, Keyword(f)).None?
    {
      KeywordStarts(f);
      if |t| >= |Keyword(f)| + 2 {
        assert t[..|Keyword(f)|][0] == t[0];
        if f == Password {
          assert t[..5] == line[j..j + 5];
          assert t[5] == line[j + 5];
        }
      }
    }
    DirectiveOfNone(line);
  }

  /** A blank line sets nothing. */
  lemma BlankIgnored()
    ensures DirectiveOf("") == None
  {
    NoKeywordStart("", 0);
  }

  /** A pattern whose keyword differs from the line at some position does not match. */
  lemma MismatchAt(line: string, kw: string, i: nat)
    requires i < |kw| && i < |TrimStart(line)| && TrimStart(line)[i] != kw[i]
    ensures KeywordValue(line, kw).None?
  {
    var t := TrimStart(line);
    if |t| >= |kw| {
      assert t[..|kw|][i] == t[i];
    }
  }

  /** A `Port` line, which the store does not read, sets nothing. */
  lemma PortIgnored(line: string, j: nat)
    requires j + 4 <= |line| && AllSpace(line[..j]) && line[j..j + 4] == "Port"
    ensures DirectiveOf(line).None?
  {
    assert line[j..j + 4][0] == 'P' && line[j..j + 4][1] == 'o';
    TrimStartAt(line, j);
    assert TrimStart(line)[0] == 'P' && TrimStart(line)[1] == 'o';
    MismatchAt(line, "HostName", 0);
    MismatchAt(line, "User", 0);
    MismatchAt(line, "IdentityFile", 0);
    MismatchAt(line, "ProxyCommand", 1);
    MismatchAt(line, "#pass", 0);
    DirectiveOfUnrolled(line);
  }

  // ---------------------------------------------------------------------
  // The shape of the parse

  /** A line that is neither a header nor a setting line leaves the records as they are. */
  lemma ParseIgnoresUnmatched(lines: seq<string>, line: string)
    requires HeaderHost(line).None? && DirectiveOf(line).None?
    ensures Parse(lines + [line]) == Parse(lines)
  {
    ParseSnoc(lines, line);
  }

  /** A line of kind other than a header keeps the number of records and their hosts. */
  lemma StepHosts(prev: seq<SshConfig>, kind: LineKind)
    requires !kind.Header?
    ensures |Step(prev, kind)| == |prev|
    ensures forall i :: 0 <= i < |prev| ==> Step(prev, kind)[i].host == prev[i].host
  {
  }

  /** The hosts of the header kinds, in order. */
  function KindHosts(ks: seq<LineKind>): seq<string>
    decreases |ks|
  {
    if ks == [] then []
    else KindHosts(ks[..|ks| - 1]) + match ks[|ks| - 1] case Header(h) => [h] case _ => []
  }

  lemma {:induction false} ParseKindsHosts(ks: seq<LineKind>)
    ensures |ParseKinds(ks)| == |KindHosts(ks)|
    ensures forall i :: 0 <= i < |ParseKinds(ks)| ==> ParseKinds(ks)[i].host == KindHosts(ks)[i]
    decreases |ks|
  {
    if ks != [] {
      var init := ks[..|ks| - 1];
      ParseKindsHosts(init);
      if !ks[|ks| - 1].Header? {
        StepHosts(ParseKinds(init), ks[|ks| - 1]);
      }
    }
  }

  lemma {:induction false} KindHostsOfLines(lines: seq<string>)
    ensures KindHosts(Kinds(lines)) == HeaderHosts(lines)
    decreases |lines|
  {
    if lines != [] {
      var init := lines[..|lines| - 1];
      var last := lines[|lines| - 1];
      assert lines == init + [last];
      KindsAppend(init, [last]);
      assert Kinds([last]) == [Classify(last)];
      var ks := Kinds(lines);
      assert ks[..|ks| - 1] == Kinds(init);
      KindHostsOfLines(init);
    }
  }

  /**
   * One record per header line, in file order, each named by its header's
   * trimmed capture.
   */
  lemma ParseHosts(lines: seq<string>)
    ensures |Parse(lines)| == |HeaderHosts(lines)|
    ensures forall i :: 0 <= i < |Parse(lines)| ==> Parse(lines)[i].host == HeaderHosts(lines)[i]
  {
    ParseKindsHosts(Kinds(lines));
    KindHostsOfLines(lines);
  }

  /** No header kind among `ks`. */
  predicate NoHeader(ks: seq<LineKind>)
  {
    forall k :: 0 <= k < |ks| ==> !ks[k].Header?
  }

  lemma NoHeaderLines(lines: seq<string>)
    requires forall k :: 0 <= k < |lines| ==> HeaderHost(lines[k]).None?
    ensures NoHeader(Kinds(lines))
  {
  }

  /** Lines with no header among them give no record. */
  lemma {:induction false} NoHeaderNoRecord(ks: seq<LineKind>)
    requires NoHeader(ks)
    ensures ParseKinds(ks) == []
    decreases |ks|
  {
    if ks != [] {
      NoHeaderNoRecord(ks[..|ks| - 1]);
    }
  }

  lemma {:induction false} ParseKindsSkipsPreamble(pre: seq<LineKind>, rest: seq<LineKind>)
    requires NoHeader(pre)
    ensures ParseKinds(pre + rest) == ParseKinds(rest)
    decreases |rest|
  {
    if rest == [] {
      assert pre + rest == pre;
      NoHeaderNoRecord(pre);
    } else {
      var ks := pre + rest;
      assert ks[..|ks| - 1] == pre + rest[..|rest| - 1];
      assert ks[|ks| - 1] == rest[|rest| - 1];
      ParseKindsSkipsPreamble(pre, rest[..|rest| - 1]);
    }
  }

  /** Lines before the first header contribute nothing. */
  lemma ParseSkipsPreamble(pre: seq<string>, rest: seq<string>)
    requires forall k :: 0 <= k < |pre| ==> HeaderHost(pre[k]).None?
    ensures Parse(pre + rest) == Parse(rest)
  {
    KindsAppend(pre, rest);
    NoHeaderLines(pre);
    ParseKindsSkipsPreamble(Kinds(pre), Kinds(rest));
  }

  /** Lines without a header all go to the open record, in order. */
  lemma {:induction false} ParseKindsBody(ks: seq<LineKind>, body: seq<LineKind>)
    requires ParseKinds(ks) != [] && NoHeader(body)
    ensures ParseKinds(ks + body) ==
      ParseKinds(ks)[..|ParseKinds(ks)| - 1] + [ApplyKinds(ParseKinds(ks)[|ParseKinds(ks)| - 1], body)]
    decreases |body|
  {
    var p := ParseKinds(ks);
    var n := |p|;
    if body == [] {
      assert ks + body == ks;
    } else {
      var init := body[..|body| - 1];
      var all := ks + body;
      assert all[..|all| - 1] == ks + init;
      assert all[|all| - 1] == body[|body| - 1];
      ParseKindsBody(ks, init);
      var open := ApplyKinds(p[n - 1], init);
      assert (p[..n - 1] + [open])[..n - 1] == p[..n - 1];
    }
  }

  /**
   * A block, a header line and the lines up to the next header, adds exactly
   * one record: its host, with the effect of its setting lines in order.
   */
  lemma ParseBlock(prefix: seq<string>, header: string, body: seq<string>)
    requires HeaderHost(header).Some?
    requires forall k :: 0 <= k < |body| ==> HeaderHost(body[k]).None?
    ensures Parse(prefix + [header] + body) == Parse(prefix) + [ApplyKinds(New(HeaderHost(header).value), Kinds(body))]
  {
    KindsAppend(prefix + [header], body);
    ParseSnoc(prefix, header);
    NoHeaderLines(body);
    var p := Parse(prefix + [header]);
    assert p[..|p| - 1] == Parse(prefix);
    ParseKindsBody(Kinds(prefix + [header]), Kinds(body));
  }

  lemma {:induction false} ApplyKindsAppend(c: SshConfig, a: seq<LineKind>, b: seq<LineKind>)
    ensures ApplyKinds(c, a + b) == ApplyKinds(ApplyKinds(c, a), b)
    decreases |b|
  {
    if b == [] {
      assert a + b == a;
    } else {
      assert (a + b)[..|a + b| - 1] == a + b[..|b| - 1];
      assert (a + b)[|a + b| - 1] == b[|b| - 1];
      ApplyKindsAppend(c, a, b[..|b| - 1]);
    }
  }

  /** Applying one more line: its own field changes, every other one stays. */
  lemma ApplyKindsLast(c: SshConfig, ks: seq<LineKind>, g: Field)
    requires ks != []
    ensures Get(ApplyKinds(c, ks), g) ==
      if Assigns(ks[|ks| - 1], g) then Some(ks[|ks| - 1].setting.value) else Get(ApplyKinds(c, ks[..|ks| - 1]), g)
  {
  }

  /** Within a block the last line for a field decides its value. */
  lemma {:induction false} LastWins(c: SshConfig, ks: seq<LineKind>, f: Field, k: nat)
    requires k < |ks| && Assigns(ks[k], f)
    requires forall j :: k < j < |ks| ==> !Assigns(ks[j], f)
    ensures Get(ApplyKinds(c, ks), f) == Some(ks[k].setting.value)
    decreases |ks|
  {
    ApplyKindsLast(c, ks, f);
    if k < |ks| - 1 {
      LastWins(c, ks[..|ks| - 1], f, k);
    }
  }

  /** A field no line of the block sets keeps its value. */
  lemma {:induction false} FieldUntouched(c: SshConfig, ks: seq<LineKind>, f: Field)
    requires forall j :: 0 <= j < |ks| ==> !Assigns(ks[j], f)
    ensures Get(ApplyKinds(c, ks), f) == Get(c, f)
    decreases |ks|
  {
    if ks != [] {
      ApplyKindsLast(c, ks, f);
      FieldUntouched(c, ks[..|ks| - 1], f);
    }
  }

  /** No line of a block changes the block's host. */
  lemma {:induction false} HostUntouched(c: SshConfig, ks: seq<LineKind>)
    ensures ApplyKinds(c, ks).host == c.host
    decreases |ks|
  {
    if ks != [] {
      HostUntouched(c, ks[..|ks| - 1]);
    }
  }
}
