/**
 * Writing records and reading them back: `write_ssh_config` followed by
 * `parse_ssh_config` gives the same list, provided every host and present
 * value survives the line format (non-empty, trimmed, on one line).
 */
module RoundTrip {
  import opened Wrappers
  import opened Text
  import opened Record
  import opened Parser

  /** A host or value the parse reads back exactly as written. */
  predicate Clean(v: string)
  {
    v != [] && Trimmed(v) && '\n' !in v
  }

  /** A record whose present settings are all clean, whatever its host. */
  predicate ValuesClean(c: SshConfig)
  {
    forall f: Field :: Get(c, f).Some? ==> Clean(Get(c, f).value)
  }

  /** A record whose host and present settings are all clean. */
  predicate WellFormed(c: SshConfig)
  {
    Clean(c.host) && ValuesClean(c)
  }

  predicate AllWellFormed(cs: seq<SshConfig>)
  {
    forall i :: 0 <= i < |cs| ==> WellFormed(cs[i])
  }

  // ---------------------------------------------------------------------
  // Single lines

  /** The header line of any non-empty host is a header for that host, trimmed. */
  lemma HeaderLineReads(h: string)
    requires h != []
    ensures Classify(HeaderLine(h)) == Header(Trim(h))
  {
    var line := HeaderLine(h);
    assert line[..4] == "Host";
    var rest := line[4..];
    assert rest == [' '] + h && rest[1..] == h;
    TrimSkip(rest, 1);
  }

  /** The header line of a clean host is read as a header for that host. */
  lemma HeaderLineParses(h: string)
    requires Clean(h)
    ensures Classify(HeaderLine(h)) == Header(h)
    ensures LineSafe(HeaderLine(h))
  {
    var line := HeaderLine(h);
    HeaderLineReads(h);
    TrimFixed(h);
    assert line[|line| - 1] == h[|h| - 1];
  }

  lemma KeywordOneLine(f: Field)
    ensures '\n' !in Keyword(f)
  {
  }

  /** A setting line with two spaces of indentation yields its value, trimmed. */
  lemma SettingLineValue(kw: string, v: string)
    requires |kw| > 0 && !IsSpace(kw[0]) && v != []
    ensures KeywordValue("  " + kw + " " + v, kw) == Some(Trim(v))
  {
    var line := "  " + kw + " " + v;
    assert line[..2] == "  ";
    assert line[2] == kw[0];
    TrimStartAt(line, 2);
    var t := TrimStart(line);
    assert t == kw + " " + v;
    assert t[..|kw|] == kw;
    var rest := t[|kw|..];
    assert rest == [' '] + v && rest[1..] == v;
    TrimSkip(rest, 1);
  }

  /**
   * The line written for any non-empty value is no header and is read as
   * setting its field to the value, trimmed: `  User  x` is read as `x`.
   */
  lemma DirectiveLineReads(f: Field, v: string)
    requires v != []
    ensures HeaderHost(DirectiveLine(f, v)).None?
    ensures Classify(DirectiveLine(f, v)) == Assign(Setting(f, Trim(v)))
  {
    var line := DirectiveLine(f, v);
    assert line[..4][0] == ' ';
    SettingLineValue(Keyword(f), v);
    ClassifyAssigns(line, f);
  }

  /** The line of a clean setting is read as that setting and cannot be taken for a header. */
  lemma DirectiveLineParses(f: Field, v: string)
    requires Clean(v)
    ensures HeaderHost(DirectiveLine(f, v)).None?
    ensures Classify(DirectiveLine(f, v)) == Assign(Setting(f, v))
    ensures LineSafe(DirectiveLine(f, v))
  {
    DirectiveLineReads(f, v);
    TrimFixed(v);
    DirectiveLineSafe(f, v);
  }

  lemma DirectiveLineSafe(f: Field, v: string)
    requires Clean(v)
    ensures LineSafe(DirectiveLine(f, v))
  {
    var line := DirectiveLine(f, v);
    KeywordOneLine(f);
    assert line[|line| - 1] == v[|v| - 1];
  }

  /** The line written for an empty value is read as no setting at all. */
  lemma EmptyValueDropped(f: Field)
    ensures Classify(DirectiveLine(f, "")) == Other
  {
    var kw := Keyword(f);
    var line := DirectiveLine(f, "");
    assert line == "  " + kw + " ";
    assert line[..4][0] == ' ';
    assert line[..2] == "  ";
    assert line[2] == kw[0];
    TrimStartAt(line, 2);
    var t := TrimStart(line);
    assert t == kw + " ";
    forall g: Field
      ensures KeywordValue(line, Keyword(g)).None?
    {
      if |t| >= |Keyword(g)| + 2 {
        assert t[..|Keyword(g)|][0] == t[0];
        KeywordsDistinct(f, g);
      }
    }
    DirectiveOfNone(line);
  }

  /** The header line written for an empty host is no header, and sets nothing. */
  lemma EmptyHostDropped()
    ensures Classify(HeaderLine("")) == Other
  {
    var line := HeaderLine("");
    assert line == "Host ";
    TrimStartAt(line, 0);
    forall g: Field
      ensures KeywordValue(line, Keyword(g)).None?
    {
      if |line| >= |Keyword(g)| + 2 {
        assert line[..|Keyword(g)|][0] == 'H';
        KeywordsDistinct(HostName, g);
      }
    }
    DirectiveOfNone(line);
  }

  // ---------------------------------------------------------------------
  // One block

  /** The setting lines of a record with clean values are single lines and none is a header. */
  lemma {:induction false} DirectiveLinesSafe(c: SshConfig, fs: seq<Field>)
    requires ValuesClean(c)
    ensures forall k :: 0 <= k < |DirectiveLines(c, fs)| ==>
      LineSafe(DirectiveLines(c, fs)[k]) && HeaderHost(DirectiveLines(c, fs)[k]).None?
    decreases |fs|
  {
    if fs != [] {
      var init, f := fs[..|fs| - 1], fs[|fs| - 1];
      DirectiveLinesSafe(c, init);
      if Get(c, f).Some? {
        DirectiveLineParses(f, Get(c, f).value);
      }
    }
  }

  /**
   * Reading the setting lines of `c` for the fields `fs` on top of `base`
   * sets exactly the fields of `fs` that `c` holds, to `c`'s values.
   */
  lemma {:induction false} DirectiveLinesApply(base: SshConfig, c: SshConfig, fs: seq<Field>)
    requires ValuesClean(c)
    ensures forall g: Field :: (Get(ApplyKinds(base, Kinds(DirectiveLines(c, fs))), g) ==
      if g in fs && Get(c, g).Some? then Get(c, g) else Get(base, g))
    decreases |fs|
  {
    if fs == [] {
      assert Kinds([]) == [];
    } else {
      var init, f := fs[..|fs| - 1], fs[|fs| - 1];
      assert fs == init + [f];
      DirectiveLinesApply(base, c, init);
      var before := DirectiveLines(c, init);
      KindsAppend(before, FieldLines(c, f));
      ApplyKindsAppend(base, Kinds(before), Kinds(FieldLines(c, f)));
      var mid := ApplyKinds(base, Kinds(before));
      match Get(c, f)
      case None =>
        assert Kinds(FieldLines(c, f)) == [];
      case Some(v) =>
        DirectiveLineParses(f, v);
        var ks := Kinds(FieldLines(c, f));
        assert ks == [Assign(Setting(f, v))];
        assert ks[..0] == [];
        assert ApplyKinds(mid, ks) == Set(mid, f, v);
    }
  }

  /** Reading a block written for a well-formed record gives that record back. */
  lemma BlockRebuilt(c: SshConfig)
    requires WellFormed(c)
    ensures ApplyKinds(New(c.host), Kinds(DirectiveLines(c, FieldOrder()))) == c
  {
    var r := ApplyKinds(New(c.host), Kinds(DirectiveLines(c, FieldOrder())));
    DirectiveLinesApply(New(c.host), c, FieldOrder());
    HostUntouched(New(c.host), Kinds(DirectiveLines(c, FieldOrder())));
    forall g: Field
      ensures Get(r, g) == Get(c, g)
    {
      FieldOrderComplete(g);
    }
    RecordExt(r, c);
  }

  lemma BlockLinesSafe(c: SshConfig)
    requires WellFormed(c)
    ensures forall k :: 0 <= k < |BlockLines(c)| ==> LineSafe(BlockLines(c)[k])
  {
    HeaderLineParses(c.host);
    DirectiveLinesSafe(c, FieldOrder());
    var b := BlockLines(c);
    forall k | 0 <= k < |b|
      ensures LineSafe(b[k])
    {
      if k > 0 {
        assert b[k] == DirectiveLines(c, FieldOrder())[k - 1];
      }
    }
  }

  /** A written block splits into exactly its lines. */
  lemma LinesOfBlock(c: SshConfig)
    requires WellFormed(c)
    ensures Lines(Serialize(c)) == BlockLines(c)
  {
    BlockLinesSafe(c);
    LinesOfTerminated(BlockLines(c));
  }

  /** The lines of a block after any lines add exactly the block's record. */
  lemma ParseAddsBlock(prefix: seq<string>, c: SshConfig)
    requires WellFormed(c)
    ensures Parse(prefix + BlockLines(c)) == Parse(prefix) + [c]
  {
    var body := DirectiveLines(c, FieldOrder());
    assert prefix + BlockLines(c) == prefix + [HeaderLine(c.host)] + body;
    HeaderLineParses(c.host);
    DirectiveLinesSafe(c, FieldOrder());
    ParseBlock(prefix, HeaderLine(c.host), body);
    BlockRebuilt(c);
  }

  // ---------------------------------------------------------------------
  // The whole file

  /** The lines of the file text for `cs`: the blocks' lines with an empty line between neighbours. */
  function AllLines(cs: seq<SshConfig>): seq<string>
    decreases |cs|
  {
    if cs == [] then []
    else if |cs| == 1 then BlockLines(cs[0])
    else AllLines(cs[..|cs| - 1]) + [""] + BlockLines(cs[|cs| - 1])
  }

  /** The file text of a non-empty list ends with a line break. */
  lemma SerializeAllEnds(cs: seq<SshConfig>)
    requires cs != []
    ensures |SerializeAll(cs)| > 0 && SerializeAll(cs)[|SerializeAll(cs)| - 1] == '\n'
  {
    var init, c := cs[..|cs| - 1], cs[|cs| - 1];
    assert cs == init + [c];
    SerializeAllSnoc(init, c);
    TerminatedEndsWithNewline(BlockLines(c));
  }

  /** One more block after a separating '\n' adds an empty line and the block's lines. */
  lemma LinesOfJoin(front: string, c: SshConfig)
    requires |front| > 0 && front[|front| - 1] == '\n' && WellFormed(c)
    ensures Lines(front + "\n" + Serialize(c)) == Lines(front) + [""] + BlockLines(c)
  {
    LinesJoin(front, Serialize(c));
    LinesOfBlock(c);
  }

  lemma {:induction false} LinesOfAll(cs: seq<SshConfig>)
    requires AllWellFormed(cs)
    ensures Lines(SerializeAll(cs)) == AllLines(cs)
    decreases |cs|
  {
    if |cs| == 1 {
      LinesOfBlock(cs[0]);
    } else if |cs| > 1 {
      var init, c := cs[..|cs| - 1], cs[|cs| - 1];
      assert cs == init + [c];
      SerializeAllSnoc(init, c);
      SerializeAllEnds(init);
      LinesOfJoin(SerializeAll(init), c);
      LinesOfAll(init);
    }
  }

  /** A blank line and then a block after any lines add exactly the block's record. */
  lemma ParseJoin(lines: seq<string>, c: SshConfig)
    requires WellFormed(c)
    ensures Parse(lines + [""] + BlockLines(c)) == Parse(lines) + [c]
  {
    BlankIgnored();
    ParseIgnoresUnmatched(lines, "");
    ParseAddsBlock(lines + [""], c);
  }

  /** The lines of one block are read as that block's record. */
  lemma ParseSingle(c: SshConfig)
    requires WellFormed(c)
    ensures Parse(BlockLines(c)) == [c]
  {
    ParseEmpty();
    ParseAddsBlock([], c);
    assert [] + BlockLines(c) == BlockLines(c);
  }

  lemma {:induction false} ParseAll(cs: seq<SshConfig>)
    requires AllWellFormed(cs)
    ensures Parse(AllLines(cs)) == cs
    decreases |cs|
  {
    if cs == [] {
      ParseEmpty();
    } else if |cs| == 1 {
      ParseSingle(cs[0]);
      assert cs == [cs[0]];
    } else {
      var init, c := cs[..|cs| - 1], cs[|cs| - 1];
      assert cs == init + [c];
      assert WellFormed(c);
      ParseAll(init);
      ParseJoin(AllLines(init), c);
    }
  }

  /**
   * What `write_ssh_config` writes, `parse_ssh_config` reads back as the
   * same list, when every host and present value is clean.
   */
  lemma WrittenReadsBack(cs: seq<SshConfig>)
    requires AllWellFormed(cs)
    ensures ParseContent(Some(SerializeAll(cs))) == cs
  {
    LinesOfAll(cs);
    ParseAll(cs);
  }

  // ---------------------------------------------------------------------
  // A host with a line break

  /** A record without settings is written as its header line alone. */
  lemma {:induction false} NoSettingsNoLines(c: SshConfig, fs: seq<Field>)
    requires forall f: Field :: Get(c, f) == None
    ensures DirectiveLines(c, fs) == []
    decreases |fs|
  {
    if fs != [] {
      NoSettingsNoLines(c, fs[..|fs| - 1]);
      assert FieldLines(c, fs[|fs| - 1]) == [];
    }
  }

  /** The block of a settingless record whose host holds "\nHost " is two header lines. */
  lemma NewlineHostText(h1: string, h2: string)
    ensures Serialize(New(h1 + "\nHost " + h2)) == Terminated([HeaderLine(h1), HeaderLine(h2)])
  {
    var x := h1 + "\nHost " + h2;
    var l1, l2 := HeaderLine(h1), HeaderLine(h2);
    SettinglessText(x);
    assert [l1, l2][1..] == [l2];
    assert Terminated([l2]) == l2 + "\n";
    assert HeaderLine(x) == l1 + "\n" + l2;
  }

  /** A settingless record is written as its header line alone. */
  lemma SettinglessText(h: string)
    ensures Serialize(New(h)) == HeaderLine(h) + "\n"
  {
    NoSettingsNoLines(New(h), FieldOrder());
    assert BlockLines(New(h)) == [HeaderLine(h)];
    assert Terminated([HeaderLine(h)]) == HeaderLine(h) + "\n";
  }

  /** A single line is one step of the parse loop from no records. */
  lemma ParseOne(line: string)
    ensures Parse([line]) == Step([], Classify(line))
  {
    ParseEmpty();
    assert [line] == [] + [line];
    ParseSnoc([], line);
  }

  /** Two clean header lines are read as two settingless records. */
  lemma ParseTwoHeaders(h1: string, h2: string)
    requires Clean(h1) && Clean(h2)
    ensures Parse([HeaderLine(h1), HeaderLine(h2)]) == [New(h1), New(h2)]
  {
    var l1, l2 := HeaderLine(h1), HeaderLine(h2);
    HeaderLineParses(h1);
    HeaderLineParses(h2);
    ParseEmpty();
    assert [l1] == [] + [l1];
    ParseSnoc([], l1);
    assert [l1, l2] == [l1] + [l2];
    ParseSnoc([l1], l2);
  }

  /**
   * A host holding a line break followed by a header line is written as two
   * header lines, so it is read back as two records: `Host a\nHost b`.
   */
  lemma NewlineHostSplits(h1: string, h2: string)
    requires Clean(h1) && Clean(h2)
    ensures ParseContent(Some(Serialize(New(h1 + "\nHost " + h2)))) == [New(h1), New(h2)]
  {
    NewlineHostText(h1, h2);
    HeaderLineParses(h1);
    HeaderLineParses(h2);
    LinesOfTerminated([HeaderLine(h1), HeaderLine(h2)]);
    ParseTwoHeaders(h1, h2);
  }

  // ---------------------------------------------------------------------
  // Untrimmed hosts and values, through `str::lines`

  /** The setting lines of a record are those of its five settings, in order. */
  lemma DirectiveLinesUnrolled(c: SshConfig)
    ensures DirectiveLines(c, FieldOrder()) ==
      FieldLines(c, HostName) + FieldLines(c, User) + FieldLines(c, IdentityFile) +
      FieldLines(c, ProxyCommand) + FieldLines(c, Password)
  {
    DirectiveLinesFront(c);
    DirectiveLinesBack(c);
  }

  lemma DirectiveLinesFront(c: SshConfig)
    ensures DirectiveLines(c, FieldOrder()[..3]) ==
      FieldLines(c, HostName) + FieldLines(c, User) + FieldLines(c, IdentityFile)
  {
    assert FieldOrder()[..0] == [];
    DirectiveLinesStep(c, 0);
    DirectiveLinesStep(c, 1);
    DirectiveLinesStep(c, 2);
  }

  lemma DirectiveLinesBack(c: SshConfig)
    ensures DirectiveLines(c, FieldOrder()) ==
      DirectiveLines(c, FieldOrder()[..3]) + FieldLines(c, ProxyCommand) + FieldLines(c, Password)
  {
    assert FieldOrder()[..5] == FieldOrder();
    DirectiveLinesStep(c, 3);
    DirectiveLinesStep(c, 4);
  }


  lemma DirectiveLinesStep(c: SshConfig, k: nat)
    requires k < |FieldOrder()|
    ensures DirectiveLines(c, FieldOrder()[..k + 1]) ==
      DirectiveLines(c, FieldOrder()[..k]) + FieldLines(c, FieldOrder()[k])
  {
    assert FieldOrder()[..k + 1][..k] == FieldOrder()[..k];
  }

  /** A record with one setting is written as its header line and that setting's line. */
  lemma OneSettingLines(host: string, f: Field, v: string)
    ensures BlockLines(Set(New(host), f, v)) == [HeaderLine(host), DirectiveLine(f, v)]
  {
    var c := Set(New(host), f, v);
    DirectiveLinesUnrolled(c);
    assert FieldLines(c, f) == [DirectiveLine(f, v)];
    match f
    case HostName => assert DirectiveLines(c, FieldOrder()) == FieldLines(c, f);
    case User => assert DirectiveLines(c, FieldOrder()) == FieldLines(c, f);
    case IdentityFile => assert DirectiveLines(c, FieldOrder()) == FieldLines(c, f);
    case ProxyCommand => assert DirectiveLines(c, FieldOrder()) == FieldLines(c, f);
    case Password => assert DirectiveLines(c, FieldOrder()) == FieldLines(c, f);
  }

  /**
   * A settingless record whose host is non-empty, holds no line break and
   * does not end in '\r' is read back with its host trimmed.
   */
  lemma UntrimmedHostReadsTrimmed(h: string)
    requires h != [] && LineSafe(HeaderLine(h))
    ensures ParseContent(Some(Serialize(New(h)))) == [New(Trim(h))]
  {
    var line := HeaderLine(h);
    SettinglessText(h);
    assert Terminated([line]) == line + "\n";
    LinesOfTerminated([line]);
    HeaderLineReads(h);
    ParseOne(line);
  }

  /**
   * A record with one setting whose value is non-empty, holds no line break
   * and does not end in '\r' is read back with that value trimmed.
   */
  lemma UntrimmedValueReadsTrimmed(host: string, f: Field, v: string)
    requires Clean(host) && v != [] && LineSafe(DirectiveLine(f, v))
    ensures ParseContent(Some(Serialize(Set(New(host), f, v)))) == [Set(New(host), f, Trim(v))]
  {
    var l1, l2 := HeaderLine(host), DirectiveLine(f, v);
    OneSettingSplits(host, f, v);
    HeaderLineParses(host);
    DirectiveLineReads(f, v);
    ParseEmpty();
    assert [l1] == [] + [l1];
    ParseSnoc([], l1);
    assert [l1, l2] == [l1] + [l2];
    ParseSnoc([l1], l2);
  }

  /** The text of a record with one line-safe setting splits into its two lines. */
  lemma OneSettingSplits(host: string, f: Field, v: string)
    requires Clean(host) && LineSafe(DirectiveLine(f, v))
    ensures Lines(Serialize(Set(New(host), f, v))) == [HeaderLine(host), DirectiveLine(f, v)]
  {
    OneSettingLines(host, f, v);
    HeaderLineParses(host);
    LinesOfTerminated([HeaderLine(host), DirectiveLine(f, v)]);
  }

  lemma HeaderLineSplits(host: string)
    requires Clean(host)
    ensures Lines(HeaderLine(host) + "\n") == [HeaderLine(host)]
  {
    HeaderLineParses(host);
    LinesOfTerminated([HeaderLine(host)]);
    assert Terminated([HeaderLine(host)]) == HeaderLine(host) + "\n";
  }

  /** A line-safe line written with a final '\r' is read without it. */
  lemma LinesFinalCR(l: string)
    requires LineSafe(l)
    ensures Lines(l + "\r\n") == [l]
  {
    var s := l + "\r\n";
    assert s[|l|] == '\r' && s[|l| + 1] == '\n';
    assert forall i :: 0 <= i < |l| ==> s[i] == l[i];
    var k := NewlineIndex(s);
    assert k == |l| + 1;
    assert s[..k] == l + "\r";
    assert s[k + 1..] == [];
  }

  /**
   * A host "\r" is written as `Host \r`, which `str::lines` hands to the
   * parser as `Host `: no header, so the record is lost.
   */
  lemma FinalCRHostLost()
    ensures ParseContent(Some(Serialize(New("\r")))) == []
  {
    FinalCRHostLines();
    EmptyHostDropped();
    ParseOne(HeaderLine(""));
  }

  lemma FinalCRHostLines()
    ensures Lines(Serialize(New("\r"))) == [HeaderLine("")]
  {
    SettinglessText("\r");
    assert HeaderLine("\r") + "\n" == HeaderLine("") + "\r\n";
    LinesFinalCR(HeaderLine(""));
  }

  /** The block of a record whose one setting is "\r": the setting line with its '\r' kept. */
  lemma FinalCRValueText(host: string, f: Field)
    ensures Serialize(Set(New(host), f, "\r")) ==
      (HeaderLine(host) + "\n") + (DirectiveLine(f, "") + "\r\n")
  {
    var l1, l := HeaderLine(host), DirectiveLine(f, "\r");
    OneSettingLines(host, f, "\r");
    assert l == DirectiveLine(f, "") + "\r";
    assert [l1, l][1..] == [l] && [l][1..] == [];
    assert Terminated([l]) == l + "\n";
    assert Terminated([l1, l]) == l1 + "\n" + Terminated([l]);
  }

  /** `str::lines` of that block: the header line and the setting line without its value. */
  lemma FinalCRValueLines(host: string, f: Field)
    requires Clean(host)
    ensures Lines(Serialize(Set(New(host), f, "\r"))) == [HeaderLine(host), DirectiveLine(f, "")]
  {
    var l1, l2 := HeaderLine(host), DirectiveLine(f, "");
    FinalCRValueText(host, f);
    HeaderLineSplits(host);
    LinesAppend(l1 + "\n", l2 + "\r\n");
    EmptyDirectiveSafe(f);
    LinesFinalCR(l2);
  }

  lemma EmptyDirectiveSafe(f: Field)
    ensures LineSafe(DirectiveLine(f, ""))
  {
    var line := DirectiveLine(f, "");
    KeywordOneLine(f);
    assert line[|line| - 1] == ' ';
  }

  /**
   * A value "\r" is written as `  <Keyword> \r`, which `str::lines` hands to
   * the parser as `  <Keyword> `: the setting is not read.
   */
  lemma FinalCRValueDropped(host: string, f: Field)
    requires Clean(host)
    ensures ParseContent(Some(Serialize(Set(New(host), f, "\r")))) == [New(host)]
  {
    var l1, l2 := HeaderLine(host), DirectiveLine(f, "");
    FinalCRValueLines(host, f);
    HeaderLineParses(host);
    EmptyValueDropped(f);
    ParseEmpty();
    assert [l1] == [] + [l1];
    ParseSnoc([], l1);
    assert [l1, l2] == [l1] + [l2];
    ParseSnoc([l1], l2);
  }


  // ---------------------------------------------------------------------
  // Records with an empty host

  /** The block of a record with an empty host has no header line, and splits into its lines. */
  lemma EmptyHostBlockLines(b: SshConfig)
    requires b.host == "" && ValuesClean(b)
    ensures forall k :: 0 <= k < |BlockLines(b)| ==> LineSafe(BlockLines(b)[k]) && HeaderHost(BlockLines(b)[k]).None?
    ensures Lines(Serialize(b)) == BlockLines(b)
  {
    DirectiveLinesSafe(b, FieldOrder());
    var bl := BlockLines(b);
    assert bl[0] == "Host ";
    forall k | 0 <= k < |bl|
      ensures LineSafe(bl[k]) && HeaderHost(bl[k]).None?
    {
      if k > 0 {
        assert bl[k] == DirectiveLines(b, FieldOrder())[k - 1];
      }
    }
    LinesOfTerminated(bl);
  }

  /**
   * A record with an empty host written first is read as no record: its
   * `Host ` line is no header, so its lines are skipped like any lines
   * before the first header, and the records after it read back as written.
   */
  lemma EmptyHostFirstLost(b: SshConfig, cs: seq<SshConfig>)
    requires b.host == "" && ValuesClean(b) && AllWellFormed(cs)
    ensures ParseContent(Some(SerializeAll([b] + cs))) == cs
  {
    EmptyHostBlockLines(b);
    NoHeaderLines(BlockLines(b));
    if cs == [] {
      assert [b] + cs == [b];
      NoHeaderNoRecord(Kinds(BlockLines(b)));
    } else {
      assert ([b] + cs)[1..] == cs;
      TerminatedEndsWithNewline(BlockLines(b));
      LinesJoin(Serialize(b), SerializeAll(cs));
      LinesOfAll(cs);
      var pre := BlockLines(b) + [""];
      assert forall k :: 0 <= k < |pre| ==> HeaderHost(pre[k]).None?;
      ParseSkipsPreamble(pre, AllLines(cs));
      ParseAll(cs);
    }
  }

  /** The lines before the block of the last record: the earlier blocks and their separator. */
  function LeadIn(cs: seq<SshConfig>): seq<string>
  {
    if cs == [] then [] else AllLines(cs) + [""]
  }

  lemma AllLinesSnoc(cs: seq<SshConfig>, a: SshConfig)
    ensures AllLines(cs + [a]) == LeadIn(cs) + BlockLines(a)
  {
    assert (cs + [a])[..|cs|] == cs;
  }

  lemma ParseLeadIn(cs: seq<SshConfig>)
    requires AllWellFormed(cs)
    ensures Parse(LeadIn(cs)) == cs
  {
    if cs == [] {
      ParseEmpty();
    } else {
      ParseAll(cs);
      BlankIgnored();
      ParseIgnoresUnmatched(AllLines(cs), "");
    }
  }

  /** The blank separator and an empty-host header change no setting of the open record. */
  lemma SeparatorAndEmptyHeader(a: SshConfig)
    ensures Kinds(["", HeaderLine("")]) == [Other, Other]
    ensures ApplyKinds(a, [Other, Other]) == a
  {
    BlankIgnored();
    EmptyHostDropped();
    assert [Other, Other][..1] == [Other];
    assert [Other][..0] == [];
  }

  /** What the open record `a` becomes after the setting lines of `b`. */
  lemma MergeBody(a: SshConfig, b: SshConfig)
    requires WellFormed(a) && b.host == "" && ValuesClean(b)
    ensures var r := ApplyKinds(New(a.host), Kinds(MergedBody(a, b)));
      r.host == a.host && forall f: Field :: Get(r, f) == if Get(b, f).Some? then Get(b, f) else Get(a, f)
  {
    var da, db := DirectiveLines(a, FieldOrder()), DirectiveLines(b, FieldOrder());
    var mid := ["", HeaderLine("")];
    assert da + [""] + BlockLines(b) == da + mid + db;
    KindsAppend(da + mid, db);
    KindsAppend(da, mid);
    ApplyKindsAppend(New(a.host), Kinds(da) + Kinds(mid), Kinds(db));
    ApplyKindsAppend(New(a.host), Kinds(da), Kinds(mid));
    BlockRebuilt(a);
    SeparatorAndEmptyHeader(a);
    DirectiveLinesApply(a, b, FieldOrder());
    HostUntouched(a, Kinds(db));
    forall f: Field
      ensures f in FieldOrder()
    {
      FieldOrderComplete(f);
    }
  }

  /** The lines of `a`'s block after its header, then the separator and `b`'s block. */
  function MergedBody(a: SshConfig, b: SshConfig): seq<string>
  {
    DirectiveLines(a, FieldOrder()) + [""] + BlockLines(b)
  }

  lemma Regroup(p: seq<string>, h: string, d: seq<string>, t: seq<string>)
    ensures p + ([h] + d) + [""] + t == p + [h] + (d + [""] + t)
  {
  }

  lemma MergeLinesShape(cs: seq<SshConfig>, a: SshConfig, b: SshConfig)
    ensures AllLines(cs + [a]) + [""] + BlockLines(b) == LeadIn(cs) + [HeaderLine(a.host)] + MergedBody(a, b)
  {
    AllLinesSnoc(cs, a);
    Regroup(LeadIn(cs), HeaderLine(a.host), DirectiveLines(a, FieldOrder()), BlockLines(b));
  }

  lemma LinesOfMerge(cs: seq<SshConfig>, a: SshConfig, b: SshConfig)
    requires AllWellFormed(cs) && WellFormed(a) && b.host == "" && ValuesClean(b)
    ensures Lines(SerializeAll(cs + [a, b])) == LeadIn(cs) + [HeaderLine(a.host)] + MergedBody(a, b)
  {
    var ca := cs + [a];
    assert cs + [a, b] == ca + [b];
    assert AllWellFormed(ca);
    SerializeAllSnoc(ca, b);
    var front := SerializeAll(ca);
    assert SerializeAll(cs + [a, b]) == front + "\n" + Serialize(b);
    SerializeAllEnds(ca);
    EmptyHostBlockLines(b);
    LinesJoin(front, Serialize(b));
    LinesOfAll(ca);
    MergeLinesShape(cs, a, b);
  }

  lemma ParseMerge(cs: seq<SshConfig>, a: SshConfig, b: SshConfig)
    requires AllWellFormed(cs) && WellFormed(a) && b.host == "" && ValuesClean(b)
    ensures Parse(LeadIn(cs) + [HeaderLine(a.host)] + MergedBody(a, b)) ==
      cs + [ApplyKinds(New(a.host), Kinds(MergedBody(a, b)))]
  {
    var body := MergedBody(a, b);
    EmptyHostBlockLines(b);
    HeaderLineParses(a.host);
    DirectiveLinesSafe(a, FieldOrder());
    assert forall k :: 0 <= k < |body| ==> HeaderHost(body[k]).None?;
    ParseBlock(LeadIn(cs), HeaderLine(a.host), body);
    ParseLeadIn(cs);
  }

  /**
   * A record with an empty host written after another record `a` adds no
   * record: its settings overwrite those of `a`, and the settings it lacks
   * keep `a`'s values.
   */
  lemma EmptyHostMerges(cs: seq<SshConfig>, a: SshConfig, b: SshConfig)
    requires AllWellFormed(cs) && WellFormed(a) && b.host == "" && ValuesClean(b)
    ensures var r := ParseContent(Some(SerializeAll(cs + [a, b])));
      |r| == |cs| + 1 && r[..|cs|] == cs && r[|cs|].host == a.host
      && forall f: Field :: Get(r[|cs|], f) == if Get(b, f).Some? then Get(b, f) else Get(a, f)
  {
    LinesOfMerge(cs, a, b);
    ParseMerge(cs, a, b);
    MergeBody(a, b);
  }

  // ---------------------------------------------------------------------
  // What a parse can produce

  /** Trimmed and on one line: what every capture the parse keeps looks like. */
  predicate Normal(v: string)
  {
    Trimmed(v) && '\n' !in v
  }

  predicate NormalRecord(c: SshConfig)
  {
    Normal(c.host) && forall f: Field :: Get(c, f).Some? ==> Normal(Get(c, f).value)
  }

  /** Every capture of a pattern on a single line is trimmed and on one line. */
  lemma CaptureNormal(t: string, kw: string)
    requires '\n' !in t && Capture(t, kw).Some?
    ensures Normal(Capture(t, kw).value)
  {
    var rest := t[|kw|..];
    assert forall i :: 0 <= i < |rest| ==> rest[i] == t[|kw| + i];
    TrimShape(rest);
    TrimKeeps(rest, '\n');
  }

  lemma ClassifyNormal(line: string)
    requires '\n' !in line
    ensures Classify(line).Header? ==> Normal(Classify(line).host)
    ensures Classify(line).Assign? ==> Normal(Classify(line).setting.value)
  {
    if HeaderHost(line).Some? {
      CaptureNormal(line, "Host");
    } else if DirectiveOf(line).Some? {
      var s := DirectiveOf(line).value;
      TrimStartShape(line);
      var t := TrimStart(line);
      assert forall i :: 0 <= i < |t| ==> t[i] == line[LeadingSpace(line) + i];
      CaptureNormal(t, Keyword(s.field));
    }
  }

  predicate NormalKind(kind: LineKind)
  {
    match kind
    case Header(h) => Normal(h)
    case Assign(s) => Normal(s.value)
    case Other => true
  }

  lemma {:induction false} ParseKindsNormal(ks: seq<LineKind>)
    requires forall k :: 0 <= k < |ks| ==> NormalKind(ks[k])
    ensures forall i :: 0 <= i < |ParseKinds(ks)| ==> NormalRecord(ParseKinds(ks)[i])
    decreases |ks|
  {
    if ks != [] {
      var prev := ParseKinds(ks[..|ks| - 1]);
      ParseKindsNormal(ks[..|ks| - 1]);
      match ks[|ks| - 1]
      case Header(h) =>
        assert NormalRecord(New(h));
      case Assign(s) =>
        if prev != [] {
          var last := prev[|prev| - 1];
          assert NormalRecord(last);
          assert NormalRecord(Set(last, s.field, s.value));
        }
      case Other =>
    }
  }

  /** Every record `parse_ssh_config` returns has trimmed, single-line host and values. */
  lemma ParseContentNormal(content: Option<string>)
    ensures forall i :: 0 <= i < |ParseContent(content)| ==> NormalRecord(ParseContent(content)[i])
  {
    if content.Some? {
      var lines := Lines(content.value);
      var ks := Kinds(lines);
      forall k | 0 <= k < |ks|
        ensures NormalKind(ks[k])
      {
        ClassifyNormal(lines[k]);
      }
      ParseKindsNormal(ks);
    }
  }

  /** No host and no present value is empty. */
  predicate FilledIn(c: SshConfig)
  {
    c.host != [] && forall f: Field :: Get(c, f).Some? ==> Get(c, f).value != []
  }

  /**
   * Rewriting what was read leaves the records as they are unless some host
   * or value read was empty: reading, writing and reading again is stable.
   */
  lemma RewriteStable(content: Option<string>)
    requires forall i :: 0 <= i < |ParseContent(content)| ==> FilledIn(ParseContent(content)[i])
    ensures ParseContent(Some(SerializeAll(ParseContent(content)))) == ParseContent(content)
  {
    var cs := ParseContent(content);
    ParseContentNormal(content);
    assert AllWellFormed(cs);
    WrittenReadsBack(cs);
  }
}
