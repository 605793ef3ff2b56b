/**
 * The host record of the config store (`SshConfig` in src/config.rs) and the
 * text it is written as: one block per record, joined into the file content.
 */
module Record {
  import opened Wrappers
  import opened Text

  /** One `Host` block: the host alias and five optional settings. */
  datatype SshConfig = SshConfig(
    host: string,
    hostname: Option<string>,
    user: Option<string>,
    identityFile: Option<string>,
    password: Option<string>,
    proxyCommand: Option<string>)

  /** The optional settings of a record; `Password` is stored as a `#pass` line. */
  datatype Field = HostName | User | IdentityFile | ProxyCommand | Password

  /**
   * The order of the settings: `to_config_string` writes them in this order,
   * and the parse loop tries their patterns in this order.
   */
  function FieldOrder(): seq<Field>
  {
    [HostName, User, IdentityFile, ProxyCommand, Password]
  }

  /** Every setting has its place in the order. */
  lemma FieldOrderComplete(f: Field)
    ensures f in FieldOrder()
  {
    match f
    case HostName => assert FieldOrder()[0] == f;
    case User => assert FieldOrder()[1] == f;
    case IdentityFile => assert FieldOrder()[2] == f;
    case ProxyCommand => assert FieldOrder()[3] == f;
    case Password => assert FieldOrder()[4] == f;
  }

  /** The keyword that introduces a setting's line, on write and on read. */
  function Keyword(f: Field): (kw: string)
    ensures |kw| > 0 && !IsSpace(kw[0])
  {
    match f
    case HostName => "HostName"
    case User => "User"
    case IdentityFile => "IdentityFile"
    case ProxyCommand => "ProxyCommand"
    case Password => "#pass"
  }

  /** No two keywords start with the same character. */
  lemma KeywordsDistinct(f: Field, g: Field)
    ensures Keyword(f)[0] == Keyword(g)[0] ==> f == g
  {
  }

  function Get(c: SshConfig, f: Field): Option<string>
  {
    match f
    case HostName => c.hostname
    case User => c.user
    case IdentityFile => c.identityFile
    case ProxyCommand => c.proxyCommand
    case Password => c.password
  }

  /** Records with the same host and the same settings are the same record. */
  lemma RecordExt(a: SshConfig, b: SshConfig)
    requires a.host == b.host
    requires forall f: Field :: Get(a, f) == Get(b, f)
    ensures a == b
  {
    assert Get(a, HostName) == Get(b, HostName) && Get(a, User) == Get(b, User);
    assert Get(a, IdentityFile) == Get(b, IdentityFile) && Get(a, ProxyCommand) == Get(b, ProxyCommand);
    assert Get(a, Password) == Get(b, Password);
  }

  /** Sets one setting of a record and nothing else. */
  function Set(c: SshConfig, f: Field, v: string): (r: SshConfig)
    ensures r.host == c.host && Get(r, f) == Some(v)
    ensures forall g: Field :: g != f ==> Get(r, g) == Get(c, g)
  {
    match f
    case HostName => c.(hostname := Some(v))
    case User => c.(user := Some(v))
    case IdentityFile => c.(identityFile := Some(v))
    case ProxyCommand => c.(proxyCommand := Some(v))
    case Password => c.(password := Some(v))
  }

  /** `SshConfig::new`: a record for `host` with no settings. */
  function New(host: string): (c: SshConfig)
    ensures c.host == host && forall f: Field :: Get(c, f) == None
  {
    SshConfig(host, None, None, None, None, None)
  }

  // ---------------------------------------------------------------------
  // Writing records

  function HeaderLine(host: string): string
  {
    "Host " + host
  }

  /** A setting's line in a freshly written block: two spaces, keyword, space, value. */
  function DirectiveLine(f: Field, v: string): string
  {
    "  " + Keyword(f) + " " + v
  }

  /** The line of setting `f`, or none when `c` leaves it absent. */
  function FieldLines(c: SshConfig, f: Field): seq<string>
  {
    match Get(c, f)
    case None => []
    case Some(v) => [DirectiveLine(f, v)]
  }

  /** The lines of the settings `fs` that `c` holds, in the order of `fs`. */
  function DirectiveLines(c: SshConfig, fs: seq<Field>): seq<string>
    decreases |fs|
  {
    if fs == [] then [] else DirectiveLines(c, fs[..|fs| - 1]) + FieldLines(c, fs[|fs| - 1])
  }

  /** The lines of a record's block: its `Host` line, then one line per present setting. */
  function BlockLines(c: SshConfig): seq<string>
  {
    [HeaderLine(c.host)] + DirectiveLines(c, FieldOrder())
  }

  /** The text of one record's block, every line ended by '\n'. */
  function Serialize(c: SshConfig): string
  {
    Terminated(BlockLines(c))
  }

  /** One `push_str` of `to_config_string`: the formatted line of a present setting. */
  function FormatDirective(f: Field, v: string): string
  {
    DirectiveLine(f, v) + "\n"
  }

  /** The text `to_config_string` has built after the settings `fs`: pushes in the order of `fs`. */
  function Render(c: SshConfig, fs: seq<Field>): string
    decreases |fs|
  {
    if fs == [] then "Host " + c.host + "\n"
    else
      var done := Render(c, fs[..|fs| - 1]);
      var f := fs[|fs| - 1];
      if Get(c, f).Some? then done + FormatDirective(f, Get(c, f).value) else done
  }

  /** Pushing the formatted lines builds the block: the lines each ended by '\n'. */
  lemma {:induction false} RenderIsTerminated(c: SshConfig, fs: seq<Field>)
    ensures Render(c, fs) == Terminated([HeaderLine(c.host)] + DirectiveLines(c, fs))
    decreases |fs|
  {
    var h := [HeaderLine(c.host)];
    if fs == [] {
      assert h + DirectiveLines(c, fs) == h;
      assert Terminated(h) == HeaderLine(c.host) + "\n";
    } else {
      var init, f := fs[..|fs| - 1], fs[|fs| - 1];
      RenderIsTerminated(c, init);
      assert h + DirectiveLines(c, fs) == (h + DirectiveLines(c, init)) + FieldLines(c, f);
      TerminatedAppend(h + DirectiveLines(c, init), FieldLines(c, f));
      if Get(c, f).Some? {
        var line := DirectiveLine(f, Get(c, f).value);
        assert Terminated([line]) == line + "\n";
      }
    }
  }

  lemma RenderStep(c: SshConfig, k: nat)
    requires k < |FieldOrder()|
    ensures Render(c, FieldOrder()[..k + 1]) ==
      if Get(c, FieldOrder()[k]).Some?
      then Render(c, FieldOrder()[..k]) + FormatDirective(FieldOrder()[k], Get(c, FieldOrder()[k]).value)
      else Render(c, FieldOrder()[..k])
  {
    assert FieldOrder()[..k + 1][..k] == FieldOrder()[..k];
  }

  /** The five pushes of `to_config_string`, one setting at a time. */
  lemma RenderSteps(c: SshConfig)
    ensures Render(c, FieldOrder()[..0]) == "Host " + c.host + "\n"
    ensures Render(c, FieldOrder()[..1]) == if c.hostname.Some?
      then Render(c, FieldOrder()[..0]) + FormatDirective(HostName, c.hostname.value) else Render(c, FieldOrder()[..0])
    ensures Render(c, FieldOrder()[..2]) == if c.user.Some?
      then Render(c, FieldOrder()[..1]) + FormatDirective(User, c.user.value) else Render(c, FieldOrder()[..1])
    ensures Render(c, FieldOrder()[..3]) == if c.identityFile.Some?
      then Render(c, FieldOrder()[..2]) + FormatDirective(IdentityFile, c.identityFile.value) else Render(c, FieldOrder()[..2])
    ensures Render(c, FieldOrder()[..4]) == if c.proxyCommand.Some?
      then Render(c, FieldOrder()[..3]) + FormatDirective(ProxyCommand, c.proxyCommand.value) else Render(c, FieldOrder()[..3])
    ensures Render(c, FieldOrder()) == if c.password.Some?
      then Render(c, FieldOrder()[..4]) + FormatDirective(Password, c.password.value) else Render(c, FieldOrder()[..4])
  {
    assert FieldOrder()[..0] == [];
    RenderStep(c, 0);
    RenderStep(c, 1);
    RenderStep(c, 2);
    RenderStep(c, 3);
    RenderStep(c, 4);
    assert FieldOrder()[..5] == FieldOrder();
  }

  /** `SshConfig::to_config_string`: builds a block with one push per present setting. */
  method ToConfigString(c: SshConfig) returns (config: string)
    ensures config == Serialize(c)
  {
    RenderSteps(c);
    RenderIsTerminated(c, FieldOrder());
    config := "Host " + c.host + "\n";
    if c.hostname.Some? {
      config := config + FormatDirective(HostName, c.hostname.value);
    }
    assert config == Render(c, FieldOrder()[..1]);
    if c.user.Some? {
      config := config + FormatDirective(User, c.user.value);
    }
    assert config == Render(c, FieldOrder()[..2]);
    if c.identityFile.Some? {
      config := config + FormatDirective(IdentityFile, c.identityFile.value);
    }
    assert config == Render(c, FieldOrder()[..3]);
    if c.proxyCommand.Some? {
      config := config + FormatDirective(ProxyCommand, c.proxyCommand.value);
    }
    assert config == Render(c, FieldOrder()[..4]);
    if c.password.Some? {
      config := config + FormatDirective(Password, c.password.value);
    }
  }

  /** The file text for a list of records: their blocks, one '\n' between neighbours. */
  function SerializeAll(cs: seq<SshConfig>): string
    decreases |cs|
  {
    if cs == [] then []
    else if |cs| == 1 then Serialize(cs[0])
    else Serialize(cs[0]) + "\n" + SerializeAll(cs[1..])
  }

  /** Appending a record to the list appends a separator and its block to the text. */
  lemma {:induction false} SerializeAllSnoc(cs: seq<SshConfig>, c: SshConfig)
    ensures SerializeAll(cs + [c]) == if cs == [] then Serialize(c) else SerializeAll(cs) + "\n" + Serialize(c)
    decreases |cs|
  {
    if cs == [] {
      assert cs + [c] == [c];
    } else if |cs| == 1 {
      assert (cs + [c])[1..] == [c];
    } else {
      assert (cs + [c])[1..] == cs[1..] + [c];
      SerializeAllSnoc(cs[1..], c);
    }
  }

  /** The content loop of `write_ssh_config`: a '\n' before every block but the first. */
  method BuildContent(configs: seq<SshConfig>) returns (content: string)
    ensures content == SerializeAll(configs)
  {
    content := "";
    for i := 0 to |configs|
      invariant content == SerializeAll(configs[..i])
    {
      if i > 0 {
        content := content + "\n";
      }
      var block := ToConfigString(configs[i]);
      content := content + block;
      assert configs[..i + 1] == configs[..i] + [configs[i]];
      SerializeAllSnoc(configs[..i], configs[i]);
    }
    assert configs[..|configs|] == configs;
  }
}
