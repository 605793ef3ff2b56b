/**
 * The config file itself and the read-modify-write operations of
 * src/config.rs. Every change reads and parses the whole file, changes the
 * list of records and writes the whole file again from that list.
 */
module ConfigStore {
  import opened Wrappers
  import opened Text
  import opened Record
  import opened Parser
  import opened Records
  import opened RoundTrip

  /** `~/.ssh/config`: its text, or `None` while the file does not exist. */
  class ConfigFile {
    var content: Option<string>

    constructor (initial: Option<string>)
      ensures content == initial
    {
      content := initial;
    }

    /** The records `parse_ssh_config` finds in the file. */
    function Records(): seq<SshConfig>
      reads this
    {
      ParseContent(content)
    }

    /** `parse_ssh_config`: no records for a missing file, else the parse of its lines. */
    method ParseSshConfig() returns (configs: seq<SshConfig>)
      ensures configs == Records()
      ensures content.None? ==> configs == []
    {
      match content
      case None =>
        configs := [];
      case Some(text) =>
        configs := ParseLines(Lines(text));
    }

    /** `find_config_by_host`: the first record whose host equals `host` exactly. */
    method FindConfigByHost(host: string) returns (found: Option<SshConfig>)
      ensures found.Some? <==> exists i :: 0 <= i < |Records()| && Records()[i].host == host
      ensures found.Some? ==> found.value == Records()[Position(Records(), host).value]
    {
      var configs := ParseSshConfig();
      found := Find(configs, host);
      FindFirstMatch(configs, host);
    }

    /**
     * `write_ssh_config`: the file now holds the blocks of `configs`; when
     * their hosts and values are clean, reading it gives `configs` back.
     */
    method WriteSshConfig(configs: seq<SshConfig>)
      modifies this
      ensures content == Some(SerializeAll(configs))
      ensures AllWellFormed(configs) ==> Records() == configs
    {
      var text := BuildContent(configs);
      content := Some(text);
      if AllWellFormed(configs) {
        WrittenReadsBack(configs);
      }
    }

    /** `add_ssh_config`: the file is rewritten with `c` after the records it held. */
    method AddSshConfig(c: SshConfig)
      modifies this
      ensures content == Some(SerializeAll(old(Records()) + [c]))
      ensures AllWellFormed(old(Records()) + [c]) ==> Records() == old(Records()) + [c]
    {
      var configs := ParseSshConfig();
      configs := configs + [c];
      WriteSshConfig(configs);
    }

    /**
     * `update_ssh_config`: true exactly when some record has `host`; then the
     * first such record is replaced and the file rewritten, else the file is
     * left as it was.
     */
    method UpdateSshConfig(host: string, updated: SshConfig) returns (found: bool)
      modifies this
      ensures found <==> exists i :: 0 <= i < |old(Records())| && old(Records())[i].host == host
      ensures found ==> content == Some(SerializeAll(old(Records())[Position(old(Records()), host).value := updated]))
      ensures found && AllWellFormed(old(Records())[Position(old(Records()), host).value := updated]) ==>
        Records() == old(Records())[Position(old(Records()), host).value := updated]
      ensures !found ==> content == old(content)
    {
      var configs := ParseSshConfig();
      var pos := Position(configs, host);
      if pos.Some? {
        configs := configs[pos.value := updated];
        WriteSshConfig(configs);
        found := true;
      } else {
        found := false;
      }
    }
  }
}
