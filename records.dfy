/**
 * The list operations behind `find_config_by_host`, `add_ssh_config` and
 * `update_ssh_config`: looking a host up by exact, case-sensitive equality,
 * appending a record, and replacing the first record for a host.
 */
module Records {
  import opened Wrappers
  import opened Record

  /** `iter().position(|c| c.host == host)`: the index of the first record for `host`. */
  function Position(cs: seq<SshConfig>, host: string): (r: Option<nat>)
    ensures r.Some? ==> r.value < |cs| && cs[r.value].host == host
    ensures r.Some? ==> forall j :: 0 <= j < r.value ==> cs[j].host != host
    ensures r.None? ==> forall j :: 0 <= j < |cs| ==> cs[j].host != host
    decreases |cs|
  {
    if cs == [] then None
    else if cs[0].host == host then Some(0)
    else
      match Position(cs[1..], host)
      case Some(i) => Some(i + 1)
      case None => None
  }

  /** `into_iter().find(|c| c.host == host)`: the first record for `host`, if any. */
  function Find(cs: seq<SshConfig>, host: string): (r: Option<SshConfig>)
    ensures r == match Position(cs, host) case Some(i) => Some(cs[i]) case None => None
    decreases |cs|
  {
    if cs == [] then None
    else if cs[0].host == host then Some(cs[0])
    else Find(cs[1..], host)
  }

  /** A lookup succeeds exactly when some record has the host, and then gives the first such record. */
  lemma FindFirstMatch(cs: seq<SshConfig>, host: string)
    ensures Find(cs, host).Some? <==> exists i :: 0 <= i < |cs| && cs[i].host == host
    ensures Find(cs, host).Some? ==>
      exists i :: 0 <= i < |cs| && cs[i] == Find(cs, host).value && cs[i].host == host
        && forall j :: 0 <= j < i ==> cs[j].host != host
  {
    var p := Position(cs, host);
    if p.Some? {
      assert cs[p.value].host == host;
    }
  }

  /** The first index whose record has `host` is the position. */
  lemma PositionIs(cs: seq<SshConfig>, host: string, i: nat)
    requires i < |cs| && cs[i].host == host
    requires forall j :: 0 <= j < i ==> cs[j].host != host
    ensures Position(cs, host) == Some(i)
  {
  }

  lemma PositionNone(cs: seq<SshConfig>, host: string)
    requires forall j :: 0 <= j < |cs| ==> cs[j].host != host
    ensures Position(cs, host) == None
  {
  }

  /** The first index for a host is the same in any longer list that starts with the same records. */
  lemma PositionExtends(cs: seq<SshConfig>, more: seq<SshConfig>, host: string)
    requires Position(cs, host).Some?
    ensures Position(cs + more, host) == Position(cs, host)
  {
    var i := Position(cs, host).value;
    var ab := cs + more;
    assert forall j :: 0 <= j <= i ==> ab[j] == cs[j];
    PositionIs(ab, host, i);
  }

  /**
   * After appending a record (`add_ssh_config` does not check for a
   * duplicate host), a lookup still finds the earlier record for that
   * host if there is one; only otherwise does it find the new record.
   */
  lemma AddThenFind(cs: seq<SshConfig>, c: SshConfig, host: string)
    ensures Find(cs + [c], host) ==
      if Find(cs, host).Some? then Find(cs, host)
      else if c.host == host then Some(c)
      else None
  {
    var ab := cs + [c];
    if Position(cs, host).Some? {
      PositionExtends(cs, [c], host);
      assert ab[Position(cs, host).value] == cs[Position(cs, host).value];
    } else {
      assert forall j :: 0 <= j < |cs| ==> ab[j] == cs[j];
      if c.host == host {
        PositionIs(ab, host, |cs|);
      } else {
        PositionNone(ab, host);
      }
    }
  }

  /**
   * Replacing the first record for `host` by `updated` (`configs[pos] =
   * updated_config`): a lookup of the updated record's host now finds it,
   * unless an earlier record already had that host.
   */
  lemma UpdateThenFind(cs: seq<SshConfig>, host: string, updated: SshConfig)
    requires Position(cs, host).Some?
    ensures Find(cs[Position(cs, host).value := updated], updated.host) ==
      if Position(cs, updated.host).Some? && Position(cs, updated.host).value < Position(cs, host).value
      then Find(cs, updated.host)
      else Some(updated)
  {
    var i := Position(cs, host).value;
    var cs' := cs[i := updated];
    assert forall j :: 0 <= j < |cs| && j != i ==> cs'[j] == cs[j];
    var p := Position(cs, updated.host);
    if p.Some? && p.value < i {
      PositionIs(cs', updated.host, p.value);
    } else {
      PositionIs(cs', updated.host, i);
    }
  }

  /** Replacing the first record for `host` leaves lookups of every other host alone. */
  lemma UpdateKeepsOthers(cs: seq<SshConfig>, host: string, updated: SshConfig, other: string)
    requires Position(cs, host).Some?
    requires other != host && other != updated.host
    ensures Find(cs[Position(cs, host).value := updated], other) == Find(cs, other)
  {
    var i := Position(cs, host).value;
    var cs' := cs[i := updated];
    assert forall j :: 0 <= j < |cs| && j != i ==> cs'[j] == cs[j];
    var p := Position(cs, other);
    if p.Some? {
      PositionIs(cs', other, p.value);
    } else {
      PositionNone(cs', other);
    }
  }
}
