/**
 * The older copy of the client (top-level `tsmart.py`). Its request loop, status
 * poll and control request are the same as the current copy's (Protocol.TSmart);
 * its discovery differs: both rounds always run, and the name is cut at the
 * four-character literal "0x00" rather than at a NUL.
 */
module LegacyProtocol {
  import opened Discovery
  import opened Protocol

  /** The older `async_discover`: both rounds are read to their timeout. */
  method Discover(rounds: seq<seq<Datagram>>) returns (devices: seq<TSmart>, broadcasts: nat)
    requires |rounds| == DiscoveryRounds
    ensures Run(Identities(devices), broadcasts) == Collect(SplitOnLiteral0x00, false, rounds[0], rounds[1])
    ensures forall d :: d in devices ==> fresh(d) && d.Snapshot() == Unset
  {
    assert rounds == [rounds[0], rounds[1]];
    devices := [];
    broadcasts := 0;
    for r := 0 to |rounds|
      invariant broadcasts == r
      invariant Rounds(SplitOnLiteral0x00, false, [], rounds) ==
                Later(Rounds(SplitOnLiteral0x00, false, Identities(devices), rounds[r..]), r)
      invariant forall d :: d in devices ==> fresh(d) && d.Snapshot() == Unset
    {
      assert rounds[r..][0] == rounds[r] && rounds[r..][1..] == rounds[r + 1..];
      broadcasts := broadcasts + 1;
      devices := TSmart.ReceiveWindow(SplitOnLiteral0x00, devices, rounds[r], false);
    }
    assert rounds[|rounds|..] == [];
  }

  /**
   * The older discovery always sends both broadcasts and returns every address with
   * an accepted response exactly once.
   */
  lemma LegacyDiscoveryGuarantees(first: seq<Datagram>, second: seq<Datagram>)
    ensures var run := Collect(SplitOnLiteral0x00, false, first, second);
      var all := first + second;
      && run.broadcasts == DiscoveryRounds
      && Distinct(run.devices)
      && (forall ip :: FirstFrom(all, ip) < |all| <==> ip in IpsOf(run.devices))
  {
    var run := Collect(SplitOnLiteral0x00, false, first, second);
    var all := first + second;
    DiscoveryComplete(SplitOnLiteral0x00, first, second);
    DiscoveryFirstResponseWins(SplitOnLiteral0x00, false, first, second);
    forall ip | ip in IpsOf(run.devices)
      ensures FirstFrom(all, ip) < |all|
    {
      var k :| 0 <= k < |run.devices| && run.devices[k].ip == ip;
    }
  }
}
