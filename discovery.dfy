/**
 * Discovery, as both copies of the client perform it: up to two broadcast rounds,
 * each reading datagrams until the receive times out. A datagram that is our own
 * broadcast echo or fails validation is dropped; an accepted response from a sender
 * address not seen before in this call becomes a device, so the first accepted
 * response from an address wins. The two copies differ only in how they cut the
 * name out of its 32-byte field (and in that the older one has no early stop).
 *
 * The network is a script: per round, the finite list of datagrams that arrive
 * before the receive times out.
 */
module Discovery {
  import opened Frame
  import opened Layouts
  import opened DeviceId

  type Ip = string

  /** A received datagram: the sender's address and the bytes. */
  datatype Datagram = Datagram(sender: Ip, payload: seq<bv8>)

  /** How the device name is cut out of its 32-byte field. */
  datatype NameRule =
    | CutAtNul            // current copy: text before the first NUL character
    | SplitOnLiteral0x00  // older copy: text before the first occurrence of the four characters "0x00"

  /** What discovery learns about a device: its id string, its address and its name. */
  datatype Discovered = Discovered(deviceId: string, ip: Ip, name: seq<bv8>)

  // ---- validation of one datagram ----

  /** The guards of the receive loop, in order: self-echo, then the common frame checks. */
  function ClassifyDiscovery(data: seq<bv8>): (v: Verdict)
    ensures v == Valid <==>
      |data| != |DiscoveryRequest| && |data| == DiscoveryResponseSize
      && data[0] != 0 && data[0] == 0x01 && ChecksumHolds(data)
  {
    if |data| == |DiscoveryRequest| then SelfEcho
    else Classify(data, DiscoveryRequest[0], DiscoveryResponseSize)
  }

  predicate IsDiscoveryResponse(data: seq<bv8>)
  {
    ClassifyDiscovery(data) == Valid
  }

  /**
   * The receive loop's checks on one datagram, with its XOR accumulator loop.
   * Bytes 1 and 2 are compared with themselves, so they are never checked.
   */
  method CheckResponse(data: seq<bv8>) returns (ok: bool)
    ensures ok == IsDiscoveryResponse(data)
    ensures ok <==>
      |data| != 4 && |data| == 43 && data[0] != 0 && data[0] == 0x01 && ChecksumHolds(data)
  {
    if |data| == |DiscoveryRequest| {
      return false;  // our own broadcast
    }
    if |data| != DiscoveryResponseSize {
      return false;
    }
    if data[0] == 0 {
      return false;
    }
    if data[0] != DiscoveryRequest[0] || data[1] != data[1] || data[2] != data[2] {
      return false;
    }
    var t := XorOf(data[..|data| - 1]);
    if t ^ ChecksumKey != data[|data| - 1] {
      return false;
    }
    return true;
  }

  // ---- the name field ----

  /** Current copy: the bytes before the first NUL. */
  function NameBeforeNul(field: seq<bv8>): (r: seq<bv8>)
    ensures r <= field
    ensures forall i :: 0 <= i < |r| ==> r[i] != 0
    ensures |r| < |field| ==> field[|r|] == 0
  {
    if field == [] || field[0] == 0 then []
    else
      var rest := NameBeforeNul(field[1..]);
      assert [field[0]] + rest == field[..|rest| + 1];
      [field[0]] + rest
  }

  /** The four characters '0', 'x', '0', '0' that the older copy splits on. */
  const Literal0x00: seq<bv8> := [0x30, 0x78, 0x30, 0x30]

  predicate LiteralAt(field: seq<bv8>, i: nat)
  {
    i + 4 <= |field| && field[i..i + 4] == Literal0x00
  }

  lemma LiteralAtShift(field: seq<bv8>, i: nat)
    requires |field| > 0
    ensures LiteralAt(field, i + 1) == LiteralAt(field[1..], i)
  {
    if i + 5 <= |field| {
      assert field[1..][i..i + 4] == field[i + 1..i + 5];
    }
  }

  /** Older copy: the bytes before the first occurrence of the literal "0x00". */
  function NameBeforeLiteral(field: seq<bv8>): (r: seq<bv8>)
    ensures r <= field
    ensures forall i :: 0 <= i < |r| ==> !LiteralAt(field, i)
    ensures |r| < |field| ==> LiteralAt(field, |r|)
  {
    if |field| < 4 then field
    else if field[..4] == Literal0x00 then []
    else
      var rest := NameBeforeLiteral(field[1..]);
      assert [field[0]] + rest == field[..|rest| + 1];
      forall i | 0 < i <= |rest|
        ensures LiteralAt(field, i) == LiteralAt(field[1..], i - 1)
      {
        LiteralAtShift(field, i - 1);
      }
      LiteralAtShift(field, |rest|);
      [field[0]] + rest
  }

  function DecodeName(rule: NameRule, field: seq<bv8>): (r: seq<bv8>)
    ensures r <= field
    ensures rule == CutAtNul ==> forall i :: 0 <= i < |r| ==> r[i] != 0
  {
    match rule
    case CutAtNul => NameBeforeNul(field)
    case SplitOnLiteral0x00 => NameBeforeLiteral(field)
  }

  function Zeros(k: nat): (s: seq<bv8>)
    ensures |s| == k && forall i :: 0 <= i < k ==> s[i] == 0
  {
    seq(k, _ => 0)
  }

  /** For a name padded with NULs to its 32 bytes, the current rule returns the name. */
  lemma PaddedNameCut(p: seq<bv8>)
    requires |p| <= 32 && forall i :: 0 <= i < |p| ==> p[i] != 0
    ensures NameBeforeNul(p + Zeros(32 - |p|)) == p
  {
    var field := p + Zeros(32 - |p|);
    assert field[..|p|] == p;
    assert forall i :: 0 <= i < |p| ==> field[i] == p[i];
    assert |p| < |field| ==> field[|p|] == 0;
  }

  /** The older rule keeps the NUL padding of a name that contains no 'x'. */
  lemma PaddedNameKept(p: seq<bv8>)
    requires |p| <= 32 && forall i :: 0 <= i < |p| ==> p[i] != 0x78
    ensures NameBeforeLiteral(p + Zeros(32 - |p|)) == p + Zeros(32 - |p|)
  {
    var field := p + Zeros(32 - |p|);
    forall i | 0 <= i < |field|
      ensures field[i] != 0x78
    {
      if i < |p| {
        assert field[i] == p[i];
      }
    }
    NoLiteralWithoutX(field);
  }

  /** Where no byte is 'x', the literal "0x00" occurs nowhere. */
  lemma NoLiteralWithoutX(field: seq<bv8>)
    requires forall i :: 0 <= i < |field| ==> field[i] != 0x78
    ensures forall i: nat :: !LiteralAt(field, i)
  {
    forall i: nat | i + 4 <= |field|
      ensures !LiteralAt(field, i)
    {
      assert field[i..i + 4][1] == field[i + 1];
    }
  }

  /** The device a validated response announces, as the source constructs it. */
  function Announce(rule: NameRule, dg: Datagram): (d: Discovered)
    requires |dg.payload| == DiscoveryResponseSize
    ensures d.ip == dg.sender
    ensures d.name <= dg.payload[9..41]
    ensures StripLeadingSpaces(d.deviceId) == Hex(UnpackDiscovery(dg.payload).deviceId as nat)
  {
    var f := UnpackDiscovery(dg.payload);
    FormatIdProperties(f.deviceId as nat);
    Discovered(FormatId(f.deviceId as nat), dg.sender, DecodeName(rule, f.name))
  }

  // ---- one receive window ----

  function IpsOf(devs: seq<Discovered>): set<Ip>
  {
    set d | d in devs :: d.ip
  }

  predicate Distinct(devs: seq<Discovered>)
  {
    forall i, j :: 0 <= i < j < |devs| ==> devs[i].ip != devs[j].ip
  }

  /** The receive loop would add a device for this datagram. */
  predicate Admits(devs: seq<Discovered>, dg: Datagram)
  {
    IsDiscoveryResponse(dg.payload) && dg.sender !in IpsOf(devs)
  }

  /**
   * The devices collected after reading `dgs` in one window, starting from `devs`
   * (the insertion-ordered dictionary keyed by sender address). With stopOnFirst
   * the window ends as soon as a device is added.
   */
  function Scan(rule: NameRule, devs: seq<Discovered>, dgs: seq<Datagram>, stopOnFirst: bool): seq<Discovered>
    decreases |dgs|
  {
    if dgs == [] then devs
    else if Admits(devs, dgs[0]) then
      var grown := devs + [Announce(rule, dgs[0])];
      if stopOnFirst then grown else Scan(rule, grown, dgs[1..], stopOnFirst)
    else Scan(rule, devs, dgs[1..], stopOnFirst)
  }

  /** One step of a receive window that is read from position `j` on. */
  lemma ScanStep(rule: NameRule, devs: seq<Discovered>, dgs: seq<Datagram>, j: nat, stopOnFirst: bool)
    requires j < |dgs|
    ensures Scan(rule, devs, dgs[j..], stopOnFirst) ==
      if !Admits(devs, dgs[j]) then Scan(rule, devs, dgs[j + 1..], stopOnFirst)
      else if stopOnFirst then devs + [Announce(rule, dgs[j])]
      else Scan(rule, devs + [Announce(rule, dgs[j])], dgs[j + 1..], stopOnFirst)
  {
    assert dgs[j..][0] == dgs[j] && dgs[j..][1..] == dgs[j + 1..];
  }

  predicate AcceptedFrom(dg: Datagram, ip: Ip)
  {
    IsDiscoveryResponse(dg.payload) && dg.sender == ip
  }

  /** The index of the first accepted response from `ip`, or |dgs| if there is none. */
  function FirstFrom(dgs: seq<Datagram>, ip: Ip): (j: nat)
    ensures j <= |dgs|
    ensures j < |dgs| ==> AcceptedFrom(dgs[j], ip)
    ensures forall i :: 0 <= i < j ==> !AcceptedFrom(dgs[i], ip)
  {
    if dgs == [] then 0
    else if AcceptedFrom(dgs[0], ip) then 0
    else 1 + FirstFrom(dgs[1..], ip)
  }

  /** The index of the first accepted response from anyone, or |dgs| if there is none. */
  function FirstResponse(dgs: seq<Datagram>): (j: nat)
    ensures j <= |dgs|
    ensures j < |dgs| ==> IsDiscoveryResponse(dgs[j].payload)
    ensures forall i :: 0 <= i < j ==> !IsDiscoveryResponse(dgs[i].payload)
  {
    if dgs == [] then 0
    else if IsDiscoveryResponse(dgs[0].payload) then 0
    else 1 + FirstResponse(dgs[1..])
  }

  lemma IpsOfAppend(devs: seq<Discovered>, d: Discovered)
    ensures IpsOf(devs + [d]) == IpsOf(devs) + {d.ip}
  {
    assert forall x :: x in devs + [d] <==> x in devs || x == d;
  }

  lemma DistinctAppend(devs: seq<Discovered>, d: Discovered)
    requires Distinct(devs) && d.ip !in IpsOf(devs)
    ensures Distinct(devs + [d])
  {
    forall i | 0 <= i < |devs|
      ensures devs[i].ip != d.ip
    {
      assert devs[i] in devs;
    }
  }

  /** A window keeps the devices already known, first and unchanged, and adds no known address again. */
  lemma {:induction false} ScanKeeps(rule: NameRule, devs: seq<Discovered>, dgs: seq<Datagram>, stopOnFirst: bool)
    ensures var res := Scan(rule, devs, dgs, stopOnFirst);
      && devs <= res
      && IpsOf(devs) <= IpsOf(res)
      && (Distinct(devs) ==> Distinct(res))
    decreases |dgs|
  {
    if dgs != [] {
      var next := devs;
      if Admits(devs, dgs[0]) {
        var d := Announce(rule, dgs[0]);
        next := devs + [d];
        IpsOfAppend(devs, d);
        if Distinct(devs) {
          DistinctAppend(devs, d);
        }
      }
      if !(Admits(devs, dgs[0]) && stopOnFirst) {
        ScanKeeps(rule, next, dgs[1..], stopOnFirst);
      }
    }
  }

  /** Every device in `res` past the known `devs` has a new address, which sent an accepted response in `dgs`. */
  predicate AddedFresh(devs: seq<Discovered>, dgs: seq<Datagram>, res: seq<Discovered>)
  {
    forall k :: |devs| <= k < |res| ==> res[k].ip !in IpsOf(devs) && FirstFrom(dgs, res[k].ip) < |dgs|
  }

  /** Each device a window adds has an address not known before, which sent an accepted response in the window. */
  lemma {:induction false} ScanFresh(rule: NameRule, devs: seq<Discovered>, dgs: seq<Datagram>, stopOnFirst: bool)
    ensures AddedFresh(devs, dgs, Scan(rule, devs, dgs, stopOnFirst))
    decreases |dgs|
  {
    var res := Scan(rule, devs, dgs, stopOnFirst);
    if dgs == [] {
      return;
    }
    var dg, rest := dgs[0], dgs[1..];
    if Admits(devs, dg) {
      var d := Announce(rule, dg);
      var grown := devs + [d];
      assert d.ip == dg.sender && FirstFrom(dgs, dg.sender) == 0;
      if stopOnFirst {
        assert res == grown;
      } else {
        assert res == Scan(rule, grown, rest, stopOnFirst);
        ScanKeeps(rule, grown, rest, stopOnFirst);
        ScanFresh(rule, grown, rest, stopOnFirst);
        IpsOfAppend(devs, d);
        forall k | |devs| <= k < |res|
          ensures res[k].ip !in IpsOf(devs) && FirstFrom(dgs, res[k].ip) < |dgs|
        {
          if k == |devs| {
            assert res[k] == grown[k] == d;
          } else {
            assert res[k].ip !in IpsOf(grown);
          }
        }
      }
    } else {
      assert res == Scan(rule, devs, rest, stopOnFirst);
      ScanFresh(rule, devs, rest, stopOnFirst);
      forall k | |devs| <= k < |res|
        ensures FirstFrom(dgs, res[k].ip) == 1 + FirstFrom(rest, res[k].ip)
      {
        assert res[k].ip !in IpsOf(devs);
        assert !AcceptedFrom(dg, res[k].ip);
      }
    }
  }

  /**
   * Every device in `res` past the known `devs` has an address not known before,
   * and is the one announced by the first accepted response from that address.
   */
  predicate AddedFromFirst(rule: NameRule, devs: seq<Discovered>, dgs: seq<Datagram>, res: seq<Discovered>)
  {
    forall k :: |devs| <= k < |res| ==>
      && res[k].ip !in IpsOf(devs)
      && FirstFrom(dgs, res[k].ip) < |dgs|
      && res[k] == Announce(rule, dgs[FirstFrom(dgs, res[k].ip)])
  }

  /**
   * Each device a window adds has an address not known before, and is the one
   * announced by the FIRST accepted response from that address.
   */
  lemma {:induction false} ScanAdds(rule: NameRule, devs: seq<Discovered>, dgs: seq<Datagram>, stopOnFirst: bool)
    ensures AddedFromFirst(rule, devs, dgs, Scan(rule, devs, dgs, stopOnFirst))
    decreases |dgs|
  {
    if dgs == [] {
      return;
    }
    var dg, rest := dgs[0], dgs[1..];
    if Admits(devs, dg) {
      var grown := devs + [Announce(rule, dg)];
      if stopOnFirst {
        assert Scan(rule, devs, dgs, stopOnFirst) == grown;
        assert FirstFrom(dgs, dg.sender) == 0;
      } else {
        ScanAdds(rule, grown, rest, stopOnFirst);
        AddedAfterAdmitted(rule, devs, dgs);
      }
    } else {
      ScanAdds(rule, devs, rest, stopOnFirst);
      AddedAfterSkipped(rule, devs, dgs, stopOnFirst);
    }
  }

  /** ScanAdds' step over a first response that adds a device, without early stop. */
  lemma AddedAfterAdmitted(rule: NameRule, devs: seq<Discovered>, dgs: seq<Datagram>)
    requires dgs != [] && Admits(devs, dgs[0])
    requires var grown := devs + [Announce(rule, dgs[0])];
      AddedFromFirst(rule, grown, dgs[1..], Scan(rule, grown, dgs[1..], false))
    ensures AddedFromFirst(rule, devs, dgs, Scan(rule, devs, dgs, false))
  {
    var dg, rest := dgs[0], dgs[1..];
    var d := Announce(rule, dg);
    var grown := devs + [d];
    var res := Scan(rule, grown, rest, false);
    assert Scan(rule, devs, dgs, false) == res;
    assert FirstFrom(dgs, dg.sender) == 0;
    ScanKeeps(rule, grown, rest, false);
    IpsOfAppend(devs, d);
    forall k | |devs| <= k < |res|
      ensures res[k].ip !in IpsOf(devs)
      ensures FirstFrom(dgs, res[k].ip) < |dgs| && res[k] == Announce(rule, dgs[FirstFrom(dgs, res[k].ip)])
    {
      if k == |devs| {
        assert res[k] == grown[k] == d;
      } else {
        var ip := res[k].ip;
        assert ip !in IpsOf(grown);
        assert FirstFrom(dgs, ip) == 1 + FirstFrom(rest, ip);
      }
    }
  }

  /** ScanAdds' step over a first response that adds nothing. */
  lemma AddedAfterSkipped(rule: NameRule, devs: seq<Discovered>, dgs: seq<Datagram>, stopOnFirst: bool)
    requires dgs != [] && !Admits(devs, dgs[0])
    requires AddedFromFirst(rule, devs, dgs[1..], Scan(rule, devs, dgs[1..], stopOnFirst))
    ensures AddedFromFirst(rule, devs, dgs, Scan(rule, devs, dgs, stopOnFirst))
  {
    var dg, rest := dgs[0], dgs[1..];
    var res := Scan(rule, devs, rest, stopOnFirst);
    assert Scan(rule, devs, dgs, stopOnFirst) == res;
    forall k | |devs| <= k < |res|
      ensures FirstFrom(dgs, res[k].ip) == 1 + FirstFrom(rest, res[k].ip)
    {
      assert res[k].ip !in IpsOf(devs);
      assert !AcceptedFrom(dg, res[k].ip);
    }
  }

  /** The devices in `res` past the known `devs` are in the order of their first accepted responses in `dgs`. */
  predicate AddedInOrder(devs: seq<Discovered>, dgs: seq<Datagram>, res: seq<Discovered>)
  {
    forall k, l :: |devs| <= k < l < |res| ==> FirstFrom(dgs, res[k].ip) < FirstFrom(dgs, res[l].ip)
  }

  /** A window adds devices in the order of the first accepted responses from their addresses. */
  lemma {:induction false} ScanOrder(rule: NameRule, devs: seq<Discovered>, dgs: seq<Datagram>, stopOnFirst: bool)
    ensures AddedInOrder(devs, dgs, Scan(rule, devs, dgs, stopOnFirst))
    decreases |dgs|
  {
    if dgs == [] {
      return;
    }
    var dg, rest := dgs[0], dgs[1..];
    if Admits(devs, dg) {
      if stopOnFirst {
        assert |Scan(rule, devs, dgs, stopOnFirst)| == |devs| + 1;
      } else {
        ScanOrder(rule, devs + [Announce(rule, dg)], rest, stopOnFirst);
        OrderAfterAdmitted(rule, devs, dgs);
      }
    } else {
      ScanOrder(rule, devs, rest, stopOnFirst);
      OrderAfterSkipped(rule, devs, dgs, stopOnFirst);
    }
  }

  /** ScanOrder's step over a first response that adds a device, without early stop. */
  lemma OrderAfterAdmitted(rule: NameRule, devs: seq<Discovered>, dgs: seq<Datagram>)
    requires dgs != [] && Admits(devs, dgs[0])
    requires var grown := devs + [Announce(rule, dgs[0])];
      AddedInOrder(grown, dgs[1..], Scan(rule, grown, dgs[1..], false))
    ensures AddedInOrder(devs, dgs, Scan(rule, devs, dgs, false))
  {
    var dg, rest := dgs[0], dgs[1..];
    var grown := devs + [Announce(rule, dg)];
    var res := Scan(rule, grown, rest, false);
    assert Scan(rule, devs, dgs, false) == res;
    ScanFresh(rule, grown, rest, false);
    ScanKeeps(rule, grown, rest, false);
    assert res[|devs|] == grown[|devs|];
    IpsOfAppend(devs, Announce(rule, dg));
    forall k | |devs| <= k < |res|
      ensures FirstFrom(dgs, res[k].ip) == if k == |devs| then 0 else 1 + FirstFrom(rest, res[k].ip)
    {
      if k > |devs| {
        assert res[k].ip !in IpsOf(grown);
        assert res[k].ip != dg.sender;
      }
    }
  }

  /** ScanOrder's step over a first response that adds nothing. */
  lemma OrderAfterSkipped(rule: NameRule, devs: seq<Discovered>, dgs: seq<Datagram>, stopOnFirst: bool)
    requires dgs != [] && !Admits(devs, dgs[0])
    requires AddedInOrder(devs, dgs[1..], Scan(rule, devs, dgs[1..], stopOnFirst))
    ensures AddedInOrder(devs, dgs, Scan(rule, devs, dgs, stopOnFirst))
  {
    var dg, rest := dgs[0], dgs[1..];
    var res := Scan(rule, devs, rest, stopOnFirst);
    assert Scan(rule, devs, dgs, stopOnFirst) == res;
    ScanFresh(rule, devs, rest, stopOnFirst);
    forall k | |devs| <= k < |res|
      ensures FirstFrom(dgs, res[k].ip) == 1 + FirstFrom(rest, res[k].ip)
    {
      assert res[k].ip !in IpsOf(devs);
      assert !AcceptedFrom(dg, res[k].ip);
    }
  }

  /** Without early stop, every address that sent an accepted response ends up known. */
  lemma {:induction false} ScanComplete(rule: NameRule, devs: seq<Discovered>, dgs: seq<Datagram>)
    ensures forall ip :: FirstFrom(dgs, ip) < |dgs| ==> ip in IpsOf(Scan(rule, devs, dgs, false))
    decreases |dgs|
  {
    if dgs == [] {
      return;
    }
    var res := Scan(rule, devs, dgs, false);
    var dg, rest := dgs[0], dgs[1..];
    var next := if Admits(devs, dg) then devs + [Announce(rule, dg)] else devs;
    assert res == Scan(rule, next, rest, false);
    ScanComplete(rule, next, rest);
    ScanKeeps(rule, next, rest, false);
    if Admits(devs, dg) {
      IpsOfAppend(devs, Announce(rule, dg));
    }
    forall ip | FirstFrom(dgs, ip) < |dgs|
      ensures ip in IpsOf(res)
    {
      if !AcceptedFrom(dg, ip) {
        assert FirstFrom(rest, ip) < |rest|;
      } else {
        assert ip in IpsOf(next);
      }
    }
  }

  /** With early stop and nothing collected yet, a window yields the first accepted response only. */
  lemma {:induction false} ScanStopsAtFirst(rule: NameRule, dgs: seq<Datagram>)
    ensures Scan(rule, [], dgs, true) ==
      if FirstResponse(dgs) < |dgs| then [Announce(rule, dgs[FirstResponse(dgs)])] else []
    decreases |dgs|
  {
    if dgs != [] {
      assert IpsOf([]) == {};
      ScanStopsAtFirst(rule, dgs[1..]);
    }
  }

  /** Without early stop, reading two lists one after the other is reading their concatenation. */
  lemma {:induction false} ScanAppend(rule: NameRule, devs: seq<Discovered>, a: seq<Datagram>, b: seq<Datagram>)
    ensures Scan(rule, devs, a + b, false) == Scan(rule, Scan(rule, devs, a, false), b, false)
    decreases |a|
  {
    if a == [] {
      assert a + b == b;
    } else {
      assert (a + b)[0] == a[0] && (a + b)[1..] == a[1..] + b;
      var next := if Admits(devs, a[0]) then devs + [Announce(rule, a[0])] else devs;
      ScanAppend(rule, next, a[1..], b);
    }
  }

  // ---- the whole call ----

  /** The result of a discovery call: the devices in insertion order and the number of broadcasts sent. */
  datatype Run = Run(devices: seq<Discovered>, broadcasts: nat)

  const DiscoveryRounds: nat := 2

  /**
   * The round loop: broadcast, read a window; with stopOnFirst, stop sending further
   * rounds as soon as any device is known.
   */
  function Rounds(rule: NameRule, stopOnFirst: bool, devs: seq<Discovered>, rounds: seq<seq<Datagram>>): Run
    decreases |rounds|
  {
    if rounds == [] then Run(devs, 0)
    else
      var after := Scan(rule, devs, rounds[0], stopOnFirst);
      if stopOnFirst && |after| > 0 then Run(after, 1)
      else
        var rest := Rounds(rule, stopOnFirst, after, rounds[1..]);
        Run(rest.devices, rest.broadcasts + 1)
  }

  /** A discovery call whose two rounds receive `first` and `second`. */
  function Collect(rule: NameRule, stopOnFirst: bool, first: seq<Datagram>, second: seq<Datagram>): Run
  {
    Rounds(rule, stopOnFirst, [], [first, second])
  }

  /** The first accepted response in a concatenation is found in the first part if it has one. */
  lemma {:induction false} FirstResponseAppend(a: seq<Datagram>, b: seq<Datagram>)
    ensures FirstResponse(a + b) == if FirstResponse(a) < |a| then FirstResponse(a) else |a| + FirstResponse(b)
    decreases |a|
  {
    if a == [] {
      assert a + b == b;
    } else {
      assert (a + b)[0] == a[0] && (a + b)[1..] == a[1..] + b;
      FirstResponseAppend(a[1..], b);
    }
  }

  /** Unfolding the round loop over two rounds. */
  lemma RoundsOfTwo(rule: NameRule, stopOnFirst: bool, first: seq<Datagram>, second: seq<Datagram>)
    ensures var after := Scan(rule, [], first, stopOnFirst);
      var after2 := Scan(rule, after, second, stopOnFirst);
      Collect(rule, stopOnFirst, first, second) ==
        if stopOnFirst && |after| > 0 then Run(after, 1) else Run(after2, 2)
  {
    var rounds := [first, second];
    assert rounds[0] == first && rounds[1..] == [second] && [second][0] == second && [second][1..] == [];
    var after := Scan(rule, [], first, stopOnFirst);
    var after2 := Scan(rule, after, second, stopOnFirst);
    assert Rounds(rule, stopOnFirst, after2, []) == Run(after2, 0);
    assert Rounds(rule, stopOnFirst, after, [second]) == Run(after2, 1);
  }

  /**
   * The two rounds behave as one window over everything received; the call sends
   * both broadcasts unless it stops early after the first round.
   */
  lemma CollectIsOneScan(rule: NameRule, stopOnFirst: bool, first: seq<Datagram>, second: seq<Datagram>)
    ensures Collect(rule, stopOnFirst, first, second).devices == Scan(rule, [], first + second, stopOnFirst)
    ensures Collect(rule, stopOnFirst, first, second).broadcasts ==
      if stopOnFirst && FirstResponse(first) < |first| then 1 else DiscoveryRounds
  {
    RoundsOfTwo(rule, stopOnFirst, first, second);
    if stopOnFirst {
      StoppedScanOfTwo(rule, first, second);
    } else {
      ScanAppend(rule, [], first, second);
    }
  }

  /** With early stop, the device kept from two windows is the one scan over both would keep. */
  lemma StoppedScanOfTwo(rule: NameRule, first: seq<Datagram>, second: seq<Datagram>)
    ensures (if |Scan(rule, [], first, true)| > 0 then Scan(rule, [], first, true) else Scan(rule, [], second, true))
      == Scan(rule, [], first + second, true)
    ensures |Scan(rule, [], first, true)| > 0 <==> FirstResponse(first) < |first|
  {
    ScanStopsAtFirst(rule, first);
    ScanStopsAtFirst(rule, second);
    ScanStopsAtFirst(rule, first + second);
    FirstResponseAppend(first, second);
    if FirstResponse(first) < |first| {
      assert (first + second)[FirstResponse(first)] == first[FirstResponse(first)];
    } else if FirstResponse(second) < |second| {
      assert (first + second)[|first| + FirstResponse(second)] == second[FirstResponse(second)];
    }
  }

  /**
   * Discovery's guarantees over everything received in both rounds: at most one
   * device per sender address; each device is announced by the first accepted
   * response from its address; devices come in the order of those first responses;
   * one or two broadcasts are sent.
   */
  lemma DiscoveryFirstResponseWins(rule: NameRule, stopOnFirst: bool, first: seq<Datagram>, second: seq<Datagram>)
    ensures var run := Collect(rule, stopOnFirst, first, second);
      var all := first + second;
      && 1 <= run.broadcasts <= DiscoveryRounds
      && Distinct(run.devices)
      && (forall k :: 0 <= k < |run.devices| ==>
            FirstFrom(all, run.devices[k].ip) < |all|
            && run.devices[k] == Announce(rule, all[FirstFrom(all, run.devices[k].ip)]))
      && (forall k, l :: 0 <= k < l < |run.devices| ==>
            FirstFrom(all, run.devices[k].ip) < FirstFrom(all, run.devices[l].ip))
  {
    CollectIsOneScan(rule, stopOnFirst, first, second);
    ScanKeeps(rule, [], first + second, stopOnFirst);
    ScanAdds(rule, [], first + second, stopOnFirst);
    ScanOrder(rule, [], first + second, stopOnFirst);
  }

  /** Without early stop: both rounds run and every address with an accepted response is returned. */
  lemma DiscoveryComplete(rule: NameRule, first: seq<Datagram>, second: seq<Datagram>)
    ensures var run := Collect(rule, false, first, second);
      && run.broadcasts == DiscoveryRounds
      && forall ip :: FirstFrom(first + second, ip) < |first + second| ==> ip in IpsOf(run.devices)
  {
    CollectIsOneScan(rule, false, first, second);
    ScanComplete(rule, [], first + second);
  }

  /**
   * With early stop: at most one device, the one of the first accepted response
   * overall, and no second broadcast once the first round produced it.
   */
  lemma DiscoveryStopOnFirst(rule: NameRule, first: seq<Datagram>, second: seq<Datagram>)
    ensures var run := Collect(rule, true, first, second);
      var all := first + second;
      && run.devices == (if FirstResponse(all) < |all| then [Announce(rule, all[FirstResponse(all)])] else [])
      && (run.broadcasts == 1 <==> FirstResponse(first) < |first|)
  {
    CollectIsOneScan(rule, true, first, second);
    ScanStopsAtFirst(rule, first + second);
  }

  /** "Heater1" */
  const Heater1: seq<bv8> := [0x48, 0x65, 0x61, 0x74, 0x65, 0x72, 0x31]

  lemma Heater1Bytes()
    ensures |Heater1| == 7
    ensures forall i :: 0 <= i < |Heater1| ==> Heater1[i] != 0 && Heater1[i] != 0x78
  {
  }

  /** A response announcing id 0x01A2 and the name "Heater1" padded with NULs, checksummed. */
  function CraftedResponse(deviceType: U16, timezone: bv8): (frame: seq<bv8>)
    ensures |frame| == DiscoveryResponseSize
  {
    WithChecksum(PackDiscovery(DiscoveryFields(0x01, 0, 0, deviceType, 0x01A2, Heater1 + Zeros(25), timezone, 0)))
  }

  lemma CraftedFields(deviceType: U16, timezone: bv8)
    ensures var f := UnpackDiscovery(CraftedResponse(deviceType, timezone));
      f.cmd == 0x01 && f.deviceId == 0x01A2 && f.name == Heater1 + Zeros(25)
  {
    var fields := DiscoveryFields(0x01, 0, 0, deviceType, 0x01A2, Heater1 + Zeros(25), timezone, 0);
    var packed := PackDiscovery(fields);
    var frame := WithChecksum(packed);
    UnpackPackDiscovery(fields);
    assert frame[..42] == packed[..42];
    assert frame[5..9] == packed[5..9];
    assert frame[9..41] == packed[9..41];
  }

  /**
   * The crafted response is accepted and yields the id string " 1A2" (space padded,
   * as "%4X" does); the current rule yields the name "Heater1", the older rule keeps
   * the padding.
   */
  lemma CraftedAnnouncement(ip: Ip, deviceType: U16, timezone: bv8)
    ensures IsDiscoveryResponse(CraftedResponse(deviceType, timezone))
    ensures Announce(CutAtNul, Datagram(ip, CraftedResponse(deviceType, timezone))) == Discovered(" 1A2", ip, Heater1)
    ensures Announce(SplitOnLiteral0x00, Datagram(ip, CraftedResponse(deviceType, timezone)))
            == Discovered(" 1A2", ip, Heater1 + Zeros(25))
  {
    var frame := CraftedResponse(deviceType, timezone);
    CraftedFields(deviceType, timezone);
    var f := UnpackDiscovery(frame);
    assert frame[0] == 0x01;
    assert ClassifyDiscovery(frame) == Valid;
    FormatIdExamples();
    assert FormatId(f.deviceId as nat) == " 1A2";
    Heater1Bytes();
    PaddedNameCut(Heater1);
    assert DecodeName(CutAtNul, f.name) == Heater1;
    PaddedNameKept(Heater1);
    assert DecodeName(SplitOnLiteral0x00, f.name) == Heater1 + Zeros(25);
  }
}
