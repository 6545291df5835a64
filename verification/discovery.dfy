/** Node discovery on one IP address (`discoverNodesOnIp` in src/discovery.js).

    The eight existence probes run concurrently in the source and are awaited together;
    their outcomes are an input here, one per slot, in slot order. */
module Discovery {
  import opened Options
  import opened Text
  import FluxApi

  const BaseUiPort: nat := 16126
  const MaxNodesPerIp: nat := 8

  /** The UI port of slot `i`; slots are ten ports apart. */
  function UiPort(i: nat): nat {
    BaseUiPort + 10 * i
  }

  /** The API port of slot `i`, one above its UI port. */
  function ApiPort(i: nat): nat {
    UiPort(i) + 1
  }

  /** A managed node as discovery creates it. */
  datatype Node = Node(
    id: string,
    name: string,
    uiUrl: string,
    apiUrl: string,
    token: Option<string>,
    automationArmed: bool)

  function Url(ip: string, port: nat): string {
    "http://" + ip + ":" + NatToString(port)
  }

  /** The one-based, two-digit slot number of slot `i`. */
  function SlotNumber(i: nat): string {
    Pad2(NatToString(i + 1))
  }

  function SlotId(ipPrefix: string, i: nat): string {
    ipPrefix + "-node" + SlotNumber(i)
  }

  function SlotName(ipPrefix: string, i: nat): string {
    ipPrefix + "-Node" + SlotNumber(i)
  }

  /** The node found at slot `i`: not logged in, no automation armed. */
  function SlotNode(ip: string, ipPrefix: string, i: nat): (n: Node)
    ensures n.token.None? && !n.automationArmed
  {
    Node(SlotId(ipPrefix, i), SlotName(ipPrefix, i), Url(ip, UiPort(i)), Url(ip, ApiPort(i)), None, false)
  }

  /** The slots whose probe found a node, in slot order. */
  function FoundSlots(found: seq<bool>): seq<nat>
  {
    if |found| == 0 then []
    else
      var last := |found| - 1;
      FoundSlots(found[..last]) + (if found[last] then [last] else [])
  }

  /** The existence verdict of each probe. */
  function Verdicts(probes: seq<FluxApi.FetchOutcome>): (found: seq<bool>)
    ensures |found| == |probes|
    ensures forall i :: 0 <= i < |probes| ==> found[i] == FluxApi.NodeExists(probes[i])
  {
    seq(|probes|, i requires 0 <= i < |probes| => FluxApi.NodeExists(probes[i]))
  }

  /** The slot number of slot `i` reads back as `i + 1`, so different slots differ. */
  lemma SlotNumberDistinct(i: nat, j: nat)
    requires i < MaxNodesPerIp && j < MaxNodesPerIp && i != j
    ensures SlotNumber(i) != SlotNumber(j)
    ensures |SlotNumber(i)| == 2
  {
    Pad2TwoDigits(i + 1);
    Pad2TwoDigits(j + 1);
  }

  lemma SlotIdDistinct(ipPrefix: string, i: nat, j: nat)
    requires i < MaxNodesPerIp && j < MaxNodesPerIp && i != j
    ensures SlotId(ipPrefix, i) != SlotId(ipPrefix, j)
  {
    SlotNumberDistinct(i, j);
    SlotNumberDistinct(j, i);
    var a := SlotId(ipPrefix, i);
    var b := SlotId(ipPrefix, j);
    var n := |ipPrefix| + 5;
    assert a[n..] == SlotNumber(i);
    assert b[n..] == SlotNumber(j);
  }

  /** The nodes of the given slots, in the same order. */
  function SlotNodes(ip: string, ipPrefix: string, slots: seq<nat>): (nodes: seq<Node>)
    ensures |nodes| == |slots|
    ensures forall k :: 0 <= k < |slots| ==> nodes[k] == SlotNode(ip, ipPrefix, slots[k])
  {
    if |slots| == 0 then []
    else SlotNodes(ip, ipPrefix, slots[..|slots| - 1]) + [SlotNode(ip, ipPrefix, slots[|slots| - 1])]
  }

  /** `discoverNodesOnIp(ip, ipPrefix)`: probe the eight slots and keep, in slot order,
      a node for every slot whose probe did not throw. */
  method DiscoverNodesOnIp(ip: string, ipPrefix: string, probes: seq<FluxApi.FetchOutcome>)
    returns (nodes: seq<Node>)
    requires |probes| == MaxNodesPerIp
    ensures nodes == SlotNodes(ip, ipPrefix, FoundSlots(Verdicts(probes)))
    ensures |nodes| <= MaxNodesPerIp
    ensures forall k, l :: 0 <= k < l < |nodes| ==> nodes[k].id != nodes[l].id
  {
    var found := Verdicts(probes);
    nodes := [];
    var i := 0;
    while i < MaxNodesPerIp
      invariant 0 <= i <= MaxNodesPerIp
      invariant nodes == SlotNodes(ip, ipPrefix, FoundSlots(found[..i]))
    {
      assert found[..i + 1][..i] == found[..i];
      if FluxApi.NodeExists(probes[i]) {
        var slots := FoundSlots(found[..i]);
        assert (slots + [i])[..|slots|] == slots;
        nodes := nodes + [SlotNode(ip, ipPrefix, i)];
      }
      i := i + 1;
    }
    assert found[..MaxNodesPerIp] == found;
    SlotCount(found);
    IdsDistinct(ip, ipPrefix, found);
  }

  /** Two nodes found on one IP never share an id. */
  lemma IdsDistinct(ip: string, ipPrefix: string, found: seq<bool>)
    requires |found| <= MaxNodesPerIp
    ensures var nodes := SlotNodes(ip, ipPrefix, FoundSlots(found));
            forall k, l :: 0 <= k < l < |nodes| ==> nodes[k].id != nodes[l].id
  {
    var slots := FoundSlots(found);
    FoundSlotsIsFilter(found);
    forall k, l | 0 <= k < l < |slots|
      ensures SlotId(ipPrefix, slots[k]) != SlotId(ipPrefix, slots[l])
    {
      SlotIdDistinct(ipPrefix, slots[k], slots[l]);
    }
  }

  /** `FoundSlots` is the order-preserving filter of the answering slots: it lists only
      answering slots, in strictly increasing order, and misses none of them. */
  lemma {:induction false} FoundSlotsIsFilter(found: seq<bool>)
    ensures forall k :: 0 <= k < |FoundSlots(found)| ==> FoundSlots(found)[k] < |found| && found[FoundSlots(found)[k]]
    ensures forall k, l :: 0 <= k < l < |FoundSlots(found)| ==> FoundSlots(found)[k] < FoundSlots(found)[l]
    ensures forall i :: 0 <= i < |found| && found[i] ==> i in FoundSlots(found)
  {
    FoundSlotsSound(found);
    FoundSlotsComplete(found);
  }

  lemma {:induction false} FoundSlotsSound(found: seq<bool>)
    ensures forall k :: 0 <= k < |FoundSlots(found)| ==> FoundSlots(found)[k] < |found| && found[FoundSlots(found)[k]]
    ensures forall k, l :: 0 <= k < l < |FoundSlots(found)| ==> FoundSlots(found)[k] < FoundSlots(found)[l]
  {
    if |found| > 0 {
      var last := |found| - 1;
      var init := found[..last];
      FoundSlotsSound(init);
      var prev := FoundSlots(init);
      assert FoundSlots(found) == prev + (if found[last] then [last] else []);
      forall k | 0 <= k < |prev|
        ensures prev[k] < last && found[prev[k]]
      {
        assert init[prev[k]] == found[prev[k]];
      }
    }
  }

  lemma {:induction false} FoundSlotsComplete(found: seq<bool>)
    ensures forall i :: 0 <= i < |found| && found[i] ==> i in FoundSlots(found)
  {
    if |found| > 0 {
      var last := |found| - 1;
      var init := found[..last];
      FoundSlotsComplete(init);
      assert FoundSlots(found) == FoundSlots(init) + (if found[last] then [last] else []);
      forall i | 0 <= i < |found| && found[i]
        ensures i in FoundSlots(found)
      {
        if i < last {
          assert init[i] == found[i];
        }
      }
    }
  }

  /** At most one slot per probe is found. */
  lemma {:induction false} SlotCount(found: seq<bool>)
    ensures |FoundSlots(found)| <= |found|
  {
    if |found| > 0 {
      SlotCount(found[..|found| - 1]);
    }
  }

  /** When every probe throws, nothing is found. */
  lemma {:induction false} NoneFoundWhenAllFail(found: seq<bool>)
    requires forall i :: 0 <= i < |found| ==> !found[i]
    ensures FoundSlots(found) == []
  {
    if |found| > 0 {
      NoneFoundWhenAllFail(found[..|found| - 1]);
    }
  }

  /** Probing one more slot appends it when it answers. */
  lemma FoundSlotsSnoc(found: seq<bool>, b: bool)
    ensures FoundSlots(found + [b]) == FoundSlots(found) + (if b then [|found|] else [])
  {
    assert (found + [b])[..|found|] == found;
  }

  /** With only the first and fourth slot answering, exactly those two are found, in order. */
  lemma FirstAndFourthFound()
    ensures FoundSlots([true, false, false, true, false, false, false, false]) == [0, 3]
  {
    var f: seq<bool> := [];
    FoundSlotsSnoc(f, true);
    f := f + [true];
    FoundSlotsSnoc(f, false);
    f := f + [false];
    FoundSlotsSnoc(f, false);
    f := f + [false];
    FoundSlotsSnoc(f, true);
    f := f + [true];
    FoundSlotsSnoc(f, false);
    f := f + [false];
    FoundSlotsSnoc(f, false);
    f := f + [false];
    FoundSlotsSnoc(f, false);
    f := f + [false];
    FoundSlotsSnoc(f, false);
    f := f + [false];
    assert f == [true, false, false, true, false, false, false, false];
  }

  /** The first and fourth slot are named `node01` and `node04`. */
  lemma FirstAndFourthIds(ipPrefix: string)
    ensures SlotId(ipPrefix, 0) == ipPrefix + "-node01"
    ensures SlotId(ipPrefix, 3) == ipPrefix + "-node04"
  {
    assert NatToString(1) == "1";
    assert NatToString(4) == "4";
  }

  /** Slot `i` is reached on UI port 16126 + 10i and API port 16127 + 10i, and its two-digit
      number reads back as `i + 1`. */
  lemma SlotLayout(ip: string, ipPrefix: string, i: nat)
    requires i < MaxNodesPerIp
    ensures SlotNode(ip, ipPrefix, i).uiUrl == "http://" + ip + ":" + NatToString(16126 + 10 * i)
    ensures SlotNode(ip, ipPrefix, i).apiUrl == "http://" + ip + ":" + NatToString(16127 + 10 * i)
    ensures |SlotNumber(i)| == 2 && NumeralValue(SlotNumber(i), 10) == i + 1
    ensures SlotNode(ip, ipPrefix, i).id == ipPrefix + "-node" + SlotNumber(i)
    ensures SlotNode(ip, ipPrefix, i).name == ipPrefix + "-Node" + SlotNumber(i)
  {
    Pad2TwoDigits(i + 1);
  }

  /** The address of a port on one IP names the port. */
  lemma UrlNamesPort(ip: string, p: nat, q: nat)
    ensures Url(ip, p) == Url(ip, q) <==> p == q
  {
    if Url(ip, p) == Url(ip, q) {
      var n := |"http://" + ip + ":"|;
      assert Url(ip, p)[n..] == NatToString(p);
      assert Url(ip, q)[n..] == NatToString(q);
      NatToStringInjective(p, q);
    }
  }

  /** No two nodes found on one IP share an address: their UI addresses differ, their API
      addresses differ, and no node's API address is another's (or its own) UI address. */
  lemma UrlsDistinct(ip: string, ipPrefix: string, found: seq<bool>)
    requires |found| <= MaxNodesPerIp
    ensures var nodes := SlotNodes(ip, ipPrefix, FoundSlots(found));
            && (forall k, l :: 0 <= k < l < |nodes| ==> nodes[k].uiUrl != nodes[l].uiUrl && nodes[k].apiUrl != nodes[l].apiUrl)
            && (forall k, l :: 0 <= k < |nodes| && 0 <= l < |nodes| ==> nodes[k].apiUrl != nodes[l].uiUrl)
  {
    var slots := FoundSlots(found);
    FoundSlotsIsFilter(found);
    forall k, l | 0 <= k < l < |slots|
      ensures Url(ip, UiPort(slots[k])) != Url(ip, UiPort(slots[l]))
      ensures Url(ip, ApiPort(slots[k])) != Url(ip, ApiPort(slots[l]))
    {
      UrlNamesPort(ip, UiPort(slots[k]), UiPort(slots[l]));
      UrlNamesPort(ip, ApiPort(slots[k]), ApiPort(slots[l]));
    }
    forall k, l | 0 <= k < |slots| && 0 <= l < |slots|
      ensures Url(ip, ApiPort(slots[k])) != Url(ip, UiPort(slots[l]))
    {
      UrlNamesPort(ip, ApiPort(slots[k]), UiPort(slots[l]));
    }
  }
}
