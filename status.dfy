/**
 * The health monitor of package `status`: one poll cycle that rebuilds the
 * per-status node counts, the summary line rendered from those counts, and
 * the conversion of gossip rows (node id, liveness) into node entries.
 */
module Status {
  import opened Wrappers
  import opened Decimal
  import opened Lexicographic

  /** One element of `node.Nodes`: a cluster node with its status label. */
  datatype NodeInfo = NodeInfo(name: string, regionName: string, status: string)

  /** The outcome of `rows.Scan` on one row of the gossip query. */
  datatype Row = Scanned(nodeId: int, isLive: bool) | ScanFailed

  const Live: string := "LIVE"
  const Dead: string := "DEAD"

  // ---------------------------------------------------------------------------
  // What a poll cycle computes

  /** The number of nodes whose status label is `state`. */
  function Count(nodes: seq<NodeInfo>, state: string): nat
  {
    if nodes == [] then 0
    else Count(nodes[..|nodes| - 1], state) + (if nodes[|nodes| - 1].status == state then 1 else 0)
  }

  /** The distinct status labels of a node list. */
  function Labels(nodes: seq<NodeInfo>): set<string>
  {
    if nodes == [] then {} else Labels(nodes[..|nodes| - 1]) + {nodes[|nodes| - 1].status}
  }

  /**
   * `m` holds the counts a poll of `nodes` should leave behind: exactly the
   * labels present as keys, each mapped to the number of nodes carrying it.
   */
  ghost predicate Tallies(m: map<string, nat>, nodes: seq<NodeInfo>)
  {
    m.Keys == Labels(nodes) && forall k :: k in m ==> m[k] == Count(nodes, k)
  }

  lemma LabelsAppend(nodes: seq<NodeInfo>, n: NodeInfo)
    ensures Labels(nodes + [n]) == Labels(nodes) + {n.status}
  {
    var s := nodes + [n];
    assert s[..|s| - 1] == nodes;
  }

  lemma CountAppend(nodes: seq<NodeInfo>, n: NodeInfo, state: string)
    ensures Count(nodes + [n], state) == Count(nodes, state) + (if n.status == state then 1 else 0)
  {
    var s := nodes + [n];
    assert s[..|s| - 1] == nodes;
  }

  /** A label is present exactly when some node carries it. */
  lemma {:induction false} LabelsMembers(nodes: seq<NodeInfo>, state: string)
    ensures state in Labels(nodes) <==> exists i :: 0 <= i < |nodes| && nodes[i].status == state
  {
    if nodes != [] {
      var init := nodes[..|nodes| - 1];
      LabelsMembers(init, state);
      if exists i :: 0 <= i < |init| && init[i].status == state {
        var i :| 0 <= i < |init| && init[i].status == state;
        assert nodes[i].status == state;
      }
      if exists i :: 0 <= i < |nodes| && nodes[i].status == state {
        var i :| 0 <= i < |nodes| && nodes[i].status == state;
        if i < |init| {
          assert init[i].status == state;
        }
      }
    }
  }

  /** A label is counted at least once exactly when some node carries it. */
  lemma {:induction false} CountPositive(nodes: seq<NodeInfo>, state: string)
    ensures Count(nodes, state) >= 1 <==> state in Labels(nodes)
  {
    if nodes != [] {
      CountPositive(nodes[..|nodes| - 1], state);
    }
  }

  /** No nodes, no counts. */
  lemma TalliesEmpty()
    ensures Tallies(map[], [])
  {
  }

  /**
   * One step of the counting loop: bumping the count of `n`'s label, read as 0
   * when absent, turns the counts of `nodes` into the counts of `nodes + [n]`.
   */
  lemma TalliesAppend(m: map<string, nat>, nodes: seq<NodeInfo>, n: NodeInfo)
    requires Tallies(m, nodes)
    ensures Tallies(m[n.status := (if n.status in m then m[n.status] else 0) + 1], nodes + [n])
  {
    LabelsAppend(nodes, n);
    CountPositive(nodes, n.status);
    var m' := m[n.status := (if n.status in m then m[n.status] else 0) + 1];
    forall k | k in m' ensures m'[k] == Count(nodes + [n], k) {
      CountAppend(nodes, n, k);
    }
  }

  /** The counts of a node list are determined by it. */
  lemma TalliesUnique(m1: map<string, nat>, m2: map<string, nat>, nodes: seq<NodeInfo>)
    requires Tallies(m1, nodes) && Tallies(m2, nodes)
    ensures m1 == m2
  {
    assert m1.Keys == m2.Keys;
    forall k | k in m1 ensures m1[k] == m2[k] {
    }
  }

  /** Every count a poll stores is at least 1. */
  lemma TalliesPositive(m: map<string, nat>, nodes: seq<NodeInfo>)
    requires Tallies(m, nodes)
    ensures forall k :: k in m ==> m[k] >= 1
  {
    forall k | k in m ensures m[k] >= 1 {
      CountPositive(nodes, k);
    }
  }

  /** The sum of the counts `m` holds for `keys`. */
  function SumOver(m: map<string, nat>, keys: seq<string>): nat
    requires forall i :: 0 <= i < |keys| ==> keys[i] in m
  {
    if keys == [] then 0 else m[keys[0]] + SumOver(m, keys[1..])
  }

  /** How many nodes carry one of `keys`, a label counted once per occurrence in `keys`. */
  function CountAll(nodes: seq<NodeInfo>, keys: seq<string>): nat
  {
    if keys == [] then 0 else Count(nodes, keys[0]) + CountAll(nodes, keys[1..])
  }

  /** In a list without repeats every element occurs once. */
  lemma {:induction false} MultiplicityDistinct(keys: seq<string>, x: string)
    requires Distinct(keys)
    ensures multiset(keys)[x] == if x in keys then 1 else 0
  {
    if keys != [] {
      assert keys == [keys[0]] + keys[1..];
      assert Distinct(keys[1..]);
      assert keys[0] !in keys[1..];
      MultiplicityDistinct(keys[1..], x);
    }
  }

  lemma {:induction false} CountAllEmpty(keys: seq<string>)
    ensures CountAll([], keys) == 0
  {
    if keys != [] {
      CountAllEmpty(keys[1..]);
    }
  }

  lemma {:induction false} CountAllAppend(nodes: seq<NodeInfo>, n: NodeInfo, keys: seq<string>)
    ensures CountAll(nodes + [n], keys) == CountAll(nodes, keys) + multiset(keys)[n.status]
  {
    if keys != [] {
      assert keys == [keys[0]] + keys[1..];
      CountAppend(nodes, n, keys[0]);
      CountAllAppend(nodes, n, keys[1..]);
    }
  }

  /** Counting over every label, each once, counts every node exactly once. */
  lemma {:induction false} CountAllLabels(nodes: seq<NodeInfo>, keys: seq<string>)
    requires Distinct(keys) && Labels(nodes) <= Elements(keys)
    ensures CountAll(nodes, keys) == |nodes|
  {
    if nodes == [] {
      CountAllEmpty(keys);
    } else {
      var init, last := nodes[..|nodes| - 1], nodes[|nodes| - 1];
      assert nodes == init + [last];
      LabelsAppend(init, last);
      CountAllLabels(init, keys);
      CountAllAppend(init, last, keys);
      MultiplicityDistinct(keys, last.status);
    }
  }

  lemma {:induction false} SumOverCounts(m: map<string, nat>, nodes: seq<NodeInfo>, keys: seq<string>)
    requires Tallies(m, nodes)
    requires forall i :: 0 <= i < |keys| ==> keys[i] in m
    ensures SumOver(m, keys) == CountAll(nodes, keys)
  {
    if keys != [] {
      SumOverCounts(m, nodes, keys[1..]);
    }
  }

  /** The counts of a poll, one per label, add up to the number of fetched nodes. */
  lemma TalliesSum(m: map<string, nat>, nodes: seq<NodeInfo>, keys: seq<string>)
    requires Tallies(m, nodes)
    requires Distinct(keys) && Elements(keys) == m.Keys
    ensures forall i :: 0 <= i < |keys| ==> keys[i] in m
    ensures SumOver(m, keys) == |nodes|
  {
    SumOverCounts(m, nodes, keys);
    CountAllLabels(nodes, keys);
  }

  // ---------------------------------------------------------------------------
  // What GetStatus renders

  /** `s.nodesPerState["LIVE"]`: the LIVE count, 0 when the key is absent. */
  function LiveCount(m: map<string, nat>): (n: nat)
    ensures Live in m ==> n == m[Live]
    ensures Live !in m ==> n == 0
  {
    if Live in m then m[Live] else 0
  }

  /** One `"| %d node(s) %s |"` segment; segments are concatenated with nothing between them. */
  function Segment(count: nat, state: string): (r: string)
    ensures |r| == |NatToDecimal(count)| + |state| + 13
    ensures r[..2] == "| " && r[|r| - 2..] == " |"
  {
    "| " + NatToDecimal(count) + " node(s) " + state + " |"
  }

  /** No position inside a leading run of digits holds a non-digit. */
  lemma DigitRunEnds(x: string, d: string, j: nat)
    requires |d| <= |x| && x[..|d|] == d && AllDigits(d)
    requires j < |x| && !IsDigit(x[j])
    ensures |d| <= j
  {
  }

  /** A segment determines its count and its label: nothing is lost in rendering. */
  lemma SegmentInjective(c1: nat, s1: string, c2: nat, s2: string)
    requires Segment(c1, s1) == Segment(c2, s2)
    ensures c1 == c2 && s1 == s2
  {
    SegmentAfterBar(c1, s1);
    SegmentAfterBar(c2, s2);
    DigitRunSplit(NatToDecimal(c1), " node(s) " + s1 + " |", NatToDecimal(c2), " node(s) " + s2 + " |");
    ParseNatToDecimal(c1);
    ParseNatToDecimal(c2);
    LabelPart(s1, s2);
  }

  lemma SegmentAfterBar(count: nat, state: string)
    ensures Segment(count, state)[2..] == NatToDecimal(count) + (" node(s) " + state + " |")
  {
    var d, t := NatToDecimal(count), " node(s) " + state + " |";
    assert Segment(count, state) == "| " + (d + t);
  }

  /** Where a run of digits is followed by a space, the run is the same in any split. */
  lemma DigitRunSplit(d1: string, t1: string, d2: string, t2: string)
    requires AllDigits(d1) && AllDigits(d2)
    requires |t1| > 0 && t1[0] == ' ' && |t2| > 0 && t2[0] == ' '
    requires d1 + t1 == d2 + t2
    ensures d1 == d2 && t1 == t2
  {
    var x := d1 + t1;
    assert x[..|d1|] == d1 && x[|d1|] == ' ';
    assert x[..|d2|] == d2 && x[|d2|] == ' ';
    DigitRunEnds(x, d1, |d2|);
    DigitRunEnds(x, d2, |d1|);
    assert x[|d1|..] == t1 && x[|d2|..] == t2;
  }

  lemma LabelPart(s1: string, s2: string)
    requires " node(s) " + s1 + " |" == " node(s) " + s2 + " |"
    ensures s1 == s2
  {
    var t1, t2 := " node(s) " + s1 + " |", " node(s) " + s2 + " |";
    assert t1[9..|t1| - 2] == s1 && t2[9..|t2| - 2] == s2;
  }

  /** The segments for `keys`, one after another in the order given. */
  function Segments(m: map<string, nat>, keys: seq<string>): string
    requires forall i :: 0 <= i < |keys| ==> keys[i] in m
  {
    if keys == [] then ""
    else Segments(m, keys[..|keys| - 1]) + Segment(m[keys[|keys| - 1]], keys[|keys| - 1])
  }

  /**
   * The summary line: a single LIVE count when no key other than LIVE is
   * present, otherwise one segment per key in ascending order of label.
   */
  ghost function Summary(m: map<string, nat>): string
  {
    if m.Keys <= {Live} then NatToDecimal(LiveCount(m)) + " node(s) LIVE"
    else Segments(m, AscendingList(m.Keys))
  }

  /**
   * As soon as some key is not LIVE, the summary is the segments of the keys in
   * strictly ascending order, whichever way that order was obtained.
   */
  lemma SummaryIsAscendingSegments(m: map<string, nat>, keys: seq<string>)
    requires !(m.Keys <= {Live})
    requires Ascending(keys) && Elements(keys) == m.Keys
    ensures forall i :: 0 <= i < |keys| ==> keys[i] in m
    ensures Summary(m) == Segments(m, keys)
  {
    AscendingUnique(keys, AscendingList(m.Keys));
  }

  lemma SummaryAllLive()
    ensures Summary(map[Live := 5]) == "5 node(s) LIVE"
  {
  }

  lemma SummaryNoNodes()
    ensures Summary(map[]) == "0 node(s) LIVE"
  {
  }

  /** Only DEAD present: the summary is its single segment. */
  lemma SummaryDeadOnly(m: map<string, nat>)
    requires m.Keys == {Dead}
    ensures Summary(m) == Segment(m[Dead], Dead)
  {
    assert Elements([Dead]) == m.Keys;
    SummaryIsAscendingSegments(m, [Dead]);
    assert [Dead][..0] == [];
  }

  /** DEAD and LIVE present: the DEAD segment comes before the LIVE segment. */
  lemma SummaryDeadAndLive(m: map<string, nat>)
    requires m.Keys == {Dead, Live}
    ensures Summary(m) == Segment(m[Dead], Dead) + Segment(m[Live], Live)
  {
    DeadBeforeLive();
    assert Elements([Dead, Live]) == m.Keys;
    SummaryIsAscendingSegments(m, [Dead, Live]);
    SegmentsPair(m, Dead, Live);
  }

  /** "DEAD" sorts before "LIVE". */
  lemma DeadBeforeLive()
    ensures Ascending([Dead, Live])
  {
    assert Dead[0] != Live[0];
  }

  lemma SegmentsPair(m: map<string, nat>, k1: string, k2: string)
    requires k1 in m && k2 in m
    ensures Segments(m, [k1, k2]) == Segment(m[k1], k1) + Segment(m[k2], k2)
  {
    var keys := [k1, k2];
    assert keys[..1] == [k1] && [k1][..0] == [];
    assert Segments(m, [k1]) == Segment(m[k1], k1);
    assert Segments(m, keys) == Segments(m, [k1]) + Segment(m[k2], k2);
  }

  /** With one DEAD and four LIVE nodes the DEAD segment comes first. */
  lemma SummaryDeadBeforeLive()
    ensures Summary(map[Live := 4, Dead := 1]) == "| 1 node(s) DEAD |" + "| 4 node(s) LIVE |"
  {
    var m := map[Live := 4, Dead := 1];
    assert m.Keys == {Dead, Live};
    SummaryDeadAndLive(m);
    SegmentText(1, Dead);
    SegmentText(4, Live);
  }

  /** The text of a segment whose count is a single digit. */
  lemma SegmentText(d: nat, state: string)
    requires d < 10
    ensures Segment(d, state) == ['|', ' ', DigitChar(d), ' ', 'n', 'o', 'd', 'e', '(', 's', ')', ' '] + state + [' ', '|']
  {
  }

  // ---------------------------------------------------------------------------
  // The monitor

  class Status {
    /** Number of nodes per status label, as of the last poll that returned data. */
    var nodesPerState: map<string, nat>
    /** `NewStatus`: the monitor starts with no counts. */
    constructor ()
      ensures nodesPerState == map[]
    {
      nodesPerState := map[];
    }

    /**
     * One iteration of `RunHealthCheck`: `fetched` is what the data source
     * returned. No data ends the loop and leaves the counts alone; otherwise
     * the map is emptied key by key and rebuilt by counting each node's label.
     */
    method Poll(fetched: Option<seq<NodeInfo>>) returns (stop: bool)
      modifies this
      ensures stop <==> fetched.None?
      ensures fetched.None? ==> nodesPerState == old(nodesPerState)
      ensures fetched.Some? ==> nodesPerState.Keys == Labels(fetched.value)
      ensures fetched.Some? ==> forall k :: k in nodesPerState ==> nodesPerState[k] == Count(fetched.value, k)
      ensures fetched.Some? ==> forall k :: k in nodesPerState ==> nodesPerState[k] >= 1
      ensures fetched.Some? ==> forall keys :: Distinct(keys) && Elements(keys) == nodesPerState.Keys ==>
        SumOver(nodesPerState, keys) == |fetched.value|
    {
      if fetched.None? {
        return true;
      }
      var nodes := fetched.value;
      Clear();
      TalliesEmpty();
      assert nodes[..0] == [];
      for i := 0 to |nodes|
        invariant Tallies(nodesPerState, nodes[..i])
      {
        var state := nodes[i].status;
        TalliesAppend(nodesPerState, nodes[..i], nodes[i]);
        assert nodes[..i + 1] == nodes[..i] + [nodes[i]];
        nodesPerState := nodesPerState[state := (if state in nodesPerState then nodesPerState[state] else 0) + 1];
      }
      assert nodes[..|nodes|] == nodes;
      TalliesPositive(nodesPerState, nodes);
      forall keys | Distinct(keys) && Elements(keys) == nodesPerState.Keys
        ensures SumOver(nodesPerState, keys) == |nodes|
      {
        TalliesSum(nodesPerState, nodes, keys);
      }
      stop := false;
    }

    /** The "Clean the map" loop of `RunHealthCheck`: deletes every key, one at a time. */
    method Clear()
      modifies this`nodesPerState
      ensures nodesPerState == map[]
    {
      var pending := nodesPerState.Keys;
      while pending != {}
        invariant nodesPerState.Keys == pending
        decreases pending
      {
        var k :| k in pending;
        nodesPerState := nodesPerState - {k};
        pending := pending - {k};
      }
    }

    /**
     * `GetStatus`: renders the counts as the summary line. It only reads
     * `nodesPerState`.
     */
    method GetStatus() returns (message: string)
      ensures message == Summary(nodesPerState)
    {
      message := "";
      var notAlive := CountNotLive(nodesPerState);
      OnlyLiveIff(nodesPerState.Keys);
      message := NatToDecimal(LiveCount(nodesPerState)) + " node(s) LIVE";
      if notAlive != 0 {
        var keys := CollectKeys(nodesPerState);
        ghost var collected := keys;
        keys := SortStrings(keys);
        SameElements(keys, collected);
        message := RenderSegments(nodesPerState, keys);
        SummaryIsAscendingSegments(nodesPerState, keys);
      }
    }
  }

  /** The first loop of `GetStatus`: how many keys are not LIVE. */
  method CountNotLive(counts: map<string, nat>) returns (notAlive: nat)
    ensures notAlive == |counts.Keys - {Live}|
  {
    notAlive := 0;
    var pending := counts.Keys;
    ghost var seen: set<string> := {};
    while pending != {}
      invariant seen + pending == counts.Keys && seen !! pending
      invariant notAlive + (if Live in seen then 1 else 0) == |seen|
      decreases pending
    {
      var k :| k in pending;
      if k != Live {
        notAlive := notAlive + 1;
      }
      pending := pending - {k};
      seen := seen + {k};
    }
    NotLiveCount(seen);
  }

  /** The `keys` slice of `GetStatus`: every key once, in map iteration order. */
  method CollectKeys(counts: map<string, nat>) returns (keys: seq<string>)
    ensures Elements(keys) == counts.Keys
    ensures Distinct(keys)
  {
    keys := [];
    var pending := counts.Keys;
    while pending != {}
      invariant pending <= counts.Keys
      invariant Elements(keys) == counts.Keys - pending
      invariant Distinct(keys)
      decreases pending
    {
      var k :| k in pending;
      ElementsAppend(keys, k);
      keys := keys + [k];
      pending := pending - {k};
    }
  }

  /** The last loop of `GetStatus`: one segment per key, in the order of `keys`. */
  method RenderSegments(counts: map<string, nat>, keys: seq<string>) returns (message: string)
    requires forall i :: 0 <= i < |keys| ==> keys[i] in counts
    ensures message == Segments(counts, keys)
  {
    message := "";
    for i := 0 to |keys|
      invariant message == Segments(counts, keys[..i])
    {
      assert keys[..i + 1][..i] == keys[..i];
      message := message + Segment(counts[keys[i]], keys[i]);
    }
    assert keys[..|keys|] == keys;
  }

  lemma NotLiveCount(keys: set<string>)
    ensures |keys - {Live}| == |keys| - (if Live in keys then 1 else 0)
  {
    if Live in keys {
      assert keys == (keys - {Live}) + {Live};
    } else {
      assert keys - {Live} == keys;
    }
  }

  lemma OnlyLiveIff(keys: set<string>)
    ensures keys <= {Live} <==> |keys - {Live}| == 0
  {
    if |keys - {Live}| == 0 {
      assert keys - {Live} == {};
    }
  }

  /** A permutation has the same elements. */
  lemma SameElements(a: seq<string>, b: seq<string>)
    requires multiset(a) == multiset(b)
    ensures Elements(a) == Elements(b)
  {
    forall x ensures x in Elements(a) <==> x in Elements(b) {
      assert x in a <==> x in multiset(a);
      assert x in b <==> x in multiset(b);
    }
  }

  // ---------------------------------------------------------------------------
  // The local data source

  /**
   * The row loop of `getLocalStatus`: each scanned row becomes one node named
   * after its id, in region "local", LIVE or DEAD by its liveness flag; a row
   * that fails to scan makes the whole result nil.
   */
  method NodesFromRows(rows: seq<Row>) returns (result: Option<seq<NodeInfo>>)
    ensures result.None? <==> exists i :: 0 <= i < |rows| && rows[i].ScanFailed?
    ensures result.Some? ==> |result.value| == |rows|
    ensures result.Some? ==> forall i :: 0 <= i < |rows| ==>
      && rows[i].Scanned?
      && result.value[i].name == "node" + IntToDecimal(rows[i].nodeId)
      && result.value[i].regionName == "local"
      && (result.value[i].status == Live <==> rows[i].isLive)
      && (result.value[i].status == Live || result.value[i].status == Dead)
  {
    var nodes: seq<NodeInfo> := [];
    var i := 0;
    while i < |rows|
      invariant 0 <= i <= |rows| && |nodes| == i
      invariant forall j :: 0 <= j < i ==> rows[j].Scanned? && nodes[j] == RowNode(rows[j].nodeId, rows[j].isLive)
    {
      if rows[i].ScanFailed? {
        return None;
      }
      var name := "node" + IntToDecimal(rows[i].nodeId);
      ghost var prefix := nodes;
      if rows[i].isLive {
        nodes := nodes + [NodeInfo(name, "local", Live)];
      } else {
        nodes := nodes + [NodeInfo(name, "local", Dead)];
      }
      assert nodes == prefix + [RowNode(rows[i].nodeId, rows[i].isLive)];
      i := i + 1;
    }
    result := Some(nodes);
    forall j | 0 <= j < |rows|
      ensures (result.value[j].status == Live <==> rows[j].isLive)
      ensures result.value[j].status == Live || result.value[j].status == Dead
    {
      var n := RowNode(rows[j].nodeId, rows[j].isLive);
      assert result.value[j] == n;
    }
  }

  /** The node one scanned row stands for. */
  function RowNode(nodeId: int, isLive: bool): (n: NodeInfo)
    ensures n.name == "node" + IntToDecimal(nodeId) && n.regionName == "local"
    ensures n.status == Live <==> isLive
    ensures n.status == Live || n.status == Dead
  {
    assert Live[0] != Dead[0];
    NodeInfo("node" + IntToDecimal(nodeId), "local", if isLive then Live else Dead)
  }

  /** Distinct node ids give distinct node names. */
  lemma NodeNameInjective(a: int, b: int)
    requires "node" + IntToDecimal(a) == "node" + IntToDecimal(b)
    ensures a == b
  {
    var na, nb := "node" + IntToDecimal(a), "node" + IntToDecimal(b);
    assert na[4..] == IntToDecimal(a) && nb[4..] == IntToDecimal(b);
    IntToDecimalInjective(a, b);
  }

  /** When every node is LIVE or DEAD, the two counts cover the whole list. */
  lemma {:induction false} LiveDeadCounts(nodes: seq<NodeInfo>)
    requires forall i :: 0 <= i < |nodes| ==> nodes[i].status == Live || nodes[i].status == Dead
    ensures Count(nodes, Live) + Count(nodes, Dead) == |nodes|
  {
    if nodes != [] {
      LiveDeadCounts(nodes[..|nodes| - 1]);
    }
  }

  /**
   * The summary after a poll of the local source, where every node is LIVE or
   * DEAD: a LIVE count alone when no node is DEAD; otherwise the DEAD segment,
   * followed by the LIVE segment when some node is LIVE.
   */
  lemma LiveDeadSummary(m: map<string, nat>, nodes: seq<NodeInfo>)
    requires Tallies(m, nodes)
    requires forall i :: 0 <= i < |nodes| ==> nodes[i].status == Live || nodes[i].status == Dead
    ensures Count(nodes, Live) + Count(nodes, Dead) == |nodes|
    ensures Count(nodes, Dead) == 0 ==>
      Summary(m) == NatToDecimal(Count(nodes, Live)) + " node(s) LIVE"
    ensures Count(nodes, Dead) > 0 && Count(nodes, Live) == 0 ==>
      Summary(m) == Segment(Count(nodes, Dead), Dead)
    ensures Count(nodes, Dead) > 0 && Count(nodes, Live) > 0 ==>
      Summary(m) == Segment(Count(nodes, Dead), Dead) + Segment(Count(nodes, Live), Live)
  {
    LiveDeadCounts(nodes);
    LiveDeadKeys(m, nodes);
    SummaryOfLiveDead(m, Count(nodes, Live), Count(nodes, Dead));
  }

  /** A counts map is a LIVE/DEAD map with counts `live` and `dead`, each key present only when positive. */
  ghost predicate HoldsLiveDead(m: map<string, nat>, live: nat, dead: nat)
  {
    && (forall k :: k in m ==> k == Live || k == Dead)
    && (Live in m <==> live > 0) && (Dead in m <==> dead > 0)
    && (Live in m ==> m[Live] == live) && (Dead in m ==> m[Dead] == dead)
  }

  /** The summary of a LIVE/DEAD map: the LIVE count alone, the DEAD segment, or DEAD then LIVE. */
  lemma SummaryOfLiveDead(m: map<string, nat>, live: nat, dead: nat)
    requires HoldsLiveDead(m, live, dead)
    ensures dead == 0 ==> Summary(m) == NatToDecimal(live) + " node(s) LIVE"
    ensures dead > 0 && live == 0 ==> Summary(m) == Segment(dead, Dead)
    ensures dead > 0 && live > 0 ==> Summary(m) == Segment(dead, Dead) + Segment(live, Live)
  {
    LiveNotDead();
    if dead == 0 {
      assert m.Keys <= {Live};
    } else if live == 0 {
      assert m.Keys == {Dead};
      SummaryDeadOnly(m);
    } else {
      assert m.Keys == {Dead, Live};
      SummaryDeadAndLive(m);
    }
  }

  lemma LiveNotDead()
    ensures Live != Dead
  {
    assert Live[0] != Dead[0];
  }

  /** The counts map holding `live` under LIVE and `dead` under DEAD, each only when positive. */
  function LiveDeadMap(live: nat, dead: nat): map<string, nat>
  {
    if live > 0 && dead > 0 then map[Live := live, Dead := dead]
    else if live > 0 then map[Live := live]
    else if dead > 0 then map[Dead := dead]
    else map[]
  }

  /** A LIVE/DEAD map is determined by its two counts. */
  lemma LiveDeadMapUnique(m: map<string, nat>, live: nat, dead: nat)
    requires HoldsLiveDead(m, live, dead)
    ensures m == LiveDeadMap(live, dead)
  {
    LiveNotDead();
    var r := LiveDeadMap(live, dead);
    assert HoldsLiveDead(r, live, dead);
    assert m.Keys == r.Keys by {
      forall k ensures k in m <==> k in r {
      }
    }
    SameMap(m, r);
  }

  /** After a poll of LIVE/DEAD nodes the whole map is fixed by the two counts. */
  lemma LiveDeadCountsMap(m: map<string, nat>, nodes: seq<NodeInfo>)
    requires Tallies(m, nodes)
    requires forall i :: 0 <= i < |nodes| ==> nodes[i].status == Live || nodes[i].status == Dead
    ensures m == LiveDeadMap(Count(nodes, Live), Count(nodes, Dead))
  {
    LiveDeadKeys(m, nodes);
    LiveDeadMapUnique(m, Count(nodes, Live), Count(nodes, Dead));
  }

  lemma SameMap(m1: map<string, nat>, m2: map<string, nat>)
    requires m1.Keys == m2.Keys && forall k :: k in m1 ==> m1[k] == m2[k]
    ensures m1 == m2
  {
  }

  /** The keys a poll of LIVE/DEAD nodes leaves: the labels with a non-zero count. */
  lemma LiveDeadKeys(m: map<string, nat>, nodes: seq<NodeInfo>)
    requires Tallies(m, nodes)
    requires forall i :: 0 <= i < |nodes| ==> nodes[i].status == Live || nodes[i].status == Dead
    ensures HoldsLiveDead(m, Count(nodes, Live), Count(nodes, Dead))
  {
    CountPositive(nodes, Live);
    CountPositive(nodes, Dead);
    forall x | x in Labels(nodes) ensures x == Live || x == Dead {
      LabelsMembers(nodes, x);
    }
  }

  // ---------------------------------------------------------------------------
  // One local poll followed by a status request

  /** The number of rows that scanned as live. */
  function LiveRows(rows: seq<Row>): nat
  {
    if rows == [] then 0
    else LiveRows(rows[..|rows| - 1]) + (if rows[|rows| - 1].Scanned? && rows[|rows| - 1].isLive then 1 else 0)
  }

  /** The number of rows that scanned as not live. */
  function DeadRows(rows: seq<Row>): nat
  {
    if rows == [] then 0
    else DeadRows(rows[..|rows| - 1]) + (if rows[|rows| - 1].Scanned? && !rows[|rows| - 1].isLive then 1 else 0)
  }

  /** Nodes converted row by row carry as many LIVE and DEAD labels as there are live and dead rows. */
  lemma {:induction false} RowCounts(rows: seq<Row>, nodes: seq<NodeInfo>)
    requires |nodes| == |rows|
    requires forall i :: 0 <= i < |rows| ==>
      rows[i].Scanned? && nodes[i].status == (if rows[i].isLive then Live else Dead)
    ensures Count(nodes, Live) == LiveRows(rows) && Count(nodes, Dead) == DeadRows(rows)
  {
    if rows != [] {
      assert Live[0] != Dead[0];
      RowCounts(rows[..|rows| - 1], nodes[..|nodes| - 1]);
    }
  }

  /**
   * One cycle of the local monitor: the rows are converted, the result polled,
   * and the summary read back. A failed scan ends the loop and the summary of
   * the earlier counts is served; otherwise the summary depends on the rows
   * alone, and no label of an earlier poll other than LIVE or DEAD survives.
   */
  method LocalPollSummary(status: Status, rows: seq<Row>) returns (stop: bool, message: string)
    modifies status
    ensures stop <==> exists i :: 0 <= i < |rows| && rows[i].ScanFailed?
    ensures stop ==> status.nodesPerState == old(status.nodesPerState)
    ensures stop ==> message == Summary(old(status.nodesPerState))
    ensures !stop ==> status.nodesPerState.Keys <= {Live, Dead}
    ensures !stop ==> (status.nodesPerState == LiveDeadMap(LiveRows(rows), DeadRows(rows)))
    ensures !stop && DeadRows(rows) == 0 ==>
      message == NatToDecimal(LiveRows(rows)) + " node(s) LIVE"
    ensures !stop && DeadRows(rows) > 0 && LiveRows(rows) == 0 ==>
      message == Segment(DeadRows(rows), Dead)
    ensures !stop && DeadRows(rows) > 0 && LiveRows(rows) > 0 ==>
      message == Segment(DeadRows(rows), Dead) + Segment(LiveRows(rows), Live)
  {
    var fetched := NodesFromRows(rows);
    stop := status.Poll(fetched);
    message := status.GetStatus();
    if !stop {
      var nodes := fetched.value;
      assert Tallies(status.nodesPerState, nodes);
      forall i | 0 <= i < |rows|
        ensures rows[i].Scanned? && nodes[i].status == (if rows[i].isLive then Live else Dead)
      {
      }
      RowCounts(rows, nodes);
      LiveDeadKeys(status.nodesPerState, nodes);
      LiveDeadSummary(status.nodesPerState, nodes);
      LiveDeadCountsMap(status.nodesPerState, nodes);
    }
  }
}
