/** The block-sync planner of the network layer: merging the hash lists peers advertise,
    inverting them into a hash-to-peers table, assigning each wanted block to one peer,
    choosing the peers to sync from, folding the inbound sync messages, and processing
    received blocks in the planned order. */
module Sync {
  import opened Wrappers
  import opened Seqs

  type BlockHeaderHash = seq<bv8>

  datatype SocketAddr = SocketAddr(ip: seq<bv8>, port: nat)

  /** A message of the sync channel. */
  datatype SyncInbound =
    | BlockHashes(addr: SocketAddr, hashes: seq<BlockHeaderHash>)
    | Block(addr: SocketAddr, block: seq<bv8>)

  /** A received block and the peer that sent it. */
  datatype SyncBlock = SyncBlock(address: SocketAddr, block: seq<bv8>)

  /** One peer of the connected-peers snapshot: its address, its advertised block height and
      the verdict its `judge_bad` returned. */
  datatype Peer = Peer(address: SocketAddr, blockHeight: nat, judgedBad: bool)

  /** A peer and the block hashes it advertised. */
  type PeerHashes = (SocketAddr, seq<BlockHeaderHash>)

  // ---------------------------------------------------------------------------------
  // order_block_hashes

  /** Row `i`: the hash at index `i` of each list that has one, in list order. */
  function Row(input: seq<PeerHashes>, i: nat): seq<BlockHeaderHash>
  {
    if input == [] then []
    else
      var hashes := input[|input| - 1].1;
      Row(input[..|input| - 1], i) + (if i < |hashes| then [hashes[i]] else [])
  }

  /** Rows `0 .. n-1`, one after the other. */
  function RowMajor(input: seq<PeerHashes>, n: nat): seq<BlockHeaderHash>
  {
    if n == 0 then [] else RowMajor(input, n - 1) + Row(input, n - 1)
  }

  /** The length of the longest list. */
  function Width(input: seq<PeerHashes>): (w: nat)
    ensures forall j :: 0 <= j < |input| ==> |input[j].1| <= w
    ensures w == 0 || exists j :: 0 <= j < |input| && |input[j].1| == w
  {
    if input == [] then 0
    else
      var init := input[..|input| - 1];
      var w' := Width(init);
      assert forall j :: 0 <= j < |init| ==> input[j] == init[j];
      if w' < |input[|input| - 1].1| then |input[|input| - 1].1| else w'
  }

  /** Every hash of every list. */
  function AllHashes(input: seq<PeerHashes>): set<BlockHeaderHash>
  {
    if input == [] then {} else AllHashes(input[..|input| - 1]) + Elems(input[|input| - 1].1)
  }

  lemma {:induction false} AllHashesAt(input: seq<PeerHashes>, x: BlockHeaderHash)
    ensures x in AllHashes(input) <==> exists j :: 0 <= j < |input| && x in input[j].1
  {
    if input != [] {
      var init := input[..|input| - 1];
      AllHashesAt(init, x);
      assert forall j :: 0 <= j < |init| ==> input[j] == init[j];
    }
  }

  lemma {:induction false} RowAt(input: seq<PeerHashes>, i: nat, x: BlockHeaderHash)
    ensures x in Row(input, i) <==> exists j :: 0 <= j < |input| && i < |input[j].1| && input[j].1[i] == x
  {
    if input != [] {
      var init := input[..|input| - 1];
      RowAt(init, i, x);
      assert forall j :: 0 <= j < |init| ==> input[j] == init[j];
    }
  }

  lemma {:induction false} RowMajorAt(input: seq<PeerHashes>, n: nat, x: BlockHeaderHash)
    ensures x in RowMajor(input, n) <==>
      exists j, i :: 0 <= j < |input| && 0 <= i < n && i < |input[j].1| && input[j].1[i] == x
  {
    if n > 0 {
      RowMajorAt(input, n - 1, x);
      RowAt(input, n - 1, x);
      if x in RowMajor(input, n) {
        if x in RowMajor(input, n - 1) {
          var j, i :| 0 <= j < |input| && 0 <= i < n - 1 && i < |input[j].1| && input[j].1[i] == x;
          assert 0 <= i < n;
        } else {
          assert x in Row(input, n - 1);
          var j :| 0 <= j < |input| && n - 1 < |input[j].1| && input[j].1[n - 1] == x;
          assert 0 <= n - 1 < n;
        }
      }
      if exists j, i :: 0 <= j < |input| && 0 <= i < n && i < |input[j].1| && input[j].1[i] == x {
        var j, i :| 0 <= j < |input| && 0 <= i < n && i < |input[j].1| && input[j].1[i] == x;
        if i < n - 1 {
          assert x in RowMajor(input, n - 1);
        } else {
          assert x in Row(input, n - 1);
        }
      }
    }
  }

  lemma {:induction false} RowMajorPrefix(input: seq<PeerHashes>, i: nat, n: nat)
    requires i <= n
    ensures RowMajor(input, i) <= RowMajor(input, n)
    decreases n
  {
    if i < n {
      RowMajorPrefix(input, i, n - 1);
    }
  }

  /** The first `n` rows hold exactly the hashes of all lists when `n` is the width. */
  lemma RowMajorCoversAll(input: seq<PeerHashes>)
    ensures Elems(RowMajor(input, Width(input))) == AllHashes(input)
  {
    forall x ensures x in RowMajor(input, Width(input)) <==> x in AllHashes(input) {
      RowMajorAt(input, Width(input), x);
      AllHashesAt(input, x);
      if x in AllHashes(input) {
        var j :| 0 <= j < |input| && x in input[j].1;
        var i :| 0 <= i < |input[j].1| && input[j].1[i] == x;
        assert i < Width(input);
      }
    }
  }

  /** `order_block_hashes`: merge the lists row by row (index 0 of every list, then index 1,
      ...), keeping the first occurrence of each hash, until an index no list reaches. */
  method OrderBlockHashes(input: seq<PeerHashes>) returns (blockOrder: seq<BlockHeaderHash>)
    ensures blockOrder == Dedup(RowMajor(input, Width(input)))
  {
    blockOrder := [];
    var seen: set<BlockHeaderHash> := {};
    var blockIndex := 0;
    while true
      invariant Merged(input, blockIndex, blockOrder, seen)
      decreases Width(input) - blockIndex
    {
      var foundRow;
      blockOrder, seen, foundRow := MergeRow(input, blockIndex, blockOrder, seen);
      MergedStep(input, blockIndex, foundRow, blockOrder, seen);
      if !foundRow {
        break;
      }
      blockIndex := blockIndex + 1;
    }
  }

  /** The state of `order_block_hashes` after `blockIndex` rows: the new hashes of those rows
      in order, and the set of hashes seen. */
  ghost predicate Merged(input: seq<PeerHashes>, blockIndex: nat, blockOrder: seq<BlockHeaderHash>,
                         seen: set<BlockHeaderHash>)
  {
    && blockIndex <= Width(input)
    && blockOrder == Dedup(RowMajor(input, blockIndex))
    && seen == Elems(blockOrder)
  }

  /** After merging row `blockIndex`: if no list reached it, the merge is complete; otherwise
      there is a further row to visit. */
  lemma MergedStep(input: seq<PeerHashes>, blockIndex: nat, foundRow: bool,
                   blockOrder: seq<BlockHeaderHash>, seen: set<BlockHeaderHash>)
    requires blockIndex <= Width(input)
    requires blockOrder == Dedup(RowMajor(input, blockIndex + 1)) && seen == Elems(blockOrder)
    requires foundRow <==> Row(input, blockIndex) != []
    ensures foundRow ==> Merged(input, blockIndex + 1, blockOrder, seen)
    ensures !foundRow ==> Merged(input, blockIndex, blockOrder, seen) && blockIndex == Width(input)
  {
    RowReaches(input, blockIndex);
    if !foundRow {
      assert RowMajor(input, blockIndex + 1) == RowMajor(input, blockIndex) + [];
      assert RowMajor(input, blockIndex) + [] == RowMajor(input, blockIndex);
    }
  }

  /** What the row-by-row merge yields: every hash once, and each row-prefix's merge is a
      prefix of it. */
  lemma MergedOrder(input: seq<PeerHashes>)
    ensures Elems(Dedup(RowMajor(input, Width(input)))) == AllHashes(input)
    ensures forall i :: 0 <= i <= Width(input) ==>
      Dedup(RowMajor(input, i)) <= Dedup(RowMajor(input, Width(input)))
  {
    RowMajorCoversAll(input);
    forall i | 0 <= i <= Width(input)
      ensures Dedup(RowMajor(input, i)) <= Dedup(RowMajor(input, Width(input)))
    {
      DedupRowMajorPrefix(input, i);
    }
  }

  /** One pass of the outer loop of `order_block_hashes`: append the new hashes of row
      `blockIndex`, and report whether any list reached that index. */
  method MergeRow(input: seq<PeerHashes>, blockIndex: nat, order: seq<BlockHeaderHash>,
                  seen: set<BlockHeaderHash>)
    returns (blockOrder: seq<BlockHeaderHash>, seen': set<BlockHeaderHash>, foundRow: bool)
    requires order == Dedup(RowMajor(input, blockIndex)) && seen == Elems(order)
    ensures blockOrder == Dedup(RowMajor(input, blockIndex + 1)) && seen' == Elems(blockOrder)
    ensures foundRow <==> Row(input, blockIndex) != []
  {
    blockOrder, seen', foundRow := order, seen, false;
    assert input[..0] == [];
    assert RowMajor(input, blockIndex) + Row(input[..0], blockIndex) == RowMajor(input, blockIndex);
    for j := 0 to |input|
      invariant RowMerged(input, blockIndex, j, blockOrder, seen', foundRow)
    {
      var hashes := input[j].1;
      RowMergedStep(input, blockIndex, j, blockOrder, seen', foundRow);
      if blockIndex < |hashes| {
        var hash := hashes[blockIndex];
        foundRow := true;
        if hash in seen' {
          continue;
        }
        seen' := seen' + {hash};
        blockOrder := blockOrder + [hash];
      }
    }
    assert input[..|input|] == input;
  }

  /** The state of the inner loop of `order_block_hashes` after the first `j` lists of row
      `blockIndex`. */
  ghost predicate RowMerged(input: seq<PeerHashes>, blockIndex: nat, j: nat, blockOrder: seq<BlockHeaderHash>,
                            seen: set<BlockHeaderHash>, foundRow: bool)
  {
    && j <= |input|
    && blockOrder == Dedup(RowMajor(input, blockIndex) + Row(input[..j], blockIndex))
    && seen == Elems(blockOrder)
    && (foundRow <==> Row(input[..j], blockIndex) != [])
  }

  /** One list of the inner loop: its hash at `blockIndex`, when it has one, marks the row as
      found and is appended unless already seen. */
  lemma RowMergedStep(input: seq<PeerHashes>, blockIndex: nat, j: nat, blockOrder: seq<BlockHeaderHash>,
                      seen: set<BlockHeaderHash>, foundRow: bool)
    requires RowMerged(input, blockIndex, j, blockOrder, seen, foundRow) && j < |input|
    ensures blockIndex < |input[j].1| && input[j].1[blockIndex] in seen ==>
      RowMerged(input, blockIndex, j + 1, blockOrder, seen, true)
    ensures blockIndex < |input[j].1| && input[j].1[blockIndex] !in seen ==>
      var hash := input[j].1[blockIndex];
      RowMerged(input, blockIndex, j + 1, blockOrder + [hash], seen + {hash}, true)
    ensures blockIndex >= |input[j].1| ==> RowMerged(input, blockIndex, j + 1, blockOrder, seen, foundRow)
  {
    RowStep(input, j, blockIndex);
    var before := RowMajor(input, blockIndex) + Row(input[..j], blockIndex);
    if blockIndex < |input[j].1| {
      var hash := input[j].1[blockIndex];
      assert before + [hash] == RowMajor(input, blockIndex) + Row(input[..j + 1], blockIndex);
      DedupSnoc(before, hash);
      ElemsSnoc(blockOrder, hash);
    } else {
      assert before == RowMajor(input, blockIndex) + Row(input[..j + 1], blockIndex);
    }
  }

  lemma RowStep(input: seq<PeerHashes>, j: nat, i: nat)
    requires j < |input|
    ensures Row(input[..j + 1], i) ==
      Row(input[..j], i) + (if i < |input[j].1| then [input[j].1[i]] else [])
  {
    assert input[..j + 1][..j] == input[..j];
  }

  /** De-duplicating the first `i` rows gives a prefix of the de-duplication of all rows. */
  lemma DedupRowMajorPrefix(input: seq<PeerHashes>, i: nat)
    requires i <= Width(input)
    ensures Dedup(RowMajor(input, i)) <= Dedup(RowMajor(input, Width(input)))
  {
    RowMajorPrefix(input, i, Width(input));
    DedupMonotone(RowMajor(input, i), RowMajor(input, Width(input)));
  }

  /** Row `i` is non-empty exactly when some list is longer than `i`. */
  lemma RowReaches(input: seq<PeerHashes>, i: nat)
    ensures Row(input, i) != [] <==> i < Width(input)
  {
    if i >= Width(input) {
      RowEmptyBeyond(input, i);
    } else {
      var j :| 0 <= j < |input| && |input[j].1| == Width(input);
      RowAt(input, i, input[j].1[i]);
    }
  }

  lemma {:induction false} RowEmptyBeyond(input: seq<PeerHashes>, i: nat)
    requires forall j :: 0 <= j < |input| ==> |input[j].1| <= i
    ensures Row(input, i) == []
  {
    if input != [] {
      var init := input[..|input| - 1];
      assert forall j :: 0 <= j < |init| ==> input[j] == init[j];
      RowEmptyBeyond(init, i);
    }
  }

  /** Row by row: when a hash of the output already occurs in the first `i` rows, so does
      every hash before it. A hash first seen at a smaller index comes out first. */
  lemma OrderIsRowByRow(input: seq<PeerHashes>, blockOrder: seq<BlockHeaderHash>, p: nat, q: nat, i: nat)
    requires blockOrder == Dedup(RowMajor(input, Width(input)))
    requires p < q < |blockOrder| && i <= Width(input)
    requires blockOrder[q] in RowMajor(input, i)
    ensures blockOrder[p] in RowMajor(input, i)
  {
    var s := RowMajor(input, i);
    DedupRowMajorPrefix(input, i);
    var d := Dedup(s);
    assert blockOrder[q] in Elems(d);
    InPrefixIndex(d, blockOrder, q);
    assert blockOrder[p] == d[p];
    assert blockOrder[p] in Elems(d);
  }

  // ---------------------------------------------------------------------------------
  // block_peer_map

  /** How many times `h` occurs in `hashes`. */
  function Count(hashes: seq<BlockHeaderHash>, h: BlockHeaderHash): nat
  {
    multiset(hashes)[h]
  }

  function Repeat(addr: SocketAddr, n: nat): (r: seq<SocketAddr>)
    ensures |r| == n && forall k :: 0 <= k < n ==> r[k] == addr
  {
    seq(n, _ => addr)
  }

  /** The peers that advertised `h`, in list order, a peer once per occurrence of `h` in its
      list. */
  function Advertisers(blocks: seq<PeerHashes>, h: BlockHeaderHash): seq<SocketAddr>
  {
    if blocks == [] then []
    else
      var last := blocks[|blocks| - 1];
      Advertisers(blocks[..|blocks| - 1], h) + Repeat(last.0, Count(last.1, h))
  }

  /** A peer is listed for `h` exactly when one of its lists holds `h`. */
  lemma {:induction false} AdvertisersExactly(blocks: seq<PeerHashes>, h: BlockHeaderHash, addr: SocketAddr)
    ensures addr in Advertisers(blocks, h) <==>
      exists j :: 0 <= j < |blocks| && blocks[j].0 == addr && h in blocks[j].1
  {
    if blocks != [] {
      var n := |blocks|;
      var init := blocks[..n - 1];
      var last := blocks[n - 1];
      AdvertisersExactly(init, h, addr);
      var prev := Advertisers(init, h);
      var rep := Repeat(last.0, Count(last.1, h));
      assert Advertisers(blocks, h) == prev + rep;
      assert h in last.1 <==> Count(last.1, h) > 0;
      assert addr in rep <==> Count(last.1, h) > 0 && last.0 == addr by {
        if Count(last.1, h) > 0 && last.0 == addr {
          assert rep[0] == addr;
        }
      }
      if addr in prev {
        var j :| 0 <= j < |init| && init[j].0 == addr && h in init[j].1;
        assert blocks[j] == init[j];
      }
      if exists j :: 0 <= j < n && blocks[j].0 == addr && h in blocks[j].1 {
        var j :| 0 <= j < n && blocks[j].0 == addr && h in blocks[j].1;
        if j < n - 1 {
          assert init[j] == blocks[j];
        }
      }
    }
  }

  /** A hash that no list holds has no advertisers; one that some list holds has at least
      one. */
  lemma {:induction false} AdvertisersNonEmpty(blocks: seq<PeerHashes>, h: BlockHeaderHash)
    ensures Advertisers(blocks, h) != [] <==> h in AllHashes(blocks)
  {
    if blocks != [] {
      var last := blocks[|blocks| - 1];
      AdvertisersNonEmpty(blocks[..|blocks| - 1], h);
      assert h in last.1 <==> Count(last.1, h) > 0;
    }
  }

  lemma RepeatSucc(addr: SocketAddr, n: nat)
    ensures Repeat(addr, n + 1) == Repeat(addr, n) + [addr]
  {
  }

  /** `block_peer_map`: for every advertised hash, the peers that advertised it. */
  method BlockPeerMap(blocks: seq<PeerHashes>) returns (m: map<BlockHeaderHash, seq<SocketAddr>>)
    ensures m.Keys == AllHashes(blocks)
    ensures forall h :: h in m ==> m[h] == Advertisers(blocks, h) && m[h] != []
  {
    m := map[];
    for i := 0 to |blocks|
      invariant m.Keys == AllHashes(blocks[..i])
      invariant forall h :: h in m ==> m[h] == Advertisers(blocks[..i], h)
    {
      m := AddPeerHashes(blocks[..i], m, blocks[i].0, blocks[i].1);
      assert blocks[..i + 1][..i] == blocks[..i];
      assert blocks[..i + 1][i] == blocks[i];
    }
    assert blocks[..|blocks|] == blocks;
    forall h | h in m ensures m[h] != [] {
      AdvertisersNonEmpty(blocks, h);
    }
  }

  /** What the inner loop of `block_peer_map` keeps: the table lists every hash seen so
      far, with `addr` pushed once per occurrence in the part of its list already walked. */
  ghost predicate PartlyAdded(m: map<BlockHeaderHash, seq<SocketAddr>>, done: seq<PeerHashes>,
                              addr: SocketAddr, walked: seq<BlockHeaderHash>)
  {
    && m.Keys == AllHashes(done) + Elems(walked)
    && forall h :: h in m ==> m[h] == Advertisers(done, h) + Repeat(addr, Count(walked, h))
  }

  lemma PushStep(m: map<BlockHeaderHash, seq<SocketAddr>>, done: seq<PeerHashes>,
                 addr: SocketAddr, walked: seq<BlockHeaderHash>, hash: BlockHeaderHash)
    requires PartlyAdded(m, done, addr, walked)
    ensures PartlyAdded(m[hash := (if hash in m then m[hash] else []) + [addr]], done, addr, walked + [hash])
  {
    var m' := m[hash := (if hash in m then m[hash] else []) + [addr]];
    ElemsSnoc(walked, hash);
    assert m'.Keys == AllHashes(done) + Elems(walked + [hash]);
    forall h | h in m' ensures m'[h] == Advertisers(done, h) + Repeat(addr, Count(walked + [hash], h)) {
      PushEntry(m, done, addr, walked, hash, h);
    }
  }

  lemma PushEntry(m: map<BlockHeaderHash, seq<SocketAddr>>, done: seq<PeerHashes>,
                  addr: SocketAddr, walked: seq<BlockHeaderHash>, hash: BlockHeaderHash, h: BlockHeaderHash)
    requires PartlyAdded(m, done, addr, walked)
    requires h in m || h == hash
    ensures m[hash := (if hash in m then m[hash] else []) + [addr]][h] ==
      Advertisers(done, h) + Repeat(addr, Count(walked + [hash], h))
  {
    assert multiset(walked + [hash]) == multiset(walked) + multiset{hash};
    if h == hash {
      RepeatSucc(addr, Count(walked, hash));
      if hash !in m {
        AdvertisersNonEmpty(done, hash);
        assert hash !in Elems(walked);
        assert Count(walked, hash) == 0;
      }
    }
  }

  lemma PushDone(m: map<BlockHeaderHash, seq<SocketAddr>>, done: seq<PeerHashes>,
                 addr: SocketAddr, hashes: seq<BlockHeaderHash>)
    requires PartlyAdded(m, done, addr, hashes)
    ensures m.Keys == AllHashes(done + [(addr, hashes)])
    ensures forall h :: h in m ==> m[h] == Advertisers(done + [(addr, hashes)], h)
  {
    var all := done + [(addr, hashes)];
    assert all[..|all| - 1] == done;
  }

  /** The inner loop of `block_peer_map`: push `addr` onto the entry of every hash of
      `hashes`. */
  method AddPeerHashes(done: seq<PeerHashes>, m0: map<BlockHeaderHash, seq<SocketAddr>>,
                       addr: SocketAddr, hashes: seq<BlockHeaderHash>)
    returns (m: map<BlockHeaderHash, seq<SocketAddr>>)
    requires m0.Keys == AllHashes(done)
    requires forall h :: h in m0 ==> m0[h] == Advertisers(done, h)
    ensures m.Keys == AllHashes(done + [(addr, hashes)])
    ensures forall h :: h in m ==> m[h] == Advertisers(done + [(addr, hashes)], h)
  {
    m := m0;
    assert hashes[..0] == [];
    for k := 0 to |hashes|
      invariant PartlyAdded(m, done, addr, hashes[..k])
    {
      var hash := hashes[k];
      assert hashes[..k + 1] == hashes[..k] + [hash];
      PushStep(m, done, addr, hashes[..k], hash);
      var peers := if hash in m then m[hash] else [];
      m := m[hash := peers + [addr]];
    }
    assert hashes[..|hashes|] == hashes;
    PushDone(m, done, addr, hashes);
  }

  // ---------------------------------------------------------------------------------
  // get_peer_blocks

  /** The assignment `get_peer_blocks` builds: the peer chosen for each block, and for each
      chosen peer the blocks it is to be asked for. */
  datatype SyncPlan = SyncPlan(
    blockPeers: map<BlockHeaderHash, SocketAddr>,
    peerBlockRequests: map<SocketAddr, seq<BlockHeaderHash>>)

  /** The block has an entry in the table, with at least one peer to choose from. */
  predicate HasPeers(bpm: map<BlockHeaderHash, seq<SocketAddr>>, b: BlockHeaderHash)
  {
    b in bpm && bpm[b] != []
  }

  /** `pick` is a possible outcome of the random choice for block `b`: no peer exactly when
      there is none to choose from, otherwise one of the block's peers. */
  predicate PickOk(bpm: map<BlockHeaderHash, seq<SocketAddr>>, b: BlockHeaderHash, pick: Option<SocketAddr>)
  {
    (pick.Some? <==> HasPeers(bpm, b)) && (pick.Some? ==> pick.value in bpm[b])
  }

  predicate ValidPicks(blocks: seq<BlockHeaderHash>, bpm: map<BlockHeaderHash, seq<SocketAddr>>,
                       picks: seq<Option<SocketAddr>>)
  {
    |picks| == |blocks| && forall i :: 0 <= i < |blocks| ==> PickOk(bpm, blocks[i], picks[i])
  }

  function RequestsOf(requests: map<SocketAddr, seq<BlockHeaderHash>>, p: SocketAddr): seq<BlockHeaderHash>
  {
    if p in requests then requests[p] else []
  }

  /** The plan that results from the choices `picks`, one per block, walking the blocks in
      order. */
  function Plan(blocks: seq<BlockHeaderHash>, picks: seq<Option<SocketAddr>>): SyncPlan
    requires |picks| == |blocks|
  {
    if blocks == [] then SyncPlan(map[], map[])
    else
      var n := |blocks| - 1;
      var prev := Plan(blocks[..n], picks[..n]);
      match picks[n]
      case None => prev
      case Some(p) =>
        SyncPlan(prev.blockPeers[blocks[n] := p],
                 prev.peerBlockRequests[p := RequestsOf(prev.peerBlockRequests, p) + [blocks[n]]])
  }

  /** Reference definition: the blocks whose pick is `p`, in block order. */
  function AssignedTo(blocks: seq<BlockHeaderHash>, picks: seq<Option<SocketAddr>>, p: SocketAddr): seq<BlockHeaderHash>
    requires |picks| == |blocks|
  {
    if blocks == [] then []
    else
      var n := |blocks| - 1;
      AssignedTo(blocks[..n], picks[..n], p) + (if picks[n] == Some(p) then [blocks[n]] else [])
  }

  lemma {:induction false} AssignedToAt(blocks: seq<BlockHeaderHash>, picks: seq<Option<SocketAddr>>,
                                        p: SocketAddr, b: BlockHeaderHash)
    requires |picks| == |blocks|
    ensures b in AssignedTo(blocks, picks, p) <==>
      exists i :: 0 <= i < |blocks| && blocks[i] == b && picks[i] == Some(p)
  {
    if blocks != [] {
      var n := |blocks| - 1;
      AssignedToAt(blocks[..n], picks[..n], p, b);
      assert forall i :: 0 <= i < n ==> blocks[..n][i] == blocks[i] && picks[..n][i] == picks[i];
    }
  }

  /** The requests of each peer are exactly the blocks assigned to it, in block order, and
      a peer has an entry only when some block was assigned to it. */
  lemma {:induction false} PlanRequests(blocks: seq<BlockHeaderHash>, picks: seq<Option<SocketAddr>>, p: SocketAddr)
    requires |picks| == |blocks|
    ensures p in Plan(blocks, picks).peerBlockRequests <==> AssignedTo(blocks, picks, p) != []
    ensures RequestsOf(Plan(blocks, picks).peerBlockRequests, p) == AssignedTo(blocks, picks, p)
  {
    if blocks != [] {
      var n := |blocks| - 1;
      PlanRequests(blocks[..n], picks[..n], p);
    }
  }

  /** A block has a chosen peer exactly when some occurrence of it was given a pick, and the
      chosen peer is the pick of one of its occurrences. */
  lemma {:induction false} PlanBlockPeers(blocks: seq<BlockHeaderHash>, picks: seq<Option<SocketAddr>>, b: BlockHeaderHash)
    requires |picks| == |blocks|
    ensures b in Plan(blocks, picks).blockPeers <==>
      exists i :: 0 <= i < |blocks| && blocks[i] == b && picks[i].Some?
    ensures b in Plan(blocks, picks).blockPeers ==>
      exists i :: 0 <= i < |blocks| && blocks[i] == b && picks[i] == Some(Plan(blocks, picks).blockPeers[b])
  {
    if blocks != [] {
      var n := |blocks| - 1;
      PlanBlockPeers(blocks[..n], picks[..n], b);
      assert forall i :: 0 <= i < n ==> blocks[..n][i] == blocks[i] && picks[..n][i] == picks[i];
    }
  }

  /** With valid picks, exactly the listed blocks that have peers get one, and each gets one of
      the peers that advertised it. */
  lemma PlanChoosesAdvertisers(blocks: seq<BlockHeaderHash>, bpm: map<BlockHeaderHash, seq<SocketAddr>>,
                               picks: seq<Option<SocketAddr>>, b: BlockHeaderHash)
    requires ValidPicks(blocks, bpm, picks)
    ensures b in Plan(blocks, picks).blockPeers <==> b in blocks && HasPeers(bpm, b)
    ensures b in Plan(blocks, picks).blockPeers ==> Plan(blocks, picks).blockPeers[b] in bpm[b]
  {
    PlanBlockPeers(blocks, picks, b);
    if b in blocks && HasPeers(bpm, b) {
      var i :| 0 <= i < |blocks| && blocks[i] == b;
      assert PickOk(bpm, blocks[i], picks[i]);
    }
  }

  /** When no block is listed twice, the two maps agree: `b` is among the requests of `p`
      exactly when `p` is the peer chosen for `b`. */
  lemma PlanAgrees(blocks: seq<BlockHeaderHash>, picks: seq<Option<SocketAddr>>, p: SocketAddr, b: BlockHeaderHash)
    requires |picks| == |blocks| && NoDuplicates(blocks)
    ensures b in RequestsOf(Plan(blocks, picks).peerBlockRequests, p) <==>
      b in Plan(blocks, picks).blockPeers && Plan(blocks, picks).blockPeers[b] == p
  {
    PlanRequests(blocks, picks, p);
    AssignedToAt(blocks, picks, p, b);
    PlanBlockPeers(blocks, picks, b);
  }

  lemma PlanSnoc(blocks: seq<BlockHeaderHash>, picks: seq<Option<SocketAddr>>, b: BlockHeaderHash, pick: Option<SocketAddr>)
    requires |picks| == |blocks|
    ensures Plan(blocks + [b], picks + [pick]) ==
      match pick
      case None => Plan(blocks, picks)
      case Some(p) =>
        SyncPlan(Plan(blocks, picks).blockPeers[b := p],
                 Plan(blocks, picks).peerBlockRequests[p := RequestsOf(Plan(blocks, picks).peerBlockRequests, p) + [b]])
  {
    assert (blocks + [b])[..|blocks|] == blocks;
    assert (picks + [pick])[..|picks|] == picks;
  }

  /** `get_peer_blocks`: for each wanted block that has peers, choose one of them at random,
      record the choice, and add the block to that peer's requests. The random choices are
      returned as the ghost `picks`. */
  method GetPeerBlocks(blocks: seq<BlockHeaderHash>, bpm: map<BlockHeaderHash, seq<SocketAddr>>)
    returns (addresses: seq<SocketAddr>, blockPeers: map<BlockHeaderHash, SocketAddr>,
             peerBlockRequests: map<SocketAddr, seq<BlockHeaderHash>>, ghost picks: seq<Option<SocketAddr>>)
    ensures ValidPicks(blocks, bpm, picks)
    ensures SyncPlan(blockPeers, peerBlockRequests) == Plan(blocks, picks)
    ensures forall b :: b in blockPeers <==> b in blocks && HasPeers(bpm, b)
    ensures forall b :: b in blockPeers ==> blockPeers[b] in bpm[b]
    ensures forall p :: p in peerBlockRequests ==> peerBlockRequests[p] == AssignedTo(blocks, picks, p) != []
    ensures NoDuplicates(addresses) && Elems(addresses) == peerBlockRequests.Keys
  {
    peerBlockRequests := map[];
    blockPeers := map[];
    picks := [];
    for i := 0 to |blocks|
      invariant ValidPicks(blocks[..i], bpm, picks)
      invariant SyncPlan(blockPeers, peerBlockRequests) == Plan(blocks[..i], picks)
    {
      var block := blocks[i];
      assert blocks[..i + 1] == blocks[..i] + [block];
      if block !in bpm || |bpm[block]| == 0 {
        PlanSnoc(blocks[..i], picks, block, None);
        picks := picks + [None];
        continue;
      }
      var peers := bpm[block];
      var k :| 0 <= k < |peers|;
      var randomPeer := peers[k];
      PlanSnoc(blocks[..i], picks, block, Some(randomPeer));
      blockPeers := blockPeers[block := randomPeer];
      var requests := if randomPeer in peerBlockRequests then peerBlockRequests[randomPeer] else [];
      peerBlockRequests := peerBlockRequests[randomPeer := requests + [block]];
      picks := picks + [Some(randomPeer)];
    }
    assert blocks[..|blocks|] == blocks;
    addresses := KeysOf(peerBlockRequests);
    forall b ensures b in blockPeers <==> b in blocks && HasPeers(bpm, b)
      ensures b in blockPeers ==> blockPeers[b] in bpm[b]
    {
      PlanChoosesAdvertisers(blocks, bpm, picks, b);
    }
    forall p | p in peerBlockRequests ensures peerBlockRequests[p] == AssignedTo(blocks, picks, p) != [] {
      PlanRequests(blocks, picks, p);
    }
  }

  /** The keys of a map, each once, in an unspecified order (a hash map's iteration order). */
  method KeysOf<K, V>(m: map<K, V>) returns (keys: seq<K>)
    ensures NoDuplicates(keys) && Elems(keys) == m.Keys
  {
    keys := [];
    var rest := m.Keys;
    while rest != {}
      invariant NoDuplicates(keys) && Elems(keys) !! rest && Elems(keys) + rest == m.Keys
      decreases |rest|
    {
      var k :| k in rest;
      AppendFresh(keys, k);
      keys := keys + [k];
      rest := rest - {k};
    }
  }

  // ---------------------------------------------------------------------------------
  // find_sync_nodes

  /** A peer worth syncing from: not judged bad, and more than one block ahead of us. */
  predicate IsInteresting(peer: Peer, ourHeight: nat)
  {
    !peer.judgedBad && peer.blockHeight > ourHeight + 1
  }

  /** The interesting peers of the snapshot, in snapshot order. */
  function InterestingPeers(peers: seq<Peer>, ourHeight: nat): (r: seq<Peer>)
    ensures forall p :: p in r <==> p in peers && IsInteresting(p, ourHeight)
    ensures |r| <= |peers|
  {
    if peers == [] then []
    else
      var init := peers[..|peers| - 1];
      var last := peers[|peers| - 1];
      assert peers == init + [last];
      InterestingPeers(init, ourHeight) + (if IsInteresting(last, ourHeight) then [last] else [])
  }

  /** Highest block height first. */
  predicate ByHeightDescending(s: seq<Peer>)
  {
    forall i, j :: 0 <= i < j < |s| ==> s[i].blockHeight >= s[j].blockHeight
  }

  /** Insert `x` after every peer at least as high as it, keeping the order by height. */
  method InsertByHeight(sorted: seq<Peer>, x: Peer) returns (r: seq<Peer>)
    requires ByHeightDescending(sorted)
    ensures ByHeightDescending(r)
    ensures multiset(r) == multiset(sorted) + multiset{x}
  {
    var j := 0;
    while j < |sorted| && sorted[j].blockHeight >= x.blockHeight
      invariant 0 <= j <= |sorted|
      invariant forall k :: 0 <= k < j ==> sorted[k].blockHeight >= x.blockHeight
    {
      j := j + 1;
    }
    r := sorted[..j] + [x] + sorted[j..];
    assert sorted == sorted[..j] + sorted[j..];
    InsertKeepsOrder(sorted, x, j);
  }

  lemma InsertKeepsOrder(sorted: seq<Peer>, x: Peer, j: nat)
    requires ByHeightDescending(sorted) && j <= |sorted|
    requires forall k :: 0 <= k < j ==> sorted[k].blockHeight >= x.blockHeight
    requires j < |sorted| ==> sorted[j].blockHeight < x.blockHeight
    ensures ByHeightDescending(sorted[..j] + [x] + sorted[j..])
  {
    var r := sorted[..j] + [x] + sorted[j..];
    assert forall k :: 0 <= k < j ==> r[k] == sorted[k];
    assert r[j] == x;
    assert forall k :: j < k < |r| ==> r[k] == sorted[k - 1];
    forall a, b | 0 <= a < b < |r| ensures r[a].blockHeight >= r[b].blockHeight {
      if b < j {
      } else if b == j {
      } else if a < j {
        assert r[a].blockHeight >= sorted[b - 1].blockHeight;
      } else if a == j {
        assert sorted[j].blockHeight >= sorted[b - 1].blockHeight;
      }
    }
  }

  /** The `sort_by` of `find_sync_nodes`, as an insertion sort on heights, highest first. */
  method SortByHeightDescending(s: seq<Peer>) returns (r: seq<Peer>)
    ensures ByHeightDescending(r)
    ensures multiset(r) == multiset(s)
  {
    r := [];
    for i := 0 to |s|
      invariant ByHeightDescending(r)
      invariant multiset(r) == multiset(s[..i])
    {
      assert s[..i + 1] == s[..i] + [s[i]];
      r := InsertByHeight(r, s[i]);
    }
    assert s[..|s|] == s;
  }

  /** `find_sync_nodes`: keep the interesting peers, highest first; when some of them are
      within ten blocks of us, keep those more than ten ahead and the highest close one. The
      sorted list before trimming is the ghost `sorted`. */
  method FindSyncNodes(connected: seq<Peer>, ourHeight: nat) returns (interesting: seq<Peer>, ghost sorted: seq<Peer>)
    ensures multiset(sorted) == multiset(InterestingPeers(connected, ourHeight))
    ensures ByHeightDescending(sorted)
    ensures interesting <= sorted
    ensures forall k :: 0 <= k < |interesting| - 1 ==> interesting[k].blockHeight > ourHeight + 10
    ensures interesting == sorted ||
      (interesting != [] && interesting[|interesting| - 1].blockHeight <= ourHeight + 10)
    ensures forall p :: p in sorted && p.blockHeight > ourHeight + 10 ==> p in interesting
    ensures forall p :: p in interesting ==> p in connected && IsInteresting(p, ourHeight)
  {
    var candidates := FilterInteresting(connected, ourHeight);
    var byHeight := SortByHeightDescending(candidates);
    sorted := byHeight;
    interesting := TrimClose(byHeight, ourHeight);
    forall p | p in interesting ensures p in connected && IsInteresting(p, ourHeight) {
      assert p in multiset(sorted);
    }
  }

  /** The loop of `find_sync_nodes` that collects the interesting peers of the snapshot. */
  method FilterInteresting(connected: seq<Peer>, ourHeight: nat) returns (candidates: seq<Peer>)
    ensures candidates == InterestingPeers(connected, ourHeight)
  {
    candidates := [];
    for i := 0 to |connected|
      invariant candidates == InterestingPeers(connected[..i], ourHeight)
    {
      var node := connected[i];
      assert connected[..i + 1][..i] == connected[..i];
      if !node.judgedBad && node.blockHeight > ourHeight + 1 {
        candidates := candidates + [node];
      }
    }
    assert connected[..|connected|] == connected;
  }

  /** The trim of `find_sync_nodes`: cut the list just after the first peer within ten
      blocks of us, if there is one. */
  method TrimClose(byHeight: seq<Peer>, ourHeight: nat) returns (interesting: seq<Peer>)
    ensures interesting <= byHeight
    ensures forall k :: 0 <= k < |interesting| - 1 ==> interesting[k].blockHeight > ourHeight + 10
    ensures interesting == byHeight ||
      (interesting != [] && interesting[|interesting| - 1].blockHeight <= ourHeight + 10)
    ensures ByHeightDescending(byHeight) ==>
      forall p :: p in byHeight && p.blockHeight > ourHeight + 10 ==> p in interesting
  {
    var pos := 0;
    while pos < |byHeight| && byHeight[pos].blockHeight > ourHeight + 10
      invariant 0 <= pos <= |byHeight|
      invariant forall k :: 0 <= k < pos ==> byHeight[k].blockHeight > ourHeight + 10
    {
      pos := pos + 1;
    }
    if pos < |byHeight| {
      interesting := byHeight[..pos + 1];
    } else {
      interesting := byHeight;
    }
  }

  // ---------------------------------------------------------------------------------
  // receive_sync_hashes and receive_sync_blocks

  /** The hash lists held after handling `msgs`: the latest list per address; blocks are
      ignored. */
  function ReceivedHashes(msgs: seq<SyncInbound>): map<SocketAddr, seq<BlockHeaderHash>>
  {
    if msgs == [] then map[]
    else
      var prev := ReceivedHashes(msgs[..|msgs| - 1]);
      match msgs[|msgs| - 1]
      case BlockHashes(addr, hashes) => prev[addr := hashes]
      case Block(_, _) => prev
  }

  /** An address has a hash list exactly when it sent one, and the list is the last one it
      sent. */
  lemma {:induction false} LatestHashes(msgs: seq<SyncInbound>, addr: SocketAddr)
    ensures addr in ReceivedHashes(msgs) <==> exists i :: 0 <= i < |msgs| && SentBy(msgs[i], addr)
    ensures addr in ReceivedHashes(msgs) ==>
      exists i :: 0 <= i < |msgs| && msgs[i] == BlockHashes(addr, ReceivedHashes(msgs)[addr]) &&
        forall j :: i < j < |msgs| ==> !SentBy(msgs[j], addr)
  {
    if msgs != [] {
      var n := |msgs|;
      var init := msgs[..n - 1];
      LatestHashes(init, addr);
      assert forall i :: 0 <= i < |init| ==> msgs[i] == init[i];
      if SentBy(msgs[n - 1], addr) {
        assert ReceivedHashes(msgs)[addr] == msgs[n - 1].hashes;
        assert msgs[n - 1] == BlockHashes(addr, ReceivedHashes(msgs)[addr]);
      } else {
        assert addr in ReceivedHashes(msgs) <==> addr in ReceivedHashes(init);
        if addr in ReceivedHashes(init) {
          assert ReceivedHashes(msgs)[addr] == ReceivedHashes(init)[addr];
          var i :| 0 <= i < |init| && init[i] == BlockHashes(addr, ReceivedHashes(init)[addr]) &&
            forall j :: i < j < |init| ==> !SentBy(init[j], addr);
          assert msgs[i] == BlockHashes(addr, ReceivedHashes(msgs)[addr]);
          assert forall j :: i < j < n ==> !SentBy(msgs[j], addr);
        }
        if exists i :: 0 <= i < n && SentBy(msgs[i], addr) {
          var i :| 0 <= i < n && SentBy(msgs[i], addr);
          assert SentBy(init[i], addr);
        }
      }
    }
  }

  /** The message is a hash list sent by `addr`. */
  predicate SentBy(m: SyncInbound, addr: SocketAddr)
  {
    m.BlockHashes? && m.addr == addr
  }

  /** One more message adds at most one address. */
  lemma HashesStep(msgs: seq<SyncInbound>, n: nat)
    requires n < |msgs|
    ensures ReceivedHashes(msgs[..n + 1]) ==
      match msgs[n]
      case BlockHashes(addr, hashes) => ReceivedHashes(msgs[..n])[addr := hashes]
      case Block(_, _) => ReceivedHashes(msgs[..n])
    ensures |ReceivedHashes(msgs[..n + 1])| <= |ReceivedHashes(msgs[..n])| + 1
  {
    assert msgs[..n + 1][..n] == msgs[..n];
  }

  /** `receive_sync_hashes`: handle the messages that arrive before the deadline, in order,
      until the number of addresses heard from reaches `maxMessageCount`. Returns the
      hash lists and how many messages were taken from the channel. */
  method ReceiveSyncHashes(msgs: seq<SyncInbound>, maxMessageCount: nat)
    returns (received: map<SocketAddr, seq<BlockHeaderHash>>, consumed: nat)
    ensures consumed <= |msgs|
    ensures received == ReceivedHashes(msgs[..consumed])
    ensures forall k :: 0 < k < consumed ==> |ReceivedHashes(msgs[..k])| < maxMessageCount
    ensures consumed < |msgs| ==> 0 < consumed && |received| >= maxMessageCount
    ensures maxMessageCount > 0 ==> |received| <= maxMessageCount
  {
    received := map[];
    consumed := 0;
    while consumed < |msgs|
      invariant consumed <= |msgs|
      invariant received == ReceivedHashes(msgs[..consumed])
      invariant forall k :: 0 < k <= consumed ==> |ReceivedHashes(msgs[..k])| < maxMessageCount
      invariant maxMessageCount > 0 ==> |received| < maxMessageCount
    {
      HashesStep(msgs, consumed);
      match msgs[consumed] {
        case BlockHashes(addr, hashes) =>
          received := received[addr := hashes];
        case Block(_, _) =>
      }
      consumed := consumed + 1;
      if |received| >= maxMessageCount {
        break;
      }
    }
  }

  /** The blocks held after handling `msgs`: every block, in arrival order; late hash lists
      are ignored. */
  function ReceivedBlocks(msgs: seq<SyncInbound>): seq<SyncBlock>
  {
    if msgs == [] then []
    else
      var prev := ReceivedBlocks(msgs[..|msgs| - 1]);
      match msgs[|msgs| - 1]
      case BlockHashes(_, _) => prev
      case Block(addr, block) => prev + [SyncBlock(addr, block)]
  }

  /** Handling two runs of messages one after the other keeps each run's blocks, in order. */
  lemma {:induction false} ReceivedBlocksAppend(a: seq<SyncInbound>, b: seq<SyncInbound>)
    ensures ReceivedBlocks(a + b) == ReceivedBlocks(a) + ReceivedBlocks(b)
  {
    if b == [] {
      assert a + b == a;
    } else {
      var init := b[..|b| - 1];
      ReceivedBlocksAppend(a, init);
      assert (a + b)[..|a + b| - 1] == a + init;
    }
  }

  /** Each message yields at most one block, and a block message yields exactly its own. */
  lemma {:induction false} ReceivedBlocksCount(msgs: seq<SyncInbound>)
    ensures |ReceivedBlocks(msgs)| <= |msgs|
    ensures forall b :: b in ReceivedBlocks(msgs) <==> Block(b.address, b.block) in msgs
  {
    if msgs != [] {
      var init := msgs[..|msgs| - 1];
      ReceivedBlocksCount(init);
      assert msgs == init + [msgs[|msgs| - 1]];
    }
  }

  /** `receive_sync_blocks`: handle the messages that arrive before the deadline, in order,
      until `blockCount` blocks are held. Returns the blocks and how many messages were
      taken from the channel. */
  method ReceiveSyncBlocks(msgs: seq<SyncInbound>, blockCount: nat)
    returns (blocks: seq<SyncBlock>, consumed: nat)
    ensures consumed <= |msgs|
    ensures blocks == ReceivedBlocks(msgs[..consumed])
    ensures forall k :: 0 < k < consumed ==> |ReceivedBlocks(msgs[..k])| < blockCount
    ensures consumed < |msgs| ==> 0 < consumed && |blocks| >= blockCount
    ensures blockCount > 0 ==> |blocks| <= blockCount
  {
    blocks := [];
    consumed := 0;
    while consumed < |msgs|
      invariant consumed <= |msgs|
      invariant blocks == ReceivedBlocks(msgs[..consumed])
      invariant forall k :: 0 < k <= consumed ==> |ReceivedBlocks(msgs[..k])| < blockCount
      invariant blockCount > 0 ==> |blocks| < blockCount
    {
      assert msgs[..consumed + 1][..consumed] == msgs[..consumed];
      match msgs[consumed] {
        case BlockHashes(_, _) =>
        case Block(address, block) =>
          blocks := blocks + [SyncBlock(address, block)];
      }
      consumed := consumed + 1;
      if |blocks| >= blockCount {
        break;
      }
    }
  }

  // ---------------------------------------------------------------------------------
  // run: dropping known blocks and processing received blocks in order

  /** The hashes of `early` the ledger does not hold yet, in order. */
  function DropKnown(early: seq<BlockHeaderHash>, known: set<BlockHeaderHash>): (r: seq<BlockHeaderHash>)
    ensures |r| <= |early|
    ensures forall i :: 0 <= i < |r| ==> r[i] !in known
  {
    if early == [] then []
    else
      var init := early[..|early| - 1];
      var last := early[|early| - 1];
      DropKnown(init, known) + (if last in known then [] else [last])
  }

  /** The filter keeps exactly the unknown hashes and repeats none. */
  lemma {:induction false} DropKnownElems(early: seq<BlockHeaderHash>, known: set<BlockHeaderHash>)
    ensures forall x :: x in DropKnown(early, known) <==> x in early && x !in known
    ensures NoDuplicates(early) ==> NoDuplicates(DropKnown(early, known))
  {
    if early != [] {
      var init := early[..|early| - 1];
      var last := early[|early| - 1];
      assert early == init + [last];
      DropKnownElems(init, known);
      if NoDuplicates(early) {
        NoDuplicatesInit(early);
        if last !in known {
          AppendFresh(DropKnown(init, known), last);
        } else {
          assert DropKnown(early, known) == DropKnown(init, known);
        }
      }
    }
  }

  /** Dropping known hashes works piece by piece, so it keeps the relative order. */
  lemma {:induction false} DropKnownAppend(a: seq<BlockHeaderHash>, b: seq<BlockHeaderHash>, known: set<BlockHeaderHash>)
    ensures DropKnown(a + b, known) == DropKnown(a, known) + DropKnown(b, known)
  {
    if b == [] {
      assert a + b == a;
    } else {
      var init := b[..|b| - 1];
      DropKnownAppend(a, init, known);
      assert (a + b)[..|a + b| - 1] == a + init;
    }
  }

  /** What the processing loop of `run` can fail with. */
  datatype SyncError =
    | ShortBlock      // a received block is shorter than a block header: the slice panics
    | ProcessFailed   // `process_received_block` returned an error

  /** The hash a received block is filed under: the digest of its header bytes. */
  function HeaderHash(block: SyncBlock, headerSize: nat, digest: seq<bv8> -> BlockHeaderHash): BlockHeaderHash
    requires headerSize <= |block.block|
  {
    digest(block.block[..headerSize])
  }

  predicate AllHaveHeaders(received: seq<SyncBlock>, headerSize: nat)
  {
    forall k :: 0 <= k < |received| ==> headerSize <= |received[k].block|
  }

  /** `blocks_by_hash`: each received block filed under its header hash; of two blocks with
      the same hash the later one is kept. */
  function BlocksByHash(received: seq<SyncBlock>, headerSize: nat, digest: seq<bv8> -> BlockHeaderHash): map<BlockHeaderHash, SyncBlock>
    requires AllHaveHeaders(received, headerSize)
  {
    if received == [] then map[]
    else
      var last := received[|received| - 1];
      BlocksByHash(received[..|received| - 1], headerSize, digest)[HeaderHash(last, headerSize, digest) := last]
  }

  /** A hash is filed exactly when some received block has it, and the block filed under it
      is the last received block with that hash. */
  lemma {:induction false} BlocksByHashAt(received: seq<SyncBlock>, headerSize: nat,
                                          digest: seq<bv8> -> BlockHeaderHash, h: BlockHeaderHash)
    requires AllHaveHeaders(received, headerSize)
    ensures h in BlocksByHash(received, headerSize, digest) <==>
      exists k :: 0 <= k < |received| && HeaderHash(received[k], headerSize, digest) == h
    ensures h in BlocksByHash(received, headerSize, digest) ==>
      exists k :: 0 <= k < |received| && received[k] == BlocksByHash(received, headerSize, digest)[h] &&
        HeaderHash(received[k], headerSize, digest) == h &&
        forall j :: k < j < |received| ==> HeaderHash(received[j], headerSize, digest) != h
  {
    if received != [] {
      var init := received[..|received| - 1];
      assert forall k :: 0 <= k < |init| ==> received[k] == init[k];
      BlocksByHashAt(init, headerSize, digest, h);
    }
  }

  /** The hashes of `s` that are in `keys`, in order. */
  function KeepIn(s: seq<BlockHeaderHash>, keys: set<BlockHeaderHash>): seq<BlockHeaderHash>
  {
    if s == [] then []
    else
      var init := s[..|s| - 1];
      var last := s[|s| - 1];
      KeepIn(init, keys) + (if last in keys then [last] else [])
  }

  /** The filter keeps exactly the hashes in `keys` and repeats none. */
  lemma {:induction false} KeepInElems(s: seq<BlockHeaderHash>, keys: set<BlockHeaderHash>)
    ensures forall x :: x in KeepIn(s, keys) <==> x in s && x in keys
    ensures NoDuplicates(s) ==> NoDuplicates(KeepIn(s, keys))
  {
    if s != [] {
      var init := s[..|s| - 1];
      var last := s[|s| - 1];
      assert s == init + [last];
      KeepInElems(init, keys);
      if NoDuplicates(s) {
        NoDuplicatesInit(s);
        if last in keys {
          AppendFresh(KeepIn(init, keys), last);
        } else {
          assert KeepIn(s, keys) == KeepIn(init, keys);
        }
      }
    }
  }

  /** The hashes whose blocks are processed, in processing order: those of the block order
      that were received, each once. */
  function Wanted(blockOrder: seq<BlockHeaderHash>, keys: set<BlockHeaderHash>): seq<BlockHeaderHash>
  {
    Dedup(KeepIn(blockOrder, keys))
  }

  /** When the block order has no repeated hash, which is what `order_block_hashes` yields,
      the processed hashes are just the received ones in block order. */
  lemma WantedWhenDistinct(blockOrder: seq<BlockHeaderHash>, keys: set<BlockHeaderHash>)
    requires NoDuplicates(blockOrder)
    ensures Wanted(blockOrder, keys) == KeepIn(blockOrder, keys)
  {
    KeepInElems(blockOrder, keys);
    DedupOfDistinct(KeepIn(blockOrder, keys));
  }

  /** The last part of `run`: file the received blocks by header hash, then hand them to
      `process` in block order, each hash at most once; stop at the first failure.
      `processed` lists the blocks handed over, the ghost `hashes` the hashes they were taken
      under. */
  method ProcessInOrder(blockOrder: seq<BlockHeaderHash>, received: seq<SyncBlock>, headerSize: nat,
                        digest: seq<bv8> -> BlockHeaderHash, fails: SyncBlock -> bool)
    returns (processed: seq<SyncBlock>, ghost hashes: seq<BlockHeaderHash>, r: Result<(), SyncError>)
    ensures r == Err(ShortBlock) <==> !AllHaveHeaders(received, headerSize)
    ensures r == Err(ShortBlock) ==> processed == []
    ensures r != Err(ShortBlock) ==>
      var byHash := BlocksByHash(received, headerSize, digest);
      && hashes <= Wanted(blockOrder, byHash.Keys)
      && TakenUnder(processed, hashes, byHash)
      && (r.Ok? ==> hashes == Wanted(blockOrder, byHash.Keys) && NoneFail(processed, fails))
      && (r == Err(ProcessFailed) ==>
            processed != [] && NoneFail(processed[..|processed| - 1], fails) && fails(processed[|processed| - 1]))
  {
    var filed := FileByHash(received, headerSize, digest);
    if filed.Err? {
      processed, hashes, r := [], [], Err(ShortBlock);
      return;
    }
    processed, hashes, r := ProcessFiled(blockOrder, filed.value, fails);
  }

  /** The second loop of the processing: walk the block order, hand over and remove the block
      filed under each hash, and stop at the first failure. */
  method ProcessFiled(blockOrder: seq<BlockHeaderHash>, byHash: map<BlockHeaderHash, SyncBlock>, fails: SyncBlock -> bool)
    returns (processed: seq<SyncBlock>, ghost hashes: seq<BlockHeaderHash>, r: Result<(), SyncError>)
    ensures r != Err(ShortBlock)
    ensures hashes <= Wanted(blockOrder, byHash.Keys)
    ensures TakenUnder(processed, hashes, byHash)
    ensures r.Ok? ==> hashes == Wanted(blockOrder, byHash.Keys) && NoneFail(processed, fails)
    ensures r == Err(ProcessFailed) ==>
      processed != [] && NoneFail(processed[..|processed| - 1], fails) && fails(processed[|processed| - 1])
  {
    processed, hashes := [], [];
    var blocksByHash := byHash;
    ProgressStart(blockOrder, byHash);
    for i := 0 to |blockOrder|
      invariant Progress(blockOrder, i, byHash, blocksByHash, processed, hashes)
      invariant NoneFail(processed, fails)
    {
      var hash := blockOrder[i];
      if hash in blocksByHash {
        var block := blocksByHash[hash];
        ProgressTake(blockOrder, i, byHash, blocksByHash, processed, hashes);
        blocksByHash := blocksByHash - {hash};
        ghost var before := processed;
        processed := processed + [block];
        hashes := hashes + [hash];
        if fails(block) {
          assert processed[..|processed| - 1] == before;
          r := Err(ProcessFailed);
          return;
        }
      } else {
        ProgressSkip(blockOrder, i, byHash, blocksByHash, processed, hashes);
      }
    }
    assert blockOrder[..|blockOrder|] == blockOrder;
    r := Ok(());
  }

  /** The state of the processing loop after the first `i` hashes of the order: `hashes`
      were processed (each received hash of the order, once), `left` holds the blocks not
      taken yet. */
  ghost predicate Progress(blockOrder: seq<BlockHeaderHash>, i: nat, byHash: map<BlockHeaderHash, SyncBlock>,
                           left: map<BlockHeaderHash, SyncBlock>, processed: seq<SyncBlock>, hashes: seq<BlockHeaderHash>)
  {
    && i <= |blockOrder|
    && hashes == Wanted(blockOrder[..i], byHash.Keys)
    && hashes <= Wanted(blockOrder, byHash.Keys)
    && left == byHash - Elems(hashes)
    && TakenUnder(processed, hashes, byHash)
  }

  lemma ProgressStart(blockOrder: seq<BlockHeaderHash>, byHash: map<BlockHeaderHash, SyncBlock>)
    ensures Progress(blockOrder, 0, byHash, byHash, [], [])
  {
    assert KeepIn(blockOrder[..0], byHash.Keys) == [];
    assert byHash - Elems<BlockHeaderHash>([]) == byHash;
  }

  lemma ProgressSkip(blockOrder: seq<BlockHeaderHash>, i: nat, byHash: map<BlockHeaderHash, SyncBlock>,
                     left: map<BlockHeaderHash, SyncBlock>, processed: seq<SyncBlock>, hashes: seq<BlockHeaderHash>)
    requires Progress(blockOrder, i, byHash, left, processed, hashes)
    requires i < |blockOrder| && blockOrder[i] !in left
    ensures Progress(blockOrder, i + 1, byHash, left, processed, hashes)
  {
    WantedStep(blockOrder, i, byHash.Keys);
    WantedMonotone(blockOrder, i + 1, byHash.Keys);
  }

  lemma ProgressTake(blockOrder: seq<BlockHeaderHash>, i: nat, byHash: map<BlockHeaderHash, SyncBlock>,
                     left: map<BlockHeaderHash, SyncBlock>, processed: seq<SyncBlock>, hashes: seq<BlockHeaderHash>)
    requires Progress(blockOrder, i, byHash, left, processed, hashes)
    requires i < |blockOrder| && blockOrder[i] in left
    ensures left[blockOrder[i]] == byHash[blockOrder[i]]
    ensures Progress(blockOrder, i + 1, byHash, left - {blockOrder[i]},
                     processed + [left[blockOrder[i]]], hashes + [blockOrder[i]])
  {
    WantedStep(blockOrder, i, byHash.Keys);
    WantedMonotone(blockOrder, i + 1, byHash.Keys);
    TakeStep(processed, hashes, byHash, blockOrder[i]);
  }

  /** No block of `processed` failed to process. */
  predicate NoneFail(processed: seq<SyncBlock>, fails: SyncBlock -> bool)
  {
    forall k :: 0 <= k < |processed| ==> !fails(processed[k])
  }

  /** `processed[k]` is the block filed under `hashes[k]`. */
  predicate TakenUnder(processed: seq<SyncBlock>, hashes: seq<BlockHeaderHash>, byHash: map<BlockHeaderHash, SyncBlock>)
  {
    |processed| == |hashes| &&
    forall k :: 0 <= k < |hashes| ==> hashes[k] in byHash && processed[k] == byHash[hashes[k]]
  }

  lemma TakeStep(processed: seq<SyncBlock>, hashes: seq<BlockHeaderHash>, byHash: map<BlockHeaderHash, SyncBlock>,
                 hash: BlockHeaderHash)
    requires TakenUnder(processed, hashes, byHash) && hash in byHash - Elems(hashes)
    ensures TakenUnder(processed + [byHash[hash]], hashes + [hash], byHash)
    ensures (byHash - Elems(hashes)) - {hash} == byHash - Elems(hashes + [hash])
    ensures (byHash - Elems(hashes))[hash] == byHash[hash]
  {
    ElemsSnoc(hashes, hash);
  }

  /** The first loop of the processing: file each received block under its header hash,
      panicking (`ShortBlock`) at a block too short to hold a header. */
  method FileByHash(received: seq<SyncBlock>, headerSize: nat, digest: seq<bv8> -> BlockHeaderHash)
    returns (r: Result<map<BlockHeaderHash, SyncBlock>, SyncError>)
    ensures r.Err? <==> !AllHaveHeaders(received, headerSize)
    ensures r.Ok? ==> r.value == BlocksByHash(received, headerSize, digest)
  {
    var blocksByHash := map[];
    for i := 0 to |received|
      invariant AllHaveHeaders(received[..i], headerSize)
      invariant blocksByHash == BlocksByHash(received[..i], headerSize, digest)
    {
      var block := received[i];
      if |block.block| < headerSize {
        return Err(ShortBlock);
      }
      assert received[..i + 1][..i] == received[..i];
      blocksByHash := blocksByHash[digest(block.block[..headerSize]) := block];
    }
    assert received[..|received|] == received;
    return Ok(blocksByHash);
  }

  /** One step of the processing loop: the next hash of the order joins the processed ones
      exactly when it was received and not processed yet. */
  lemma WantedStep(blockOrder: seq<BlockHeaderHash>, i: nat, keys: set<BlockHeaderHash>)
    requires i < |blockOrder|
    ensures Wanted(blockOrder[..i + 1], keys) ==
      if blockOrder[i] in keys && blockOrder[i] !in Elems(Wanted(blockOrder[..i], keys))
      then Wanted(blockOrder[..i], keys) + [blockOrder[i]]
      else Wanted(blockOrder[..i], keys)
  {
    var pre := blockOrder[..i];
    var x := blockOrder[i];
    var k := KeepIn(pre, keys);
    assert blockOrder[..i + 1][..i] == pre;
    assert KeepIn(blockOrder[..i + 1], keys) == k + (if x in keys then [x] else []);
    if x in keys {
      DedupSnoc(k, x);
      assert x in Elems(Dedup(k)) <==> x in k;
    } else {
      assert k + [] == k;
    }
  }

  lemma WantedMonotone(blockOrder: seq<BlockHeaderHash>, i: nat, keys: set<BlockHeaderHash>)
    requires i <= |blockOrder|
    ensures Wanted(blockOrder[..i], keys) <= Wanted(blockOrder, keys)
  {
    KeepInPrefix(blockOrder, i, keys);
    DedupMonotone(KeepIn(blockOrder[..i], keys), KeepIn(blockOrder, keys));
  }

  lemma {:induction false} KeepInPrefix(s: seq<BlockHeaderHash>, i: nat, keys: set<BlockHeaderHash>)
    requires i <= |s|
    ensures KeepIn(s[..i], keys) <= KeepIn(s, keys)
    decreases |s|
  {
    if i < |s| {
      var init := s[..|s| - 1];
      KeepInPrefix(init, i, keys);
      assert init[..i] == s[..i];
    } else {
      assert s[..i] == s;
    }
  }

  // ---------------------------------------------------------------------------------
  // run: the planning steps between receiving the hashes and requesting the blocks

  /** The entries of `received` as a list, each address once, in an unspecified order (what
      collecting a hash map yields). */
  method EntriesOf(received: map<SocketAddr, seq<BlockHeaderHash>>) returns (blocks: seq<PeerHashes>)
    ensures forall j :: 0 <= j < |blocks| ==> blocks[j].0 in received && blocks[j].1 == received[blocks[j].0]
    ensures forall a :: a in received ==> exists j :: 0 <= j < |blocks| && blocks[j].0 == a
    ensures |blocks| == |received|
  {
    var keys := KeysOf(received);
    blocks := [];
    for j := 0 to |keys|
      invariant |blocks| == j
      invariant forall k :: 0 <= k < j ==> blocks[k] == (keys[k], received[keys[k]])
    {
      assert keys[j] in Elems(keys);
      blocks := blocks + [(keys[j], received[keys[j]])];
    }
    forall a | a in received ensures exists j :: 0 <= j < |blocks| && blocks[j].0 == a {
      assert a in Elems(keys);
      var j :| 0 <= j < |keys| && keys[j] == a;
      assert blocks[j].0 == a;
    }
    NoDuplicatesCard(keys);
  }

  /** What one sync round asks for: the wanted blocks in order, the peers asked, and the
      assignment of blocks to peers. */
  datatype SyncRound = SyncRound(blockOrder: seq<BlockHeaderHash>, addresses: seq<SocketAddr>, plan: SyncPlan)

  /** The entries of `blocks` are entries of `received`. */
  predicate ListsReceived(received: map<SocketAddr, seq<BlockHeaderHash>>, blocks: seq<PeerHashes>)
  {
    forall j :: 0 <= j < |blocks| ==> blocks[j].0 in received && blocks[j].1 == received[blocks[j].0]
  }

  /** What a planned round promises: the block order is the row-by-row order of the
      advertised hashes with the known ones dropped, so it holds every unknown advertised
      hash once; each block of it goes to a peer that advertised it, the requests agree with
      that assignment, and each requested peer is listed once in `addresses`. */
  ghost predicate PlannedRound(received: map<SocketAddr, seq<BlockHeaderHash>>, known: set<BlockHeaderHash>,
                               blocks: seq<PeerHashes>, r: SyncRound)
  {
    && r.blockOrder == DropKnown(Dedup(RowMajor(blocks, Width(blocks))), known)
    && NoDuplicates(r.blockOrder)
    && Elems(r.blockOrder) == AllHashes(blocks) - known
    && (forall b :: b in r.plan.blockPeers <==> b in r.blockOrder)
    && (forall b :: b in r.plan.blockPeers ==>
          r.plan.blockPeers[b] in received && b in received[r.plan.blockPeers[b]])
    && (forall p, b :: p in r.plan.peerBlockRequests && b in r.plan.peerBlockRequests[p] ==>
          b in r.plan.blockPeers && r.plan.blockPeers[b] == p)
    && (forall b :: b in r.plan.blockPeers ==>
          r.plan.blockPeers[b] in r.plan.peerBlockRequests && b in r.plan.peerBlockRequests[r.plan.blockPeers[b]])
    && NoDuplicates(r.addresses) && Elems(r.addresses) == r.plan.peerBlockRequests.Keys
  }

  /** The assignment of the round is the one the random choices `picks` make. */
  predicate PlannedBy(r: SyncRound, picks: seq<Option<SocketAddr>>)
  {
    |picks| == |r.blockOrder| && r.plan == Plan(r.blockOrder, picks)
  }

  /** The planning part of `run`: nothing to do when no hashes arrived or every advertised
      block is already known; otherwise order the advertised hashes, drop the known ones,
      and assign each remaining block to a random peer that advertised it. `blocks` is the
      received map as a list, in the order the map was walked; the ghost `picks` are the
      random choices. */
  method PlanSync(received: map<SocketAddr, seq<BlockHeaderHash>>, known: set<BlockHeaderHash>)
    returns (round: Option<SyncRound>, blocks: seq<PeerHashes>, ghost picks: seq<Option<SocketAddr>>)
    ensures ListsReceived(received, blocks)
    ensures forall a :: a in received ==> exists j :: 0 <= j < |blocks| && blocks[j].0 == a
    ensures round.None? <==> AllHashes(blocks) <= known
    ensures round.Some? ==> PlannedRound(received, known, blocks, round.value)
    ensures round.Some? ==> PlannedBy(round.value, picks)
  {
    picks := [];
    if |received| == 0 {
      blocks := [];
      return None, blocks, picks;
    }
    blocks := EntriesOf(received);
    var earlyBlocks := OrderBlockHashes(blocks);
    MergedOrder(blocks);
    var blockOrder := DropKnown(earlyBlocks, known);
    DropKnownElems(earlyBlocks, known);
    if |blockOrder| == 0 {
      assert forall h :: h in AllHashes(blocks) ==> h in known by {
        forall h | h in AllHashes(blocks) ensures h in known {
          assert h in Elems(earlyBlocks);
        }
      }
      return None, blocks, picks;
    }
    assert blockOrder[0] in AllHashes(blocks) - known by {
      assert blockOrder[0] in earlyBlocks;
    }
    var r;
    r, picks := AssignBlocks(received, known, blocks, earlyBlocks);
    round := Some(r);
  }

  /** The last planning steps of `run`: drop the known hashes from the block order, map each
      hash to its advertisers, and pick a peer for each block. */
  method AssignBlocks(received: map<SocketAddr, seq<BlockHeaderHash>>, known: set<BlockHeaderHash>,
                      blocks: seq<PeerHashes>, earlyBlocks: seq<BlockHeaderHash>)
    returns (r: SyncRound, ghost picks: seq<Option<SocketAddr>>)
    requires ListsReceived(received, blocks)
    requires earlyBlocks == Dedup(RowMajor(blocks, Width(blocks)))
    requires NoDuplicates(earlyBlocks) && Elems(earlyBlocks) == AllHashes(blocks)
    ensures PlannedRound(received, known, blocks, r)
    ensures PlannedBy(r, picks)
  {
    var blockOrder := DropKnown(earlyBlocks, known);
    var blockPeerMap := BlockPeerMap(blocks);
    var addresses, blockPeers, peerBlockRequests, chosen := GetPeerBlocks(blockOrder, blockPeerMap);
    picks := chosen;
    var plan := SyncPlan(blockPeers, peerBlockRequests);
    r := SyncRound(blockOrder, addresses, plan);
    RoundFacts(received, blocks, known, earlyBlocks, blockOrder, blockPeerMap, picks, plan);
  }

  /** The promises of a planned round, given what each planning step ensures. */
  lemma RoundFacts(received: map<SocketAddr, seq<BlockHeaderHash>>, blocks: seq<PeerHashes>, known: set<BlockHeaderHash>,
                   earlyBlocks: seq<BlockHeaderHash>, blockOrder: seq<BlockHeaderHash>,
                   bpm: map<BlockHeaderHash, seq<SocketAddr>>, picks: seq<Option<SocketAddr>>, plan: SyncPlan)
    requires ListsReceived(received, blocks)
    requires NoDuplicates(earlyBlocks) && Elems(earlyBlocks) == AllHashes(blocks)
    requires blockOrder == DropKnown(earlyBlocks, known)
    requires bpm.Keys == AllHashes(blocks)
    requires forall h :: h in bpm ==> bpm[h] == Advertisers(blocks, h) && bpm[h] != []
    requires ValidPicks(blockOrder, bpm, picks) && plan == Plan(blockOrder, picks)
    requires forall b :: b in plan.blockPeers <==> b in blockOrder && HasPeers(bpm, b)
    requires forall b :: b in plan.blockPeers ==> plan.blockPeers[b] in bpm[b]
    ensures NoDuplicates(blockOrder)
    ensures Elems(blockOrder) == AllHashes(blocks) - known
    ensures forall b :: b in plan.blockPeers <==> b in blockOrder
    ensures forall b :: b in plan.blockPeers ==> plan.blockPeers[b] in received && b in received[plan.blockPeers[b]]
    ensures forall p, b :: p in plan.peerBlockRequests && b in plan.peerBlockRequests[p] ==>
      b in plan.blockPeers && plan.blockPeers[b] == p
    ensures forall b :: b in plan.blockPeers ==>
      plan.blockPeers[b] in plan.peerBlockRequests && b in plan.peerBlockRequests[plan.blockPeers[b]]
  {
    DropKnownElems(earlyBlocks, known);
    forall b | b in blockOrder ensures HasPeers(bpm, b) {
      assert b in Elems(earlyBlocks);
    }
    forall b | b in plan.blockPeers
      ensures plan.blockPeers[b] in received && b in received[plan.blockPeers[b]]
    {
      AdvertisersExactly(blocks, b, plan.blockPeers[b]);
    }
    forall p, b | p in plan.peerBlockRequests && b in plan.peerBlockRequests[p]
      ensures b in plan.blockPeers && plan.blockPeers[b] == p
    {
      PlanAgrees(blockOrder, picks, p, b);
    }
    PlanRequestsCover(blockOrder, picks);
  }

  /** Every block that `block_peers` maps to a peer is in that peer's request list. */
  lemma PlanRequestsCover(blocks: seq<BlockHeaderHash>, picks: seq<Option<SocketAddr>>)
    requires |picks| == |blocks| && NoDuplicates(blocks)
    ensures var plan := Plan(blocks, picks);
      forall b :: b in plan.blockPeers ==>
        plan.blockPeers[b] in plan.peerBlockRequests && b in plan.peerBlockRequests[plan.blockPeers[b]]
  {
    var plan := Plan(blocks, picks);
    forall b | b in plan.blockPeers
      ensures plan.blockPeers[b] in plan.peerBlockRequests && b in plan.peerBlockRequests[plan.blockPeers[b]]
    {
      PlanAgrees(blocks, picks, plan.blockPeers[b], b);
    }
  }
}
