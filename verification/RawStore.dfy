/** The raw store: blocks arrive in any order, wait in a queue, and leave it as one contiguous, retargeted chain. */
module RawStorage {
  import opened Difficulty
  import opened MachineWords

  /** A block as it is serialised; content stands for everything retargeting leaves alone. */
  datatype Packet = Packet(height: int, timestamp: uint32, baseTarget: uint64, cumulativeDifficulty: nat, content: int)

  function HeadOf(p: Packet): Header
  {
    Header(p.height, p.timestamp as int, p.baseTarget as int, p.cumulativeDifficulty)
  }

  function Genesis(content: int): Packet
  {
    Packet(0, 0, 0, 0, content)
  }

  // ---------- what a store should hold ----------

  /** The block to append at a height, once one has been received. */
  ghost function Pick(latest: map<int, Packet>, h: int): Packet
  {
    if h in latest then latest[h] else Genesis(0)
  }

  /** Blocks for heights the chain has not reached replace earlier ones for the same height; all others are ignored. */
  ghost function Latest(before: map<int, Packet>, reached: int, blocks: seq<Packet>): map<int, Packet>
  {
    if blocks == [] then before
    else
      var m, b := Latest(before, reached, blocks[..|blocks| - 1]), blocks[|blocks| - 1];
      if b.height > reached then m[b.height := b] else m
  }

  /** A height has a block if it had one, or one has come for it before it was reached; otherwise nothing changes. */
  lemma {:induction false} LatestKeeps(before: map<int, Packet>, reached: int, blocks: seq<Packet>, k: int)
    ensures k in Latest(before, reached, blocks) <==> k in before || (k > reached && k in HeightsOf(blocks))
    ensures k in before && (k <= reached || k !in HeightsOf(blocks)) ==> Latest(before, reached, blocks)[k] == before[k]
  {
    hide HeightsOf;
    if blocks == [] {
      NoHeights();
    } else {
      var rest, b := blocks[..|blocks| - 1], blocks[|blocks| - 1];
      LatestKeeps(before, reached, rest, k);
      HeightsSnoc(rest, b);
      assert blocks == rest + [b];
    }
  }

  /** The last block received for a height that has not been reached is the one kept. */
  lemma {:induction false} LastWins(before: map<int, Packet>, reached: int, blocks: seq<Packet>, i: nat)
    requires i < |blocks| && blocks[i].height > reached
    requires forall j :: i < j < |blocks| ==> blocks[j].height != blocks[i].height
    ensures var kept := Latest(before, reached, blocks);
            blocks[i].height in kept && kept[blocks[i].height] == blocks[i]
  {
    if i < |blocks| - 1 {
      LastWins(before, reached, blocks[..|blocks| - 1], i);
    }
  }

  lemma NoHeights()
    ensures HeightsOf([]) == {}
  {
  }

  lemma HeightsSnoc(blocks: seq<Packet>, b: Packet)
    ensures HeightsOf(blocks + [b]) == HeightsOf(blocks) + {b.height}
  {
    var all := blocks + [b];
    assert forall i :: 0 <= i < |blocks| ==> all[i] == blocks[i];
    assert all[|blocks|] == b;
    forall k | k in HeightsOf(blocks) ensures k in HeightsOf(all) {
      var i :| 0 <= i < |blocks| && blocks[i].height == k;
      assert all[i].height == k;
    }
  }

  /** Where only one block exists for each height, what is kept is that block, in whatever order they come. */
  lemma {:induction false} OneBlockPerHeight(before: map<int, Packet>, reached: int, blocks: seq<Packet>,
                                             source: int -> Packet)
    requires forall k :: k in before ==> before[k] == source(k)
    requires forall b :: b in blocks ==> b == source(b.height)
    ensures forall k :: k in Latest(before, reached, blocks) ==> Latest(before, reached, blocks)[k] == source(k)
  {
    if blocks != [] {
      OneBlockPerHeight(before, reached, blocks[..|blocks| - 1], source);
    }
  }

  ghost function HeightsOf(blocks: seq<Packet>): set<int>
  {
    set i | 0 <= i < |blocks| :: blocks[i].height
  }

  /** H is the largest height such that every block from 1 to H has been received. */
  ghost predicate Highest(received: set<int>, h: int)
  {
    h >= 0 && (forall k :: 1 <= k <= h ==> k in received) && (h + 1) !in received
  }

  lemma HighestUnique(received: set<int>, g: int, h: int)
    requires Highest(received, g) && Highest(received, h)
    ensures g == h
  {
    assert g < h ==> (g + 1) in received;
    assert h < g ==> (h + 1) in received;
  }

  /** The chain grown from genesis with the supplied blocks, in order of height. */
  ghost function Built(latest: map<int, Packet>, content: int, h: nat): (chain: seq<Header>)
    ensures |chain| == h + 1
  {
    if h == 0 then [HeadOf(Genesis(content))]
    else
      var chain := Built(latest, content, h - 1);
      chain + [Next(Recent(chain, h), h, Pick(latest, h).timestamp as int)]
  }

  lemma {:induction false} BuiltGrown(latest: map<int, Packet>, content: int, h: nat)
    ensures Grown(Built(latest, content, h))
  {
    hide Next;
    if h > 0 {
      BuiltGrown(latest, content, h - 1);
      var before, chain := Built(latest, content, h - 1), Built(latest, content, h);
      forall k: nat | 1 <= k <= h ensures chain[k] == Next(Recent(chain, k), k, chain[k].timestamp) {
        RecentPrefix(before, chain[h], k);
        if k == h {
          NextTimestamp(Recent(before, h), h, Pick(latest, h).timestamp as int);
        }
      }
    }
  }

  lemma RecentPrefix(chain: seq<Header>, next: Header, k: nat)
    requires k <= |chain|
    ensures Recent(chain + [next], k) == Recent(chain, k)
  {
  }

  lemma NextTimestamp(w: seq<Header>, h: int, t: int)
    requires h >= 0 && |w| >= WindowSize(h)
    ensures Next(w, h, t).timestamp == t && Next(w, h, t).height == h
  {
    hide Target;
  }

  /** Every shorter chain is a prefix of the longer one. */
  lemma {:induction false} BuiltPrefix(latest: map<int, Packet>, content: int, g: nat, h: nat)
    requires g <= h
    ensures Built(latest, content, g) <= Built(latest, content, h)
  {
    hide Next;
    if g < h {
      BuiltPrefix(latest, content, g, h - 1);
    }
  }

  /** The files hold exactly the chain, each block's content as supplied. */
  ghost predicate FilesHold(files: map<int, Packet>, chain: seq<Header>, latest: map<int, Packet>, content: int)
  {
    && |chain| >= 1
    && (forall h :: h in files <==> 0 <= h < |chain|)
    && files[0] == Genesis(content)
    && (forall h :: 0 <= h < |chain| ==> HeadOf(files[h]) == chain[h])
    && (forall h :: 1 <= h < |chain| ==> files[h].content == Pick(latest, h).content)
  }

  lemma FilesHoldNext(files: map<int, Packet>, chain: seq<Header>, latest: map<int, Packet>, content: int, p: Packet)
    requires FilesHold(files, chain, latest, content) && p.content == Pick(latest, |chain|).content
    ensures FilesHold(files[|chain| := p], chain + [HeadOf(p)], latest, content)
  {
  }

  lemma RecentSlides(chain: seq<Header>, x: Header)
    requires |chain| >= 1
    ensures var (r, r') := (Recent(chain, |chain|), Recent(chain + [x], |chain| + 1));
            r' == (if |chain| < 24 then r else r[1..]) + [x]
  {
  }

  /** What comes in for later heights does not change the chain or its files. */
  lemma {:induction false} BuiltEarlier(latest: map<int, Packet>, content: int, h: nat, k: int, p: Packet)
    requires k > h
    ensures Built(latest[k := p], content, h) == Built(latest, content, h)
  {
    hide Next;
    if h > 0 {
      BuiltEarlier(latest, content, h - 1, k, p);
    }
  }

  lemma FilesEarlier(files: map<int, Packet>, chain: seq<Header>, latest: map<int, Packet>, content: int,
                     k: int, p: Packet)
    requires FilesHold(files, chain, latest, content) && k >= |chain|
    ensures FilesHold(files, chain, latest[k := p], content)
  {
  }

  // ---------- the store ----------

  class RawStore {
    var currentHeight: int
    var currentBlock: Packet
    var files: map<int, Packet>
    var queue: map<int, Packet>
    var cache: seq<Block>
    ghost const content: int
    /** Per height, the last block received before the chain reached that height. */
    ghost var latest: map<int, Packet>

    /** A fresh store holds the genesis block and nothing else. */
    constructor (content: int)
      ensures Valid() && latest == map[] && queue == map[] && currentHeight == 0 && this.content == content
    {
      this.content := content;
      currentHeight, currentBlock := 0, Genesis(content);
      files, queue, latest := map[0 := Genesis(content)], map[], map[];
      var b := new Block(0, 0, 0, 0);
      cache := [b];
      new;
      assert Heads(cache) == [b.Head()];
    }

    ghost function Chain(): (chain: seq<Header>)
      requires currentHeight >= 0
      reads `currentHeight, `latest
      ensures |chain| == currentHeight + 1
    {
      Built(latest, content, currentHeight)
    }

    /** The files are the chain, and so is the end of it that the cache keeps. */
    ghost predicate Contiguous()
      reads `currentHeight, `currentBlock, `files, `latest, `cache, cache
    {
      && currentHeight >= 0
      && FilesHold(files, Chain(), latest, content)
      && currentBlock == files[currentHeight]
      && Heads(cache) == Recent(Chain(), currentHeight + 1)
    }

    ghost predicate Queued()
      reads `currentHeight, `queue, `latest
    {
      && (forall h :: h in latest ==> h >= 1)
      && (forall h :: h in queue ==> queue[h].height == h)
      && (forall h :: h > currentHeight ==> (h in queue <==> h in latest))
      && (forall h :: h > currentHeight && h in queue ==> queue[h] == latest[h])
      && (forall h :: 1 <= h <= currentHeight ==> h in latest)
    }

    /** Nothing that could extend the chain is waiting. */
    ghost predicate Valid()
      reads this, cache
    {
      Contiguous() && Queued() && (currentHeight + 1) !in queue
    }

    /** Keeps the last 24 blocks. */
    method CacheStore(b: Block)
      modifies `cache
      ensures cache == (if |old(cache)| < 24 then old(cache) else old(cache)[1..]) + [b]
    {
      if |cache| < 24 {
        cache := cache + [b];
      } else {
        cache := cache[1..] + [b];
      }
    }

    method Store(block: Packet, height: int)
      modifies `files, `currentHeight, `currentBlock
      ensures files == old(files)[height := block] && currentHeight == height && currentBlock == block
    {
      files := files[height := block];
      currentHeight := height;
      currentBlock := block;
    }

    method Enqueue(blocks: seq<Packet>) returns (readyToConsume: bool, waitForHeight: int)
      requires Valid()
      modifies `queue, `latest
      ensures Contiguous() && Queued() && waitForHeight == currentHeight + 1
      ensures latest == Latest(old(latest), currentHeight, blocks)
      ensures readyToConsume <==> (currentHeight + 1) in queue
    {
      hide Contiguous;
      readyToConsume := false;
      waitForHeight := currentHeight + 1;
      for i := 0 to |blocks|
        invariant Contiguous() && Queued()
        invariant latest == Latest(old(latest), currentHeight, blocks[..i])
        invariant readyToConsume <==> (currentHeight + 1) in queue
      {
        assert blocks[..i + 1] == blocks[..i] + [blocks[i]];
        Put(blocks[i]);
        if waitForHeight == blocks[i].height {
          readyToConsume := true;
        }
      }
      assert blocks[..|blocks|] == blocks;
    }

    method Put(block: Packet)
      requires Contiguous() && Queued()
      modifies `queue, `latest
      ensures Contiguous() && Queued() && queue == old(queue)[block.height := block]
      ensures latest == if block.height > currentHeight then old(latest)[block.height := block] else old(latest)
    {
      hide Built, FilesHold, Recent;
      var height := block.height;
      queue := queue[height := block];
      if height > currentHeight {
        BuiltEarlier(latest, content, currentHeight, height, block);
        FilesEarlier(files, Chain(), latest, content, height, block);
        latest := latest[height := block];
      }
    }

    /** The next block, retargeted from the cache. */
    method Retarget(pbBlock: Packet, height: int) returns (b: Block)
      requires Contiguous() && height == currentHeight + 1 && pbBlock.height == height
      ensures fresh(b) && b.height == height && b.timestamp == pbBlock.timestamp
      ensures b.Head() == Next(Recent(Chain(), height), height, pbBlock.timestamp as int)
    {
      hide Built, Next, FilesHold, Healthy, Recent;
      b := new Block(pbBlock.height, pbBlock.timestamp, pbBlock.baseTarget, pbBlock.cumulativeDifficulty);
      BuiltGrown(latest, content, currentHeight);
      TargetsInRange(Chain(), height);
      WindowHealthy(Chain(), height);
      b.SetBaseTargetAndCumulativeDifficulty(cache);
    }

    /** Takes the next block out of the queue, retargets it and appends it. */
    method Append(height: int)
      requires Contiguous() && Queued() && height == currentHeight + 1 && height in queue
      modifies this
      ensures Contiguous() && Queued() && currentHeight == height
      ensures queue == old(queue) - {height} && latest == old(latest)
    {
      hide Built, Next, FilesHold, Recent;
      ghost var chain, blocks := Chain(), cache;
      var pbBlock := queue[height];
      var b := Retarget(pbBlock, height);
      BuiltStep(latest, content, height);
      CacheSlides(blocks, b, chain);
      CacheStore(b);
      var sealed := pbBlock.(baseTarget := b.baseTarget, cumulativeDifficulty := b.cumulativeDifficulty);
      assert HeadOf(sealed) == b.Head();
      FilesHoldNext(files, chain, latest, content, sealed);
      Store(sealed, height);
      queue := queue - {height};
      assert Chain() == chain + [HeadOf(sealed)];
    }

    lemma CacheSlides(blocks: seq<Block>, b: Block, chain: seq<Header>)
      requires |chain| >= 1 && Heads(blocks) == Recent(chain, |chain|)
      ensures Heads((if |blocks| < 24 then blocks else blocks[1..]) + [b]) == Recent(chain + [b.Head()], |chain| + 1)
    {
      var after := (if |blocks| < 24 then blocks else blocks[1..]) + [b];
      var r := Recent(chain + [b.Head()], |chain| + 1);
      assert |Heads(blocks)| == |blocks| && |r| == |after|;
      RecentSlides(chain, b.Head());
      forall i | 0 <= i < |after| ensures Heads(after)[i] == r[i] {
        if i < |after| - 1 {
          var j := if |blocks| < 24 then i else i + 1;
          assert Heads(blocks)[j] == blocks[j].Head();
        } else {
          assert after[i] == b;
        }
      }
    }

    /** Drains the queue as far as it continues the chain. */
    method Consume(startHeight: int)
      requires Contiguous() && Queued() && startHeight == currentHeight + 1
      modifies this
      ensures Valid() && latest == old(latest)
    {
      hide Built;
      var height := startHeight;
      while height in queue
        invariant Contiguous() && Queued() && height == currentHeight + 1 && latest == old(latest)
        decreases |queue|
      {
        ghost var before := queue;
        Append(height);
        QueueShrinks(before, height);
        height := height + 1;
      }
    }

    /** After any calls in any order, the chain ends at the largest height below which nothing is missing. */
    method StoreAndMaybeConsume(blocks: seq<Packet>)
      requires Valid()
      modifies this
      ensures Valid() && latest == Latest(old(latest), old(currentHeight), blocks)
      ensures Highest(latest.Keys, currentHeight)
    {
      hide Built;
      var readyToConsume, startHeight := Enqueue(blocks);
      if readyToConsume {
        Consume(startHeight);
      }
    }
  }

  lemma QueueShrinks(queue: map<int, Packet>, height: int)
    requires height in queue
    ensures |queue - {height}| < |queue|
  {
    assert (queue - {height}).Keys == queue.Keys - {height};
    assert |(queue - {height}).Keys| == |queue - {height}| && |queue.Keys| == |queue|;
  }

  lemma BuiltStep(latest: map<int, Packet>, content: int, h: nat)
    requires h > 0
    ensures Built(latest, content, h) == Built(latest, content, h - 1)
      + [Next(Recent(Built(latest, content, h - 1), h), h, Pick(latest, h).timestamp as int)]
  {
    hide Next;
  }

  /** Two stores that have received the same one block for the same heights, in whatever order, agree. */
  lemma ArrivalOrderIrrelevant(a: RawStore, b: RawStore, source: int -> Packet)
    requires a.Valid() && b.Valid() && a.content == b.content && a.latest.Keys == b.latest.Keys
    requires forall k :: k in a.latest ==> a.latest[k] == source(k)
    requires forall k :: k in b.latest ==> b.latest[k] == source(k)
    ensures a.currentHeight == b.currentHeight && a.files == b.files && Heads(a.cache) == Heads(b.cache)
  {
    hide Built, FilesHold, Highest, Recent;
    forall k | k in a.latest ensures k in b.latest && a.latest[k] == b.latest[k] {
      assert a.latest[k] == source(k) && k in b.latest.Keys;
    }
    assert a.latest == b.latest;
    ReachedHighest(a);
    ReachedHighest(b);
    HighestUnique(a.latest.Keys, a.currentHeight, b.currentHeight);
    FilesUnique(a.files, b.files, a.Chain(), a.latest, a.content);
  }

  lemma ReachedHighest(s: RawStore)
    requires s.Valid()
    ensures Highest(s.latest.Keys, s.currentHeight)
  {
    assert s.currentHeight >= 0;
  }

  lemma FilesUnique(f: map<int, Packet>, g: map<int, Packet>, chain: seq<Header>, latest: map<int, Packet>,
                    content: int)
    requires FilesHold(f, chain, latest, content) && FilesHold(g, chain, latest, content)
    ensures f == g
  {
    forall h ensures h in f <==> h in g {
      assert h in f <==> 0 <= h < |chain|;
    }
    forall h | h in f ensures f[h] == g[h] {
      assert HeadOf(f[h]) == chain[h] == HeadOf(g[h]);
      assert h == 0 || f[h].content == Pick(latest, h).content == g[h].content;
    }
  }

  /** What a store holds is a chain on which every target is in range and every block adds work. */
  lemma StoredChainSound(s: RawStore)
    requires s.Valid()
    ensures Grown(s.Chain()) && InRange(s.Chain(), s.currentHeight + 1)
    ensures Highest(s.latest.Keys, s.currentHeight) && |s.cache| == Min(s.currentHeight + 1, 24)
  {
    hide Built;
    BuiltGrown(s.latest, s.content, s.currentHeight);
    TargetsInRange(s.Chain(), s.currentHeight + 1);
  }
}
