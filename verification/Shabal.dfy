/**
 Streaming Shabal-256: what a chunked, several-lane hash of one message per lane
 has in common with hashing each message in one go. The compression of one
 block is a parameter.
 */
module Shabal {
  import opened LittleEndian
  import opened Options

  const WORD := 0x1_0000_0000

  /** Words A, B and C of one lane: 12, 16 and 16 of them. */
  type LaneState = s: seq<int> | |s| == 44 witness seq(44, _ => 0)

  /** One block into a lane's state, under the two words of the block counter. */
  type Compression = (LaneState, int, int, seq<byte>) -> LaneState

  // ---------- the block counter ----------

  function Low(n: int): int
  {
    n % WORD
  }

  function High(n: int): int
  {
    (n / WORD) % WORD
  }

  lemma CounterUp(n: int)
    ensures Low(n + 1) == (Low(n) + 1) % WORD
    ensures High(n + 1) == if Low(n + 1) == 0 then (High(n) + 1) % WORD else High(n)
  {
    var q, r := n / WORD, n % WORD;
    assert n == q * WORD + r;
    if r + 1 < WORD {
      assert (n + 1) / WORD == q;
    } else {
      assert (n + 1) / WORD == q + 1;
    }
  }

  // ---------- the reference hash ----------

  /** The state after the first num blocks of the data, the counter starting at n. */
  ghost function Absorbed(f: Compression, s: LaneState, n: int, data: seq<byte>, num: nat): LaneState
    requires 64 * num <= |data|
  {
    if num == 0 then s
    else f(Absorbed(f, s, n, data, num - 1), Low(n + num - 1), High(n + num - 1), data[64 * (num - 1)..64 * num])
  }

  /** The last block: what is left of the message, a one bit, and zeros. */
  ghost function PaddedTail(tail: seq<byte>): (b: seq<byte>)
    requires |tail| < 64
    ensures |b| == 64
  {
    tail + [0x80] + seq(63 - |tail|, _ => 0)
  }

  ghost function Final(f: Compression, s: LaneState, n: int, b: seq<byte>, rounds: nat): LaneState
  {
    if rounds == 0 then s else f(Final(f, s, n, b, rounds - 1), Low(n), High(n), b)
  }

  /** The digest: absorb every full block, then the padded tail four times under one counter value. */
  ghost function Digest(f: Compression, iv: LaneState, m: seq<byte>): (d: seq<int>)
    ensures |d| == 8
  {
    var num := |m| / 64;
    Final(f, Absorbed(f, iv, 1, m, num), num + 1, PaddedTail(m[64 * num..]), 4)[36..44]
  }

  /** The two blocks that the initialisation absorbs: sixteen numbers of two bytes each. */
  function InitBlock(first: nat): (b: seq<byte>)
    requires first + 16 <= 0x1_0000
    ensures |b| == 64
  {
    seq(64, i requires 0 <= i < 64 =>
      if i % 4 == 0 then (first + i / 4) % 256 else if i % 4 == 1 then (first + i / 4) / 256 else 0)
  }

  ghost function InitState(f: Compression): LaneState
  {
    f(f(seq(44, _ => 0), Low(-1), High(-1), InitBlock(256)), Low(0), High(0), InitBlock(272))
  }

  // ---------- absorbing in pieces ----------

  lemma {:induction false} AbsorbedPrefix(f: Compression, s: LaneState, n: int, a: seq<byte>, b: seq<byte>, num: nat)
    requires 64 * num <= |a|
    ensures Absorbed(f, s, n, a + b, num) == Absorbed(f, s, n, a, num)
  {
    if num > 0 {
      AbsorbedPrefix(f, s, n, a, b, num - 1);
      assert (a + b)[64 * (num - 1)..64 * num] == a[64 * (num - 1)..64 * num];
    }
  }

  /** Absorbing whole blocks and then more is absorbing the concatenation. */
  lemma {:induction false} AbsorbedConcat(f: Compression, s: LaneState, n: int, a: seq<byte>, b: seq<byte>, k: nat,
      num: nat)
    requires |a| == 64 * k && 64 * num <= |b|
    ensures Absorbed(f, s, n, a + b, k + num) == Absorbed(f, Absorbed(f, s, n, a, k), n + k, b, num)
  {
    if num == 0 {
      AbsorbedPrefix(f, s, n, a, b, k);
    } else {
      AbsorbedConcat(f, s, n, a, b, k, num - 1);
      assert (a + b)[64 * (k + num - 1)..64 * (k + num)] == b[64 * (num - 1)..64 * num];
    }
  }

  lemma SliceOfSlice(s: seq<byte>, a: nat, b: nat, c: nat, d: nat)
    requires a <= b <= |s| && c <= d <= b - a
    ensures s[a..b][c..d] == s[a + c..a + d]
  {
    assert forall i :: 0 <= i < d - c ==> s[a..b][c..d][i] == s[a + c..a + d][i];
  }

  /** What absorbing whole blocks from the middle of the input makes of one lane. */
  lemma BulkLane(f: Compression, iv: LaneState, m: seq<byte>, data: seq<byte>, k: nat, from: nat, len: nat)
    requires |m| == 64 * k && from + len <= |data|
    ensures var (num, next) := (len / 64, m + data[from..from + len]);
            Absorbed(f, iv, 1, next, k + num)
              == Absorbed(f, Absorbed(f, iv, 1, m, k), k + 1, data[from..from + 64 * num], num)
            && next[64 * (k + num)..] == data[from + 64 * num..from + len]
  {
    hide Absorbed;
    var num := len / 64;
    var d, rest := data[from..from + 64 * num], data[from + 64 * num..from + len];
    assert data[from..from + len] == d + rest;
    assert m + data[from..from + len] == (m + d) + rest;
    AbsorbedConcat(f, iv, 1, m, d, k, num);
    AbsorbedPrefix(f, iv, 1, m + d, rest, k + num);
  }

  // ---------- the lanes ----------

  /** The first lane with input, if there is one. */
  ghost function First(data: seq<Option<seq<byte>>>): (i: nat)
    ensures i <= |data| && (i < |data| ==> data[i].Some?)
    ensures i == |data| ==> forall k :: 0 <= k < |data| ==> data[k].None?
  {
    if data == [] || data[0].Some? then 0 else 1 + First(data[1..])
  }

  lemma {:induction false} FirstIs(data: seq<Option<seq<byte>>>, i: nat)
    requires i < |data| && data[i].Some? && forall k :: 0 <= k < i ==> data[k].None?
    ensures First(data) == i
  {
    if i > 0 {
      FirstIs(data[1..], i - 1);
    }
  }

  ghost function Shared(data: seq<Option<seq<byte>>>): (r: seq<seq<byte>>)
    ensures |r| == |data|
  {
    var first := First(data);
    seq(|data|, i requires 0 <= i < |data| =>
      if data[i].Some? then data[i].value else if first < |data| then data[first].value else [])
  }

  /** The messages of all lanes with a stretch of the input appended. */
  ghost function Extended(m: seq<seq<byte>>, data: seq<seq<byte>>, from: nat, count: nat): (r: seq<seq<byte>>)
    requires |m| == |data| && forall i :: 0 <= i < |data| ==> from + count <= |data[i]|
    ensures |r| == |m|
  {
    seq(|m|, i requires 0 <= i < |m| => m[i] + data[i][from..from + count])
  }

  lemma ExtendedTwice(m: seq<seq<byte>>, data: seq<seq<byte>>, a: nat, b: nat)
    requires |m| == |data| && forall i :: 0 <= i < |data| ==> a + b <= |data[i]|
    ensures Extended(Extended(m, data, 0, a), data, a, b) == Extended(m, data, 0, a + b)
  {
    forall i | 0 <= i < |m|
      ensures Extended(Extended(m, data, 0, a), data, a, b)[i] == Extended(m, data, 0, a + b)[i]
    {
      assert data[i][0..a + b] == data[i][0..a] + data[i][a..a + b];
    }
  }

  lemma ExtendedNone(m: seq<seq<byte>>, data: seq<seq<byte>>)
    requires |m| == |data|
    ensures Extended(m, data, 0, 0) == m
  {
    forall i | 0 <= i < |m| ensures Extended(m, data, 0, 0)[i] == m[i] {
      assert data[i][0..0] == [];
    }
  }

  /** A completed block, as the compression reads it, is the next block of the message. */
  lemma CompletesBlock(m: seq<byte>, k: nat, p: nat, d: seq<byte>, row: seq<byte>)
    requires p < 64 && |m| == 64 * k + p && |d| == 64 - p && row == m[64 * k..] + d
    ensures row == (m + d)[64 * k..64 * (k + 1)]
  {
  }

  class MultiLane {
    const lanes: nat
    const f: Compression
    /** One row of 64 bytes per lane. */
    const buf: array2<byte>
    /** Word j of every lane side by side in row j. */
    const state: array2<int>
    var ptr: nat
    var whigh: int
    var wlow: int
    /** What each lane has been fed. */
    ghost var messages: seq<seq<byte>>

    ghost var blocks: nat

    ghost predicate Shape()
    {
      && buf.Length0 == lanes && buf.Length1 == 64 && state.Length0 == 44 && state.Length1 == lanes
      && lanes > 0 && buf as object != state as object
    }

    ghost function Lane(i: nat): LaneState
      requires Shape() && i < lanes
      reads state
    {
      seq(44, j requires 0 <= j < 44 reads state => if i < state.Length1 && j < state.Length0 then state[j, i] else 0)
    }

    ghost function Lanes(): (s: seq<LaneState>)
      requires Shape()
      reads state
      ensures |s| == lanes && forall i :: 0 <= i < lanes ==> s[i] == Lane(i)
    {
      seq(lanes, i requires 0 <= i < lanes && Shape() reads state => Lane(i))
    }

    /** A lane's buffer as the compression reads it. */
    function Row(i: nat): (b: seq<byte>)
      requires i < buf.Length0 && buf.Length1 == 64
      reads buf
      ensures |b| == 64
    {
      seq(64, k requires 0 <= k < 64 reads buf => if i < buf.Length0 && k < buf.Length1 then buf[i, k] else 0)
    }

    function Rows(): (b: seq<seq<byte>>)
      requires buf.Length0 == lanes && buf.Length1 == 64
      reads buf
      ensures |b| == lanes && forall i :: 0 <= i < lanes ==> b[i] == Row(i)
    {
      seq(lanes, i requires 0 <= i < lanes reads buf => if buf.Length0 == lanes && buf.Length1
          == 64 then Row(i) else [])
    }

    /** Every lane has absorbed the whole blocks of its message and holds the rest. */
    ghost predicate Holds(p: nat, k: nat)
      reads `messages, `wlow, `whigh, state, buf
    {
      && Shape() && p < 64 && |messages| == lanes
      && wlow == Low(k + 1) && whigh == High(k + 1)
      && (forall i :: 0 <= i < lanes ==>
            |messages[i]| == 64 * k + p && Lane(i) == Absorbed(f, InitState(f), 1, messages[i], k)
            && Row(i)[..p] == messages[i][64 * k..])
    }

    ghost predicate Valid()
      reads this, state, buf
    {
      Holds(ptr, blocks)
    }

    // ---------- compression ----------

    method LoadLane(i: nat) returns (lane: LaneState)
      requires Shape() && i < lanes
      ensures lane == Lane(i)
    {
      var words := [];
      for j := 0 to 44
        invariant words == Lane(i)[..j]
      {
        words := words + [state[j, i]];
      }
      lane := words;
    }

    method CompressLane(i: nat, block: seq<byte>)
      requires Shape() && i < lanes
      modifies state
      ensures Lane(i) == f(old(Lane(i)), wlow, whigh, block)
      ensures forall k :: 0 <= k < lanes && k != i ==> Lane(k) == old(Lane(k))
    {
      var lane := LoadLane(i);
      ghost var before := Lanes();
      assert forall k, j :: 0 <= k < lanes && 0 <= j < 44 ==> before[k][j] == state[j, k];
      StoreLane(i, f(lane, wlow, whigh, block));
      LaneIs(i, f(lane, wlow, whigh, block));
      forall k | 0 <= k < lanes && k != i ensures Lane(k) == old(Lane(k)) {
        LaneIs(k, before[k]);
      }
    }

    lemma LaneIs(i: nat, words: LaneState)
      requires Shape() && i < lanes && forall j :: 0 <= j < 44 ==> state[j, i] == words[j]
      ensures Lane(i) == words
    {
    }

    method StoreLane(i: nat, words: LaneState)
      requires Shape() && i < lanes
      modifies state
      ensures forall j :: 0 <= j < 44 ==> state[j, i] == words[j]
      ensures forall j, k :: 0 <= j < 44 && 0 <= k < lanes && k != i ==> state[j, k] == old(state[j, k])
    {
      for j := 0 to 44
        invariant forall l :: 0 <= l < j ==> state[l, i] == words[l]
        invariant forall l, k :: 0 <= l < 44 && 0 <= k < lanes && k != i ==> state[l, k] == old(state[l, k])
      {
        state[j, i] := words[j];
      }
    }

    /** One block into every lane: each lane's words change as if it were alone. */
    method CompressBlock(data: seq<seq<byte>>)
      requires Shape() && |data| == lanes
      modifies state, `wlow, `whigh
      ensures forall i :: 0 <= i < lanes ==> Lane(i) == f(old(Lane(i)), old(wlow), old(whigh), data[i])
      ensures wlow == (old(wlow) + 1) % WORD
      ensures whigh == if wlow == 0 then (old(whigh) + 1) % WORD else old(whigh)
    {
      hide Lane;
      for i := 0 to lanes
        invariant wlow == old(wlow) && whigh == old(whigh)
        invariant forall k :: 0 <= k < i ==> Lane(k) == f(old(Lane(k)), wlow, whigh, data[k])
        invariant forall k :: i <= k < lanes ==> Lane(k) == old(Lane(k))
      {
        CompressLane(i, data[i]);
      }
      wlow := (wlow + 1) % WORD;
      if wlow == 0 {
        whigh := (whigh + 1) % WORD;
      }
    }

    method Compress(data: seq<seq<byte>>, from: nat, num: nat, ghost n: int)
      requires Shape() && |data| == lanes && forall i :: 0 <= i < lanes ==> from + 64 * num <= |data[i]|
      requires wlow == Low(n) && whigh == High(n)
      modifies state, `wlow, `whigh
      ensures forall i :: 0 <= i < lanes ==>
                Lane(i) == Absorbed(f, old(Lane(i)), n, data[i][from..from + 64 * num], num)
      ensures wlow == Low(n + num) && whigh == High(n + num)
    {
      hide Low, High, Lane;
      for b := 0 to num
        invariant wlow == Low(n + b) && whigh == High(n + b)
        invariant forall i :: 0 <= i < lanes ==>
                    Lane(i) == Absorbed(f, old(Lane(i)), n, data[i][from..from + 64 * num], b)
      {
        var block := seq(lanes, i requires 0 <= i < lanes => data[i][from + 64 * b..from + 64 * b + 64]);
        forall i | 0 <= i < lanes
          ensures block[i] == data[i][from..from + 64 * num][64 * b..64 * (b + 1)]
        {
          SliceOfSlice(data[i], from, from + 64 * num, 64 * b, 64 * (b + 1));
        }
        CounterUp(n + b);
        CompressBlock(block);
      }
    }

    // ---------- input ----------

    method CopyLane(i: nat, at: nat, data: seq<byte>, from: nat, count: nat)
      requires Shape() && i < lanes && at + count <= 64 && from + count <= |data|
      modifies buf
      ensures Row(i)[..at + count] == old(Row(i))[..at] + data[from..from + count]
      ensures forall k :: 0 <= k < lanes && k != i ==> Row(k) == old(Row(k))
    {
      for j := 0 to count
        invariant Row(i)[..at + j] == old(Row(i))[..at] + data[from..from + j]
        invariant forall k :: 0 <= k < lanes && k != i ==> Row(k) == old(Row(k))
      {
        ghost var filled := Row(i)[..at + j];
        buf[i, at + j] := data[from + j];
        assert Row(i)[..at + j + 1] == filled + [data[from + j]];
        assert data[from..from + j + 1] == data[from..from + j] + [data[from + j]];
      }
    }

    /** Copies bytes of every lane's input into its buffer. */
    method CopyIn(at: nat, data: seq<seq<byte>>, from: nat, count: nat)
      requires Shape() && |data| == lanes && at + count <= 64
      requires forall i :: 0 <= i < lanes ==> from + count <= |data[i]|
      modifies buf
      ensures forall i :: 0 <= i < lanes ==>
                Row(i)[..at + count] == old(Row(i))[..at] + data[i][from..from + count]
    {
      for i := 0 to lanes
        invariant forall k :: 0 <= k < i ==> Row(k)[..at + count] == old(Row(k))[..at] + data[k][from..from + count]
        invariant forall k :: i <= k < lanes ==> Row(k) == old(Row(k))
      {
        CopyLane(i, at, data[i], from, count);
      }
    }

    /** Input too short to complete the buffered block. */
    method Append(data: seq<seq<byte>>, from: nat, len: nat)
      requires Valid() && |data| == lanes && ptr + len < 64
      requires forall i :: 0 <= i < lanes ==> from + len <= |data[i]|
      modifies this, buf
      ensures Valid() && messages == Extended(old(messages), data, from, len)
    {
      hide Absorbed, Low, High;
      CopyIn(ptr, data, from, len);
      ghost var before := messages;
      messages := Extended(messages, data, from, len);
      forall i | 0 <= i < lanes
        ensures Absorbed(f, InitState(f), 1, messages[i], blocks) == Absorbed(f, InitState(f), 1, before[i], blocks)
        ensures messages[i][64 * blocks..] == before[i][64 * blocks..] + data[i][from..from + len]
      {
        AbsorbedPrefix(f, InitState(f), 1, before[i], data[i][from..from + len], blocks);
      }
      ptr := ptr + len;
    }

    /** Fills the buffers up to the next whole block of each message. */
    method FillBlock(data: seq<seq<byte>>)
      requires Valid() && |data| == lanes
      requires forall i :: 0 <= i < lanes ==> 64 - ptr <= |data[i]|
      modifies buf
      ensures forall i :: 0 <= i < lanes ==>
                Row(i) == (messages[i] + data[i][0..64 - ptr])[64 * blocks..64 * (blocks + 1)]
    {
      hide Low, High, InitState, Absorbed, Row, Lane;
      CopyIn(ptr, data, 0, 64 - ptr);
      forall i | 0 <= i < lanes
        ensures Row(i) == (messages[i] + data[i][0..64 - ptr])[64 * blocks..64 * (blocks + 1)]
      {
        assert Row(i) == Row(i)[..ptr + (64 - ptr)];
        CompletesBlock(messages[i], blocks, ptr, data[i][0..64 - ptr], Row(i));
      }
    }

    /** Compresses the filled buffers, which end the messages so far. */
    method AbsorbRows(ghost next: seq<seq<byte>>)
      requires Shape() && |next| == lanes && wlow == Low(blocks + 1) && whigh == High(blocks + 1)
      requires forall i :: 0 <= i < lanes ==>
                 |next[i]| == 64 * (blocks + 1) && Lane(i) == Absorbed(f, InitState(f), 1, next[i], blocks)
                 && Row(i) == next[i][64 * blocks..64 * (blocks + 1)]
      modifies `messages, `blocks, `wlow, `whigh, state
      ensures messages == next && Holds(0, blocks)
    {
      hide Low, High, InitState, Row, Lane;
      CompressOnce(Rows(), blocks + 1);
      messages, blocks := next, blocks + 1;
    }

    /** Input that completes the buffered block, which is compressed. */
    method Complete(data: seq<seq<byte>>)
      requires Valid() && |data| == lanes
      requires forall i :: 0 <= i < lanes ==> 64 - ptr <= |data[i]|
      modifies this, buf, state
      ensures Holds(0, blocks) && ptr == old(ptr) && messages == Extended(old(messages), data, 0, 64 - ptr)
    {
      hide Low, High, InitState, Absorbed, Row, Lane;
      FillBlock(data);
      ghost var next := Extended(messages, data, 0, 64 - ptr);
      forall i | 0 <= i < lanes
        ensures Absorbed(f, InitState(f), 1, next[i], blocks) == Absorbed(f, InitState(f), 1, messages[i], blocks)
      {
        AbsorbedPrefix(f, InitState(f), 1, messages[i], data[i][0..64 - ptr], blocks);
      }
      AbsorbRows(next);
    }

    method CompressOnce(data: seq<seq<byte>>, ghost n: int)
      requires Shape() && |data| == lanes && wlow == Low(n) && whigh == High(n)
      modifies state, `wlow, `whigh
      ensures forall i :: 0 <= i < lanes ==> Lane(i) == f(old(Lane(i)), Low(n), High(n), data[i])
      ensures wlow == Low(n + 1) && whigh == High(n + 1)
    {
      CounterUp(n);
      hide Low, High;
      CompressBlock(data);
    }

    /** Whole blocks straight from the input, and the rest into the empty buffer. */
    method Bulk(data: seq<seq<byte>>, from: nat, len: nat)
      requires Holds(0, blocks) && |data| == lanes
      requires forall i :: 0 <= i < lanes ==> from + len <= |data[i]|
      modifies this, buf, state
      ensures Valid() && messages == Extended(old(messages), data, from, len)
    {
      hide Low, High, InitState, Absorbed, Row, Lane;
      ghost var before, k := messages, blocks;
      var num := len / 64;
      Compress(data, from, num, k + 1);
      CopyIn(0, data, from + 64 * num, len % 64);
      messages := Extended(messages, data, from, len);
      blocks := k + num;
      ptr := len % 64;
      forall i | 0 <= i < lanes
        ensures Lane(i) == Absorbed(f, InitState(f), 1, messages[i], k + num)
        ensures Row(i)[..ptr] == messages[i][64 * (k + num)..]
      {
        BulkLane(f, InitState(f), before[i], data[i], k, from, len);
      }
    }

    /** A chunk of the same length for every lane: each lane's message grows by it, wherever the blocks end. */
    method Update(data: seq<seq<byte>>, len: nat)
      requires Valid() && |data| == lanes
      requires forall i :: 0 <= i < lanes ==> len <= |data[i]|
      modifies this, buf, state
      ensures Valid() && messages == Extended(old(messages), data, 0, len)
    {
      hide Holds;
      HoldsShape(ptr, blocks);
      var from, rest := 0, len;
      if ptr != 0 {
        var clen := 64 - ptr;
        if clen > len {
          Append(data, 0, len);
          return;
        }
        Complete(data);
        from, rest := clen, len - clen;
      } else {
        ExtendedNone(messages, data);
      }
      HoldsShape(0, blocks);
      ExtendedTwice(old(messages), data, from, rest);
      Bulk(data, from, rest);
    }

    /** The four-lane entry point: a lane without input of its own shares that of the first lane that has one. */
    method UpdateSparse(data: seq<Option<seq<byte>>>, len: nat)
      requires Valid() && |data| == lanes
      requires forall i :: 0 <= i < lanes && data[i].Some? ==> len <= |data[i].value|
      modifies this, buf, state
      ensures Valid()
      ensures messages == if (forall i :: 0 <= i < lanes ==> data[i].None?) then old(messages)
                          else Extended(old(messages), Shared(data), 0, len)
    {
      hide Holds;
      HoldsShape(ptr, blocks);
      var first := 0;
      while first < lanes && data[first].None?
        invariant 0 <= first <= lanes && forall i :: 0 <= i < first ==> data[i].None?
      {
        first := first + 1;
      }
      if first == lanes {
        return;
      }
      FirstIs(data, first);
      var full := seq(lanes, i requires 0 <= i < lanes => if data[i].Some? then data[i].value else data[first].value);
      assert full == Shared(data);
      Update(full, len);
    }

    lemma HoldsShape(p: nat, k: nat)
      requires Holds(p, k)
      ensures Shape() && |messages| == lanes && p < 64
    {
    }

    // ---------- initialisation and closing ----------

    constructor (lanes: nat, f: Compression)
      requires lanes > 0
      ensures this.lanes == lanes && this.f == f && Shape() && fresh(buf) && fresh(state)
    {
      this.lanes, this.f := lanes, f;
      buf := new byte[lanes, 64]((i, k) => 0);
      state := new int[44, lanes]((j, i) => 0);
      ptr, whigh, wlow := 0, 0, 0;
      messages, blocks := [], 0;
    }

    /** Writes sixteen consecutive numbers into every buffer, two bytes in each group of four. */
    method FillInit(first: nat)
      requires Shape() && first + 16 <= 0x1_0000
      requires forall i, k :: 0 <= i < lanes && 0 <= k < 64 && k % 4 >= 2 ==> buf[i, k] == 0
      modifies buf
      ensures forall i :: 0 <= i < lanes ==> Row(i) == InitBlock(first)
      ensures forall i, k :: 0 <= i < lanes && 0 <= k < 64 && k % 4 >= 2 ==> buf[i, k] == 0
    {
      for u := 0 to 16
        invariant forall i, k :: 0 <= i < lanes && 0 <= k < 4 * u ==> buf[i, k] == InitBlock(first)[k]
        invariant forall i, k :: 0 <= i < lanes && 0 <= k < 64 && k % 4 >= 2 ==> buf[i, k] == 0
      {
        var lower, upper := 4 * u, 4 * u + 1;
        for i := 0 to lanes
          invariant forall l, k :: 0 <= l < lanes && 0 <= k < 4 * u ==> buf[l, k] == InitBlock(first)[k]
          invariant forall l, k :: 0 <= l < lanes && 0 <= k < 64 && k % 4 >= 2 ==> buf[l, k] == 0
          invariant forall l :: 0 <= l < i ==> buf[l, lower] == (first + u) % 256
          invariant forall l :: 0 <= l < i ==> buf[l, upper] == (first + u) / 256
        {
          buf[i, lower] := (first + u) % 256;
          buf[i, upper] := (first + u) / 256;
        }
      }
    }

    /** Two blocks absorbed under the counters -1 and 0 leave every lane in the initial state, at counter 1. */
    method Init()
      requires Shape()
      modifies this, buf, state
      ensures Valid() && messages == seq(lanes, _ => [])
    {
      hide InitBlock, Lane, Row;
      Clear();
      wlow, whigh := WORD - 1, WORD - 1;
      FillInit(256);
      CompressOnce(Rows(), -1);
      FillInit(272);
      CompressOnce(Rows(), 0);
      ptr := 0;
      messages, blocks := seq(lanes, _ => []), 0;
    }

    method Clear()
      requires Shape()
      modifies buf, state
      ensures forall i :: 0 <= i < lanes ==> Lane(i) == seq(44, _ => 0)
      ensures forall i, k :: 0 <= i < lanes && 0 <= k < 64 ==> buf[i, k] == 0
    {
      forall j, i | 0 <= j < 44 && 0 <= i < lanes {
        state[j, i] := 0;
      }
      forall i, k | 0 <= i < lanes && 0 <= k < 64 {
        buf[i, k] := 0;
      }
    }

    /** The end mark and the zeros after it. */
    method Pad()
      requires Valid()
      modifies buf
      ensures forall i :: 0 <= i < lanes ==> Row(i) == PaddedTail(old(Row(i))[..ptr])
    {
      for i := 0 to lanes
        invariant forall k :: 0 <= k < i ==> Row(k) == PaddedTail(old(Row(k))[..ptr])
        invariant forall k :: i <= k < lanes ==> Row(k) == old(Row(k))
      {
        PadLane(i);
      }
    }

    method PadLane(i: nat)
      requires Shape() && i < lanes && ptr < 64
      modifies buf
      ensures Row(i) == PaddedTail(old(Row(i))[..ptr])
      ensures forall k :: 0 <= k < lanes && k != i ==> Row(k) == old(Row(k))
    {
      buf[i, ptr] := 0x80;
      assert Row(i)[..ptr] == old(Row(i))[..ptr];
      for k := ptr + 1 to 64
        invariant Row(i)[..k] == old(Row(i))[..ptr] + [0x80] + seq(k - ptr - 1, _ => 0)
        invariant forall l :: 0 <= l < lanes && l != i ==> Row(l) == old(Row(l))
      {
        ghost var filled := Row(i)[..k];
        buf[i, k] := 0;
        assert Row(i)[..k + 1] == filled + [0];
      }
      assert Row(i)[..64] == Row(i);
    }

    method StepBack(ghost n: int)
      requires wlow == Low(n + 1) && whigh == High(n + 1)
      modifies `wlow, `whigh
      ensures wlow == Low(n) && whigh == High(n)
    {
      CounterUp(n);
      if wlow == 0 {
        whigh := (whigh - 1) % WORD;
      }
      wlow := (wlow - 1) % WORD;
    }

    /** Four compressions of the same block, the counter put back after each. */
    method CloseRounds(ghost n: int, ghost start: seq<LaneState>)
      requires Shape() && start == Lanes() && wlow == Low(n) && whigh == High(n)
      modifies state, `wlow, `whigh
      ensures forall i :: 0 <= i < lanes ==> Lane(i) == Final(f, start[i], n, Row(i), 4)
    {
      hide Low, High, Lane, Row;
      for z := 0 to 4
        invariant wlow == Low(n) && whigh == High(n)
        invariant forall i :: 0 <= i < lanes ==> Lane(i) == Final(f, start[i], n, Row(i), z)
      {
        CompressOnce(Rows(), n);
        StepBack(n);
      }
    }

    /** Words 36 to 43 of every lane. */
    method Output() returns (out: seq<seq<int>>)
      requires Shape()
      ensures |out| == lanes && forall i :: 0 <= i < lanes ==> out[i] == Lane(i)[36..44]
    {
      hide Lane;
      out := [];
      for i := 0 to lanes
        invariant |out| == i
        invariant forall k :: 0 <= k < i ==> out[k] == Lane(k)[36..44]
      {
        var lane := LoadLane(i);
        out := out + [lane[36..44]];
      }
    }

    /** Every lane's digest is the digest of the message it was fed, however it was cut into chunks. */
    method Close() returns (out: seq<seq<int>>)
      requires Valid()
      modifies this, buf, state
      ensures |out| == lanes
      ensures forall i :: 0 <= i < lanes ==> out[i] == Digest(f, InitState(f), old(messages)[i])
    {
      hide Low, High, InitState, Absorbed, Row, Lane, PaddedTail, Final, Digest;
      ghost var k, m, p, start := blocks, messages, ptr, Lanes();
      Pad();
      CloseRounds(k + 1, start);
      out := Output();
      forall i | 0 <= i < lanes ensures out[i] == Digest(f, InitState(f), m[i]) {
        DigestIs(f, InitState(f), m[i], k, p, start[i]);
      }
    }
  }

  lemma DigestIs(f: Compression, iv: LaneState, m: seq<byte>, k: nat, p: nat, s: LaneState)
    requires p < 64 && |m| == 64 * k + p && s == Absorbed(f, iv, 1, m, k)
    ensures Digest(f, iv, m) == Final(f, s, k + 1, PaddedTail(m[64 * k..]), 4)[36..44]
  {
    hide Final, PaddedTail, Absorbed;
    assert |m| / 64 == k;
  }

  // ---------- any sequence of chunks ----------

  /** Everything a lane is fed by a sequence of chunks. */
  ghost function Joined(chunks: seq<seq<seq<byte>>>, i: nat): seq<byte>
    requires forall c :: 0 <= c < |chunks| ==> i < |chunks[c]|
  {
    if chunks == [] then [] else Joined(chunks[..|chunks| - 1], i) + chunks[|chunks| - 1][i]
  }

  /** Each chunk has the same length in every lane. */
  ghost predicate Aligned(chunks: seq<seq<seq<byte>>>, lanes: nat)
  {
    forall c :: 0 <= c < |chunks| ==>
      |chunks[c]| == lanes && forall i :: 0 <= i < lanes ==> |chunks[c][i]| == |chunks[c][0]|
  }

  /** However a message is cut into chunks, each lane's digest is that of the whole message. */
  method HashChunks(lanes: nat, f: Compression, chunks: seq<seq<seq<byte>>>) returns (out: seq<seq<int>>)
    requires lanes > 0 && Aligned(chunks, lanes)
    ensures |out| == lanes
    ensures forall i :: 0 <= i < lanes ==> out[i] == Digest(f, InitState(f), Joined(chunks, i))
  {
    hide Digest, InitState, MultiLane.Holds;
    var sc := new MultiLane(lanes, f);
    sc.Init();
    sc.HoldsShape(sc.ptr, sc.blocks);
    for c := 0 to |chunks|
      invariant sc.Valid() && sc.Shape() && fresh(sc) && fresh(sc.buf) && fresh(sc.state)
      invariant |sc.messages| == lanes && forall i :: 0 <= i < lanes ==> sc.messages[i] == Joined(chunks[..c], i)
    {
      var data, len := chunks[c], |chunks[c][0]|;
      ghost var before := sc.messages;
      sc.Update(data, len);
      forall i | 0 <= i < lanes ensures sc.messages[i] == Joined(chunks[..c + 1], i) {
        assert data[i][0..len] == data[i];
        assert chunks[..c + 1][..c] == chunks[..c];
        assert sc.messages[i] == before[i] + data[i][0..len];
      }
      sc.HoldsShape(sc.ptr, sc.blocks);
    }
    assert chunks[..|chunks|] == chunks;
    out := sc.Close();
  }

  // ---------- the single-lane digest ----------

  /** The bytes of eight words, the lowest first. */
  function WordBytes(d: seq<int>): (b: seq<byte>)
    requires |d| == 8
    ensures |b| == 32
  {
    seq(32, i requires 0 <= i < 32 => WordByte(d[i / 4], i % 4))
  }

  function WordByte(w: int, k: nat): byte
    decreases k
  {
    if k == 0 then w % 256 else WordByte(w / 256, k - 1)
  }

  class GoDigest {
    const f: Compression
    const iv: LaneState
    const buf: array<byte>
    var state: LaneState
    var ptr: nat
    var w: int
    ghost var message: seq<byte>

    /** The state, buffer and counter are those of the bytes counted as written. */
    ghost predicate Valid()
      reads this, buf
    {
      && buf.Length == 64 && ptr < 64
      && |message| == 64 * (w - 1) + ptr && w >= 1
      && state == Absorbed(f, iv, 1, message, w - 1)
      && buf[..ptr] == message[64 * (w - 1)..]
    }

    constructor (f: Compression, iv: LaneState)
      ensures Valid() && message == [] && ptr == 0 && fresh(buf) && this.f == f && this.iv == iv
    {
      this.f, this.iv := f, iv;
      buf := new byte[64](_ => 0);
      state, w, ptr, message := iv, 1, 0, [];
    }

    method Core1()
      requires buf.Length == 64
      modifies `state, `w
      ensures state == f(old(state), Low(old(w)), High(old(w)), buf[..]) && w == old(w) + 1
    {
      state := f(state, Low(w), High(w), buf[..]);
      w := w + 1;
    }

    method Core(data: seq<byte>, off: nat, num: nat)
      requires off + 64 * num <= |data|
      modifies `state, `w
      ensures state == Absorbed(f, old(state), old(w), data[off..off + 64 * num], num) && w == old(w) + num
    {
      hide Low, High;
      for b := 0 to num
        invariant w == old(w) + b
        invariant state == Absorbed(f, old(state), old(w), data[off..off + 64 * num], b)
      {
        SliceOfSlice(data, off, off + 64 * num, 64 * b, 64 * (b + 1));
        state := f(state, Low(w), High(w), data[off + 64 * b..off + 64 * b + 64]);
        w := w + 1;
      }
    }

    method CopyTail(p: seq<byte>, at: nat, off: nat, count: nat)
      requires buf.Length == 64 && at + count <= 64 && off + count <= |p|
      modifies buf
      ensures buf[at..at + count] == p[off..off + count] && buf[..at] == old(buf[..at])
    {
      forall k | 0 <= k < count {
        buf[at + k] := p[off + k];
      }
    }

    /** The pending bytes and whatever the buffer holds behind them, compressed as they are. */
    method CompleteStale()
      requires Valid()
      modifies `state, `w, `message
      ensures w == old(w) + 1 && message == old(message)[..64 * (old(w) - 1)] + buf[..]
      ensures state == Absorbed(f, iv, 1, message, w - 1)
    {
      hide Low, High;
      ghost var k, m := w - 1, message;
      Core1();
      message := m[..64 * k] + buf[..];
      assert message[64 * k..64 * (k + 1)] == buf[..];
      assert m[..64 * k] + m[64 * k..] == m;
      AbsorbedPrefix(f, iv, 1, m[..64 * k], m[64 * k..], k);
      AbsorbedPrefix(f, iv, 1, m[..64 * k], buf[..], k);
    }

    /** Whole blocks from the input, and the rest into the buffer. */
    method Rest(p: seq<byte>, off: nat)
      requires buf.Length == 64 && w >= 1 && off <= |p| && |message| == 64 * (w - 1)
      requires state == Absorbed(f, iv, 1, message, w - 1)
      modifies this, buf
      ensures Valid() && message == old(message) + p[off..]
    {
      hide Low, High, Absorbed;
      ghost var k, before := w - 1, message;
      var len := |p| - off;
      var at, num := off, len / 64;
      if num > 0 {
        Core(p, off, num);
        at := off + num * 64;
        len := len % 64;
      } else {
        AbsorbNone(f, state, w, p[off..off]);
      }
      CopyTail(p, 0, at, len);
      message := message + p[off..];
      assert p[off..] == p[off..off + (|p| - off)];
      BulkLane(f, iv, before, p, k, off, |p| - off);
      ptr := len;
    }

    /**
     A write at a block boundary hashes its bytes. With a partial block pending
     it drops bytes that do not complete the block; when they do, the block is
     compressed as the buffer happens to hold it, and the bytes that should have
     filled it are skipped.
     */
    method Write(p: seq<byte>)
      requires Valid() && |p| < WORD
      modifies this, buf
      ensures Valid()
      ensures message == AfterWrite(old(message), old(ptr), old(buf[..]), p)
    {
      hide Low, High, Absorbed;
      var off := 0;
      if ptr != 0 {
        var rlen := 64 - ptr;
        if |p| < rlen {
          CopyTail(p, ptr, 0, |p|);
          return;
        }
        off := rlen;
        CompleteStale();
      }
      assert p[0..] == p;
      Rest(p, off);
    }

    lemma AbsorbNone(f: Compression, s: LaneState, n: int, data: seq<byte>)
      ensures Absorbed(f, s, n, data, 0) == s
    {
    }

    method CheckSum() returns (digest: seq<byte>)
      requires Valid()
      modifies this, buf
      ensures digest == WordBytes(Digest(f, iv, old(message)))
    {
      hide Low, High, Absorbed;
      ghost var n, s, m, p := w, state, message, ptr;
      buf[ptr] := 0x80;
      assert buf[..ptr] == m[64 * (n - 1)..];
      ptr := ptr + 1;
      for i := ptr to 64
        invariant w == n && state == s
        invariant buf[..i] == m[64 * (n - 1)..] + [0x80] + seq(i - p - 1, _ => 0)
      {
        ghost var filled := buf[..i];
        buf[i] := 0;
        assert buf[..i + 1] == filled + [0];
      }
      assert buf[..] == PaddedTail(m[64 * (n - 1)..]);
      for z := 0 to 4
        invariant w == n && buf[..] == PaddedTail(m[64 * (n - 1)..])
        invariant state == Final(f, s, n, buf[..], z)
      {
        Core1();
        w := w - 1;
      }
      DigestIs(f, iv, m, n - 1, p, s);
      digest := WordBytes(state[36..44]);
    }
  }

  /** The bytes that count as written after one more write, given the pending count and the whole buffer before it. */
  ghost function AfterWrite(m: seq<byte>, pending: nat, buf: seq<byte>, p: seq<byte>): seq<byte>
    requires pending < 64 && pending <= |m|
  {
    if pending == 0 then m + p
    else if |p| < 64 - pending then m
    else m[..|m| - pending] + buf + p[64 - pending..]
  }

  /**
   A write appends exactly its bytes if and only if it comes at a block
   boundary, is empty, or completes the block with the bytes the buffer holds
   already.
   */
  lemma WriteAppendsIff(m: seq<byte>, pending: nat, buf: seq<byte>, p: seq<byte>)
    requires pending < 64 == |buf| && pending <= |m| && buf[..pending] == m[|m| - pending..]
    ensures AfterWrite(m, pending, buf, p) == m + p
       <==> pending == 0 || p == [] || (|p| >= 64 - pending && buf[pending..] == p[..64 - pending])
  {
    var r := 64 - pending;
    if pending > 0 && |p| < r {
      assert |m + p| == |m| + |p|;
    } else if pending > 0 {
      var h := m[..|m| - pending];
      assert m + p == h + (buf[..pending] + p[..r]) + p[r..];
      assert buf == buf[..pending] + buf[pending..];
      assert h + buf + p[r..] == h + (buf[..pending] + buf[pending..]) + p[r..];
      if h + buf + p[r..] == m + p {
        assert (h + buf + p[r..])[|m|..|m| + r] == buf[pending..];
        assert (m + p)[|m|..|m| + r] == p[..r];
      }
    }
  }

  /** Two writes of one byte each: the digest is that of the first byte alone. */
  method SecondByteLost(f: Compression, iv: LaneState, a: byte, b: byte) returns (digest: seq<byte>)
    ensures digest == WordBytes(Digest(f, iv, [a]))
  {
    hide Digest, Absorbed;
    var d := new GoDigest(f, iv);
    d.Write([a]);
    assert d.message == [] + [a] == [a];
    d.Write([b]);
    digest := d.CheckSum();
  }

  /** One write and the checksum: the bytes of the reference digest, which is what every lane computes too. */
  method Sum256(f: Compression, iv: LaneState, data: seq<byte>) returns (digest: seq<byte>)
    requires |data| < WORD
    ensures digest == WordBytes(Digest(f, iv, data))
  {
    hide Digest;
    var d := new GoDigest(f, iv);
    d.Write(data);
    assert d.message == [] + data == data;
    digest := d.CheckSum();
  }
}
