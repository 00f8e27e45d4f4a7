/** The block allocator: a bitmap over a window of blocks that is filled from a walk over
    the filesystem, and a countdown of the blocks that may still be looked at before
    everything handed out so far has been committed. */
module Allocator {

  datatype Result = Block(block: nat) | NoSpace | WalkFailed

  /** x modulo n for x below 2n. */
  function Wrap(x: nat, n: nat): (r: nat)
    requires x < 2 * n
    ensures r < n
  {
    if x < n then x else x - n
  }

  lemma WrapIsMod(x: nat, n: nat)
    requires x < 2 * n
    ensures x % n == Wrap(x, n)
  {
    if x >= n {
      assert x == n + (x - n);
      ModOfSum(x - n, n);
    }
  }

  lemma ModOfSum(r: nat, n: nat)
    requires r < n
    ensures (n + r) % n == r
  {
  }

  class Allocator {
    const blockCount: nat
    const lookahead: nat        // the size of the bitmap, in bits
    var off: nat                // the window: blocks off .. off + size, wrapping around
    var size: nat
    var i: nat                  // the next bit to look at
    var ack: nat                // how many blocks may still be looked at
    var used: seq<bool>         // the bitmap

    ghost var live: set<nat>      // blocks that a walk over the filesystem reaches
    ghost var walked: set<nat>    // what the last walk reached
    ghost var reached: set<nat>   // what the walks behind the current countdown reached
    ghost var pending: set<nat>   // blocks handed out since the last acknowledgement

    /** The block that the next bit stands for. */
    function Cursor(): nat
      requires i <= blockCount && off < blockCount
      reads this
    {
      Wrap(off + i, blockCount)
    }

    /** How many steps before the cursor a block lies. */
    static function Distance(cursor: nat, b: nat, n: nat): nat
      requires cursor < n && b < n
    {
      if b < cursor then cursor - 1 - b else cursor - 1 - b + n
    }

    /** The blocks looked at since the last acknowledgement are the `blockCount - ack` ones
        right before the cursor. */
    ghost predicate Seen(b: nat)
      requires i <= blockCount && off < blockCount
      reads this
    {
      SeenAt(Cursor(), ack, blockCount, b)
    }

    static predicate SeenAt(cursor: nat, ack: nat, n: nat, b: nat)
      requires cursor < n
    {
      b < n && Distance(cursor, b, n) < n - ack
    }

    ghost predicate Valid()
      reads this
    {
      && 0 < blockCount && 0 < lookahead && |used| == lookahead && off < blockCount
      && i <= size <= blockCount && size <= lookahead
      && size - i <= ack <= blockCount
      && (forall k :: i <= k < size ==> (used[k] <==> Wrap(off + k, blockCount) in walked))
      && (forall k :: i <= k < size && !used[k] ==> Wrap(off + k, blockCount) !in live)
      && (forall b: nat :: b in pending ==> Seen(b))
      && (forall b: nat :: Seen(b) ==> b in pending || b in reached)
      && (size > 0 ==> walked <= reached)
    }

    lemma AheadIsNotSeen(k: nat)
      requires Valid() && i <= k < size
      ensures Wrap(off + k, blockCount) < blockCount && !Seen(Wrap(off + k, blockCount))
    {
    }

    static lemma StepSeen(cursor: nat, ack: nat, n: nat, b: nat)
      requires cursor < n && 0 < ack <= n
      ensures SeenAt(Wrap(cursor + 1, n), ack - 1, n, b) <==> SeenAt(cursor, ack, n, b) || b == cursor
    {
    }

    static lemma CursorStep(off: nat, i: nat, n: nat)
      requires off < n && i < n
      ensures Wrap(off + i + 1, n) == Wrap(Wrap(off + i, n) + 1, n)
    {
    }

    /** Looks at the bit under the cursor and moves on. */
    method Step() returns (b: nat, free: bool)
      requires Valid() && i < size
      modifies this`i, this`ack, this`pending
      ensures b == old(Cursor()) && free == !used[old(i)]
      ensures i == old(i) + 1 && ack == old(ack) - 1
      ensures pending == if free then old(pending) + {b} else old(pending)
      ensures Valid()
      ensures free ==> b !in live && b !in old(pending)
      ensures forall c: nat :: Seen(c) <==> old(Seen(c)) || c == b
    {
      hide Wrap, Distance, SeenAt;
      b, free := Wrap(off + i, blockCount), !used[i];
      AheadIsNotSeen(i);
      CursorStep(off, i, blockCount);
      forall c: nat
        ensures SeenAt(Wrap(b + 1, blockCount), ack - 1, blockCount, c)
          <==> SeenAt(b, ack, blockCount, c) || c == b
      {
        StepSeen(b, ack, blockCount, c);
      }
      i, ack := i + 1, ack - 1;
      if free { pending := pending + {b}; }
    }

    // ---- The interface ----

    /** A mount: whatever the files there use is live, and nothing has been looked at yet. */
    constructor (blockCount: nat, lookahead: nat, seed: nat, ghost live: set<nat>)
      requires blockCount > 0 && lookahead > 0
      ensures Valid() && this.blockCount == blockCount && this.lookahead == lookahead
      ensures this.live == live && pending == {} && forall b: nat :: !Seen(b)
      ensures size == 0 && i == 0 && ack == blockCount && off == seed % blockCount
    {
      this.blockCount, this.lookahead := blockCount, lookahead;
      off, size, i, ack := seed % blockCount, 0, 0, blockCount;
      used := seq(lookahead, _ => false);
      this.live, walked, reached, pending := live, {}, {}, {};
    }

    /** A format: nothing is live, and the first window is known to be free without a walk. */
    constructor Format(blockCount: nat, lookahead: nat)
      requires blockCount > 0 && lookahead > 0
      ensures Valid() && this.blockCount == blockCount && this.lookahead == lookahead
      ensures live == {} && pending == {} && forall b: nat :: !Seen(b)
      ensures off == 0 && i == 0 && ack == blockCount
      ensures size == if lookahead < blockCount then lookahead else blockCount
    {
      this.blockCount, this.lookahead := blockCount, lookahead;
      off, i, ack := 0, 0, blockCount;
      size := if lookahead < blockCount then lookahead else blockCount;
      used := seq(lookahead, _ => false);
      live, walked, reached, pending := {}, {}, {}, {};
    }

    /** Everything handed out so far is visible to walks now, or abandoned; other blocks may
        have been given back. The countdown starts afresh. */
    method Ack(ghost live': set<nat>)
      requires Valid() && live' <= live + pending
      modifies this`ack, this`live, this`pending, this`reached
      ensures Valid() && ack == blockCount
      ensures live == live' && pending == {} && reached == walked
      ensures forall b: nat :: !Seen(b)
    {
      ack := blockCount;
      live, pending, reached := live', {}, walked;
      assert forall k :: i <= k < size && !used[k] ==> Wrap(off + k, blockCount) !in live;
    }

    /** Forgets the window after a failed walk. The countdown restarts as well, so whatever
        the failing operation had been given is taken to be abandoned. */
    method Drop()
      requires blockCount > 0 && lookahead > 0 && |used| == lookahead && off < blockCount
      modifies this`size, this`i, this`ack, this`pending, this`reached
      ensures Valid() && ack == blockCount && pending == {} && size == 0 && i == 0
    {
      size, i, ack := 0, 0, blockCount;
      pending, reached := {}, {};
    }

    /** Where a block lies in the window (lfs_alloc_lookahead). */
    static function BitOf(block: nat, off: nat, n: nat): nat
      requires block < n && off < n
    {
      (block - off + n) % n
    }

    static lemma BitOfIsPosition(block: nat, off: nat, n: nat, k: nat)
      requires block < n && off < n && k < n
      ensures BitOf(block, off, n) == k <==> block == Wrap(off + k, n)
    {
      WrapIsMod(block - off + n, n);
    }

    /** The bitmap that a walk leaves: a bit for every block of the window it came across. */
    static method FillBitmap(walk: seq<nat>, off: nat, size: nat, n: nat, bits: nat)
      returns (bitmap: seq<bool>)
      requires off < n && size <= n && size <= bits
      requires forall b: nat :: b in walk ==> b < n
      ensures |bitmap| == bits
      ensures forall k: nat :: k < size ==> (bitmap[k] <==> Wrap(off + k, n) in walk)
    {
      hide Wrap;
      bitmap := seq(bits, _ => false);
      for j := 0 to |walk|
        invariant |bitmap| == bits
        invariant forall k: nat :: k < size ==> (bitmap[k] <==> Wrap(off + k, n) in walk[..j])
      {
        assert walk[j] in walk && walk[..j + 1] == walk[..j] + [walk[j]];
        var bit := BitOf(walk[j], off, n);
        ghost var before := bitmap;
        if bit < size { bitmap := bitmap[bit := true]; }
        forall k: nat | k < size
          ensures bitmap[k] <==> Wrap(off + k, n) in walk[..j + 1]
        {
          BitOfIsPosition(walk[j], off, n, k);
          assert bitmap[k] <==> before[k] || k == bit;
        }
      }
      assert walk[..|walk|] == walk;
    }

    static lemma AtStart(off: nat, n: nat)
      requires off < n
      ensures Wrap(off + 0, n) == off
    {
    }

    /** Moves the window to the cursor, no larger than the countdown allows, and fills the
        bitmap from a walk (lfs_fs_rawgc). */
    method Refill(walk: seq<nat>, fails: bool) returns (ok: bool)
      requires Valid() && i == size
      requires forall b: nat :: b in walk <==> b in live
      requires forall b: nat :: b in live ==> b < blockCount
      modifies this`off, this`size, this`i, this`ack, this`used, this`walked, this`reached,
               this`pending
      ensures Valid() && ok == !fails
      ensures if ok then ack == old(ack) && pending == old(pending)
              else ack == blockCount && pending == {}
      ensures ok ==> i == 0 && size == (if lookahead < ack then lookahead else ack)
      ensures ok ==> forall b: nat :: Seen(b) <==> old(Seen(b))
      ensures ok ==> walked == live && reached == old(reached) + live
      ensures Cursor() == old(Cursor())
    {
      hide SeenAt, Wrap, BitOf;
      WrapIsMod(off + i, blockCount);
      off := (off + i) % blockCount;
      size := if lookahead < ack then lookahead else ack;
      i := 0;
      AtStart(off, blockCount);
      assert Cursor() == old(Cursor());
      if fails {
        Drop();
        return false;
      }
      used := FillBitmap(walk, off, size, blockCount, lookahead);
      walked, reached := live, reached + live;
      return true;
    }

    /** How many of the blocks that may still be looked at lie behind the window. */
    function Behind(): nat
      requires i <= size && size - i <= ack
      reads this
    {
      ack - (size - i)
    }

    /** Hands out a block that no walk reaches and that was not handed out since the last
        acknowledgement. The filesystem is full only when every block was looked at since then
        and each was found reached by a walk or is among those handed out. A walk is needed for
        each further window; `goodWalks` of them succeed (lfs_alloc). */
    method Alloc(walk: seq<nat>, goodWalks: nat) returns (r: Result)
      requires Valid()
      requires forall b: nat :: b in walk <==> b in live
      requires forall b: nat :: b in live ==> b < blockCount
      modifies this`off, this`size, this`i, this`ack, this`used, this`walked, this`reached,
               this`pending
      ensures Valid()
      ensures r.Block? ==>
                && r.block < blockCount && r.block !in live && r.block !in old(pending)
                && pending == old(pending) + {r.block} && ack < old(ack)
      ensures r.NoSpace? ==>
                && ack == 0 && pending == old(pending) && reached <= old(reached) + live
                && forall b: nat :: b < blockCount ==> b in pending || b in reached
      ensures r.WalkFailed? ==>
                && pending == {} && ack == blockCount
                && var left := old(Behind()) - goodWalks * lookahead;
                && 0 < left <= blockCount
                && forall b: nat :: SeenAt(Cursor(), left, blockCount, b) ==>
                     b in old(pending) || b in old(reached) || b in live
    {
      hide Wrap, Distance, SeenAt;
      var walks := 0;
      while true
        invariant Valid() && ack <= old(ack)
        invariant pending == old(pending) && reached <= old(reached) + live
        invariant walks <= goodWalks && (Behind() > 0 ==> Behind() + walks * lookahead == old(Behind()))
        decreases 2 * ack + if i == size then 1 else 0
      {
        ghost var budget, window, behind := ack + i, size, Behind();
        while i != size
          invariant size == window && Valid() && ack + i == budget && ack <= old(ack) && i <= size
          invariant pending == old(pending) && reached <= old(reached) + live
          decreases size - i
        {
          var b, free := Step();
          if free {
            // move on to the next free bit, so that an acknowledgement can discredit the window
            while i != size && used[i]
              invariant Valid() && i <= size && ack < old(ack)
              invariant pending == old(pending) + {b}
              decreases size - i
            {
              var _, _ := Step();
            }
            return Block(b);
          }
        }
        if ack == 0 {
          AllSeen();
          return NoSpace;
        }
        ghost var cursor, left, known := Cursor(), ack, pending + reached;
        assert forall b: nat :: SeenAt(cursor, left, blockCount, b) ==> b in known;
        var ok := Refill(walk, walks == goodWalks);
        if !ok {
          return WalkFailed;
        }
        MoreWalks(walks, lookahead);
        walks := walks + 1;
      }
    }

    static lemma MoreWalks(walks: nat, lookahead: nat)
      ensures (walks + 1) * lookahead == walks * lookahead + lookahead
    {
    }

    lemma AllSeen()
      requires Valid() && ack == 0
      ensures forall b: nat :: b < blockCount ==> Seen(b)
    {
    }
  }
}
