/** The portable `alloca`: a chain of headers that remember how deep in the stack they were allocated.
    Each call frees the blocks of deeper calls; no block of a procedure that has not returned is ever
    freed. */
module Alloca {

  /** A block, the call frame it was allocated for, and the address of the probe at that time. */
  datatype Block = Block(name: nat, owner: nat, deep: int)

  /** Address `a` is deeper in the stack than `b`. */
  predicate Deeper(dir: int, a: int, b: int) {
    (dir > 0 && a > b) || (dir < 0 && a < b)
  }

  // ----- the chain as it is built

  class Header {
    const next: Header?
    const block: Block

    constructor (next: Header?, block: Block)
      ensures this.next == next && this.block == block
    {
      this.next, this.block := next, block;
    }
  }

  /** The headers from `h` on carry `blocks`. */
  ghost predicate Chained(h: Header?, blocks: seq<Block>)
    decreases |blocks|
  {
    if blocks == [] then h == null else h != null && h.block == blocks[0] && Chained(h.next, blocks[1..])
  }

  /** How many headers the loop over the chain frees: it stops at the first that is not deeper. */
  function Garbage(blocks: seq<Block>, dir: int, depth: int): (n: nat)
    ensures n <= |blocks|
  {
    if blocks != [] && Deeper(dir, blocks[0].deep, depth) then 1 + Garbage(blocks[1..], dir, depth) else 0
  }

  class Allocator {
    var last: Header?
    var stackDir: int             // 0 while unknown
    ghost var blocks: seq<Block>  // of the chain, the last one allocated first
    ghost var freed: seq<Block>   // in the order they were freed

    ghost predicate Valid()
      reads this
    {
      Chained(last, blocks) && stackDir in {-1, 0, 1}
    }

    constructor ()
      ensures Valid() && blocks == [] && freed == [] && stackDir == 0
    {
      last, stackDir, blocks, freed := null, 0, [], [];
    }

    /** `find_stack_direction`: compare a local variable of a call with one of the call it makes. */
    method FindStackDirection(outer: int, inner: int)
      modifies this`stackDir
      ensures stackDir == if inner > outer then 1 else -1
    {
      if inner > outer {
        stackDir := 1;
      } else {
        stackDir := -1;
      }
    }

    /** `alloca` called from the frame `owner`, with its probe at address `depth`. */
    method Alloca(size: nat, depth: int, outer: int, inner: int, name: nat, owner: nat) returns (storage: Header?)
      requires Valid()
      modifies this
      ensures Valid() && stackDir == if old(stackDir) != 0 then old(stackDir) else if inner > outer then 1 else -1
      ensures var n := Garbage(old(blocks), stackDir, depth);
              && blocks == (if size == 0 then [] else [Block(name, owner, depth)]) + old(blocks)[n..]
              && freed == old(freed) + old(blocks)[..n]
      ensures size == 0 <==> storage == null
      ensures storage != null ==> storage.block == Block(name, owner, depth)
    {
      if stackDir == 0 {
        FindStackDirection(outer, inner);
      }
      Collect(depth);
      assert [] + blocks == blocks;
      if size == 0 {
        return null;
      }
      storage := new Header(last, Block(name, owner, depth));
      last := storage;
      ghost var rest := blocks;
      blocks := [storage.block] + blocks;
      assert blocks[1..] == rest;
    }

    /** Reclaim garbage: walk the chain and free what was allocated from deeper than `depth`. */
    method Collect(depth: int)
      requires Valid() && stackDir != 0
      modifies this`last, this`blocks, this`freed
      ensures Valid()
      ensures var n := Garbage(old(blocks), stackDir, depth);
              blocks == old(blocks)[n..] && freed == old(freed) + old(blocks)[..n]
    {
      var hp := last;
      ghost var n, rest := 0, blocks;
      while hp != null
        modifies this`freed
        invariant 0 <= n <= |blocks| && Chained(hp, rest) && rest == blocks[n..]
        invariant freed == old(freed) + blocks[..n]
          && n + Garbage(rest, stackDir, depth) == Garbage(blocks, stackDir, depth)
        decreases |rest|
      {
        if (stackDir > 0 && hp.block.deep > depth) || (stackDir < 0 && hp.block.deep < depth) {
          var np := hp.next;
          assert blocks[..n + 1] == blocks[..n] + [hp.block] && rest[1..] == blocks[n + 1..];
          freed := freed + [hp.block];
          n, rest := n + 1, rest[1..];
          hp := np;
        } else {
          break;
        }
      }
      last, blocks := hp, rest;
    }
  }

  // ----- what the loop reclaims

  /** The blocks below never come from deeper in the stack. */
  ghost predicate Monotone(blocks: seq<Block>, dir: int) {
    forall i, j :: 0 <= i < j < |blocks| ==> !Deeper(dir, blocks[j].deep, blocks[i].deep)
  }

  lemma MonotoneFrom(blocks: seq<Block>, dir: int, n: nat)
    requires Monotone(blocks, dir) && n <= |blocks|
    ensures Monotone(blocks[n..], dir)
  {
  }

  /** All blocks that are not deeper. */
  function NotDeeper(blocks: seq<Block>, dir: int, depth: int): seq<Block> {
    if blocks == [] then []
    else (if Deeper(dir, blocks[0].deep, depth) then [] else [blocks[0]]) + NotDeeper(blocks[1..], dir, depth)
  }

  lemma {:induction false} NoneDeeper(blocks: seq<Block>, dir: int, depth: int)
    requires forall i :: 0 <= i < |blocks| ==> !Deeper(dir, blocks[i].deep, depth)
    ensures NotDeeper(blocks, dir, depth) == blocks
  {
    if blocks != [] { NoneDeeper(blocks[1..], dir, depth); }
  }

  lemma FirstDeeper(blocks: seq<Block>, dir: int, depth: int)
    requires blocks != [] && Deeper(dir, blocks[0].deep, depth)
    ensures Garbage(blocks, dir, depth) == 1 + Garbage(blocks[1..], dir, depth)
    ensures NotDeeper(blocks, dir, depth) == NotDeeper(blocks[1..], dir, depth)
  {
    assert [] + NotDeeper(blocks[1..], dir, depth) == NotDeeper(blocks[1..], dir, depth);
  }

  /** Stopping at the first header that is not deeper frees exactly the deeper blocks. */
  lemma {:induction false} ReclaimsTheDeeper(blocks: seq<Block>, dir: int, depth: int)
    requires dir in {-1, 1} && Monotone(blocks, dir)
    ensures blocks[Garbage(blocks, dir, depth)..] == NotDeeper(blocks, dir, depth)
    ensures forall i :: 0 <= i < |blocks| ==> (i < Garbage(blocks, dir, depth) <==> Deeper(dir, blocks[i].deep, depth))
  {
    if blocks != [] {
      if Deeper(dir, blocks[0].deep, depth) {
        var rest := blocks[1..];
        MonotoneFrom(blocks, dir, 1);
        FirstDeeper(blocks, dir, depth);
        hide Monotone, Deeper, Garbage, NotDeeper;
        ReclaimsTheDeeper(rest, dir, depth);
        var n := Garbage(rest, dir, depth);
        assert blocks[n + 1..] == rest[n..];
        forall i | 0 < i < |blocks| ensures i < n + 1 <==> Deeper(dir, blocks[i].deep, depth) {
          assert blocks[i] == rest[i - 1];
        }
      } else {
        forall i | 0 <= i < |blocks| ensures !Deeper(dir, blocks[i].deep, depth) {
          assert i > 0 ==> !Deeper(dir, blocks[i].deep, blocks[0].deep);
        }
        NoneDeeper(blocks, dir, depth);
      }
    }
  }

  // ----- runs of a program

  /** A call that has not returned; `probe` is where an alloca called from it finds its own probe. */
  datatype Frame = Frame(id: nat, probe: int)

  /** The program: its stack, the blocks of the chain and those freed. */
  datatype State = State(frames: seq<Frame>, blocks: seq<Block>, freed: seq<Block>, nextFrame: nat, nextBlock: nat)

  /** A call whose allocas are `gap + 1` deeper than its caller's, a return, an alloca. */
  datatype Event = Call(gap: nat) | Return | Allocate(size: nat)

  function Step(s: State, dir: int, e: Event): State
    requires s.frames != []
  {
    var top := s.frames[|s.frames| - 1];
    match e
    case Call(gap) =>
      s.(frames := s.frames + [Frame(s.nextFrame, top.probe + dir * (gap + 1))], nextFrame := s.nextFrame + 1)
    case Return => if |s.frames| == 1 then s else s.(frames := s.frames[..|s.frames| - 1])
    case Allocate(size) =>
      var n := Garbage(s.blocks, dir, top.probe);
      s.(blocks := (if size == 0 then [] else [Block(s.nextBlock, top.id, top.probe)]) + s.blocks[n..],
         freed := s.freed + s.blocks[..n], nextBlock := s.nextBlock + 1)
  }

  /** The call that `b` was allocated for has returned. */
  ghost predicate Dead(frames: seq<Frame>, b: Block) {
    forall k :: 0 <= k < |frames| ==> frames[k].id != b.owner
  }

  /** Frames are numbered and deeper and deeper; a block of a live frame has its frame's depth. */
  ghost predicate FramesOk(s: State, dir: int) {
    && s.frames != []
    && (forall i, j :: 0 <= i < j < |s.frames| ==>
      s.frames[i].id < s.frames[j].id && Deeper(dir, s.frames[j].probe, s.frames[i].probe))
    && (forall i :: 0 <= i < |s.frames| ==> s.frames[i].id < s.nextFrame)
  }

  ghost predicate BlocksOk(s: State) {
    && (forall i, k :: 0 <= i < |s.blocks| && 0 <= k < |s.frames| && s.frames[k].id == s.blocks[i].owner ==>
          s.blocks[i].deep == s.frames[k].probe)
    && (forall i :: 0 <= i < |s.blocks| ==> s.blocks[i].owner < s.nextFrame)
  }

  ghost predicate FreedOk(s: State) {
    forall i :: 0 <= i < |s.freed| ==> s.freed[i].owner < s.nextFrame && Dead(s.frames, s.freed[i])
  }

  ghost predicate Inv(s: State, dir: int) {
    FramesOk(s, dir) && Monotone(s.blocks, dir) && BlocksOk(s) && FreedOk(s)
  }

  /** A new frame is deeper than all others, and no block is its own. */
  lemma CallKeeps(s: State, dir: int, gap: nat)
    requires dir in {-1, 1} && Inv(s, dir)
    ensures Inv(Step(s, dir, Call(gap)), dir)
  {
    var s', n := Step(s, dir, Call(gap)), |s.frames|;
    assert forall k :: 0 <= k < n ==> s'.frames[k] == s.frames[k];
    assert FramesOk(s', dir) by {
      hide Monotone, BlocksOk, FreedOk;
      assert Deeper(dir, s'.frames[n].probe, s.frames[n - 1].probe);
    }
    hide FramesOk, Monotone, Deeper;
    forall i | 0 <= i < |s.freed| ensures Dead(s'.frames, s.freed[i]) {
      assert Dead(s.frames, s.freed[i]) && s.freed[i].owner < s.nextFrame;
    }
  }

  lemma ReturnKeeps(s: State, dir: int)
    requires dir in {-1, 1} && Inv(s, dir)
    ensures Inv(Step(s, dir, Return), dir)
  {
  }

  /** A block that is deeper than the top frame's allocas belongs to no live frame. */
  lemma DeeperIsDead(s: State, dir: int, i: nat)
    requires dir in {-1, 1} && FramesOk(s, dir) && BlocksOk(s) && i < |s.blocks|
    requires Deeper(dir, s.blocks[i].deep, s.frames[|s.frames| - 1].probe)
    ensures Dead(s.frames, s.blocks[i])
  {
    var n := |s.frames| - 1;
    assert forall k :: 0 <= k <= n ==> k == n || Deeper(dir, s.frames[n].probe, s.frames[k].probe);
  }

  lemma AllocateFreed(s: State, dir: int, size: nat)
    requires dir in {-1, 1} && Inv(s, dir)
    ensures FreedOk(Step(s, dir, Allocate(size)))
  {
    var s', top := Step(s, dir, Allocate(size)), s.frames[|s.frames| - 1];
    ReclaimsTheDeeper(s.blocks, dir, top.probe);
    var n := Garbage(s.blocks, dir, top.probe);
    hide Garbage, NotDeeper, Monotone, Dead, Deeper;
    forall i | 0 <= i < n ensures s.blocks[i].owner < s.nextFrame && Dead(s.frames, s.blocks[i]) {
      DeeperIsDead(s, dir, i);
    }
    assert s'.freed == s.freed + s.blocks[..n];
  }

  lemma AllocateBlocks(s: State, dir: int, size: nat)
    requires dir in {-1, 1} && Inv(s, dir)
    ensures BlocksOk(Step(s, dir, Allocate(size))) && Monotone(Step(s, dir, Allocate(size)).blocks, dir)
  {
    var top, s' := s.frames[|s.frames| - 1], Step(s, dir, Allocate(size));
    var b, left := Block(s.nextBlock, top.id, top.probe), s.blocks[Garbage(s.blocks, dir, top.probe)..];
    assert s'.blocks == if size == 0 then left else [b] + left;
    Remaining(s.blocks, dir, top.probe, left);
    hide Garbage, Monotone, FreedOk, BlocksOk;
    PushMonotone(left, dir, b);
    OwnersKept(s, left, b, dir);
    SameOwners(s.(blocks := s'.blocks), s');
  }

  lemma Remaining(blocks: seq<Block>, dir: int, depth: int, left: seq<Block>)
    requires dir in {-1, 1} && Monotone(blocks, dir) && left == blocks[Garbage(blocks, dir, depth)..]
    ensures Monotone(left, dir) && forall i :: 0 <= i < |left| ==>
      left[i] in blocks && !Deeper(dir, left[i].deep, depth)
  {
    hide Garbage, NotDeeper, Monotone, Deeper;
    ReclaimsTheDeeper(blocks, dir, depth);
    var n := Garbage(blocks, dir, depth);
    MonotoneFrom(blocks, dir, n);
    forall i | 0 <= i < |left| ensures left[i] in blocks && !Deeper(dir, left[i].deep, depth) {
      assert left[i] == blocks[n + i];
    }
  }

  lemma SameOwners(s: State, s': State)
    requires BlocksOk(s) && s'.blocks == s.blocks && s'.frames == s.frames && s'.nextFrame == s.nextFrame
    ensures BlocksOk(s')
  {
  }

  lemma PushMonotone(left: seq<Block>, dir: int, b: Block)
    requires Monotone(left, dir) && forall i :: 0 <= i < |left| ==> !Deeper(dir, left[i].deep, b.deep)
    ensures Monotone([b] + left, dir)
  {
  }

  lemma OwnersKept(s: State, left: seq<Block>, b: Block, dir: int)
    requires FramesOk(s, dir) && BlocksOk(s) && forall i :: 0 <= i < |left| ==> left[i] in s.blocks
    requires b.owner == s.frames[|s.frames| - 1].id && b.deep == s.frames[|s.frames| - 1].probe
    ensures BlocksOk(s.(blocks := left)) && BlocksOk(s.(blocks := [b] + left))
  {
  }

  lemma AllocateKeeps(s: State, dir: int, size: nat)
    requires dir in {-1, 1} && Inv(s, dir)
    ensures Inv(Step(s, dir, Allocate(size)), dir)
  {
    AllocateFreed(s, dir, size);
    AllocateBlocks(s, dir, size);
    hide Garbage, FreedOk, BlocksOk, Monotone;
  }

  function Run(s: State, dir: int, es: seq<Event>): (r: State)
    requires s.frames != []
    ensures r.frames != []
  {
    if es == [] then s else Step(Run(s, dir, es[..|es| - 1]), dir, es[|es| - 1])
  }

  function Start(probe: int): State {
    State([Frame(0, probe)], [], [], 1, 0)
  }

  /** In every run of calls, returns and allocas the chain is ordered by depth and no block that was
      freed belongs to a call that has not returned. */
  lemma {:induction false} RunKeeps(probe: int, dir: int, es: seq<Event>)
    requires dir in {-1, 1}
    ensures Inv(Run(Start(probe), dir, es), dir)
  {
    if es != [] {
      RunKeeps(probe, dir, es[..|es| - 1]);
      var s := Run(Start(probe), dir, es[..|es| - 1]);
      match es[|es| - 1] {
        case Call(gap) => CallKeeps(s, dir, gap);
        case Return => ReturnKeeps(s, dir);
        case Allocate(size) => AllocateKeeps(s, dir, size);
      }
    }
  }

  /** In every run an alloca frees exactly the blocks that are deeper than its caller's, whatever calls
      they were made for; an alloca of size 0 does only that. */
  lemma ReclaimsInRuns(probe: int, dir: int, es: seq<Event>)
    requires dir in {-1, 1}
    ensures var s := Run(Start(probe), dir, es);
            Step(s, dir, Allocate(0)).blocks == NotDeeper(s.blocks, dir, s.frames[|s.frames| - 1].probe)
  {
    RunKeeps(probe, dir, es);
    var s := Run(Start(probe), dir, es);
    ReclaimsTheDeeper(s.blocks, dir, s.frames[|s.frames| - 1].probe);
    hide Run, Garbage, NotDeeper;
    assert [] + s.blocks[Garbage(s.blocks, dir, s.frames[|s.frames| - 1].probe)..]
      == s.blocks[Garbage(s.blocks, dir, s.frames[|s.frames| - 1].probe)..];
  }

  /** Every block has a name of its own: in the chain the newest is first, and no freed one is in it. */
  ghost predicate NamesOk(s: State) {
    && (forall i, j :: 0 <= i < j < |s.blocks| ==> s.blocks[i].name > s.blocks[j].name)
    && (forall i :: 0 <= i < |s.blocks| ==> s.blocks[i].name < s.nextBlock)
    && (forall i :: 0 <= i < |s.freed| ==> s.freed[i].name < s.nextBlock)
    && (forall i, j :: 0 <= i < |s.blocks| && 0 <= j < |s.freed| ==> s.blocks[i].name != s.freed[j].name)
    && (forall i, j :: 0 <= i < j < |s.freed| ==> s.freed[i].name != s.freed[j].name)
  }

  lemma AllocateNames(s: State, dir: int, size: nat)
    requires s.frames != [] && NamesOk(s)
    ensures NamesOk(Step(s, dir, Allocate(size)))
  {
    var n := Garbage(s.blocks, dir, s.frames[|s.frames| - 1].probe);
    hide Garbage;
    var s' := Step(s, dir, Allocate(size));
    assert s'.freed == s.freed + s.blocks[..n];
  }

  /** So it is in every run: no block is freed twice, and none is lost. */
  lemma {:induction false} RunNames(probe: int, dir: int, es: seq<Event>)
    ensures NamesOk(Run(Start(probe), dir, es))
  {
    if es != [] {
      RunNames(probe, dir, es[..|es| - 1]);
      if es[|es| - 1].Allocate? {
        hide Step;
        AllocateNames(Run(Start(probe), dir, es[..|es| - 1]), dir, es[|es| - 1].size);
      }
    }
  }

  /** All blocks that were ever allocated. */
  function Allocated(probe: int, dir: int, es: seq<Event>): set<Block> {
    if es == [] then {}
    else
      var s, last := Run(Start(probe), dir, es[..|es| - 1]), es[|es| - 1];
      var top := s.frames[|s.frames| - 1];
      Allocated(probe, dir, es[..|es| - 1])
        + if last.Allocate? && last.size > 0 then {Block(s.nextBlock, top.id, top.probe)} else {}
  }

  /** A block that was allocated is in the chain until it is freed. */
  lemma {:induction false} ChainedOrFreed(probe: int, dir: int, es: seq<Event>, b: Block)
    ensures b in Allocated(probe, dir, es)
      <==> b in Run(Start(probe), dir, es).blocks || b in Run(Start(probe), dir, es).freed
  {
    if es != [] {
      var s, last := Run(Start(probe), dir, es[..|es| - 1]), es[|es| - 1];
      ChainedOrFreed(probe, dir, es[..|es| - 1], b);
      hide Step;
      StepChains(s, dir, last, b);
    }
  }

  lemma StepChains(s: State, dir: int, e: Event, b: Block)
    requires s.frames != []
    ensures var s', top := Step(s, dir, e), s.frames[|s.frames| - 1];
            b in s'.blocks || b in s'.freed
            <==> b in s.blocks || b in s.freed
                 || (e.Allocate? && e.size > 0 && b == Block(s.nextBlock, top.id, top.probe))
  {
    if e.Allocate? {
      var n := Garbage(s.blocks, dir, s.frames[|s.frames| - 1].probe);
      hide Garbage;
      assert s.blocks == s.blocks[..n] + s.blocks[n..];
    }
  }

  /** No block of a call that has not returned is ever freed: all of them are still in the chain. */
  lemma LiveBlocksStay(probe: int, dir: int, es: seq<Event>)
    requires dir in {-1, 1}
    ensures var s := Run(Start(probe), dir, es);
            forall b :: b in Allocated(probe, dir, es) && !Dead(s.frames, b) ==> b in s.blocks
  {
    RunKeeps(probe, dir, es);
    var s := Run(Start(probe), dir, es);
    hide Run, Allocated, Dead;
    forall b | b in Allocated(probe, dir, es) && !Dead(s.frames, b) ensures b in s.blocks {
      ChainedOrFreed(probe, dir, es, b);
    }
  }

  /** The run on the real chain, on a stack that grows in direction `dir`; `chain` are the blocks from
      the last header on. */
  method Program(probe: int, dir: int, es: seq<Event>) returns (frames: seq<Frame>, chain: seq<Block>)
    requires dir in {-1, 1}
    ensures frames == Run(Start(probe), dir, es).frames && chain == Run(Start(probe), dir, es).blocks
    ensures forall b :: b in Allocated(probe, dir, es) && !Dead(frames, b) ==> b in chain
  {
    hide Garbage, Step, Dead, Inv, Allocated;
    var allocator := new Allocator();
    frames := [Frame(0, probe)];
    var nextFrame, nextBlock, n := 1, 0, 0;
    while n < |es|
      invariant n <= |es| && allocator.Valid() && fresh(allocator) && allocator.stackDir in {0, dir}
      invariant nextFrame >= 0 && nextBlock >= 0 && frames != []
      invariant State(frames, allocator.blocks, allocator.freed, nextFrame, nextBlock)
        == Run(Start(probe), dir, es[..n])
    {
      assert es[..n + 1][..n] == es[..n];
      frames, nextFrame, nextBlock := Perform(allocator, frames, nextFrame, nextBlock, dir, es[n]);
      n := n + 1;
    }
    assert es[..n] == es;
    LiveBlocksStay(probe, dir, es);
    chain := WalkChain(allocator.last, allocator.blocks);
  }

  method WalkChain(last: Header?, ghost blocks: seq<Block>) returns (chain: seq<Block>)
    requires Chained(last, blocks)
    ensures chain == blocks
  {
    chain := [];
    var hp := last;
    ghost var rest := blocks;
    while hp != null
      invariant Chained(hp, rest) && chain + rest == blocks
      decreases |rest|
    {
      chain := chain + [hp.block];
      hp, rest := hp.next, rest[1..];
    }
  }

  method Perform(allocator: Allocator, frames: seq<Frame>, nextFrame: nat, nextBlock: nat, dir: int, e: Event)
    returns (frames': seq<Frame>, nextFrame': nat, nextBlock': nat)
    requires dir in {-1, 1} && allocator.Valid() && allocator.stackDir in {0, dir} && frames != []
    modifies allocator
    ensures allocator.Valid() && allocator.stackDir in {0, dir} && frames' != []
    ensures State(frames', allocator.blocks, allocator.freed, nextFrame', nextBlock')
         == Step(State(frames, old(allocator.blocks), old(allocator.freed), nextFrame, nextBlock), dir, e)
  {
    hide Garbage;
    frames', nextFrame', nextBlock' := frames, nextFrame, nextBlock;
    var top := frames[|frames| - 1];
    match e {
      case Call(gap) =>
        frames', nextFrame' := frames + [Frame(nextFrame, top.probe + dir * (gap + 1))], nextFrame + 1;
      case Return =>
        if |frames| > 1 { frames' := frames[..|frames| - 1]; }
      case Allocate(size) =>
        var _ := allocator.Alloca(size, top.probe, top.probe, top.probe + dir, nextBlock, top.id);
        nextBlock' := nextBlock + 1;
    }
  }
}
