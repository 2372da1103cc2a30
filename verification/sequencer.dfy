/**
 The 7-bag randomizer of src/game/Bag.ts. The queue is refilled by appending a
 Fisher-Yates shuffle of the seven piece types. `Math.random` is replaced by an
 injected stream of draws: fill number n shuffles with `rng(n)`, whose k-th
 draw is the swap index for position 6 - k, any value in [0, 6 - k].
 */
module Sequencer {

  import opened Pieces

  const AllTypes: seq<PieceType> := [I, J, L, O, S, T, Z]

  /** The six swap indices of one shuffle; draw k picks j in [0, 6 - k]. */
  type Draws = d: seq<nat> | |d| == 6 && forall k :: 0 <= k < |d| ==> d[k] <= 6 - k
    witness [0, 0, 0, 0, 0, 0]

  type Rng = nat -> Draws

  /** The queue of upcoming types, the injected random source, and how many fills it has served. */
  datatype Bag = Bag(queue: seq<PieceType>, rng: Rng, fills: nat)

  /** Seven entries covering all seven types, so each type appears exactly once (see Perm7EachOnce). */
  predicate IsPerm7(s: seq<PieceType>)
  {
    |s| == 7 && forall t: PieceType :: t in s
  }

  lemma AllTypesCovers()
    ensures forall t: PieceType :: t in AllTypes && multiset(AllTypes)[t] == 1
  {
    forall t: PieceType
      ensures t in AllTypes && multiset(AllTypes)[t] == 1
    {
      match t
      case I => case J => case L => case O => case S => case T => case Z =>
    }
  }

  lemma SubMultisetSameSize(a: multiset<PieceType>, m: multiset<PieceType>)
    requires a <= m && |a| == |m|
    ensures a == m
  {
    var rest := m - a;
    assert m == a + rest;
    assert rest == multiset{};
  }

  /** A block of seven that covers the seven types is a permutation of them. */
  lemma Perm7EachOnce(s: seq<PieceType>)
    requires IsPerm7(s)
    ensures multiset(s) == multiset(AllTypes)
    ensures forall t: PieceType :: multiset(s)[t] == 1
  {
    var m, a := multiset(s), multiset(AllTypes);
    AllTypesCovers();
    forall t: PieceType
      ensures a[t] <= m[t]
    {
      assert t in s;
    }
    assert |m| == |s| && |a| == |AllTypes|;
    SubMultisetSameSize(a, m);
  }

  function Swap(s: seq<PieceType>, i: nat, j: nat): (r: seq<PieceType>)
    requires i < |s| && j < |s|
    ensures |r| == |s| && forall t :: t in r <==> t in s
  {
    var r := s[i := s[j]][j := s[i]];
    assert forall k :: 0 <= k < |s| ==> s[k] in r by {
      forall k | 0 <= k < |s|
        ensures s[k] in r
      {
        if k == i {
          assert r[j] == s[i];
        } else if k == j {
          assert r[i] == s[j] || i == j;
        } else {
          assert r[k] == s[k];
        }
      }
    }
    r
  }

  /**
   The shuffle loop after its first `k` iterations: iteration k (counting from
   1) handles position i = 7 - k and swaps it with index `d[k - 1]`, a value in
   [0, i].
   */
  function Shuffle(d: Draws, k: nat): (r: seq<PieceType>)
    requires k <= 6
    ensures IsPerm7(r)
  {
    if k == 0 then
      AllTypesCovers();
      AllTypes
    else Swap(Shuffle(d, k - 1), 7 - k, d[k - 1])
  }

  /** One complete shuffle of the seven types with the given draws: always a permutation. */
  function Deal(d: Draws): (perm: seq<PieceType>)
    ensures IsPerm7(perm)
  {
    Shuffle(d, 6)
  }

  /** `fillBag`: appends one permutation of the seven types, whatever the draws. */
  function FillBag(b: Bag): (r: Bag)
    ensures r.queue == b.queue + Deal(b.rng(b.fills))
    ensures r.rng == b.rng && r.fills == b.fills + 1
  {
    Bag(b.queue + Deal(b.rng(b.fills)), b.rng, b.fills + 1)
  }

  /** The constructor: an empty queue filled once. */
  function NewBag(rng: Rng): (b: Bag)
    ensures IsPerm7(b.queue) && b.rng == rng && b.fills == 1
  {
    var r := FillBag(Bag([], rng, 0));
    assert r.queue == Deal(rng(0));
    r
  }

  /**
   `next`: refills only when the queue is empty, then removes the front type and
   returns a new piece of that type.
   */
  function Next(b: Bag): (r: (Bag, Piece))
    ensures r.1 == NewPiece(r.1.kind) && r.0.rng == b.rng
    ensures |b.queue| > 0 ==> [r.1.kind] + r.0.queue == b.queue && r.0.fills == b.fills
    ensures |b.queue| == 0 ==> [r.1.kind] + r.0.queue == Deal(b.rng(b.fills)) && r.0.fills == b.fills + 1
  {
    var b' := if |b.queue| == 0 then FillBag(b) else b;
    assert |b.queue| == 0 ==> b'.queue == Deal(b.rng(b.fills));
    assert [b'.queue[0]] + b'.queue[1..] == b'.queue;
    (b'.(queue := b'.queue[1..]), NewPiece(b'.queue[0]))
  }

  /**
   `peek(count)`: consumes nothing; appends at most one permutation, and only
   when the queue is shorter than `count`; returns the first min(count, |queue|)
   types of the queue.
   */
  function Peek(b: Bag, count: nat): (r: (Bag, seq<PieceType>))
    ensures r.0.rng == b.rng
    ensures |b.queue| >= count ==> r.0 == b
    ensures |b.queue| < count ==> r.0.queue == b.queue + Deal(b.rng(b.fills)) && r.0.fills == b.fills + 1
    ensures |r.1| == (if count < |r.0.queue| then count else |r.0.queue|)
    ensures r.1 == r.0.queue[..|r.1|]
    ensures count <= 7 ==> |r.1| == count
  {
    if |b.queue| < count then
      var b' := FillBag(b);
      var n := if count < |b'.queue| then count else |b'.queue|;
      (b', b'.queue[..n])
    else
      (b, b.queue[..count])
  }

  // ---------------------------------------------------------------------------
  // Bag alignment

  /** A sequence cut into consecutive blocks of seven, each a permutation. */
  predicate Blocks(s: seq<PieceType>)
    decreases |s|
  {
    |s| == 0 || (|s| >= 7 && IsPerm7(s[..7]) && Blocks(s[7..]))
  }

  lemma {:induction false} BlocksAppend(a: seq<PieceType>, b: seq<PieceType>)
    requires Blocks(a) && Blocks(b)
    ensures Blocks(a + b)
    decreases |a|
  {
    if |a| == 0 {
      assert a + b == b;
    } else {
      assert (a + b)[..7] == a[..7];
      assert (a + b)[7..] == a[7..] + b;
      BlocksAppend(a[7..], b);
    }
  }

  lemma Perm7IsBlock(s: seq<PieceType>)
    requires IsPerm7(s)
    ensures Blocks(s)
  {
    assert s[..7] == s;
    assert s[7..] == [];
  }

  /**
   What the bag keeps: the types already dealt (`dealt`) followed by the queue
   form whole permutations, one per fill.
   */
  predicate Aligned(b: Bag, dealt: seq<PieceType>)
  {
    Blocks(dealt + b.queue)
  }

  lemma NewBagAligned(rng: Rng)
    ensures Aligned(NewBag(rng), [])
  {
    var b := NewBag(rng);
    assert [] + b.queue == b.queue;
    Perm7IsBlock(b.queue);
  }

  /** Dealing one piece keeps the alignment, the dealt type joining the history. */
  lemma NextAligned(b: Bag, dealt: seq<PieceType>)
    requires Aligned(b, dealt)
    ensures Aligned(Next(b).0, dealt + [Next(b).1.kind])
  {
    var (b', p) := Next(b);
    if |b.queue| == 0 {
      assert dealt + b.queue == dealt;
      Perm7IsBlock(Deal(b.rng(b.fills)));
      BlocksAppend(dealt, [p.kind] + b'.queue);
      assert dealt + [p.kind] + b'.queue == dealt + ([p.kind] + b'.queue);
    } else {
      assert dealt + [p.kind] + b'.queue == dealt + b.queue;
    }
  }

  /** Peeking keeps the alignment: at most a whole permutation is appended. */
  lemma PeekAligned(b: Bag, dealt: seq<PieceType>, count: nat)
    requires Aligned(b, dealt)
    ensures Aligned(Peek(b, count).0, dealt)
  {
    var b' := Peek(b, count).0;
    if |b.queue| < count {
      var perm := Deal(b.rng(b.fills));
      Perm7IsBlock(perm);
      BlocksAppend(dealt + b.queue, perm);
      assert dealt + b'.queue == (dealt + b.queue) + perm;
    }
  }

  /** The types that the next `n` calls of `next` deal, in order. */
  function Upcoming(b: Bag, n: nat): seq<PieceType>
    decreases n
  {
    if n == 0 then [] else [Next(b).1.kind] + Upcoming(Next(b).0, n - 1)
  }

  /**
   Filling the bag early deals nothing different: the n-th fill draws from
   `rng(n)` whenever it happens, and the queue is drained in order.
   */
  lemma {:induction false} FillAheadDealsSame(b: Bag, n: nat)
    ensures Upcoming(FillBag(b), n) == Upcoming(b, n)
    decreases n
  {
    if n > 0 {
      if |b.queue| > 0 {
        var (b1, p1) := Next(b);
        var perm := Deal(b.rng(b.fills));
        assert (b.queue + perm)[1..] == b.queue[1..] + perm;
        assert Next(FillBag(b)) == (FillBag(b1), p1);
        FillAheadDealsSame(b1, n - 1);
      } else {
        assert Next(FillBag(b)) == Next(b);
      }
    }
  }

  /** A peek changes none of the types dealt afterwards. */
  lemma PeekKeepsUpcoming(b: Bag, count: nat, n: nat)
    ensures Upcoming(Peek(b, count).0, n) == Upcoming(b, n)
  {
    if |b.queue| < count {
      FillAheadDealsSame(b, n);
    }
  }

  lemma {:induction false} BlocksAt(s: seq<PieceType>, k: nat)
    requires Blocks(s) && 7 * k + 7 <= |s|
    ensures IsPerm7(s[7 * k .. 7 * k + 7])
    decreases k
  {
    if k > 0 {
      BlocksAt(s[7..], k - 1);
      assert s[7..][7 * (k - 1) .. 7 * (k - 1) + 7] == s[7 * k .. 7 * k + 7];
    }
  }

  /**
   Every full block of seven consecutive dealt types, counted from the first
   piece, holds each of the seven types exactly once.
   */
  lemma DealtBlocksArePermutations(b: Bag, dealt: seq<PieceType>, k: nat)
    requires Aligned(b, dealt) && 7 * k + 7 <= |dealt|
    ensures IsPerm7(dealt[7 * k .. 7 * k + 7])
  {
    BlocksAt(dealt + b.queue, k);
    assert (dealt + b.queue)[7 * k .. 7 * k + 7] == dealt[7 * k .. 7 * k + 7];
  }
}
