/** The 7-bag randomizer: a look-ahead buffer of upcoming pieces fed from a
    shuffled permutation of the seven piece types, refilled only when it
    runs empty. The seeded random generator is a parameter: `rng(k)` is the
    k-th shuffle the generator produces. */
module Bag {
  import opened Enums
  import opened Pieces

  /** The order in which `fill_permutation` lists the types before
      shuffling. */
  const SevenTypes: seq<PieceType> := [I, S, Z, O, T, L, J]

  /** A shuffle of the seven types. */
  ghost predicate IsShuffle(s: seq<PieceType>)
  {
    multiset(s) == multiset(SevenTypes)
  }

  ghost predicate ShufflesOk(rng: nat -> seq<PieceType>)
  {
    forall k: nat :: IsShuffle(rng(k))
  }

  /** Every shuffle has seven entries: all the methods of the bag rely on. */
  ghost predicate SevenEach(rng: nat -> seq<PieceType>)
  {
    forall k: nat :: |rng(k)| == 7
  }

  function Reverse<T>(s: seq<T>): (r: seq<T>)
    ensures |r| == |s|
    ensures forall i :: 0 <= i < |s| ==> r[i] == s[|s| - 1 - i]
  {
    if s == [] then [] else Reverse(s[1..]) + [s[0]]
  }

  /** The types of a sequence of pieces (the type of a piece never changes). */
  function Types(ps: seq<Piece>): (ts: seq<PieceType>)
    ensures |ts| == |ps| && forall i :: 0 <= i < |ps| ==> ts[i] == ps[i].pieceType
  {
    seq(|ps|, i requires 0 <= i < |ps| => ps[i].pieceType)
  }

  /** All types the first n shuffles hand out, in order: each permutation is
      popped from its end, so it comes out reversed. */
  function Stream(rng: nat -> seq<PieceType>, n: nat): seq<PieceType>
  {
    if n == 0 then [] else Stream(rng, n - 1) + Reverse(rng(n - 1))
  }

  lemma ReverseAppend<T>(a: seq<T>, b: seq<T>)
    ensures Reverse(a + b) == Reverse(b) + Reverse(a)
  {
  }

  lemma {:induction false} ReverseMultiset<T>(s: seq<T>)
    ensures multiset(Reverse(s)) == multiset(s)
    decreases |s|
  {
    if s != [] {
      ReverseMultiset(s[1..]);
      assert s == [s[0]] + s[1..];
    }
  }

  lemma ShuffleLength(s: seq<PieceType>)
    requires IsShuffle(s)
    ensures |s| == 7
  {
    assert |multiset(s)| == |s|;
    assert |multiset(SevenTypes)| == 7;
  }

  lemma ShufflesHaveSeven(rng: nat -> seq<PieceType>)
    requires ShufflesOk(rng)
    ensures SevenEach(rng)
  {
    forall k: nat
      ensures |rng(k)| == 7
    {
      ShuffleLength(rng(k));
    }
  }

  /** A sequence with an entry at two positions counts it twice. */
  lemma CountsRepeated<T>(s: seq<T>, i: nat, j: nat)
    requires i < j < |s|
    ensures s[i] == s[j] ==> multiset(s)[s[i]] >= 2
  {
    assert s == s[..i] + [s[i]] + s[i + 1..j] + [s[j]] + s[j + 1..];
  }

  lemma SevenTypesOnce(t: PieceType)
    ensures multiset(SevenTypes)[t] == 1
  {
  }

  /** A shuffle holds no type twice. */
  lemma ShuffleDistinct(s: seq<PieceType>, i: nat, j: nat)
    requires IsShuffle(s) && i < j < |s|
    ensures s[i] != s[j]
  {
    CountsRepeated(s, i, j);
    SevenTypesOnce(s[i]);
  }

  /** The first n shuffles hand out 7n types. */
  lemma {:induction false} StreamLength(rng: nat -> seq<PieceType>, n: nat)
    requires SevenEach(rng)
    ensures |Stream(rng, n)| == 7 * n
    decreases n
  {
    if n > 0 {
      StreamLength(rng, n - 1);
    }
  }

  /** Drawing more shuffles only extends the stream. */
  lemma {:induction false} StreamPrefix(rng: nat -> seq<PieceType>, m: nat, n: nat)
    requires m <= n
    ensures |Stream(rng, m)| <= |Stream(rng, n)|
    ensures Stream(rng, n)[..|Stream(rng, m)|] == Stream(rng, m)
    decreases n
  {
    if m < n {
      StreamPrefix(rng, m, n - 1);
      var a := Stream(rng, n - 1);
      assert Stream(rng, n)[..|a|] == a;
    }
  }

  /** Shuffle k is found at positions 7k..7k+6 of the stream. */
  lemma StreamBlocks(rng: nat -> seq<PieceType>, n: nat, k: nat)
    requires ShufflesOk(rng) && k < n
    ensures |Stream(rng, n)| == 7 * n
    ensures Stream(rng, n)[7 * k..7 * k + 7] == Reverse(rng(k))
  {
    ShufflesHaveSeven(rng);
    StreamLength(rng, n);
    StreamLength(rng, k);
    StreamLength(rng, k + 1);
    StreamPrefix(rng, k + 1, n);
    var b := Stream(rng, k + 1);
    assert b == Stream(rng, k) + Reverse(rng(k));
    assert b[7 * k..7 * k + 7] == Reverse(rng(k));
    assert Stream(rng, n)[7 * k..7 * k + 7] == b[7 * k..7 * k + 7];
  }

  /** The 7-bag property of the stream: every aligned block of seven holds
      each type exactly once. */
  lemma SevenBag(rng: nat -> seq<PieceType>, n: nat, k: nat)
    requires ShufflesOk(rng) && k < n
    ensures |Stream(rng, n)| == 7 * n
    ensures multiset(Stream(rng, n)[7 * k..7 * k + 7]) == multiset(SevenTypes)
  {
    StreamBlocks(rng, n, k);
    ReverseMultiset(rng(k));
  }

  class PieceBag {
    /** The upcoming pieces; index 0 is the deque's front, where new pieces
        enter, and the last element is the next to come out. */
    var buffer: seq<Piece>
    /** The rest of the current shuffle, popped from its end. */
    var permutation: seq<PieceType>
    const rng: nat -> seq<PieceType>
    /** Number of shuffles drawn so far. */
    var draws: nat
    const bufferSize: nat
    /** The types handed out by `next_piece` so far. */
    ghost var emitted: seq<PieceType>
    /** Whether `add_top` was ever called. */
    ghost var topped: bool

    /** Without `add_top`, what was handed out, then the buffer in output
        order, then the rest of the shuffle, is exactly the stream drawn. */
    ghost predicate StreamInvariant()
      reads this
    {
      !topped ==> emitted + Reverse(Types(buffer)) + Reverse(permutation) == Stream(rng, draws)
    }

    ghost predicate Valid()
      reads this
    {
      && SevenEach(rng)
      && draws > 0
      && |permutation| <= |rng(draws - 1)|
      && permutation == rng(draws - 1)[..|permutation|]
      && StreamInvariant()
    }

    /** `PieceBag::new`: draws a first shuffle, then moves bufferSize pieces
        into the buffer. */
    constructor(bufferSize: nat, rng: nat -> seq<PieceType>)
      requires ShufflesOk(rng)
      ensures Valid() && !topped && emitted == []
      ensures this.bufferSize == bufferSize && this.rng == rng
      ensures |buffer| == bufferSize
      ensures |permutation| + bufferSize == 7 * draws
      ensures bufferSize > 0 ==> |permutation| < 7
      ensures forall i :: 0 <= i < |buffer| ==> buffer[i].rotation == R0
    {
      this.bufferSize := bufferSize;
      this.rng := rng;
      buffer := [];
      permutation := [];
      draws := 0;
      emitted := [];
      topped := false;
      new;
      Start(bufferSize);
    }

    /** The body of `PieceBag::new` once the fields are set: the first
        shuffle, then the buffer. */
    method Start(count: nat)
      requires ShufflesOk(rng)
      requires buffer == [] && permutation == [] && draws == 0 && emitted == [] && !topped
      modifies this
      ensures Valid() && !topped && emitted == []
      ensures |buffer| == count && |permutation| + count == 7 * draws
      ensures count > 0 ==> |permutation| < 7
      ensures forall i :: 0 <= i < |buffer| ==> buffer[i].rotation == R0
    {
      ShufflesHaveSeven(rng);
      FillPermutation();
      FillBuffer(count);
    }

    /** The loop of `PieceBag::new`: count calls of `new_block_in_buffer`. */
    method FillBuffer(count: nat)
      requires Valid() && buffer == [] && draws == 1 && |permutation| == 7
      modifies this
      ensures Valid() && emitted == old(emitted) && topped == old(topped)
      ensures |buffer| == count && |permutation| + count == 7 * draws
      ensures count > 0 ==> |permutation| < 7
      ensures forall i :: 0 <= i < |buffer| ==> buffer[i].rotation == R0
    {
      for k := 0 to count
        invariant Valid() && emitted == old(emitted) && topped == old(topped)
        invariant |buffer| == k && |permutation| + k == 7 * draws
        invariant k > 0 ==> |permutation| < 7
        invariant forall i :: 0 <= i < |buffer| ==> buffer[i].rotation == R0
      {
        NewBlockInBuffer();
      }
    }

    /** `next_piece`: takes the oldest piece from the buffer and tops the
        buffer up with a new one. */
    method NextPiece() returns (p: Piece)
      requires Valid() && |buffer| > 0
      modifies this
      ensures Valid() && topped == old(topped)
      ensures p == old(buffer[|buffer| - 1])
      ensures emitted == old(emitted) + [p.pieceType]
      ensures |buffer| == old(|buffer|) && buffer[1..] == old(buffer[..|buffer| - 1])
      ensures fresh(buffer[0]) && buffer[0].Valid() && buffer[0].rotation == R0
      ensures old(permutation) != [] ==>
        && draws == old(draws)
        && buffer[0].pieceType == old(permutation[|permutation| - 1])
        && permutation == old(permutation[..|permutation| - 1])
      ensures old(permutation) == [] ==>
        && draws == old(draws) + 1
        && buffer[0].pieceType == rng(old(draws))[6]
        && permutation == rng(old(draws))[..6]
    {
      p := buffer[|buffer| - 1];
      var rest := buffer[..|buffer| - 1];
      assert Types(buffer) == Types(rest) + [p.pieceType];
      ReverseAppend(Types(rest), [p.pieceType]);
      buffer := rest;
      emitted := emitted + [p.pieceType];
      NewBlockInBuffer();
    }

    /** `add_top`: puts a piece where the next `next_piece` takes it. */
    method AddTop(p: Piece)
      requires Valid() && p !in buffer
      modifies this
      ensures Valid() && topped
      ensures buffer == old(buffer) + [p]
      ensures permutation == old(permutation) && draws == old(draws) && emitted == old(emitted)
    {
      buffer := buffer + [p];
      topped := true;
    }

    /** `iter_next_pieces`: at most bufferSize pieces, the next to come out
        first. */
    function IterNextPieces(): (ps: seq<Piece>)
      reads this
      ensures |ps| == (if |buffer| < bufferSize then |buffer| else bufferSize)
      ensures forall i :: 0 <= i < |ps| ==> ps[i] == buffer[|buffer| - 1 - i]
    {
      var r := Reverse(buffer);
      if |r| <= bufferSize then r else r[..bufferSize]
    }

    /** `fill_permutation`: appends the next shuffle; only ever called when
        the permutation is empty. */
    method FillPermutation()
      requires SevenEach(rng) && permutation == [] && StreamInvariant()
      modifies this
      ensures Valid()
      ensures permutation == rng(old(draws)) && draws == old(draws) + 1
      ensures buffer == old(buffer) && emitted == old(emitted) && topped == old(topped)
    {
      ghost var before := emitted + Reverse(Types(buffer));
      assert !topped ==> before == Stream(rng, draws) by {
        assert Reverse(permutation) == [];
      }
      permutation := permutation + rng(draws);
      draws := draws + 1;
      assert permutation == rng(draws - 1)[..|permutation|];
      assert Stream(rng, draws) == Stream(rng, draws - 1) + Reverse(permutation);
    }

    /** `new_block_in_buffer`: refills the permutation if it is empty, pops
        its last type and pushes a fresh piece of that type, in rotation R0,
        at the front of the buffer. */
    method NewBlockInBuffer()
      requires Valid()
      modifies this
      ensures Valid()
      ensures |buffer| == old(|buffer|) + 1 && buffer[1..] == old(buffer)
      ensures fresh(buffer[0]) && buffer[0].Valid() && buffer[0].rotation == R0
      ensures old(permutation) != [] ==>
        && draws == old(draws)
        && buffer[0].pieceType == old(permutation[|permutation| - 1])
        && permutation == old(permutation[..|permutation| - 1])
      ensures old(permutation) == [] ==>
        && draws == old(draws) + 1
        && buffer[0].pieceType == rng(old(draws))[6]
        && permutation == rng(old(draws))[..6]
      ensures emitted == old(emitted) && topped == old(topped)
      ensures |permutation| < 7 && 7 * draws == |permutation| + old(7 * draws - |permutation|) + 1
    {
      if permutation == [] {
        FillPermutation();
      }
      var t := permutation[|permutation| - 1];
      var p := new Piece.New(t);
      PushFront(p);
    }

    /** The end of `new_block_in_buffer`: the last type of the permutation
        leaves it as the piece `p`, now at the front of the buffer. */
    method PushFront(p: Piece)
      requires Valid() && permutation != [] && p.pieceType == permutation[|permutation| - 1]
      modifies this
      ensures Valid()
      ensures buffer == [p] + old(buffer) && permutation == old(permutation[..|permutation| - 1])
      ensures draws == old(draws) && emitted == old(emitted) && topped == old(topped)
    {
      var n := |permutation|;
      var rest := permutation[..n - 1];
      PushPopInvariant(emitted, buffer, rest, p.pieceType, p);
      assert permutation == rest + [p.pieceType];
      assert permutation == rng(draws - 1)[..n];
      assert rest == rng(draws - 1)[..n - 1];
      permutation := rest;
      buffer := [p] + buffer;
    }
  }

  /** Moving the last type of the permutation into the front of the buffer
      keeps the output order. */
  lemma PushPopInvariant(e: seq<PieceType>, buf: seq<Piece>, rest: seq<PieceType>, t: PieceType, p: Piece)
    requires p.pieceType == t
    ensures e + Reverse(Types([p] + buf)) + Reverse(rest) == e + Reverse(Types(buf)) + Reverse(rest + [t])
  {
    assert Types([p] + buf) == [t] + Types(buf);
    ReverseAppend([t], Types(buf));
    ReverseAppend(rest, [t]);
  }

  /** Without `add_top`, the pieces handed out come in aligned blocks of
      seven that each hold every type once. */
  lemma OutputInBlocksOfSeven(bag: PieceBag, k: nat)
    requires bag.Valid() && ShufflesOk(bag.rng) && !bag.topped && 7 * k + 7 <= |bag.emitted|
    ensures multiset(bag.emitted[7 * k..7 * k + 7]) == multiset(SevenTypes)
  {
    var s := Stream(bag.rng, bag.draws);
    var rest := Reverse(Types(bag.buffer)) + Reverse(bag.permutation);
    assert bag.emitted + rest == s;
    assert |s| >= 7 * k + 7;
    StreamBlocks(bag.rng, bag.draws, 0);
    assert k < bag.draws;
    SevenBag(bag.rng, bag.draws, k);
    assert bag.emitted[7 * k..7 * k + 7] == s[7 * k..7 * k + 7];
  }

  /** The permutation never holds a type twice. */
  lemma PermutationDistinct(bag: PieceBag, i: nat, j: nat)
    requires bag.Valid() && ShufflesOk(bag.rng) && i < j < |bag.permutation|
    ensures bag.permutation[i] != bag.permutation[j]
  {
    ShuffleDistinct(bag.rng(bag.draws - 1), i, j);
  }

  /** Without `add_top`, the preview lists exactly the types that the next
      calls of `next_piece` hand out, in that order. */
  lemma PreviewIsUpcoming(bag: PieceBag, i: nat)
    requires bag.Valid() && !bag.topped && i < |bag.IterNextPieces()|
    ensures bag.IterNextPieces()[i].pieceType == Stream(bag.rng, bag.draws)[|bag.emitted| + i]
  {
    var s := Stream(bag.rng, bag.draws);
    var out := Reverse(Types(bag.buffer));
    assert bag.StreamInvariant();
    MiddleIndex(bag.emitted, out, Reverse(bag.permutation), s, i);
    assert out[i] == bag.buffer[|bag.buffer| - 1 - i].pieceType;
  }

  lemma MiddleIndex<T>(a: seq<T>, b: seq<T>, c: seq<T>, s: seq<T>, i: nat)
    requires a + b + c == s && i < |b|
    ensures s[|a| + i] == b[i]
  {
    assert (a + b + c)[|a| + i] == b[i];
  }
}
