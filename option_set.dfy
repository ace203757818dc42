/**
 * The bit iterator of Sources/Foundatee/OptionSet+Iteration.swift.
 *
 * An option set's `Int` raw value is a 64-bit two's complement pattern. A
 * `Word` stands for such a pattern by the set of the positions (0 to 63) of
 * its one bits, so that the iterator's bit operations read as set operations:
 * `a & b` is `a * b`, `a & ~b` is `a - b`, `0` is `{}`, the mask `1` is `{0}`,
 * and the wrapping product `m &* 2` moves every bit one position up and drops
 * bit 63 (`Doubled`).
 */
module OptionSets {
  import opened Wrappers

  /** The number of bits of an `Int`. */
  const Width: nat := 64

  /** A 64-bit pattern, as the positions of its one bits. */
  ghost predicate IsWord(w: set<nat>)
  {
    forall i :: i in w ==> i < Width
  }

  /** The single bit at position `p`, or zero once `p` is past the top bit. */
  function BitAt(p: nat): set<nat>
  {
    if p < Width then {p} else {}
  }

  /** `m &* 2`: each bit moves one position up; the top bit overflows and is lost. */
  function Doubled(m: set<nat>): (r: set<nat>)
    ensures forall i :: i in r <==> 0 < i < Width && i - 1 in m
  {
    set i | i in m && i + 1 < Width :: i + 1
  }

  /** Doubling the mask of bit `p` gives the mask of bit `p + 1`, zero past the top. */
  lemma DoubledBitAt(p: nat)
    requires p < Width
    ensures Doubled(BitAt(p)) == BitAt(p + 1)
  {
    if p + 1 < Width {
      assert p + 1 in Doubled(BitAt(p));
    }
  }

  // ----- the yielded elements -----

  /** The masks of the one bits of `w` from position `p` up, lowest first, as the iterator tests them. */
  function ElementsFrom(w: set<nat>, p: nat): seq<set<nat>>
    requires p <= Width
    decreases Width - p
  {
    if p == Width then []
    else if p in w then [{p}] + ElementsFrom(w, p + 1)
    else ElementsFrom(w, p + 1)
  }

  /** The masks the iterator of `w` yields, in order. */
  function Elements(w: set<nat>): seq<set<nat>>
  {
    ElementsFrom(w, 0)
  }

  /** `w` has no one bit below position `p`. */
  ghost predicate NoneBelow(w: set<nat>, p: nat)
  {
    forall i :: i in w ==> p <= i
  }

  /** The one bits of `w` at position `p` or above. */
  function Above(w: set<nat>, p: nat): set<nat>
  {
    set i | i in w && p <= i
  }

  /** The one bits of `w` at `p` or above are the bit at `p`, if set, and those above it. */
  lemma AboveStep(w: set<nat>, p: nat)
    ensures Above(w, p) == (if p in w then {p} else {}) + Above(w, p + 1)
    ensures p !in Above(w, p + 1)
  {
  }

  /** The `k`-th mask yielded from position `p` on is a single one bit of `w` at `p` or above. */
  lemma {:induction false} ElementFromSingleBit(w: set<nat>, p: nat, k: nat)
    requires p <= Width && k < |ElementsFrom(w, p)|
    ensures |ElementsFrom(w, p)[k]| == 1 && ElementsFrom(w, p)[k] <= Above(w, p)
    decreases Width - p
  {
    var rest := ElementsFrom(w, p + 1);
    if p !in w {
      ElementFromSingleBit(w, p + 1, k);
      AboveWithin(w, p, rest[k]);
    } else if k == 0 {
      assert p in Above(w, p);
    } else {
      assert ElementsFrom(w, p)[k] == rest[k - 1];
      ElementFromSingleBit(w, p + 1, k - 1);
      AboveWithin(w, p, rest[k - 1]);
    }
  }

  /** Bits at `p + 1` or above are at `p` or above. */
  lemma AboveWithin(w: set<nat>, p: nat, m: set<nat>)
    requires m <= Above(w, p + 1)
    ensures m <= Above(w, p)
  {
    forall q | q in m ensures q in Above(w, p) {
      assert q in Above(w, p + 1);
    }
  }

  /** Every mask yielded from position `p` on is a single one bit of `w` at `p` or above. */
  lemma ElementsFromSingleBits(w: set<nat>, p: nat)
    requires p <= Width
    ensures forall k :: 0 <= k < |ElementsFrom(w, p)| ==>
      |ElementsFrom(w, p)[k]| == 1 && ElementsFrom(w, p)[k] <= Above(w, p)
  {
    forall k | 0 <= k < |ElementsFrom(w, p)|
      ensures |ElementsFrom(w, p)[k]| == 1 && ElementsFrom(w, p)[k] <= Above(w, p)
    {
      ElementFromSingleBit(w, p, k);
    }
  }

  /** Of two masks yielded from position `p` on, the earlier selects the lower position. */
  lemma {:induction false} ElementFromIncreasing(w: set<nat>, p: nat, k: nat, l: nat, q: nat, r: nat)
    requires p <= Width && k < l < |ElementsFrom(w, p)|
    requires q in ElementsFrom(w, p)[k] && r in ElementsFrom(w, p)[l]
    ensures q < r
    decreases Width - p
  {
    var rest := ElementsFrom(w, p + 1);
    if p !in w {
      ElementFromIncreasing(w, p + 1, k, l, q, r);
    } else {
      assert ElementsFrom(w, p)[l] == rest[l - 1];
      if k == 0 {
        ElementFromSingleBit(w, p + 1, l - 1);
        assert r in Above(w, p + 1);
      } else {
        assert ElementsFrom(w, p)[k] == rest[k - 1];
        ElementFromIncreasing(w, p + 1, k - 1, l - 1, q, r);
      }
    }
  }

  /** The masks yielded from position `p` on select strictly increasing positions. */
  lemma ElementsFromIncreasing(w: set<nat>, p: nat)
    requires p <= Width
    ensures forall k, l, q, r ::
      (0 <= k < l < |ElementsFrom(w, p)| && q in ElementsFrom(w, p)[k] && r in ElementsFrom(w, p)[l]) ==> q < r
  {
    forall k, l, q, r | 0 <= k < l < |ElementsFrom(w, p)| && q in ElementsFrom(w, p)[k] && r in ElementsFrom(w, p)[l]
      ensures q < r
    {
      ElementFromIncreasing(w, p, k, l, q, r);
    }
  }

  /** Every one bit of `w` at position `p` or above is yielded, as its single-bit mask. */
  lemma {:induction false} ElementsFromCover(w: set<nat>, p: nat, q: nat)
    requires p <= q < Width && q in w
    ensures {q} in ElementsFrom(w, p)
    decreases Width - p
  {
    if p < q {
      ElementsFromCover(w, p + 1, q);
    }
  }

  /** One mask is yielded per one bit of `w` at position `p` or above. */
  lemma {:induction false} ElementsFromCount(w: set<nat>, p: nat)
    requires IsWord(w) && p <= Width
    ensures |ElementsFrom(w, p)| == |Above(w, p)|
    decreases Width - p
  {
    if p == Width {
      assert Above(w, p) == {} by {
        forall i | i in Above(w, p) ensures false {
        }
      }
    } else {
      ElementsFromCount(w, p + 1);
      AboveStep(w, p);
    }
  }

  /** From position 0 on, the bits above are all the bits of the word. */
  lemma AboveZero(w: set<nat>)
    ensures Above(w, 0) == w
  {
  }

  /**
   * What iterating an option set yields: single-bit masks of its raw value's
   * one bits, every one bit among them, lowest first, one mask per bit.
   */
  lemma ElementsAreTheBits(w: set<nat>)
    requires IsWord(w)
    ensures forall k :: 0 <= k < |Elements(w)| ==> |Elements(w)[k]| == 1 && Elements(w)[k] <= w
    ensures forall q :: q in w ==> {q} in Elements(w)
    ensures forall k, l, q, r ::
      (0 <= k < l < |Elements(w)| && q in Elements(w)[k] && r in Elements(w)[l]) ==> q < r
    ensures |Elements(w)| == |w|
  {
    AboveZero(w);
    ElementsFromSingleBits(w, 0);
    ElementsFromIncreasing(w, 0);
    forall q | q in w
      ensures {q} in Elements(w)
    {
      ElementsFromCover(w, 0, q);
    }
    ElementsFromCount(w, 0);
  }

  /** Nothing is yielded from position `p` on when no bit is set there. */
  lemma {:induction false} ElementsFromNone(w: set<nat>, p: nat)
    requires p <= Width && forall i :: i in w ==> i < p
    ensures ElementsFrom(w, p) == []
    decreases Width - p
  {
    if p < Width {
      ElementsFromNone(w, p + 1);
    }
  }

  /** Clearing a bit below `p` changes nothing the iterator yields from `p` on. */
  lemma {:induction false} ElementsFromAfterClearing(w: set<nat>, m: set<nat>, p: nat)
    requires p <= Width && forall i :: i in m ==> i < p
    ensures ElementsFrom(w - m, p) == ElementsFrom(w, p)
    decreases Width - p
  {
    if p < Width {
      ElementsFromAfterClearing(w, m, p + 1);
    }
  }

  /** The test `remaining & mask != 0` of the mask of bit `p` is a test of bit `p`. */
  lemma TestedBit(remaining: set<nat>, p: nat)
    requires IsWord(remaining) && remaining != {} && NoneBelow(remaining, p)
    ensures p < Width
    ensures remaining * BitAt(p) != {} <==> p in remaining
    ensures p in remaining ==> remaining * BitAt(p) == {p}
    ensures Doubled(BitAt(p)) == BitAt(p + 1)
  {
    var i :| i in remaining;
    assert p in remaining <==> p in remaining * BitAt(p);
    DoubledBitAt(p);
  }

  /** A one bit at `p`, the lowest remaining: it is yielded first, and clearing it leaves the rest. */
  lemma HitStep(remaining: set<nat>, p: nat)
    requires p < Width && p in remaining && NoneBelow(remaining, p)
    ensures ElementsFrom(remaining, p)[1..] == ElementsFrom(remaining - BitAt(p), p + 1)
    ensures ElementsFrom(remaining, p) != [] && ElementsFrom(remaining, p)[0] == BitAt(p)
    ensures NoneBelow(remaining - BitAt(p), p + 1)
  {
    ElementsFromAfterClearing(remaining, BitAt(p), p + 1);
  }

  /** A zero bit at `p`: nothing is yielded for it. */
  lemma MissStep(remaining: set<nat>, p: nat)
    requires p < Width && p !in remaining && NoneBelow(remaining, p)
    ensures ElementsFrom(remaining, p) == ElementsFrom(remaining, p + 1)
    ensures NoneBelow(remaining, p + 1)
  {
  }

  /**
   * The iterator's invariant over its state: the remaining bits are a word
   * with no one bit below `position`, `mask` selects `position`, and
   * `pending` is what the remaining bits still yield from there.
   */
  ghost predicate Scanning(remaining: set<nat>, mask: set<nat>, position: nat, pending: seq<set<nat>>)
  {
    IsWord(remaining) &&
    position <= Width &&
    mask == BitAt(position) &&
    NoneBelow(remaining, position) &&
    pending == ElementsFrom(remaining, position)
  }

  /** A pass that finds the tested bit set yields the first pending element and moves past it. */
  lemma ScanHit(remaining: set<nat>, mask: set<nat>, position: nat, pending: seq<set<nat>>)
    requires Scanning(remaining, mask, position, pending) && remaining != {} && remaining * mask != {}
    ensures pending != [] && pending[0] == mask
    ensures Scanning(remaining - mask, Doubled(mask), position + 1, pending[1..])
  {
    TestedBit(remaining, position);
    HitStep(remaining, position);
  }

  /** A pass that finds the tested bit clear moves on to the next bit, with nothing yielded. */
  lemma ScanMiss(remaining: set<nat>, mask: set<nat>, position: nat, pending: seq<set<nat>>)
    requires Scanning(remaining, mask, position, pending) && remaining != {} && remaining * mask == {}
    ensures position < Width
    ensures Scanning(remaining, Doubled(mask), position + 1, pending)
  {
    TestedBit(remaining, position);
    MissStep(remaining, position);
  }

  /** With no bits remaining nothing is pending. */
  lemma ScanDone(remaining: set<nat>, mask: set<nat>, position: nat, pending: seq<set<nat>>)
    requires Scanning(remaining, mask, position, pending) && remaining == {}
    ensures pending == []
  {
    ElementsFromNone(remaining, position);
  }

  /** `OptionSetIterator`: the option set, its remaining bits and the mask of the next bit to test. */
  class OptionSetIterator {
    const value: set<nat>
    var remainingBits: set<nat>
    var bitMask: set<nat>
    /** The position `bitMask` selects, `Width` once the mask has doubled to zero. */
    ghost var position: nat
    /** The elements still to be yielded. */
    ghost var pending: seq<set<nat>>

    ghost predicate Valid()
      reads this
    {
      Scanning(remainingBits, bitMask, position, pending)
    }

    /** `init(element:)`, with the `lazy` remaining bits already read from the raw value. */
    constructor (value: set<nat>)
      requires IsWord(value)
      ensures Valid() && this.value == value
      ensures pending == Elements(value)
    {
      this.value := value;
      remainingBits := value;
      bitMask := {0};
      position := 0;
      pending := ElementsFrom(value, 0);
    }

    /**
     * `next()`: tests the bits upwards from `bitMask`; on a one bit, clears
     * it and yields its mask. The deferred doubling of the mask runs on every
     * pass, the returning one included.
     */
    method Next() returns (r: Option<set<nat>>)
      requires Valid()
      modifies this
      ensures Valid()
      ensures old(pending) == [] ==> r == None && pending == []
      ensures old(pending) != [] ==> r == Some(old(pending)[0]) && pending == old(pending)[1..]
    {
      while remainingBits != {}
        invariant Valid() && pending == old(pending)
        decreases Width - position
      {
        if remainingBits * bitMask != {} {
          ScanHit(remainingBits, bitMask, position, pending);
          r := Some(bitMask);
          remainingBits := remainingBits - bitMask;
          bitMask := Doubled(bitMask);
          position := position + 1;
          pending := pending[1..];
          return;
        }
        ScanMiss(remainingBits, bitMask, position, pending);
        bitMask := Doubled(bitMask);
        position := position + 1;
      }
      ScanDone(remainingBits, bitMask, position, pending);
      r := None;
    }
  }

  /** `makeIterator()`: a fresh iterator over the option set. */
  method MakeIterator(value: set<nat>) returns (it: OptionSetIterator)
    requires IsWord(value)
    ensures fresh(it) && it.Valid() && it.value == value && it.pending == Elements(value)
  {
    it := new OptionSetIterator(value);
  }

  /**
   * `count`: one for every element iterating the set yields, summed. This is
   * the number of one bits of the raw value.
   */
  method Count(value: set<nat>) returns (n: nat)
    requires IsWord(value)
    ensures n == |value|
  {
    var it := MakeIterator(value);
    ElementsAreTheBits(value);
    n := 0;
    while true
      invariant it.Valid() && n + |it.pending| == |value|
      decreases |it.pending|
    {
      var e := it.Next();
      if e.None? {
        break;
      }
      n := n + 1;
    }
  }
}
