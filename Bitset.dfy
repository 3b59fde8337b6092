/*
 * The 256-bit sets of src/core/bitset.h: four 64-bit words (unsigned long,
 * BITSET_USE_ULONG), bit index % 64 of word index / 64 standing for member
 * index. A word is a natural below 2^64 and the C operators are those of Bits.
 */
module Bitset {
  import opened Config
  import opened Bits

  /** 256 / BITS words of BITS = 64 bits. */
  const Words: nat := 4
  const WordBits: nat := 64
  const Universe: nat := 256
  /** 2^64: every unsigned long is below it. */
  const WordLimit: nat := 0x1_0000_0000_0000_0000

  lemma WordLimitIsPow2()
    ensures Pow2(WordBits) == WordLimit
  {
    Pow2Is64Bit();
  }

  /** Every word of the array fits an unsigned long. */
  ghost predicate WordsFit(words: seq<nat>)
  {
    forall j :: 0 <= j < |words| ==> words[j] < WordLimit
  }

  /** The members that a word array describes. */
  ghost function Members(words: seq<nat>): set<nat>
    requires |words| == Words
  {
    set i: nat | i < Universe && Bit(words[i / 64], i % 64)
  }

  /** Membership in Members is the bit test of the member's word. */
  lemma MemberBit(words: seq<nat>, i: nat)
    requires |words| == Words && i < Universe
    ensures (i in Members(words)) == Bit(words[i / 64], i % 64)
  {
  }

  /** The mask of bitset_set and bitset_get: ((bitset_entry_t)1) << (index % BITS). */
  function Mask(index: nat): nat
  {
    Pow2(index % WordBits)
  }

  /** Words after bitset_set(index). */
  function WithMember(words: seq<nat>, index: nat): (r: seq<nat>)
    requires |words| == Words && index < Universe
    ensures |r| == Words
  {
    words[index / 64 := Or(words[index / 64], Mask(index))]
  }

  /** Word-wise AND, the result of bitset_and. */
  function AndWords(a: seq<nat>, b: seq<nat>): (r: seq<nat>)
    requires |a| == |b|
    ensures |r| == |a| && forall i :: 0 <= i < |a| ==> r[i] == And(a[i], b[i])
  {
    seq(|a|, i requires 0 <= i < |a| => And(a[i], b[i]))
  }

  /** Word-wise OR, the result of bitset_or. */
  function OrWords(a: seq<nat>, b: seq<nat>): (r: seq<nat>)
    requires |a| == |b|
    ensures |r| == |a| && forall i :: 0 <= i < |a| ==> r[i] == Or(a[i], b[i])
  {
    seq(|a|, i requires 0 <= i < |a| => Or(a[i], b[i]))
  }

  /** Word-wise complement, the result of bitset_flip. */
  function Complement(words: seq<nat>): (r: seq<nat>)
    ensures |r| == |words| && forall i :: 0 <= i < |words| ==> r[i] == Not(words[i], WordBits)
  {
    seq(|words|, i requires 0 <= i < |words| => Not(words[i], WordBits))
  }

  /** Setting index adds exactly index to the members. */
  lemma MembersWithMember(words: seq<nat>, index: nat)
    requires |words| == Words && index < Universe
    ensures Members(WithMember(words, index)) == Members(words) + {index}
  {
    var r := WithMember(words, index);
    forall i: nat | i < Universe
      ensures (i in Members(r)) == (i in Members(words) || i == index)
    {
      MemberBit(r, i);
      MemberBit(words, i);
      if i / 64 == index / 64 {
        BitOr(words[i / 64], Mask(index), i % 64);
        BitPow2(index % 64, i % 64);
      }
    }
  }

  /** The members of the word-wise AND are the common members. */
  lemma MembersAnd(a: seq<nat>, b: seq<nat>)
    requires |a| == Words && |b| == Words
    ensures Members(AndWords(a, b)) == Members(a) * Members(b)
  {
    var r := AndWords(a, b);
    forall i: nat | i < Universe
      ensures (i in Members(r)) == (i in Members(a) && i in Members(b))
    {
      MemberBit(r, i);
      MemberBit(a, i);
      MemberBit(b, i);
      BitAnd(a[i / 64], b[i / 64], i % 64);
    }
  }

  /** The members of the word-wise OR are the members of either. */
  lemma MembersOr(a: seq<nat>, b: seq<nat>)
    requires |a| == Words && |b| == Words
    ensures Members(OrWords(a, b)) == Members(a) + Members(b)
  {
    var r := OrWords(a, b);
    forall i: nat | i < Universe
      ensures (i in Members(r)) == (i in Members(a) || i in Members(b))
    {
      MemberBit(r, i);
      MemberBit(a, i);
      MemberBit(b, i);
      BitOr(a[i / 64], b[i / 64], i % 64);
    }
  }

  /** The word-wise OR of words that fit unsigned longs fits them too. */
  lemma OrWordsFit(a: seq<nat>, b: seq<nat>)
    requires |a| == |b| && WordsFit(a) && WordsFit(b)
    ensures WordsFit(OrWords(a, b))
  {
    WordLimitIsPow2();
    forall j | 0 <= j < |a|
      ensures OrWords(a, b)[j] < WordLimit
    {
      OrBound(a[j], b[j], WordBits);
    }
  }

  /** The complement of words that fit unsigned longs fits them too. */
  lemma ComplementFits(words: seq<nat>)
    requires WordsFit(words)
    ensures WordsFit(Complement(words))
  {
    WordLimitIsPow2();
    forall j | 0 <= j < |words|
      ensures Complement(words)[j] < WordLimit
    {
      NotBound(words[j], WordBits);
    }
  }

  /** The members of the complement are the indices below 256 that were not members. */
  lemma MembersComplement(a: seq<nat>)
    requires |a| == Words
    ensures forall i: nat :: i in Members(Complement(a)) <==> i < Universe && i !in Members(a)
  {
    var r := Complement(a);
    forall i: nat | i < Universe
      ensures (i in Members(r)) == (i !in Members(a))
    {
      MemberBit(r, i);
      MemberBit(a, i);
      BitNot(a[i / 64], WordBits, i % 64);
    }
  }

  /** A cleared word array has no members. */
  lemma MembersZero(a: seq<nat>)
    requires |a| == Words && forall j :: 0 <= j < Words ==> a[j] == 0
    ensures Members(a) == {}
  {
    forall i: nat | i in Members(a)
      ensures false
    {
      MemberBit(a, i);
    }
  }

  /** Flipping twice gives back the original words, hence the original members. */
  lemma FlipTwice(words: seq<nat>)
    requires |words| == Words && WordsFit(words)
    ensures Complement(Complement(words)) == words
  {
    forall j | 0 <= j < Words
      ensures Complement(Complement(words))[j] == words[j]
    {
      WordLimitIsPow2();
      NotNot(words[j], WordBits);
    }
  }

  class Bitset {
    const data: array<nat>

    ghost predicate Valid()
      reads this, data
    {
      data.Length == Words && WordsFit(data[..])
    }

    /** The set this bitset stands for. */
    ghost function Elements(): set<nat>
      reads this, data
      requires Valid()
    {
      Members(data[..])
    }

    /** A bitset_t whose words are all zero, ready for bitset_init. */
    constructor ()
      ensures Valid() && fresh(data)
    {
      data := new nat[Words](_ => 0);
    }

    /** bitset_init: no index is a member. */
    method Init()
      requires data.Length == Words
      modifies data
      ensures Valid() && Elements() == {}
    {
      var i := 0;
      while i < Words
        invariant 0 <= i <= Words
        invariant forall j :: 0 <= j < i ==> data[j] == 0
      {
        data[i] := 0;
        i := i + 1;
      }
      MembersZero(data[..]);
    }

    /** bitset_set: index becomes a member; every other index keeps its state. */
    method Set(index: nat)
      requires Valid() && index < Universe
      modifies data
      ensures Valid()
      ensures data[..] == WithMember(old(data[..]), index)
      ensures Elements() == old(Elements()) + {index}
    {
      MembersWithMember(data[..], index);
      var mask := Mask(index);
      Pow2Monotone(index % WordBits, WordBits);
      WordLimitIsPow2();
      OrBound(data[index / 64], mask, WordBits);
      data[index / 64] := Bits.Or(data[index / 64], mask);
    }

    /** bitset_get: membership of index. */
    predicate Get(index: nat)
      reads this, data
      requires Valid() && index < Universe
      ensures Get(index) <==> index in Elements()
    {
      var mask := Mask(index);
      MemberBit(data[..], index);
      AndNonzero(data[index / 64], index % 64);
      Bits.And(data[index / 64], mask) != 0
    }

    /** bitset_and: this becomes the intersection with other. */
    method And(other: Bitset)
      requires Valid() && other.Valid()
      modifies data
      ensures Valid()
      ensures data[..] == AndWords(old(data[..]), old(other.data[..]))
      ensures Elements() == old(Elements()) * old(other.Elements())
    {
      ghost var was := data[..];
      ghost var theirs := other.data[..];
      var i := 0;
      while i < Words
        invariant 0 <= i <= Words
        invariant forall j :: 0 <= j < i ==> data[j] == Bits.And(was[j], theirs[j]) && data[j] <= was[j]
        invariant forall j :: i <= j < Words ==> data[j] == was[j]
        invariant other.data[..] == theirs || other.data == data
      {
        data[i] := Bits.And(data[i], other.data[i]);
        i := i + 1;
      }
      assert data[..] == AndWords(was, theirs);
      MembersAnd(was, theirs);
    }

    /** bitset_or: this becomes the union with other. */
    method Or(other: Bitset)
      requires Valid() && other.Valid()
      modifies data
      ensures Valid()
      ensures data[..] == OrWords(old(data[..]), old(other.data[..]))
      ensures Elements() == old(Elements()) + old(other.Elements())
    {
      ghost var was := data[..];
      ghost var theirs := other.data[..];
      ghost var merged := OrWords(was, theirs);
      var i := 0;
      while i < Words
        invariant 0 <= i <= Words
        invariant forall j :: 0 <= j < i ==> data[j] == merged[j]
        invariant forall j :: i <= j < Words ==> data[j] == was[j]
        invariant other.data[..] == theirs || other.data == data
      {
        data[i] := Bits.Or(data[i], other.data[i]);
        i := i + 1;
      }
      assert data[..] == merged;
      OrWordsFit(was, theirs);
      MembersOr(was, theirs);
    }

    /** bitset_flip: this becomes its complement within 0..255. */
    method Flip()
      requires Valid()
      modifies data
      ensures Valid()
      ensures data[..] == Complement(old(data[..]))
      ensures forall i: nat :: i in Elements() <==> i < Universe && i !in old(Elements())
    {
      ghost var was := data[..];
      ghost var flipped := Complement(was);
      var i := 0;
      while i < Words
        invariant 0 <= i <= Words
        invariant forall j :: 0 <= j < i ==> data[j] == flipped[j]
        invariant forall j :: i <= j < Words ==> data[j] == was[j]
      {
        data[i] := Not(data[i], WordBits);
        i := i + 1;
      }
      assert data[..] == flipped;
      ComplementFits(was);
      MembersComplement(was);
    }

    /** bitset_copy: the words of other are copied into this. */
    method Copy(other: Bitset)
      requires Valid() && other.Valid()
      modifies data
      ensures Valid()
      ensures data[..] == old(other.data[..])
      ensures Elements() == old(other.Elements())
    {
      forall i | 0 <= i < Words {
        data[i] := other.data[i];
      }
    }

    /** bitset_equal: memcmp of the words. */
    method Equal(other: Bitset) returns (r: bool)
      requires Valid() && other.Valid()
      ensures r <==> data[..] == other.data[..]
      ensures r ==> Elements() == other.Elements()
    {
      var i := 0;
      while i < Words
        invariant 0 <= i <= Words
        invariant data[..i] == other.data[..i]
      {
        if data[i] != other.data[i] {
          return false;
        }
        i := i + 1;
      }
      assert data[..] == data[..i];
      assert other.data[..] == other.data[..i];
      return true;
    }
  }

  /** w & (1 << k) is nonzero exactly when bit k of w is set. */
  lemma AndNonzero(w: nat, k: nat)
    ensures (And(w, Pow2(k)) != 0) == Bit(w, k)
  {
    BitAnd(w, Pow2(k), k);
    BitPow2(k, k);
    if And(w, Pow2(k)) == 0 {
      BitZero(k);
    }
    if And(w, Pow2(k)) != 0 && !Bit(w, k) {
      forall j: nat
        ensures Bit(And(w, Pow2(k)), j) == Bit(0, j)
      {
        BitAnd(w, Pow2(k), j);
        BitPow2(k, j);
        BitZero(j);
      }
      BitsEqual(And(w, Pow2(k)), 0);
    }
  }

  lemma {:induction false} Pow2Monotone(j: nat, k: nat)
    requires j < k
    decreases k
    ensures Pow2(j) < Pow2(k)
  {
    if j < k - 1 {
      Pow2Monotone(j, k - 1);
    }
  }

  /** Setting 2 and 5 in a cleared set leaves 0, 1, 3, 4 and 6 clear. */
  method SetTwoAndFive() returns (got: seq<bool>)
    ensures got == [false, false, true, false, false, true, false]
  {
    var b := new Bitset();
    b.Init();
    b.Set(2);
    b.Set(5);
    got := ReadSeven(b);
  }

  /** The seven reads of the test above, on a bitset holding exactly 2 and 5. */
  method ReadSeven(b: Bitset) returns (got: seq<bool>)
    requires b.Valid() && b.Elements() == {} + {2} + {5}
    ensures got == [false, false, true, false, false, true, false]
  {
    got := [b.Get(0), b.Get(1), b.Get(2), b.Get(3), b.Get(4), b.Get(5), b.Get(6)];
  }

  /** The disabled test of src/bitset.c: set 2, then read back 0 .. 3. */
  method SetTwoThenGet() returns (got: seq<bool>)
    ensures got == [false, false, true, false]
  {
    var b := new Bitset();
    b.Init();
    b.Set(2);
    got := [b.Get(0), b.Get(1), b.Get(2), b.Get(3)];
  }

  /** After bitset_copy(a, b), bitset_equal(a, b) holds. */
  method CopyThenEqual(a: Bitset, b: Bitset) returns (r: bool)
    requires a.Valid() && b.Valid()
    modifies a.data
    ensures a.Valid() && r && a.Elements() == old(b.Elements())
  {
    a.Copy(b);
    r := a.Equal(b);
  }
}
