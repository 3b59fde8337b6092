/*
 * The bit-sliced jump tables of src/jmptbl.h. A table of width n (1, 2 or
 * 3, for jump_table1_t .. jump_table3_t) holds 2^n jump targets and n
 * bitsets over the 256 byte values; bitset k holds the bytes whose target
 * index has bit k set, so a byte's target index is read back from its n
 * memberships.
 */
module JumpTable {
  import opened Config
  import opened Bits
  import Bitset

  /** Number of byte values a table covers. */
  const Chars: nat := 256

  /** Every target occurs once. */
  ghost predicate Distinct(targets: seq<int>)
  {
    forall i, j :: 0 <= i < j < |targets| ==> targets[i] != targets[j]
  }

  /**
   * The init loops put byte c into bitset k when some target index t >= 1
   * whose bit k is set has the target jumps[c] (index 0 sets no bit).
   */
  ghost predicate Marks(targets: seq<int>, jumps: seq<int>, k: nat, c: nat)
    requires c < |jumps|
  {
    exists t :: 1 <= t < |targets| && Bit(t, k) && targets[t] == jumps[c]
  }

  /** {c} when a target index above t with bit k set matches jumps[c], else {}. */
  ghost function Pending(targets: seq<int>, jumps: seq<int>, k: nat, c: nat, t: nat): set<nat>
    requires c < |jumps|
  {
    if exists u :: t < u < |targets| && Bit(u, k) && targets[u] == jumps[c] then {c} else {}
  }

  /** Bitset k after the init loop has seen the bytes below `below`. */
  ghost function Encoded(targets: seq<int>, jumps: seq<int>, k: nat, below: nat): set<nat>
    requires below <= |jumps|
  {
    set c: nat | c < below && Marks(targets, jumps, k, c)
  }

  /** Looking at target index t as well adds byte c to bitset k when t has bit k and matches. */
  lemma PendingStep(targets: seq<int>, jumps: seq<int>, c: nat, t: nat)
    requires c < |jumps| && 1 <= t < |targets|
    ensures forall k: nat :: (Pending(targets, jumps, k, c, t - 1) ==
      Pending(targets, jumps, k, c, t) + (if Bit(t, k) && targets[t] == jumps[c] then {c} else {}))
  {
    forall k: nat
      ensures Pending(targets, jumps, k, c, t - 1) ==
        Pending(targets, jumps, k, c, t) + (if Bit(t, k) && targets[t] == jumps[c] then {c} else {})
    {
      if Bit(t, k) && targets[t] == jumps[c] {
        assert t - 1 < t < |targets| && Bit(t, k) && targets[t] == jumps[c];
      }
    }
  }

  /** Once every target index above 0 is seen, byte c is in bitset k exactly when it is marked. */
  lemma EncodedStep(targets: seq<int>, jumps: seq<int>, c: nat)
    requires c < |jumps|
    ensures forall k: nat :: Encoded(targets, jumps, k, c + 1) == Encoded(targets, jumps, k, c) + Pending(targets, jumps, k, c, 0)
  {
    forall k: nat
      ensures Encoded(targets, jumps, k, c + 1) == Encoded(targets, jumps, k, c) + Pending(targets, jumps, k, c, 0)
    {
      assert Marks(targets, jumps, k, c) <==>
        exists u :: 0 < u < |targets| && Bit(u, k) && targets[u] == jumps[c];
    }
  }

  /** The index idx2 << 2 | idx1 << 1 | idx0 formed from the bits [idx0, idx1, ...]. */
  function Assemble(bits: seq<bool>): nat
  {
    if bits == [] then 0 else (if bits[0] then 1 else 0) + 2 * Assemble(bits[1..])
  }

  /** The n low bits of t, lowest first. */
  ghost function LowBits(t: nat, n: nat): (r: seq<bool>)
    ensures |r| == n && forall k :: 0 <= k < n ==> r[k] == Bit(t, k)
  {
    seq(n, k requires 0 <= k < n => Bit(t, k))
  }

  /** Reassembling the n low bits of t < 2^n gives back t. */
  lemma {:induction false} AssembleLowBits(t: nat, n: nat)
    requires t < Pow2(n)
    decreases n
    ensures Assemble(LowBits(t, n)) == t
  {
    if n > 0 {
      var r := LowBits(t, n);
      assert r[1..] == LowBits(t / 2, n - 1);
      AssembleLowBits(t / 2, n - 1);
    }
  }

  /**
   * With distinct targets, a byte whose jump is targets[t0] lands in
   * exactly the bitsets named by the bits of t0.
   */
  lemma MarksSpellIndex(targets: seq<int>, jumps: seq<int>, k: nat, c: nat, t0: nat)
    requires Distinct(targets) && c < |jumps| && t0 < |targets| && targets[t0] == jumps[c]
    ensures Marks(targets, jumps, k, c) <==> Bit(t0, k)
  {
    if t0 == 0 {
      BitZero(k);
    } else if Bit(t0, k) {
      assert 1 <= t0 < |targets| && Bit(t0, k) && targets[t0] == jumps[c];
    }
  }

  /** A byte whose jump is no target at index 1 or above lands in no bitset. */
  lemma UnmatchedMarksNothing(targets: seq<int>, jumps: seq<int>, k: nat, c: nat)
    requires c < |jumps| && forall t :: 1 <= t < |targets| ==> targets[t] != jumps[c]
    ensures !Marks(targets, jumps, k, c)
  {
  }

  /**
   * The self-check of the disabled test in src/jmptbl.h, on the encoded
   * sets: with distinct targets and every jump among them, the memberships
   * of byte c spell the index of its jump.
   */
  lemma SelfCheckIndex(targets: seq<int>, jumps: seq<int>, n: nat, c: nat, t0: nat)
    requires |targets| == Pow2(n) && Distinct(targets)
    requires c < |jumps| == Chars && t0 < |targets| && targets[t0] == jumps[c]
    ensures forall k :: 0 <= k < n ==> (c in Encoded(targets, jumps, k, Chars) <==> Bit(t0, k))
    ensures Assemble(LowBits(t0, n)) == t0
  {
    forall k | 0 <= k < n
      ensures c in Encoded(targets, jumps, k, Chars) <==> Bit(t0, k)
    {
      MarksSpellIndex(targets, jumps, k, c, t0);
    }
    AssembleLowBits(t0, n);
  }

  class Table {
    /** n: 1, 2 or 3 bitsets. */
    const width: nat
    /** tbl->b[0 .. n-1] */
    const b: seq<Bitset.Bitset>
    /** tbl->jumps[0 .. 2^n-1] */
    const jumps: array<int>

    ghost function Repr(): set<object>
    {
      (set k | 0 <= k < |b| :: b[k] as object) + (set k | 0 <= k < |b| :: b[k].data as object)
    }

    ghost predicate Valid()
      reads this, Repr()
    {
      1 <= width <= 3 && |b| == width && jumps.Length == Pow2(width) &&
      (forall k :: 0 <= k < width ==> b[k].Valid()) &&
      (forall j, k :: 0 <= j < k < width ==> b[j].data != b[k].data)
    }

    /** Storage for a jump_table{n}_t, before jump_table{n}_init. */
    constructor (n: nat)
      requires 1 <= n <= 3
      ensures Valid() && width == n && fresh(jumps)
      ensures forall k :: 0 <= k < n ==> fresh(b[k]) && fresh(b[k].data)
    {
      var sets: seq<Bitset.Bitset> := [];
      while |sets| < n
        invariant |sets| <= n
        invariant forall k :: 0 <= k < |sets| ==> sets[k].Valid() && fresh(sets[k]) && fresh(sets[k].data)
        invariant forall j, k :: 0 <= j < k < |sets| ==> sets[j].data != sets[k].data
      {
        var s := new Bitset.Bitset();
        sets := sets + [s];
      }
      width := n;
      b := sets;
      jumps := new int[Pow2(n)];
    }

    /**
     * jump_table{n}_init: clear the bitsets, copy the targets, then for each
     * byte i and each target index t >= 1 matching jumps[i], set i in the
     * bitsets named by the bits of t.
     */
    method Init(targets: seq<int>, charJumps: seq<int>)
      requires Valid() && |targets| == Pow2(width) && |charJumps| == Chars
      modifies jumps, set k | 0 <= k < width :: b[k].data
      ensures Valid() && jumps[..] == targets
      ensures forall k :: 0 <= k < width ==> b[k].Elements() == Encoded(targets, charJumps, k, Chars)
    {
      var k := 0;
      while k < width
        invariant 0 <= k <= width && Valid()
        invariant forall j :: 0 <= j < k ==> b[j].Elements() == {}
      {
        b[k].Init();
        k := k + 1;
      }
      forall t | 0 <= t < jumps.Length {
        jumps[t] := targets[t];
      }
      assert jumps[..] == targets;
      var i := 0;
      while i < Chars
        invariant 0 <= i <= Chars && Valid() && jumps[..] == targets
        invariant forall k :: 0 <= k < width ==> b[k].Elements() == Encoded(targets, charJumps, k, i)
      {
        MarkChar(targets, charJumps, i);
        i := i + 1;
      }
    }

    /** The inner step of the init loop for byte i, over t = 2^n-1 down to 1. */
    method MarkChar(targets: seq<int>, charJumps: seq<int>, i: nat)
      requires Valid() && |targets| == Pow2(width) && |charJumps| == Chars && i < Chars
      requires jumps[..] == targets
      requires forall k :: 0 <= k < width ==> b[k].Elements() == Encoded(targets, charJumps, k, i)
      modifies set k | 0 <= k < width :: b[k].data
      ensures Valid()
      ensures forall k :: 0 <= k < width ==> b[k].Elements() == Encoded(targets, charJumps, k, i + 1)
    {
      var t := Pow2(width) - 1;
      while t >= 1
        invariant 0 <= t < Pow2(width) && Valid()
        invariant forall k :: 0 <= k < width ==> b[k].Elements() == Encoded(targets, charJumps, k, i) + Pending(targets, charJumps, k, i, t)
      {
        PendingStep(targets, charJumps, i, t);
        if jumps[t] == charJumps[i] {
          SetBits(t, i);
        }
        t := t - 1;
      }
      EncodedStep(targets, charJumps, i);
    }

    /** The bitset_set calls of one matching target index t: one per bit of t. */
    method SetBits(t: nat, i: nat)
      requires Valid() && i < Chars
      modifies set k | 0 <= k < width :: b[k].data
      ensures Valid()
      ensures forall k :: 0 <= k < width ==>
        b[k].Elements() == old(b[k].Elements()) + (if Bit(t, k) then {i} else {})
    {
      var k := 0;
      while k < width
        invariant 0 <= k <= width && Valid()
        invariant forall j :: 0 <= j < k ==>
          b[j].Elements() == old(b[j].Elements()) + (if Bit(t, j) then {i} else {})
        invariant forall j :: k <= j < width ==> b[j].Elements() == old(b[j].Elements())
      {
        if Bit(t, k) {
          SetOne(k, i);
        }
        k := k + 1;
      }
    }

    /** One bitset_set call: i joins bitset k and no other bitset changes. */
    method SetOne(k: nat, i: nat)
      requires Valid() && k < width && i < Chars
      modifies b[k].data
      ensures Valid()
      ensures b[k].Elements() == old(b[k].Elements()) + {i}
      ensures forall j :: 0 <= j < width && j != k ==> b[j].Elements() == old(b[j].Elements())
    {
      b[k].Set(i);
    }

    /** Membership of ch in bitset k, as the 0/1 value idx_k. */
    function Idx(k: nat, ch: nat): (r: nat)
      reads this, Repr()
      requires Valid() && k < width && ch < Chars
      ensures r == (if ch in b[k].Elements() then 1 else 0)
    {
      if b[k].Get(ch) then 1 else 0
    }

    /** The memberships of ch, bitset 0 first. */
    ghost function Memberships(ch: nat): (r: seq<bool>)
      reads this, Repr()
      requires Valid()
      ensures |r| == width && forall k :: 0 <= k < width ==> (r[k] <==> ch in b[k].Elements())
    {
      seq(width, k requires 0 <= k < width && Valid() reads this, Repr() => ch in b[k].Elements())
    }

    /** The index jump_table{n}_jump computes: idx2 << 2 | idx1 << 1 | idx0. */
    function Index(ch: nat): (idx: nat)
      reads this, Repr()
      requires Valid() && ch < Chars
      ensures idx == Assemble(Memberships(ch)) && idx < jumps.Length
    {
      var bits := Memberships(ch);
      var idx :=
        if width == 1 then Idx(0, ch)
        else if width == 2 then Idx(1, ch) * 2 + Idx(0, ch)
        else Idx(2, ch) * 4 + Idx(1, ch) * 2 + Idx(0, ch);
      AssembleUpTo3(bits);
      AssembleBitsBelow(bits);
      idx
    }

    /**
     * jump_table{n}_jump: the target at the index spelled by ch's
     * memberships. Whenever those memberships are the bits of some index t,
     * the result is jumps[t].
     */
    function Jump(ch: nat): (r: int)
      reads this, jumps, Repr()
      requires Valid() && ch < Chars
      ensures forall t :: (0 <= t < jumps.Length &&
        (forall k :: 0 <= k < width ==> (ch in b[k].Elements() <==> Bit(t, k)))) ==> r == jumps[t]
    {
      SpelledIndex(ch);
      jumps[Index(ch)]
    }

    /** Memberships that are the bits of t spell the index t. */
    lemma SpelledIndex(ch: nat)
      requires Valid() && ch < Chars
      ensures forall t :: (0 <= t < jumps.Length &&
        (forall k :: 0 <= k < width ==> (ch in b[k].Elements() <==> Bit(t, k)))) ==> jumps[Index(ch)] == jumps[t]
    {
      var bits := Memberships(ch);
      forall t | 0 <= t < jumps.Length &&
        (forall k :: 0 <= k < width ==> (ch in b[k].Elements() <==> Bit(t, k)))
        ensures jumps[Index(ch)] == jumps[t]
      {
        assert bits == LowBits(t, width);
        AssembleLowBits(t, width);
      }
    }
  }

  /** Assemble unrolled for the widths 1, 2 and 3 of the C tables. */
  lemma AssembleUpTo3(bits: seq<bool>)
    requires 1 <= |bits| <= 3
    ensures |bits| == 1 ==> Assemble(bits) == (if bits[0] then 1 else 0)
    ensures |bits| == 2 ==> Assemble(bits) == (if bits[1] then 1 else 0) * 2 + (if bits[0] then 1 else 0)
    ensures |bits| == 3 ==> (Assemble(bits) ==
      (if bits[2] then 1 else 0) * 4 + (if bits[1] then 1 else 0) * 2 + (if bits[0] then 1 else 0))
  {
    var r1 := bits[1..];
    assert Assemble(bits) == (if bits[0] then 1 else 0) + 2 * Assemble(r1);
    if |bits| > 1 {
      var r2 := r1[1..];
      assert Assemble(r1) == (if bits[1] then 1 else 0) + 2 * Assemble(r2);
      if |bits| > 2 {
        assert Assemble(r2) == (if bits[2] then 1 else 0) + 2 * Assemble(r2[1..]);
        assert r2[1..] == [];
      }
    }
  }

  /** An assembled index of n bits is below 2^n. */
  lemma {:induction false} AssembleBitsBelow(bits: seq<bool>)
    ensures Assemble(bits) < Pow2(|bits|)
  {
    if bits != [] {
      AssembleBitsBelow(bits[1..]);
    }
  }

  /**
   * The disabled test of src/jmptbl.h: build a table from targets and
   * per-byte jumps, then compare jump(ch) with jumps[ch] for every byte.
   * With distinct targets and every jump among them, no byte differs.
   */
  method SelfCheck(n: nat, targets: seq<int>, charJumps: seq<int>) returns (mismatches: nat)
    requires 1 <= n <= 3 && |targets| == Pow2(n) && |charJumps| == Chars
    requires Distinct(targets) && forall c :: 0 <= c < Chars ==> charJumps[c] in targets
    ensures mismatches == 0
  {
    var tbl := new Table(n);
    tbl.Init(targets, charJumps);
    mismatches := 0;
    var i := 0;
    while i < Chars
      invariant 0 <= i <= Chars && mismatches == 0
      invariant tbl.Valid() && tbl.width == n && tbl.jumps[..] == targets
      invariant forall k :: 0 <= k < n ==> tbl.b[k].Elements() == Encoded(targets, charJumps, k, Chars)
    {
      var t0 :| 0 <= t0 < |targets| && targets[t0] == charJumps[i];
      SelfCheckIndex(targets, charJumps, n, i, t0);
      var jmp := tbl.Jump(i);
      mismatches := mismatches + (if jmp != charJumps[i] then 1 else 0);
      i := i + 1;
    }
  }
}
