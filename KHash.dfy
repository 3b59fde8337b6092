/*
 * The 32-bit FNV-1a hash of src/khash.h (KHASH_USE_FNV1A): offset basis
 * 0x811c9dc5, prime 0x01000193, arithmetic modulo 2^32 as in uint32_t.
 */
module KHash {
  import opened Config
  import opened Bits

  const OffsetBasis: nat := 0x811c9dc5
  const Prime: nat := 0x01000193
  /** 2^32: unsigned arithmetic wraps modulo this. */
  const Word32: nat := 0x1_0000_0000
  /** UNROLL: fnv1a hashes whole chunks of this many bytes first. */
  const Unroll: nat := 4

  /** One step of fnv1a_string's loop: hash = (byte ^ hash) * prime, wrapped. */
  function Step(hash: nat, b: Byte): (r: nat)
    ensures r < Word32
  {
    (Xor(b, hash) * Prime) % Word32
  }

  /**
   * The hash after folding every byte of bytes into hash, first byte
   * first; over at least one byte, or from a 32-bit start, the result is a
   * 32-bit value.
   */
  function Fold(hash: nat, bytes: seq<Byte>): (r: nat)
    decreases |bytes|
    ensures hash < Word32 || bytes != [] ==> r < Word32
  {
    if bytes == [] then hash else Fold(Step(hash, bytes[0]), bytes[1..])
  }

  /** FNV-1a of bytes: the fold from the offset basis, a 32-bit value. */
  function Hash(bytes: seq<Byte>): (r: nat)
    ensures r < Word32
  {
    Fold(OffsetBasis, bytes)
  }

  /** Folding a + b is folding a, then b from where a left off. */
  lemma {:induction false} FoldAppend(hash: nat, a: seq<Byte>, b: seq<Byte>)
    decreases |a|
    ensures Fold(hash, a + b) == Fold(Fold(hash, a), b)
  {
    if a == [] {
      assert a + b == b;
    } else {
      var h := Step(hash, a[0]);
      assert (a + b)[0] == a[0] && (a + b)[1..] == a[1..] + b;
      assert Fold(hash, a + b) == Fold(h, a[1..] + b);
      FoldAppend(h, a[1..], b);
    }
  }

  /** The hash of no bytes is the offset basis. */
  lemma HashEmpty()
    ensures Hash([]) == 0x811c9dc5
  {
  }

  /**
   * fnv1a_string(s + start, len, hash): fold the len bytes from start into
   * hash.
   */
  method FnvString(s: seq<Byte>, start: nat, len: nat, hash: nat) returns (r: nat)
    requires start + len <= |s| && hash < Word32
    ensures r == Fold(hash, s[start..start + len]) && r < Word32
  {
    r := hash;
    var p := start;
    var e := start + len;
    while p < e
      invariant start <= p <= e && r < Word32
      invariant Fold(hash, s[start..e]) == Fold(r, s[p..e])
    {
      assert s[p..e][1..] == s[p + 1..e];
      r := Step(r, s[p]);
      p := p + 1;
    }
  }

  /**
   * fnv1a(p, len): hash chunks of four bytes, then the rest. The chunking
   * does not show: the result is the single fold over all len bytes.
   */
  method Fnv1a(s: seq<Byte>, start: nat, len: nat) returns (r: nat)
    requires start + len <= |s|
    ensures r == Hash(s[start..start + len])
  {
    var str, hash := HashChunks(s, start, len);
    var rest := start + len - str;
    ghost var hash0 := hash;
    r := FnvString(s, str, rest, hash);
    FoldRest(s, start, str, rest, start + len, hash0, r);
  }

  /** The rest of the bytes, folded on top of the chunks, completes the hash of start..end. */
  lemma FoldRest(s: seq<Byte>, start: nat, str: nat, rest: nat, end: nat, h: nat, h': nat)
    requires start <= str && str + rest == end <= |s|
    requires h == Fold(OffsetBasis, s[start..str]) && h' == Fold(h, s[str..str + rest])
    ensures h' == Hash(s[start..end])
  {
    FoldSlices(s, start, str, end, h, h');
  }

  /**
   * The unrolled loop of fnv1a: whole chunks of Unroll bytes from start,
   * leaving fewer than Unroll bytes of the len; hash is the fold so far.
   */
  method HashChunks(s: seq<Byte>, start: nat, len: nat) returns (str: nat, hash: nat)
    requires start + len <= |s|
    ensures start <= str <= start + len && start + len - str < Unroll
    ensures hash == Fold(OffsetBasis, s[start..str]) && hash < Word32
  {
    hash := OffsetBasis;
    str := start;
    var rest: nat := len;
    while rest >= Unroll
      invariant start <= str && str + rest == start + len && hash < Word32
      invariant hash == Fold(OffsetBasis, s[start..str])
    {
      ghost var str0, hash0 := str, hash;
      hash := FnvString(s, str, Unroll, hash);
      str := str + Unroll;
      rest := rest - Unroll;
      FoldSlices(s, start, str0, str, hash0, hash);
    }
  }

  /** Folding the bytes from mid to end on top of the hash up to mid gives the hash up to end. */
  lemma FoldSlices(s: seq<Byte>, start: nat, mid: nat, end: nat, h: nat, h': nat)
    requires start <= mid <= end <= |s|
    requires h == Fold(OffsetBasis, s[start..mid]) && h' == Fold(h, s[mid..end])
    ensures h' == Fold(OffsetBasis, s[start..end])
  {
    SliceJoin(s, start, mid, end);
    FoldAppend(OffsetBasis, s[start..mid], s[mid..end]);
  }

  lemma SliceJoin(s: seq<Byte>, i: nat, j: nat, k: nat)
    requires i <= j <= k <= |s|
    ensures s[i..j] + s[j..k] == s[i..k]
  {
    assert forall n :: 0 <= n < k - i ==> (s[i..j] + s[j..k])[n] == s[i + n];
  }
}
