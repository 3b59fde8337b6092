# moz core, modelled in Dafny

moz is a parsing machine for PEG grammars. A grammar is compiled first to an
expression tree, which an optimiser rewrites. It is then compiled to IR,
encoded into bytecode, loaded, and run by a stack machine. While the machine
parses it keeps a memo table, a symbol table and an AST-construction log.
Ruby scripts generate the machine's dispatch code and instruction-width
table from a list of instruction definitions.

This project models the deterministic core of that toolchain, one Dafny
module per source file. Code that updates state in place is modelled by
classes whose methods are proved against specification functions. Pure code
is modelled by functions and lemmas.

- **Instruction-set generators.** `VmGen` models tool/vmgen.rb and
  `VmGenLegacy` models vmgen.rb. Both sit on `RubyText`, which models the
  Ruby string operations the scripts call: gets, strip, split, join and puts.
- **Loading and encoding.**
  - `Loader`: src/loader.c, which decodes big-endian fields, translates each
    instruction and relocates its jumps.
  - `Buffer`: src/core/buffer.h.
  - `Module`: the IR encoder of src/compiler/module.c.
  - `Linker`: the label linker of src/compiler/linker.c.
- **Containers.**
  - `KArray`: src/core/karray.h.
  - `Bitset`: src/core/bitset.h and src/bitset.c, over the word-level
    operators of `Bits`.
  - `JumpTable`: src/jmptbl.h.
  - `Block`: src/compiler/block.c.
  - `Worklist`: src/compiler/worklist.h.
- **Runtime state.**
  - `SymTable` and `NezSymTable`: src/symtable.c and src/libnez/symtable.c.
  - `NezMemo` and `MemoLegacy`: src/libnez/memo.c and src/memo.c.
  - `Ast`: the AST log of src/ast.c.
  - `Node`: the child array of src/node.c.
  - `MozVm`: the frame push, pop and fail discipline of src/mozvm.c.
- **Strings and hashing.**
  - `Token`: src/token.h.
  - `PString` and `PStringLegacy`: src/core/pstring.h and src/pstring.h.
  - `KHash`: the 32-bit FNV-1a hash of src/khash.h.
  - `Config`: the build constants and the LOG2 macro.
- **Grammar optimiser.**
  - `Grammar`: the expression kinds of src/compiler/expression.h, and a PEG
    recognition reading of them. Every rewrite is proved against this
    reading: it keeps the language wherever the original's outcome is known.
  - `CharClass`: literal reading (to_hex, escapes, parseClass, compile_Byte).
  - `ClassSet`: the compile_Set builders of character classes.
  - `SequenceOpt` and `ChoiceOpt`: the Sequence and Choice rewrites.
  - `Optimizer`: the declaration table, reference counts, inlining and the
    moz_ast_optimize drivers of src/compiler/expression.c, src/compiler/ast.c
    and src/compiler/compiler.c.
  - `Printer`: the write_char and dump_set printers of src/compiler/compiler.c.

Modelling conventions:
- Pointers into an input are indices into a byte sequence.
- Machine words are naturals below a power of two. C's unsigned wrap-around
  is written out as a modulus.
- Host byte order is taken to be little-endian.
- An `assert` about state the code has built itself is modelled as a
  `Failure` result on exactly the inputs that make it fail. Examples are a
  released count that is not positive, a child of an unexpected kind, and
  an instruction with no encoder.
- An `assert` about a caller's arguments becomes a `requires`, which every
  caller must meet. This covers:
  - the size checks of ARRAY_remove, ARRAY_remove_element and ARRAY_index,
    and the index check of ARRAY_insert (KArray.Array);
  - the linked-block checks of Block.Block.Remove, Block.Block.InsertBefore
    and Block.Unlink;
  - the non-empty check of Worklist.Worklist.Pop;
  - the transaction bound of Ast.AstMachine.CommitTx.
- Three `requires` exclude undefined behaviour rather than an `assert`:
  - KArray.Array.Pop requires a non-empty array. ARRAY_pop
    (src/core/karray.h:181) decrements the size unchecked and would read
    list[-1].
  - Token.Token.Init requires `s <= e`. token_init (src/token.h:12) would
    wrap `e - s` in its unsigned length.
  - NezMemo.Memo.Init requires `1 <= n`, `1 <= w` and
    `w * 2^LOG2(n) < 2^32`. For n = 0, `1 << LOG2(0)` at
    src/libnez/memo.c:38 is `1 << 32`, which is undefined; n = 0 is
    reachable, since moz_runtime_init (src/vm.c:23) passes the memo_size
    that mozvm_loader_load reads with read16 (src/loader.c:872). The two
    bounds on w hold at every call: w is MOZ_MEMO_DEFAULT_WINDOW_SIZE (32)
    and n is at most 0xFFFF, so w * 2^LOG2(n) is at most 2^21.
- Some undefined behaviour that the source never asserts against is also
  modelled as a `Failure`:
  - a class endpoint past the 256-bit set (ClassSet);
  - a read past the loaded input (Loader.InputStream);
  - a full index table (Loader.LoadOne);
  - runtime tables that end before the slot they are copied to
    (Loader.StoreTable);
  - a reference that names no instruction, or a Jump target past the code
    (Loader.RelocJumpAt);
  - a jump-table base past the runtime tables (Loader.RelocTableAt);
  - an opcode size below 1, or an instruction that runs past the code
    (Loader.RelocStep). In C the unsigned step would move the walk
    backwards or read past the code.

## Model

| member | source | states |
|---|---|---|
| Config.RoundUpPow2 | src/core/karray.h:44-45 | 1 << LOG2(n) is the least power of two at least n: n <= 2^LOG2(n) < 2n |
| Config.Pow2BitLength | src/mozvm_config.h:18-19 | 2^(bit length of n) is the least power of two above n, and at most 2n for n > 0 |
| Config.Log2 | src/mozvm_config.h:19 | LOG2(n) is 0 exactly for n = 1, the one case where __builtin_clzl gets 0; for n = 0 the unsigned N - 1 wraps to UINT_MAX and LOG2(0) is 32 |
| KHash.Step | src/khash.h:25 | one step of the fold, (byte XOR hash) * 0x01000193 taken modulo 2^32, is a 32-bit value |
| KHash.FoldAppend | src/khash.h:21-28 | folding a + b is folding a and then b from the hash a left |
| KHash.Fold | src/khash.h:21-28 | a fold over at least one byte, or from a 32-bit start, ends in a 32-bit value |
| KHash.HashEmpty | src/khash.h:30-41 | the hash of no bytes is the offset basis 0x811c9dc5 |
| KHash.Hash | src/khash.h:30-41 | every hash is below 2^32 |
| KHash.FnvString | src/khash.h:21-28 | the loop of fnv1a_string returns the fold of exactly the len bytes from start into hash |
| KHash.Fnv1a | src/khash.h:30-41 | hashing chunks of 4 and then the rest gives the single fold over all len bytes from the offset basis |
| Token.Token.Init | src/token.h:9-13 | the token starts at s and has length e - s |
| Token.Token.Copy | src/token.h:15-19 | the token takes t2's start and length |
| Token.Token.Length | src/token.h:21-24 | the result is the token's length |
| Token.Token.Equal | src/token.h:26-43 | 1 exactly when both lengths agree and all len bytes agree |
| Token.Token.EqualString | src/token.h:45-55 | 1 exactly when the token's len bytes equal the len bytes at str |
| Token.CopyThenEqual | src/token.h:15-19 | after token_copy(t, t2), token_equal(t, t2) holds |
| Token.EqualSymmetric | src/token.h:26-43 | token_equal gives the same answer in both argument orders |
| Token.EqualStringSelf | src/token.h:45-55 | a token compares equal against its own start |
| PString.StrncmpFacts | src/core/pstring.h:91 | strncmp over equal prefixes is 0; without a NUL in the first n bytes it is 0 exactly when they agree |
| PString.PString.Alloc | src/core/pstring.h:56-63 | the new pstring stores len and a copy of the len bytes at t, followed by a NUL |
| PString.PString.Length | src/core/pstring.h:78-82 | the stored length is the number of bytes, one less than the buffer |
| PString.Equal | src/core/pstring.h:84-92 | equal bytes compare equal; equal implies equal lengths; without an embedded NUL, equal exactly when the bytes agree |
| PString.StartsWithSimple | src/core/pstring.h:101-110 | 1 exactly when the len bytes at p equal the first len bytes of text |
| PString.StartsWith | src/core/pstring.h:126-141 | the same answer as the simple loop: 1 exactly when the prefixes agree |
| PString.SignedChar | src/core/pstring.h:193 | `*str` read as an x86 signed char: a byte below 0x80 keeps its value, any other byte reads as a negative value that no uint8_t c equals |
| PString.FindNotChar | src/core/pstring.h:193-196 | given a byte whose signed char value is not c at or after str, returns the first such position; every byte skipped equals c; a c below 0x80 stops at the first byte other than c, and a c of 0x80 or more stops at str at once |
| PString.FindNotCharHighByte | src/core/pstring.h:156-197 | over [0xFF, 0x01] with c = 0xFF the scan as written returns 0, where the bounded scan comparing unsigned bytes returns 1 |
| PString.FindNotCharPastEnd | src/core/pstring.h:156-197 | a range [0, 2) of c bytes, followed by another c and then a different byte, makes the scan return 3, beyond end |
| PString.FindNotCharBounded | src/core/pstring.h:156-197 | the intended scan, bounded by end and comparing unsigned bytes as the SSE4.2 branch does: the first byte other than c in [str, end), else end |
| PString.AllocTwice | src/core/pstring.h:56-92 | a fresh pstring has the copied length and compares equal to another copy of the same bytes |
| PString.EqualStopsAtNul | src/core/pstring.h:84-92 | two pstrings sharing a NUL at index 0 compare equal though later bytes differ |
| PStringLegacy.LegacyPString.Alloc | src/pstring.h:50-56 | the buffer holds exactly the len copied bytes, with no terminator |
| PStringLegacy.LegacyPString.Length | src/pstring.h:71-75 | the stored length is the whole buffer |
| PStringLegacy.AllocThenStartsWith | src/pstring.h:84-93 | a copied string is a prefix of the input where it was copied from |
| KHash.HashChunks | src/khash.h:35-39 | the unrolled loop consumes whole chunks of 4 and stops with fewer than 4 bytes left; the hash is the fold of exactly the bytes consumed and fits in 32 bits |
| Bits.Or | src/core/bitset.h:60 | a OR b is at least each operand and at most their sum |
| Bits.And | src/core/bitset.h:66 | a AND b is at most each operand |
| Bits.Xor | src/khash.h:25 | a XOR b is at most the sum and differs from it by an even amount, and x XOR x is 0 |
| Bits.Not | src/core/bitset.h:89 | ~a on an n-bit word a is the all-ones word minus a |
| Bits.Bit | src/core/bitset.h:63-67 | a set bit k means the word is at least 2^k |
| Bits.BitZero | src/core/bitset.h:48-55 | the zero word bitset_init stores has no bit set |
| Bits.BitOr | src/core/bitset.h:77-83 | bit k of a OR b is set exactly when it is set in a or in b |
| Bits.BitAnd | src/core/bitset.h:69-75 | bit k of a AND b is set exactly when it is set in both |
| Bits.BitXor | src/khash.h:25 | bit k of a XOR b is set exactly when a and b differ there |
| Bits.BitNot | src/core/bitset.h:85-91 | below the word width, bit k of ~a is set exactly when it is clear in a |
| Bits.BitPow2 | src/core/bitset.h:59 | the mask 1 << k has bit k set and no other |
| Bits.BitsEqual | src/core/bitset.h:98-101 | two words with the same bits are equal, so comparing bitsets word by word compares their members |
| Bits.OrBound | src/core/bitset.h:77-83 | OR of two n-bit words is an n-bit word |
| Bits.XorBound | src/khash.h:25 | XOR of two n-bit words is an n-bit word |
| Bits.NotBound | src/core/bitset.h:85-91 | ~a on n bits is an n-bit word |
| Bits.NotNot | src/core/bitset.h:85-91 | flipping an n-bit word twice gives it back |
| Bits.HighBits | src/core/bitset.h:45 | an n-bit word has no bit at or above n |
| Bits.OrZero | src/core/bitset.h:57-61 | OR with 0 leaves a word unchanged |
| Bits.OrDisjoint | src/loader.c:76-81 | OR of a value shifted past k bits with a value below 2^k is their sum, as read16 builds d1 << 8 OR d2 |
| Bitset.MemberBit | src/core/bitset.h:63-67 | index i is a member exactly when bit i % 64 of word i / 64 is set |
| Bitset.MembersWithMember | src/core/bitset.h:57-61 | or-ing the mask 1 << (index % 64) into word index / 64 adds exactly index to the members |
| Bitset.MembersAnd | src/core/bitset.h:69-75 | the members of the word-wise AND are the common members |
| Bitset.MembersOr | src/core/bitset.h:77-83 | the members of the word-wise OR are the members of either |
| Bitset.MembersComplement | src/core/bitset.h:85-91 | the members of the complement are the indices 0..255 that were not members |
| Bitset.MembersZero | src/core/bitset.h:48-55 | cleared words have no members |
| Bitset.FlipTwice | src/core/bitset.h:85-91 | complementing 64-bit words twice gives back the same words |
| Bitset.OrWordsFit | src/core/bitset.h:77-83 | the OR of unsigned-long words is an unsigned-long word |
| Bitset.ComplementFits | src/core/bitset.h:85-91 | the complement of unsigned-long words is an unsigned-long word |
| Bitset.AndNonzero | src/core/bitset.h:65-66 | w & (1 << k) is nonzero exactly when bit k of w is set |
| Bitset.Bitset.Init | src/core/bitset.h:48-55 | after bitset_init no index is a member; the older copy at src/bitset.c:39-46 clears the same four words |
| Bitset.Bitset.Set | src/core/bitset.h:57-61 | the words become those with the bit of index set, and the members gain exactly index, as in the older copy at src/bitset.c:48-52 |
| Bitset.Bitset.Get | src/core/bitset.h:63-67 | 1 exactly when index is a member, as in the older copy at src/bitset.c:54-58 |
| Bitset.Bitset.And | src/core/bitset.h:69-75 | set1 becomes the word-wise AND, whose members are the intersection |
| Bitset.Bitset.Or | src/core/bitset.h:77-83 | set1 becomes the word-wise OR, whose members are the union |
| Bitset.Bitset.Flip | src/core/bitset.h:85-91 | the set becomes the complement within 0..255 |
| Bitset.Bitset.Copy | src/core/bitset.h:93-96 | set1 gets set2's words, hence its members |
| Bitset.Bitset.Equal | src/core/bitset.h:98-101 | true exactly when the words agree, and then the members agree |
| Bitset.CopyThenEqual | src/core/bitset.h:93-101 | after bitset_copy(a, b), bitset_equal(a, b) holds and a has b's members |
| Bitset.SetTwoAndFive | test/test_bitset.c:5-18 | setting 2 and 5 in a cleared set reads back 0,0,1,0,0,1,0 for indices 0..6 |
| Bitset.SetTwoThenGet | src/bitset.c:60-73 | the disabled test of the older copy: after setting 2, indices 0..3 read 0,0,1,0 |
| KArray.GrowCapacityBounds | src/core/karray.h:76-78 | one growth step, 1 << LOG2(capacity * 2 + 1), strictly enlarges the capacity by at most a factor four |
| KArray.GrowCapacity | src/core/karray.h:77 | every capacity one growth step gives is a power of two |
| KArray.FirstIndexSpec | src/core/karray.h:137-147 | the first position of o, and -1 exactly when o does not occur |
| KArray.FirstIndexUnique | src/core/karray.h:137-147 | a position holding o with no o before it is the one found |
| KArray.RemoveFirst | src/core/karray.h:112-122 | removing the first o takes exactly one o out of the multiset of elements when o occurs, and leaves the sequence alone when it does not |
| KArray.Array.Init | src/core/karray.h:64-69 | size 0, capacity initsize |
| KArray.Array.Set | src/core/karray.h:162-164 | only the element at idx changes, to v |
| KArray.Array.EnsureSize | src/core/karray.h:71-81 | afterwards capacity >= size + n; nothing changes when there was room; old slots are kept and the added slots are zero |
| KArray.Array.Dispose | src/core/karray.h:83-88 | size and capacity become 0 |
| KArray.Array.Add | src/core/karray.h:90-93 | the contents become the old contents followed by v |
| KArray.Array.AddOnce | src/core/karray.h:95-104 | unchanged when v is present, otherwise v appended |
| KArray.Array.Remove | src/core/karray.h:106-110 | the element at idx is deleted and the later ones move left by one |
| KArray.Array.RemoveElement | src/core/karray.h:112-122 | the first occurrence of o is deleted, nothing when o is absent |
| KArray.Array.Insert | src/core/karray.h:124-135 | the contents become prefix ++ [v] ++ suffix at idx |
| KArray.Array.Index | src/core/karray.h:137-147 | the first position of o, or -1 |
| KArray.Array.Pop | src/core/karray.h:181 | the last element is returned and removed |
| KArray.AddToFreshArray | test/test_array.c:6-14 | adding 10 to a fresh array gives size 1 and element 0 equal to 10 |
| Bitset.ReadSeven | test/test_bitset.c:11-17 | on a bitset holding exactly 2 and 5, the seven bitset_get calls give 0,0,1,0,0,1,0 |
| Buffer.LittleEndianRoundTrip | src/core/buffer.h:113-141 | the n bytes a write stores for v < 2^(8n), read back least significant first, give v |
| Buffer.FromLittleEndianRoundTrip | src/core/buffer.h:59-90 | n bytes read as a value below 2^(8n) whose n-byte encoding is those bytes |
| Buffer.FromLittleEndianAppend | src/core/buffer.h:59-90 | reading a + b puts the value of b above the bytes of a |
| Buffer.ReadHalves | src/core/buffer.h:64-86 | d2 << w OR d1, with d1 read from the w bits of lo, is the value of lo + hi: the two halves do not overlap |
| Buffer.Writer.Init | src/core/buffer.h:143-146 | an empty writer with room for capacity bytes |
| Buffer.Writer.Length | src/core/buffer.h:148-151 | the number of bytes written |
| Buffer.Writer.Write8 | src/core/buffer.h:108-111 | the bytes become the old bytes followed by v, so the length grows by 1 |
| Buffer.Writer.Put | src/core/buffer.h:115-120 | room for n bytes is made, the n host-order bytes of v are appended and counted |
| Buffer.Writer.Write16 | src/core/buffer.h:113-121 | the 2 little-endian bytes of v are appended: length grows by 2 |
| Buffer.Writer.Write32 | src/core/buffer.h:123-131 | the 4 little-endian bytes of v are appended: length grows by 4 |
| Buffer.Writer.Write64 | src/core/buffer.h:133-141 | the 8 little-endian bytes of v are appended: length grows by 8 |
| Buffer.Writer.Dispose | src/core/buffer.h:154-158 | the writer is emptied, with length and capacity 0 |
| Buffer.Reader.Init | src/core/buffer.h:92-98 | the reader reads the first size bytes of buf from pos 0, with capacity -1 |
| Buffer.Reader.FromWriter | src/core/buffer.h:100-106 | the reader reads a writer's bytes in place from pos 0 |
| Buffer.Reader.HasNext | src/core/buffer.h:49-52 | 1 exactly when some byte is left unread (pos < size) |
| Buffer.Reader.Read8 | src/core/buffer.h:54-57 | returns the byte at pos and advances pos by 1 |
| Buffer.Reader.Read16 | src/core/buffer.h:59-68 | on a little-endian host returns the 2 bytes at pos least significant first, advancing pos by 2 |
| Buffer.Reader.Read32 | src/core/buffer.h:70-79 | read16() OR read16() << 16: the 4 bytes at pos as a little-endian value, advancing pos by 4 |
| Buffer.Reader.Read64 | src/core/buffer.h:81-90 | read32() OR read32() << 32: the 8 bytes at pos as a little-endian value, advancing pos by 8 |
| Buffer.ReadHello | test/test_buffer.c:3-15 | "hello" reads back byte by byte, after which has_next is 0 |
| Buffer.TestBytes | test/test_buffer.c:17-74 | the byte layouts the tests rely on: {1,2} is 0x0201, 0x40302010 is 10 20 30 40 |
| Buffer.ReadMany | test/test_buffer.c:17-26 | bytes {1,2,3,4} read as 0x0201 then 0x0403, after which has_next is 0 |
| Buffer.WriteThree | test/test_buffer.c:58-63 | writing 0x40302010, 0x0102 and 0x0304 stores the 8 bytes 10 20 30 40 02 01 04 03 |
| Buffer.WriteMany | test/test_buffer.c:54-74 | length 8, the three values read back in order, has_next 0, and length 0 after dispose |
| JumpTable.PendingStep | src/jmptbl.h:46-96 | looking at one more target index t adds byte c to bitset k exactly when t has bit k and jumps[c] equals target t |
| JumpTable.EncodedStep | src/jmptbl.h:31-96 | after byte c is processed, it is in bitset k exactly when one of the matching target indices has bit k |
| JumpTable.AssembleLowBits | src/jmptbl.h:109-118 | the index assembled from the n low bits of t < 2^n is t |
| JumpTable.MarksSpellIndex | src/jmptbl.h:46-96 | with distinct targets, a byte whose jump is targets[t0] lands in exactly the bitsets named by the bits of t0 |
| JumpTable.UnmatchedMarksNothing | src/jmptbl.h:31-96 | a byte whose jump matches no target at index 1 or above is in no bitset, so it maps to targets[0] |
| JumpTable.SelfCheckIndex | src/jmptbl.h:154-159 | with distinct targets and every jump among them, the memberships of byte c spell the index of its jump |
| JumpTable.Table.Init | src/jmptbl.h:25-97 | jumps becomes the targets and bitset k holds exactly the bytes whose matching target index has bit k |
| JumpTable.Table.MarkChar | src/jmptbl.h:46-57 | one step of the byte loop extends the encoded bitsets from bytes below i to bytes below i + 1 |
| JumpTable.Table.SetBits | src/jmptbl.h:47-56 | the bitset_set calls of one matching target index set byte i in the bitsets named by its bits |
| JumpTable.Table.Idx | src/jmptbl.h:101-117 | idx_k is 1 exactly when ch is in bitset k |
| JumpTable.Table.Index | src/jmptbl.h:109-118 | idx2 << 2 OR idx1 << 1 OR idx0 is the number the memberships spell, and it indexes jumps |
| JumpTable.Table.Jump | src/jmptbl.h:99-120 | the result is jumps[t] for the index t whose bits are ch's memberships |
| JumpTable.AssembleUpTo3 | src/jmptbl.h:101-118 | the assembled index for widths 1, 2 and 3 is idx0, idx1 << 1 OR idx0 and idx2 << 2 OR idx1 << 1 OR idx0 |
| JumpTable.AssembleBitsBelow | src/jmptbl.h:109-118 | an index assembled from n bits is below 2^n, so it fits the 2^n jumps |
| JumpTable.SelfCheck | src/jmptbl.h:122-161 | the disabled test: with distinct targets and every per-byte jump among them, jump(tbl, ch) == jumps[ch] for all 256 bytes, so no mismatch is reported |
| JumpTable.Table.Memberships | src/jmptbl.h:101-117 | the bitset_get results for ch, bitset 0 first, one per bitset |
| JumpTable.Table.SpelledIndex | src/jmptbl.h:109-118 | memberships that are the bits of t spell the index t |
| JumpTable.Table.SetOne | src/jmptbl.h:48-49 | one bitset_set call adds i to bitset k and leaves every other bitset's members unchanged |
| Linker.SlotValue | src/compiler/linker.c:69 | the 4 bytes of a slot read as a 32-bit value |
| Linker.Splice | src/compiler/linker.c:72-75 | the 4 bytes at off are replaced and every other byte of code is kept |
| Linker.Distance | src/compiler/linker.c:73-75 | callee head minus caller tail, cut to a 32-bit mozaddr_t |
| Linker.ResolvedKeeps | src/compiler/linker.c:57-76 | resolving the first n labels leaves every later slot and every byte outside the first n slots as it was |
| Linker.ResolvedSlots | src/compiler/linker.c:52-77 | after resolve every label slot holds address_head[target] - address_tail[callerId], callerId being the id the slot held before, and no other byte changes |
| Linker.ResolvedSlot | src/compiler/linker.c:57-76 | a slot keeps the distance it was given when its label was resolved |
| Linker.ResolveStep | src/compiler/linker.c:67-75 | resolving label i reads the caller id from the slot as the earlier labels left it |
| Linker.SlotsApartAppend | src/compiler/linker.c:37-39 | a slot added at the writer's end, past every earlier slot, keeps the slots apart |
| Linker.Linker.Init | src/compiler/linker.c:19-26 | the address tables are kept, labels and targets start empty |
| Linker.Linker.AddLabel | src/compiler/linker.c:34-40 | labels gains the writer length, targets the id of the target block's first instruction, and the writer gains the 4 bytes of calleeId |
| Linker.Linker.Resolve | src/compiler/linker.c:52-77 | code becomes the image with every label slot patched in the order the labels were added |
| Linker.Linker.ResolveAt | src/compiler/linker.c:67-75 | one turn of the loop patches label i on top of the first i |
| Linker.Store | src/compiler/linker.c:72-75 | only the 4 bytes at off change |
| Module.LayoutShort | src/compiler/module.c:115-390 | no encoder writes more than two operands |
| Module.FieldBytes | src/compiler/module.c:166-215 | a label operand writes 4 bytes, a byte operand 1 and a 16-bit id 2 |
| Module.AddFields | src/compiler/module.c:125-330 | the operands are written in order; the code only grows and the address tables are untouched |
| Module.EncodeAll | src/compiler/module.c:435-440 | encoding instructions in order keeps both address tables of maxId entries |
| Module.EncodeAllStep | src/compiler/module.c:437-439 | one more instruction is encoded on top of the image of the earlier ones |
| Module.FlattenOk | src/compiler/module.c:435-440 | the flattened list of blocks is well-formed when the blocks are, and encodable exactly when every block is |
| Module.ConcatOk | src/compiler/module.c:435-440 | concatenated instruction lists stay encodable and well-formed |
| Module.EncodeAllAppend | src/compiler/module.c:435-440 | encoding a + b is encoding a, then b |
| Module.SlotValueAppend | src/compiler/linker.c:69 | a slot inside a reads the same once more code follows |
| Module.GrowLinkable | src/compiler/module.c:400-404 | more code keeps an image linkable |
| Module.AddSlotLinkable | src/compiler/linker.c:34-40 | a slot past the old ones, aimed at a known id and holding a known id, keeps an image linkable |
| Module.AddFieldLinkable | src/compiler/module.c:125-215 | writing one operand keeps an image linkable; a new label slot holds the instruction's own id |
| Module.AddFieldsLinkable | src/compiler/module.c:125-215 | writing all operands keeps an image linkable |
| Module.EncodeIrLinkable | src/compiler/module.c:393-408 | encoding a well-formed instruction keeps an image linkable |
| Module.EncodeIr | src/compiler/module.c:393-408 | encoding appends the type byte and the operands after the earlier code, keeps both address tables' size, and changes only the entries of the instruction's own id |
| Module.EncodeAllLinkable | src/compiler/module.c:435-440 | encoding well-formed instructions from the zeroed tables leaves an image mozlinker_resolve can patch |
| Module.AddFieldsSlots | src/compiler/module.c:125-215 | every label slot an instruction writes holds that instruction's id until resolve |
| Module.CompiledSlots | src/compiler/module.c:435-444 | after encoding and resolve, every slot holds the distance from its own instruction's tail to its target's head, and no other byte differs from the encoding |
| Module.Encoder.Init | src/compiler/module.c:428-433 | zeroed address tables of maxId entries, the linker over them, an empty writer of capacity 32 |
| Module.Encoder.EncodeField | src/compiler/module.c:127-215 | one operand: a label slot through mozlinker_add_label, or write8, or write16 |
| Module.Encoder.EncodeLabel | src/compiler/linker.c:34-40 | a new slot aimed at instruction to, holding id |
| Module.Encoder.EncodeByte | src/compiler/module.c:169 | write8 appends the byte |
| Module.Encoder.EncodeShort | src/compiler/module.c:175 | write16 appends the two bytes, low first |
| Module.Encoder.EncodeFields | src/compiler/module.c:125-330 | the body of a moz_I*_encode function writes its operands in order |
| Module.Encoder.Encode | src/compiler/module.c:393-408 | the type byte, then the operands; head and tail addresses recorded under the id; the head is returned; a TODO encoder (int3) is a Failure |
| Module.Encoder.Record | src/compiler/module.c:403-404 | only address_head[id] and address_tail[id] change |
| Module.Encoder.Finish | src/compiler/module.c:441-444 | the copy of the code is patched by resolve into the resolved image |
| Module.Encoder.CopyCode | src/compiler/module.c:410-443 | a fresh array holding exactly the code written |
| Module.Encoder.EncodeNext | src/compiler/module.c:437-439 | one turn of the inner loop encodes irs[i] after irs[..i], failing exactly on a TODO encoder |
| Module.Encoder.EncodeEach | src/compiler/module.c:437-439 | the inner loop succeeds exactly when every instruction has an encoder, and then produces their encoding |
| Module.Encoder.EncodeBlock | src/compiler/module.c:435-440 | one turn of the outer loop encodes block b after the earlier blocks |
| Module.Encoder.EncodeBlocks | src/compiler/module.c:435-440 | both loops succeed exactly when every block is encodable, and then produce the encoding of the flattened blocks |
| Module.Compile | src/compiler/module.c:417-449 | succeeds exactly when every instruction has an encoder; the result is the encoding with every label slot resolved |
| Module.JumpRetImage | src/compiler/module.c:125-154 | a jump to the next instruction followed by a return encodes as IJump, a 4-byte slot holding 0, IRet |
| Module.JumpRetResolved | src/compiler/linker.c:52-77 | resolving that image writes distance 0 into the slot |
| Module.CompileJumpRet | src/compiler/module.c:417-449 | compiling that pair gives IJump 0 0 0 0 IRet |
| Block.Inst.New | src/compiler/block.c:56-60 | an instruction with its id and no parent block yet |
| Block.BlockIds.Init | src/compiler/block.c:3 | the block counter max_block_id starts at 0 |
| Block.Block.New | src/compiler/block.c:15-24 | the block takes the counter's id, the counter moves on modulo 2^32, the type is 0 OR t, and all three arrays are empty |
| Block.Block.SetType | src/compiler/block.c:5-8 | the type becomes old type OR t |
| Block.Block.Is | src/compiler/block.c:10-13 | true exactly when every bit of t is set in the type |
| Block.Block.Size | src/compiler/block.c:31-34 | the number of instructions |
| Block.Block.Append | src/compiler/block.c:56-60 | inst goes last and gets the block as its parent |
| Block.Block.Remove | src/compiler/block.c:62-65 | the first occurrence of inst leaves the list |
| Block.Block.InsertBefore | src/compiler/block.c:67-74 | inst takes target's first index and everything from there moves up by one |
| Block.Block.Get | src/compiler/block.c:76-79 | the instruction at index i |
| Block.Block.GetLast | src/compiler/block.c:81-88 | NULL for an empty block, else the last instruction |
| Block.Link | src/compiler/block.c:44-48 | succ is added once to pred's successors and pred once to succ's predecessors |
| Block.Unlink | src/compiler/block.c:50-54 | the first occurrence of each is removed from the other's list |
| Block.ZeroOr | src/compiler/block.c:17-19 | the first set_type on the zeroed block gives the type t itself |
| Block.HasAllBits | src/compiler/block.c:12 | (a & t) == t exactly when every bit of t is a bit of a |
| Block.SetTypeIs | src/compiler/block.c:5-13 | after set_type(t), block_is(t) holds and every type held before still holds |
| Block.IsFlag | src/compiler/block.h:15-21 | for a single flag 1 << k, block_is tests bit k |
| Block.DeletedIsEverything | src/compiler/block.h:22 | BLOCK_DELETED (-1) sets all 32 bits, so a deleted block is of every type |
| Block.LinkTwice | src/compiler/block.c:44-48 | linking the same pair twice leaves the lists as one link does |
| Block.UnlinkAfterLink | src/compiler/block.c:44-54 | unlinking undoes a link that was new |
| Block.RemoveAfterInsert | src/compiler/block.c:62-74 | removing an instruction just inserted restores the list |
| Block.TwoBlocks | src/compiler/block.c:15-24 | two blocks from one counter get ids 0 and 1 and empty arrays of their own |
| Block.LinkUnlink | src/compiler/block.c:44-54 | linking two blocks twice leaves one entry in each list; unlinking empties both |
| Block.AppendInsert | src/compiler/block.c:56-88 | append, then insert before the first: the new instruction leads and get_last is the appended one |
| Worklist.AddOnce | src/core/karray.h:95-104 | v is present afterwards, nothing else is added, and the old elements keep their order |
| Worklist.AddOnceDistinct | src/compiler/worklist.h:53-56 | push never introduces a duplicate |
| Worklist.PushAllDistinct | src/compiler/worklist.h:53-56 | a sequence of pushes keeps the list duplicate-free |
| Worklist.PushAllMembers | src/compiler/worklist.h:53-56 | after pushes the elements are the old ones and the pushed ones |
| Worklist.RunStep | src/compiler/worklist.h:80-83 | one turn pops the last element, adds func's answer and continues from the list with what func pushed |
| Worklist.RunWithoutPushes | src/compiler/worklist.h:74-86 | a func that pushes nothing runs once per element and apply returns the sum of its answers |
| Worklist.RunEmpty | src/compiler/worklist.h:74-86 | apply over an empty list returns 0 |
| Worklist.Worklist.Init | src/compiler/worklist.h:65-69 | an empty list holding the context |
| Worklist.Worklist.Empty | src/compiler/worklist.h:49-52 | 1 exactly when the list is empty |
| Worklist.Worklist.Push | src/compiler/worklist.h:53-56 | the contents become add_once of v |
| Worklist.Worklist.Pop | src/compiler/worklist.h:57-64 | the last element is returned and removed (LIFO) |
| Worklist.Worklist.PushEach | src/compiler/worklist.h:53-56 | pushing each element of vs in order |
| Worklist.Turn | src/compiler/worklist.h:81-82 | one turn: pop the last element, run func on it, keep what it pushed |
| Worklist.OutcomeStep | src/compiler/worklist.h:80-83 | a turn moves func's answer into the running sum and leaves the final outcome unchanged |
| Worklist.Apply | src/compiler/worklist.h:74-86 | the loop's result is the sum Run defines over the list init filled |
| Worklist.PushTwicePop | src/compiler/worklist.h:53-64 | pushing 1, 2, 2 keeps one copy of 2; pop returns 2 and the list is not empty |
| Worklist.ApplySums | src/compiler/worklist.h:74-86 | init pushing 1, 2, 1 with a func answering its element returns 2 + 1, each element once |
| Node.Padded | src/node.c:81-83 | padding appends NULL children up to length k and keeps the existing ones |
| Node.Node.Length | src/node.h:29-32 | the shared size field is the number of children |
| Node.Node.New | src/node.c:25-50 | elm_size NULL children, inline when at most 2, else in an array; tag, pos, len and value as given |
| Node.Node.Get | src/node.c:52-65 | the child at index, NULL past the end |
| Node.Node.Append | src/node.c:93-120 | n becomes the last child; at length 2 the children move to a new array of capacity 3; the other fields are kept |
| Node.Node.Set | src/node.c:67-91 | for a uint16_t label, n gets the label; NULL children are appended until index is in range; child index becomes n and every other child stays |
| Node.Spill | src/node.c:104-111 | the array of capacity 3 holds the two inline children and n |
| Node.AppendThree | src/node.c:93-120 | appending three children across the switch to the array keeps them in order |
| Node.SetPastEnd | src/node.c:52-91 | Node_set at index 2 of an empty node pads with NULL; Node_get past the end gives NULL |
| Node.Node.PadTo | src/node.c:80-82 | the padding loop appends NULL children until there are at least k, keeping the existing children and every other field |
| Worklist.PopFromTwo | src/compiler/worklist.h:57-64 | pop on the worklist [1, 2] returns 2 and leaves it not empty |
| SymTable.HasOfMeaning | src/symtable.c:64-80 | has_symbol answers 1 exactly when the newest entry carrying the tag holds a symbol; a newer mask hides every older symbol |
| SymTable.GetOfMeaning | src/symtable.c:82-100 | get_symbol finds nothing exactly when no entry for the tag holds a symbol; otherwise it returns a symbol entry for the tag with no newer symbol entry for the tag (it skips masks) |
| SymTable.ContainsHashFilter | src/symtable.c:102-124 | when each stored hash is the FNV-1a hash of its token's bytes, the hash comparison before token_equal never changes contains' answer |
| SymTable.SymTable.Init | src/symtable.c:27-33 | symtable_init gives an empty table with room for 4 entries and state 0 |
| SymTable.SymTable.Push | src/symtable.c:41-51 | symtable_push appends one entry stamped with the current state, hash, tag and token, and advances the unsigned state modulo 2^32 |
| SymTable.SymTable.AddSymbolMask | src/symtable.c:53-56 | a mask is an entry with hash 0 and no token; afterwards has_symbol of that tag answers 0 |
| SymTable.SymTable.AddSymbol | src/symtable.c:58-62 | the captured token is pushed with the FNV-1a hash of its bytes; afterwards has_symbol answers 1 and get_symbol returns that token |
| SymTable.SymTable.HasSymbol | src/symtable.c:64-80 | the newest-to-oldest scan answers the specification HasOf of the entries, 0 on an empty table |
| SymTable.SymTable.GetSymbol | src/symtable.c:82-100 | the newest-to-oldest scan returns the newest symbol for the tag, skipping masks, or nothing |
| SymTable.SymTable.Contains | src/symtable.c:102-124 | the scan stops with 0 at the newest mask for the tag, with 1 at the first entry for the tag whose hash and bytes equal the token's, else 0 |
| SymTable.SymTable.Savepoint | src/symtable.c:126-129 | the savepoint is the number of entries |
| SymTable.SymTable.Rollback | src/symtable.c:131-141 | rollback truncates the entries to the savepoint and leaves the state counter unchanged |
| SymTable.EmptyTable | test/test_sym.c:4-12 | on a fresh table has_symbol and get_symbol both give 0 |
| SymTable.RollbackUndoesAdd | src/symtable.c:58-141 | rollback to a savepoint taken before an add makes has_symbol 0 again while the state counter keeps its advance |
| SymTable.MaskHidesSymbol | src/symtable.c:53-124 | after a symbol and then a mask, has_symbol gives 0, get_symbol still finds the older symbol, and contains stops at the mask with 0 |
| NezSymTable.Push | src/libnez/symtable.c:46-61 | the libnez push leaves the entry uninitialised: state, hash and tag are set, the token is copied only when there is one, otherwise the slot keeps a leftover token |
| NezSymTable.AddSymbolMask | src/libnez/symtable.c:63-67 | the libnez mask has hash 0 and the leftover token; has_symbol of the tag is 1 exactly when a leftover token is present |
| NezSymTable.StaleMaskReadsAsSymbol | src/libnez/symtable.c:46-92 | a mask written over a slot that held a token reads back as that symbol: has_symbol gives 1 and get_symbol returns the leftover token |
| NezMemo.Key | src/libnez/memo.c:55 | the key ((uintptr_t)pos << shift) OR memoId, computed in 64-bit arithmetic, is below 2^64 |
| NezMemo.DigitsUnique | src/libnez/memo.c:55 | two positional encodings a*p+x and b*p+y with x, y below p are equal only with equal digits |
| NezMemo.MulSplit | src/libnez/memo.c:55 | (a + d) * p is at least a * p + p for d at least 1 |
| NezMemo.KeyInjective | src/libnez/memo.c:55 | while pos << shift does not wrap and memoId fits below 2^shift, equal keys mean equal positions and equal memo points, in both directions |
| NezMemo.KeyValue | src/libnez/memo.c:55 | without wrap-around and with memoId below 2^shift, the key is pos * 2^shift + memoId |
| NezMemo.SetThenLookup | src/libnez/memo.c:53-103 | after set, a get with the same key and state finds exactly the stored result and consumed length |
| NezMemo.FailThenLookup | src/libnez/memo.c:70-103 | after fail, a get with that key finds the failed marker when the state matches and misses otherwise |
| NezMemo.FailHidesOtherKey | src/libnez/memo.c:70-103 | after fail, a get with any other key on that slot misses |
| NezMemo.OtherSlotUnchanged | src/libnez/memo.c:53-103 | writing one slot leaves every lookup of every other slot unchanged |
| NezMemo.Memo.Slot | src/libnez/memo.c:56 | the slot hash AND mask is never above the mask, so always inside the table |
| NezMemo.Memo.Init | src/libnez/memo.c:35-51 | memo_elastic_init makes w * 2^LOG2(n) zeroed entries, mask len - 1 and shift LOG2(n) + 1 |
| NezMemo.Memo.Set | src/libnez/memo.c:53-68 | set overwrites the slot of the key with its hash, consumed, state (stored unsigned) and result, changes no other slot, and answers 1 |
| NezMemo.Memo.Fail | src/libnez/memo.c:70-82 | fail writes the key's hash and the failed marker into its slot, changes no other slot, and answers 0 |
| NezMemo.Memo.Get | src/libnez/memo.c:84-103 | get returns the slot when its hash and state both match, else NULL |
| NezMemo.NullSet | src/libnez/memo.c:125-128 | the null memo stores nothing and answers 0 |
| NezMemo.NullFail | src/libnez/memo.c:130-133 | the null memo's fail answers 0 |
| NezMemo.NullGet | src/libnez/memo.c:135-138 | the null memo's get always misses |
| NezMemo.SetThenGet | test/test_memo.c:13-21 | memo_init(32, 4), set(0, 0, NULL, 0, 0), then get(0, 0, 0) finds an entry whose result is NULL |
| NezMemo.SetFailGet | src/libnez/memo.c:53-103 | a fail on a key that was set leaves get finding that key, now marked failed |
| NezMemo.CollidingFailMisses | src/libnez/memo.c:70-103 | a fail on a key that collides with a stored one evicts it: the older key then misses rather than reading as failed |
| MemoLegacy.Memo.Slot | src/memo.c:36 | the slot hash % ARRAY_size is inside the table |
| MemoLegacy.Memo.Init | src/memo.c:20-31 | memo_elastic_init makes w * n + 1 entries with hash UINTPTR_MAX and every other field 0, and shift LOG2(n) + 1; for n = 0 that is one entry and shift 33 |
| MemoLegacy.InitForCompiler | src/compiler/module.c:82 | moz_runtime_init(0) then memo_init(32, 0) (src/runtime.c:21) builds one entry with key shift 33 |
| MemoLegacy.Memo.Set | src/memo.c:33-47 | set overwrites the slot's hash, consumed, state and result, changes nothing else, and answers 1 |
| MemoLegacy.Memo.Fail | src/memo.c:49-59 | fail as written replaces only the slot's result with the failed marker and keeps whatever hash the slot held; answers 0 |
| MemoLegacy.Memo.Get | src/memo.c:61-72 | get returns the slot when its hash and state both match, else NULL |
| MemoLegacy.CollidingFailHits | src/memo.c:33-72 | a fail on one key turns another key's stored success into a hit on the failed marker |
| NezMemo.SetFailGetOn | src/libnez/memo.c:53-103 | on any valid table, set then fail then get on one key finds the key and reports it failed |
| Ast.Advance | src/ast.c:263-313 | one walker step: a new restarts the node at that entry with no children, a link counts one more child, every other kind keeps the child count and head |
| Ast.NextIndex | src/ast.c:308-312 | the loop always moves forward: a Link entry jumps past its shift |
| Ast.WalkCountsLinks | src/ast.c:226-315 | the child count the walk reaches equals the number of Link entries constructLeft visits from the walker's head, so objSize and the children linked agree |
| Ast.WalkFromStart | src/ast.c:257-315 | from the start entry, the walk ends with exactly as many children as constructLeft then links |
| Ast.LinkStep | src/ast.c:227-241 | a Link entry of constructLeft's walk adds its node as the next child and skips its shift |
| Ast.SkipStep | src/ast.c:226-243 | any other entry adds no child |
| Ast.LinkChild | src/ast.c:230-240 | one Node_set of constructLeft, with a label cut to uint16_t, puts the child after the children already linked, with its label, and keeps the node's tag, position, length and value |
| Ast.BuildsAtEnd | src/ast.c:315 | the node built at the end of a walk without pushes, pops and folds is the one the specification Builds describes |
| Ast.FirstNew | src/ast.c:348-355 | the index of the first New entry, or -1 exactly when the log has none |
| Ast.AstMachine.Init | src/ast.c:55-64 | AstMachine_init gives an empty log with room for log_size entries, no last linked node, no parsed node, and the given source |
| Ast.AstMachine.SaveTx | src/ast.h:69-72 | ast_save_tx is the number of log entries |
| Ast.AstMachine.Log | src/ast.c:128-142 | ast_log appends one entry of the given kind, value and position with shift 0 |
| Ast.AstMachine.LogNew | src/ast.c:144-147 | appends a New entry at pos |
| Ast.AstMachine.LogCapture | src/ast.c:149-152 | appends a Capture entry at pos |
| Ast.AstMachine.LogTag | src/ast.c:154-157 | appends a Tag entry holding the tag |
| Ast.AstMachine.LogReplace | src/ast.c:159-162 | appends a Replace entry holding the string |
| Ast.AstMachine.LogSwap | src/ast.c:164-167 | appends a LeftFold entry at pos holding labelId |
| Ast.AstMachine.LogPush | src/ast.c:169-172 | appends a Push entry |
| Ast.AstMachine.LogPop | src/ast.c:174-177 | appends a Pop entry holding labelId |
| Ast.AstMachine.LogLink | src/ast.c:179-188 | appends a Link entry holding the node under labelId, and that node becomes the last linked node |
| Ast.AstMachine.RollbackTx | src/ast.c:190-209 | the log is cut back to its first tx entries |
| Ast.AstMachine.ConstructLeft | src/ast.c:211-245 | a fresh node over [spos, epos) with the tag and value; with objSize 0 it has no children, otherwise its children are the nodes of the Link entries between cur and the end, in log order; ok is false exactly when one of those Links holds a null node, where `assert(child != NULL)` stops |
| Ast.AstMachine.LinkAll | src/ast.c:226-243 | constructLeft's loop sets each linked node as the next child, from child 0, leaving the node's other fields alone; ok is false exactly when a visited Link holds a null node (the assertion at 238) |
| Ast.AstMachine.FoldLeft | src/ast.c:282-294 | a left fold builds the node so far and rewrites the LeftFold entry into a Link to it, labelled with the fold's label; ok is false exactly when constructLeft meets a null child |
| Ast.AstMachine.ClosePush | src/ast.c:295-303 | a pop builds the group's node and rewrites the push entry into a Link to it, labelled with the pop's label and shifted to the pop; ok is false exactly when there is no push entry (`assert(pushed != NULL)`) or constructLeft meets a null child |
| Ast.AstMachine.Nest | src/ast.c:304-312 | a push builds its group, then the walk goes on past the entry the rewritten push's shift reaches, and no earlier entry changes; ok is false exactly when the nested call stopped or left the entry other than a Link (`assert(GetTag(cur) == TypeLink)`) |
| Ast.AstMachine.Step | src/ast.c:263-313 | one turn of ast_create_node's loop moves forward; without nesting it is exactly one step of the specification walk with ok true, and only a pop ends with a node; at a fold or pop ok is false exactly when its assertion fails, at a push it is false when the entry is left other than a Link |
| Ast.AstMachine.CreateNode | src/ast.c:247-317 | ast_create_node keeps the log's length, changes no entry before cur except the push it closes, and on a log without pushes, pops and folds builds the node that Builds describes, with ok false exactly when a linked node is null |
| Ast.AstMachine.CommitTx | src/ast.c:319-333 | commit builds the node of the entries from tx on, cuts them, and logs exactly one Link to that node under labelId, which becomes the last linked node; on a flat log ok is false exactly when a linked node is null |
| Ast.AstMachine.GetParsedNode | src/ast.c:335-360 | returns the cached node when there is one; for an empty log NULL; otherwise the node of the first New entry (NULL without one) and the log is emptied and the node cached; ok is true unless create_node stops, and on a flat log false exactly when a linked node is null |
| AstTest.NoNodes | src/ast.c:190-209 | a log with no linked node refers to no node |
| AstTest.ListFacts | test/test_ast.c:62-85 | the log before the list commit has the eight entries the test logs, with its nodes among the three it linked |
| AstTest.WalkString | test/test_ast.c:52-55 | the walk of the first commit ends over 3..6 with tag String and no children |
| AstTest.BuildsString | test/test_ast.c:55-60 | that commit builds #String over 3..6 with no children |
| AstTest.StringLog | test/test_ast.c:43-54 | the first five log calls leave exactly the five entries new(0), new(2), new(3), tag(String), capture(6) |
| AstTest.CommitString | test/test_ast.c:50-60 | commit_tx(2) links #String of length 3 at 3 with no children, leaving three entries, and no assertion stops it |
| AstTest.ListHead | test/test_ast.c:50-62 | after the first commit and new(10) the log is the four entries the test expects |
| AstTest.ListLog | test/test_ast.c:62-85 | the log of the fourth commit holds the two integer Links, the List tag and capture(19) |
| AstTest.WalkList | test/test_ast.c:85 | the walk of the list commit ends over 10..19 with tag List and two children, the two integer nodes in order |
| AstTest.BuildsList | test/test_ast.c:85-94 | that commit builds #List over 10..19 whose children are the two integers in order |
| AstTest.NoNullList | test/test_ast.c:85-94 | neither node the list commit links is null, so constructLeft's assertion holds |
| AstTest.CommitList | test/test_ast.c:83-94 | commit_tx(3) links #List of length 9 at 10 with two children, elm0 then elm1, and no assertion stops it |
| Ast.AstMachine.ParseFirst | src/ast.c:347-355 | without a New entry the result is NULL; otherwise a fresh valid node of the first New entry, which on a flat log is built from that entry on and has ok exactly when no linked node is null |
| Ast.AstMachine.KeepParsed | src/ast.c:356-358 | the log is rolled back to empty, r becomes the parsed node, and r and what it was built from are kept |
| AstTest.LogString | test/test_ast.c:50-54 | on an empty log the five log calls leave exactly new(0), new(2), new(3), tag(String), capture(6) |
| MozVm.Words | src/mozvm.c:223-235 | a frame is stored as five words, FP_FP to FP_SYMTBL |
| MozVm.FrameRoundTrip | src/mozvm.c:230-252 | a frame stored by PUSH_FRAME's layout reads back as itself, and no word outside its five changes |
| MozVm.Size | src/mozvm.c:383-390 | each operand type takes 1 to 4 bytes: one for uint8_t and int8_t, two for the uint16_t ids, four for mozaddr_t |
| MozVm.Encode | src/mozvm.c:383-390 | a value of an operand type is stored in exactly that type's number of bytes |
| MozVm.DecodeEncode | src/mozvm.c:383-390 | every byte string of the right size reads as a value of its type, and that value is stored as the same bytes |
| MozVm.EncodeDecode | src/mozvm.c:383-390 | reading the bytes a value is stored as gives the value back |
| MozVm.Machine.Init | src/mozvm.c:270-280 | a stack of n words with SP, FP, the position, HEAD and PC at 0 |
| MozVm.Machine.PushFrame | src/mozvm.c:230-238 | PUSH_FRAME stores [FP, POS, NEXT, AST, SYMTBL] at SP, sets FP to the old SP and moves SP past the frame, leaving the other registers alone |
| MozVm.Machine.Push | src/mozvm.c:218 | PUSH writes one word at SP and moves SP on by one |
| MozVm.Machine.DropFrame | src/mozvm.c:240-243 | DROP_FRAME sets SP to FP and FP to the FP saved in the frame |
| MozVm.Machine.PopFrame | src/mozvm.c:245-252 | POP_FRAME returns the frame at FP exactly as stored and leaves SP at the old FP |
| MozVm.Machine.Fail | src/mozvm.c:193-208 | the failure path pops a frame; when the saved position lies behind, HEAD becomes the farthest position reached and the position goes back, otherwise both stay; the AST log and the symbol table roll back to the frame's savepoints and PC becomes the frame's failure address |
| MozVm.Machine.ParseInit | src/mozvm.c:264-306 | parse_init pushes a frame for position 0 whose failure address is bytecode_base + 2 (Exit 1) and the current savepoints, then bytecode_base, and returns the given PC |
| MozVm.Machine.Read | src/mozvm.c:383-390 | read_T returns the value of the operand bytes at PC and moves PC past them |
| MozVm.PushPop | src/mozvm.c:230-252 | POP_FRAME after PUSH_FRAME gives back the pushed values and restores SP and FP |
| MozVm.InitThenFail | src/mozvm.c:193-306 | a failure right after parse_init at position 3 resumes at Exit with status 1, HEAD 3, position 0 and an empty stack |
| MozVm.DecodeSamples | src/mozvm.c:384-385 | bytes 34 12 read as the uint16_t 0x1234, and ff as the int8_t -1 |
| MozVm.ReadOperands | src/mozvm.c:384-385 | a uint16_t then an int8_t read in turn give 0x1234 and -1 and move PC by 3 |
| Loader.ToBigEndian | src/loader.c:76-96 | the n bytes of a value, most significant first, as the reads expect them |
| Loader.BigEndianBound | src/loader.c:76-96 | n bytes read most significant first give a value below 2^(8n) |
| Loader.BigEndianAppend | src/loader.c:91-96 | reading a then b is a's value shifted past b's bytes plus b's value, so read32 is read16 << 16 OR read16 |
| Loader.BigEndianRoundTrip | src/loader.c:76-96 | writing a value in n big-endian bytes and reading them back gives the value |
| Loader.AndTop | src/loader.c:276 | for a below 2^(k+1), a & (1 << k) is a's top bit |
| Loader.AndLow | src/loader.c:277 | for a below 2^(k+1), a & ((1 << k) - 1) is a without its top bit |
| Loader.FlagBits | src/loader.c:275-277 | in an instruction byte, has_jump is set exactly when the byte is at least 0x80, and the opcode is the byte modulo 0x80 |
| Loader.Head | src/loader.c:279-289 | the opcode byte is written for every opcode except Nop and Label, which write none |
| Loader.FieldValues | src/loader.c:296-529 | the field values a case reads, one per field, in order |
| Loader.OutBytes | src/loader.c:206-229 | one written operand takes its width in bytes, host (little-endian) order |
| Loader.Emit | src/loader.c:296-529 | the operands a case writes take the sum of their widths |
| Loader.EmitNext | src/loader.c:296-529 | writing one operand more appends exactly its bytes |
| Loader.TableFields | src/loader.c:375-381 | a First instruction reads 257 jump table entries |
| Loader.Operands | src/loader.c:290-530 | the switch of load_inst never reads backwards or past the input, and yields a jump table exactly for First, with 257 entries |
| Loader.ShapeOf | src/loader.c:290-530 | only First reads a jump table, and in every case that translates, each operand written is either a zero or one of the fields that case read |
| Loader.TableOperands | src/loader.c:375-396 | the First case reads 257 entries of 24 bits and keeps them as a jump table |
| Loader.PlainOperands | src/loader.c:290-530 | every other case reads its fields and writes its operands, with no jump table |
| Loader.Translate | src/loader.c:273-538 | load_inst consumes at least the opcode byte and never reads past the input; it yields a jump table exactly for First |
| Loader.TranslateSplit | src/loader.c:273-538 | a loaded instruction is its opcode byte, then its operands, then the trailing Jump when the flag is set |
| Loader.WithJump | src/loader.c:532-537 | with the flag set, 3 more input bytes are consumed, and it fails exactly when they are missing; without it nothing is consumed |
| Loader.JoinWithJump | src/loader.c:532-537 | the trailing Jump written after earlier code extends that code by the same bytes |
| Loader.TrailingJump | src/loader.c:532-537 | the trailing Jump is the Jump opcode and a 32-bit little-endian word holding the 24-bit big-endian target |
| Loader.StoreTable | src/loader.c:375-382 | the first 256 entries of a First table go to the runtime's tables at the slot of its 16-bit id; the tables keep their size; Failure when they end before that slot |
| Loader.LoadOne | src/loader.c:576-582 | one turn of the first loop records where the instruction's output begins in the next index slot, then loads the instruction; Failure when no slot is left |
| Loader.LoadInstsShape | src/loader.c:576-582 | the first loop keeps what was written before, and every offset it records lies between the old and the new end, increasing |
| Loader.LoadInsts | src/loader.c:576-582 | the first loop keeps the code and offsets written before, appends at most to the index table's capacity, and leaves the number of jump tables alone |
| Loader.WrittenSizes | src/loader.c:296-529 | the byte counts of the operand lists the cases write |
| Loader.OpSizeLayout | tool/vmgen.rb:37-52 | opcode_size agrees with the bytes load_inst writes, for every opcode up to Exit that does not trap |
| Loader.OpSize | tool/vmgen.rb:37-52 | opcode_size traps exactly on the opcodes load_inst refuses and past Exit, and is otherwise between 1 and 9 bytes |
| Loader.Patch | src/loader.c:605 | writing a word over code changes exactly those bytes |
| Loader.Rebase | src/loader.c:617-623 | a relocated jump table has as many entries as before |
| Loader.RelocJumpAt | src/loader.c:595-616 | relocating a jump operand keeps the code's length, its earlier bytes and the jump tables |
| Loader.JumpToRet | src/loader.c:597-604 | a Jump whose target is a Ret becomes a Ret; every other byte stays |
| Loader.PatchDistance | src/loader.c:605 | only the 4 bytes before the end of the instruction change |
| Loader.PatchDistanceWord | src/loader.c:605 | the patched word reads back as target - end, modulo 2^32 |
| Loader.RelocTableAt | src/loader.c:617-623 | relocating a First keeps the code and the number of table entries |
| Loader.RelocStep | src/loader.c:586-629 | one turn of the second loop needs a known opcode size, and a jump or First instruction inside the code; it keeps the code's length, its earlier bytes and the tables' size |
| Loader.RelocTableBadEntry | src/loader.c:620-622 | an entry that names no loaded instruction stops relocation |
| Loader.RelocFromNext | src/loader.c:586-629 | the second loop is one step followed by the rest of the loop, and a failing step fails the loop |
| Loader.RelocFrom | src/loader.c:586-629 | relocation keeps the code's length and the number of jump tables |
| Loader.Signed32Word | src/loader.c:605 | a distance that fits an int reads back unchanged from its 32-bit word |
| Loader.RelocJumpWord | src/loader.c:605-615 | a relocated jump operand holds the distance from the end of the instruction to its target, as a 32-bit word |
| Loader.RelocJumpDistance | src/loader.c:605-615 | when that distance fits an int, the operand is exactly table[old] - (j + shift) |
| Loader.RelocJumpOpcode | src/loader.c:595-616 | relocating a jump changes only its operand and, for a Jump to a Ret, its opcode |
| Loader.RelocTable | src/loader.c:617-623 | every relocated table entry holds the distance from the end of the First instruction to its target |
| Loader.RelocFromKeeps | src/loader.c:586-629 | relocation never rewrites the bytes before the instruction it starts at |
| Loader.RelocHeader | src/loader.c:572-629 | relocation passes over the Exit 0, Exit 1 header unchanged |
| Loader.LoadProgramShape | src/loader.c:566-629 | a loaded program starts with Exit 0 and Exit 1; the index table holds increasing offsets past the header and inside the code; the jump tables keep their size |
| Loader.LoadProgram | src/loader.c:566-629 | a loaded program holds at least the header, at most capacity offsets, and as many jump tables as it started with |
| Loader.InputStream.Read8 | src/loader.c:71-74 | read8 returns the byte at pos and advances pos by 1 |
| Loader.InputStream.Read16 | src/loader.c:76-81 | read16 returns the next two bytes, most significant first, and advances by 2 |
| Loader.InputStream.Read24 | src/loader.c:83-89 | read24 returns the next three bytes, most significant first, below 2^24, and advances by 3 |
| Loader.InputStream.Read32 | src/loader.c:91-96 | read32 returns the next four bytes, most significant first, and advances by 4 |
| Loader.InputStream.ReadField | src/loader.c:71-96 | the read of a field's width returns those bytes' value and advances by the width |
| Loader.InputStream.ReadFields | src/loader.c:296-529 | a case's reads return the specification field values and advance past all of them |
| Loader.ThreeBytes | src/loader.c:88 | d1 << 16 OR d2 << 8 OR d3 is the big-endian value of the three bytes |
| Loader.BigEndianNext | src/loader.c:76-96 | one more byte read most significant first shifts the value by 8 and adds the byte |
| Loader.CheckFileType | src/loader.c:836-839 | checkFileType is true exactly when the three bytes are 'N', 'E', 'Z', and reads stop at the first byte that differs |
| Loader.CheckVersion | src/loader.c:841-845 | checkVersion always holds, since every byte is at least version 0, and reads one byte |
| Loader.Loader.Init | src/loader.c:177-183 | mozvm_loader_init: an empty buffer of capacity 4, an index table of inst_size slots, jump table id 0 |
| Loader.Loader.WriteOperand | src/loader.c:206-229 | write8, write16 and write32 append exactly the operand's bytes |
| Loader.Loader.WriteOperands | src/loader.c:296-529 | a case's writes append the specification's operand bytes |
| Loader.Loader.LoadOperands | src/loader.c:290-530 | the switch's reads and writes agree with Operands, and a First takes the next jump table id |
| Loader.Loader.LoadTable | src/loader.c:375-396 | the First case agrees with TableOperands and stores the table in the runtime's tables |
| Loader.Loader.LoadPlain | src/loader.c:290-530 | every other case agrees with PlainOperands |
| Loader.Loader.StoreJumpTable | src/loader.c:378-382 | the memcpy agrees with StoreTable |
| Loader.Loader.WriteJump | src/loader.c:532-537 | the trailing Jump consumes the 3-byte target and appends the TrailingJump bytes |
| Loader.Loader.WriteHead | src/loader.c:275-289 | the opcode is the byte modulo 0x80, has_jump is whether the byte is at least 0x80, and the opcode byte is written exactly as Head says |
| Loader.Loader.WriteTrailing | src/loader.c:532-537 | the trailing step agrees with WithJump |
| Loader.Loader.LoadInst | src/loader.c:273-538 | load_inst agrees with Translate: same output bytes, same input consumed, same jump tables |
| Loader.Loader.WriteDistance | src/loader.c:605-615 | the int before end becomes target - end as PatchDistance describes |
| Loader.Loader.RelocJump | src/loader.c:595-616 | the jump cases of the second loop agree with RelocJumpAt |
| Loader.Loader.RebaseTable | src/loader.c:617-623 | the First case of the second loop agrees with RelocTableAt |
| Loader.Loader.RelocOne | src/loader.c:586-629 | one turn of the second loop advances by opcode_size and agrees with RelocStep |
| Loader.Loader.Relocate | src/loader.c:586-629 | the second loop agrees with RelocFrom from offset 0 |
| Loader.Loader.WriteHeader | src/loader.c:572-575 | the first four bytes written are Exit 0, Exit 1 |
| Loader.Loader.LoadAll | src/loader.c:576-582 | the first loop agrees with LoadInsts and counts the instructions it loads |
| Loader.Loader.Load | src/loader.c:566-629 | mozvm_loader_load agrees with LoadProgram: header, instructions, then relocation |
| Loader.InputStream.constructor | src/loader.c:55-59 | a stream over the input data starts at position 0 |
| RubyText.LStrip | tool/vmgen.rb:21 | what is left after the leading whitespace is a suffix of the string that does not start with whitespace |
| RubyText.RStrip | tool/vmgen.rb:21 | what is left after the trailing whitespace is a prefix of the string that does not end with whitespace |
| RubyText.StripShape | tool/vmgen.rb:19-21 | strip leaves a piece of the string that starts and ends with a kept character |
| RubyText.StripIdempotent | tool/vmgen.rb:19-21 | stripping twice is stripping once |
| RubyText.Strip | tool/vmgen.rb:21 | strip never lengthens a string and leaves one that starts and ends with a kept character |
| RubyText.Fields | tool/vmgen.rb:15 | splitting on a separator gives at least one field, empty ones included |
| RubyText.DropTrailingEmpty | tool/vmgen.rb:15 | String#split without a limit drops the trailing empty fields and keeps the rest in order |
| RubyText.Split | tool/vmgen.rb:15 | split never ends with an empty field, and a string without the separator splits into itself, or into nothing when empty |
| RubyText.FieldsNone | tool/vmgen.rb:15 | a string without the separator is one field |
| RubyText.FieldsCons | tool/vmgen.rb:15 | a field followed by the separator is the first field, and the rest splits on its own |
| RubyText.FieldsJoin | tool/vmgen.rb:15 | splitting what join put together, when no field holds the separator, gives the fields back |
| RubyText.SplitJoin | tool/vmgen.rb:15 | split(",") undoes join(",") when no field holds a comma and the last field is not empty |
| RubyText.Join | tool/vmgen.rb:44 | join starts with the first element |
| RubyText.TakeWord | tool/vmgen.rb:19-22 | the first word is the longest blank-free prefix of the string |
| RubyText.Words | tool/vmgen.rb:19-22 | split(" ") gives the non-empty blank-free words, ignoring leading, trailing and repeated blanks |
| RubyText.WordsSkip | tool/vmgen.rb:19-22 | blanks before the words change nothing |
| RubyText.FirstWord | tool/vmgen.rb:19 | the first word of a string that starts with word w followed by a blank is w |
| RubyText.FirstWordOr | tool/vmgen.rb:22-23 | the type is the first word, or empty exactly when there is none (nil interpolates as "") |
| RubyText.Puts | tool/vmgen.rb:18-30 | puts writes the string and a newline, unless it already ends with one; the output always ends with a newline |
| RubyText.LineEnd | tool/vmgen.rb:13 | a line runs to just after its newline, or to the end of the text |
| RubyText.LinesFromConcat | tool/vmgen.rb:13 | the lines gets returns, put back together, are the text, and each is one line |
| RubyText.LinesFrom | tool/vmgen.rb:13 | every piece gets returns is one line: it holds a newline only at its end |
| RubyText.Reader.constructor | tool/vmgen.rb:11 | a file opens positioned at its start |
| RubyText.Reader.Gets | tool/vmgen.rb:13 | gets returns the next line including its newline and moves past it, or nil at the end |
| VmGen.UpToNewline | tool/vmgen.rb:14 | the part of a line before its first newline, which is what `.` can match |
| VmGen.LastIndex | tool/vmgen.rb:14 | the last position of a character in a string, or none exactly when it does not occur |
| VmGen.DefMatchShape | tool/vmgen.rb:14 | a matching line is "DEF(", the group, ")" and then no ")" before the newline: the greedy group ends at the last ")" |
| VmGen.DefMatchOf | tool/vmgen.rb:14 | conversely "DEF(" + b + ")" with no ")" after it before the newline matches with group b |
| VmGen.ParseDef | tool/vmgen.rb:15-19 | a parsed definition has one type per operand declaration; it fails where a declaration has no word (nil.strip raises) |
| VmGen.TypesOf | tool/vmgen.rb:19 | one type per operand declaration, its first word stripped |
| VmGen.ReadLinesSnoc | tool/vmgen.rb:20-24 | one more operand declaration appends its read line |
| VmGen.LineOut | tool/vmgen.rb:14-31 | one turn of the loop: a DEF line adds exactly one types entry and fails exactly when ParseDef does; "{\n" writes nothing; "}\n" writes NEXT(); and "}"; any other line is copied |
| VmGen.GenerateAppend | tool/vmgen.rb:13-33 | the lines are handled independently: the output for a + b is a's output followed by b's, and it fails when either part does |
| VmGen.DefLines | tool/vmgen.rb:14 | the DEF lines of the input, in order |
| VmGen.GenerateDefs | tool/vmgen.rb:13-33 | types holds one entry per DEF line, the i-th entry parsed from the i-th DEF line |
| VmGen.Sizeofs | tool/vmgen.rb:44 | one sizeof term per operand type |
| VmGen.SizeExprTerms | tool/vmgen.rb:44 | an instruction's size is the header size plus one sizeof per operand, in operand order |
| VmGen.BareSizeCase | tool/vmgen.rb:44-45 | an operand-less instruction's case returns the header size alone |
| VmGen.SizeCasesAppend | tool/vmgen.rb:42-46 | the size table has one case line per types entry, in order |
| VmGen.SizeCasesSnoc | tool/vmgen.rb:42-46 | one more types entry appends its case line |
| VmGen.DefRoundTrip | tool/vmgen.rb:14-24 | a DEF line written from an opcode and its operand declarations reads back as that opcode, those declarations and their types, when none holds a comma or a newline, the last is not empty and each has a word |
| VmGen.RoundTripMatch | tool/vmgen.rb:14 | a DEF line over newline-free pieces matches with the comma-joined pieces as its group |
| VmGen.RoundTripParse | tool/vmgen.rb:15-19 | the group of joined pieces parses back into those pieces |
| VmGen.CaseHeader | tool/vmgen.rb:18 | the case header already ends with "{" and puts adds just the newline |
| VmGen.JoinNoChar | tool/vmgen.rb:15 | joining pieces without a character, with a separator without it, gives a string without it |
| VmGen.OperandTypes | tool/vmgen.rb:19 | the map of first words succeeds exactly when every declaration has a word, and then gives TypesOf |
| VmGen.Generator.constructor | tool/vmgen.rb:3-9 | empty outputs, empty types and $line 0 |
| VmGen.Generator.Line | tool/vmgen.rb:13-32 | the loop body agrees with LineOut: it appends its text to the vmcore output and its entry to types, and advances $line |
| VmGen.Generator.WriteDef | tool/vmgen.rb:15-24 | a DEF line writes the case header and one read per operand, and adds its types entry; it fails exactly when ParseDef does |
| VmGen.Generator.WriteReads | tool/vmgen.rb:20-24 | each operand declaration writes TAB + the stripped declaration + " = read_<type>(PC);" |
| VmGen.Generator.WriteSizeTable | tool/vmgen.rb:35-53 | the vminst output is the first heredoc, the cases and the second heredoc |
| VmGen.Generator.WriteCases | tool/vmgen.rb:42-46 | one case line per types entry |
| VmGen.Generator.Run | tool/vmgen.rb:11-54 | the script's outputs are exactly Generate's vmcore text and SizeTable of its types, or it fails where Generate does |
| VmGen.Generator.ReadAll | tool/vmgen.rb:13-33 | the gets loop agrees with Generate over the lines of the file |
| VmGen.GenerateFails | tool/vmgen.rb:13-33 | a line that makes the script raise makes the whole run fail |
| VmGen.GenerateNext | tool/vmgen.rb:13-33 | one more line extends the output and types by that line's own |
| VmGenLegacy.FindDef | vmgen.rb:9 | the first position at or after p where "DEF(" starts, with none before it |
| VmGenLegacy.LegacyMatchAnchored | vmgen.rb:9 | on a line that starts with "DEF(", the unanchored pattern matches as the anchored one of tool/vmgen.rb does |
| VmGenLegacy.LegacyMatchesInside | vmgen.rb:9 | "x DEF(A)" is a definition for vmgen.rb and an ordinary line for tool/vmgen.rb |
| VmGenLegacy.LegacyReadLinesSnoc | vmgen.rb:15-18 | one more operand declaration appends its read line |
| VmGenLegacy.LegacyCaseHeader | vmgen.rb:13 | the one-line case header gets a newline from puts |
| VmGenLegacy.LegacyLineOut | vmgen.rb:9-26 | one turn of the loop: a definition line adds exactly one types entry and fails exactly when ParseDef does; "{\n" writes nothing; "}\n" writes NEXT(); and "}"; any other line is copied |
| VmGenLegacy.LegacyGenerateNext | vmgen.rb:8-27 | one more line extends the output and types by that line's own |
| VmGenLegacy.LegacyGenerateFails | vmgen.rb:8-27 | a failed run stays failed whatever lines follow |
| VmGenLegacy.LegacyLineFails | vmgen.rb:8-27 | a line that makes the script raise makes the whole run fail |
| VmGenLegacy.LegacyDefLines | vmgen.rb:9 | the definition lines of the input, in order |
| VmGenLegacy.LegacyGenerateDefs | vmgen.rb:8-27 | types holds one entry per definition line, in order |
| VmGenLegacy.LegacySizeExprTerms | vmgen.rb:39 | the header counts as 1: the size is 1 plus one sizeof per operand, and 1 for an operand-less instruction |
| VmGenLegacy.LegacySizeCasesSnoc | vmgen.rb:37-41 | one more types entry appends its case line |
| VmGenLegacy.LegacyGenerator.constructor | vmgen.rb:3-6 | empty outputs, empty types and $line 0 |
| VmGenLegacy.LegacyGenerator.Line | vmgen.rb:8-26 | the loop body agrees with LegacyLineOut |
| VmGenLegacy.LegacyGenerator.WriteDef | vmgen.rb:10-18 | a definition writes the one-line case header and one read per operand, adds its types entry, and fails exactly when ParseDef does |
| VmGenLegacy.LegacyGenerator.WriteReads | vmgen.rb:15-18 | each declaration writes TAB + the declaration unstripped + " = read_<type>(PC);" |
| VmGenLegacy.LegacyGenerator.WriteSizeTable | vmgen.rb:30-48 | src/vm_inst.h is the first heredoc, the cases and the second heredoc |
| VmGenLegacy.LegacyGenerator.WriteCases | vmgen.rb:37-41 | one case line per types entry |
| VmGenLegacy.LegacyGenerator.Run | vmgen.rb:7-48 | the script's outputs are exactly LegacyGenerate's text and LegacySizeTable of its types, or it fails where LegacyGenerate does |
| VmGenLegacy.LegacyGenerator.ReadAll | vmgen.rb:8-27 | the gets loop agrees with LegacyGenerate over the lines of the file |
| VmGen.PlainText | tool/vmgen.rb:25-31 | a line that is not a definition writes nothing for "{\n", NEXT(); and "}" for "}\n", and any other newline-terminated line unchanged |
| VmGen.Generator.PassThrough | tool/vmgen.rb:25-31 | the three branches append exactly PlainText of the line to the vmcore output |
| VmGenLegacy.LegacyGenerator.PassThrough | vmgen.rb:19-25 | the three branches append exactly PlainText of the line to standard output |
| RubyText.GetsStep | tool/vmgen.rb:13 | one more gets on the lines from pos returns the next line and leaves the rest from its end, or nil when the text is used up |
| Grammar.Complement | src/core/bitset.h:85-91 | bitset_flip leaves exactly the bytes below 256 that were not in the set |
| Grammar.Match | src/compiler/expression.h:19-49 | the recognition reading of every node kind: a match never moves backwards and never passes the end of the input |
| Grammar.IsPatternMatchOnly | src/compiler/expression.c:37-67 | a pattern-only expression is never a rule reference, a Tree, a Symbol or a Scope node |
| Grammar.MatchSeq | src/compiler/expression.h:19-49 | a Sequence matches its children one after another, ending between its start and the end of the input |
| Grammar.MatchChoice | src/compiler/expression.h:19-49 | a Choice takes the first alternative that does not fail, ending between its start and the end of the input |
| Grammar.MatchRep | src/compiler/expression.h:19-49 | a Repetition repeats its children until a round fails or consumes nothing (the stop on no progress is this reading's own choice, which keeps it total; the node kinds give no rule for it), ending between its start and the end of the input |
| Grammar.RefinesTrans | src/compiler/expression.c:1281-1289 | rewriting twice keeps the language when each rewrite does (refinement is transitive) |
| Grammar.ListRefinesRefl | src/compiler/expression.c:1150-1237 | a child list left as it is refines itself |
| Grammar.ListRefinesTrans | src/compiler/expression.c:1150-1237 | successive rewrites of a child list compose |
| Grammar.MatchSeqAppend | src/compiler/expression.c:1150-1237 | matching two joined lists is matching the first, then the second from where it stopped, with failure and unknown outcomes passed on |
| Grammar.Replace | src/compiler/expression.c:1150-1237 | replacing a slice of a Sequence's list by a slice that refines it refines the whole list |
| Grammar.Single | src/compiler/expression.c:1150-1237 | one child refined in place refines the one-child list |
| Grammar.PointwiseSeq | src/compiler/expression.c:967-983 | a list whose children are each refined matches as a sequence exactly as before wherever the old outcome was known |
| Grammar.PointwiseChoice | src/compiler/expression.c:967-983 | a list whose children are each refined matches as a choice exactly as before wherever the old outcome was known |
| Grammar.PointwiseList | src/compiler/expression.c:967-983 | optimising each child in place refines the list |
| Grammar.RepListRefines | src/compiler/expression.c:1269-1278 | a refined child list repeats exactly as before wherever the old outcome was known |
| Grammar.UnaryCongruence | src/compiler/expression.c:949-965 | optimising the child of And, Not, Option, Xblock, Xlocal or Xsymbol in place refines the node |
| Grammar.SequenceCongruence | src/compiler/expression.c:1239-1267 | a Sequence over a refined list refines the Sequence |
| Grammar.RepetitionCongruence | src/compiler/expression.c:1269-1278 | a Repetition over a refined list refines the Repetition |
| Grammar.ChoiceCongruence | src/compiler/expression.c:1058-1064 | a Choice whose alternatives are each refined refines the Choice |
| Grammar.One | src/compiler/expression.c:1261-1265 | a one-child list matches exactly as its child |
| Grammar.Two | src/compiler/expression.c:1167-1185 | a two-child list matches the first child, then the second from where it stopped |
| Grammar.ConcatBytes | src/compiler/expression.c:1141-1148 | two Bytes in a row may be replaced by the two-byte Str concatByte builds |
| Grammar.AtAppend | src/compiler/expression.c:1127-1139 | the input holds s+t at a position exactly when it holds s there and t right after |
| Grammar.ConcatStrings | src/compiler/expression.c:1127-1139 | two Strs in a row may be replaced by the Str of their concatenation |
| Grammar.AppendByte | src/compiler/expression.c:1187-1199 | a Str followed by a Byte may be replaced by the Str with the byte appended |
| Grammar.NotByteAny | src/compiler/expression.c:1218-1233 | the pair Not(Byte b), Any may be replaced by the Set of every byte but b |
| Grammar.Flatten | src/compiler/expression.c:1107-1125 | a nested Sequence may be replaced by its children spliced into its place |
| Grammar.DropEmpty | src/compiler/expression.c:1252-1259 | an Empty child contributes nothing to a Sequence and may be removed |
| Grammar.SequenceOfOne | src/compiler/expression.c:1261-1265 | a Sequence of one child may be replaced by that child |
| Grammar.ChoiceOfOne | src/compiler/expression.c:1065-1070 | a Choice of one alternative may be replaced by that alternative |
| Grammar.InlineRefines | src/compiler/expression.c:978-983 | a rule reference has no outcome of its own in the recognition reading, so refinement allows any body; which body inlining puts in is stated by Optimizer.Compiler.InvokeOptimize |
| Grammar.BytesOf | src/compiler/expression.c:1048-1056 | the bytes put_byte and put_set add for one alternative: the byte of a Byte, the members of a Set |
| Grammar.UnionOf | src/compiler/expression.c:1071-1100 | the union the byte map builds holds a byte exactly when some alternative accepts it |
| Grammar.ChoiceOfBytes | src/compiler/expression.c:1071-1100 | a choice of bytes and sets matches everywhere as the Set of their union |
| Grammar.ByteMap | src/compiler/expression.c:1071-1100 | a Choice of Byte and Set alternatives may be replaced by the one Set of their union |
| Grammar.AllPatternMatchOnlyEach | src/compiler/expression.c:56-62 | the loop over a list answers true exactly when isPatternMatchOnly holds of every child |
| Grammar.PatternDecided | src/compiler/expression.c:37-67 | an expression isPatternMatchOnly accepts has a known outcome at every position, so inlining it never depends on a rule or a symbol table |
| Grammar.SeqDecided | src/compiler/expression.c:56-62 | a list of pattern-only children has a known outcome as a sequence |
| Grammar.ChoiceDecided | src/compiler/expression.c:56-62 | a list of pattern-only children has a known outcome as a choice |
| Grammar.RepDecided | src/compiler/expression.c:56-62 | a list of pattern-only children has a known outcome as a repetition |
| ClassSet.Bounds | src/compiler/expression.c:503-534 | the two endpoints stored for a class item: a single character twice, a range's two characters in ascending order |
| ClassSet.RangeSet | src/compiler/expression.c:169-171 | the bytes a range sets are exactly those between its endpoints, both included |
| ClassSet.PairsSetMembers | src/compiler/expression.c:157-179 | a byte is in the Set exactly when some stored pair covers it |
| ClassSet.GuardAsWrittenExample | src/compiler/expression.c:166-168 | the guard `ch1 > 256 OR ch2 > 256` lets the range 256-256 through although 256 is outside the bitset; the intended guard refuses it |
| ClassSet.GuardInBitset | src/compiler/expression.c:166-171 | with the guard corrected to refuse values past 255, every byte a passing range sets lies inside the bitset |
| ClassSet.AddRanges | src/compiler/expression.c:163-177 | the range loop succeeds exactly when every pair passes the guard, and then adds exactly the bytes of all pairs to the members already set |
| ClassSet.SetRange | src/compiler/expression.c:169-171 | the inner loop adds exactly the bytes from lo to hi |
| ClassSet.NewSet | src/compiler/expression.c:157-179 | moz_expr_new_Set succeeds exactly when every range passes the guard, and then holds exactly the bytes of all ranges |
| ClassSet.Pairs | src/compiler/expression.c:503-534 | the pair list has one entry per item, in order, each that item's endpoints |
| ClassSet.ClassResult | src/compiler/expression.c:503-534 | a class that compiles is non-empty, has only Class and List children, and gives a Set |
| ClassSet.ClassMembers | src/compiler/expression.c:503-534 | the compiled Set holds a byte exactly when some child's range covers it |
| ClassSet.ClassResultSucceeds | src/compiler/expression.c:503-534 | a class compiles exactly when it has a child, every child is a Class or List node, and no endpoint passes 255 |
| ClassSet.CompileSet | src/compiler/expression.c:503-534 | the method reading the children and calling moz_expr_new_Set gives exactly ClassResult |
| ClassSet.CompileSetAst | src/compiler/ast.c:213-262 | ast.c's compile_Set, which sets a single character at once, gives the same result as expression.c's |
| ClassSet.AstPrefixStep | src/compiler/ast.c:213-262 | an item of ast.c's loop that is not of another tag extends the loop's invariant: its endpoints are appended and the bytes so far grow by exactly its range |
| ClassSet.SingleOutOfRange | src/compiler/expression.c:503-534 | a single character past 255 makes the whole class fail, as the range guard refuses it |
| ClassSet.CompilerClassResult | src/compiler/compiler.c:271-307 | a class compiler.c compiles has only Class and List children and gives a Set |
| ClassSet.BoundsBelow256 | src/compiler/compiler.c:271-307 | without \u escapes every endpoint is a byte, so every range passes the guard |
| ClassSet.CompilerItem | src/compiler/compiler.c:271-307 | one child fails exactly when it has another tag or a \u escape, else it adds exactly the bytes of its range |
| ClassSet.CompileSetCompiler | src/compiler/compiler.c:271-307 | the loop setting each child in the bitset as it is read gives exactly CompilerClassResult |
| ClassSet.CompilerItemFails | src/compiler/compiler.c:271-307 | one failing child makes the whole class fail |
| ClassSet.CompilerPrefixStep | src/compiler/compiler.c:271-307 | an accepted child extends the loop's invariant: the bytes so far grow by exactly its range |
| ClassSet.CompilerClassMembers | src/compiler/compiler.c:271-307 | the Set compiler.c builds holds a byte exactly when some child's range covers it |
| ClassSet.CompilersAgree | src/compiler/compiler.c:271-307 | compiler.c and expression.c give the same Set for every non-empty class without a \u escape |
| CharClass.ToHex | src/compiler/expression.c:11-17 | to_hex gives a value below 16 exactly for a hexadecimal digit, and the all-ones 32-bit word (unsigned -1) otherwise |
| CharClass.ToHexOfHexChar | src/compiler/expression.c:11-17 | every lower-case digit reads back as its value |
| CharClass.ToHexUpper | src/compiler/expression.c:11-17 | upper-case A-F read as 10-15 |
| CharClass.OrAllOnes | src/compiler/expression.c:431-435 | or-ing the all-ones value of n bits into a smaller value gives all ones |
| CharClass.HexEscapeAsWritten | src/compiler/expression.c:431-435 | as written, the 8-bit `c = c << 8 OR to_hex(...)` keeps only the low digit's value, whatever the high digit is |
| CharClass.HexEscape | src/compiler/expression.c:431-435 | with the shift corrected to 4, two hexadecimal digits give the byte whose high nibble is the first digit's value and whose low nibble is the second's |
| CharClass.ShiftedLowByte | src/compiler/expression.c:431-435 | a byte shifted left by 8 and or-ed with a digit leaves that digit as the low byte |
| CharClass.HexEscapeAsWrittenExample | src/compiler/expression.c:431-435 | whenever the high digit is not 0 the escape as written differs from the intended byte 16*high+low |
| CharClass.HexEscapeRoundTrip | src/compiler/expression.c:431-435 | with the shift corrected to 4, the two digits of every byte read back as that byte |
| CharClass.LetterOf | src/compiler/expression.c:404-439 | the escape letter of a control byte names that byte |
| CharClass.LetterOfControl | src/compiler/expression.c:404-439 | every letter that names a control byte is that byte's letter |
| CharClass.Unescape | src/compiler/expression.c:404-439 | the byte a backslash and letter stand for: a control letter gives the control byte whose letter it is, any other byte stands for itself |
| CharClass.ParseEscapedChar | src/compiler/expression.c:404-439 | parseEscapedChar knows an escape exactly when a backslash is followed by a backslash, x or a control letter; a \x escape reads as its two digits under the corrected shift and as the low digit alone as written |
| CharClass.EscapeOf | src/compiler/expression.c:404-439 | every byte has an escape, starting with a backslash |
| CharClass.EscapeRoundTrip | src/compiler/expression.c:404-439 | every byte's escape reads back as that byte under the corrected shift, whatever follows; as written, a \x escape reads back as the byte modulo 16, so exactly the bytes with a letter escape or below 16 round-trip |
| CharClass.ParseUnicode4 | src/compiler/expression.c:458-466 | four digits read in unsigned arithmetic give a 32-bit value |
| CharClass.Unicode4RoundTrip | src/compiler/expression.c:458-466 | every 16-bit value written as four digits reads back as itself |
| CharClass.ParseClass | src/compiler/expression.c:468-501 | a class item without \u gives a byte, a plain byte stands for itself, and a \x item reads as two digits under the corrected shift and as the low digit alone as written |
| CharClass.ClassAgreesWithEscape | src/compiler/expression.c:468-501 | parseClass and parseEscapedChar agree on every escape both know, under either reading of \x |
| CharClass.ClassEscape | src/compiler/expression.c:468-501 | every byte can be written as a class item |
| CharClass.ClassRoundTrip | src/compiler/expression.c:468-501 | every byte written as a class item reads back as that byte under the corrected shift, whatever follows; as written a \x item reads back as the byte modulo 16, so exactly the bytes written without \x or below 16 round-trip |
| CharClass.ClassUnicode | src/compiler/expression.c:496-497 | \u and four digits read as the 16-bit value they spell, under either reading of \x |
| CharClass.ParseClassNoUnicode | src/compiler/compiler.c:232-269 | compiler.c's parseClass fails exactly on a \u escape and otherwise agrees with expression.c's under the same reading of \x, giving a byte |
| CharClass.CompileByte | src/compiler/expression.c:441-456 | a Character token compiles to Empty exactly when it is empty, to its byte when it has one, to the escaped byte when it starts with a known escape, and otherwise to the Str of its bytes |
| CharClass.CompileByteOfEscape | src/compiler/expression.c:441-456 | a Character literal holding one byte compiles to that byte; one holding a byte's escape compiles to that byte under the corrected shift, and as written to the byte modulo 16 when the escape is \x |
| CharClass.CompileByteAstAsWritten | src/compiler/ast.c:144-158 | as written, the token is a Byte exactly when it has one byte or two starting with a backslash, and that Byte is its first byte, so a backslash pair compiles to the backslash itself; Empty exactly for an empty token; otherwise the Str of its bytes |
| CharClass.CompileByteAst | src/compiler/ast.c:144-158 | as intended: Empty exactly for an empty token; a one-byte token gives Byte of that byte; a backslash pair gives Byte of the byte the letter escapes; every longer token, and a two-byte one without a backslash, gives the Str of its bytes |
| CharClass.CompileByteAstExample | src/compiler/ast.c:150-153 | '\n' compiles to a backslash as written and to the newline byte as intended |
| CharClass.CompileByteAstAgrees | src/compiler/ast.c:144-158 | as intended, ast.c compiles every two-byte escape to the byte it escapes, as expression.c does under either reading of \x |
| SequenceOpt.StrLoop | src/compiler/expression.c:1187-1216 | the Str loop, for the reference count of the node `child` names, keeps the children before index i and at least the child at i, and never lengthens the list |
| SequenceOpt.StrLoopShrinks | src/compiler/expression.c:1187-1216 | the Str loop only removes children after index i, so what follows i never grows |
| SequenceOpt.StepAt | src/compiler/expression.c:1153-1235 | one turn of the pass leaves the children before index i unchanged |
| SequenceOpt.StepShrinks | src/compiler/expression.c:1153-1235 | after one turn what follows index i is smaller than what stood at i and after it, so the pass ends |
| SequenceOpt.PassFrom | src/compiler/expression.c:1150-1237 | the pass from index i leaves the children before i unchanged |
| SequenceOpt.MergeStrings | src/compiler/expression.c:1187-1216 | the imperative Str loop ends with the list and flag StrLoop gives for the node's reference count, leaves a non-Str child and the list alone, and never turns `child` into a Not |
| SequenceOpt.Step | src/compiler/expression.c:1153-1235 | the imperative loop body ends with the list and flag StepAt gives |
| SequenceOpt.SequencePass | src/compiler/expression.c:1150-1237 | the imperative _moz_Sequence_optimize ends with the list and flag Pass gives |
| SequenceOpt.Pass | src/compiler/expression.c:1150-1237 | a pass that reports no change leaves the list as it was, and a pass that reads `child` again or sweeps the released node keeps the language |
| SequenceOpt.StrLoopUnmodified | src/compiler/expression.c:1187-1216 | a Str loop that reports no change leaves the list as it was |
| SequenceOpt.PassUnmodified | src/compiler/expression.c:1150-1237 | a pass that reports no change leaves the list as it was |
| SequenceOpt.StrLoopRefines | src/compiler/expression.c:1187-1216 | when `child` is read again after concatString, or the released node is swept, the Str loop keeps the language of the list |
| SequenceOpt.StepRefines | src/compiler/expression.c:1153-1235 | when `child` is read again after concatString, or the released node is swept, one turn keeps the language of the list |
| SequenceOpt.PassRefines | src/compiler/expression.c:1150-1237 | when `child` is read again after concatString, or the released node is swept, the pass from any index keeps the language of the list |
| SequenceOpt.SequencePassRefines | src/compiler/expression.c:1150-1237 | the pass of ast.c, the pass of expression.c as written on Strs the list alone holds, and the corrected pass of expression.c all keep the language of a Sequence |
| SequenceOpt.DroppedByteExample | src/compiler/expression.c:1199-1212 | as written, with the first Str also held elsewhere, ["a", "b", 'c'] becomes ["ab"]: the byte goes to the old node and leaves the list, and the Sequence no longer matches "abc" |
| SequenceOpt.SweptExample | src/compiler/expression.c:1199-1212 | as written, with the first Str held by the list alone, the release sweeps it: ["a", "b", 'c'] becomes ["ab", 'c'] with the byte left for the next pass |
| SequenceOpt.MergedExample | src/compiler/expression.c:1187-1216 | with `child` read again, the same list becomes the one Str "abc" |
| SequenceOpt.WithoutEmpty | src/compiler/expression.c:1252-1259 | the children left by the backward loop hold no Empty and are no more than before |
| SequenceOpt.WithoutEmptyMembers | src/compiler/expression.c:1252-1259 | a child is kept exactly when it is not Empty |
| SequenceOpt.WithoutEmptyRefines | src/compiler/expression.c:1252-1259 | dropping the Empty children keeps the language of the list |
| SequenceOpt.RemoveEmpty | src/compiler/expression.c:1252-1259 | the backward loop leaves exactly the non-Empty children in order, and reports a change exactly when there was an Empty child |
| SequenceOpt.SequenceRewrite | src/compiler/expression.c:1239-1267 | moz_Sequence_optimize after the children gives the pass, then the removal of Empty, then the one-child collapse, with the change flag set accordingly |
| SequenceOpt.SequenceRewriteRefines | src/compiler/ast.c:933-956 | whenever the pass keeps the language, the whole Sequence rewrite keeps the language of the Sequence, and reports no change only when the Sequence is unchanged |
| ChoiceOpt.UseByteMap | src/compiler/expression.c:1027-1046 | useByteMapOptimization answers true exactly when every alternative is a Byte, a Set, or Not of one of them |
| ChoiceOpt.ByteMapSet | src/compiler/expression.c:1071-1100 | the byte-map loop stops on its assertion exactly when some alternative is a Not, and otherwise builds exactly the union of the alternatives' bytes |
| ChoiceOpt.ChoiceRewrite | src/compiler/ast.c:775-819 | a Choice of one alternative becomes it; an all-bytes Choice becomes the Set of exactly their union; the assertion fires exactly on a Not; every result refines the Choice |
| Optimizer.ExpressionInlines | src/compiler/expression.c:985-1013 | expression.c inlines exactly a declaration of count 2 or with a pattern-only body, and never traps |
| Optimizer.AstInlines | src/compiler/ast.c:706-730 | ast.c inlines exactly a declaration of count 1 or with a pattern-only body, and never traps |
| Optimizer.CompilerInlines | src/compiler/compiler.c:750-774 | compiler.c traps exactly on count 1 and otherwise inlines exactly the bodies of type Empty, Any, Byte, Str, Set or Fail |
| Optimizer.InlineRule | src/compiler/expression.c:985-1013 | only compiler.c on a count of 1 traps, and a body of type Empty, Any, Byte, Str, Set or Fail is always inlined when there is no trap |
| Optimizer.LastNamedSpec | src/compiler/compiler.c:155-171 | compiler.c's binder finds the last declaration of that name, and none exactly when no declaration has it |
| Optimizer.LastNamed | src/compiler/compiler.c:155-171 | the binder only finds a declaration in the table that has that name |
| Optimizer.FirstNamedSpec | src/compiler/expression.c:360-373 | expression.c's binder finds the first declaration of that name, and none exactly when no declaration has it |
| Optimizer.FirstNamed | src/compiler/expression.c:360-373 | the binder only finds a declaration in the table that has that name |
| Optimizer.BindersAgree | src/compiler/expression.c:360-373 | with one declaration per name the first and last binders give the same declaration |
| Optimizer.Unused | src/compiler/expression.c:1299-1316 | the noted declarations are entries of the table |
| Optimizer.UnusedMembers | src/compiler/expression.c:1306-1311 | a declaration is noted exactly when it is in the table and its count is 1 |
| Optimizer.RemoveFirstMembers | src/core/karray.h:112-122 | ARRAY_remove_element on a table without repeats removes that entry and nothing else, leaving no repeats |
| Optimizer.RemoveEachMembers | src/compiler/expression.c:1313-1315 | removing each noted declaration leaves exactly the others, without repeats |
| Optimizer.RemoveEachKeepsTable | src/compiler/expression.c:1313-1315 | what is left are still entries of the table |
| Optimizer.RemoveEachLoop | src/compiler/expression.c:1313-1315 | the loop calling ARRAY_remove_element on each noted declaration leaves exactly RemoveEach of the table |
| Optimizer.UnusedStep | src/compiler/expression.c:1306-1311 | the noted list grows by the next entry exactly when its count is 1 |
| Grammar.Refines | src/compiler/expression.c:949-953 | refinement is reflexive: a node the handler leaves alone keeps its language |
| Optimizer.Compiler.constructor | src/compiler/expression.c:1390-1427 | the table moz_ast_prepare and compile_production build: one declaration per name, in order, each body holding one count |
| Optimizer.Compiler.MarkTopLevel | src/compiler/expression.c:87-90 | the first declaration, if any, gets one more count and nothing else changes |
| Optimizer.Compiler.BindLast | src/compiler/compiler.c:155-171 | compiler.c binds the last declaration of that name and counts every declaration of that name once more |
| Optimizer.Compiler.BindFirst | src/compiler/expression.c:121-131 | expression.c binds the first declaration of that name and counts only it once more, or nothing when the name is unbound |
| Optimizer.Compiler.DoInline | src/compiler/ast.c:697-704 | inlining returns the declaration's body and gives it one more count; expression.c's MOZ_RC_ASSIGN fails exactly when a released count is not positive |
| Optimizer.Compiler.InvokeOptimize | src/compiler/expression.c:985-1013 | an unbound reference, or one InlineRule keeps, is returned unchanged; Trap fails; an inlined reference becomes exactly the declaration's body, its count moved from the declaration to the body, and expression.c's release fails exactly on a count that is not positive |
| Optimizer.Compiler.Optimize | src/compiler/expression.c:1281-1289 | every handler's result refines the node it was given, and no reported change means the node and counts are kept |
| Optimizer.Compiler.OptimizeUnary | src/compiler/expression.c:955-965 | the child is optimised in place: the node keeps its kind and name, refines the old node, and no change means it is kept |
| Optimizer.Compiler.OptimizeList | src/compiler/expression.c:967-976 | each child is optimised in place: every child of the result refines the old child, and no change means the list is kept |
| Optimizer.Compiler.OptimizeChoice | src/compiler/expression.c:1058-1105 | the rewritten Choice refines the old one, and no change means it is kept |
| Optimizer.Compiler.OptimizeSequence | src/compiler/expression.c:1239-1267 | the rewritten Sequence refines the old one, and no change means it is kept |
| Optimizer.Compiler.OptimizeRepetition | src/compiler/expression.c:1269-1278 | the rewritten Repetition refines the old one, and no change means it is kept |
| Optimizer.Compiler.OptimizeDecls | src/compiler/expression.c:1325-1328 | each declaration's new body refines its old body, bodies outside the table are untouched, and no change means every body is kept |
| Optimizer.Compiler.MarkLive | src/compiler/expression.c:1291-1297 | every declaration in the table gets exactly one more count |
| Optimizer.Compiler.ReleaseAll | src/compiler/expression.c:1305-1311 | the release loop succeeds exactly when every count was positive, notes exactly the declarations whose count was 1, and lowers each count by one |
| Optimizer.Compiler.RemoveAll | src/compiler/expression.c:1313-1315 | the table keeps exactly the entries that were not noted |
| Optimizer.Compiler.RemoveUnused | src/compiler/expression.c:1299-1316 | the declarations whose count was 1 leave the table, every count drops by one, and the release assertion fires exactly on a count that was not positive |
| Optimizer.Compiler.OptimizeUntilStable | src/compiler/expression.c:1318-1331 | every body refines its old body and the table only loses entries; when the passes finish, the bodies are those of a pass that reported no change, and the table is the one before the last removal without exactly its declarations of count 1, every count one lower for a declaration it held |
| Optimizer.Compiler.OptimizeTwice | src/compiler/ast.c:979-992 | the two passes of ast.c keep the table and leave every body refining its old body |
| Optimizer.Compiler.OptimizeOnce | src/compiler/compiler.c:826-832 | the one pass of compiler.c keeps the table and leaves every body refining its old body |
| Printer.TagEqual | src/compiler/compiler.c:18-29 | tag_equal holds exactly when the node's tag and the given tag are both missing or the same bytes |
| Printer.DigitRoundTrip | src/compiler/compiler.c:64-65 | each hexadecimal digit write_char writes reads back as its value |
| Printer.Escape | src/compiler/compiler.c:31-68 | write_char writes one to three bytes: a printable byte 32..126 alone and as itself, anything else after a backslash |
| Printer.UnescapeEscape | src/compiler/compiler.c:31-68 | each byte's escape on its own reads back as that byte |
| Printer.Unescape | src/compiler/compiler.c:31-68 | only one to three bytes read back, more than one only after a backslash, and a two-byte escape that reads back is what write_char writes for that byte |
| Printer.EscapeInjective | src/compiler/compiler.c:31-68 | distinct bytes have distinct escapes |
| Printer.ConcatenationAmbiguous | src/compiler/compiler.c:31-68 | escapes are not self-delimiting: a backslash then 'n' prints as the escape of a newline, and \b then '0' as that of 0xb0 |
| Printer.WriteByte | src/compiler/compiler.c:34-66 | one `*p++ = c` writes c at p and returns p+1, leaving the bytes before p alone |
| Printer.WriteChar | src/compiler/compiler.c:31-68 | write_char writes exactly the escape of ch at p and returns the position after it |
| Printer.RunEnd | src/compiler/compiler.c:77-86 | the inner search stops strictly after i and at most at 256 |
| Printer.RunEndSpec | src/compiler/compiler.c:77-86 | every index between i and the stop is a member, and the stop, below 256, is not |
| Printer.RunEndIs | src/compiler/compiler.c:77-86 | any index with those two properties is where the search stops |
| Printer.RunPrintShape | src/compiler/compiler.c:75-91 | for one run dump_set writes the first member, then "-last" when the run is longer than one or, as written, when it reaches 255 |
| Printer.RunPrint | src/compiler/compiler.c:75-91 | one run prints the first member's escape, alone exactly when the run has one member and, as written, does not end at 256; the text holds no NUL |
| Printer.RunsFromSpec | src/compiler/compiler.c:70-97 | the runs the loop visits are exactly the maximal runs of members, and they cover every member |
| Printer.RunsFromMaximal | src/compiler/compiler.c:70-97 | every run the loop visits is maximal, the runs are in order and separated by gaps |
| Printer.RunsFromAt | src/compiler/compiler.c:73-91 | from a member, the first run is the one that member starts |
| Printer.RunsFromCovers | src/compiler/compiler.c:70-97 | every member from i on lies in one of the runs |
| Printer.RunsFrom | src/compiler/compiler.c:70-97 | every run the loop visits starts at a member at or after i, and the runs are increasing with a gap between each two |
| Printer.DumpIsRuns | src/compiler/compiler.c:70-97 | as intended, the text after '[' is exactly the runs' pieces in order |
| Printer.AsWrittenDump | src/compiler/compiler.c:86-90 | the loop as written differs from the intended one only by "-\ff" after a last run that is {255} alone |
| Printer.DumpTextDiffers | src/compiler/compiler.c:86-90 | the two texts differ exactly when 255 is a member and 254 is not |
| Printer.DumpFromSkip | src/compiler/compiler.c:73-74 | indices that are not members print nothing |
| Printer.DumpFrom | src/compiler/compiler.c:70-97 | nothing the loop writes is a NUL |
| Printer.DumpSetAsWrittenExample | src/compiler/compiler.c:86-90 | the class {255} prints as "[\ff-\ff]" as written and "[\ff]" as intended |
| Printer.DumpText | src/compiler/compiler.c:70-97 | the buffer holds '[', the runs, ']' and one terminating NUL, with no NUL before it |
| Printer.DumpBound | src/compiler/compiler.c:70-97 | the text from index i is at most 3 bytes per remaining index plus 4 |
| Printer.DumpFits | src/compiler/compiler.c:302-303 | every dump fits, with room to spare, in the 1024-byte buffers compile_Set and moz_Set_dump pass |
| Printer.DumpAtMember | src/compiler/compiler.c:73-91 | the text from a member is the text of its run followed by the text from the run's end |
| Printer.DumpSet | src/compiler/compiler.c:70-97 | dump_set writes exactly DumpText of the bitset's members into the buffer |
| Printer.DumpLoop | src/compiler/compiler.c:72-92 | the outer loop writes '[' and then exactly the text of every run, leaving the bitset alone |
| Printer.DumpAt | src/compiler/compiler.c:73-91 | one turn of the outer loop moves i forwards and keeps the written text a prefix of the whole |
| Printer.DumpMember | src/compiler/compiler.c:74-91 | the writes for a member extend the written prefix by exactly its run's text |
| Printer.RunSearch | src/compiler/compiler.c:76-86 | the inner loop stops exactly at RunEnd |
| Printer.WriteRun | src/compiler/compiler.c:75-91 | the writes for one run append exactly RunPrint to the buffer |
| Printer.WriteLast | src/compiler/compiler.c:80-81 | the dash and the last member's escape are appended to the buffer |
| Optimizer.Compiler.FindNamed | src/compiler/expression.c:365-371 | the loop stops at the first declaration with that name, or at the table's end when none has it, which FirstNamed states |

## Left out

- load_file, mozvm_loader_load_input and the rest of mozvm_loader_load_file (src/loader.c:35-53, 847-983): file I/O, `exit` on a bad header, and the constant pools (strings, sets, tags, tables, memo sizes). Only checkFileType and checkVersion are modelled.
- The listing loop at the end of mozvm_loader_load (src/loader.c:631-823): it only prints through OP_PRINT and does not change the buffer.
- The MOZVM_USE_DIRECT_THREADING pass of mozvm_loader_load (src/loader.c:825-833): it stores interpreter label addresses, which are outside this model.
- moz_ir_max_id is not part of this model: the encoder receives the largest IR id as a parameter.
- The AVX2 pstring_starts_with and the SSE4.2 branch of pstring_find_not_char: these are processor intrinsics. Only the scalar loops are modelled.
- Reference counting and allocation: NODE_GC_RETAIN and NODE_GC_RELEASE, Node_sweep, the node allocator, MOZ_RC_* sweeps and the memory counters. In the optimiser, counts are kept as numbers per declaration and per body, and freeing a node is not modelled.
- The cascade of moz_decl_sweep when a release brings a declaration's count to 0: the declaration only leaves the table.
- Optimizer.Compiler.InvokeOptimize: expressions are values, so a body shared between its declaration and the inlined references is copied. A later in-place rewrite of one copy is therefore not seen through the others. Each reference is also taken to be held once by its parent.
- Optimizer.Compiler.OptimizeUntilStable: the passes are bounded by a `fuel` parameter, and running out is reported as `OutOfFuel`. The source loops until a pass reports no change, and nothing here shows that this terminates.
- Optimizer.Compiler.Optimize: the Repetition1 handler of compiler.c (src/compiler/compiler.c:806-814) is left out. It belongs to the FOR_EACH_TYPE list of a header that is not part of this model, and Repetition1 is not among the node kinds of src/compiler/expression.h.
- Optimizer.Compiler.DoInline: the assertions that a declaration body is not NULL are left out, because every declaration in the model has a body.
- Optimizer.Compiler.OptimizeSequence: the Sequence pass it runs is the corrected `Expression` configuration of SequenceOpt, which reads `child` again after concatString. As written (`ExpressionAsWritten`), a Str whose only owner is the list is swept by concatString and the loop stops after one merge (SequenceOpt.SweptExample): the language is kept (SequenceOpt.SequencePassRefines) but later merges wait for the next pass. A Str that is also held elsewhere keeps its node and loses the bytes appended to it (SequenceOpt.DroppedByteExample, under Findings).
- SequenceOpt.StrLoop: the reference count of the Str being merged is a number per pass (`strRefc`), not a count kept on each node. Where the Str is shared, the in-place append and dispose of the source would also change the other owner's node; that aliasing is not modelled. Reading a swept node is a use after free on builds that return memory to malloc, and the model follows the zeroed node left by moz_Expr_sweep.
- memo_get, memo_fail and memo_set, the public entries of src/libnez/memo.c (169-204): they dispatch to the elastic or null table, and memo_set retains the node. memo_get also cuts `state` to uint8_t before it calls memo_elastic_get, and that cut is not modelled. NezMemo.Memo.Get is memo_elastic_get itself, which compares the 32-bit state. A state of 256 or more stored by NezMemo.Memo.Set is therefore never found through memo_get. NezMemo.SetFailGet keeps its state below 256 for this reason.
- Loader.InputStream.Read8: load_file allocates one byte more than the file (src/loader.c:46) and zeroes it, so the first read past the end gives 0 in C. The model reports every read past the end as `Failure`.
- Worklist.Apply: the loop is bounded by a `fuel` parameter. Its result is exact whenever the fuel suffices, and RunWithoutPushes shows that it suffices when the callback pushes nothing.
- Ast.AstMachine.CreateNode: the node built is specified (Builds) only for a log with no Push, Pop or LeftFold entry from the starting point on. For nested logs the contract states only the log's length, the entries kept, the push it closes and the frame, and not whether `ok` reports a null linked node.
- Ast.AstMachine.CommitTx: the same restriction applies to the node linked back into the log and to `ok`.
- Ast.AstMachine.GetParsedNode: the same restriction applies to the parsed node returned and to `ok`.
- LOG2 of 1 passes 0 to `__builtin_clzl`, whose result C leaves undefined. The model takes LOG2(1) to be 0 (Config.Log2), so the growth step of ARRAY_ensureSize takes capacity 0 to 1 (KArray.GrowCapacity).
- RubyText.Strip and the strips built on it follow Ruby 3, which also removes NUL bytes. Older Rubies differ only on NUL.
- VmGen.Generator.Run and VmGenLegacy.LegacyGenerator.Run: when a DEF line has an empty operand field, Ruby crashes on `nil.strip`. The model reports this as `Failure` and does not model the partial output already written.
- strncmp stops at a NUL byte. pstring_equal is modelled with that stop (PString.StrncmpWithoutNul, PString.EqualStopsAtNul).
- The jump-table self-check of src/jmptbl.h:154-159 sits in code disabled by `#if 0` (122-162). It is modelled by the method JumpTable.SelfCheck, whose return of no mismatches rests on the lemma JumpTable.MarksSpellIndex.
- The stack machine's instruction handlers (src/vm.c, vm_core.c) and the JIT are not part of this model. Of src/mozvm.c only the frame macros, parse_init and the operand reads are modelled.

## Findings

| source | as written | input that shows it | evidently intended | confidence | as-written member | corrected member |
|---|---|---|---|---|---|---|
| src/libnez/symtable.c:46-67 | symtable_push fills a local entry_t that is not zeroed, so a mask pushed by add_symbol_mask keeps whatever token the stack slot held | a mask pushed where an earlier call left a token: has_symbol then answers 1 and get_symbol returns the old token | the entry starts zeroed, as `entry_t entry = {}` does in src/symtable.c, so a mask has no symbol | not executed | NezSymTable.StaleMaskReadsAsSymbol | SymTable.SymTable.AddSymbolMask |
| src/memo.c:49-59 | memo_elastic_fail marks the slot failed without writing the key's hash | set key A, then fail a key B that lands in the same slot: get(A) now hits and reads as failed | the slot takes B's hash, as memo_elastic_fail in src/libnez/memo.c does, so A misses | not executed | MemoLegacy.CollidingFailHits | NezMemo.CollidingFailMisses |
| src/core/pstring.h:193-196 | the scalar scan of pstring_find_not_char never compares against end | bytes [7, 7, 7, 1] with str 0, end 2 and c 7: the result is 3, past end | the scan stops at end: the function takes an `end` bound, which the scalar loop never reads. The SSE4.2 branch (pstring.h:161, 178-190) uses end only to decide whether to enter, then scans past it in the same way, since it never decrements `rest` | not executed | PString.FindNotCharPastEnd | PString.FindNotCharBounded |
| src/core/pstring.h:193-195 | `*str == c` compares a signed char, on x86, with a uint8_t c, so a c of 0x80 or more never matches and the scan skips nothing | bytes [0xFF, 0x01] with str 0, end 2 and c 0xFF: the result is 0 | the bytes compared unsigned, as the SSE4.2 branch does with _SIDD_UBYTE_OPS (pstring.h:183) and with its own case for c == 0xff (167-170); the result is then 1 | not executed; holds where char is signed, as on x86 | PString.FindNotCharHighByte | PString.FindNotCharBounded |
| src/compiler/expression.c:431-435 | `c = c << 8 OR to_hex(L)` in a uint8_t shifts the first digit out of the byte; parseClass at 492-495 does the same | "\x41" reads as 1 | `c << 4`, giving 16*H + L, here 'A' | not executed | CharClass.HexEscapeAsWrittenExample | CharClass.HexEscapeRoundTrip |
| src/compiler/ast.c:150-153 | a two-byte Character token starting with a backslash compiles to Byte(pos[0]), the backslash; compiler.c:204-207 has the same line | the literal '\n' compiles to a backslash | the byte the escape stands for, as parseEscapedChar gives in expression.c | not executed | CharClass.CompileByteAstExample | CharClass.CompileByteAstAgrees |
| src/compiler/expression.c:166-168 | the range guard is `ch1 > 256 OR ch2 > 256` | the class range 256-256 passes, and bitset_set writes index 256 outside the 256-bit set | `> 255`, refusing every value past the last byte | not executed | ClassSet.GuardAsWrittenExample | ClassSet.GuardInBitset |
| src/compiler/expression.c:1199-1212 | after concatString replaces list[i], the Str loop goes on with the old `child`, whose bytes were disposed | the Sequence ["a", "b", 'c'] whose "a" is also held by another owner becomes ["ab"]: 'c' is appended to the old node and leaves the list, so "abc" is no longer matched whole | `child` read again after concatString, as ast.c does at 902 | not executed | SequenceOpt.DroppedByteExample | SequenceOpt.SequencePassRefines |
| src/compiler/compiler.c:86-90 | when the run search reaches 256, dump_set always writes "-last", even for a one-member run | the class {255} prints as "[\ff-\ff]" | "[\ff]", since a run of one is printed alone elsewhere in the loop | not executed | Printer.DumpSetAsWrittenExample | Printer.DumpIsRuns |
