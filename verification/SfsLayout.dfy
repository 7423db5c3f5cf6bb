/** The image in bytes: where every field of the format lies, the limits in numbers, and the names that are entered.
    Nothing here is said in terms of the writer. */
module SfsLayout {
  import opened Common
  import opened SfsCore
  import opened SfsEntry
  import opened SfsSteps
  import opened SfsHost
  import opened SfsFormat
  import opened SfsInvariant
  import opened SfsClose
  import opened SfsImage

  // ---------- little-endian fields ----------

  function U16(block: seq<byte>, at: nat): nat
    requires at + 2 <= |block|
  {
    block[at] as int + 256 * block[at + 1] as int
  }

  function U32(block: seq<byte>, at: nat): nat
    requires at + 4 <= |block|
  {
    U16(block, at) + 65536 * U16(block, at + 2)
  }

  /** struct sfs_super in block 0. */
  lemma SuperLayout(img: Image, total: nat, used: nat)
    requires Accounts(img, total, used)
    ensures 0 in img && |img[0]| == 4096 && U32(img[0], 0) == 0x2f8dbe2a
    ensures U32(img[0], 4) == total && U32(img[0], 8) == total - used
  {
  }

  /** struct sfs_disk_inode: size, type, nlinks, blocks, twelve direct pointers, indirect and db_indirect. */
  lemma InodeLayout(block: seq<byte>)
    requires |block| == 4096
    ensures var inode := ReadInode(block);
            && inode.size == U32(block, 0) && inode.kind == U16(block, 4) && inode.nlinks == U16(block, 6)
            && inode.blocks == U32(block, 8) && inode.indirect == U32(block, 60) && inode.dbIndirect == U32(block, 64)
            && |inode.direct| == 12 && forall i :: 0 <= i < 12 ==> inode.direct[i] == U32(block, 12 + 4 * i)
  {
    HalvesOfWord(U16(block, 4), U16(block, 6));
  }

  lemma HalvesOfWord(low: nat, high: nat)
    requires low < 65536
    ensures (low + 65536 * high) % 65536 == low && (low + 65536 * high) / 65536 == high
  {
  }

  /** struct sfs_entry: the inode number and a C string in a field of 256 bytes. */
  lemma EntryLayout(block: seq<byte>)
    requires |block| == 4096
    ensures var name := EntryName(block);
            && EntryIno(block) == U32(block, 0) && |name| <= 256 && (|name| < 256 ==> block[4 + |name|] == 0)
            && forall i :: 0 <= i < |name| ==> name[i] == block[4 + i] != 0
  {
    StringIs(block[4..260]);
  }

  lemma {:induction false} StringIs(s: seq<byte>)
    ensures var name := CString(s);
            && |name| <= |s| && (|name| < |s| ==> s[|name|] == 0)
            && forall i :: 0 <= i < |name| ==> name[i] == s[i] != 0
  {
    if s != [] && s[0] != 0 {
      StringIs(s[1..]);
    }
  }

  /** The type field says what an inode is: 1 for a file, 2 for a directory, 3 for a link. */
  lemma KindOnDisk(img: Image, h: nat, parent: nat, depth: nat)
    requires ReadNode(img, h, parent, depth).Some?
    ensures h in img && |img[h]| == 4096
    ensures var node := ReadNode(img, h, parent, depth).value;
            && (node.File? <==> U16(img[h], 4) == 1) && (node.Dir? <==> U16(img[h], 4) == 2)
            && (node.Link? <==> U16(img[h], 4) == 3)
  {
    InodeLayout(img[h]);
  }

  /** Block i of a file: the first 12 by direct pointers, 1024 more by the indirect block, all others by the blocks that
      the double-indirect block lists. */
  lemma PointerLayout(img: Image, h: nat, i: nat)
    requires Present(img, h)
    ensures var inode, p := ReadInode(img[h]), ReadPointer(img, ReadInode(img[h]), i);
            && (i < 12 ==> p == U32(img[h], 12 + 4 * i))
            && (12 <= i < 1036 && Present(img, inode.indirect) ==> p == U32(img[inode.indirect], 4 * (i - 12)))
            && (1036 <= i < 1049612 && Present(img, inode.dbIndirect) ==>
                  var b := U32(img[inode.dbIndirect], 4 * ((i - 1036) / 1024));
                  Present(img, b) ==> p == U32(img[b], 4 * ((i - 1036) % 1024)))
  {
    InodeLayout(img[h]);
  }

  // ---------- the free map ----------

  const PLACES: seq<nat> := [1, 2, 4, 8, 16, 32, 64, 128]

  /** Bit b of the map is bit b % 8 of byte (b % 32768) / 8 of block 2 + b / 32768, and is set exactly for the free
      blocks. */
  lemma FreeMapLayout(img: Image, total: nat, used: nat, b: nat)
    requires Accounts(img, total, used) && b < 32768 * ((total + 32767) / 32768)
    ensures var block := 2 + b / 32768;
            && block in img && |img[block]| == 4096
            && (img[block][b % 32768 / 8] as nat / PLACES[b % 8] % 2 == 1 <==> used <= b < total)
  {
    MapPart(img, total, used, b);
    BitOfMap(img[2 + b / 32768], b % 32768);
    PlaceInByte(b);
  }

  lemma MapPart(img: Image, total: nat, used: nat, b: nat)
    requires Accounts(img, total, used) && b < 32768 * ((total + 32767) / 32768)
    ensures var block := 2 + b / 32768;
            block in img && |img[block]| == 4096 && (MapBit(img[block], b % 32768) <==> used <= b < total)
  {
    assert b < MapSize(total) && Present(img, FREEMAP + b / BLKBITS);
    assert FreeBit(img, b) <==> used <= b < total;
  }

  lemma PlaceInByte(b: nat)
    ensures b % 32768 % 8 == b % 8
  {
    var q, m := b / 32768, b % 32768;
    var k, j := m / 8, m % 8;
    assert b == 32768 * q + m && m == 8 * k + j;
    Modulo8(4096 * q + k, j);
  }

  lemma Modulo8(q: nat, r: nat)
    requires r < 8
    ensures (8 * q + r) % 8 == r
  {
  }

  /** A bit of a 32-bit word is a bit of one of its bytes. */
  lemma BitOfMap(block: seq<byte>, j: nat)
    requires |block| == 4096 && j < 32768
    ensures MapBit(block, j) <==> block[j / 8] as nat / PLACES[j % 8] % 2 == 1
  {
    var at, k := 4 * (j / 32), j % 32;
    WordBit(block[at], block[at + 1], block[at + 2], block[at + 3], k);
    assert j / 8 == at + k / 8 && j % 8 == k % 8;
    ByteBit(block[j / 8], j % 8);
  }

  lemma WordBit(b0: byte, b1: byte, b2: byte, b3: byte, k: nat)
    requires k < 32
    ensures var w := b0 as int + 256 * b1 as int + 65536 * b2 as int + 16777216 * b3 as int;
            Bit(w, k) <==> Bit([b0, b1, b2, b3][k / 8], k % 8)
  {
    var w1, w2 := b1 as int + 256 * b2 as int + 65536 * b3 as int, b2 as int + 256 * b3 as int;
    SplitByte(b0, w1, k);
    if k >= 8 {
      SplitByte(b1, w2, k - 8);
      if k >= 16 {
        SplitByte(b2, b3, k - 16);
      }
    }
  }

  /** The bits of a number below and above its last byte. */
  lemma SplitByte(low: byte, high: nat, k: nat)
    ensures Bit(low as int + 256 * high, k) <==> if k < 8 then Bit(low, k) else Bit(high, k - 8)
  {
    assert Pow2(8) == 256;
    SplitBits(low, high, 8, k);
  }

  lemma {:induction false} SplitBits(low: nat, high: nat, n: nat, k: nat)
    requires low < Pow2(n)
    ensures Bit(low + Pow2(n) * high, k) <==> if k < n then Bit(low, k) else Bit(high, k - n)
  {
    if n > 0 {
      var p := Pow2(n - 1);
      assert Pow2(n) * high == 2 * (p * high);
      assert (low + 2 * (p * high)) / 2 == low / 2 + p * high && (low + 2 * (p * high)) % 2 == low % 2;
      if k > 0 {
        SplitBits(low / 2, high, n - 1, k - 1);
      }
    }
  }

  lemma {:induction false} ByteBit(w: nat, k: nat)
    requires k < 8
    ensures Bit(w, k) <==> w / PLACES[k] % 2 == 1
  {
    if k > 0 {
      ByteBit(w / 2, k - 1);
      HalfOfPlace(w, k);
    }
  }

  lemma HalfOfPlace(w: nat, k: nat)
    requires 0 < k < 8
    ensures w / 2 / PLACES[k - 1] == w / PLACES[k]
  {
    if k == 1 { assert w / 2 / 1 == w / 2; }
    else if k == 2 { assert w / 2 / 2 == w / 4; }
    else if k == 3 { assert w / 2 / 4 == w / 8; }
    else if k == 4 { assert w / 2 / 8 == w / 16; }
    else if k == 5 { assert w / 2 / 16 == w / 32; }
    else if k == 6 { assert w / 2 / 32 == w / 64; }
    else { assert w / 2 / 64 == w / 128; }
  }

  // ---------- limits and costs in numbers ----------

  /** A file may have 128 MiB, a link text 4095 bytes, a directory 32766 entries apart from "." and "..". */
  lemma LimitsAre(node: Node)
    ensures node.File? ==> (NodeFits(node) <==> |node.bytes| <= 134217728)
    ensures node.Link? ==> (NodeFits(node) <==> |node.text| <= 4095)
    ensures node.Dir? ==> (NodeFits(node) <==> Count(node.entries) <= 32766 && Fits(node.entries))
  {
    if node.File? {
      ChunkCount(node.bytes);
    }
  }

  /** An entry keeps to the limits: it begins with a dot, or its name has at most 255 bytes and its object fits. */
  predicate EntryFits(es: Entries, i: nat)
    requires i < Length(es)
  {
    var (name, node) := EntryAt(es, i);
    (name != [] && name[0] == 46) || (|name| <= 255 && NodeFits(node))
  }

  lemma {:induction false} FitsExactly(es: Entries)
    ensures Fits(es) <==> forall i :: 0 <= i < Length(es) ==> EntryFits(es, i)
  {
    if es.Cons? {
      FitsExactly(es.rest);
      assert EntryAt(es, 0) == (es.name, es.node);
      forall i | 0 <= i < Length(es.rest) ensures EntryFits(es, i + 1) == EntryFits(es.rest, i) {
        assert EntryAt(es, i + 1) == EntryAt(es.rest, i);
      }
      if forall i :: 0 <= i < Length(es) ==> EntryFits(es, i) {
        assert EntryFits(es, 0);
      } else if Fits(es) {
        var i :| 0 <= i < Length(es) && !EntryFits(es, i);
        assert i == 0 || !EntryFits(es.rest, i - 1);
      }
    }
  }

  function Length(es: Entries): nat {
    if es.Nil? then 0 else 1 + Length(es.rest)
  }

  /** Entry i of a host directory. */
  function EntryAt(es: Entries, i: nat): (seq<byte>, Node)
    requires i < Length(es)
  {
    if i == 0 then (es.name, es.node) else EntryAt(es.rest, i - 1)
  }

  /** A file has one block for every 4096 bytes begun. */
  lemma {:induction false} ChunkCount(bytes: seq<byte>)
    ensures |Chunks(bytes)| == (|bytes| + 4095) / 4096
    decreases |bytes|
  {
    if bytes != [] {
      ChunkCount(bytes[|Chunk(bytes)|..]);
    }
  }

  /** The cost of a new file in blocks: its inode, its data, one block of pointers behind block 12, and behind block
      1036 one more with a block of pointers for every 1024 data blocks. */
  lemma FileCost(r: nat, bytes: seq<byte>)
    ensures var n := (|bytes| + 4095) / 4096;
            NodeBlocks(File(r, bytes), {}) ==
            1 + n + (if n > 12 then 1 else 0) + (if n > 1036 then 1 + (n - 1036 + 1023) / 1024 else 0)
  {
    ChunkCount(bytes);
    SpanIsClosed(|Chunks(bytes)|);
  }

  // ---------- names ----------

  /** The names that get an entry: those that do not begin with a dot, cut to 252 bytes, of objects that are files,
      links or directories. */
  function Entered(es: Entries): seq<seq<byte>> {
    match es
    case Nil => []
    case Cons(name, node, rest) =>
      (if (name != [] && name[0] == 46) || node.Other? then []
       else [if |name| <= 252 then name else name[..252]]) + Entered(rest)
  }

  function NamesOf(es: Entries): seq<seq<byte>> {
    if es.Nil? then [] else [es.name] + NamesOf(es.rest)
  }

  /** These are the names on the image, in the same order. */
  lemma {:induction false} NamesOnImage(img: Image, root: Entries, es: Entries, got: Entries, number: Numbering)
    requires SameEntries(img, root, es, got, number)
    ensures NamesOf(got) == Entered(es)
  {
    if es.Cons? {
      if Hidden(es.name) || es.node.Other? {
        NamesOnImage(img, root, es.rest, got, number);
        assert [] + Entered(es.rest) == Entered(es.rest);
      } else {
        NamesOnImage(img, root, es.rest, got.rest, number);
      }
    }
  }
}
