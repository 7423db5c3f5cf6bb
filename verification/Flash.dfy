/** How lab8/tools/kflash.py lays data out in flash: chunks, dump_to_flash and the loop of flash_firmware. */
module Flash {
  import opened Common

  type Bytes = seq<byte>

  /** The exceptions: misaligned data, and a zero step for range(). */
  datatype Error = NotAligned | ZeroStep

  datatype Result<+T> = Ok(value: T) | Raised(error: Error)

  // A sector has 4096 bytes, a data frame 65536.

  // ---------- slices ----------

  /** l[a:b], with Python's clipping. */
  function Slice(l: Bytes, a: nat, b: nat): Bytes {
    if a >= |l| || b <= a then [] else l[a..Min(b, |l|)]
  }

  /** The least q with a <= q * n. */
  function CeilDiv(a: int, n: nat): int
    requires n > 0
  {
    (a + n - 1) / n
  }

  // ---------- chunks ----------

  /** range(0, len(l), n) */
  function Plain(l: Bytes, n: nat): seq<Bytes>
    requires n > 0
  {
    var count := CeilDiv(|l|, n);
    seq(if count < 0 then 0 else count, i requires i >= 0 => Slice(l, i * n, i * n + n))
  }

  /** The bytes before the next multiple of n. */
  function StartPos(n: nat, address: nat): int
    requires n > 0
  {
    n - (address - address / n * n)
  }

  /** Sectors up to the next frame boundary, then whole frames. */
  function Sectored(l: Bytes, startPos: nat): seq<Bytes> {
    var sectors := startPos / 4096;
    var count := CeilDiv(|l| - startPos, 65536) + sectors;
    seq(if count < 0 then 0 else count, i requires i >= 0 =>
      if i < sectors then Slice(l, 4096 * i, 4096 * (i + 1))
      else Slice(l, startPos + (i - sectors) * 65536, startPos + (i - sectors) * 65536 + 65536))
  }

  /** chunks(l, n) without an address. */
  function Chunks(l: Bytes, n: nat): Result<seq<Bytes>> {
    if n == 0 then Raised(ZeroStep) else Ok(Plain(l, n))
  }

  /** chunks(l, 65536, address) */
  function ChunksAt(l: Bytes, address: nat): Result<seq<Bytes>> {
    if address % 65536 != 0 then
      var startPos := StartPos(65536, address);
      if startPos % 4096 != 0 then Raised(NotAligned) else Ok(Sectored(l, startPos))
    else Ok(Plain(l, 65536))
  }

  /** Where piece k starts when `sectors` sectors come before the frames. */
  function Start(sectors: nat, k: nat): nat {
    if k <= sectors then 4096 * k else 4096 * sectors + 65536 * (k - sectors)
  }

  /** The same in sectors. */
  function StartSectors(sectors: nat, k: nat): (q: nat)
    ensures Start(sectors, k) == 4096 * q
  {
    if k <= sectors then k else sectors + 16 * (k - sectors)
  }

  /** The number of sectors before the first frame. */
  function Sectors(address: nat): nat {
    if address % 65536 == 0 then 0 else (65536 - address % 65536) / 4096
  }

  /** An address is refused exactly when it is not on a sector boundary. */
  lemma RefusedExactly(l: Bytes, address: nat)
    ensures ChunksAt(l, address) == Raised(NotAligned) <==> address % 4096 != 0
    ensures ChunksAt(l, address).Raised? <==> address % 4096 != 0
  {
    StartPosIs(address);
  }

  lemma StartPosIs(address: nat)
    ensures StartPos(65536, address) == 65536 - address % 65536
    ensures StartPos(65536, address) % 4096 == 0 <==> address % 4096 == 0
    ensures address % 65536 == 0 ==> address % 4096 == 0
  {
    var q, m := address / 65536, address % 65536;
    assert address == 4096 * (16 * q) + m;
    SectorRemainder(16 * q, m);
    SectorComplement(m);
  }

  lemma SectorRemainder(q: nat, m: nat)
    ensures (4096 * q + m) % 4096 == m % 4096
  {
  }

  lemma SectorComplement(m: nat)
    requires m <= 65536
    ensures (65536 - m) % 4096 == 0 <==> m % 4096 == 0
  {
    var a, b := m / 4096, m % 4096;
    if b == 0 {
      assert 65536 - m == 4096 * (16 - a);
    } else {
      assert 65536 - m == 4096 * (15 - a) + (4096 - b);
      SectorRemainder(15 - a, 4096 - b);
    }
  }

  lemma PlainCut(l: Bytes, k: nat)
    requires k < |Plain(l, 65536)|
    ensures Plain(l, 65536)[k] == Slice(l, Start(0, k), Start(0, k + 1))
  {
    assert Start(0, k) == k * 65536 && Start(0, k + 1) == k * 65536 + 65536;
  }

  lemma SectoredCut(l: Bytes, s: nat, k: nat)
    requires k < |Sectored(l, 4096 * s)|
    ensures Sectored(l, 4096 * s)[k] == Slice(l, Start(s, k), Start(s, k + 1))
  {
    assert 4096 * s / 4096 == s;
    if k < s {
      assert Start(s, k) == 4096 * k && Start(s, k + 1) == 4096 * (k + 1);
    } else {
      assert Start(s, k) == 4096 * s + (k - s) * 65536 && Start(s, k + 1) == 4096 * s + (k - s) * 65536 + 65536;
    }
  }

  lemma SectoredCovers(l: Bytes, s: nat)
    ensures Start(s, |Sectored(l, 4096 * s)|) >= |l|
  {
    assert 4096 * s / 4096 == s;
  }

  /** What chunks does at a sector-aligned address. */
  lemma Branches(l: Bytes, address: nat)
    requires address % 4096 == 0
    ensures ChunksAt(l, address) == Ok(if address % 65536 == 0 then Plain(l, 65536)
                                       else Sectored(l, 4096 * Sectors(address)))
    ensures address % 65536 == 0 ==> Sectors(address) == 0
  {
    StartPosIs(address);
    if address % 65536 != 0 {
      assert StartPos(65536, address) == 4096 * Sectors(address);
    }
  }

  /** Chunk k is the data between two of those places. */
  ghost predicate CutIs(l: Bytes, sectors: nat, cs: seq<Bytes>, k: nat)
    requires k < |cs|
  {
    cs[k] == Slice(l, Start(sectors, k), Start(sectors, k + 1))
  }

  /** cs is the data cut at those places. */
  ghost predicate Cuts(l: Bytes, sectors: nat, cs: seq<Bytes>) {
    && (forall k {:trigger CutIs(l, sectors, cs, k)} :: 0 <= k < |cs| ==> CutIs(l, sectors, cs, k))
    && Start(sectors, |cs|) >= |l|
  }

  /** Both branches cut the data at the same kind of places. */
  lemma ChunksAreCuts(l: Bytes, address: nat)
    requires address % 4096 == 0
    ensures ChunksAt(l, address).Ok? && Cuts(l, Sectors(address), ChunksAt(l, address).value)
  {
    Branches(l, address);
    if address % 65536 == 0 {
      PlainCuts(l);
    } else {
      SectoredCuts(l, Sectors(address));
    }
  }

  lemma PlainCuts(l: Bytes)
    ensures Cuts(l, 0, Plain(l, 65536))
  {
    var cs := Plain(l, 65536);
    forall k: nat | k < |cs| ensures CutIs(l, 0, cs, k) {
      PlainCut(l, k);
    }
    PlainCovers(l, 65536);
  }

  lemma SectoredCuts(l: Bytes, s: nat)
    ensures Cuts(l, s, Sectored(l, 4096 * s))
  {
    var cs := Sectored(l, 4096 * s);
    forall k: nat | k < |cs| ensures CutIs(l, s, cs, k) {
      SectoredCut(l, s, k);
    }
    SectoredCovers(l, s);
  }

  lemma SliceExtends(l: Bytes, a: nat, b: nat)
    requires a <= b
    ensures Slice(l, 0, a) + Slice(l, a, b) == Slice(l, 0, b)
  {
  }

  /** The first k chunks are the data up to the start of chunk k. */
  lemma {:induction false} PrefixIsSlice(l: Bytes, sectors: nat, cs: seq<Bytes>, k: nat)
    requires Cuts(l, sectors, cs) && k <= |cs|
    ensures Concat(cs[..k]) == Slice(l, 0, Start(sectors, k))
  {
    if k > 0 {
      PrefixIsSlice(l, sectors, cs, k - 1);
      assert cs[..k][..k - 1] == cs[..k - 1];
      assert CutIs(l, sectors, cs, k - 1);
      SliceExtends(l, Start(sectors, k - 1), Start(sectors, k));
    }
  }

  lemma CutsCover(l: Bytes, sectors: nat, cs: seq<Bytes>)
    requires Cuts(l, sectors, cs)
    ensures Concat(cs) == l
  {
    PrefixIsSlice(l, sectors, cs, |cs|);
    assert cs[..|cs|] == cs;
  }

  /** For every sector-aligned address the chunks put together are the data. */
  lemma ChunksAreTheData(l: Bytes, address: nat)
    requires address % 4096 == 0
    ensures ChunksAt(l, address).Ok? && Concat(ChunksAt(l, address).value) == l
  {
    ChunksAreCuts(l, address);
    CutsCover(l, Sectors(address), ChunksAt(l, address).value);
  }

  /** How the data are cut, byte by byte: behind the bytes of the chunks before it, every chunk takes 4096 bytes as long
      as it starts before the first frame boundary, 65536 from there on, or what is left. */
  ghost predicate SizedAt(l: Bytes, address: nat, cs: seq<Bytes>, k: nat)
    requires k < |cs|
  {
    var before := |Concat(cs[..k])|;
    var size := if address % 65536 != 0 && address % 65536 + 4096 * k < 65536 then 4096 else 65536;
    && before <= |l| && |cs[k]| == (if size <= |l| - before then size else |l| - before)
    && cs[k] == l[before..before + |cs[k]|]
  }

  /** All sectors before the first frame boundary, then as many frames as the rest takes. */
  predicate CountIs(n: nat, address: nat, length: nat) {
    var gap := (65536 - address % 65536) % 65536;
    && 4096 * n >= gap
    && var frames := n - gap / 4096;
       gap + 65536 * frames >= length && (frames > 0 ==> gap + 65536 * (frames - 1) < length)
  }

  lemma ChunkSizes(l: Bytes, address: nat)
    requires address % 4096 == 0
    ensures ChunksAt(l, address).Ok?
    ensures var cs := ChunksAt(l, address).value;
            CountIs(|cs|, address, |l|) && forall k {:trigger cs[k]} :: 0 <= k < |cs| ==> SizedAt(l, address, cs, k)
  {
    ChunksAreCuts(l, address);
    var cs := ChunksAt(l, address).value;
    SectorsIs(address);
    CountOf(l, address);
    forall k | 0 <= k < |cs| ensures SizedAt(l, address, cs, k) {
      CutSize(l, address, Sectors(address), cs, k);
    }
  }

  lemma SectorsIs(address: nat)
    requires address % 4096 == 0
    ensures 4096 * Sectors(address) == (65536 - address % 65536) % 65536
    ensures forall k: nat :: k < Sectors(address) <==> address % 65536 != 0 && address % 65536 + 4096 * k < 65536
  {
    var m := address % 65536;
    StartPosIs(address);
    SectorComplement(m);
    SectorGap(m, Sectors(address));
  }

  lemma SectorGap(m: nat, s: nat)
    requires m < 65536 && m % 4096 == 0 && (65536 - m) % 4096 == 0 && s == if m == 0 then 0 else (65536 - m) / 4096
    ensures 4096 * s == (65536 - m) % 65536
    ensures forall k: nat :: k < s <==> m != 0 && m + 4096 * k < 65536
  {
    if m != 0 {
      assert 4096 * ((65536 - m) / 4096) == 65536 - m;
    }
  }

  lemma CutSize(l: Bytes, address: nat, s: nat, cs: seq<Bytes>, k: nat)
    requires Cuts(l, s, cs) && k < |cs|
    requires k < s <==> address % 65536 != 0 && address % 65536 + 4096 * k < 65536
    ensures SizedAt(l, address, cs, k)
  {
    PrefixIsSlice(l, s, cs, k);
    assert CutIs(l, s, cs, k);
    assert Start(s, k + 1) == Start(s, k) + if k < s then 4096 else 65536;
  }

  lemma CountOf(l: Bytes, address: nat)
    requires address % 4096 == 0
    ensures ChunksAt(l, address).Ok? && CountIs(|ChunksAt(l, address).value|, address, |l|)
  {
    var s := Sectors(address);
    Branches(l, address);
    SectorsIs(address);
    FrameCount(|l| - 4096 * s);
    assert 4096 * s / 4096 == s;
  }

  lemma FrameCount(n: int)
    requires n > -65536
    ensures var q := CeilDiv(n, 65536); q >= 0 && 65536 * q >= n && (q > 0 ==> 65536 * (q - 1) < n)
  {
  }

  /** The first frame boundary at or behind the address. */
  lemma FirstFrame(address: nat) returns (first: nat)
    requires address % 4096 == 0
    ensures address + 4096 * Sectors(address) == 65536 * first
    ensures Sectors(address) > 0 ==> 65536 * (first - 1) <= address
  {
    var q, m := address / 65536, address % 65536;
    assert address == 65536 * q + m;
    if m == 0 {
      first := q;
    } else {
      assert m % 4096 == 0;
      assert 4096 * ((65536 - m) / 4096) == 65536 - m;
      first := q + 1;
    }
  }

  lemma PaddedBound(c: Bytes, q: nat)
    requires |c| <= 4096 * q
    ensures |c| <= |Padded(c)| <= 4096 * q
  {
  }

  lemma ChunkBound(l: Bytes, s: nat, cs: seq<Bytes>, k: nat)
    requires Cuts(l, s, cs) && k < |cs|
    ensures |Padded(cs[k])| <= if k < s then 4096 else 65536
  {
    assert CutIs(l, s, cs, k);
    PaddedBound(cs[k], if k < s then 1 else 16);
  }

  /** No chunk crosses a frame boundary, even when it is filled up to a whole sector. */
  lemma WithinFrame(l: Bytes, address: nat, cs: seq<Bytes>, k: nat)
    requires address % 4096 == 0 && Cuts(l, Sectors(address), cs) && k < |cs| && cs[k] != []
    ensures InFrame(Write(address + Start(Sectors(address), k), Padded(cs[k])))
  {
    ChunkBound(l, Sectors(address), cs, k);
    var first := FirstFrame(address);
    FitsFrame(address, Sectors(address), first, k, |Padded(cs[k])|);
  }

  lemma FitsFrame(address: nat, s: nat, first: nat, k: nat, len: nat)
    requires address + 4096 * s == 65536 * first && (s > 0 ==> 65536 * (first - 1) <= address)
    requires 0 < len <= if k < s then 4096 else 65536
    ensures (address + Start(s, k)) / 65536 == (address + Start(s, k) + len - 1) / 65536
  {
    if k < s {
      InBlock(address + Start(s, k), len, first - 1);
    } else {
      InBlock(address + Start(s, k), len, first + (k - s));
    }
  }

  lemma InBlock(at: nat, len: nat, q: nat)
    requires 0 < len && 65536 * q <= at && at + len <= 65536 * (q + 1)
    ensures at / 65536 == q == (at + len - 1) / 65536
  {
  }

  // ---------- flash_firmware ----------

  /** The number of sectors that hold n bytes. */
  function Whole(n: nat): (q: nat)
    ensures n <= 4096 * q < n + 4096
  {
    (n + 4096 - 1) / 4096
  }

  /** Filled up with zeros to whole sectors. */
  function Padded(c: Bytes): (r: Bytes)
    ensures |r| == 4096 * Whole(|c|)
  {
    c + Zeros(4096 * Whole(|c|) - |c|)
  }

  lemma PaddedIs(c: Bytes)
    ensures var p := Padded(c);
            && |p| % 4096 == 0 && |c| <= |p| < |c| + 4096 && p[..|c|] == c && forall i :: |c| <= i < |p| ==> p[i] == 0
  {
  }

  /** The length that the loop computes is the padded length. */
  lemma AlignedLength(n: nat)
    ensures (4096 - n % 4096) % 4096 + n == 4096 * Whole(n)
  {
    var q, m := n / 4096, n % 4096;
    assert n == 4096 * q + m;
    if m == 0 {
      assert Whole(n) == q;
    } else {
      assert Whole(n) == q + 1;
    }
  }

  datatype Write = Write(address: nat, bytes: Bytes)

  function Written(ws: seq<Write>): Bytes {
    if ws == [] then [] else Written(ws[..|ws| - 1]) + ws[|ws| - 1].bytes
  }

  /** Each write starts where the one before ended. */
  ghost predicate Contiguous(ws: seq<Write>, from: nat) {
    ws == [] || (Contiguous(ws[..|ws| - 1], from) && ws[|ws| - 1].address == from + |Written(ws[..|ws| - 1])|)
  }

  lemma Snoc(ws: seq<Write>, from: nat, w: Write)
    requires Contiguous(ws, from) && w.address == from + |Written(ws)|
    ensures Contiguous(ws + [w], from) && Written(ws + [w]) == Written(ws) + w.bytes
  {
    assert (ws + [w])[..|ws|] == ws;
  }

  /** One write for every piece. */
  ghost predicate Holds(ws: seq<Write>, cs: seq<Bytes>) {
    |ws| == |cs| && forall k {:trigger ws[k]} {:trigger cs[k]} :: 0 <= k < |ws| ==> ws[k].bytes == cs[k]
  }

  /** One write per chunk, each behind the other. */
  method DumpChunks(cs: seq<Bytes>, address: nat) returns (ws: seq<Write>)
    ensures Contiguous(ws, address) && Written(ws) == Concat(cs) && Holds(ws, cs)
    ensures |cs| == 1 ==> ws == [Write(address, cs[0])]
  {
    ws := [];
    var at := address;
    var i: nat := 0;
    while i < |cs|
      invariant i <= |cs| && Holds(ws, cs[..i])
      invariant at == address + |Written(ws)| && Contiguous(ws, address) && Written(ws) == Concat(cs[..i])
    {
      ConcatSnoc(cs, i);
      Snoc(ws, address, Write(at, cs[i]));
      ws := ws + [Write(at, cs[i])];
      at := at + |cs[i]|;
      i := i + 1;
    }
    assert cs[..i] == cs;
    OneWrite(ws, cs, address);
  }

  lemma OneWrite(ws: seq<Write>, cs: seq<Bytes>, address: nat)
    requires |ws| == |cs| && Contiguous(ws, address) && Written(ws) == Concat(cs)
    ensures |cs| == 1 ==> ws == [Write(address, cs[0])]
  {
    if |cs| == 1 {
      var w, c := ws[0], cs[0];
      assert ws == [w] && cs == [c];
      WrittenOnce(w, address);
      ConcatOnce(c);
    }
  }

  lemma WrittenOnce(w: Write, from: nat)
    ensures Written([w]) == w.bytes && (Contiguous([w], from) <==> w.address == from)
  {
    assert [w][..0] == [];
    assert Contiguous([], from) && Written([]) == [] && [] + w.bytes == w.bytes;
  }

  lemma ConcatOnce(c: Bytes)
    ensures Concat([c]) == c
  {
    assert [c][..0] == [];
    assert [] + c == c;
  }

  /** Writes of `size` bytes, of which only the last may be shorter, but not empty. */
  ghost predicate WritesOf(ws: seq<Write>, size: nat) {
    forall k {:trigger ws[k]} :: 0 <= k < |ws| ==>
      if k + 1 < |ws| then |ws[k].bytes| == size else 0 < |ws[k].bytes| <= size
  }

  /** dump_to_flash: the data, contiguous from the given address. */
  method DumpToFlash(data: Bytes, address: nat, size: nat) returns (r: Result<seq<Write>>)
    ensures if size == 0 then r == Raised(ZeroStep) else r.Ok?
    ensures r.Ok? ==> Contiguous(r.value, address) && Written(r.value) == data && WritesOf(r.value, size)
    ensures r.Ok? && size == |data| ==> r.value == [Write(address, data)]
  {
    if size == 0 {
      return Raised(ZeroStep);
    }
    var cs := Plain(data, size);
    var ws := DumpChunks(cs, address);
    PlainIsData(data, size);
    PlainSizes(data, size);
    if size == |data| {
      OnePiece(data);
    }
    return Ok(ws);
  }

  /** Piece k of the data cut at multiples of n. */
  ghost predicate PieceIs(l: Bytes, n: nat, cs: seq<Bytes>, k: nat)
    requires k < |cs|
  {
    cs[k] == Slice(l, k * n, k * n + n)
  }

  ghost predicate Pieces(l: Bytes, n: nat, cs: seq<Bytes>) {
    forall j {:trigger PieceIs(l, n, cs, j)} :: 0 <= j < |cs| ==> PieceIs(l, n, cs, j)
  }

  /** Where piece k starts and ends. */
  lemma PieceAt(l: Bytes, n: nat, cs: seq<Bytes>, k: nat) returns (pos: nat)
    requires k < |cs| && Pieces(l, n, cs)
    ensures pos == k * n && pos + n == (k + 1) * n && cs[k] == Slice(l, pos, pos + n)
  {
    pos := k * n;
    NextMultiple(k, n);
    assert PieceIs(l, n, cs, k);
  }

  /** The first k pieces are the data up to the end `pos` of the last of them. */
  lemma {:induction false} PiecesPrefix(l: Bytes, n: nat, cs: seq<Bytes>, k: nat, pos: nat)
    requires k <= |cs| && Pieces(l, n, cs) && pos == k * n
    ensures Concat(cs[..k]) == Slice(l, 0, pos)
  {
    if k > 0 {
      var before := PieceAt(l, n, cs, k - 1);
      PiecesPrefix(l, n, cs, k - 1, before);
      PieceEnds(l, n, cs, k - 1, before);
    }
  }

  lemma PieceEnds(l: Bytes, n: nat, cs: seq<Bytes>, k: nat, pos: nat)
    requires k < |cs| && cs[k] == Slice(l, pos, pos + n) && Concat(cs[..k]) == Slice(l, 0, pos)
    ensures Concat(cs[..k + 1]) == Slice(l, 0, pos + n)
  {
    ConcatSnoc(cs, k);
    SliceExtends(l, pos, pos + n);
  }

  lemma ConcatSnoc(cs: seq<Bytes>, k: nat)
    requires k < |cs|
    ensures Concat(cs[..k + 1]) == Concat(cs[..k]) + cs[k]
  {
    assert cs[..k + 1][..k] == cs[..k];
  }

  /** Without an address, too, the chunks put together are the data, for every chunk size. */
  lemma PlainIsData(l: Bytes, n: nat)
    requires n > 0
    ensures Concat(Plain(l, n)) == l
  {
    var cs := Plain(l, n);
    forall j | 0 <= j < |cs| ensures PieceIs(l, n, cs, j) {
    }
    PiecesPrefix(l, n, cs, |cs|, |cs| * n);
    PlainCovers(l, n);
    assert cs[..|cs|] == cs;
  }

  lemma NextMultiple(i: nat, n: nat)
    ensures (i + 1) * n == i * n + n
  {
  }

  lemma PlainCovers(l: Bytes, n: nat)
    requires n > 0
    ensures |Plain(l, n)| * n >= |l|
  {
    var q := CeilDiv(|l|, n);
    assert |l| + n - 1 == q * n + (|l| + n - 1) % n;
  }

  /** Pieces of n bytes, of which only the last may be shorter, but not empty. */
  ghost predicate SizesAre(cs: seq<Bytes>, n: nat) {
    forall k {:trigger cs[k]} :: 0 <= k < |cs| ==> if k + 1 < |cs| then |cs[k]| == n else 0 < |cs[k]| <= n
  }

  lemma PlainSizes(l: Bytes, n: nat)
    requires n > 0
    ensures SizesAre(Plain(l, n), n)
  {
    var cs := Plain(l, n);
    PlainCount(|l|, n);
    forall k | 0 <= k < |cs| ensures if k + 1 < |cs| then |cs[k]| == n else 0 < |cs[k]| <= n {
      PlainSize(l, n, cs, k);
    }
  }

  lemma PlainCount(length: nat, n: nat)
    requires n > 0
    ensures var q := CeilDiv(length, n); q >= 0 && (q > 0 ==> (q - 1) * n < length <= q * n)
  {
    var q := CeilDiv(length, n);
    assert length + n - 1 == q * n + (length + n - 1) % n;
    if q > 0 {
      NextMultiple(q - 1, n);
    }
  }

  lemma PlainSize(l: Bytes, n: nat, cs: seq<Bytes>, k: nat)
    requires n > 0 && cs == Plain(l, n) && k < |cs| && (|cs| - 1) * n < |l|
    ensures if k + 1 < |cs| then |cs[k]| == n else 0 < |cs[k]| <= n
  {
    NextMultiple(k, n);
    if k + 1 < |cs| {
      Multiples(k + 1, |cs| - 1, n);
    }
  }

  lemma Multiples(a: nat, b: nat, n: nat)
    requires a <= b
    ensures a * n <= b * n
  {
  }

  lemma OnePiece(l: Bytes)
    requires l != []
    ensures |Plain(l, |l|)| == 1 && Plain(l, |l|)[0] == l
  {
    var n := |l|;
    var q := (n + n - 1) / n;
    assert n + n - 1 == q * n + (n + n - 1) % n;
    AtLeastTwice(q, n);
    assert q == 1;
  }

  lemma AtLeastTwice(q: int, n: nat)
    ensures q >= 2 ==> q * n >= 2 * n
  {
    if q > 2 {
      AtLeastTwice(q - 1, n);
    }
  }

  /** None of the first n chunks is empty. */
  ghost predicate AllFull(cs: seq<Bytes>, n: nat)
    requires n <= |cs|
  {
    forall k {:trigger cs[k]} :: 0 <= k < n ==> cs[k] != []
  }

  /** The condition under which no chunk is empty. */
  predicate NoEmptyChunk(l: Bytes, address: nat) {
    Sectors(address) == 0 || |l| > 4096 * (Sectors(address) - 1)
  }

  lemma EmptyChunkExactly(l: Bytes, address: nat)
    requires address % 4096 == 0 && ChunksAt(l, address).Ok?
    ensures NoEmptyChunk(l, address) <==> AllFull(ChunksAt(l, address).value, |ChunksAt(l, address).value|)
  {
    var cs, s := ChunksAt(l, address).value, Sectors(address);
    ChunksAreCuts(l, address);
    forall k | 0 <= k < |cs| ensures cs[k] != [] <==> |l| > Start(s, k) {
      assert CutIs(l, s, cs, k);
    }
    if !NoEmptyChunk(l, address) {
      assert 0 <= s - 1 < |cs|;
      assert cs[s - 1] == [];
    }
  }

  /** All chunks but the last are whole sectors. */
  lemma WholeSectors(l: Bytes, sectors: nat, cs: seq<Bytes>, k: nat)
    requires Cuts(l, sectors, cs) && k < |cs| && AllFull(cs, |cs|)
    ensures |Concat(cs[..k])| == Start(sectors, k)
    ensures k + 1 < |cs| ==> Padded(cs[k]) == cs[k]
  {
    PrefixIsSlice(l, sectors, cs, k);
    assert CutIs(l, sectors, cs, k);
    if k + 1 < |cs| {
      assert CutIs(l, sectors, cs, k + 1);
      assert |cs[k]| == Start(sectors, k + 1) - Start(sectors, k);
      WholeSum(StartSectors(sectors, k + 1) - StartSectors(sectors, k), 0);
      assert Zeros(0) == [];
    }
  }

  /** Padding the last piece pads the whole. */
  lemma PadLast(a: Bytes, c: Bytes, q: nat)
    requires |a| == 4096 * q
    ensures a + Padded(c) == Padded(a + c)
  {
    WholeSum(q, |c|);
    assert Padded(a + c) == a + c + Zeros(4096 * Whole(|c|) - |c|);
  }

  lemma WholeSum(q: nat, n: nat)
    ensures Whole(4096 * q + n) == q + Whole(n)
  {
  }

  /** The write of chunk k. */
  function WriteOf(cs: seq<Bytes>, k: nat, address: nat): Write
    requires k < |cs|
  {
    Write(address + |Concat(cs[..k])|, Padded(cs[k]))
  }

  /** After n chunks, none of which was empty: one write each, all so far, and with the last one the whole. */
  ghost predicate Flashing(ws: seq<Write>, cs: seq<Bytes>, n: nat, address: nat, whole: Bytes)
    requires n <= |cs|
  {
    && Contiguous(ws, address) && |ws| == n
    && (forall k {:trigger WriteOf(cs, k, address)} :: 0 <= k < n ==> ws[k] == WriteOf(cs, k, address))
    && Written(ws) == if n < |cs| then Concat(cs[..n]) else whole
  }

  lemma FlashingStep(cs: seq<Bytes>, address: nat, whole: Bytes, ws: seq<Write>, n: nat, w: Write)
    requires n < |cs| && Flashing(ws, cs, n, address, whole) && w == Write(address + |Written(ws)|, Padded(cs[n]))
    requires if n + 1 < |cs| then w.bytes == cs[n] else Concat(cs[..n]) + w.bytes == whole
    ensures Flashing(ws + [w], cs, n + 1, address, whole)
  {
    assert cs[..n + 1][..n] == cs[..n];
    Snoc(ws, address, w);
    assert w == WriteOf(cs, n, address);
  }

  /** What the next write holds. */
  lemma NextWrite(l: Bytes, s: nat, cs: seq<Bytes>, n: nat)
    requires Cuts(l, s, cs) && n < |cs| && AllFull(cs, |cs|)
    ensures n + 1 < |cs| ==> Padded(cs[n]) == cs[n]
    ensures n + 1 == |cs| ==> Concat(cs[..n]) + Padded(cs[n]) == Padded(l)
  {
    WholeSectors(l, s, cs, n);
    if n + 1 == |cs| {
      LastWrite(l, s, cs);
    }
  }

  lemma LastWrite(l: Bytes, s: nat, cs: seq<Bytes>)
    requires Cuts(l, s, cs) && |cs| > 0 && AllFull(cs, |cs|)
    ensures Concat(cs[..|cs| - 1]) + Padded(cs[|cs| - 1]) == Padded(l)
  {
    var n := |cs| - 1;
    WholeSectors(l, s, cs, n);
    PadLast(Concat(cs[..n]), cs[n], StartSectors(s, n));
    CutsCover(l, s, cs);
  }

  lemma FlashingOn(l: Bytes, s: nat, cs: seq<Bytes>, address: nat, whole: Bytes, ws: seq<Write>, n: nat, w: Write)
    requires Cuts(l, s, cs) && n < |cs| && AllFull(cs, |cs|)
    requires whole == Padded(l) && Flashing(ws, cs, n, address, whole)
    requires w == Write(address + |Written(ws)|, Padded(cs[n]))
    ensures Flashing(ws + [w], cs, n + 1, address, whole)
  {
    NextWrite(l, s, cs, n);
    FlashingStep(cs, address, whole, ws, n, w);
  }

  lemma WrittenSnoc(ws: seq<Write>, w: Write)
    ensures Written(ws + [w]) == Written(ws) + w.bytes
  {
    assert (ws + [w])[..|ws|] == ws;
  }

  /** chunk.ljust up to a multiple of the sector size, then dump_to_flash with the padded length as size. */
  method DumpChunk(c: Bytes, address: nat) returns (r: Result<seq<Write>>)
    ensures r == if c == [] then Raised(ZeroStep) else Ok([Write(address, Padded(c))])
  {
    var aligned := (4096 - |c| % 4096) % 4096 + |c|;
    AlignedLength(|c|);
    var chunk := c + Zeros(aligned - |c|);
    r := DumpToFlash(chunk, address, |chunk|);
  }

  /** One turn of the loop, for chunk n. */
  method FlashNext(data: Bytes, address: nat, ghost s: nat, cs: seq<Bytes>, n: nat, ws: seq<Write>, writeLen: nat)
    returns (ok: bool, ws': seq<Write>, writeLen': nat)
    requires Cuts(data, s, cs) && n < |cs|
    requires writeLen == |Written(ws)| && (AllFull(cs, |cs|) ==> Flashing(ws, cs, n, address, Padded(data)))
    ensures ok <==> cs[n] != []
    ensures ok ==> writeLen' == |Written(ws')|
                   && (AllFull(cs, |cs|) ==> Flashing(ws', cs, n + 1, address, Padded(data)))
  {
    ghost var w := Write(address + writeLen, Padded(cs[n]));
    var dumped := DumpChunk(cs[n], address + writeLen);
    if dumped.Raised? {
      return false, ws, writeLen;
    }
    ws', writeLen' := ws + dumped.value, writeLen + |dumped.value[0].bytes|;
    assert ws' == ws + [w];
    WrittenSnoc(ws, w);
    if AllFull(cs, |cs|) {
      FlashingOn(data, s, cs, address, Padded(data), ws, n, w);
    }
    return true, ws', writeLen';
  }

  /** The loop over the chunks: it raises exactly when some chunk is empty; otherwise there is one write per chunk,
      contiguous from the address, and together they are the zero-padded data. */
  method FlashChunks(data: Bytes, address: nat, ghost s: nat, cs: seq<Bytes>) returns (r: Result<seq<Write>>)
    requires Cuts(data, s, cs)
    ensures r.Raised? ==> r.error == ZeroStep
    ensures r.Ok? <==> AllFull(cs, |cs|)
    ensures r.Ok? ==> Flashing(r.value, cs, |cs|, address, Padded(data))
  {
    var ws: seq<Write> := [];
    var writeLen: nat := 0;
    var n: nat := 0;
    NoChunks(data, s, cs);
    while n < |cs|
      invariant n <= |cs| && writeLen == |Written(ws)| && AllFull(cs, n)
      invariant AllFull(cs, |cs|) ==> Flashing(ws, cs, n, address, Padded(data))
    {
      var ok;
      ok, ws, writeLen := FlashNext(data, address, s, cs, n, ws, writeLen);
      if !ok {
        return Raised(ZeroStep);
      }
      n := n + 1;
    }
    return Ok(ws);
  }

  /** No write of chunks at their own address crosses a frame boundary. */
  lemma WritesWithinFrames(l: Bytes, address: nat, cs: seq<Bytes>, ws: seq<Write>)
    requires address % 4096 == 0 && Cuts(l, Sectors(address), cs) && AllFull(cs, |cs|)
    requires Flashing(ws, cs, |cs|, address, Padded(l))
    ensures AllInFrame(ws)
  {
    forall k | 0 <= k < |ws| ensures InFrame(ws[k]) {
      assert ws[k] == WriteOf(cs, k, address);
      WholeSectors(l, Sectors(address), cs, k);
      WithinFrame(l, address, cs, k);
    }
  }

  /** One write for every chunk, filled up to whole sectors. */
  ghost predicate HoldsPadded(ws: seq<Write>, cs: seq<Bytes>) {
    |ws| == |cs| && forall k {:trigger ws[k]} {:trigger cs[k]} :: 0 <= k < |ws| ==> ws[k].bytes == Padded(cs[k])
  }

  lemma FlashingHolds(ws: seq<Write>, cs: seq<Bytes>, address: nat, whole: Bytes)
    requires Flashing(ws, cs, |cs|, address, whole)
    ensures HoldsPadded(ws, cs)
  {
    forall k | 0 <= k < |ws| ensures ws[k].bytes == Padded(cs[k]) {
      assert ws[k] == WriteOf(cs, k, address);
    }
  }

  /** flash_firmware without a header, on the chunks of the given address. It raises exactly when the address is
      misaligned or some chunk is empty; otherwise it writes the zero-padded data, contiguously from the address, and
      every write stays inside one frame. */
  method FlashFirmware(data: Bytes, address: nat) returns (r: Result<seq<Write>>)
    ensures r == Raised(NotAligned) <==> address % 4096 != 0
    ensures r == Raised(ZeroStep) <==> address % 4096 == 0 && !NoEmptyChunk(data, address)
    ensures r.Ok? ==> Contiguous(r.value, address) && AllInFrame(r.value) && Written(r.value) == Padded(data)
    ensures r.Ok? ==> ChunksAt(data, address).Ok? && HoldsPadded(r.value, ChunksAt(data, address).value)
  {
    RefusedExactly(data, address);
    var chunks := ChunksAt(data, address);
    if chunks.Raised? {
      return Raised(NotAligned);
    }
    ChunksAreCuts(data, address);
    EmptyChunkExactly(data, address);
    r := FlashChunks(data, address, Sectors(address), chunks.value);
    if r.Ok? {
      WritesWithinFrames(data, address, chunks.value, r.value);
      FlashingHolds(r.value, chunks.value, address, Padded(data));
    }
  }

  // ---------- firmware with a header ----------

  /** struct.pack('I', n) */
  function Pack32(n: nat): (r: Bytes)
    ensures |r| == 4
  {
    [n % 256, n / 0x100 % 256, n / 0x1_0000 % 256, n / 0x100_0000 % 256]
  }

  function Unpack32(b: Bytes): int
    requires |b| == 4
  {
    (b[0] as int) + 0x100 * (b[1] as int) + 0x1_0000 * (b[2] as int) + 0x100_0000 * (b[3] as int)
  }

  /** The cipher flag, the length, the firmware, and the digest of all that. */
  function WithHeader(encrypted: bool, firmware: Bytes, digest: Bytes): Bytes {
    [if encrypted then 1 else 0] + Pack32(|firmware|) + firmware + digest
  }

  /** flash_firmware with a header never raises, whatever the address: the image is in flash, padded with zeros. Its
      chunks do not know the address, so the writes keep to frames exactly when they start at one or fit into one. */
  method FlashSigned(firmware: Bytes, encrypted: bool, digest: Bytes, address: nat) returns (ws: seq<Write>)
    ensures Contiguous(ws, address) && Written(ws) == Padded(WithHeader(encrypted, firmware, digest))
    ensures HoldsPadded(ws, Plain(WithHeader(encrypted, firmware, digest), 65536))
    ensures AllInFrame(ws) <==> KeepsToFrames(address, |Padded(WithHeader(encrypted, firmware, digest))|)
  {
    var data := WithHeader(encrypted, firmware, digest);
    var cs := Plain(data, 65536);
    PlainCuts(data);
    PlainFull(data);
    var r := FlashChunks(data, address, 0, cs);
    ws := r.value;
    FlashingHolds(ws, cs, address, Padded(data));
    FramesExactly(data, address, ws);
  }

  /** Starting at a frame, or ending before the next one. */
  predicate KeepsToFrames(address: nat, length: nat) {
    address % 65536 == 0 || address % 65536 + length <= 65536
  }

  /** Chunks that are cut without the address stay inside frames exactly under this condition. */
  lemma FramesExactly(l: Bytes, address: nat, ws: seq<Write>)
    requires l != [] && Flashing(ws, Plain(l, 65536), |Plain(l, 65536)|, address, Padded(l))
    ensures AllInFrame(ws) <==> KeepsToFrames(address, |Padded(l)|)
  {
    var cs := Plain(l, 65536);
    PlainCuts(l);
    PlainFull(l);
    if address % 65536 == 0 {
      StartPosIs(address);
      WritesWithinFrames(l, address, cs, ws);
    } else {
      FirstWrite(l, address, cs, ws);
      FrameOffset(address, |ws[0].bytes|);
      assert InFrame(ws[0]) <==> KeepsToFrames(address, |Padded(l)|);
    }
  }

  /** The first write starts at the address and holds a whole frame, or everything. */
  lemma FirstWrite(l: Bytes, address: nat, cs: seq<Bytes>, ws: seq<Write>)
    requires Cuts(l, 0, cs) && AllFull(cs, |cs|) && l != [] && Flashing(ws, cs, |cs|, address, Padded(l))
    ensures |ws| == |cs| >= 1 && ws[0].address == address
    ensures |cs| == 1 ==> |ws[0].bytes| == |Padded(l)| <= 65536
    ensures |cs| > 1 ==> |ws[0].bytes| == 65536 <= |Padded(l)|
  {
    assert ws[0] == WriteOf(cs, 0, address) && cs[..0] == [];
    assert CutIs(l, 0, cs, 0);
    if |cs| == 1 {
      PaddedBound(l, 16);
    } else {
      assert CutIs(l, 0, cs, 1);
      WholeSectors(l, 0, cs, 0);
    }
  }

  /** A write that starts inside a frame leaves it exactly when it is longer than the rest of the frame. */
  lemma FrameOffset(address: nat, length: nat)
    requires 0 < length <= 65536
    ensures address / 65536 == (address + length - 1) / 65536 <==> address % 65536 + length <= 65536
  {
    var q, m := address / 65536, address % 65536;
    assert address == 65536 * q + m;
  }

  lemma PlainFull(l: Bytes)
    ensures AllFull(Plain(l, 65536), |Plain(l, 65536)|)
  {
    PlainCuts(l);
    var cs := Plain(l, 65536);
    forall k | 0 <= k < |cs| ensures cs[k] != [] {
      assert CutIs(l, 0, cs, k);
    }
  }

  /** The flag, the length in four bytes, of which the lowest comes first, and what follows them. */
  predicate HeaderIs(b: Bytes, encrypted: bool, length: nat, rest: Bytes) {
    && |b| >= 5 + |rest| && b[0] == (if encrypted then 1 else 0)
    && (b[1] as int) + 0x100 * (b[2] as int) + 0x1_0000 * (b[3] as int) + 0x100_0000 * (b[4] as int) == length
    && b[5..5 + |rest|] == rest
  }

  /** A loader finds everything again: the flag, the length, that many bytes of firmware, and the digest behind them. */
  lemma HeaderReads(encrypted: bool, firmware: Bytes, digest: Bytes)
    requires |firmware| < 0x1_0000_0000
    ensures HeaderIs(Padded(WithHeader(encrypted, firmware, digest)), encrypted, |firmware|, firmware + digest)
  {
    var all := WithHeader(encrypted, firmware, digest);
    HeaderParts(encrypted, firmware, digest);
    PackReads(|firmware|);
    InPadded(all, 0, 5);
    InPadded(all, 5, |all|);
    HeaderOf(Padded(all), encrypted, |firmware|, firmware + digest);
  }

  lemma HeaderOf(b: Bytes, encrypted: bool, n: nat, rest: Bytes)
    requires |b| >= 5 + |rest| && b[0..5] == [if encrypted then 1 else 0] + Pack32(n) && b[5..5 + |rest|] == rest
    requires Unpack32(Pack32(n)) == n
    ensures HeaderIs(b, encrypted, n, rest)
  {
    var h, p := b[0..5], Pack32(n);
    assert b[0] == h[0];
    assert b[1] == h[1] == p[0];
    assert b[2] == h[2] == p[1];
    assert b[3] == h[3] == p[2];
    assert b[4] == h[4] == p[3];
  }

  lemma HeaderParts(encrypted: bool, firmware: Bytes, digest: Bytes)
    ensures var all := WithHeader(encrypted, firmware, digest);
            && |all| == 5 + |firmware + digest| && all[0..5] == [if encrypted then 1 else 0] + Pack32(|firmware|)
            && all[5..] == firmware + digest
  {
  }

  lemma InPadded(l: Bytes, i: nat, j: nat)
    requires i <= j <= |l|
    ensures |Padded(l)| >= |l| && Padded(l)[i..j] == l[i..j]
  {
  }

  lemma PackReads(n: nat)
    requires n < 0x1_0000_0000
    ensures Unpack32(Pack32(n)) == n
  {
    assert n / 0x1_0000 == n / 0x100 / 0x100 && n / 0x100_0000 == n / 0x100 / 0x100 / 0x100;
  }

  lemma NoChunks(l: Bytes, sectors: nat, cs: seq<Bytes>)
    requires Cuts(l, sectors, cs)
    ensures |cs| == 0 ==> Padded(l) == []
  {
  }

  /** A write that stays inside one frame. */
  ghost predicate InFrame(w: Write) {
    0 < |w.bytes| <= 65536 && w.address / 65536 == (w.address + |w.bytes| - 1) / 65536
  }

  ghost predicate AllInFrame(ws: seq<Write>) {
    forall k {:trigger InFrame(ws[k])} :: 0 <= k < |ws| ==> InFrame(ws[k])
  }
}
