/**
 The initial ram disk: the build-time generator that lays out header, file table and contents,
 and the kernel's reader of the same image. File names are byte strings without terminator.
 */
module InitialRamdisk {
  import opened Words

  type bytes = seq<byte>

  const DATA_START: nat := 5140
  const MAX_FILES: nat := 64
  const NAME_SIZE: nat := 64
  const ENTRY_SIZE: nat := 80
  const TABLE_START: nat := 20
  const VERSION: byte := 3

  datatype File = File(name: bytes, content: bytes, stamp: nat)

  // ---------- Little-endian fields ----------

  function LittleEndian(n: nat, k: nat): (b: bytes)
    ensures |b| == k
  {
    if k == 0 then [] else [n % 256] + LittleEndian(n / 256, k - 1)
  }

  function FromLittleEndian(b: bytes): nat {
    if b == [] then 0 else b[0] as int + 256 * FromLittleEndian(b[1..])
  }

  ghost function Pow256(k: nat): nat { if k == 0 then 1 else 256 * Pow256(k - 1) }

  lemma {:induction false} Pow256Positive(k: nat)
    ensures Pow256(k) > 0
  {
    if k > 0 { Pow256Positive(k - 1); }
  }

  lemma {:induction false} LittleEndianRoundTrip(n: nat, k: nat)
    requires n < Pow256(k)
    ensures FromLittleEndian(LittleEndian(n, k)) == n
  {
    if k > 0 {
      LittleEndianRoundTrip(n / 256, k - 1);
      assert LittleEndian(n, k)[1..] == LittleEndian(n / 256, k - 1);
    }
  }

  /** The low byte comes first. */
  lemma LowByteFirst(n: nat, b: byte, k: nat)
    ensures LittleEndian(256 * n + b, k + 1) == [b] + LittleEndian(n, k)
  {
    assert (256 * n + b) % 256 == b && (256 * n + b) / 256 == n;
  }

  lemma FourBytes(b0: byte, b1: byte, b2: byte, b3: byte)
    ensures LittleEndian(b0 + 0x100 * b1 + 0x1_0000 * b2 + 0x100_0000 * b3, 4) == [b0, b1, b2, b3]
  {
    LowByteFirst(b1 + 0x100 * b2 + 0x1_0000 * b3, b0, 3);
    LowByteFirst(b2 + 0x100 * b3, b1, 2);
    LowByteFirst(b3, b2, 1);
    LowByteFirst(0, b3, 0);
  }

  function Zeros(k: nat): (b: bytes)
    ensures |b| == k && forall i | 0 <= i < k :: b[i] == 0
  {
    seq(k, _ => 0)
  }

  /** A `64s` field: cut or padded to 64 bytes. */
  function NameField(name: bytes): (b: bytes)
    ensures |b| == NAME_SIZE
  {
    if |name| >= NAME_SIZE then name[..NAME_SIZE] else name + Zeros(NAME_SIZE - |name|)
  }

  // ---------- The image as a value ----------

  function Header(serial: nat): (b: bytes)
    ensures |b| == 16
  {
    [0x80, 'I' as int, 'R' as int, 'D' as int, VERSION, 0, 0, 0] + LittleEndian(serial, 8)
  }

  function Entry(name: bytes, size: nat, offset: nat, stamp: nat): (b: bytes)
    ensures |b| == ENTRY_SIZE
  {
    NameField(name) + LittleEndian(size, 4) + LittleEndian(offset, 4) + LittleEndian(stamp, 8)
  }

  /** The offset of file `i`: behind the preamble and the files before it. */
  function Offset(fs: seq<File>, i: nat): nat
    requires i <= |fs|
  {
    if i == 0 then DATA_START else Offset(fs, i - 1) + |fs[i - 1].content|
  }

  /** An entry with an empty name and zero fields. */
  function NullEntry(): (b: bytes)
    ensures |b| == ENTRY_SIZE
  {
    Zeros(ENTRY_SIZE)
  }

  lemma NullEntryIsPacked()
    ensures NullEntry() == Entry([], 0, 0, 0)
  {
    assert forall k: nat | k <= 8 :: LittleEndian(0, k) == Zeros(k) by {
      forall k: nat | k <= 8 ensures LittleEndian(0, k) == Zeros(k) { LittleEndianZero(k); }
    }
  }

  lemma {:induction false} LittleEndianZero(k: nat)
    ensures LittleEndian(0, k) == Zeros(k)
  {
    if k > 0 { LittleEndianZero(k - 1); }
  }

  /** Entry `i` of the table: a file, or null behind the last file. */
  function EntryOf(fs: seq<File>, i: nat): (b: bytes)
    ensures |b| == ENTRY_SIZE
  {
    if i < |fs| then Entry(fs[i].name, |fs[i].content|, Offset(fs, i), fs[i].stamp) else NullEntry()
  }

  type Block = b: bytes | |b| == ENTRY_SIZE witness Zeros(ENTRY_SIZE)

  function Blocks(fs: seq<File>): (bs: seq<Block>)
    ensures |bs| == MAX_FILES
  {
    seq(MAX_FILES, i requires 0 <= i < MAX_FILES => EntryOf(fs, i))
  }

  function Flatten(bs: seq<Block>): (b: bytes)
    ensures |b| == ENTRY_SIZE * |bs|
  {
    if bs == [] then [] else Flatten(bs[..|bs| - 1]) + bs[|bs| - 1]
  }

  function Table(fs: seq<File>): (b: bytes)
    ensures |b| == 4 + ENTRY_SIZE * MAX_FILES
  {
    LittleEndian(|fs|, 4) + Flatten(Blocks(fs))
  }

  function Data(fs: seq<File>, k: nat): bytes
    requires k <= |fs|
  {
    if k == 0 then [] else Data(fs, k - 1) + fs[k - 1].content
  }

  function Image(fs: seq<File>, serial: nat): bytes {
    Header(serial) + Table(fs) + Data(fs, |fs|)
  }

  /** An entry that cannot be packed: its size or offset does not fit its field. */
  ghost predicate Unpackable(fs: seq<File>, i: nat)
    requires i < |fs|
  {
    |fs[i].content| >= TWO32 || Offset(fs, i) >= TWO32
  }

  /** What makes the generator fail: an empty file, or an entry that cannot be packed. */
  ghost predicate Refused(fs: seq<File>, i: nat)
    requires i < |fs|
  {
    fs[i].content == [] || Unpackable(fs, i)
  }

  /** The first entry from `k` on that cannot be packed; the number of files if all can. */
  ghost function FirstUnpackable(fs: seq<File>, k: nat): (j: nat)
    requires k <= |fs|
    ensures k <= j <= |fs| && (j < |fs| ==> Unpackable(fs, j))
    ensures forall m: nat | k <= m < j :: !Unpackable(fs, m)
    decreases |fs| - k
  {
    if k == |fs| || Unpackable(fs, k) then k else FirstUnpackable(fs, k + 1)
  }

  /** What is in the output when packing fails: the header, the count and the entries before the failing one. */
  ghost function Partial(fs: seq<File>, serial: nat): bytes
    requires |fs| <= MAX_FILES
  {
    Header(serial) + (LittleEndian(|fs|, 4) + Flatten(Blocks(fs)[..FirstUnpackable(fs, 0)]))
  }

  /** Lists of files the generator turns into an image. */
  ghost predicate Fits(fs: seq<File>) {
    |fs| <= MAX_FILES && forall i: nat | i < |fs| :: !Refused(fs, i) && fs[i].stamp < Pow256(8)
  }

  // ---------- Where things are ----------

  lemma SliceOfFront(a: bytes, b: bytes, lo: nat, hi: nat)
    requires lo <= hi <= |a|
    ensures (a + b)[lo..hi] == a[lo..hi]
  {
  }

  lemma SliceOfBack(a: bytes, b: bytes, lo: nat, hi: nat)
    requires lo <= hi <= |b|
    ensures (a + b)[|a| + lo..|a| + hi] == b[lo..hi]
  {
  }

  lemma {:induction false} BlockAt(bs: seq<Block>, i: nat)
    requires i < |bs|
    ensures Flatten(bs)[ENTRY_SIZE * i..ENTRY_SIZE * (i + 1)] == bs[i]
  {
    var n := |bs| - 1;
    var front, last := Flatten(bs[..n]), bs[n];
    if i < n {
      BlockAt(bs[..n], i);
      SliceOfFront(front, last, ENTRY_SIZE * i, ENTRY_SIZE * (i + 1));
    } else {
      SliceOfBack(front, last, 0, ENTRY_SIZE);
    }
  }

  lemma {:induction false} DataLength(fs: seq<File>, k: nat)
    requires k <= |fs|
    ensures DATA_START + |Data(fs, k)| == Offset(fs, k)
  {
    if k > 0 { DataLength(fs, k - 1); }
  }

  /** The contents of file `i` stand behind `a` and in front of `b`. */
  lemma {:induction false} DataSplits(fs: seq<File>, i: nat, k: nat) returns (a: bytes, b: bytes)
    requires i < k <= |fs|
    ensures Data(fs, k) == a + fs[i].content + b && DATA_START + |a| == Offset(fs, i)
  {
    DataLength(fs, i);
    if i < k - 1 {
      var c;
      a, c := DataSplits(fs, i, k - 1);
      b := c + fs[k - 1].content;
      Regroup(a + fs[i].content, c, fs[k - 1].content);
    } else {
      a, b := Data(fs, i), [];
    }
  }

  lemma Regroup(a: bytes, b: bytes, c: bytes)
    ensures a + b + c == a + (b + c)
  {
  }

  lemma Middle(p: bytes, a: bytes, c: bytes, b: bytes)
    ensures (p + (a + c + b))[|p| + |a|..|p| + |a| + |c|] == c
  {
  }

  /** Every byte behind the preamble belongs to one file, in order, up to the end of the image. */
  lemma Tiles(fs: seq<File>, serial: nat)
    ensures Offset(fs, 0) == DATA_START && Offset(fs, |fs|) == |Image(fs, serial)|
    ensures forall i | 0 <= i < |fs| :: Offset(fs, i + 1) == Offset(fs, i) + |fs[i].content|
  {
    DataLength(fs, |fs|);
  }

  // ---------- The kernel's reader ----------

  predicate Accepts(image: bytes) {
    && |image| >= DATA_START
    && image[0] == 0x80 && image[1] == 'I' as int && image[2] == 'R' as int && image[3] == 'D' as int
    && image[4] == VERSION
  }

  function EntryStart(i: nat): nat { TABLE_START + ENTRY_SIZE * i }

  function Count(image: bytes): nat
    requires |image| >= DATA_START
  {
    FromLittleEndian(image[16..20])
  }

  function SizeAt(image: bytes, i: nat): nat
    requires |image| >= DATA_START && i < MAX_FILES
  {
    FromLittleEndian(image[EntryStart(i) + 64..EntryStart(i) + 68])
  }

  function StartAt(image: bytes, i: nat): nat
    requires |image| >= DATA_START && i < MAX_FILES
  {
    FromLittleEndian(image[EntryStart(i) + 68..EntryStart(i) + 72])
  }

  function StampAt(image: bytes, i: nat): nat
    requires |image| >= DATA_START && i < MAX_FILES
  {
    FromLittleEndian(image[EntryStart(i) + 72..EntryStart(i) + 80])
  }

  /** The name the reader compares: it does not stop at the end of the name field. */
  function NameAt(image: bytes, i: nat): bytes
    requires |image| >= DATA_START && i < MAX_FILES
  {
    CString(image[EntryStart(i)..], 0)
  }

  lemma EntryInImage(fs: seq<File>, serial: nat, i: nat)
    requires i < |fs| && i < MAX_FILES
    ensures EntryStart(i) + ENTRY_SIZE <= DATA_START <= |Image(fs, serial)|
    ensures Image(fs, serial)[EntryStart(i)..EntryStart(i) + ENTRY_SIZE] ==
            Entry(fs[i].name, |fs[i].content|, Offset(fs, i), fs[i].stamp)
  {
    var h, count, es, d := Parts(fs, serial);
    BlockAt(Blocks(fs), i);
    PreambleSlice(h, count, es, d, ENTRY_SIZE * i, ENTRY_SIZE * (i + 1));
  }

  /** The four parts of an image. */
  lemma Parts(fs: seq<File>, serial: nat) returns (h: bytes, count: bytes, es: bytes, d: bytes)
    ensures Image(fs, serial) == h + (count + es) + d
    ensures |h| == 16 && |count| == 4 && |es| == ENTRY_SIZE * MAX_FILES
    ensures h == Header(serial) && count == LittleEndian(|fs|, 4) && es == Flatten(Blocks(fs)) && d == Data(fs, |fs|)
  {
    h, count, es, d := Header(serial), LittleEndian(|fs|, 4), Flatten(Blocks(fs)), Data(fs, |fs|);
  }

  lemma PreambleSlice(h: bytes, count: bytes, es: bytes, d: bytes, lo: nat, hi: nat)
    requires lo <= hi <= |es|
    ensures (h + (count + es) + d)[|h| + |count| + lo..|h| + |count| + hi] == es[lo..hi]
  {
    var at := |h| + |count|;
    SliceOfFront(h + (count + es), d, at + lo, at + hi);
    SliceOfBack(h, count + es, |count| + lo, |count| + hi);
    SliceOfBack(count, es, lo, hi);
  }

  lemma EntryFields(name: bytes, size: nat, offset: nat, stamp: nat)
    ensures var e := Entry(name, size, offset, stamp);
            && e[..64] == NameField(name)
            && e[64..68] == LittleEndian(size, 4)
            && e[68..72] == LittleEndian(offset, 4)
            && e[72..80] == LittleEndian(stamp, 8)
  {
  }

  lemma SubSlice(b: bytes, at: nat, n: nat, lo: nat, hi: nat)
    requires lo <= hi <= n && at + n <= |b|
    ensures b[at..at + n][lo..hi] == b[at + lo..at + hi]
  {
    var c, d := b[at..at + n][lo..hi], b[at + lo..at + hi];
    assert |c| == |d| && forall k | 0 <= k < |c| :: c[k] == b[at..at + n][lo + k] == b[at + lo + k] == d[k];
  }

  lemma Pow256Of4()
    ensures Pow256(4) == TWO32
  {
    assert Pow256(1) == 0x100 && Pow256(2) == 0x1_0000 && Pow256(3) == 0x100_0000;
  }

  /** One number of an entry, read from an image with the entry in its place. */
  lemma DecodeField(image: bytes, at: nat, entry: bytes, lo: nat, hi: nat, n: nat)
    requires at + ENTRY_SIZE <= |image| && image[at..at + ENTRY_SIZE] == entry && lo <= hi <= ENTRY_SIZE
    requires entry[lo..hi] == LittleEndian(n, hi - lo) && n < Pow256(hi - lo)
    ensures FromLittleEndian(image[at + lo..at + hi]) == n
  {
    SubSlice(image, at, ENTRY_SIZE, lo, hi);
    LittleEndianRoundTrip(n, hi - lo);
  }

  lemma DecodeFields(image: bytes, at: nat, entry: bytes, size: nat, offset: nat, stamp: nat)
    requires at + ENTRY_SIZE <= |image| && image[at..at + ENTRY_SIZE] == entry
    requires size < TWO32 && offset < TWO32 && stamp < Pow256(8)
    requires entry[64..68] == LittleEndian(size, 4) && entry[68..72] == LittleEndian(offset, 4)
    requires entry[72..80] == LittleEndian(stamp, 8)
    ensures FromLittleEndian(image[at + 64..at + 68]) == size
    ensures FromLittleEndian(image[at + 68..at + 72]) == offset
    ensures FromLittleEndian(image[at + 72..at + 80]) == stamp
  {
    Pow256Of4();
    DecodeField(image, at, entry, 64, 68, size);
    DecodeField(image, at, entry, 68, 72, offset);
    DecodeField(image, at, entry, 72, 80, stamp);
  }

  /** Any image with an entry in its place gives back the fields of the entry. */
  lemma DecodeEntry(image: bytes, i: nat, name: bytes, size: nat, offset: nat, stamp: nat)
    requires |image| >= DATA_START && i < MAX_FILES && size < TWO32 && offset < TWO32 && stamp < Pow256(8)
    requires image[EntryStart(i)..EntryStart(i) + ENTRY_SIZE] == Entry(name, size, offset, stamp)
    ensures SizeAt(image, i) == size && StartAt(image, i) == offset && StampAt(image, i) == stamp
    ensures image[EntryStart(i)..EntryStart(i) + NAME_SIZE] == NameField(name)
  {
    EntryFields(name, size, offset, stamp);
    SubSlice(image, EntryStart(i), ENTRY_SIZE, 0, 64);
    DecodeFields(image, EntryStart(i), Entry(name, size, offset, stamp), size, offset, stamp);
  }

  lemma HeaderRecovers(fs: seq<File>, serial: nat)
    requires |fs| <= MAX_FILES
    ensures Accepts(Image(fs, serial)) && Count(Image(fs, serial)) == |fs|
  {
    var h, count, es, d := Parts(fs, serial);
    HeaderThen(h, count, es, d, serial);
    Pow256Of4();
    LittleEndianRoundTrip(|fs|, 4);
  }

  lemma HeaderThen(h: bytes, count: bytes, es: bytes, d: bytes, serial: nat)
    requires h == Header(serial) && |count| == 4 && |h + (count + es) + d| >= DATA_START
    ensures Accepts(h + (count + es) + d) && (h + (count + es) + d)[16..20] == count
  {
    SliceOfFront(h + (count + es), d, 16, 20);
    SliceOfBack(h, count + es, 0, 4);
    SliceOfFront(count, es, 0, 4);
  }

  /** The first bytes of every image: magic, version 3 and the serial of the build. */
  lemma HeaderBytes(fs: seq<File>, serial: nat)
    requires serial < Pow256(8)
    ensures |Image(fs, serial)| >= 5140 && Image(fs, serial)[..8] == [0x80, 0x49, 0x52, 0x44, 3, 0, 0, 0]
    ensures FromLittleEndian(Image(fs, serial)[8..16]) == serial
  {
    var h, count, es, d := Parts(fs, serial);
    SliceOfFront(h + (count + es), d, 0, 8);
    SliceOfFront(h, count + es, 0, 8);
    SliceOfFront(h + (count + es), d, 8, 16);
    SliceOfFront(h, count + es, 8, 16);
    assert h[8..16] == LittleEndian(serial, 8);
    LittleEndianRoundTrip(serial, 8);
  }

  /** The table always has 64 entries: behind the files they are zero. */
  lemma UnusedEntriesAreZero(fs: seq<File>, serial: nat, i: nat)
    requires |fs| <= i < 64
    ensures |Image(fs, serial)| >= 5140 && Image(fs, serial)[20 + 80 * i..100 + 80 * i] == Zeros(80)
  {
    var h, count, es, d := Parts(fs, serial);
    BlockAt(Blocks(fs), i);
    PreambleSlice(h, count, es, d, ENTRY_SIZE * i, ENTRY_SIZE * (i + 1));
  }

  /** Reading the table of a generated image recovers every file: name field, size, offset and time. */
  lemma TableRecovers(fs: seq<File>, serial: nat, i: nat)
    requires Fits(fs) && i < |fs|
    ensures |Image(fs, serial)| >= DATA_START
    ensures Recovered(Image(fs, serial), i, fs[i], Offset(fs, i))
  {
    EntryInImage(fs, serial, i);
    assert !Refused(fs, i);
    DecodeEntry(Image(fs, serial), i, fs[i].name, |fs[i].content|, Offset(fs, i), fs[i].stamp);
  }

  /** Entry `i` of an image describes the file. */
  ghost predicate Recovered(image: bytes, i: nat, f: File, offset: nat)
    requires |image| >= DATA_START && i < MAX_FILES
  {
    && SizeAt(image, i) == |f.content| && StartAt(image, i) == offset && StampAt(image, i) == f.stamp
    && image[EntryStart(i)..EntryStart(i) + NAME_SIZE] == NameField(f.name)
  }

  /** The bytes at a file's offset are its contents. */
  lemma ContentsRecovered(fs: seq<File>, serial: nat, i: nat)
    requires i < |fs|
    ensures Offset(fs, i) + |fs[i].content| <= |Image(fs, serial)|
    ensures Image(fs, serial)[Offset(fs, i)..Offset(fs, i) + |fs[i].content|] == fs[i].content
  {
    var a, b := DataSplits(fs, i, |fs|);
    Middle(Header(serial) + Table(fs), a, fs[i].content, b);
  }

  lemma DecodeName(image: bytes, i: nat, name: bytes, size: nat, offset: nat, stamp: nat)
    requires |image| >= DATA_START && i < MAX_FILES && |name| <= NAME_SIZE && 0 !in name
    requires image[EntryStart(i)..EntryStart(i) + ENTRY_SIZE] == Entry(name, size, offset, stamp)
    ensures NameAt(image, i) == name <==> |name| < NAME_SIZE || size % 256 == 0
  {
    var at := EntryStart(i);
    var entry := image[at..at + ENTRY_SIZE];
    var rest := image[at + |name|..];
    SubSlice(image, at, ENTRY_SIZE, 0, |name|);
    assert entry[0..|name|] == name;
    assert image[at..] == image[at..at + |name|] + rest;
    CStringOf(name, rest, 0);
    assert rest[0] == entry[|name|];
    assert entry[|name|] == if |name| < NAME_SIZE then 0 else size % 256;
  }

  /**
   The reader finds a file under its own name exactly when the name leaves room for a terminator,
   or the size that follows a full name field happens to begin with a zero byte.
   */
  lemma NameRecovered(fs: seq<File>, serial: nat, i: nat)
    requires Fits(fs) && i < |fs| && |fs[i].name| <= NAME_SIZE && 0 !in fs[i].name
    ensures |Image(fs, serial)| >= DATA_START
    ensures NameAt(Image(fs, serial), i) == fs[i].name <==> |fs[i].name| < NAME_SIZE || |fs[i].content| % 256 == 0
  {
    EntryInImage(fs, serial, i);
    DecodeName(Image(fs, serial), i, fs[i].name, |fs[i].content|, Offset(fs, i), fs[i].stamp);
  }

  /** A full name field in front of a size that begins with a byte other than zero is not read back. */
  lemma FullNameLost(name: bytes, serial: nat)
    requires |name| == NAME_SIZE && 0 !in name
    ensures var fs := [File(name, [7], 0)];
            Fits(fs) && |Image(fs, serial)| >= DATA_START && NameAt(Image(fs, serial), 0) != name
  {
    var fs := [File(name, [7], 0)];
    assert Pow256(8) > 0 by { Pow256Positive(8); }
    assert Offset(fs, 0) == DATA_START && !Refused(fs, 0);
    NameRecovered(fs, serial, 0);
  }

  /** The extent an entry gives lies inside the image. */
  predicate ExtentInside(image: bytes, i: nat)
    requires |image| >= DATA_START && i < MAX_FILES
  {
    StartAt(image, i) + SizeAt(image, i) <= |image|
  }

  ghost predicate Readable(image: bytes) {
    && |image| >= DATA_START && Count(image) <= MAX_FILES
    && forall k: nat | k < Count(image) :: ExtentInside(image, k)
  }

  /** Looks a name up from entry `i` on: the first entry that matches. */
  function Find(image: bytes, name: bytes, i: nat): (content: Option<bytes>)
    requires Readable(image) && i <= Count(image)
    decreases Count(image) - i
  {
    if i == Count(image) then None
    else if NameAt(image, i) == name then
      assert ExtentInside(image, i);
      Some(image[StartAt(image, i)..StartAt(image, i) + SizeAt(image, i)])
    else Find(image, name, i + 1)
  }

  /** `doOpen` and reading to the end: one leading slash is ignored. */
  function Open(image: bytes, path: bytes): Option<bytes>
    requires Readable(image)
  {
    Find(image, if path != [] && path[0] == '/' as int then path[1..] else path, 0)
  }

  /** The contents of the first file of that name, from file `i` on. */
  function Named(fs: seq<File>, name: bytes, i: nat): Option<bytes>
    requires i <= |fs|
    decreases |fs| - i
  {
    if i == |fs| then None else if fs[i].name == name then Some(fs[i].content) else Named(fs, name, i + 1)
  }

  /** Entry `i` leads to the file under its name. */
  ghost predicate LeadsTo(image: bytes, i: nat, f: File)
    requires |image| >= DATA_START && i < MAX_FILES
  {
    && ExtentInside(image, i) && NameAt(image, i) == f.name
    && image[StartAt(image, i)..StartAt(image, i) + SizeAt(image, i)] == f.content
  }

  lemma {:induction false} FindIsNamed(image: bytes, fs: seq<File>, name: bytes, i: nat)
    requires Readable(image) && Count(image) == |fs| && i <= |fs|
    requires forall k: nat | k < |fs| :: LeadsTo(image, k, fs[k])
    ensures Find(image, name, i) == Named(fs, name, i)
    decreases |fs| - i
  {
    if i < |fs| {
      assert LeadsTo(image, i, fs[i]);
      FindIsNamed(image, fs, name, i + 1);
    }
  }

  /** Names the reader sees as they are. */
  ghost predicate ReadableName(f: File) {
    && 0 !in f.name && |f.name| <= NAME_SIZE
    && (|f.name| < NAME_SIZE || |f.content| % 256 == 0)
  }

  lemma EntryLeads(fs: seq<File>, serial: nat, i: nat)
    requires Fits(fs) && i < |fs| && ReadableName(fs[i])
    ensures |Image(fs, serial)| >= DATA_START && LeadsTo(Image(fs, serial), i, fs[i])
  {
    NameRecovered(fs, serial, i);
    TableRecovers(fs, serial, i);
    ContentsRecovered(fs, serial, i);
  }

  /** Opening a name in the generated image looks the file up in the list it was made from. */
  lemma OpenFinds(fs: seq<File>, serial: nat, name: bytes)
    requires Fits(fs) && (forall i | 0 <= i < |fs| :: ReadableName(fs[i]))
    requires name == [] || name[0] != '/' as int
    ensures Readable(Image(fs, serial))
    ensures Open(Image(fs, serial), name) == Open(Image(fs, serial), ['/' as int] + name) == Named(fs, name, 0)
  {
    HeaderRecovers(fs, serial);
    forall k: nat | k < |fs| ensures LeadsTo(Image(fs, serial), k, fs[k]) { EntryLeads(fs, serial, k); }
    OpenIn(Image(fs, serial), fs, name);
  }

  lemma OpenIn(image: bytes, fs: seq<File>, name: bytes)
    requires |image| >= DATA_START && Count(image) == |fs| <= MAX_FILES && (name == [] || name[0] != '/' as int)
    requires forall k: nat | k < |fs| :: LeadsTo(image, k, fs[k])
    ensures Readable(image) && Open(image, name) == Open(image, ['/' as int] + name) == Named(fs, name, 0)
  {
    forall k: nat | k < Count(image) ensures ExtentInside(image, k) { assert LeadsTo(image, k, fs[k]); }
    FindIsNamed(image, fs, name, 0);
    assert (['/' as int] + name)[1..] == name;
  }

  // ---------- The generator ----------

  lemma BlockOf(fs: seq<File>, i: nat)
    requires i < MAX_FILES
    ensures i < |fs| ==> Blocks(fs)[i] == Entry(fs[i].name, |fs[i].content|, Offset(fs, i), fs[i].stamp)
    ensures i >= |fs| ==> Blocks(fs)[i] == NullEntry()
  {
  }

  lemma FlattenAppend(w: bytes, bs: seq<Block>, i: nat)
    requires i < |bs|
    ensures w + Flatten(bs[..i + 1]) == w + Flatten(bs[..i]) + bs[i]
  {
    assert bs[..i + 1][..i] == bs[..i];
  }

  /** An output file that is only appended to. */
  class Stream {
    var written: bytes

    constructor ()
      ensures written == []
    {
      written := [];
    }

    method Write(b: bytes)
      modifies this
      ensures written == old(written) + b
    {
      written := written + b;
    }

    /** Stops at the first entry that cannot be packed. */
    method WriteTable(fs: seq<File>, offsets: seq<nat>) returns (ok: bool)
      requires |fs| <= MAX_FILES && |offsets| == |fs| && forall i | 0 <= i < |fs| :: offsets[i] == Offset(fs, i)
      modifies this
      ensures ok <==> FirstUnpackable(fs, 0) == |fs|
      ensures ok ==> written == old(written) + Table(fs)
      ensures !ok ==> written == old(written) + (LittleEndian(|fs|, 4) + Flatten(Blocks(fs)[..FirstUnpackable(fs, 0)]))
    {
      Write(LittleEndian(|fs|, 4));
      ghost var w := written;
      ok := WriteEntries(fs, offsets);
      if ok {
        WriteNullEntries(fs, w);
        Regroup(old(written), LittleEndian(|fs|, 4), Flatten(Blocks(fs)));
      } else {
        Regroup(old(written), LittleEndian(|fs|, 4), Flatten(Blocks(fs)[..FirstUnpackable(fs, 0)]));
      }
    }

    method WriteEntries(fs: seq<File>, offsets: seq<nat>) returns (ok: bool)
      requires |fs| <= MAX_FILES && |offsets| == |fs| && forall i | 0 <= i < |fs| :: offsets[i] == Offset(fs, i)
      modifies this
      ensures ok <==> FirstUnpackable(fs, 0) == |fs|
      ensures written == old(written) + Flatten(Blocks(fs)[..FirstUnpackable(fs, 0)])
    {
      ghost var bs := Blocks(fs);
      for i := 0 to |fs|
        invariant written == old(written) + Flatten(bs[..i])
        invariant FirstUnpackable(fs, 0) == FirstUnpackable(fs, i)
      {
        if |fs[i].content| >= TWO32 || offsets[i] >= TWO32 { return false; }
        BlockOf(fs, i);
        Write(Entry(fs[i].name, |fs[i].content|, offsets[i], fs[i].stamp));
        FlattenAppend(old(written), bs, i);
      }
      return true;
    }

    method WriteNullEntries(fs: seq<File>, ghost w: bytes)
      requires |fs| <= MAX_FILES && written == w + Flatten(Blocks(fs)[..|fs|])
      modifies this
      ensures written == w + Flatten(Blocks(fs))
    {
      ghost var bs := Blocks(fs);
      var i := |fs|;
      while i < MAX_FILES
        invariant |fs| <= i <= MAX_FILES && written == w + Flatten(bs[..i])
      {
        BlockOf(fs, i);
        Write(NullEntry());
        FlattenAppend(w, bs, i);
        i := i + 1;
      }
      assert bs[..MAX_FILES] == bs;
    }

    method WriteFiles(fs: seq<File>)
      modifies this
      ensures written == old(written) + Data(fs, |fs|)
    {
      for i := 0 to |fs|
        invariant written == old(written) + Data(fs, i)
      {
        Write(fs[i].content);
      }
    }
  }

  /** The offsets, computed ahead of the bytes they point to. */
  method GenInputFiles(fs: seq<File>) returns (offsets: seq<nat>)
    ensures |offsets| == |fs| && forall i | 0 <= i < |fs| :: offsets[i] == Offset(fs, i)
  {
    var offset := DATA_START;
    offsets := [];
    for i := 0 to |fs|
      invariant |offsets| == i && offset == Offset(fs, i)
      invariant forall k | 0 <= k < i :: offsets[k] == Offset(fs, k)
    {
      offsets := offsets + [offset];
      offset := offset + |fs[i].content|;
    }
  }

  method CheckFiles(fs: seq<File>) returns (ok: bool)
    ensures ok <==> forall i: nat | i < |fs| :: fs[i].content != []
  {
    for i := 0 to |fs|
      invariant forall k: nat | k < i :: fs[k].content != []
    {
      if fs[i].content == [] { return false; }
    }
    return true;
  }

  /**
   The whole generator: whether it succeeds, and what is in the output file then. With too many
   files the output is never opened; an empty file leaves it empty; an entry that cannot be
   packed leaves a partial table.
   */
  method Generate(fs: seq<File>, serial: nat) returns (ok: bool, output: Option<bytes>)
    ensures output == None <==> |fs| > MAX_FILES
    ensures ok <==> |fs| <= MAX_FILES && forall i: nat | i < |fs| :: !Refused(fs, i)
    ensures ok ==> output == Some(Image(fs, serial))
    ensures !ok && |fs| <= MAX_FILES ==>
              output == Some(if exists i: nat :: i < |fs| && fs[i].content == [] then [] else Partial(fs, serial))
  {
    if |fs| > MAX_FILES { return false, None; }
    var stream := new Stream();
    var offsets := GenInputFiles(fs);
    ok := CheckFiles(fs);
    if !ok {
      ghost var e: nat :| e < |fs| && fs[e].content == [];
      assert Refused(fs, e);
      return false, Some(stream.written);
    }
    stream.Write(Header(serial));
    assert stream.written == Header(serial);
    ok := stream.WriteTable(fs, offsets);
    if !ok {
      assert Refused(fs, FirstUnpackable(fs, 0));
      return false, Some(stream.written);
    }
    stream.WriteFiles(fs);
    return true, Some(stream.written);
  }
}
