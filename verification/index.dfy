/** The staging file, `.git/index` in version 2 of Git's layout, as `GitIndexEntry.write`,
    `GitIndex.write` and `GitIndex.read` handle it: a 12-byte header ("DIRC", the version,
    the entry count), then per entry 62 bytes of fixed-width big-endian fields, the name,
    a NUL and zero padding. Both sides are modelled as written (`AsWritten`); `Aligned`
    is the layout they evidently meant, and the round trip is proved for it. */
module IndexFile {
  import opened Wrappers
  import opened Bytes
  import opened Strings

  /** "DIRC" */
  const Signature: Bytes := [0x44, 0x49, 0x52, 0x43]
  const Version: nat := 2
  /** Signature, version and entry count, four bytes each. */
  const HeaderSize: nat := 12
  /** The fixed-width part of an entry, up to and including the flags. */
  const FixedSize: nat := 62
  /** The largest name length the flags hold; a longer name is found by its NUL. */
  const MaxNameLength: nat := 0xFFF
  /** The ways reading an entry can fail. */
  predicate IsEntryError(err: Error) {
    || err == BadReserved || err == BadModeType || err == ExtendedFlag
    || err == IndexOutOfRange || err == NameNotTerminated || err == MissingNul
  }
  /** The bound of a 4-byte field. */
  const Word: nat := 0x1_0000_0000

  /** A `GitIndexEntry`; `sha` is the hexadecimal digest, `stage` the stage bits where
      they sit in the flags (0x1000 for stage 1), `name` the path as UTF-8. */
  datatype Entry = Entry(
    ctime: (nat, nat), mtime: (nat, nat), dev: nat, ino: nat,
    modeType: nat, modePerms: nat, uid: nat, gid: nat, fsize: nat,
    sha: Text, assumeValid: bool, stage: nat, name: Text)

  /** A `GitIndex`: its version is always 2. */
  datatype Index = Index(entries: seq<Entry>)

  /** The entry layout the source writes and reads, and the aligned one. */
  datatype Layout = AsWritten | Aligned

  /** The mode types an entry may have: regular file, symbolic link, gitlink. */
  predicate IsModeType(t: nat) {
    t == 0x8 || t == 0xA || t == 0xE
  }

  /** The merge stages 0 to 3, in the bits the flags keep them in. */
  predicate IsStage(stage: nat) {
    stage == 0 || stage == 0x1000 || stage == 0x2000 || stage == 0x3000
  }

  /** The entries the writer can encode and the reader decodes back: 4-byte words, a
      regular file, symlink or gitlink type, 12 permission bits, a stage, a digest. */
  predicate ValidFields(e: Entry) {
    && e.ctime.0 < Word && e.ctime.1 < Word && e.mtime.0 < Word && e.mtime.1 < Word
    && e.dev < Word && e.ino < Word && e.uid < Word && e.gid < Word && e.fsize < Word
    && IsModeType(e.modeType) && e.modePerms < 0x1000
    && IsStage(e.stage) && IsDigest(e.sha)
  }

  /** A valid entry's name has no NUL in it, since the NUL ends the name on disk. */
  predicate Valid(e: Entry) {
    ValidFields(e) && NUL !in e.name
  }

  /** What reading back a written entry gives: the reader keeps only the low 9 bits
      of the permissions. */
  function Stored(e: Entry): Entry {
    e.(modePerms := e.modePerms % 0x200)
  }

  /** What the fixed part of a written entry reads back as, the name not yet read. */
  function StoredFixed(e: Entry): Entry {
    Stored(e).(name := [])
  }

  function StoredAll(es: seq<Entry>): (r: seq<Entry>)
    ensures |r| == |es|
  {
    if |es| == 0 then [] else [Stored(es[0])] + StoredAll(es[1..])
  }

  // ---------------------------------------------------------------------------
  // Integer fields

  /** Python's `|` on non-negative integers, one bit at a time. */
  function BitOr(a: nat, b: nat): (r: nat)
    ensures a <= r && b <= r && r <= a + b
    decreases a + b
  {
    if a == 0 then b
    else if b == 0 then a
    else 2 * BitOr(a / 2, b / 2) + (if a % 2 == 1 || b % 2 == 1 then 1 else 0)
  }

  /** Or-ing a value into the zero low bits of another adds it. */
  lemma {:induction false} BitOrDisjoint(m: nat, k: nat, b: nat)
    requires b < Pow(2, k)
    ensures BitOr(m * Pow(2, k), b) == m * Pow(2, k) + b
    decreases k
  {
    var a := m * Pow(2, k);
    if k > 0 && a != 0 && b != 0 {
      var p := Pow(2, k - 1);
      assert a == 2 * (m * p);
      assert a / 2 == m * p && a % 2 == 0;
      BitOrDisjoint(m, k - 1, b / 2);
    }
  }

  /** Python's `&` on non-negative integers, one bit at a time. */
  function BitAnd(a: nat, b: nat): (r: nat)
    ensures r <= a && r <= b
    decreases a + b
  {
    if a == 0 || b == 0 then 0
    else 2 * BitAnd(a / 2, b / 2) + (if a % 2 == 1 && b % 2 == 1 then 1 else 0)
  }

  /** Python's `>>` on a non-negative integer. */
  function Shr(n: nat, k: nat): nat
    decreases k
  {
    if k == 0 then n else Shr(n / 2, k - 1)
  }

  /** `a << k`, one doubling at a time. */
  function Shl(a: nat, k: nat): nat
    decreases k
  {
    if k == 0 then a else 2 * Shl(a, k - 1)
  }

  /** Halving `(a << k) + b`, with `b` below bit `k`, halves both parts. */
  lemma {:induction false} HalveSplit(x: nat, a: nat, b: nat, k: nat)
    requires k > 0 && b < Shl(1, k) && x == Shl(a, k) + b
    ensures x / 2 == Shl(a, k - 1) + b / 2 && x % 2 == b % 2
    ensures b / 2 < Shl(1, k - 1)
  {
  }

  /** Masking with an even mask drops the low bit. */
  lemma {:induction false} AndEvenMask(x: nat, m: nat, h: nat)
    requires m == 2 * h
    ensures BitAnd(x, m) == 2 * BitAnd(x / 2, h)
  {
  }

  /** Masking with an odd mask keeps the low bit. */
  lemma {:induction false} AndOddMask(x: nat, m: nat)
    requires m % 2 == 1
    ensures BitAnd(x, m) == 2 * BitAnd(x / 2, m / 2) + x % 2
  {
  }

  /** Shifting `(a << k) + b` right by `k`, with `b` below bit `k`, gives `a`. */
  lemma {:induction false} ShrSplit(x: nat, a: nat, b: nat, k: nat)
    requires b < Shl(1, k) && x == Shl(a, k) + b
    ensures Shr(x, k) == a
    decreases k
  {
    if k > 0 {
      HalveSplit(x, a, b, k);
      ShrSplit(x / 2, a, b / 2, k - 1);
    }
  }

  /** Masking `(a << k) + b` with the `k` low bits, `b` being below bit `k`, gives `b`. */
  lemma {:induction false} AndLowSplit(x: nat, m: nat, a: nat, b: nat, k: nat)
    requires b < Shl(1, k) && x == Shl(a, k) + b && m + 1 == Shl(1, k)
    ensures BitAnd(x, m) == b
    decreases k
  {
    if k > 0 {
      HalveSplit(x, a, b, k);
      AndLowSplit(x / 2, m / 2, a, b / 2, k - 1);
      AndOddMask(x, m);
    }
  }

  /** Masking `(a << k) + b` with `c << k`, `b` being below bit `k`, gives
      `(a & c) << k`. */
  lemma {:induction false} AndHighSplit(x: nat, a: nat, b: nat, c: nat, k: nat)
    requires b < Shl(1, k) && x == Shl(a, k) + b
    ensures BitAnd(x, Shl(c, k)) == Shl(BitAnd(a, c), k)
    decreases k
  {
    if k > 0 {
      HalveSplit(x, a, b, k);
      AndHighSplit(x / 2, a, b / 2, c, k - 1);
      AndEvenMask(x, Shl(c, k), Shl(c, k - 1));
    }
  }

  /** `v.to_bytes(4, "big")` for each value in turn, concatenated; the first value
      that does not fit raises OverflowError. */
  function Words(vs: seq<nat>): (r: Result<Bytes>)
    ensures r.Ok? <==> forall i :: 0 <= i < |vs| ==> vs[i] < Word
    ensures r.Ok? ==> |r.value| == 4 * |vs|
    ensures r.Err? ==> r.error == Overflow
  {
    PowSmall();
    if |vs| == 0 then Ok([])
    else
      assert forall i :: 0 < i < |vs| ==> vs[i] == vs[1..][i - 1];
      var b :- ToBytes(vs[0], 4);
      var rest :- Words(vs[1..]);
      Ok(b + rest)
  }

  /** Word `i` of the concatenation reads back as value `i`. */
  lemma {:induction false} WordAt(vs: seq<nat>, i: nat)
    requires Words(vs).Ok? && i < |vs|
    ensures FromBigEndian(Words(vs).value[4 * i..4 * i + 4]) == vs[i]
    decreases i
  {
    var v, tail := vs[0], vs[1..];
    WordsCons(vs, v, tail);
    if i == 0 {
      WordFirst(BigEndian(v, 4), Words(tail).value);
    } else {
      WordLater(BigEndian(v, 4), Words(tail).value, i);
      WordAt(tail, i - 1);
    }
  }

  /** The words of a run of values: the first value's word, then the others'. */
  lemma {:induction false} WordsCons(vs: seq<nat>, v: nat, tail: seq<nat>)
    requires |vs| > 0 && vs[0] == v && vs[1..] == tail && Words(vs).Ok?
    ensures Words(tail).Ok? && Words(vs).value == BigEndian(v, 4) + Words(tail).value
    ensures FromBigEndian(BigEndian(v, 4)) == v && |BigEndian(v, 4)| == 4
  {
    PowSmall();
  }

  lemma {:induction false} WordFirst(b: Bytes, rest: Bytes)
    requires |b| == 4
    ensures (b + rest)[4 * 0..4 * 0 + 4] == b
  {
    assert (b + rest)[..4] == b;
  }

  lemma {:induction false} WordLater(b: Bytes, rest: Bytes, i: nat)
    requires |b| == 4 && 0 < i && 4 * i + 4 <= |b + rest|
    ensures (b + rest)[4 * i..4 * i + 4] == rest[4 * (i - 1)..4 * (i - 1) + 4]
  {
  }

  lemma {:induction false} FromBigEndianAppend(a: Bytes, c: Bytes)
    ensures FromBigEndian(a + c) == FromBigEndian(a) * Pow(256, |c|) + FromBigEndian(c)
    decreases |c|
  {
    if |c| == 0 {
      assert a + c == a;
    } else {
      var c' := c[..|c| - 1];
      var last := c[|c| - 1];
      assert (a + c)[..|a + c| - 1] == a + c';
      FromBigEndianAppend(a, c');
      assert FromBigEndian(a + c) == FromBigEndian(a + c') * 256 + last;
      assert FromBigEndian(c) == FromBigEndian(c') * 256 + last;
      assert Pow(256, |c|) == Pow(256, |c'|) * 256;
      ShiftByte(FromBigEndian(a), Pow(256, |c'|), FromBigEndian(c'), last);
    }
  }

  lemma ShiftByte(x: nat, p: nat, y: nat, last: nat)
    ensures (x * p + y) * 256 + last == x * (p * 256) + (y * 256 + last)
  {
  }

  lemma {:induction false} FromBigEndianZeros(n: nat)
    ensures FromBigEndian(Zeros(n)) == 0
    decreases n
  {
    if n > 0 {
      assert Zeros(n)[..n - 1] == Zeros(n - 1);
      FromBigEndianZeros(n - 1);
    }
  }

  /** The two 2-byte halves of a 4-byte word are its quotient and remainder by 0x10000. */
  lemma {:induction false} WordHalves(b: Bytes)
    requires |b| == 4
    ensures FromBigEndian(b[..2]) == FromBigEndian(b) / 0x1_0000
    ensures FromBigEndian(b[2..]) == FromBigEndian(b) % 0x1_0000
  {
    assert b == b[..2] + b[2..];
    FromBigEndianAppend(b[..2], b[2..]);
    PowSmall();
  }

  // ---------------------------------------------------------------------------
  // GitIndexEntry.write

  /** `name_length`: the name's byte length, capped at 0xFFF. */
  function NameLengthField(n: nat): (r: nat)
    ensures r <= MaxNameLength
    ensures r == MaxNameLength <==> n >= MaxNameLength
    ensures r < MaxNameLength ==> r == n
  {
    if n >= MaxNameLength then MaxNameLength else n
  }

  /** `(mode_type << 12) | mode_perms` */
  function ModeWord(e: Entry): nat {
    BitOr(e.modeType * 0x1000, e.modePerms)
  }

  /** `flag_assume_valid | flag_stage | name_length`, the assume-valid bit being 0x8000. */
  function FlagsWord(e: Entry): nat {
    BitOr(BitOr(if e.assumeValid then 0x8000 else 0, e.stage), NameLengthField(|e.name|))
  }

  /** ctime (s, ns), mtime (s, ns), dev, ino, mode, uid, gid and size. */
  function StatValues(e: Entry): (r: seq<nat>)
    ensures |r| == 10
  {
    [e.ctime.0, e.ctime.1, e.mtime.0, e.mtime.1, e.dev, e.ino, ModeWord(e), e.uid, e.gid, e.fsize]
  }

  /** The 62 fixed bytes: the ten words, `int(sha, 16).to_bytes(20, "big")`, the flags. */
  function WriteFixed(e: Entry): (r: Result<Bytes>)
    ensures r.Ok? ==> |r.value| == FixedSize
  {
    var stat :- Words(StatValues(e));
    var sha :- ShaToBytes(e.sha);
    var flags :- ToBytes(FlagsWord(e), 2);
    Ok(stat + sha + flags)
  }

  /** The zero bytes after the name's NUL. The source's guard `62 + len + 1 % 8 != 0`
      parses as `62 + len + (1 % 8) != 0`, which always holds, so it writes 1 to 8 of
      them; the aligned layout writes none when the NUL already ends a multiple of 8. */
  function Padding(layout: Layout, nameLength: nat): (r: int)
    ensures 0 <= r <= 8 && (layout == Aligned ==> r < 8)
    ensures layout == AsWritten ==> 1 <= r
    ensures (FixedSize + nameLength + 1 + r) % 8 == 0
  {
    match layout
    case AsWritten => if 62 + nameLength + 1 % 8 != 0 then 8 - (62 + nameLength + 1) % 8 else 0
    case Aligned => if (62 + nameLength + 1) % 8 != 0 then 8 - (62 + nameLength + 1) % 8 else 0
  }

  /** `GitIndexEntry.write` in the given layout. */
  function WriteEntry(layout: Layout, e: Entry): (r: Result<Bytes>)
    ensures r.Ok? <==> WriteFixed(e).Ok?
  {
    var fixed :- WriteFixed(e);
    Ok(fixed + e.name + [NUL] + Zeros(Padding(layout, |e.name|)))
  }

  /** The entries one after another; the first that cannot be written raises. */
  function WriteEntries(layout: Layout, es: seq<Entry>): Result<Bytes> {
    if |es| == 0 then Ok([])
    else
      var first :- WriteEntry(layout, es[0]);
      var rest :- WriteEntries(layout, es[1..]);
      Ok(first + rest)
  }

  /** `GitIndex.write`: "DIRC", the version and the entry count, then the entries. */
  function Write(layout: Layout, idx: Index): (r: Result<Bytes>)
    ensures r.Ok? <==> |idx.entries| < Word && WriteEntries(layout, idx.entries).Ok?
  {
    PowSmall();
    var count :- ToBytes(|idx.entries|, 4);
    var entries :- WriteEntries(layout, idx.entries);
    Ok(Signature + BigEndian(Version, 4) + count + entries)
  }

  // ---------------------------------------------------------------------------
  // GitIndex.read

  /** `data[a:b]`, which Python clamps to the data instead of failing. */
  function Slice(data: Bytes, a: nat, b: nat): (r: Bytes)
    ensures a <= b ==> |r| <= b - a
    ensures a <= b <= |data| ==> r == data[a..b]
    ensures a >= |data| ==> r == []
  {
    if a >= b || a >= |data| then [] else if b >= |data| then data[a..] else data[a..b]
  }

  /** `int.from_bytes(data[p:p + w], "big")`: bytes past the end read as nothing. */
  function Field(data: Bytes, p: nat, w: nat): nat {
    FromBigEndian(Slice(data, p, p + w))
  }

  /** `format(int.from_bytes(data[p:p + 20], "big"), "040x")`: zero-padding the bytes
      on the left keeps their value, and 20 bytes print as 40 digits. */
  function ShaField(data: Bytes, p: nat): (r: Text)
    ensures IsDigest(r)
  {
    var s := Slice(data, p, p + 20);
    ShaFromBytes(Zeros(20 - |s|) + s)
  }

  /** The fixed fields at `pos`, checked in the source's order: the reserved half of the
      mode word must be zero, the mode type (`mode >> 12`) one of 0b1000, 0b1010 and
      0b1110, and the extended bit (`flags & 0x4000`) clear. The permissions are
      `mode & 0x1FF`, assume-valid is `flags & 0x8000`, the stage `flags & 0x3000`
      and the name length `flags & 0xFFF`, which is returned alongside. */
  function ReadFixed(data: Bytes, pos: nat): (r: Result<(Entry, nat)>)
    ensures r.Ok? <==> FixedChecks(data, pos)
    ensures r.Ok? ==> r.value.0.name == [] && r.value.1 <= MaxNameLength
    ensures r.Err? ==> IsEntryError(r.error)
  {
    if Field(data, pos + 24, 2) != 0 then Err(BadReserved)
    else
      var mode := Field(data, pos + 26, 2);
      if !IsModeType(Shr(mode, 12)) then Err(BadModeType)
      else
        var flags := Field(data, pos + 60, 2);
        if BitAnd(flags, 0x4000) != 0 then Err(ExtendedFlag)
        else
          var e := Entry(
            (Field(data, pos, 4), Field(data, pos + 4, 4)),
            (Field(data, pos + 8, 4), Field(data, pos + 12, 4)),
            Field(data, pos + 16, 4), Field(data, pos + 20, 4),
            Shr(mode, 12), BitAnd(mode, 0x1FF),
            Field(data, pos + 28, 4), Field(data, pos + 32, 4), Field(data, pos + 36, 4),
            ShaField(data, pos + 40), BitAnd(flags, 0x8000) != 0, BitAnd(flags, 0x3000), []);
          Ok((e, BitAnd(flags, 0xFFF)))
  }

  /** The three checks on the fixed part at `pos`: reserved bits zero, a known mode
      type, no extended flag. */
  predicate FixedChecks(data: Bytes, pos: nat) {
    && Field(data, pos + 24, 2) == 0
    && IsModeType(Shr(Field(data, pos + 26, 2), 12))
    && BitAnd(Field(data, pos + 60, 2), 0x4000) == 0
  }

  /** The name from `pos` and the position after it. A short name must be followed by
      a NUL (`data[pos + len]` raises past the end). A name whose length field is
      0xFFF runs to the first NUL at least 0xFFF bytes on; as written, when there is
      none `find` returns -1, the name is `data[pos:-1]` and the cursor goes back to 0.
      The aligned reader reports the missing NUL instead. */
  function ReadName(layout: Layout, data: Bytes, pos: nat, nameLength: nat): (r: Result<(Text, nat)>)
    ensures r.Ok? && r.value.1 == 0 ==> layout == AsWritten && nameLength >= MaxNameLength
    ensures r.Ok? && r.value.1 != 0 ==> var (name, end) := r.value;
              end == pos + |name| + 1 <= |data| && data[end - 1] == NUL && name == data[pos..end - 1]
    ensures r.Ok? && nameLength < MaxNameLength ==> |r.value.0| == nameLength
    ensures r.Ok? && r.value.1 != 0 && nameLength >= MaxNameLength ==> |r.value.0| >= MaxNameLength
    ensures r.Ok? && r.value.1 != 0 && nameLength >= MaxNameLength ==>
              forall k :: pos + MaxNameLength <= k < r.value.1 - 1 ==> data[k] != NUL
    ensures r.Ok? && r.value.1 == 0 ==> forall k :: pos + MaxNameLength <= k < |data| ==> data[k] != NUL
    ensures r.Err? ==> IsEntryError(r.error)
  {
    if nameLength < MaxNameLength then
      if pos + nameLength >= |data| then Err(IndexOutOfRange)
      else if data[pos + nameLength] != NUL then Err(NameNotTerminated)
      else Ok((data[pos..pos + nameLength], pos + nameLength + 1))
    else
      FindFirst(data, NUL, pos + MaxNameLength);
      match Find(data, NUL, pos + MaxNameLength)
      case Some(q) => Ok((data[pos..q], q + 1))
      case None =>
        match layout
        case AsWritten => Ok((Slice(data, pos, if |data| == 0 then 0 else |data| - 1), 0))
        case Aligned => Err(MissingNul)
  }

  /** One entry from `pos`: the position after its name, and the entry. */
  function ReadEntry(layout: Layout, data: Bytes, pos: nat): (r: Result<(nat, Entry)>)
    ensures r.Ok? && layout == Aligned ==> pos + FixedSize < r.value.0 <= |data|
    ensures r.Ok? ==> FixedChecks(data, pos)
    ensures r.Err? ==> IsEntryError(r.error)
  {
    var (e, nameLength) :- ReadFixed(data, pos);
    var (name, end) :- ReadName(layout, data, pos + FixedSize, nameLength);
    Ok((end, e.(name := name)))
  }

  /** `8 * math.ceil(n / 8)` */
  function RoundUp8(n: nat): (r: nat)
    ensures r % 8 == 0 && n <= r < n + 8
  {
    (n + 7) / 8 * 8
  }

  /** Where the next entry starts. As written, `curr_pos += 8 * math.ceil(curr_pos / 8)`
      adds the rounded-up absolute position to the cursor; aligned, the cursor moves
      to the next multiple of 8 bytes counted from the entry's start. */
  function Next(layout: Layout, start: nat, end: nat): nat
    requires layout == Aligned ==> start <= end
  {
    match layout
    case AsWritten => end + RoundUp8(end)
    case Aligned => start + RoundUp8(end - start)
  }

  /** Where the `k`-th entry read from `pos` starts, following the cursor. */
  function EntryStart(layout: Layout, data: Bytes, pos: nat, k: nat): nat
    decreases k
  {
    if k == 0 then pos
    else match ReadEntry(layout, data, pos)
      case Ok((end, _)) => EntryStart(layout, data, Next(layout, pos, end), k - 1)
      case Err(_) => pos
  }

  /** The loop over `num_index_entries`. */
  function ReadEntries(layout: Layout, data: Bytes, pos: nat, count: nat): (r: Result<seq<Entry>>)
    ensures r.Ok? ==> |r.value| == count
    ensures r.Ok? ==> forall k :: 0 <= k < count ==> FixedChecks(data, EntryStart(layout, data, pos, k))
    ensures r.Err? ==> IsEntryError(r.error)
    decreases count
  {
    if count == 0 then Ok([])
    else
      var (end, e) :- ReadEntry(layout, data, pos);
      var rest :- ReadEntries(layout, data, Next(layout, pos, end), count - 1);
      Ok([e] + rest)
  }

  lemma {:induction false} HeaderSlice(data: Bytes, a: nat, b: nat)
    requires a <= b <= HeaderSize
    ensures Slice(Slice(data, 0, HeaderSize), a, b) == Slice(data, a, b)
  {
  }

  /** `GitIndex.read`: the header is `data[0:12]`, shorter when the data is, and the
      entries start at offset 12 whatever it held. */
  function Read(layout: Layout, data: Bytes): (r: Result<Index>)
    ensures r.Err? && r.error == BadSignature <==> Slice(data, 0, 4) != Signature
    ensures r.Ok? ==> |data| >= 5 && data[..4] == Signature && Field(data, 4, 4) == Version
    ensures r.Ok? ==> |r.value.entries| == Field(data, 8, 4)
    ensures r.Ok? ==> forall k :: 0 <= k < |r.value.entries| ==>
              FixedChecks(data, EntryStart(layout, data, HeaderSize, k))
  {
    var header := Slice(data, 0, HeaderSize);
    HeaderSlice(data, 0, 4);
    HeaderSlice(data, 4, 8);
    HeaderSlice(data, 8, 12);
    if Slice(header, 0, 4) != Signature then Err(BadSignature)
    else if FromBigEndian(Slice(header, 4, 8)) != Version then Err(BadVersion)
    else
      var entries :- ReadEntries(layout, data, HeaderSize, FromBigEndian(Slice(header, 8, 12)));
      Ok(Index(entries))
  }

  // ---------------------------------------------------------------------------
  // Reading back what was written

  /** Or-ing below bit 12 adds. */
  lemma {:induction false} BitOrBelow12(m: nat, b: nat)
    requires b < 0x1000
    ensures BitOr(m * 0x1000, b) == m * 0x1000 + b
  {
    assert Pow(2, 12) == 0x1000;
    BitOrDisjoint(m, 12, b);
  }

  /** Or-ing below bit 15 adds. */
  lemma {:induction false} BitOrBelow15(m: nat, b: nat)
    requires b < 0x8000
    ensures BitOr(m * 0x8000, b) == m * 0x8000 + b
  {
    assert Pow(2, 15) == 0x8000;
    BitOrDisjoint(m, 15, b);
  }

  /** The mode word of a valid entry is its type above its permission bits. */
  lemma {:induction false} ModeWordValue(e: Entry)
    requires e.modePerms < 0x1000
    ensures ModeWord(e) == e.modeType * 0x1000 + e.modePerms
  {
    BitOrBelow12(e.modeType, e.modePerms);
  }

  /** The flags of a valid entry are the three fields side by side. */
  lemma {:induction false} FlagsWordValue(e: Entry)
    requires IsStage(e.stage)
    ensures FlagsWord(e) == (if e.assumeValid then 0x8000 else 0) + e.stage + NameLengthField(|e.name|)
  {
    StageSlot(e.stage);
    FlagsWordOf(e, e.stage / 0x1000);
  }

  /** A stage is a multiple of 0x1000 below 0x4000. */
  lemma {:induction false} StageSlot(stage: nat)
    requires IsStage(stage)
    ensures stage == stage / 0x1000 * 0x1000 && stage / 0x1000 < 4
  {
  }

  /** The flags of an entry in stage slot `s`. */
  lemma {:induction false} FlagsWordOf(e: Entry, s: nat)
    requires e.stage == s * 0x1000 && s < 4
    ensures FlagsWord(e) == (if e.assumeValid then 0x8000 else 0) + e.stage + NameLengthField(|e.name|)
  {
    var n := NameLengthField(|e.name|);
    if e.assumeValid {
      BitOrBelow15(1, e.stage);
      assert 0x8000 + e.stage == (8 + s) * 0x1000;
      BitOrBelow12(8 + s, n);
    } else {
      BitOrBelow12(s, n);
    }
  }

  /** A mode word's reserved upper half is zero and its lower half is the mode. */
  lemma {:induction false} ModeHalves(t: nat, p: nat)
    requires IsModeType(t) && p < 0x1000
    ensures (t * 0x1000 + p) / 0x1_0000 == 0 && (t * 0x1000 + p) % 0x1_0000 == t * 0x1000 + p
  {
  }

  /** The bit positions the reader masks at. */
  lemma Bits()
    ensures Shl(1, 2) == 4 && Shl(1, 9) == 0x200 && Shl(1, 12) == 0x1000
    ensures Shl(1, 14) == 0x4000 && Shl(1, 15) == 0x8000
  {
  }

  /** Shifting left by `k` multiplies by `1 << k`. */
  lemma {:induction false} ShlConst(a: nat, k: nat, p: nat)
    requires p == Shl(1, k)
    ensures Shl(a, k) == a * p
    decreases k
  {
    if k > 0 {
      ShlConst(a, k - 1, p / 2);
    }
  }

  /** `mode >> 12` of a mode word is its type. */
  lemma {:induction false} ModeTypeBits(t: nat, p: nat)
    requires p < 0x1000
    ensures Shr(t * 0x1000 + p, 12) == t
  {
    Bits();
    ShlConst(t, 12, 0x1000);
    ShrSplit(t * 0x1000 + p, t, p, 12);
  }

  /** `mode & 0x1FF` of a mode word is the low 9 bits of its permissions. */
  lemma {:induction false} ModePermBits(t: nat, p: nat)
    requires p < 0x1000
    ensures BitAnd(t * 0x1000 + p, 0x1FF) == p % 0x200
  {
    var hi := 8 * t + p / 0x200;
    Bits();
    ShlConst(hi, 9, 0x200);
    AndLowSplit(t * 0x1000 + p, 0x1FF, hi, p % 0x200, 9);
  }

  /** The flags of an entry: assume-valid bit, stage `s` and name length. */
  function FlagsOf(v: bool, s: nat, n: nat): nat {
    (if v then 0x8000 else 0) + s * 0x1000 + n
  }

  /** `flags & 0x4000`: the extended bit of a written entry is clear. */
  lemma {:induction false} FlagsExtendedBit(f: nat, v: bool, s: nat, n: nat)
    requires s < 4 && n < 0x1000 && f == FlagsOf(v, s, n)
    ensures BitAnd(f, 0x4000) == 0
  {
    var a := if v then 2 else 0;
    Bits();
    ShlConst(a, 14, 0x4000);
    ShlConst(1, 14, 0x4000);
    AndHighSplit(f, a, s * 0x1000 + n, 1, 14);
    assert BitAnd(a, 1) == 0;
    ShlConst(0, 14, 0x4000);
  }

  /** `flags & 0x8000`: the assume-valid bit. */
  lemma {:induction false} FlagsAssumeValidBit(f: nat, v: bool, s: nat, n: nat)
    requires s < 4 && n < 0x1000 && f == FlagsOf(v, s, n)
    ensures BitAnd(f, 0x8000) != 0 <==> v
  {
    var a := if v then 1 else 0;
    Bits();
    ShlConst(a, 15, 0x8000);
    ShlConst(1, 15, 0x8000);
    AndHighSplit(f, a, s * 0x1000 + n, 1, 15);
    assert BitAnd(a, 1) == a;
  }

  /** `flags & 0x3000`: the stage. */
  lemma {:induction false} FlagsStageBits(f: nat, v: bool, s: nat, n: nat)
    requires s < 4 && n < 0x1000 && f == FlagsOf(v, s, n)
    ensures BitAnd(f, 0x3000) == s * 0x1000
  {
    var hi := if v then 2 else 0;
    var a := 4 * hi + s;
    Bits();
    ShlConst(a, 12, 0x1000);
    ShlConst(3, 12, 0x1000);
    AndHighSplit(f, a, n, 3, 12);
    ShlConst(hi, 2, 4);
    AndLowSplit(a, 3, hi, s, 2);
    ShlConst(s, 12, 0x1000);
  }

  /** `flags & 0xFFF`: the name length. */
  lemma {:induction false} FlagsNameLengthBits(f: nat, v: bool, s: nat, n: nat)
    requires s < 4 && n < 0x1000 && f == FlagsOf(v, s, n)
    ensures BitAnd(f, 0xFFF) == n
  {
    var a := (if v then 8 else 0) + s;
    Bits();
    ShlConst(a, 12, 0x1000);
    AndLowSplit(f, 0xFFF, a, n, 12);
  }

  /** Any 2-byte flags word, masked with 0x3000, is a stage. */
  lemma {:induction false} StageBitsAreStage(fl: nat)
    ensures IsStage(BitAnd(fl, 0x3000))
  {
    var q, r := fl / 0x1000, fl % 0x1000;
    Bits();
    ShlConst(q, 12, 0x1000);
    ShlConst(3, 12, 0x1000);
    AndHighSplit(fl, q, r, 3, 12);
    var c := BitAnd(q, 3);
    ShlConst(c, 12, 0x1000);
    assert c == 0 || c == 1 || c == 2 || c == 3;
  }

  /** Everything the reader checks of a valid entry's fixed part passes, and the
      writer accepts it. */
  lemma {:induction false} ValidWritable(e: Entry)
    requires ValidFields(e)
    ensures WriteFixed(e).Ok?
    ensures ModeWord(e) < 0x1_0000
  {
    assert ModeWord(e) < 0x1_0000 by {
      ModeWordValue(e);
    }
    assert Words(StatValues(e)).Ok? by {
      var vs := StatValues(e);
      forall i | 0 <= i < |vs| ensures vs[i] < Word {
      }
    }
    assert ShaToBytes(e.sha).Ok? by {
      ShaToBytesOfDigest(e.sha);
    }
    assert ToBytes(FlagsWord(e), 2).Ok? by {
      PowSmall();
      FlagsWordValue(e);
    }
  }

  /** `f` sits in `data` at `pos`. */
  predicate At(data: Bytes, pos: nat, f: Bytes) {
    pos + |f| <= |data| && data[pos..pos + |f|] == f
  }

  /** A field read from inside placed bytes sees those bytes. */
  lemma {:induction false} FieldIn(data: Bytes, pos: nat, f: Bytes, k: nat, w: nat)
    requires At(data, pos, f) && k + w <= |f|
    ensures Field(data, pos + k, w) == FromBigEndian(f[k..k + w])
  {
    assert pos + |f| <= |data| && data[pos..pos + |f|] == f;
    var s1, s2 := data[pos + k..pos + k + w], f[k..k + w];
    forall i | 0 <= i < w ensures s1[i] == s2[i] {
      assert data[pos + k + i] == data[pos..pos + |f|][k + i];
    }
    assert s1 == s2;
  }

  /** The fixed part is the ten words, the digest's bytes and the flags, in that order. */
  lemma {:induction false} WriteFixedParts(e: Entry)
    requires WriteFixed(e).Ok?
    ensures Words(StatValues(e)).Ok? && ShaToBytes(e.sha).Ok? && ToBytes(FlagsWord(e), 2).Ok?
    ensures var stat, sha, flags := Words(StatValues(e)).value, ShaToBytes(e.sha).value, ToBytes(FlagsWord(e), 2).value;
      && |stat| == 40 && |sha| == 20 && |flags| == 2
      && WriteFixed(e).value == stat + sha + flags
  {
  }

  /** Three runs of bytes, joined, cut back apart. */
  lemma {:induction false} SplitThree(a: Bytes, b: Bytes, c: Bytes)
    ensures var f := a + b + c;
      && f[..|a|] == a && f[|a|..|a| + |b|] == b && f[|a| + |b|..] == c
  {
  }

  /** Every word of a run of words, read back from the bytes that start with it. */
  lemma {:induction false} WordsFields(vs: seq<nat>, f: Bytes)
    requires 4 * |vs| <= |f| && Words(vs) == Ok(f[..4 * |vs|])
    ensures forall i :: 0 <= i < |vs| ==> FromBigEndian(f[4 * i..4 * i + 4]) == vs[i]
  {
    forall i | 0 <= i < |vs|
      ensures FromBigEndian(f[4 * i..4 * i + 4]) == vs[i]
    {
      assert f[4 * i..4 * i + 4] == f[..4 * |vs|][4 * i..4 * i + 4];
      WordAt(vs, i);
    }
  }

  /** The layout of a fixed part holding `e`: the stat words, the mode as type above
      permissions, the digest's 20 bytes and the three flag fields side by side. */
  predicate FixedLayout(f: Bytes, e: Entry) {
    && |f| == FixedSize
    && FromBigEndian(f[0..4]) == e.ctime.0 && FromBigEndian(f[4..8]) == e.ctime.1
    && FromBigEndian(f[8..12]) == e.mtime.0 && FromBigEndian(f[12..16]) == e.mtime.1
    && FromBigEndian(f[16..20]) == e.dev && FromBigEndian(f[20..24]) == e.ino
    && FromBigEndian(f[24..28]) == e.modeType * 0x1000 + e.modePerms
    && FromBigEndian(f[28..32]) == e.uid && FromBigEndian(f[32..36]) == e.gid
    && FromBigEndian(f[36..40]) == e.fsize
    && ShaFromBytes(f[40..60]) == e.sha
    && FromBigEndian(f[60..62]) == (if e.assumeValid then 0x8000 else 0) + e.stage + NameLengthField(|e.name|)
  }

  /** The ten words at the front of a fixed part, one by one. */
  lemma {:induction false} TenWords(vs: seq<nat>, f: Bytes)
    requires |vs| == 10 && 40 <= |f| && Words(vs) == Ok(f[..40])
    ensures FromBigEndian(f[0..4]) == vs[0] && FromBigEndian(f[4..8]) == vs[1]
    ensures FromBigEndian(f[8..12]) == vs[2] && FromBigEndian(f[12..16]) == vs[3]
    ensures FromBigEndian(f[16..20]) == vs[4] && FromBigEndian(f[20..24]) == vs[5]
    ensures FromBigEndian(f[24..28]) == vs[6] && FromBigEndian(f[28..32]) == vs[7]
    ensures FromBigEndian(f[32..36]) == vs[8] && FromBigEndian(f[36..40]) == vs[9]
  {
    WordsFields(vs, f);
    assert FromBigEndian(f[4 * 0..4 * 0 + 4]) == vs[0];
    assert FromBigEndian(f[4 * 1..4 * 1 + 4]) == vs[1];
    assert FromBigEndian(f[4 * 2..4 * 2 + 4]) == vs[2];
    assert FromBigEndian(f[4 * 3..4 * 3 + 4]) == vs[3];
    assert FromBigEndian(f[4 * 4..4 * 4 + 4]) == vs[4];
    assert FromBigEndian(f[4 * 5..4 * 5 + 4]) == vs[5];
    assert FromBigEndian(f[4 * 6..4 * 6 + 4]) == vs[6];
    assert FromBigEndian(f[4 * 7..4 * 7 + 4]) == vs[7];
    assert FromBigEndian(f[4 * 8..4 * 8 + 4]) == vs[8];
    assert FromBigEndian(f[4 * 9..4 * 9 + 4]) == vs[9];
  }

  /** The stat words as the writer encodes them, field by field. */
  predicate StatLayout(stat: Bytes, e: Entry) {
    && |stat| == 40
    && FromBigEndian(stat[0..4]) == e.ctime.0 && FromBigEndian(stat[4..8]) == e.ctime.1
    && FromBigEndian(stat[8..12]) == e.mtime.0 && FromBigEndian(stat[12..16]) == e.mtime.1
    && FromBigEndian(stat[16..20]) == e.dev && FromBigEndian(stat[20..24]) == e.ino
    && FromBigEndian(stat[24..28]) == e.modeType * 0x1000 + e.modePerms
    && FromBigEndian(stat[28..32]) == e.uid && FromBigEndian(stat[32..36]) == e.gid
    && FromBigEndian(stat[36..40]) == e.fsize
  }

  /** The stat words of an entry whose permissions fit in 12 bits. */
  lemma {:induction false} StatLayoutOf(e: Entry, stat: Bytes)
    requires e.modePerms < 0x1000 && Words(StatValues(e)) == Ok(stat)
    ensures StatLayout(stat, e)
  {
    TenWords(StatValues(e), stat + []);
    assert stat + [] == stat;
    ModeWordValue(e);
  }

  /** The three parts the writer joins hold the entry's fields in the fixed layout. */
  lemma {:induction false} JoinLayout(e: Entry, stat: Bytes, sha: Bytes, flags: Bytes)
    requires StatLayout(stat, e) && |sha| == 20 && |flags| == 2
    requires ShaFromBytes(sha) == e.sha
    requires FromBigEndian(flags) == (if e.assumeValid then 0x8000 else 0) + e.stage + NameLengthField(|e.name|)
    ensures FixedLayout(stat + sha + flags, e)
  {
    var f := stat + sha + flags;
    SplitThree(stat, sha, flags);
    assert f[..40] == stat;
    assert f[0..4] == stat[0..4] && f[4..8] == stat[4..8];
    assert f[8..12] == stat[8..12] && f[12..16] == stat[12..16];
    assert f[16..20] == stat[16..20] && f[20..24] == stat[20..24];
    assert f[24..28] == stat[24..28] && f[28..32] == stat[28..32];
    assert f[32..36] == stat[32..36] && f[36..40] == stat[36..40];
  }

  /** The three parts the writer joins hold the entry's fields in the fixed layout. */
  lemma {:induction false} LayoutOfParts(e: Entry, stat: Bytes, sha: Bytes, flags: Bytes)
    requires IsDigest(e.sha) && e.modePerms < 0x1000 && IsStage(e.stage)
    requires Words(StatValues(e)) == Ok(stat) && ShaToBytes(e.sha) == Ok(sha) && ToBytes(FlagsWord(e), 2) == Ok(flags)
    ensures FixedLayout(stat + sha + flags, e)
  {
    StatLayoutOf(e, stat);
    ShaRoundTrip(e.sha);
    FlagsWordValue(e);
    JoinLayout(e, stat, sha, flags);
  }

  /** A valid entry's fixed part is written, and laid out field by field. */
  lemma {:induction false} WriteFixedLayout(e: Entry)
    requires ValidFields(e)
    ensures WriteFixed(e).Ok? && FixedLayout(WriteFixed(e).value, e)
  {
    ValidWritable(e);
    WriteFixedParts(e);
    LayoutOfParts(e, Words(StatValues(e)).value, ShaToBytes(e.sha).value, ToBytes(FlagsWord(e), 2).value);
  }

  /** The reserved half and the mode of a mode word, read back as the reader reads them. */
  lemma {:induction false} FixedModeHalves(data: Bytes, pos: nat, f: Bytes, mode: nat)
    requires At(data, pos, f) && 28 <= |f| && FromBigEndian(f[24..28]) == mode
    ensures Field(data, pos + 24, 2) == mode / 0x1_0000
    ensures Field(data, pos + 26, 2) == mode % 0x1_0000
  {
    var w := f[24..28];
    WordHalves(w);
    assert w[..2] == f[24..26] && w[2..] == f[26..28];
    FieldIn(data, pos, f, 24, 2);
    FieldIn(data, pos, f, 26, 2);
  }

  /** The digest and the flags, read back. */
  lemma {:induction false} FixedTail(data: Bytes, pos: nat, f: Bytes, sha: Bytes, flags: Bytes)
    requires At(data, pos, f) && |f| == FixedSize && f[40..60] == sha && f[60..62] == flags
    ensures ShaField(data, pos + 40) == ShaFromBytes(sha)
    ensures Field(data, pos + 60, 2) == FromBigEndian(flags)
  {
    assert data[pos + 40..pos + 60] == sha by {
    }
    assert Zeros(0) + sha == sha;
    FieldIn(data, pos, f, 60, 2);
  }

  /** The nine stat words of a laid-out fixed part, read back wherever it sits. */
  lemma {:induction false} FixedWordsAt(data: Bytes, pos: nat, f: Bytes, e: Entry)
    requires At(data, pos, f) && FixedLayout(f, e)
    ensures Field(data, pos, 4) == e.ctime.0 && Field(data, pos + 4, 4) == e.ctime.1
    ensures Field(data, pos + 8, 4) == e.mtime.0 && Field(data, pos + 12, 4) == e.mtime.1
    ensures Field(data, pos + 16, 4) == e.dev && Field(data, pos + 20, 4) == e.ino
    ensures Field(data, pos + 28, 4) == e.uid && Field(data, pos + 32, 4) == e.gid
    ensures Field(data, pos + 36, 4) == e.fsize
  {
    FieldIn(data, pos, f, 0, 4);
    FieldIn(data, pos, f, 4, 4);
    FieldIn(data, pos, f, 8, 4);
    FieldIn(data, pos, f, 12, 4);
    FieldIn(data, pos, f, 16, 4);
    FieldIn(data, pos, f, 20, 4);
    FieldIn(data, pos, f, 28, 4);
    FieldIn(data, pos, f, 32, 4);
    FieldIn(data, pos, f, 36, 4);
  }

  /** The mode halves, the digest and the flags of a laid-out fixed part, read back. */
  lemma {:induction false} FixedRestAt(data: Bytes, pos: nat, f: Bytes, e: Entry)
    requires IsModeType(e.modeType) && e.modePerms < 0x1000
    requires At(data, pos, f) && FixedLayout(f, e)
    ensures Field(data, pos + 24, 2) == 0
    ensures Field(data, pos + 26, 2) == e.modeType * 0x1000 + e.modePerms
    ensures ShaField(data, pos + 40) == e.sha
    ensures Field(data, pos + 60, 2) == (if e.assumeValid then 0x8000 else 0) + e.stage + NameLengthField(|e.name|)
  {
    ModeHalves(e.modeType, e.modePerms);
    FixedModeHalves(data, pos, f, e.modeType * 0x1000 + e.modePerms);
    FixedTail(data, pos, f, f[40..60], f[60..62]);
  }

  /** The fixed part of a valid entry, wherever it sits, reads back as the entry with
      9 permission bits, and the name length field as written. */
  lemma {:induction false} ReadFixedOf(data: Bytes, pos: nat, f: Bytes, e: Entry)
    requires IsModeType(e.modeType) && e.modePerms < 0x1000 && IsStage(e.stage)
    requires At(data, pos, f) && FixedLayout(f, e)
    ensures ReadFixed(data, pos) == Ok((StoredFixed(e), NameLengthField(|e.name|)))
  {
    FixedWordsAt(data, pos, f, e);
    FixedRestAt(data, pos, f, e);
    ReadFixedFrom(data, pos, e);
  }

  /** The reader's checks and arithmetic, given the field values it sees. */
  lemma {:induction false} ReadFixedFrom(data: Bytes, pos: nat, e: Entry)
    requires IsModeType(e.modeType) && e.modePerms < 0x1000 && IsStage(e.stage)
    requires Field(data, pos, 4) == e.ctime.0 && Field(data, pos + 4, 4) == e.ctime.1
    requires Field(data, pos + 8, 4) == e.mtime.0 && Field(data, pos + 12, 4) == e.mtime.1
    requires Field(data, pos + 16, 4) == e.dev && Field(data, pos + 20, 4) == e.ino
    requires Field(data, pos + 28, 4) == e.uid && Field(data, pos + 32, 4) == e.gid
    requires Field(data, pos + 36, 4) == e.fsize
    requires Field(data, pos + 24, 2) == 0
    requires Field(data, pos + 26, 2) == e.modeType * 0x1000 + e.modePerms
    requires ShaField(data, pos + 40) == e.sha
    requires Field(data, pos + 60, 2) == (if e.assumeValid then 0x8000 else 0) + e.stage + NameLengthField(|e.name|)
    ensures ReadFixed(data, pos) == Ok((StoredFixed(e), NameLengthField(|e.name|)))
  {
    var mode := Field(data, pos + 26, 2);
    var fl := Field(data, pos + 60, 2);
    ModeDecode(mode, e.modeType, e.modePerms);
    FlagsDecode(fl, e.assumeValid, e.stage, NameLengthField(|e.name|));
    ReadFixedDecoded(data, pos, e, mode, fl);
  }

  /** A mode word, as the reader takes it apart. */
  lemma {:induction false} ModeDecode(mode: nat, t: nat, p: nat)
    requires p < 0x1000 && mode == t * 0x1000 + p
    ensures Shr(mode, 12) == t && BitAnd(mode, 0x1FF) == p % 0x200
  {
    ModeTypeBits(t, p);
    ModePermBits(t, p);
  }

  /** A flags word, as the reader takes it apart. */
  lemma {:induction false} FlagsDecode(fl: nat, v: bool, stage: nat, n: nat)
    requires IsStage(stage) && n < 0x1000
    requires fl == (if v then 0x8000 else 0) + stage + n
    ensures BitAnd(fl, 0x4000) == 0 && (BitAnd(fl, 0x8000) != 0 <==> v)
    ensures BitAnd(fl, 0x3000) == stage && BitAnd(fl, 0xFFF) == n
  {
    var s := stage / 0x1000;
    StageSlot(stage);
    FlagsExtendedBit(fl, v, s, n);
    FlagsAssumeValidBit(fl, v, s, n);
    FlagsStageBits(fl, v, s, n);
    FlagsNameLengthBits(fl, v, s, n);
  }

  /** The reader's checks and arithmetic, given the field values and what the mode and
      flags words decode to. */
  lemma {:induction false} ReadFixedDecoded(data: Bytes, pos: nat, e: Entry, mode: nat, fl: nat)
    requires Field(data, pos, 4) == e.ctime.0 && Field(data, pos + 4, 4) == e.ctime.1
    requires Field(data, pos + 8, 4) == e.mtime.0 && Field(data, pos + 12, 4) == e.mtime.1
    requires Field(data, pos + 16, 4) == e.dev && Field(data, pos + 20, 4) == e.ino
    requires Field(data, pos + 28, 4) == e.uid && Field(data, pos + 32, 4) == e.gid
    requires Field(data, pos + 36, 4) == e.fsize
    requires Field(data, pos + 24, 2) == 0 && Field(data, pos + 26, 2) == mode
    requires ShaField(data, pos + 40) == e.sha && Field(data, pos + 60, 2) == fl
    requires Shr(mode, 12) == e.modeType && BitAnd(mode, 0x1FF) == e.modePerms % 0x200
    requires IsModeType(e.modeType)
    requires BitAnd(fl, 0x4000) == 0 && (BitAnd(fl, 0x8000) != 0 <==> e.assumeValid)
    requires BitAnd(fl, 0x3000) == e.stage && BitAnd(fl, 0xFFF) == NameLengthField(|e.name|)
    ensures ReadFixed(data, pos) == Ok((StoredFixed(e), NameLengthField(|e.name|)))
  {
  }

  /** A digest field is the 40-digit form of the bytes' big-endian value, however
      many of the 20 bytes the data holds. */
  lemma {:induction false} ShaFieldValue(data: Bytes, p: nat)
    ensures HexValue(ShaField(data, p)) == Field(data, p, 20)
  {
    var s := Slice(data, p, p + 20);
    var k: nat := 20 - |s|;
    var z := Zeros(k);
    assert ShaField(data, p) == HexOfBytes(z + s);
    assert HexValue(HexOfBytes(z + s)) == FromBigEndian(z + s) by { HexOfBytesValue(z + s); }
    assert FromBigEndian(z + s) == FromBigEndian(s) by {
      FromBigEndianZeros(k);
      FromBigEndianAppend(z, s);
    }
  }

  /** Whatever the reader accepts as a fixed part is one the writer can write. */
  lemma {:induction false} ReadFixedValid(data: Bytes, pos: nat)
    requires ReadFixed(data, pos).Ok?
    ensures ValidFields(ReadFixed(data, pos).value.0)
  {
    PowSmall();
    FieldFits(data, pos, 4);
    FieldFits(data, pos + 4, 4);
    FieldFits(data, pos + 8, 4);
    FieldFits(data, pos + 12, 4);
    FieldFits(data, pos + 16, 4);
    FieldFits(data, pos + 20, 4);
    FieldFits(data, pos + 28, 4);
    FieldFits(data, pos + 32, 4);
    FieldFits(data, pos + 36, 4);
    StageBitsAreStage(Field(data, pos + 60, 2));
  }

  lemma {:induction false} PowMono(b: nat, e1: nat, e2: nat)
    requires b > 0 && e1 <= e2
    ensures Pow(b, e1) <= Pow(b, e2)
    decreases e2
  {
    if e1 < e2 {
      PowMono(b, e1, e2 - 1);
    }
  }

  lemma {:induction false} FieldFits(data: Bytes, p: nat, w: nat)
    ensures Field(data, p, w) < Pow(256, w)
  {
    PowMono(256, |Slice(data, p, p + w)|, w);
  }

  /** Placed bytes split into placed halves. */
  lemma {:induction false} AtSplit(data: Bytes, pos: nat, a: Bytes, b: Bytes)
    requires At(data, pos, a + b)
    ensures At(data, pos, a) && At(data, pos + |a|, b)
  {
    assert data[pos..pos + |a|] == (a + b)[..|a|];
    assert data[pos + |a|..pos + |a| + |b|] == (a + b)[|a|..];
  }

  /** An entry is its fixed part followed by its name. */
  lemma {:induction false} ReadEntryFrom(layout: Layout, data: Bytes, pos: nat, e: Entry)
    requires ReadFixed(data, pos) == Ok((StoredFixed(e), NameLengthField(|e.name|)))
    requires ReadName(layout, data, pos + FixedSize, NameLengthField(|e.name|)) == Ok((e.name, EntryEnd(pos, e)))
    ensures ReadEntry(layout, data, pos) == Ok((EntryEnd(pos, e), Stored(e)))
  {
  }

  /** A name placed with its NUL after it: the name's bytes, then the NUL. */
  lemma {:induction false} NameAt(data: Bytes, p: nat, name: Text)
    requires At(data, p, name + [NUL])
    ensures p + |name| < |data| && data[p..p + |name|] == name && data[p + |name|] == NUL
  {
    AtSplit(data, p, name, [NUL]);
  }

  /** A name without a NUL, placed with its NUL after it, reads back whatever its
      length, the cursor landing just past the NUL. */
  lemma {:induction false} ReadNameOf(layout: Layout, data: Bytes, p: nat, name: Text)
    requires NUL !in name && At(data, p, name + [NUL])
    ensures ReadName(layout, data, p, NameLengthField(|name|)) == Ok((name, p + |name| + 1))
  {
    var n := |name|;
    NameAt(data, p, name);
    if n >= MaxNameLength {
      forall j | p + MaxNameLength <= j < p + n
        ensures data[j] != NUL
      {
        assert data[j] == name[j - p];
      }
      FindAt(data, NUL, p + MaxNameLength, p + n);
    }
  }

  /** A valid entry as the writer lays it out, up to its NUL, reads back wherever it
      sits and in either layout, the cursor landing just past the NUL. */
  lemma {:induction false} ReadWrittenEntry(layout: Layout, data: Bytes, pos: nat, e: Entry)
    requires Valid(e) && WriteFixed(e).Ok? && At(data, pos, WriteFixed(e).value + e.name + [NUL])
    ensures ReadEntry(layout, data, pos) == Ok((EntryEnd(pos, e), Stored(e)))
  {
    WrittenEntryAt(data, pos, e);
    ReadWrittenFixed(data, pos, e);
    ReadWrittenName(layout, data, pos, e);
    ReadEntryFrom(layout, data, pos, e);
  }

  /** The name of a valid entry, placed after its fixed part, reads back. */
  lemma {:induction false} ReadWrittenName(layout: Layout, data: Bytes, pos: nat, e: Entry)
    requires NUL !in e.name && At(data, pos + FixedSize, e.name + [NUL])
    ensures ReadName(layout, data, pos + FixedSize, NameLengthField(|e.name|)) == Ok((e.name, EntryEnd(pos, e)))
  {
    ReadNameOf(layout, data, pos + FixedSize, e.name);
  }

  /** A written entry up to its NUL is its fixed part, then its name and the NUL. */
  lemma {:induction false} WrittenEntryAt(data: Bytes, pos: nat, e: Entry)
    requires WriteFixed(e).Ok? && At(data, pos, WriteFixed(e).value + e.name + [NUL])
    ensures At(data, pos, WriteFixed(e).value) && At(data, pos + FixedSize, e.name + [NUL])
  {
    AtHead(data, pos, WriteFixed(e).value, e.name, [NUL]);
  }

  /** Placed bytes `a + b + c` are `a`, then `b + c`. */
  lemma {:induction false} AtHead(data: Bytes, pos: nat, a: Bytes, b: Bytes, c: Bytes)
    requires At(data, pos, a + b + c)
    ensures At(data, pos, a) && At(data, pos + |a|, b + c)
  {
    assert a + b + c == a + (b + c);
    AtSplit(data, pos, a, b + c);
  }

  /** The fixed part of a valid entry, as the writer lays it out, reads back wherever
      it sits. */
  lemma {:induction false} ReadWrittenFixed(data: Bytes, pos: nat, e: Entry)
    requires ValidFields(e) && WriteFixed(e).Ok? && At(data, pos, WriteFixed(e).value)
    ensures ReadFixed(data, pos) == Ok((StoredFixed(e), NameLengthField(|e.name|)))
  {
    WriteFixedLayout(e);
    ReadFixedOf(data, pos, WriteFixed(e).value, e);
  }

  /** Reading from at or past the end of the data: every field is empty, so the mode
      type is 0 and the entry is refused. */
  lemma {:induction false} ReadPastEnd(layout: Layout, data: Bytes, pos: nat)
    requires pos >= |data|
    ensures ReadEntry(layout, data, pos) == Err(BadModeType)
  {
  }

  // ---------------------------------------------------------------------------
  // The aligned layout round-trips

  /** An aligned entry ends on a multiple of 8 bytes from its start. */
  lemma {:induction false} AlignedLength(n: nat)
    ensures FixedSize + n + 1 + Padding(Aligned, n) == RoundUp8(FixedSize + n + 1)
  {
  }

  /** As written, the padding is a whole 8 bytes longer exactly when the NUL already
      ends on a multiple of 8; otherwise the two layouts agree. */
  lemma {:induction false} PaddingExtraBlock(n: nat)
    ensures Padding(AsWritten, n) == Padding(Aligned, n) + (if (FixedSize + n + 1) % 8 == 0 then 8 else 0)
  {
  }

  /** A one-byte name: 62 + 1 + 1 bytes are already a multiple of 8, and the writer
      still adds 8 zero bytes. */
  lemma {:induction false} OneByteNameGetsAWholeBlock(e: Entry)
    requires ValidFields(e) && |e.name| == 1
    ensures WriteEntry(Aligned, e).Ok? && |WriteEntry(Aligned, e).value| == 64
    ensures WriteEntry(AsWritten, e).Ok? && |WriteEntry(AsWritten, e).value| == 72
  {
    ValidWritable(e);
    OneBytePadding(|e.name|);
    WriteEntryLength(Aligned, e, 0);
    WriteEntryLength(AsWritten, e, 8);
  }

  /** The padding after a one-byte name in each layout. */
  lemma {:induction false} OneBytePadding(n: nat)
    requires n == 1
    ensures Padding(Aligned, n) == 0 && Padding(AsWritten, n) == 8
  {
  }

  /** A written entry is its fixed part, its name, the NUL and the padding. */
  lemma {:induction false} WriteEntryLength(layout: Layout, e: Entry, pad: nat)
    requires WriteFixed(e).Ok? && Padding(layout, |e.name|) == pad
    ensures WriteEntry(layout, e).Ok?
    ensures |WriteEntry(layout, e).value| == FixedSize + |e.name| + 1 + pad
  {
  }

  /** Writing a run of entries succeeds exactly when every fixed part can be written. */
  lemma {:induction false} WriteEntriesOk(layout: Layout, es: seq<Entry>)
    ensures WriteEntries(layout, es).Ok? <==> forall i :: 0 <= i < |es| ==> WriteFixed(es[i]).Ok?
    decreases |es|
  {
    if |es| > 0 {
      var e, tail := es[0], es[1..];
      WriteEntriesOk(layout, tail);
      WriteEntriesStep(layout, es, e, tail);
      WritableCons(es, e, tail);
    }
  }

  /** A run of entries can be written when its first entry and the rest can. */
  lemma {:induction false} WriteEntriesStep(layout: Layout, es: seq<Entry>, e: Entry, tail: seq<Entry>)
    requires |es| > 0 && es[0] == e && es[1..] == tail
    ensures WriteEntries(layout, es).Ok? <==> WriteFixed(e).Ok? && WriteEntries(layout, tail).Ok?
  {
  }

  /** Every entry of a run has a writable fixed part when the first and the rest do. */
  lemma {:induction false} WritableCons(es: seq<Entry>, e: Entry, tail: seq<Entry>)
    requires |es| > 0 && es[0] == e && es[1..] == tail
    ensures (forall i :: 0 <= i < |es| ==> WriteFixed(es[i]).Ok?)
        <==> WriteFixed(e).Ok? && forall i :: 0 <= i < |tail| ==> WriteFixed(tail[i]).Ok?
  {
    assert forall i :: 0 < i < |es| ==> es[i] == tail[i - 1];
  }

  /** Valid entries can all be written. */
  lemma {:induction false} ValidEntriesWritable(layout: Layout, es: seq<Entry>)
    requires forall i :: 0 <= i < |es| ==> Valid(es[i])
    ensures WriteEntries(layout, es).Ok?
  {
    WriteEntriesOk(layout, es);
    forall i | 0 <= i < |es| ensures WriteFixed(es[i]).Ok? {
      ValidWritable(es[i]);
    }
  }

  /** Where a written entry's name ends, its NUL included. */
  function EntryEnd(pos: nat, e: Entry): nat {
    pos + FixedSize + |e.name| + 1
  }

  /** Where the writer puts the entry after `e`: past its NUL and its padding. */
  function After(layout: Layout, pos: nat, e: Entry): nat {
    EntryEnd(pos, e) + Padding(layout, |e.name|)
  }

  /** The aligned reader reads back every entry the aligned writer wrote, wherever
      the entries sit. */
  lemma {:induction false} ReadEntriesAligned(data: Bytes, pos: nat, es: seq<Entry>)
    requires forall i :: 0 <= i < |es| ==> Valid(es[i])
    requires WriteEntries(Aligned, es).Ok? && At(data, pos, WriteEntries(Aligned, es).value)
    ensures ReadEntries(Aligned, data, pos, |es|) == Ok(StoredAll(es))
    decreases |es|
  {
    if |es| > 0 {
      var e, tail := es[0], es[1..];
      EntriesCons(es, e, tail);
      WriteEntriesCons(Aligned, es, e, tail);
      ReadFirstAligned(data, pos, e, WriteEntries(Aligned, tail).value);
      ReadEntriesAligned(data, After(Aligned, pos, e), tail);
      ReadEntriesStep(Aligned, data, pos, |tail|, EntryEnd(pos, e), After(Aligned, pos, e), Stored(e), StoredAll(tail));
    }
  }

  /** Writing a run of entries writes the first, then the rest. */
  lemma {:induction false} WriteEntriesCons(layout: Layout, es: seq<Entry>, e: Entry, tail: seq<Entry>)
    requires |es| > 0 && es[0] == e && es[1..] == tail
    requires WriteEntries(layout, es).Ok?
    ensures WriteEntry(layout, e).Ok? && WriteEntries(layout, tail).Ok?
    ensures WriteEntries(layout, es).value == WriteEntry(layout, e).value + WriteEntries(layout, tail).value
  {
  }

  /** The first entry the aligned writer wrote reads back, and the cursor moves to
      the bytes after its padding. */
  lemma {:induction false} ReadFirstAligned(data: Bytes, pos: nat, e: Entry, rest: Bytes)
    requires Valid(e) && WriteEntry(Aligned, e).Ok? && At(data, pos, WriteEntry(Aligned, e).value + rest)
    ensures ReadEntry(Aligned, data, pos) == Ok((EntryEnd(pos, e), Stored(e)))
    ensures pos <= EntryEnd(pos, e) && Next(Aligned, pos, EntryEnd(pos, e)) == After(Aligned, pos, e)
    ensures At(data, After(Aligned, pos, e), rest)
  {
    ReadFirst(Aligned, data, pos, e, rest);
    AlignedNext(pos, |e.name|, EntryEnd(pos, e), After(Aligned, pos, e));
  }

  /** A written entry followed by other bytes reads back, in either layout; the
      other bytes sit past its padding. */
  lemma {:induction false} ReadFirst(layout: Layout, data: Bytes, pos: nat, e: Entry, rest: Bytes)
    requires Valid(e) && WriteEntry(layout, e).Ok? && At(data, pos, WriteEntry(layout, e).value + rest)
    ensures ReadEntry(layout, data, pos) == Ok((EntryEnd(pos, e), Stored(e)))
    ensures At(data, After(layout, pos, e), rest)
  {
    WrittenEntryParts(layout, data, pos, e, rest);
    ReadWrittenEntry(layout, data, pos, e);
  }

  /** A written entry, up to its NUL, and the bytes after its padding, each where it
      sits. */
  lemma {:induction false} WrittenEntryParts(layout: Layout, data: Bytes, pos: nat, e: Entry, rest: Bytes)
    requires WriteEntry(layout, e).Ok? && At(data, pos, WriteEntry(layout, e).value + rest)
    ensures WriteFixed(e).Ok? && At(data, pos, WriteFixed(e).value + e.name + [NUL])
    ensures At(data, After(layout, pos, e), rest)
  {
    var head := WriteFixed(e).value + e.name + [NUL];
    var pad := Zeros(Padding(layout, |e.name|));
    assert WriteEntry(layout, e).value == head + pad;
    assert |head| + |pad| == FixedSize + |e.name| + 1 + Padding(layout, |e.name|);
    AtPadded(data, pos, head, pad, rest, After(layout, pos, e));
  }

  /** What sits before and after a run of padding. */
  lemma {:induction false} AtPadded(data: Bytes, pos: nat, a: Bytes, pad: Bytes, rest: Bytes, next: nat)
    requires At(data, pos, a + pad + rest) && next == pos + |a| + |pad|
    ensures At(data, pos, a) && At(data, next, rest)
  {
    AtSplit(data, pos, a + pad, rest);
    AtSplit(data, pos, a, pad);
  }

  /** A run of valid entries is its first entry and the valid entries after it. */
  lemma {:induction false} EntriesCons(es: seq<Entry>, e: Entry, tail: seq<Entry>)
    requires |es| > 0 && es[0] == e && es[1..] == tail
    requires forall i :: 0 <= i < |es| ==> Valid(es[i])
    ensures |es| == |tail| + 1 && StoredAll(es) == [Stored(e)] + StoredAll(tail)
    ensures Valid(e) && forall i :: 0 <= i < |tail| ==> Valid(tail[i])
  {
    assert forall i :: 0 <= i < |tail| ==> tail[i] == es[i + 1];
  }

  /** The aligned cursor moves past the padding. */
  lemma {:induction false} AlignedNext(pos: nat, n: nat, end: nat, next: nat)
    requires end == pos + FixedSize + n + 1 && next == end + Padding(Aligned, n)
    ensures Next(Aligned, pos, end) == next
  {
    AlignedLength(n);
  }

  /** One step of the reading loop: an entry, then the rest from where the cursor moves. */
  lemma {:induction false} ReadEntriesStep(layout: Layout, data: Bytes, pos: nat, count: nat, end: nat, next: nat, e: Entry, rest: seq<Entry>)
    requires (layout == Aligned ==> pos <= end) && next == Next(layout, pos, end)
    requires ReadEntry(layout, data, pos) == Ok((end, e))
    requires ReadEntries(layout, data, next, count) == Ok(rest)
    ensures ReadEntries(layout, data, pos, count + 1) == Ok([e] + rest)
  {
  }

  /** The header written for a count, as the reader reads it back. */
  lemma {:induction false} ReadHeader(count: nat, rest: Bytes)
    requires count < Word
    ensures var data := Signature + BigEndian(Version, 4) + BigEndian(count, 4) + rest;
      var header := Slice(data, 0, HeaderSize);
      && Slice(header, 0, 4) == Signature
      && FromBigEndian(Slice(header, 4, 8)) == Version
      && FromBigEndian(Slice(header, 8, 12)) == count
  {
    PowSmall();
    var data := Signature + BigEndian(Version, 4) + BigEndian(count, 4) + rest;
    assert data[..12] == Signature + BigEndian(Version, 4) + BigEndian(count, 4);
  }

  /** What `Write` produces: the header for the count, then the entries. */
  lemma {:induction false} WriteParts(layout: Layout, idx: Index)
    requires Write(layout, idx).Ok?
    ensures var data := Write(layout, idx).value;
      && data == Signature + BigEndian(Version, 4) + BigEndian(|idx.entries|, 4) + WriteEntries(layout, idx.entries).value
      && At(data, HeaderSize, WriteEntries(layout, idx.entries).value)
  {
    PowSmall();
    var header := Signature + BigEndian(Version, 4) + BigEndian(|idx.entries|, 4);
    var body := WriteEntries(layout, idx.entries).value;
    assert Write(layout, idx).value == header + body;
    AtAfter(header + body, header, body, HeaderSize);
  }

  /** Bytes placed after a header sit just past it. */
  lemma {:induction false} AtAfter(data: Bytes, header: Bytes, body: Bytes, pos: nat)
    requires data == header + body && pos == |header|
    ensures At(data, pos, body)
  {
    assert data[pos..pos + |body|] == body;
  }

  /** With the aligned layout on both sides, reading an index back gives every entry
      as written, permissions cut to 9 bits. */
  lemma {:induction false} ReadWriteAligned(idx: Index)
    requires |idx.entries| < Word && forall i :: 0 <= i < |idx.entries| ==> Valid(idx.entries[i])
    ensures Write(Aligned, idx).Ok?
    ensures Read(Aligned, Write(Aligned, idx).value) == Ok(Index(StoredAll(idx.entries)))
  {
    ValidEntriesWritable(Aligned, idx.entries);
    WriteParts(Aligned, idx);
    ReadEntriesAligned(Write(Aligned, idx).value, HeaderSize, idx.entries);
    ReadWithHeader(Aligned, Write(Aligned, idx).value, |idx.entries|, WriteEntries(Aligned, idx.entries).value);
  }

  /** As written, an index of no entries or one entry reads back. */
  lemma {:induction false} ReadWriteSmall(idx: Index)
    requires |idx.entries| <= 1 && forall i :: 0 <= i < |idx.entries| ==> Valid(idx.entries[i])
    ensures Write(AsWritten, idx).Ok?
    ensures Read(AsWritten, Write(AsWritten, idx).value) == Ok(Index(StoredAll(idx.entries)))
  {
    PowSmall();
    var es := idx.entries;
    ValidEntriesWritable(AsWritten, es);
    WriteParts(AsWritten, idx);
    var data := Write(AsWritten, idx).value;
    var body := WriteEntries(AsWritten, es).value;
    if |es| == 1 {
      var e, tail := es[0], es[1..];
      EntriesCons(es, e, tail);
      WriteEntriesCons(AsWritten, es, e, tail);
      ReadFirst(AsWritten, data, HeaderSize, e, WriteEntries(AsWritten, tail).value);
      ReadNone(AsWritten, data, Next(AsWritten, HeaderSize, EntryEnd(HeaderSize, e)), tail);
      ReadEntriesStep(AsWritten, data, HeaderSize, |tail|, EntryEnd(HeaderSize, e),
        Next(AsWritten, HeaderSize, EntryEnd(HeaderSize, e)), Stored(e), StoredAll(tail));
    }
    ReadWithHeader(AsWritten, data, |es|, body);
  }

  /** No entries read as none, wherever the cursor is. */
  lemma {:induction false} ReadNone(layout: Layout, data: Bytes, pos: nat, es: seq<Entry>)
    requires |es| == 0
    ensures ReadEntries(layout, data, pos, |es|) == Ok(StoredAll(es))
  {
  }

  /** After a header the writer wrote, the reader reads the count of entries it holds
      from offset 12, and the index is what that reading gives. */
  lemma {:induction false} ReadWithHeader(layout: Layout, data: Bytes, count: nat, rest: Bytes)
    requires count < Word && data == Signature + BigEndian(Version, 4) + BigEndian(count, 4) + rest
    ensures ReadEntries(layout, data, HeaderSize, count).Ok? ==>
      Read(layout, data) == Ok(Index(ReadEntries(layout, data, HeaderSize, count).value))
    ensures ReadEntries(layout, data, HeaderSize, count).Err? ==>
      Read(layout, data) == Err(ReadEntries(layout, data, HeaderSize, count).error)
  {
    ReadHeader(count, rest);
  }

  /** As written, the second of two entries is looked for at or past the end of the
      data whenever its name is no longer than the first's, so the read fails. */
  lemma {:induction false} TwoEntriesRunOffTheEnd(e1: Entry, e2: Entry)
    requires Valid(e1) && Valid(e2) && |e2.name| <= |e1.name|
    ensures Write(AsWritten, Index([e1, e2])).Ok?
    ensures Read(AsWritten, Write(AsWritten, Index([e1, e2])).value) == Err(BadModeType)
  {
    PowSmall();
    ValidWritable(e1);
    ValidWritable(e2);
    var idx := Index([e1, e2]);
    TwoWritten(e1, e2);
    WriteParts(AsWritten, idx);
    var data := Write(AsWritten, idx).value;
    var w1, w2 := WriteEntry(AsWritten, e1).value, WriteEntry(AsWritten, e2).value;
    ReadFirst(AsWritten, data, HeaderSize, e1, w2);
    WriteEntryLength(AsWritten, e1, Padding(AsWritten, |e1.name|));
    WriteEntryLength(AsWritten, e2, Padding(AsWritten, |e2.name|));
    SecondPastEnd(|data|, e1, e2, |w1|, |w2|);
    ReadPastEnd(AsWritten, data, Next(AsWritten, HeaderSize, EntryEnd(HeaderSize, e1)));
    SecondFails(AsWritten, data, HeaderSize, EntryEnd(HeaderSize, e1), Stored(e1));
    ReadWithHeader(AsWritten, data, 2, w1 + w2);
  }

  /** Two entries are written one after the other. */
  lemma {:induction false} TwoWritten(e1: Entry, e2: Entry)
    requires WriteFixed(e1).Ok? && WriteFixed(e2).Ok?
    ensures WriteEntries(AsWritten, [e1, e2]) == Ok(WriteEntry(AsWritten, e1).value + WriteEntry(AsWritten, e2).value)
  {
    WriteOne(AsWritten, e2);
    WriteEntriesJoin(AsWritten, [e1, e2], e1, [e2]);
  }

  /** Writing a single entry. */
  lemma {:induction false} WriteOne(layout: Layout, e: Entry)
    requires WriteFixed(e).Ok?
    ensures WriteEntries(layout, [e]) == Ok(WriteEntry(layout, e).value)
  {
    var empty: seq<Entry> := [];
    assert [e][1..] == empty;
    assert WriteEntries(layout, empty) == Ok([]);
    WriteEntriesJoin(layout, [e], e, empty);
    assert WriteEntry(layout, e).value + [] == WriteEntry(layout, e).value;
  }

  /** Writing a run of entries whose first entry and rest can be written. */
  lemma {:induction false} WriteEntriesJoin(layout: Layout, es: seq<Entry>, e: Entry, tail: seq<Entry>)
    requires |es| > 0 && es[0] == e && es[1..] == tail
    requires WriteFixed(e).Ok? && WriteEntries(layout, tail).Ok?
    ensures WriteEntries(layout, es) == Ok(WriteEntry(layout, e).value + WriteEntries(layout, tail).value)
  {
  }

  /** As written, the cursor after the first of two entries lands at or past the end
      of the data when the second name is no longer than the first. */
  lemma {:induction false} SecondPastEnd(size: nat, e1: Entry, e2: Entry, n1: nat, n2: nat)
    requires |e2.name| <= |e1.name| && size == HeaderSize + n1 + n2
    requires n1 == FixedSize + |e1.name| + 1 + Padding(AsWritten, |e1.name|)
    requires n2 == FixedSize + |e2.name| + 1 + Padding(AsWritten, |e2.name|)
    ensures Next(AsWritten, HeaderSize, EntryEnd(HeaderSize, e1)) >= size
  {
    var m1, m2 := FixedSize + |e1.name| + 1, FixedSize + |e2.name| + 1;
    assert n1 == m1 + 8 - m1 % 8 && n2 == m2 + 8 - m2 % 8;
    assert m2 / 8 <= m1 / 8;
  }

  /** A second entry that cannot be read makes reading two fail with its error. */
  lemma {:induction false} SecondFails(layout: Layout, data: Bytes, pos: nat, end: nat, e: Entry)
    requires layout == AsWritten && ReadEntry(layout, data, pos) == Ok((end, e))
    requires ReadEntry(layout, data, Next(layout, pos, end)).Err?
    ensures ReadEntries(layout, data, pos, 2) == Err(ReadEntry(layout, data, Next(layout, pos, end)).error)
  {
  }

  /** As written, a long name with no NUL after it makes the reader take the rest of
      the data but its last byte as the name and restart at offset 0; the aligned
      reader reports the missing NUL. */
  lemma {:induction false} MissingNulRestarts(data: Bytes, pos: nat)
    requires |data| > 0 && forall j :: pos + MaxNameLength <= j < |data| ==> data[j] != NUL
    ensures ReadName(AsWritten, data, pos, MaxNameLength) == Ok((Slice(data, pos, |data| - 1), 0))
    ensures ReadName(Aligned, data, pos, MaxNameLength) == Err(MissingNul)
  {
    FindNone(data, NUL, pos + MaxNameLength);
  }
}
