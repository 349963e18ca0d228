/** The xpak section that ends a binary package: a list of named values, found by
    reading backwards from the end of the file.
 */
module Xpak {
  import opened Wrappers

  newtype Byte = x: int | 0 <= x < 256

  type Bytes = seq<Byte>

  /** A length must fit in 32 bits. */
  const LIMIT := 0x1_0000_0000

  const XPAKPACK: Bytes := [0x58, 0x50, 0x41, 0x4B, 0x50, 0x41, 0x43, 0x4B]
  const XPAKSTOP: Bytes := [0x58, 0x50, 0x41, 0x4B, 0x53, 0x54, 0x4F, 0x50]
  const STOP: Bytes := [0x53, 0x54, 0x4F, 0x50]

  datatype Entry = Entry(name: Bytes, value: Bytes)

  // ---- Parts of a file ---------------------------------------------------------

  /** `b` stands at `at` in `file`. */
  predicate At(file: Bytes, at: nat, b: Bytes) {
    at + |b| <= |file| && forall i {:trigger b[i]} :: 0 <= i < |b| ==> file[at + i] == b[i]
  }

  lemma {:induction false} AtPart(file: Bytes, at: nat, s: Bytes, offset: nat, t: Bytes)
    requires At(file, at, s) && At(s, offset, t)
    ensures At(file, at + offset, t)
  {
  }

  lemma {:induction false} AtEnds(a: Bytes, b: Bytes, ab: Bytes)
    requires ab == a + b
    ensures At(ab, 0, a) && At(ab, |a|, b)
  {
  }

  /** The number that the bytes of a file between two positions stand for, the most
      significant byte first. */
  function Number(file: Bytes, lo: nat, hi: nat): nat
    requires lo <= hi <= |file|
    decreases hi
  {
    if hi <= lo then 0 else 256 * Number(file, lo, hi - 1) + file[hi - 1] as int
  }

  lemma {:induction false} NumberInPart(file: Bytes, at: nat, s: Bytes, lo: nat, hi: nat)
    requires lo <= hi <= |s| && At(file, at, s)
    ensures Number(file, at + lo, at + hi) == Number(s, lo, hi)
    decreases hi
  {
    if lo < hi {
      NumberInPart(file, at, s, lo, hi - 1);
      assert s[hi - 1] == file[at..at + |s|][hi - 1];
    }
  }

  /** A 32-bit number stands at `at`. */
  predicate U32Is(file: Bytes, at: nat, n: nat) {
    at + 4 <= |file| && Number(file, at, at + 4) == n
  }

  /** It is big-endian. */
  lemma {:induction false} BigEndian(file: Bytes, at: nat, n: nat)
    ensures U32Is(file, at, n) <==>
            && at + 4 <= |file|
            && n == 0x100_0000 * file[at] as int + 0x1_0000 * file[at + 1] as int
                    + 0x100 * file[at + 2] as int + file[at + 3] as int
  {
    if at + 4 <= |file| {
      assert Number(file, at, at) == 0;
      assert Number(file, at, at + 1) == file[at] as int;
      assert Number(file, at, at + 2) == 0x100 * file[at] as int + file[at + 1] as int;
      assert Number(file, at, at + 3) == 0x1_0000 * file[at] as int + 0x100 * file[at + 1] as int + file[at + 2] as int;
    }
  }

  lemma {:induction false} U32InPart(file: Bytes, at: nat, s: Bytes, offset: nat, n: nat)
    requires At(file, at, s) && U32Is(s, offset, n)
    ensures U32Is(file, at + offset, n)
  {
    NumberInPart(file, at, s, offset, offset + 4);
  }

  /** The length of a vector, in the format of the section. */
  method LenBytes(v: Bytes) returns (r: Option<Bytes>)
    ensures r.Some? <==> |v| < LIMIT
    ensures r.Some? ==> |r.value| == 4 && U32Is(r.value, 0, |v|)
  {
    var n := |v|;
    if n >= LIMIT {
      return None;
    }
    var b: Bytes := [(n / 256 / 256 / 256) as Byte, (n / 256 / 256 % 256) as Byte, (n / 256 % 256) as Byte,
                     (n % 256) as Byte];
    assert Number(b, 0, 0) == 0;
    assert Number(b, 0, 1) == n / 256 / 256 / 256;
    assert Number(b, 0, 2) == n / 256 / 256;
    assert Number(b, 0, 3) == n / 256;
    assert Number(b, 0, 4) == n;
    return Some(b);
  }

  // ---- The format --------------------------------------------------------------

  /** What the index records of the first `i` entries take. */
  function IndexLen(es: seq<Entry>, i: nat): nat
    requires i <= |es|
  {
    if i == 0 then 0 else IndexLen(es, i - 1) + 12 + |es[i - 1].name|
  }

  /** What the values of the first `i` entries take; also the offset of value `i`. */
  function DataLen(es: seq<Entry>, i: nat): nat
    requires i <= |es|
  {
    if i == 0 then 0 else DataLen(es, i - 1) + |es[i - 1].value|
  }

  lemma {:induction false} LengthsGrow(es: seq<Entry>, i: nat, j: nat)
    requires i <= j <= |es|
    ensures DataLen(es, i) <= DataLen(es, j) && IndexLen(es, i) + 12 * (j - i) <= IndexLen(es, j)
    decreases j
  {
    if i < j {
      LengthsGrow(es, i, j - 1);
    }
  }

  /** The size of the section, without its trailer. */
  function Size(es: seq<Entry>): nat {
    24 + IndexLen(es, |es|) + DataLen(es, |es|)
  }

  /** An index record: the length of the name, the name, and the offset and the
      length of the value. */
  predicate Record(file: Bytes, at: nat, e: Entry, offset: nat) {
    && U32Is(file, at, |e.name|) && At(file, at + 4, e.name)
    && U32Is(file, at + 4 + |e.name|, offset) && U32Is(file, at + 8 + |e.name|, |e.value|)
  }

  predicate RecordAt(file: Bytes, start: nat, es: seq<Entry>, i: nat)
    requires i < |es|
  {
    Record(file, start + IndexLen(es, i), es[i], DataLen(es, i))
  }

  predicate ValueAt(file: Bytes, start: nat, es: seq<Entry>, i: nat)
    requires i < |es|
  {
    At(file, start + DataLen(es, i), es[i].value)
  }

  /** The first `n` records of the index stand at `start`. */
  predicate Index(file: Bytes, start: nat, es: seq<Entry>, n: nat)
    requires n <= |es|
    decreases n
  {
    n > 0 ==> Index(file, start, es, n - 1) && RecordAt(file, start, es, n - 1)
  }

  /** The first `n` values stand at `start`. */
  predicate Data(file: Bytes, start: nat, es: seq<Entry>, n: nat)
    requires n <= |es|
    decreases n
  {
    n > 0 ==> Data(file, start, es, n - 1) && ValueAt(file, start, es, n - 1)
  }

  /** A section with the entries `es`, up to `end`: two lengths, the index and the data
      between two magic words. */
  predicate Section(file: Bytes, t: nat, es: seq<Entry>) {
    var indexLen, dataLen := IndexLen(es, |es|), DataLen(es, |es|);
    && At(file, t, XPAKPACK)
    && U32Is(file, t + 8, indexLen) && U32Is(file, t + 12, dataLen)
    && Index(file, t + 16, es, |es|)
    && Data(file, t + 16 + indexLen, es, |es|)
    && At(file, t + 16 + indexLen + dataLen, XPAKSTOP)
  }

  /** A tarball of any kind, the section, its length and a last magic word. */
  predicate Package(file: Bytes, tarball: Bytes, es: seq<Entry>) {
    var end := |tarball| + Size(es);
    && |file| == end + 8
    && At(file, 0, tarball)
    && Section(file, |tarball|, es)
    && U32Is(file, end, Size(es)) && At(file, end + 4, STOP)
  }

  // ---- The writer --------------------------------------------------------------

  lemma {:induction false} RecordInPart(file: Bytes, at: nat, s: Bytes, offset: nat, e: Entry, value: nat)
    requires At(file, at, s) && Record(s, offset, e, value)
    ensures Record(file, at + offset, e, value)
  {
    U32InPart(file, at, s, offset, |e.name|);
    AtPart(file, at, s, offset + 4, e.name);
    U32InPart(file, at, s, offset + 4 + |e.name|, value);
    U32InPart(file, at, s, offset + 8 + |e.name|, |e.value|);
  }

  lemma {:induction false} IndexInPart(file: Bytes, at: nat, s: Bytes, es: seq<Entry>, n: nat)
    requires n <= |es| && At(file, at, s) && Index(s, 0, es, n)
    ensures Index(file, at, es, n)
    decreases n
  {
    if n > 0 {
      IndexInPart(file, at, s, es, n - 1);
      RecordInPart(file, at, s, IndexLen(es, n - 1), es[n - 1], DataLen(es, n - 1));
    }
  }

  lemma {:induction false} DataInPart(file: Bytes, at: nat, s: Bytes, es: seq<Entry>, n: nat)
    requires n <= |es| && At(file, at, s) && Data(s, 0, es, n)
    ensures Data(file, at, es, n)
    decreases n
  {
    if n > 0 {
      DataInPart(file, at, s, es, n - 1);
      AtPart(file, at, s, DataLen(es, n - 1), es[n - 1].value);
    }
  }

  lemma {:induction false} Concatenated(a: Bytes, b: Bytes, c: Bytes, d: Bytes, s: Bytes)
    requires s == a + b + c + d
    ensures At(s, 0, a) && At(s, |a|, b) && At(s, |a| + |b|, c) && At(s, |a| + |b| + |c|, d)
  {
  }

  lemma {:induction false} Concatenated3(a: Bytes, b: Bytes, c: Bytes, s: Bytes)
    requires s == a + b + c
    ensures At(s, 0, a) && At(s, |a|, b) && At(s, |a| + |b|, c)
  {
  }

  lemma {:induction false} RecordOf(nameLen: Bytes, offset: Bytes, valueLen: Bytes, e: Entry, value: nat, b: Bytes)
    requires |nameLen| == 4 && U32Is(nameLen, 0, |e.name|) && At(b, 0, nameLen)
    requires At(b, 4, e.name)
    requires |offset| == 4 && U32Is(offset, 0, value) && At(b, 4 + |e.name|, offset)
    requires |valueLen| == 4 && U32Is(valueLen, 0, |e.value|) && At(b, 8 + |e.name|, valueLen)
    ensures Record(b, 0, e, value)
  {
    U32InPart(b, 0, nameLen, 0, |e.name|);
    U32InPart(b, 4 + |e.name|, offset, 0, value);
    U32InPart(b, 8 + |e.name|, valueLen, 0, |e.value|);
  }

  lemma {:induction false} IndexAppend(index: Bytes, record: Bytes, longer: Bytes, es: seq<Entry>, i: nat)
    requires i < |es| && |index| == IndexLen(es, i) && Index(index, 0, es, i)
    requires Record(record, 0, es[i], DataLen(es, i))
    requires At(longer, 0, index) && At(longer, |index|, record)
    ensures Index(longer, 0, es, i + 1)
  {
    IndexInPart(longer, 0, index, es, i);
    RecordInPart(longer, |index|, record, 0, es[i], DataLen(es, i));
    assert RecordAt(longer, 0, es, i);
  }

  lemma {:induction false} DataAppend(data: Bytes, longer: Bytes, es: seq<Entry>, i: nat)
    requires i < |es| && |data| == DataLen(es, i) && Data(data, 0, es, i)
    requires At(longer, 0, data) && At(longer, |data|, es[i].value)
    ensures Data(longer, 0, es, i + 1)
  {
    DataInPart(longer, 0, data, es, i);
    assert ValueAt(longer, 0, es, i);
  }

  lemma {:induction false} Appended(index: Bytes, record: Bytes, data: Bytes, es: seq<Entry>, i: nat)
    requires i < |es| && |index| == IndexLen(es, i) && Index(index, 0, es, i)
    requires |data| == DataLen(es, i) && Data(data, 0, es, i)
    requires |record| == 12 + |es[i].name| && Record(record, 0, es[i], DataLen(es, i))
    ensures |index + record| == IndexLen(es, i + 1) && Index(index + record, 0, es, i + 1)
    ensures |data + es[i].value| == DataLen(es, i + 1) && Data(data + es[i].value, 0, es, i + 1)
  {
    AtEnds(index, record, index + record);
    AtEnds(data, es[i].value, data + es[i].value);
    IndexAppend(index, record, index + record, es, i);
    DataAppend(data, data + es[i].value, es, i);
  }

  /** The index record of an entry whose value goes behind `data`. */
  method EncodeRecord(e: Entry, data: Bytes) returns (r: Option<Bytes>)
    ensures r.Some? <==> |e.name| < LIMIT && |data| < LIMIT && |e.value| < LIMIT
    ensures r.Some? ==> |r.value| == 12 + |e.name| && Record(r.value, 0, e, |data|)
  {
    var nameLen := LenBytes(e.name);
    if nameLen.None? {
      return None;
    }
    var offset := LenBytes(data);
    if offset.None? {
      return None;
    }
    var valueLen := LenBytes(e.value);
    if valueLen.None? {
      return None;
    }
    var record := nameLen.value + e.name + offset.value + valueLen.value;
    Concatenated(nameLen.value, e.name, offset.value, valueLen.value, record);
    RecordOf(nameLen.value, offset.value, valueLen.value, e, |data|, record);
    return Some(record);
  }

  /** Writes a package; it fails exactly when the section does not fit in 32 bits. */
  method GenTbz2(tarball: Bytes, xpak: seq<Entry>) returns (r: Option<Bytes>)
    ensures r.Some? <==> Size(xpak) < LIMIT
    ensures r.Some? ==> Package(r.value, tarball, xpak)
  {
    var index: Bytes, data: Bytes := [], [];
    for i := 0 to |xpak|
      invariant |index| == IndexLen(xpak, i) && Index(index, 0, xpak, i)
      invariant |data| == DataLen(xpak, i) && Data(data, 0, xpak, i)
    {
      LengthsGrow(xpak, i + 1, |xpak|);
      var record := EncodeRecord(xpak[i], data);
      if record.None? {
        return None;
      }
      Appended(index, record.value, data, xpak, i);
      index := index + record.value;
      data := data + xpak[i].value;
    }
    r := Assemble(tarball, index, data, xpak);
  }

  /** What stands before and behind the data. */
  method Assemble(tarball: Bytes, index: Bytes, data: Bytes, ghost es: seq<Entry>) returns (r: Option<Bytes>)
    requires |index| == IndexLen(es, |es|) && Index(index, 0, es, |es|)
    requires |data| == DataLen(es, |es|) && Data(data, 0, es, |es|)
    ensures r.Some? <==> Size(es) < LIMIT
    ensures r.Some? ==> Package(r.value, tarball, es)
  {
    var indexLen := LenBytes(index);
    if indexLen.None? {
      return None;
    }
    var dataLen := LenBytes(data);
    if dataLen.None? {
      return None;
    }
    var head := XPAKPACK + indexLen.value + dataLen.value + index;
    var section := head + data + XPAKSTOP;
    var sectionLen := LenBytes(section);
    if sectionLen.None? {
      return None;
    }
    var file := tarball + section + sectionLen.value + STOP;
    Assembled(tarball, indexLen.value, dataLen.value, index, data, head, section, sectionLen.value, file, es);
    return Some(file);
  }

  lemma {:induction false} Assembled(tarball: Bytes, indexLen: Bytes, dataLen: Bytes, index: Bytes, data: Bytes,
                                     head: Bytes, section: Bytes, sectionLen: Bytes, file: Bytes, es: seq<Entry>)
    requires head == XPAKPACK + indexLen + dataLen + index && section == head + data + XPAKSTOP
    requires file == tarball + section + sectionLen + STOP
    requires |indexLen| == 4 && U32Is(indexLen, 0, |index|) && |dataLen| == 4 && U32Is(dataLen, 0, |data|)
    requires |sectionLen| == 4 && U32Is(sectionLen, 0, |section|)
    requires |index| == IndexLen(es, |es|) && Index(index, 0, es, |es|)
    requires |data| == DataLen(es, |es|) && Data(data, 0, es, |es|)
    ensures Package(file, tarball, es)
  {
    HeadOf(head, indexLen, dataLen, index, XPAKPACK);
    Concatenated3(head, data, XPAKSTOP, section);
    Concatenated(tarball, section, sectionLen, STOP, file);
    PackageOf(file, tarball, section, head, indexLen, dataLen, index, data, sectionLen, es);
  }

  predicate Head(head: Bytes, indexLen: Bytes, dataLen: Bytes, index: Bytes, magic: Bytes) {
    At(head, 0, magic) && At(head, 8, indexLen) && At(head, 12, dataLen) && At(head, 16, index)
  }

  lemma {:induction false} HeadOf(head: Bytes, indexLen: Bytes, dataLen: Bytes, index: Bytes, magic: Bytes)
    requires head == magic + indexLen + dataLen + index && |magic| == 8 && |indexLen| == |dataLen| == 4
    ensures Head(head, indexLen, dataLen, index, magic)
  {
  }

  lemma {:induction false} PackageOf(file: Bytes, tarball: Bytes, section: Bytes, head: Bytes, indexLen: Bytes,
                                     dataLen: Bytes, index: Bytes, data: Bytes, sectionLen: Bytes, es: seq<Entry>)
    requires Head(head, indexLen, dataLen, index, XPAKPACK) && |head| == 16 + |index|
    requires At(section, 0, head) && At(section, |head|, data) && At(section, |head| + |data|, XPAKSTOP)
    requires |section| == |head| + |data| + 8
    requires At(file, 0, tarball) && At(file, |tarball|, section) && At(file, |tarball| + |section|, sectionLen)
    requires At(file, |tarball| + |section| + 4, STOP) && |file| == |tarball| + |section| + 8
    requires |indexLen| == 4 && U32Is(indexLen, 0, |index|) && |dataLen| == 4 && U32Is(dataLen, 0, |data|)
    requires |sectionLen| == 4 && U32Is(sectionLen, 0, |section|)
    requires |index| == IndexLen(es, |es|) && Index(index, 0, es, |es|)
    requires |data| == DataLen(es, |es|) && Data(data, 0, es, |es|)
    ensures Package(file, tarball, es)
  {
    var t := |tarball|;
    PartsInFile(file, t, section, head, data, XPAKSTOP);
    HeadInFile(file, t, head, indexLen, dataLen, index, XPAKPACK);
    SectionOf(file, t, indexLen, dataLen, index, data, es);
    U32InPart(file, t + |section|, sectionLen, 0, |section|);
  }

  lemma {:induction false} PartsInFile(file: Bytes, t: nat, section: Bytes, head: Bytes, data: Bytes, magic: Bytes)
    requires At(file, t, section)
    requires At(section, 0, head) && At(section, |head|, data) && At(section, |head| + |data|, magic)
    ensures At(file, t, head) && At(file, t + |head|, data) && At(file, t + |head| + |data|, magic)
  {
    AtPart(file, t, section, 0, head);
    AtPart(file, t, section, |head|, data);
    AtPart(file, t, section, |head| + |data|, magic);
  }

  lemma {:induction false} HeadInFile(file: Bytes, t: nat, head: Bytes, indexLen: Bytes, dataLen: Bytes,
                                      index: Bytes, magic: Bytes)
    requires At(file, t, head) && Head(head, indexLen, dataLen, index, magic)
    ensures At(file, t, magic) && At(file, t + 8, indexLen) && At(file, t + 12, dataLen) && At(file, t + 16, index)
  {
  }

  lemma {:induction false} SectionOf(file: Bytes, t: nat, indexLen: Bytes, dataLen: Bytes, index: Bytes, data: Bytes,
                                     es: seq<Entry>)
    requires At(file, t, XPAKPACK) && At(file, t + 8, indexLen) && At(file, t + 12, dataLen)
    requires At(file, t + 16, index) && At(file, t + 16 + |index|, data)
    requires At(file, t + 16 + |index| + |data|, XPAKSTOP)
    requires |indexLen| == 4 && U32Is(indexLen, 0, |index|) && |dataLen| == 4 && U32Is(dataLen, 0, |data|)
    requires |index| == IndexLen(es, |es|) && Index(index, 0, es, |es|)
    requires |data| == DataLen(es, |es|) && Data(data, 0, es, |es|)
    ensures Section(file, t, es)
  {
    LengthsInFile(file, t, indexLen, dataLen, |index|, |data|);
    EntriesInFile(file, t, index, data, es);
  }

  lemma {:induction false} LengthsInFile(file: Bytes, t: nat, indexLen: Bytes, dataLen: Bytes, n: nat, m: nat)
    requires At(file, t + 8, indexLen) && At(file, t + 12, dataLen)
    requires |indexLen| == 4 && U32Is(indexLen, 0, n) && |dataLen| == 4 && U32Is(dataLen, 0, m)
    ensures U32Is(file, t + 8, n) && U32Is(file, t + 12, m)
  {
    U32InPart(file, t + 8, indexLen, 0, n);
    U32InPart(file, t + 12, dataLen, 0, m);
  }

  lemma {:induction false} EntriesInFile(file: Bytes, t: nat, index: Bytes, data: Bytes, es: seq<Entry>)
    requires At(file, t + 16, index) && At(file, t + 16 + |index|, data)
    requires Index(index, 0, es, |es|) && Data(data, 0, es, |es|)
    ensures Index(file, t + 16, es, |es|) && Data(file, t + 16 + |index|, es, |es|)
  {
    IndexInPart(file, t + 16, index, es, |es|);
    DataInPart(file, t + 16 + |index|, data, es, |es|);
  }

  // ---- The reader --------------------------------------------------------------

  function ReadU32(file: Bytes, at: nat): Option<nat> {
    if at + 4 <= |file| then Some(Number(file, at, at + 4)) else None
  }

  /** Reading `n` bytes at `at`; nothing is needed of the file to read no bytes. */
  function ReadBytes(file: Bytes, at: nat, n: nat): Option<Bytes> {
    if n == 0 then Some([])
    else if at + n <= |file| then Some(file[at..at + n])
    else None
  }

  datatype Contents = Contents(order: seq<Bytes>, xpak: map<Bytes, Bytes>) {
    function Add(e: Entry): Contents {
      Contents(order + [e.name], xpak[e.name := e.value])
    }
  }

  /** What the first `i` entries read as: their names in order and their values. */
  function ContentsOf(es: seq<Entry>, i: nat): Contents
    requires i <= |es|
  {
    if i == 0 then Contents([], map[]) else ContentsOf(es, i - 1).Add(es[i - 1])
  }

  /** With one entry for each name, the contents are exactly the entries. */
  lemma {:induction false} ContentsAreTheEntries(es: seq<Entry>, n: nat)
    requires n <= |es| && forall i, j :: 0 <= i < j < |es| ==> es[i].name != es[j].name
    ensures var c := ContentsOf(es, n);
            && |c.order| == n && (forall i :: 0 <= i < n ==> c.order[i] == es[i].name)
            && (forall i :: 0 <= i < n ==> es[i].name in c.xpak && c.xpak[es[i].name] == es[i].value)
            && (forall name :: name in c.xpak ==> exists i :: 0 <= i < n && es[i].name == name)
    decreases n
  {
    if n > 0 {
      ContentsAreTheEntries(es, n - 1);
      var before, c, last := ContentsOf(es, n - 1), ContentsOf(es, n), es[n - 1];
      forall name | name in c.xpak ensures exists i :: 0 <= i < n && es[i].name == name {
        if name == last.name {
          assert es[n - 1].name == name;
        } else {
          assert name in before.xpak;
        }
      }
    }
  }

  /** A number in the file, or 0 behind its end. */
  function U32(file: Bytes, at: nat): nat {
    if at + 4 <= |file| then Number(file, at, at + 4) else 0
  }

  /** The numbers of an index record and where the record ends. */
  datatype Header = Header(nameLen: nat, offset: nat, valueLen: nat, next: nat)

  function HeaderAt(file: Bytes, at: nat): Header {
    var nameLen := U32(file, at);
    Header(nameLen, U32(file, at + 4 + nameLen), U32(file, at + 8 + nameLen), at + 12 + nameLen)
  }

  /** The record and the value that it selects lie in the file. */
  predicate Readable(file: Bytes, h: Header, dataStart: nat) {
    h.next <= |file| && (h.valueLen == 0 || dataStart + h.offset + h.valueLen <= |file|)
  }

  function EntryAt(file: Bytes, at: nat, dataStart: nat): Entry
    requires Readable(file, HeaderAt(file, at), dataStart)
  {
    var h := HeaderAt(file, at);
    Entry(file[at + 4..at + 4 + h.nameLen],
          if h.valueLen == 0 then [] else file[dataStart + h.offset..dataStart + h.offset + h.valueLen])
  }

  /** What is read from the records between `at` and `dataStart`. */
  function ParseIndex(file: Bytes, at: nat, dataStart: nat, read: Contents): Option<Contents>
    decreases dataStart - at, 1
  {
    if at < dataStart then ParseNext(file, at, dataStart, read) else Some(read)
  }

  function ParseNext(file: Bytes, at: nat, dataStart: nat, read: Contents): Option<Contents>
    requires at < dataStart
    decreases dataStart - at, 0
  {
    if Readable(file, HeaderAt(file, at), dataStart) then
      ParseIndex(file, HeaderAt(file, at).next, dataStart, read.Add(EntryAt(file, at, dataStart)))
    else None
  }

  /** The record at `at` reads as `e`, and the one behind it is at `next`. */
  ghost predicate Reads(file: Bytes, at: nat, dataStart: nat, e: Entry, next: nat) {
    && Readable(file, HeaderAt(file, at), dataStart)
    && EntryAt(file, at, dataStart) == e && HeaderAt(file, at).next == next
  }

  lemma {:induction false} ReadRecord(file: Bytes, at: nat, dataStart: nat, e: Entry, offset: nat)
    requires Record(file, at, e, offset) && At(file, dataStart + offset, e.value)
    ensures Reads(file, at, dataStart, e, at + 12 + |e.name|)
  {
    assert file[at + 4..at + 4 + |e.name|] == e.name;
    assert file[dataStart + offset..dataStart + offset + |e.value|] == e.value;
  }

  lemma {:induction false} NthStands(file: Bytes, start: nat, dataStart: nat, es: seq<Entry>, n: nat, i: nat)
    requires i < n <= |es| && Index(file, start, es, n) && Data(file, dataStart, es, n)
    ensures RecordAt(file, start, es, i) && ValueAt(file, dataStart, es, i)
    decreases n
  {
    if i < n - 1 {
      NthStands(file, start, dataStart, es, n - 1, i);
    }
  }

  lemma {:induction false} ReadNth(file: Bytes, start: nat, dataStart: nat, es: seq<Entry>, i: nat)
    requires i < |es| && Index(file, start, es, |es|) && Data(file, dataStart, es, |es|)
    ensures Reads(file, start + IndexLen(es, i), dataStart, es[i], start + IndexLen(es, i + 1))
  {
    NthStands(file, start, dataStart, es, |es|, i);
    ReadRecord(file, start + IndexLen(es, i), dataStart, es[i], DataLen(es, i));
  }

  lemma {:induction false} HeaderOfRecord(file: Bytes, at: nat, e: Entry, offset: nat)
    requires Record(file, at, e, offset)
    ensures HeaderAt(file, at) == Header(|e.name|, offset, |e.value|, at + 12 + |e.name|)
  {
  }

  lemma {:induction false} SliceAt(file: Bytes, at: nat, b: Bytes)
    requires At(file, at, b)
    ensures at + |b| <= |file| && file[at..at + |b|] == b
  {
  }

  /** The offset and the length in each index record select the value of the entry, and
      the values lie one behind the other, from the start of the data. */
  lemma {:induction false} ValuesTileTheData(file: Bytes, start: nat, dataStart: nat, es: seq<Entry>, i: nat)
    requires i < |es| && Index(file, start, es, |es|) && Data(file, dataStart, es, |es|)
    ensures var h := HeaderAt(file, start + IndexLen(es, i));
            var from := dataStart + DataLen(es, i);
            && h.nameLen == |es[i].name| && h.offset == DataLen(es, i) && h.valueLen == |es[i].value|
            && h.next == start + IndexLen(es, i + 1)
            && from + |es[i].value| <= |file| && file[from..from + |es[i].value|] == es[i].value
    ensures DataLen(es, 0) == 0 && DataLen(es, i + 1) == DataLen(es, i) + |es[i].value|
  {
    NthStands(file, start, dataStart, es, |es|, i);
    HeaderOfRecord(file, start + IndexLen(es, i), es[i], DataLen(es, i));
    SliceAt(file, dataStart + DataLen(es, i), es[i].value);
  }

  lemma {:induction false} WhereItStands(file: Bytes, tarball: Bytes, es: seq<Entry>)
    requires Package(file, tarball, es)
    ensures var start, dataStart := |tarball| + 16, |tarball| + 16 + IndexLen(es, |es|);
            && Index(file, start, es, |es|) && Data(file, dataStart, es, |es|)
            && dataStart + DataLen(es, |es|) == |file| - 16
  {
  }

  ghost predicate ReadsNth(file: Bytes, start: nat, dataStart: nat, es: seq<Entry>, i: nat)
    requires i < |es|
  {
    && start + IndexLen(es, i) < dataStart
    && Reads(file, start + IndexLen(es, i), dataStart, es[i], start + IndexLen(es, i + 1))
  }

  lemma {:induction false} ParseRest(file: Bytes, start: nat, dataStart: nat, es: seq<Entry>, i: nat)
    requires i <= |es| && dataStart == start + IndexLen(es, |es|)
    requires forall j :: 0 <= j < |es| ==> ReadsNth(file, start, dataStart, es, j)
    ensures ParseIndex(file, start + IndexLen(es, i), dataStart, ContentsOf(es, i)) == Some(ContentsOf(es, |es|))
    decreases |es| - i
  {
    if i < |es| {
      assert ReadsNth(file, start, dataStart, es, i);
      ParseRest(file, start, dataStart, es, i + 1);
      assert ContentsOf(es, i + 1) == ContentsOf(es, i).Add(es[i]);
    }
  }

  lemma {:induction false} ParseAll(file: Bytes, start: nat, dataStart: nat, es: seq<Entry>)
    requires dataStart == start + IndexLen(es, |es|)
    requires Index(file, start, es, |es|) && Data(file, dataStart, es, |es|)
    ensures ParseIndex(file, start, dataStart, Contents([], map[])) == Some(ContentsOf(es, |es|))
  {
    forall i | 0 <= i < |es| ensures ReadsNth(file, start, dataStart, es, i) {
      LengthsGrow(es, i, |es|);
      ReadNth(file, start, dataStart, es, i);
    }
    ParseRest(file, start, dataStart, es, 0);
  }

  function ParseXpak(file: Bytes, start: nat): Option<Contents> {
    var indexLen := ReadU32(file, start + 8);
    var dataLen := ReadU32(file, start + 12);
    if indexLen.None? || dataLen.None? then None else
    var dataStart := start + 16 + indexLen.value;
    if dataStart + dataLen.value != |file| - 16 then None
    else ParseIndex(file, start + 16, dataStart, Contents([], map[]))
  }

  /** Where the section of a package begins. */
  function XpakStart(file: Bytes): Option<nat> {
    if |file| < 24 || !At(file, |file| - 4, STOP) || !At(file, |file| - 16, XPAKSTOP) then None
    else
      var length := U32(file, |file| - 8);
      if |file| - 8 < length || !At(file, |file| - 8 - length, XPAKPACK) then None
      else Some(|file| - 8 - length)
  }

  /** ASCII text as bytes. */
  function Ascii(s: string): Bytes {
    seq(|s|, i requires 0 <= i < |s| => (s[i] as int % 128) as Byte)
  }

  lemma MagicWords()
    ensures XPAKPACK == Ascii("XPAKPACK") && XPAKSTOP == Ascii("XPAKSTOP") && STOP == Ascii("STOP")
    ensures CATEGORY == Ascii("CATEGORY") && PF == Ascii("PF") && SLOT == Ascii("SLOT")
  {
  }

  /** A section is taken to begin at `t` exactly if the file has the three magic words and
      a length in their places. */
  lemma StartsExactly(file: Bytes, t: nat)
    ensures XpakStart(file) == Some(t) <==>
            && |file| >= 24
            && At(file, t, Ascii("XPAKPACK"))
            && At(file, |file| - 16, Ascii("XPAKSTOP"))
            && U32Is(file, |file| - 8, |file| - 8 - t)
            && At(file, |file| - 4, Ascii("STOP"))
  {
    MagicWords();
  }

  /** Whatever the tarball holds, the section behind it is found. */
  lemma {:induction false} FindPackage(file: Bytes, tarball: Bytes, es: seq<Entry>)
    requires Package(file, tarball, es)
    ensures XpakStart(file) == Some(|tarball|)
  {
  }

  lemma {:induction false} ParseSection(file: Bytes, t: nat, indexLen: nat, dataLen: nat, c: Contents)
    requires U32Is(file, t + 8, indexLen) && U32Is(file, t + 12, dataLen) && |file| == t + indexLen + dataLen + 32
    requires ParseIndex(file, t + 16, t + 16 + indexLen, Contents([], map[])) == Some(c)
    ensures ParseXpak(file, t) == Some(c)
  {
  }

  /** The names are read back in order and so are all values. */
  lemma {:induction false} ParsePackage(file: Bytes, t: nat, es: seq<Entry>, indexLen: nat, dataLen: nat)
    requires indexLen == IndexLen(es, |es|) && dataLen == DataLen(es, |es|) && |file| == t + indexLen + dataLen + 32
    requires U32Is(file, t + 8, indexLen) && U32Is(file, t + 12, dataLen)
    requires Index(file, t + 16, es, |es|) && Data(file, t + 16 + indexLen, es, |es|)
    ensures ParseXpak(file, t) == Some(ContentsOf(es, |es|))
  {
    ParseAll(file, t + 16, t + 16 + indexLen, es);
    ParseSection(file, t, indexLen, dataLen, ContentsOf(es, |es|));
  }

  function Read(file: Bytes): Option<Contents> {
    var start := XpakStart(file);
    if start.None? then None else ParseXpak(file, start.value)
  }

  /** A package reads as the entries it was written with. */
  lemma {:induction false} ReadPackage(file: Bytes, tarball: Bytes, es: seq<Entry>)
    requires Package(file, tarball, es)
    ensures Read(file) == Some(ContentsOf(es, |es|))
  {
    FindPackage(file, tarball, es);
    ParsePackage(file, |tarball|, es, IndexLen(es, |es|), DataLen(es, |es|));
  }

  /** One round of the reader's loop: a record and the value it selects. */
  method ReadRecordAt(file: Bytes, at: nat, dataStart: nat) returns (r: Option<Entry>, next: nat)
    ensures r.Some? <==> Readable(file, HeaderAt(file, at), dataStart)
    ensures r.Some? ==> Reads(file, at, dataStart, r.value, next) && next >= at + 12
  {
    next := at;
    var nameLen := ReadU32(file, at);
    if nameLen.None? {
      return None, next;
    }
    var name := ReadBytes(file, at + 4, nameLen.value);
    if name.None? {
      return None, next;
    }
    var rest := at + 4 + nameLen.value;
    var offset := ReadU32(file, rest);
    if offset.None? {
      return None, next;
    }
    var valueLen := ReadU32(file, rest + 4);
    if valueLen.None? {
      return None, next;
    }
    var value := ReadBytes(file, dataStart + offset.value, valueLen.value);
    if value.None? {
      return None, next;
    }
    return Some(Entry(name.value, value.value)), rest + 8;
  }

  method ParseXpakLoop(file: Bytes, start: nat) returns (r: Option<Contents>)
    ensures r == ParseXpak(file, start)
  {
    var indexLen := ReadU32(file, start + 8);
    if indexLen.None? {
      return None;
    }
    var dataLen := ReadU32(file, start + 12);
    if dataLen.None? {
      return None;
    }
    var indexPos := start + 16;
    var dataStart := indexPos + indexLen.value;
    if dataStart + dataLen.value != |file| - 16 {
      return None;
    }
    var contents := Contents([], map[]);
    while indexPos < dataStart
      invariant ParseIndex(file, indexPos, dataStart, contents) == ParseXpak(file, start)
      decreases dataStart - indexPos
    {
      var entry, next := ReadRecordAt(file, indexPos, dataStart);
      if entry.None? {
        return None;
      }
      indexPos := next;
      contents := contents.Add(entry.value);
    }
    return Some(contents);
  }

  const CATEGORY: Bytes := [0x43, 0x41, 0x54, 0x45, 0x47, 0x4F, 0x52, 0x59]
  const PF: Bytes := [0x50, 0x46]
  const SLOT: Bytes := [0x53, 0x4C, 0x4F, 0x54]

  /** The values that name the package are there and are text. */
  predicate Identified(c: Contents, isText: Bytes -> bool) {
    forall name :: name in {CATEGORY, PF, SLOT} ==> name in c.xpak && isText(c.xpak[name])
  }

  /** Opens a file: where the tarball in it ends, and what its section holds. `isText`
      says which values are valid UTF-8. */
  method Open(file: Bytes, isText: Bytes -> bool) returns (r: Option<Contents>, xpakStart: nat)
    ensures r.Some? <==> Read(file).Some? && Identified(Read(file).value, isText)
    ensures r.Some? ==> forall name :: name in {"CATEGORY", "PF", "SLOT"} ==>
                          Ascii(name) in r.value.xpak && isText(r.value.xpak[Ascii(name)])
    ensures r.Some? ==> r == Read(file) && XpakStart(file) == Some(xpakStart)
  {
    xpakStart := 0;
    var start := XpakStart(file);
    if start.None? {
      return None, 0;
    }
    r := ParseXpakLoop(file, start.value);
    if r.Some? && !Identified(r.value, isText) {
      return None, 0;
    }
    MagicWords();
    xpakStart := start.value;
  }
}
