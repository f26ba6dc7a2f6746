/**
 android/package.py, unstripped_sections: the section names of an ELF64 little-endian file, against the layout of
 chapter 4 of the System V gABI (ELF Header, Sections, String Table).
 */
module Elf {

  type Byte = b: int | 0 <= b < 256

  datatype Error =
    | NotElf64       // sys.exit, on the identification bytes
    | OutOfRange     // IndexError
    | NoTerminator   // ValueError

  datatype Result<T> = Ok(value: T) | Err(error: Error)

  // ----- Python's view of bytes -----

  /** How many of the positions lo, .., hi - 1 lie inside n bytes. */
  function Inside(n: nat, lo: nat, hi: nat): nat {
    if hi <= lo || n <= lo then 0 else if hi <= n then hi - lo else n - lo
  }

  /** data[lo:hi]: the bytes at those positions, as far as there are any. */
  function Slice(data: seq<Byte>, lo: nat, hi: nat): (s: seq<Byte>)
    ensures |s| == Inside(|data|, lo, hi)
    ensures forall k :: 0 <= k < |s| ==> s[k] == data[lo + k]
    ensures lo <= hi <= |data| ==> s == data[lo..hi]
  {
    if lo <= hi <= |data| then data[lo..hi]
    else if lo <= |data| < hi then data[lo..]
    else []
  }

  /** int.from_bytes(s, 'little') */
  function FromLittleEndian(s: seq<Byte>): nat {
    if s == [] then 0 else s[0] + 256 * FromLittleEndian(s[1..])
  }

  datatype Option<T> = None | Some(value: T)

  /** data.index(0, start): the first NUL at or after start. */
  function FindNul(data: seq<Byte>, start: nat): (r: Option<nat>)
    ensures r.Some? ==> start <= r.value < |data| && data[r.value] == 0 && 0 !in data[start..r.value]
    ensures r.None? ==> start >= |data| || 0 !in data[start..]
    decreases if start < |data| then |data| - start else 0
  {
    if start >= |data| then None
    else if data[start] == 0 then Some(start)
    else FindNul(data, start + 1)
  }

  /** decode('ascii', 'replace') */
  function Decode(s: seq<Byte>): (t: string)
    ensures |t| == |s|
    ensures forall i :: 0 <= i < |s| ==> t[i] == if s[i] < 128 then s[i] as char else 0xFFFD as char
  {
    seq(|s|, i requires 0 <= i < |s| => if s[i] < 128 then s[i] as char else 0xFFFD as char)
  }

  // ----- The reader -----

  const MAGIC: seq<Byte> := [0x7F, 0x45, 0x4C, 0x46]

  predicate IsLeftover(name: string) {
    name == ".symtab" || ".debug" <= name
  }

  function Leftovers(names: seq<string>): seq<string> {
    if names == [] then []
    else Leftovers(names[..|names| - 1]) + if IsLeftover(names[|names| - 1]) then [names[|names| - 1]] else []
  }

  /** Why the identification bytes are refused, if they are; an index past the end raises before the next test. */
  function HeaderError(data: seq<Byte>): Option<Error> {
    if Slice(data, 0, 4) != MAGIC then Some(NotElf64)
    else if |data| <= 4 then Some(OutOfRange)
    else if data[4] != 2 then Some(NotElf64)
    else if |data| <= 5 then Some(OutOfRange)
    else if data[5] != 1 then Some(NotElf64)
    else None
  }

  function Field(data: seq<Byte>, lo: nat, hi: nat): nat {
    FromLittleEndian(Slice(data, lo, hi))
  }

  function Entry(data: seq<Byte>, shoff: nat, entsize: nat, i: nat): (s: seq<Byte>)
    ensures |s| == Inside(|data|, shoff + i * entsize, shoff + (i + 1) * entsize)
    ensures forall k :: 0 <= k < |s| ==> s[k] == data[shoff + i * entsize + k]
  {
    Slice(data, shoff + i * entsize, shoff + (i + 1) * entsize)
  }

  /** The name that starts at an offset, if a NUL ends it. */
  function NameAt(data: seq<Byte>, off: nat): Result<string> {
    match FindNul(data, off)
    case None => Err(NoTerminator)
    case Some(end) => Ok(Decode(data[off..end]))
  }

  /** The names of these sections, in order, or the error of the first that has none. */
  function NamesOf(data: seq<Byte>, sections: seq<seq<Byte>>, strOff: nat): (r: Result<seq<string>>)
    ensures r.Ok? ==> |r.value| == |sections|
    decreases |sections|
  {
    if sections == [] then Ok([])
    else
      match NamesOf(data, sections[..|sections| - 1], strOff)
      case Err(e) => Err(e)
      case Ok(names) =>
        match NameAt(data, strOff + Field(sections[|sections| - 1], 0, 4))
        case Err(e) => Err(e)
        case Ok(name) => Ok(names + [name])
  }

  function SectionsOf(data: seq<Byte>): (s: seq<seq<Byte>>)
    ensures |s| == Field(data, 0x3C, 0x3E)
    ensures forall i :: 0 <= i < |s| ==> s[i] == Entry(data, Field(data, 0x28, 0x30), Field(data, 0x3A, 0x3C), i)
  {
    seq(Field(data, 0x3C, 0x3E), i requires 0 <= i => Entry(data, Field(data, 0x28, 0x30), Field(data, 0x3A, 0x3C), i))
  }

  function Read(data: seq<Byte>): Result<seq<string>> {
    match HeaderError(data)
    case Some(e) => Err(e)
    case None =>
      var sections, strndx := SectionsOf(data), Field(data, 0x3E, 0x40);
      if strndx >= |sections| then Err(OutOfRange)
      else
        match NamesOf(data, sections, Field(sections[strndx], 0x18, 0x20))
        case Err(e) => Err(e)
        case Ok(names) => Ok(Leftovers(names))
  }

  method UnstrippedSections(data: seq<Byte>) returns (r: Result<seq<string>>)
    ensures r == Read(data)
  {
    hide Field, FindNul, Decode, Leftovers, NamesOf, Entry, Slice, NameAt;
    if Slice(data, 0, 4) != MAGIC {
      return Err(NotElf64);
    }
    if |data| <= 4 {
      return Err(OutOfRange);
    }
    if data[4] != 2 {
      return Err(NotElf64);
    }
    if |data| <= 5 {
      return Err(OutOfRange);
    }
    if data[5] != 1 {
      return Err(NotElf64);
    }
    var shoff := Field(data, 0x28, 0x30);
    var shentsize := Field(data, 0x3A, 0x3C);
    var shnum := Field(data, 0x3C, 0x3E);
    var shstrndx := Field(data, 0x3E, 0x40);
    var sections := seq(shnum, i requires 0 <= i => Entry(data, shoff, shentsize, i));
    assert sections == SectionsOf(data);
    if shstrndx >= |sections| {
      return Err(OutOfRange);
    }
    var strOff := Field(sections[shstrndx], 0x18, 0x20);
    var names: seq<string> := [];
    NoNames(data, strOff);
    for k := 0 to |sections|
      invariant NamesOf(data, sections[..k], strOff) == Ok(names)
    {
      var nameOff := strOff + Field(sections[k], 0, 4);
      OneMoreName(data, sections, strOff, k);
      match FindNul(data, nameOff) {
        case None =>
          ErrorStays(data, sections, strOff, k + 1);
          return Err(NoTerminator);
        case Some(end) =>
          names := names + [Decode(data[nameOff..end])];
      }
    }
    assert sections[..|sections|] == sections;
    r := Ok(Leftovers(names));
  }

  lemma NoNames(data: seq<Byte>, strOff: nat)
    ensures NamesOf(data, [], strOff) == Ok([])
  {
  }

  lemma OneMoreName(data: seq<Byte>, sections: seq<seq<Byte>>, strOff: nat, k: nat)
    requires k < |sections| && NamesOf(data, sections[..k], strOff).Ok?
    ensures var off := strOff + Field(sections[k], 0, 4);
            NamesOf(data, sections[..k + 1], strOff) ==
            match FindNul(data, off)
            case None => Err(NoTerminator)
            case Some(end) => Ok(NamesOf(data, sections[..k], strOff).value + [Decode(data[off..end])])
  {
    hide Field, FindNul, Decode;
    assert sections[..k + 1][..k] == sections[..k];
  }

  lemma {:induction false} ErrorStays(data: seq<Byte>, sections: seq<seq<Byte>>, strOff: nat, k: nat)
    requires k <= |sections| && NamesOf(data, sections[..k], strOff).Err?
    ensures NamesOf(data, sections, strOff) == NamesOf(data, sections[..k], strOff)
    decreases |sections|
  {
    if k < |sections| {
      assert sections[..|sections| - 1][..k] == sections[..k];
      ErrorStays(data, sections[..|sections| - 1], strOff, k);
    } else {
      assert sections[..k] == sections;
    }
  }

  /** Where the reader looks for the name of a section. */
  function NameOffset(section: seq<Byte>, strOff: nat): nat {
    strOff + Field(section, 0, 4)
  }

  lemma {:induction false} NamesOutcome(data: seq<Byte>, sections: seq<seq<Byte>>, strOff: nat)
    ensures NamesOf(data, sections, strOff).Ok? <==>
            forall i :: 0 <= i < |sections| ==> FindNul(data, NameOffset(sections[i], strOff)).Some?
    ensures NamesOf(data, sections, strOff).Err? ==> NamesOf(data, sections, strOff) == Err(NoTerminator)
    decreases |sections|
  {
    hide Field, FindNul, Decode;
    if sections != [] {
      var front := sections[..|sections| - 1];
      NamesOutcome(data, front, strOff);
      assert forall i :: 0 <= i < |front| ==> front[i] == sections[i];
    }
  }

  /** The identification bytes are those of an ELF64 little-endian file. */
  predicate Identified(data: seq<Byte>) {
    |data| >= 6 && data[..4] == [0x7F, 0x45, 0x4C, 0x46] && data[4] == 2 && data[5] == 1
  }

  /** Which bytes the identification test accepts, refuses, and fails to reach, in terms of the bytes alone. */
  lemma HeaderErrorIs(data: seq<Byte>)
    ensures HeaderError(data) == None <==> Identified(data)
    ensures HeaderError(data) == Some(OutOfRange) <==>
            data == [0x7F, 0x45, 0x4C, 0x46] || data == [0x7F, 0x45, 0x4C, 0x46, 2]
    ensures HeaderError(data) == Some(NotElf64) <==>
            || |data| < 4 || data[..4] != [0x7F, 0x45, 0x4C, 0x46]
            || (|data| >= 5 && data[4] != 2) || (|data| >= 6 && data[5] != 1)
  {
    if |data| == 4 || |data| == 5 {
      assert data == data[..4] + data[4..];
    }
  }

  /** A NUL follows at or after this offset. */
  predicate Terminated(data: seq<Byte>, off: nat) {
    exists j :: off <= j < |data| && data[j] == 0
  }

  lemma TerminatedIff(data: seq<Byte>, off: nat)
    ensures FindNul(data, off).Some? <==> Terminated(data, off)
  {
    hide FindNul;
    if FindNul(data, off).None? && off < |data| {
      forall j | off <= j < |data|
        ensures data[j] != 0
      {
        assert data[j] == data[off..][j - off];
      }
    }
  }

  /** Where the reader looks for the name of section i: the string table's offset plus the section's name offset. */
  function NameStart(data: seq<Byte>, i: nat): nat
    requires i < Field(data, 0x3C, 0x3E) && Field(data, 0x3E, 0x40) < Field(data, 0x3C, 0x3E)
  {
    Field(SectionsOf(data)[Field(data, 0x3E, 0x40)], 0x18, 0x20) + Field(SectionsOf(data)[i], 0, 4)
  }

  /**
   On any bytes at all, which of the four outcomes the reader has: it succeeds exactly if the identification is right,
   the string table index names a section, and every section's name is terminated. In particular it refuses files
   that use extended section numbering, whose count field is zero.
   */
  lemma ReadOutcome(data: seq<Byte>)
    ensures var count, strndx := Field(data, 0x3C, 0x3E), Field(data, 0x3E, 0x40);
            && (Read(data) == Err(NotElf64) <==>
                || |data| < 4 || data[..4] != [0x7F, 0x45, 0x4C, 0x46]
                || (|data| >= 5 && data[4] != 2) || (|data| >= 6 && data[5] != 1))
            && (Read(data) == Err(OutOfRange) <==>
                || data == [0x7F, 0x45, 0x4C, 0x46] || data == [0x7F, 0x45, 0x4C, 0x46, 2]
                || (Identified(data) && strndx >= count))
            && (Read(data) == Err(NoTerminator) <==>
                && Identified(data) && strndx < count
                && exists i: nat :: i < count && !Terminated(data, NameStart(data, i)))
            && (Read(data).Ok? <==>
                && Identified(data) && strndx < count
                && forall i: nat :: i < count ==> Terminated(data, NameStart(data, i)))
  {
    hide Field, FindNul, Decode, NamesOf, Leftovers, Entry, HeaderError, Terminated;
    var sections, strndx := SectionsOf(data), Field(data, 0x3E, 0x40);
    HeaderErrorIs(data);
    if strndx < |sections| {
      NamesOutcome(data, sections, Field(sections[strndx], 0x18, 0x20));
      forall i: nat | i < |sections|
        ensures Terminated(data, NameStart(data, i)) <==>
                FindNul(data, NameOffset(sections[i], Field(sections[strndx], 0x18, 0x20))).Some?
      {
        TerminatedIff(data, NameStart(data, i));
      }
    }
  }

  // ----- What a well-formed image is -----

  function ToLittleEndian(v: nat, size: nat): (s: seq<Byte>)
    ensures |s| == size
  {
    if size == 0 then [] else [v % 256] + ToLittleEndian(v / 256, size - 1)
  }

  function Capacity(size: nat): (c: nat)
    ensures c >= 1
  {
    if size == 0 then 1 else 256 * Capacity(size - 1)
  }

  lemma {:induction false} LittleEndianRoundTrip(v: nat, size: nat)
    requires v < Capacity(size)
    ensures FromLittleEndian(ToLittleEndian(v, size)) == v
    decreases size
  {
    if size > 0 {
      LittleEndianRoundTrip(v / 256, size - 1);
      assert ToLittleEndian(v, size)[1..] == ToLittleEndian(v / 256, size - 1);
    }
  }

  /** Little-endian, by place value: byte k is digit k of the number in base 256. */
  lemma {:induction false} LittleEndianDigits(s: seq<Byte>, k: nat)
    requires k < |s|
    ensures FromLittleEndian(s) / Capacity(k) % 256 == s[k]
    decreases |s|
  {
    if k > 0 {
      LittleEndianDigits(s[1..], k - 1);
      DropDigit(s[0], FromLittleEndian(s[1..]), Capacity(k - 1));
    }
  }

  lemma {:induction false} FitsCapacity(s: seq<Byte>)
    ensures FromLittleEndian(s) < Capacity(|s|)
    decreases |s|
  {
    if s != [] {
      FitsCapacity(s[1..]);
    }
  }

  lemma DropDigit(a: nat, x: nat, c: nat)
    requires a < 256 && c > 0
    ensures (a + 256 * x) / (256 * c) == x / c
  {
    var q, r := x / c, x % c;
    assert x == c * q + r;
    assert a + 256 * x == (256 * c) * q + (256 * r + a);
    QuotientIs(a + 256 * x, 256 * c, q, 256 * r + a);
  }

  lemma QuotientIs(n: nat, d: nat, q: nat, r: nat)
    requires d > 0 && n == d * q + r && r < d
    ensures n / d == q
  {
    var q', r' := n / d, n % d;
    assert n == d * q' + r';
    if q' > q {
      MoreMultiples(d, q, q');
    } else if q > q' {
      MoreMultiples(d, q', q);
    }
  }

  lemma {:induction false} MoreMultiples(d: nat, q: nat, q': nat)
    requires q < q'
    ensures d * q' >= d * q + d
    decreases q'
  {
    assert d * q' == d * (q' - 1) + d;
    if q < q' - 1 {
      MoreMultiples(d, q, q' - 1);
    }
  }

  /** A header field of any bytes: the number whose base-256 digits are the bytes at those positions. */
  lemma FieldDigits(data: seq<Byte>, lo: nat, hi: nat)
    ensures Field(data, lo, hi) < Capacity(Inside(|data|, lo, hi))
    ensures forall k: nat :: k < Inside(|data|, lo, hi) ==> Field(data, lo, hi) / Capacity(k) % 256 == data[lo + k]
  {
    hide FromLittleEndian, Capacity;
    var s := Slice(data, lo, hi);
    FitsCapacity(s);
    forall k: nat | k < |s|
      ensures Field(data, lo, hi) / Capacity(k) % 256 == data[lo + k]
    {
      LittleEndianDigits(s, k);
    }
  }

  /** The parts of an ELF64 file that say which sections it has: names are raw bytes, in table order. */
  datatype Image = Image(
    shoff: nat, entsize: nat, strndx: nat, strOff: nat, names: seq<seq<Byte>>, nameOffs: seq<nat>)

  /** data holds v, little-endian, at off. */
  predicate Holds(data: seq<Byte>, off: nat, size: nat, v: nat) {
    off + size <= |data| && v < Capacity(size) && data[off..off + size] == ToLittleEndian(v, size)
  }

  predicate HoldsName(data: seq<Byte>, off: nat, name: seq<Byte>) {
    off + |name| < |data| && data[off..off + |name|] == name && data[off + |name|] == 0 && 0 !in name
  }

  /** Where the header of section i is. */
  function EntryStart(img: Image, i: nat): nat {
    img.shoff + i * img.entsize
  }

  predicate DescribesHeader(img: Image, data: seq<Byte>) {
    && |data| >= 0x40 && data[..4] == MAGIC && data[4] == 2 && data[5] == 1
    && Holds(data, 0x28, 8, img.shoff) && Holds(data, 0x3A, 2, img.entsize)
    && Holds(data, 0x3C, 2, |img.names|) && Holds(data, 0x3E, 2, img.strndx)
    && img.entsize >= 0x20 && img.strndx < |img.names|
    && EntryStart(img, |img.names|) <= |data|
  }

  /** The file layout: identification, header fields, section header table, section name string table. */
  predicate Describes(img: Image, data: seq<Byte>) {
    && DescribesHeader(img, data)
    && |img.names| == |img.nameOffs|
    && Holds(data, EntryStart(img, img.strndx) + 0x18, 8, img.strOff)
    && forall i: nat :: i < |img.names| ==>
         && Holds(data, EntryStart(img, i), 4, img.nameOffs[i])
         && HoldsName(data, img.strOff + img.nameOffs[i], img.names[i])
  }

  lemma HeldField(data: seq<Byte>, off: nat, size: nat, v: nat)
    requires Holds(data, off, size, v)
    ensures Field(data, off, off + size) == v
  {
    LittleEndianRoundTrip(v, size);
  }

  lemma HeldInEntry(data: seq<Byte>, shoff: nat, entsize: nat, count: nat, i: nat, off: nat, size: nat, v: nat)
    requires i < count && shoff + count * entsize <= |data| && off + size <= entsize
    requires Holds(data, shoff + i * entsize + off, size, v)
    ensures Field(Entry(data, shoff, entsize, i), off, off + size) == v
  {
    hide FromLittleEndian, ToLittleEndian, Capacity;
    var start := shoff + i * entsize;
    EntryFits(i, count, entsize);
    assert Entry(data, shoff, entsize, i) == data[start..start + entsize];
    SliceOfSlice(data, start, entsize, off, off + size);
    LittleEndianRoundTrip(v, size);
  }

  lemma EntryFits(i: nat, count: nat, entsize: nat)
    requires i < count
    ensures i * entsize + entsize == (i + 1) * entsize <= count * entsize
  {
  }

  lemma {:induction false} FindNulIs(data: seq<Byte>, start: nat, end: nat)
    requires start <= end < |data| && data[end] == 0 && forall j :: start <= j < end ==> data[j] != 0
    ensures FindNul(data, start) == Some(end)
    decreases end - start
  {
    if start < end {
      FindNulIs(data, start + 1, end);
    }
  }

  lemma HeldName(data: seq<Byte>, off: nat, name: seq<Byte>)
    requires HoldsName(data, off, name)
    ensures NameAt(data, off) == Ok(Decode(name))
  {
    hide FindNul, Decode;
    forall j | off <= j < off + |name|
      ensures data[j] != 0
    {
      assert data[j] == data[off..off + |name|][j - off];
    }
    FindNulIs(data, off, off + |name|);
  }

  function DecodeAll(names: seq<seq<Byte>>): (t: seq<string>)
    ensures |t| == |names|
    ensures forall i :: 0 <= i < |names| ==> t[i] == Decode(names[i])
  {
    seq(|names|, i requires 0 <= i < |names| => Decode(names[i]))
  }

  lemma {:induction false} NamesRead(data: seq<Byte>, sections: seq<seq<Byte>>, strOff: nat, names: seq<seq<Byte>>)
    requires |sections| == |names|
    requires forall i :: 0 <= i < |names| ==> HoldsName(data, strOff + Field(sections[i], 0, 4), names[i])
    ensures NamesOf(data, sections, strOff) == Ok(DecodeAll(names))
    decreases |names|
  {
    hide Field, Decode, HoldsName, NameAt;
    if names != [] {
      var k := |names| - 1;
      NamesRead(data, sections[..k], strOff, names[..k]);
      HeldName(data, strOff + Field(sections[k], 0, 4), names[k]);
      assert DecodeAll(names[..k]) + [Decode(names[k])] == DecodeAll(names);
    }
  }

  lemma HeaderRead(img: Image, data: seq<Byte>)
    requires DescribesHeader(img, data)
    ensures HeaderError(data) == None && img.strndx < |img.names|
    ensures Field(data, 0x28, 0x30) == img.shoff && Field(data, 0x3A, 0x3C) == img.entsize
    ensures Field(data, 0x3C, 0x3E) == |img.names| && Field(data, 0x3E, 0x40) == img.strndx
  {
    hide Field, Holds, EntryStart;
    HeldField(data, 0x28, 8, img.shoff);
    HeldField(data, 0x3A, 2, img.entsize);
    HeldField(data, 0x3C, 2, |img.names|);
    HeldField(data, 0x3E, 2, img.strndx);
  }

  /** The entry the reader slices out holds what the table holds. */
  lemma EntryRead(img: Image, data: seq<Byte>, i: nat, off: nat, size: nat, v: nat)
    requires DescribesHeader(img, data) && i < |img.names| && off + size <= 0x20
    requires Holds(data, EntryStart(img, i) + off, size, v)
    ensures |SectionsOf(data)| == |img.names| && Field(SectionsOf(data)[i], off, off + size) == v
  {
    hide Field, Holds, Entry;
    HeaderRead(img, data);
    HeldInEntry(data, img.shoff, img.entsize, |img.names|, i, off, size, v);
  }

  // ----- Stripped or not -----

  function Ascii(s: string): seq<Byte>
    requires forall i :: 0 <= i < |s| ==> s[i] < 128 as char
  {
    seq(|s|, i requires 0 <= i < |s| => s[i] as int)
  }

  /** A symbol table or debug section, by the bytes of its name. */
  predicate IsLeftoverSection(name: seq<Byte>) {
    name == Ascii(".symtab") || Ascii(".debug") <= name
  }

  /** Decoding with replacement characters neither hides a leftover section nor makes one up. */
  lemma DecodingKeepsLeftovers(name: seq<Byte>)
    ensures IsLeftover(Decode(name)) <==> IsLeftoverSection(name)
  {
    DecodedPrefix(name, ".symtab");
    DecodedPrefix(name, ".debug");
  }

  lemma DecodedPrefix(name: seq<Byte>, s: string)
    requires forall i :: 0 <= i < |s| ==> s[i] < 128 as char
    ensures s <= Decode(name) <==> Ascii(s) <= name
    ensures s == Decode(name) <==> Ascii(s) == name
  {
    var t, a := Decode(name), Ascii(s);
    if |s| <= |name| {
      forall i | 0 <= i < |s|
        ensures s[i] == t[i] <==> a[i] == name[i]
      {
      }
      if s <= t {
        assert forall i :: 0 <= i < |s| ==> s[i] == t[i];
      }
      if a <= name {
        assert forall i :: 0 <= i < |s| ==> a[i] == name[i];
      }
    }
  }

  /** ks are, in ascending order, the positions of the leftover sections, and kept are their decoded names. */
  ghost predicate Selects(ks: seq<nat>, names: seq<seq<Byte>>, kept: seq<string>) {
    && |ks| == |kept|
    && (forall i, j :: 0 <= i < j < |ks| ==> ks[i] < ks[j])
    && (forall i :: 0 <= i < |ks| ==> ks[i] < |names| && kept[i] == Decode(names[ks[i]]))
    && (forall k: nat :: k in ks <==> k < |names| && IsLeftoverSection(names[k]))
  }

  lemma {:induction false} LeftoversSelected(names: seq<seq<Byte>>) returns (ks: seq<nat>)
    ensures Selects(ks, names, Leftovers(DecodeAll(names)))
    decreases |names|
  {
    hide IsLeftover, IsLeftoverSection, Decode, DecodeAll;
    if names == [] {
      ks := [];
    } else {
      var n := |names| - 1;
      var front := LeftoversSelected(names[..n]);
      assert DecodeAll(names)[..n] == DecodeAll(names[..n]);
      DecodingKeepsLeftovers(names[n]);
      ks := front + if IsLeftoverSection(names[n]) then [n] else [];
      SelectedFurther(front, ks, names, n);
    }
  }

  lemma SelectedFurther(front: seq<nat>, ks: seq<nat>, names: seq<seq<Byte>>, n: nat)
    requires n == |names| - 1
    requires forall k: nat :: k in front <==> k < n && IsLeftoverSection(names[..n][k])
    requires ks == front + if IsLeftoverSection(names[n]) then [n] else []
    ensures forall k: nat :: k in ks <==> k < |names| && IsLeftoverSection(names[k])
  {
    hide IsLeftoverSection;
    forall k: nat
      ensures k in ks <==> k < |names| && IsLeftoverSection(names[k])
    {
      assert k < n ==> names[..n][k] == names[k];
      assert k in ks <==> k in front || (IsLeftoverSection(names[n]) && k == n);
    }
  }

  lemma ReadsNames(img: Image, data: seq<Byte>)
    requires Describes(img, data)
    ensures Read(data) == Ok(Leftovers(DecodeAll(img.names)))
  {
    hide Field, Leftovers, DecodeAll, NamesOf, Holds, HoldsName, SectionsOf, DescribesHeader, HeaderError, EntryStart;
    HeaderRead(img, data);
    var sections := SectionsOf(data);
    EntryRead(img, data, img.strndx, 0x18, 8, img.strOff);
    forall i: nat | i < |img.names|
      ensures HoldsName(data, img.strOff + Field(sections[i], 0, 4), img.names[i])
    {
      EntryRead(img, data, i, 0, 4, img.nameOffs[i]);
    }
    NamesRead(data, sections, img.strOff, img.names);
  }

  /** For every well-formed image the reader returns, in table order and each as often as it occurs, the leftovers. */
  lemma ReadsDescribedImage(img: Image, data: seq<Byte>) returns (ks: seq<nat>)
    requires Describes(img, data)
    ensures Read(data).Ok? && Selects(ks, img.names, Read(data).value)
  {
    hide Read, Describes, Selects;
    ReadsNames(img, data);
    ks := LeftoversSelected(img.names);
  }

  /** The list of a well-formed image is empty exactly when the file is stripped. */
  lemma EmptyIffStripped(img: Image, data: seq<Byte>)
    requires Describes(img, data)
    ensures Read(data) == Ok([]) <==> forall i :: 0 <= i < |img.names| ==> !IsLeftoverSection(img.names[i])
  {
    hide Describes, Read, IsLeftoverSection, Decode;
    var ks := ReadsDescribedImage(img, data);
    if ks != [] {
      assert ks[0] in ks;
    }
  }

  // ----- A writer -----

  function Zeros(k: nat): (s: seq<Byte>)
    ensures |s| == k
  {
    seq(k, _ => 0)
  }

  function StringTable(names: seq<seq<Byte>>): seq<Byte>
    decreases |names|
  {
    if names == [] then [] else StringTable(names[..|names| - 1]) + names[|names| - 1] + [0]
  }

  function WriteEntry(nameOff: nat, strOff: nat): (s: seq<Byte>)
    ensures |s| == 0x40
  {
    ToLittleEndian(nameOff, 4) + Zeros(0x14) + ToLittleEndian(strOff, 8) + Zeros(0x20)
  }

  function WriteTable(names: seq<seq<Byte>>, strOff: nat, k: nat): (s: seq<Byte>)
    requires k <= |names|
    ensures |s| == 0x40 * k
  {
    if k == 0 then [] else WriteTable(names, strOff, k - 1) + WriteEntry(|StringTable(names[..k - 1])|, strOff)
  }

  function WriteHeader(count: nat, strndx: nat): (s: seq<Byte>)
    ensures |s| == 0x40
  {
    MAGIC + [2, 1] + Zeros(0x22) + ToLittleEndian(0x40, 8) + Zeros(10)
    + ToLittleEndian(0x40, 2) + ToLittleEndian(count, 2) + ToLittleEndian(strndx, 2)
  }

  /** The simplest file with these sections: header, section header table, names. */
  function Write(names: seq<seq<Byte>>, strndx: nat): seq<Byte> {
    WriteHeader(|names|, strndx) + WriteTable(names, 0x40 + 0x40 * |names|, |names|) + StringTable(names)
  }

  predicate Writable(names: seq<seq<Byte>>, strndx: nat) {
    && strndx < |names| < 0x1_0000
    && |StringTable(names)| < 0x1_0000_0000
    && forall i :: 0 <= i < |names| ==> 0 !in names[i]
  }

  function WrittenImage(names: seq<seq<Byte>>, strndx: nat): Image {
    Image(0x40, 0x40, strndx, 0x40 + 0x40 * |names|, names,
          seq(|names|, i requires 0 <= i < |names| => |StringTable(names[..i])|))
  }

  lemma {:induction false} NameInTable(names: seq<seq<Byte>>, i: nat)
    requires i < |names|
    ensures var off := |StringTable(names[..i])|;
            && off + |names[i]| < |StringTable(names)|
            && StringTable(names)[off..off + |names[i]|] == names[i] && StringTable(names)[off + |names[i]|] == 0
    decreases |names|
  {
    var front := names[..|names| - 1];
    if i < |names| - 1 {
      NameInTable(front, i);
      assert front[..i] == names[..i];
      var off, t := |StringTable(names[..i])|, StringTable(names);
      assert t[..|StringTable(front)|] == StringTable(front);
      assert t[off..off + |names[i]|] == StringTable(front)[off..off + |names[i]|];
    }
  }

  lemma {:induction false} EntryInTable(names: seq<seq<Byte>>, strOff: nat, k: nat, i: nat)
    requires i < k <= |names|
    ensures WriteTable(names, strOff, k)[0x40 * i..0x40 * i + 0x40] == WriteEntry(|StringTable(names[..i])|, strOff)
    decreases k
  {
    hide StringTable, WriteEntry;
    if i < k - 1 {
      EntryInTable(names, strOff, k - 1, i);
      var t := WriteTable(names, strOff, k);
      assert t[..0x40 * (k - 1)] == WriteTable(names, strOff, k - 1);
      assert t[0x40 * i..0x40 * i + 0x40] == WriteTable(names, strOff, k - 1)[0x40 * i..0x40 * i + 0x40];
    }
  }

  lemma EntryFields(nameOff: nat, strOff: nat)
    ensures WriteEntry(nameOff, strOff)[..4] == ToLittleEndian(nameOff, 4)
    ensures WriteEntry(nameOff, strOff)[0x18..0x20] == ToLittleEndian(strOff, 8)
  {
    hide ToLittleEndian, Zeros;
  }

  lemma HeaderFields(count: nat, strndx: nat)
    ensures var h := WriteHeader(count, strndx);
            && h[..4] == MAGIC && h[4] == 2 && h[5] == 1
            && h[0x28..0x30] == ToLittleEndian(0x40, 8) && h[0x3A..0x3C] == ToLittleEndian(0x40, 2)
            && h[0x3C..0x3E] == ToLittleEndian(count, 2) && h[0x3E..0x40] == ToLittleEndian(strndx, 2)
  {
    hide ToLittleEndian, Zeros;
  }

  lemma Capacities()
    ensures Capacity(2) == 0x1_0000 && Capacity(4) == 0x1_0000_0000 && Capacity(8) == 0x1_0000_0000_0000_0000
  {
    assert Capacity(4) == 0x1_0000_0000;
  }

  /** What the writer writes is a well-formed image of its sections. */
  lemma WriteIsDescribed(names: seq<seq<Byte>>, strndx: nat)
    requires Writable(names, strndx)
    ensures Describes(WrittenImage(names, strndx), Write(names, strndx))
  {
    hide ToLittleEndian, StringTable, WriteHeader, WriteTable, Capacity, MAGIC;
    var data, img, strOff := Write(names, strndx), WrittenImage(names, strndx), 0x40 + 0x40 * |names|;
    var h, t := WriteHeader(|names|, strndx), WriteTable(names, strOff, |names|);
    HeaderFields(|names|, strndx);
    Capacities();
    assert data[..0x40] == h;
    assert data[..4] == h[..4] && data[0x28..0x30] == h[0x28..0x30] && data[0x3A..0x3C] == h[0x3A..0x3C];
    assert data[0x3C..0x3E] == h[0x3C..0x3E] && data[0x3E..0x40] == h[0x3E..0x40];
    assert DescribesHeader(img, data);
    WrittenEntry(names, strndx, strndx);
    forall i: nat | i < |names|
      ensures Holds(data, EntryStart(img, i), 4, img.nameOffs[i]) && HoldsName(data, strOff + img.nameOffs[i], names[i])
    {
      WrittenEntry(names, strndx, i);
      WrittenName(names, strndx, i);
    }
  }

  lemma WrittenEntry(names: seq<seq<Byte>>, strndx: nat, i: nat)
    requires Writable(names, strndx) && i < |names|
    ensures var strOff := 0x40 + 0x40 * |names|;
            && Holds(Write(names, strndx), 0x40 + i * 0x40, 4, |StringTable(names[..i])|)
            && Holds(Write(names, strndx), 0x40 + i * 0x40 + 0x18, 8, strOff)
  {
    hide ToLittleEndian, StringTable, WriteHeader, WriteTable, Capacity, WriteEntry;
    var data, strOff := Write(names, strndx), 0x40 + 0x40 * |names|;
    var t, off, start := WriteTable(names, strOff, |names|), |StringTable(names[..i])|, 0x40 + i * 0x40;
    Capacities();
    NameInTable(names, i);
    EntryInTable(names, strOff, |names|, i);
    EntryFields(off, strOff);
    assert data[start..start + 0x40] == t[0x40 * i..0x40 * i + 0x40];
    SliceOfSlice(data, start, 0x40, 0, 4);
    SliceOfSlice(data, start, 0x40, 0x18, 0x20);
  }

  lemma SliceOfSlice(data: seq<Byte>, start: nat, size: nat, lo: nat, hi: nat)
    requires start + size <= |data| && lo <= hi <= size
    ensures data[start..start + size][lo..hi] == data[start + lo..start + hi]
  {
    var part, whole := data[start..start + size][lo..hi], data[start + lo..start + hi];
    assert |part| == |whole|;
    forall i | 0 <= i < |part|
      ensures part[i] == whole[i]
    {
      assert part[i] == data[start..start + size][lo + i];
    }
  }

  lemma WrittenName(names: seq<seq<Byte>>, strndx: nat, i: nat)
    requires Writable(names, strndx) && i < |names|
    ensures HoldsName(Write(names, strndx), 0x40 + 0x40 * |names| + |StringTable(names[..i])|, names[i])
  {
    hide StringTable, WriteHeader, WriteTable;
    var data, strOff, off := Write(names, strndx), 0x40 + 0x40 * |names|, |StringTable(names[..i])|;
    NameInTable(names, i);
    assert data[strOff..] == StringTable(names);
    assert data[strOff + off..strOff + off + |names[i]|] == StringTable(names)[off..off + |names[i]|];
  }

  /** Reading back what was written finds exactly the leftover names, in order. */
  lemma WriteThenRead(names: seq<seq<Byte>>, strndx: nat) returns (ks: seq<nat>)
    requires Writable(names, strndx)
    ensures Read(Write(names, strndx)).Ok? && Selects(ks, names, Read(Write(names, strndx)).value)
  {
    hide Read, Write, Describes, Selects;
    WriteIsDescribed(names, strndx);
    ks := ReadsDescribedImage(WrittenImage(names, strndx), Write(names, strndx));
  }

  // ----- Any bytes -----

  lemma {:induction false} NamesFound(data: seq<Byte>, sections: seq<seq<Byte>>, strOff: nat)
    returns (names: seq<seq<Byte>>)
    requires NamesOf(data, sections, strOff).Ok?
    ensures |names| == |sections|
    ensures forall i :: 0 <= i < |names| ==> HoldsName(data, NameOffset(sections[i], strOff), names[i])
    decreases |sections|
  {
    hide FindNul, Field, Decode;
    if sections == [] {
      names := [];
    } else {
      var k := |sections| - 1;
      var front := NamesFound(data, sections[..k], strOff);
      var off := NameOffset(sections[k], strOff);
      assert FindNul(data, off).Some?;
      names := front + [data[off..FindNul(data, off).value]];
    }
  }

  /**
   Whenever the reader succeeds, on well-formed files or not, what it returns are the leftovers among the names that
   the bytes hold at the offsets it computes.
   */
  lemma ReadReturnsLeftovers(data: seq<Byte>) returns (names: seq<seq<Byte>>, ks: seq<nat>)
    requires Read(data).Ok?
    ensures Field(data, 0x3E, 0x40) < Field(data, 0x3C, 0x3E) == |names|
    ensures forall i: nat :: i < |names| ==> HoldsName(data, NameStart(data, i), names[i])
    ensures Selects(ks, names, Read(data).value)
  {
    hide Field, NamesOf, HeaderError, Leftovers, Selects, Decode, HoldsName, DecodeAll, Entry;
    var sections, strndx := SectionsOf(data), Field(data, 0x3E, 0x40);
    var strOff := Field(sections[strndx], 0x18, 0x20);
    names := NamesFound(data, sections, strOff);
    NamesRead(data, sections, strOff, names);
    ks := LeftoversSelected(names);
  }
}
