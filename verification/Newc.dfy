/** Records of a newc archive: the header of hexadecimal fields, the name and the data, as
    user/mkinitramfs.py writes them and kernel/fs/initramfs.c reads them. */
module Newc {
  import opened Wrappers
  import opened KernelAbi
  import opened Bytes

  const HEADER_SIZE: nat := 110
  const FIELDS: nat := 13
  const UINT32: nat := 0x1_0000_0000

  const MAGIC: seq<byte> := [48, 55, 48, 55, 48, 49]
  const MAGIC_CRC: seq<byte> := [48, 55, 48, 55, 48, 50]
  const TRAILER: seq<byte> := [84, 82, 65, 73, 76, 69, 82, 33, 33, 33]

  // ---------- hexadecimal fields ----------

  function HexDigit(d: nat): byte
    requires d < 16
  {
    if d < 10 then 48 + d else 87 + d
  }

  /** hex_value: either case is read. */
  function HexValue(b: byte): (v: int)
    ensures -1 <= v < 16
  {
    if 48 <= b <= 57 then b - 48
    else if 97 <= b <= 102 then b - 87
    else if 65 <= b <= 70 then b - 55
    else -1
  }

  function Pow16(n: nat): (p: nat)
    ensures p > 0
  {
    if n == 0 then 1 else 16 * Pow16(n - 1)
  }

  /** A number in lower-case digits, zeros in front. */
  function Hex(width: nat, v: nat): (b: seq<byte>)
    ensures |b| == width
  {
    if width == 0 then [] else Hex(width - 1, v / 16) + [HexDigit(v % 16)]
  }

  /** The number some digits stand for. */
  function Number(b: seq<byte>): Option<nat>
  {
    if b == [] then Some(0)
    else
      var n := |b| - 1;
      match Number(b[..n])
      case None => None
      case Some(high) => if HexValue(b[n]) < 0 then None else Some(16 * high + HexValue(b[n]))
  }

  lemma {:induction false} NumberOfHex(width: nat, v: nat)
    requires v < Pow16(width)
    ensures Number(Hex(width, v)) == Some(v)
  {
    if width > 0 {
      NumberOfHex(width - 1, v / 16);
      var b := Hex(width, v);
      assert b[..width - 1] == Hex(width - 1, v / 16);
    }
  }

  lemma {:induction false} NumberBound(b: seq<byte>)
    ensures Number(b).Some? ==> Number(b).value < Pow16(|b|)
  {
    if b != [] { NumberBound(b[..|b| - 1]); }
  }

  lemma Pow16Double(n: nat, m: nat)
    requires m == n + 4
    ensures Pow16(m) == 65536 * Pow16(n)
  {
    assert Pow16(m) == 16 * Pow16(n + 3) && Pow16(n + 3) == 16 * Pow16(n + 2);
    assert Pow16(n + 2) == 16 * Pow16(n + 1) && Pow16(n + 1) == 16 * Pow16(n);
  }

  lemma EightDigits(n: nat)
    requires n == 8
    ensures Pow16(n) == UINT32
  {
    hide Pow16;
    Pow16Double(4, n);
    Pow16Double(0, 4);
    NoDigits(0);
  }

  lemma NoDigits(n: nat)
    requires n == 0
    ensures Pow16(n) == 1
  {
  }

  /** A prefix that is no number makes no number. */
  lemma {:induction false} NumberPrefix(b: seq<byte>, n: nat)
    requires n <= |b| && Number(b[..n]).None?
    ensures Number(b).None?
    decreases |b|
  {
    if n < |b| {
      assert b[..|b| - 1][..n] == b[..n];
      NumberPrefix(b[..|b| - 1], n);
    } else {
      assert b[..n] == b;
    }
  }

  /** parse_hex8.  Eight digits cannot overflow 32 bits. */
  method ParseHex8(field: seq<byte>) returns (value: Option<nat>)
    requires |field| == 8
    ensures value == Number(field) && (value.Some? ==> value.value < UINT32)
  {
    var v, index := 0, 0;
    while index < 8
      invariant 0 <= index <= 8 && Number(field[..index]) == Some(v)
    {
      assert field[..index + 1][..index] == field[..index];
      var digit := HexValue(field[index]);
      if digit < 0 {
        NumberPrefix(field, index + 1);
        return None;
      }
      v := 16 * v + digit;
      index := index + 1;
    }
    assert field[..8] == field;
    NumberBound(field);
    EightDigits(8);
    return Some(v);
  }

  // ---------- headers ----------

  function Field(header: seq<byte>, k: nat): (b: seq<byte>)
    requires |header| == HEADER_SIZE && k < FIELDS
    ensures |b| == 8
  {
    header[6 + 8 * k..14 + 8 * k]
  }

  predicate FieldsOk(header: seq<byte>, n: nat)
    requires |header| == HEADER_SIZE && n <= FIELDS
  {
    forall k :: 0 <= k < n ==> Number(Field(header, k)).Some?
  }

  function FieldValue(header: seq<byte>, k: nat): nat
    requires |header| == HEADER_SIZE && k < FIELDS && FieldsOk(header, FIELDS)
  {
    Number(Field(header, k)).value
  }

  function Align4(n: nat): nat
  {
    (n + 3) / 4 * 4
  }

  /** The bytes of some fields. */
  function EncodeFields(values: seq<nat>): (b: seq<byte>)
    ensures |b| == 8 * |values|
  {
    if values == [] then [] else EncodeFields(values[..|values| - 1]) + Hex(8, values[|values| - 1] % UINT32)
  }

  function EncodeHeader(values: seq<nat>): (b: seq<byte>)
    requires |values| == FIELDS
    ensures |b| == HEADER_SIZE
  {
    MAGIC + EncodeFields(values)
  }

  lemma {:induction false} FieldOfEncoded(values: seq<nat>, k: nat)
    requires k < |values|
    ensures EncodeFields(values)[8 * k..8 * k + 8] == Hex(8, values[k] % UINT32)
    decreases |values|
  {
    hide Hex;
    var n := |values| - 1;
    var front := EncodeFields(values[..n]);
    if k == n {
      assert EncodeFields(values)[8 * n..8 * n + 8] == Hex(8, values[n] % UINT32);
    } else {
      FieldOfEncoded(values[..n], k);
      assert EncodeFields(values)[8 * k..8 * k + 8] == front[8 * k..8 * k + 8];
    }
  }

  /** Every field of a header reads back, modulo 2^32. */
  lemma HeaderReadsBack(values: seq<nat>, k: nat)
    requires |values| == FIELDS && k < FIELDS
    ensures Number(Field(EncodeHeader(values), k)) == Some(values[k] % UINT32)
  {
    hide Hex, Number, EncodeFields;
    var h := EncodeHeader(values);
    FieldOfEncoded(values, k);
    assert h[6 + 8 * k..14 + 8 * k] == EncodeFields(values)[8 * k..8 * k + 8];
    EightDigits(8);
    NumberOfHex(8, values[k] % UINT32);
  }

  // ---------- reading a record ----------

  datatype Record = Record(inode: nat, mode: nat, mtime: nat, name: seq<byte>, data: seq<byte>, next: nat)

  function Sum(data: seq<byte>): nat
  {
    if data == [] then 0 else Sum(data[..|data| - 1]) + data[|data| - 1]
  }

  /** The name ends in its only NUL. */
  predicate Terminated(name: seq<byte>)
  {
    name != [] && name[|name| - 1] == 0 && forall k :: 0 <= k < |name| - 1 ==> name[k] != 0
  }

  /** Where the parts of a record lie once its header is known. */
  function DataStart(at: nat, nameSize: nat): nat
  {
    Align4(at + HEADER_SIZE + nameSize)
  }

  function NextRecord(at: nat, nameSize: nat, size: nat): nat
  {
    Align4(DataStart(at, nameSize) + size)
  }

  lemma Aligned(n: nat)
    ensures n <= Align4(n) < n + 4 && Align4(n) % 4 == 0
  {
  }

  /** What the header's checksum field must be. */
  predicate CheckOk(crc: bool, data: seq<byte>, check: nat)
  {
    if crc then Sum(data) % UINT32 == check else check == 0
  }

  /** The body of a record whose header was read. */
  function ReadBody(a: seq<byte>, at: nat, header: seq<byte>): Result<Record>
    requires |header| == HEADER_SIZE && FieldsOk(header, FIELDS)
  {
    var nameSize, size := FieldValue(header, 11), FieldValue(header, 6);
    if nameSize == 0 then Err(EINVAL)
    else if nameSize > PATH_MAX then Err(ENAMETOOLONG)
    else if at + HEADER_SIZE + nameSize > |a| then Err(EINVAL)
    else
      var name := a[at + HEADER_SIZE..at + HEADER_SIZE + nameSize];
      if !Terminated(name) then Err(EINVAL)
      else
        var start, next := DataStart(at, nameSize), NextRecord(at, nameSize, size);
        if next > |a| then Err(EINVAL)
        else
          Aligned(start + size);
          var data := a[start..start + size];
          if !CheckOk(header[..6] == MAGIC_CRC, data, FieldValue(header, 12)) then
            Err(if header[..6] == MAGIC_CRC then EIO else EINVAL)
          else
            Ok(Record(FieldValue(header, 0), FieldValue(header, 1), FieldValue(header, 5),
                      name[..nameSize - 1], data, next))
  }

  /** The record at an offset, as parse_archive reads it. */
  function ReadRecord(a: seq<byte>, at: nat): (r: Result<Record>)
  {
    if at + HEADER_SIZE > |a| then Err(EINVAL)
    else
      var header := a[at..at + HEADER_SIZE];
      if header[..6] != MAGIC && header[..6] != MAGIC_CRC then Err(EINVAL)
      else if !FieldsOk(header, FIELDS) then Err(EINVAL)
      else ReadBody(a, at, header)
  }

  lemma RecordAdvances(a: seq<byte>, at: nat)
    ensures ReadRecord(a, at).Ok? ==> at < ReadRecord(a, at).value.next <= |a|
  {
    hide FieldsOk, FieldValue, CheckOk, Terminated;
    if at + HEADER_SIZE <= |a| {
      var header := a[at..at + HEADER_SIZE];
      if FieldsOk(header, FIELDS) {
        Aligned(at + HEADER_SIZE + FieldValue(header, 11));
        Aligned(DataStart(at, FieldValue(header, 11)) + FieldValue(header, 6));
      }
    }
  }

  /** The number in field k of a header at an offset, if its digits are digits. */
  function NumberAt(a: seq<byte>, at: nat, k: nat): Option<nat>
    requires at + 110 <= |a| && k < 13
  {
    Number(a[at + 6 + 8 * k..at + 14 + 8 * k])
  }

  /** The next multiple of four. */
  predicate Rounds(n: nat, r: nat)
  {
    n <= r < n + 4 && r % 4 == 0
  }

  /** A whole record stands at the offset: magic number, thirteen numbers, a name that ends in its only
      NUL, the data, and after the second magic number the sum of the data's bytes. */
  predicate Stands(a: seq<byte>, at: nat, nameSize: nat, size: nat, start: nat, next: nat)
  {
    && at + 110 <= |a| && (a[at..at + 6] == [48, 55, 48, 55, 48, 49] || a[at..at + 6] == [48, 55, 48, 55, 48, 50])
    && (forall k :: 0 <= k < 13 ==> NumberAt(a, at, k).Some?)
    && NumberAt(a, at, 11) == Some(nameSize) && NumberAt(a, at, 6) == Some(size)
    && 1 <= nameSize <= 4096 && at + 110 + nameSize <= |a|
    && (forall k :: at + 110 <= k < at + 110 + nameSize ==> (a[k] == 0 <==> k == at + 109 + nameSize))
    && Rounds(at + 110 + nameSize, start) && Rounds(start + size, next) && next <= |a|
    && NumberAt(a, at, 12) == Some(if a[at + 5] == 50 then Sum(a[start..start + size]) % UINT32 else 0)
  }

  /** A record is read exactly when a whole one stands there. */
  lemma RecordExactly(a: seq<byte>, at: nat)
    ensures ReadRecord(a, at).Ok? <==>
      exists nameSize: nat, size: nat, start: nat, next: nat :: Stands(a, at, nameSize, size, start, next)
  {
    hide ReadRecord, Stands;
    if ReadRecord(a, at).Ok? {
      StandsWhen(a, at);
    }
    forall nameSize: nat, size: nat, start: nat, next: nat | Stands(a, at, nameSize, size, start, next)
      ensures ReadRecord(a, at).Ok?
    {
      ReadsWhen(a, at, nameSize, size, start, next);
    }
  }

  lemma FieldIs(a: seq<byte>, at: nat, k: nat)
    requires at + HEADER_SIZE <= |a| && k < FIELDS
    ensures Number(Field(a[at..at + HEADER_SIZE], k)) == NumberAt(a, at, k)
  {
    hide Number;
    SliceSlice(a, at, at + HEADER_SIZE, 6 + 8 * k, 14 + 8 * k);
  }

  lemma SliceSlice(a: seq<byte>, lo: nat, hi: nat, i: nat, j: nat)
    requires lo <= hi <= |a| && i <= j <= hi - lo
    ensures a[lo..hi][i..j] == a[lo + i..lo + j]
  {
    var s, t := a[lo..hi][i..j], a[lo + i..lo + j];
    assert |s| == |t|;
    forall k | 0 <= k < |s|
      ensures s[k] == t[k]
    {
      assert s[k] == a[lo..hi][i + k] == a[lo + i + k] == t[k];
    }
  }

  lemma FieldsAre(a: seq<byte>, at: nat, h: seq<byte>)
    requires at + HEADER_SIZE <= |a| && h == a[at..at + HEADER_SIZE]
    ensures h[..6] == a[at..at + 6] && (FieldsOk(h, FIELDS) <==> forall k :: 0 <= k < 13 ==> NumberAt(a, at, k).Some?)
    ensures FieldsOk(h, FIELDS) ==> forall k :: 0 <= k < 13 ==> Some(FieldValue(h, k)) == NumberAt(a, at, k)
  {
    hide Number, Field, NumberAt;
    SliceSlice(a, at, at + HEADER_SIZE, 0, 6);
    forall k | 0 <= k < FIELDS
      ensures Number(Field(h, k)) == NumberAt(a, at, k)
    {
      FieldIs(a, at, k);
    }
    if FieldsOk(h, FIELDS) {
      forall k | 0 <= k < FIELDS
        ensures Some(FieldValue(h, k)) == NumberAt(a, at, k)
      {
        assert Number(Field(h, k)) == NumberAt(a, at, k);
      }
    }
  }

  lemma TerminatedIs(a: seq<byte>, lo: nat, n: nat)
    requires 1 <= n && lo + n <= |a|
    ensures Terminated(a[lo..lo + n]) <==> forall k :: lo <= k < lo + n ==> (a[k] == 0 <==> k == lo + n - 1)
  {
    var name := a[lo..lo + n];
    if Terminated(name) {
      forall k | lo <= k < lo + n
        ensures a[k] == 0 <==> k == lo + n - 1
      {
        assert a[k] == name[k - lo];
      }
    }
  }

  lemma StandsWhen(a: seq<byte>, at: nat)
    requires ReadRecord(a, at).Ok?
    ensures exists nameSize: nat, size: nat, start: nat, next: nat :: Stands(a, at, nameSize, size, start, next)
  {
    hide NumberAt, FieldsOk, FieldValue, Terminated, Sum;
    var h := a[at..at + HEADER_SIZE];
    FieldsAre(a, at, h);
    var nameSize, size := FieldValue(h, 11), FieldValue(h, 6);
    TerminatedIs(a, at + HEADER_SIZE, nameSize);
    Aligned(at + HEADER_SIZE + nameSize);
    Aligned(DataStart(at, nameSize) + size);
    MagicByte(a, at);
    assert Stands(a, at, nameSize, size, DataStart(at, nameSize), NextRecord(at, nameSize, size));
  }

  lemma MagicByte(a: seq<byte>, at: nat)
    requires at + 6 <= |a|
    ensures a[at..at + 6] == MAGIC_CRC ==> a[at + 5] == 50
    ensures a[at..at + 6] == MAGIC ==> a[at + 5] == 49
  {
    assert a[at + 5] == a[at..at + 6][5];
  }

  lemma RoundsIs(n: nat, r: nat)
    requires Rounds(n, r)
    ensures r == Align4(n)
  {
  }

  /** And then it is that record. */
  lemma ReadsWhen(a: seq<byte>, at: nat, nameSize: nat, size: nat, start: nat, next: nat)
    requires Stands(a, at, nameSize, size, start, next)
    ensures ReadRecord(a, at) == Ok(Record(NumberAt(a, at, 0).value, NumberAt(a, at, 1).value,
      NumberAt(a, at, 5).value, a[at + 110..at + 109 + nameSize], a[start..start + size], next))
  {
    hide NumberAt, FieldsOk, FieldValue, Terminated, Sum, Align4, Rounds;
    FieldsAre(a, at, a[at..at + HEADER_SIZE]);
    TerminatedIs(a, at + HEADER_SIZE, nameSize);
    RoundsIs(at + HEADER_SIZE + nameSize, start);
    RoundsIs(start + size, next);
    MagicByte(a, at);
    var name := a[at + HEADER_SIZE..at + HEADER_SIZE + nameSize];
    assert name[..nameSize - 1] == a[at + 110..at + 109 + nameSize];
  }

  /** No record has more data than its size field can say. */
  lemma RecordSmall(a: seq<byte>, at: nat)
    ensures ReadRecord(a, at).Ok? ==> |ReadRecord(a, at).value.data| < UINT32
  {
    hide Number, Terminated, CheckOk, Sum;
    if ReadRecord(a, at).Ok? {
      var field := Field(a[at..at + HEADER_SIZE], 6);
      NumberBound(field);
      EightDigits(|field|);
    }
  }

  // ---------- writing a record ----------

  /** What pad4 leaves. */
  function Padded(b: seq<byte>): (r: seq<byte>)
    ensures |r| == Align4(|b|)
  {
    Aligned(|b|);
    b + Zeros(Align4(|b|) - |b|)
  }

  datatype Member = Member(name: seq<byte>, mode: nat, data: seq<byte>)

  predicate IsDirectoryMode(mode: nat)
  {
    mode / 4096 % 16 == 4
  }

  function FieldsFor(m: Member, inode: nat, mtime: nat): (f: seq<nat>)
    ensures |f| == FIELDS
  {
    [inode, m.mode, 0, 0, if IsDirectoryMode(m.mode) then 2 else 1, mtime, |m.data|, 0, 0, 0, 0, |m.name| + 1, 0]
  }

  /** One member: header, name and data, each padded to a multiple of four. */
  function EncodeMember(m: Member, inode: nat, mtime: nat): (b: seq<byte>)
  {
    Padded(EncodeHeader(FieldsFor(m, inode, mtime)) + m.name + [0]) + Padded(m.data)
  }

  // ---------- the round trip of one member ----------

  /** The name holds no NUL, and the data's size fits its field. */
  predicate Writable(m: Member)
  {
    (forall k :: 0 <= k < |m.name| ==> m.name[k] != 0) && |m.data| < UINT32
  }

  /** The name is short enough for the parser, too. */
  predicate Encodable(m: Member)
  {
    Writable(m) && |m.name| < PATH_MAX
  }

  function RecordOf(m: Member, inode: nat, mtime: nat, next: nat): Record
  {
    Record(inode % UINT32, m.mode % UINT32, mtime % UINT32, m.name, m.data, next)
  }

  lemma AlignedSum(a: nat, b: nat)
    requires a % 4 == 0
    ensures Align4(a + b) == a + Align4(b) && (a + Align4(b)) % 4 == 0
  {
  }

  lemma MemberLength(m: Member, inode: nat, mtime: nat)
    ensures |EncodeMember(m, inode, mtime)| == Align4(HEADER_SIZE + |m.name| + 1) + Align4(|m.data|)
    ensures |EncodeMember(m, inode, mtime)| % 4 == 0
  {
    Aligned(HEADER_SIZE + |m.name| + 1);
    Aligned(|m.data|);
  }

  /** The parts of a member, where a reader looks for them. */
  lemma MemberParts(m: Member, inode: nat, mtime: nat)
    ensures var e := EncodeMember(m, inode, mtime); var n := HEADER_SIZE + |m.name| + 1;
      && n <= Align4(n) && Align4(n) + |m.data| <= |e|
      && e[..HEADER_SIZE] == EncodeHeader(FieldsFor(m, inode, mtime)) && e[HEADER_SIZE..n] == m.name + [0]
      && e[Align4(n)..Align4(n) + |m.data|] == m.data
  {
    hide EncodeHeader, FieldsFor;
    var front := EncodeHeader(FieldsFor(m, inode, mtime)) + m.name + [0];
    var e := EncodeMember(m, inode, mtime);
    var n := HEADER_SIZE + |m.name| + 1;
    assert |front| == n;
    Aligned(n);
    Aligned(|m.data|);
    MemberLength(m, inode, mtime);
    PaddedParts(front);
    PaddedParts(m.data);
    assert e == Padded(front) + Padded(m.data);
    assert e[..n] == front && e[Align4(n)..] == Padded(m.data);
    assert e[..HEADER_SIZE] == front[..HEADER_SIZE] && e[HEADER_SIZE..n] == front[HEADER_SIZE..];
    assert e[Align4(n)..Align4(n) + |m.data|] == e[Align4(n)..][..|m.data|];
  }

  lemma PaddedParts(b: seq<byte>)
    ensures |b| <= |Padded(b)| && Padded(b)[..|b|] == b
  {
    Aligned(|b|);
  }

  /** The same parts when the member lies in an archive. */
  lemma Within(a: seq<byte>, pre: seq<byte>, e: seq<byte>, post: seq<byte>, i: nat, j: nat)
    requires a == pre + e + post && i <= j <= |e|
    ensures |pre| + j <= |a| && a[|pre| + i..|pre| + j] == e[i..j]
  {
  }

  /** What a member's header says. */
  lemma HeaderSays(m: Member, inode: nat, mtime: nat)
    requires Writable(m)
    ensures var h := EncodeHeader(FieldsFor(m, inode, mtime));
      && h[..6] == MAGIC && FieldsOk(h, FIELDS)
      && FieldValue(h, 0) == inode % UINT32 && FieldValue(h, 1) == m.mode % UINT32 && FieldValue(h, 5) == mtime % UINT32
      && FieldValue(h, 6) == |m.data| && FieldValue(h, 11) == (|m.name| + 1) % UINT32 && FieldValue(h, 12) == 0
  {
    hide Number, Field;
    var f := FieldsFor(m, inode, mtime);
    MagicFirst(f);
    forall k | 0 <= k < FIELDS
      ensures Number(Field(EncodeHeader(f), k)) == Some(f[k] % UINT32)
    {
      HeaderReadsBack(f, k);
    }
    SmallFields(|m.data|, 0);
  }

  lemma SmallFields(a: nat, b: nat)
    requires a < UINT32 && b <= PATH_MAX
    ensures a % UINT32 == a && b % UINT32 == b && 0 % UINT32 == 0
  {
  }

  lemma MagicFirst(f: seq<nat>)
    requires |f| == FIELDS
    ensures EncodeHeader(f)[..6] == MAGIC
  {
    hide EncodeFields;
    assert (MAGIC + EncodeFields(f))[..6] == MAGIC;
  }

  /** What append_member wrote, the parser reads: the same name, mode, time and bytes. */
  lemma MemberReadsBack(m: Member, inode: nat, mtime: nat, pre: seq<byte>, post: seq<byte>)
    requires Encodable(m) && |pre| % 4 == 0
    ensures var e := EncodeMember(m, inode, mtime);
      ReadRecord(pre + e + post, |pre|) == Ok(RecordOf(m, inode, mtime, |pre| + |e|))
  {
    hide EncodeMember, EncodeHeader, FieldsFor, FieldValue, FieldsOk, Align4;
    var e := EncodeMember(m, inode, mtime);
    var a := pre + e + post;
    var n := HEADER_SIZE + |m.name| + 1;
    MemberParts(m, inode, mtime);
    MemberLength(m, inode, mtime);
    HeaderSays(m, inode, mtime);
    SmallFields(0, |m.name| + 1);
    Within(a, pre, e, post, 0, HEADER_SIZE);
    Within(a, pre, e, post, HEADER_SIZE, n);
    Within(a, pre, e, post, Align4(n), Align4(n) + |m.data|);
    assert e[0..HEADER_SIZE] == e[..HEADER_SIZE];
    AlignedSum(|pre|, n);
    AlignedSum(|pre| + Align4(n), |m.data|);
    Aligned(n);
    BodyReads(a, |pre|, m, inode, mtime, |pre| + |e|);
  }

  lemma BodyReads(a: seq<byte>, at: nat, m: Member, inode: nat, mtime: nat, next: nat)
    requires Encodable(m) && next == NextRecord(at, |m.name| + 1, |m.data|) <= |a| && at + HEADER_SIZE <= |a|
    requires var h := EncodeHeader(FieldsFor(m, inode, mtime)); a[at..at + HEADER_SIZE] == h && h[..6] == MAGIC
    requires at + HEADER_SIZE + |m.name| + 1 <= |a|
    requires a[at + HEADER_SIZE..at + HEADER_SIZE + |m.name| + 1] == m.name + [0]
    requires var start := DataStart(at, |m.name| + 1); start + |m.data| <= |a| && a[start..start + |m.data|] == m.data
    ensures ReadRecord(a, at) == Ok(RecordOf(m, inode, mtime, next))
  {
    hide EncodeHeader, FieldsFor, FieldValue, FieldsOk, DataStart, NextRecord;
    HeaderSays(m, inode, mtime);
    SmallFields(0, |m.name| + 1);
    var name := m.name + [0];
    assert Terminated(name) && name[..|m.name|] == m.name;
    assert MAGIC != MAGIC_CRC by { assert MAGIC[5] != MAGIC_CRC[5]; }
  }

  /** A member whose name is too long is refused, also where its length overflows its field. */
  lemma LongNameRefused(m: Member, inode: nat, mtime: nat, pre: seq<byte>, post: seq<byte>)
    requires Writable(m) && |m.name| >= PATH_MAX
    ensures ReadRecord(pre + EncodeMember(m, inode, mtime) + post, |pre|).Err?
  {
    hide EncodeMember, EncodeHeader, FieldsFor, FieldValue, FieldsOk, Align4;
    var e := EncodeMember(m, inode, mtime);
    var a, at := pre + e + post, |pre|;
    var n, size := HEADER_SIZE + |m.name| + 1, (|m.name| + 1) % UINT32;
    MemberParts(m, inode, mtime);
    HeaderSays(m, inode, mtime);
    Within(a, pre, e, post, 0, HEADER_SIZE);
    assert e[0..HEADER_SIZE] == e[..HEADER_SIZE];
    if 0 < size <= PATH_MAX {
      Within(a, pre, e, post, HEADER_SIZE, n);
      var name := a[at + HEADER_SIZE..at + HEADER_SIZE + size];
      assert name[size - 1] == (m.name + [0])[size - 1] == m.name[size - 1];
      assert !Terminated(name);
    }
  }

  // ---------- reading, step by step ----------

  /** The scan of a name. */
  method ScanName(name: seq<byte>) returns (ok: bool)
    requires name != []
    ensures ok <==> Terminated(name)
  {
    if name[|name| - 1] != 0 {
      return false;
    }
    var index := 0;
    while index + 1 < |name|
      invariant 0 <= index < |name| && forall k :: 0 <= k < index ==> name[k] != 0
    {
      if name[index] == 0 {
        return false;
      }
      index := index + 1;
    }
    return true;
  }

  /** validate_checksum. */
  method ValidateChecksum(data: seq<byte>, expected: nat) returns (ok: bool)
    ensures ok <==> Sum(data) % UINT32 == expected
  {
    var sum: nat := 0;
    var index := 0;
    while index < |data|
      invariant 0 <= index <= |data| && sum == Sum(data[..index]) % UINT32
    {
      assert data[..index + 1][..index] == data[..index];
      SumWraps(Sum(data[..index]), data[index]);
      sum := (sum + data[index]) % UINT32;
      index := index + 1;
    }
    assert data[..index] == data;
    return sum == expected;
  }

  lemma SumWraps(total: nat, b: nat)
    ensures (total % UINT32 + b) % UINT32 == (total + b) % UINT32
  {
  }

  /** The fields of a header. */
  method ParseFields(header: seq<byte>) returns (ok: bool, fields: seq<nat>)
    requires |header| == HEADER_SIZE
    ensures ok <==> FieldsOk(header, FIELDS)
    ensures ok ==> |fields| == FIELDS && forall k :: 0 <= k < FIELDS ==> fields[k] == FieldValue(header, k)
  {
    hide Number, Field;
    fields := [];
    var k := 0;
    while k < FIELDS
      invariant 0 <= k <= FIELDS && |fields| == k && FieldsOk(header, k)
      invariant forall i :: 0 <= i < k ==> fields[i] == Number(Field(header, i)).value
    {
      var value := ParseHex8(Field(header, k));
      if value.None? {
        return false, fields;
      }
      fields := fields + [value.value];
      k := k + 1;
    }
    return true, fields;
  }

  /** The part of parse_archive that reads one record. */
  method FetchRecord(a: seq<byte>, at: nat) returns (r: Result<Record>)
    ensures r == ReadRecord(a, at)
  {
    hide FieldValue, FieldsOk, Terminated, Sum, Align4;
    if at + HEADER_SIZE > |a| {
      return Err(EINVAL);
    }
    var header := a[at..at + HEADER_SIZE];
    var crc := header[..6] == MAGIC_CRC;
    if !crc && header[..6] != MAGIC {
      return Err(EINVAL);
    }
    var ok, fields := ParseFields(header);
    if !ok {
      return Err(EINVAL);
    }
    var size, nameSize := fields[6], fields[11];
    if nameSize == 0 || nameSize > PATH_MAX {
      return Err(if nameSize > PATH_MAX then ENAMETOOLONG else EINVAL);
    }
    var nameEnd := at + HEADER_SIZE + nameSize;
    if nameEnd > |a| {
      return Err(EINVAL);
    }
    var name := a[at + HEADER_SIZE..nameEnd];
    var named := ScanName(name);
    if !named {
      return Err(EINVAL);
    }
    var start := Align4(nameEnd);
    Aligned(start + size);
    var next := Align4(start + size);
    if start > |a| || start + size > |a| || next > |a| {
      return Err(EINVAL);
    }
    var data := a[start..start + size];
    if crc {
      var valid := ValidateChecksum(data, fields[12]);
      if !valid {
        return Err(EIO);
      }
    } else if fields[12] != 0 {
      return Err(EINVAL);
    }
    return Ok(Record(fields[0], fields[1], fields[5], name[..nameSize - 1], data, next));
  }
}
