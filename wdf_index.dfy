/** The WDF archive index shared by all readers: the 12-byte header, the
    accepted magic tags, one index record, and the uid map with its
    last-entry-wins rule. */
module WdfIndex {

  import opened Bytes
  import opened Options

  const HEADER_SIZE: nat := 12

  /** One index record.  `name` is present only for the 32-byte layout and
      holds the raw bytes of its name field up to the first NUL. */
  datatype Entry = Entry(uid: nat, offset: nat, size: nat, space: nat, name: Option<seq<byte>>)

  /** The header: the 4-byte tag, the entry count and the index offset.  The
      count is read signed (`'<i'`) or unsigned (`'<I'`) depending on the reader. */
  datatype Header = Header(magic: seq<byte>, count: int, indexOffset: nat)

  /** The header of `data`, or None when fewer than 12 bytes are available. */
  function ReadHeader(data: seq<byte>, signedCount: bool): (h: Option<Header>)
    ensures h.None? <==> |data| < HEADER_SIZE
    ensures h.Some? ==> h.value.magic == data[..4] && h.value.indexOffset == U32At(data, 8)
    ensures h.Some? ==> h.value.count == if signedCount then I32At(data, 4) else U32At(data, 4)
  {
    if |data| < HEADER_SIZE then None
    else Some(Header(data[..4], if signedCount then I32At(data, 4) else U32At(data, 4), U32At(data, 8)))
  }

  // ---------------------------------------------------------------------------
  // Magic tags

  const W: byte := 0x57
  const D: byte := 0x44
  const F: byte := 0x46
  const P: byte := 0x50
  const A: byte := 0x41

  const WDFP: seq<byte> := [W, D, F, P]
  const PFDW: seq<byte> := [P, F, D, W]
  const WDFA: seq<byte> := [W, D, F, A]
  const AFDW: seq<byte> := [A, F, D, W]

  /** `core_unipacker.wdf_unpack`: one of four literal tags. */
  predicate CoreMagic(m: seq<byte>)
  {
    m == WDFP || m == PFDW || m == WDFA || m == AFDW
  }

  /** `UnpackerUI.parse_wdf`: `WDFP` or `PFDW`. */
  predicate ParseWdfMagic(m: seq<byte>)
  {
    m == WDFP || m == PFDW
  }

  /** `wdf_unpack_python`: `WDFP` only. */
  predicate PythonMagic(m: seq<byte>)
  {
    m == WDFP
  }

  function Reverse(s: seq<byte>): (r: seq<byte>)
    ensures |r| == |s|
    ensures forall i :: 0 <= i < |s| ==> r[i] == s[|s| - 1 - i]
  {
    if s == [] then [] else Reverse(s[1..]) + [s[0]]
  }

  predicate WdfAt(m: seq<byte>, i: int)
  {
    0 <= i && i + 3 <= |m| && m[i] == W && m[i + 1] == D && m[i + 2] == F
  }

  /** `b'WDF' in m`. */
  predicate ContainsWdf(m: seq<byte>)
  {
    exists i :: 0 <= i < |m| && WdfAt(m, i)
  }

  /** `wdf_parser.parse_wdf_index`: `b'WDF' in id_bytes or b'WDF' in id_bytes[::-1]`. */
  predicate LooseMagic(m: seq<byte>)
  {
    ContainsWdf(m) || ContainsWdf(Reverse(m))
  }

  /** For a 4-byte tag the loose test accepts exactly `WDF?`, `?WDF`, `FDW?` and `?FDW`. */
  lemma LooseMagicOfTag(m: seq<byte>)
    requires |m| == 4
    ensures LooseMagic(m) <==>
      m[..3] == [W, D, F] || m[1..] == [W, D, F] || m[..3] == [F, D, W] || m[1..] == [F, D, W]
  {
    var r := Reverse(m);
    assert r[0] == m[3] && r[1] == m[2] && r[2] == m[1] && r[3] == m[0];
    if m[..3] == [W, D, F] { assert WdfAt(m, 0); }
    if m[1..] == [W, D, F] { assert WdfAt(m, 1); }
    if m[..3] == [F, D, W] { assert WdfAt(r, 1); }
    if m[1..] == [F, D, W] { assert WdfAt(r, 0); }
  }

  /** The readers' magic policies form a chain from strictest to loosest. */
  lemma MagicPoliciesNested(m: seq<byte>)
    ensures PythonMagic(m) ==> ParseWdfMagic(m)
    ensures ParseWdfMagic(m) ==> CoreMagic(m)
    ensures CoreMagic(m) ==> LooseMagic(m)
  {
    if CoreMagic(m) {
      LooseMagicOfTag(m);
    }
  }

  /** The loose test also accepts tags no other reader accepts. */
  lemma LooseMagicIsLooser()
    ensures LooseMagic([W, D, F, 0x30]) && !CoreMagic([W, D, F, 0x30])
  {
    LooseMagicOfTag([W, D, F, 0x30]);
  }

  // ---------------------------------------------------------------------------
  // uid map

  /** Entry `k` is the last one with uid `u`. */
  predicate LastWithUid(es: seq<Entry>, u: nat, k: int)
  {
    0 <= k < |es| && es[k].uid == u && forall j :: k < j < |es| ==> es[j].uid != u
  }

  /** `{e['uid']: e for e in file_table}`, built entry by entry. */
  function UidMap(es: seq<Entry>): map<nat, Entry>
    decreases |es|
  {
    if es == [] then map[] else UidMap(es[..|es| - 1])[es[|es| - 1].uid := es[|es| - 1]]
  }

  /** Every uid of the table is a key. */
  lemma {:induction false} UidMapHasEveryUid(es: seq<Entry>)
    ensures forall k :: 0 <= k < |es| ==> es[k].uid in UidMap(es)
    decreases |es|
  {
    if es != [] {
      var init := es[..|es| - 1];
      UidMapHasEveryUid(init);
      assert forall k :: 0 <= k < |init| ==> init[k] == es[k];
    }
  }

  /** Every key is the uid of some entry, and of a last one. */
  lemma {:induction false} UidMapOnlyUids(es: seq<Entry>)
    ensures forall u :: u in UidMap(es) ==> exists k :: LastWithUid(es, u, k)
    decreases |es|
  {
    if es != [] {
      var init := es[..|es| - 1];
      var last := es[|es| - 1];
      UidMapOnlyUids(init);
      assert forall u, k :: LastWithUid(init, u, k) && u != last.uid ==> LastWithUid(es, u, k);
      assert LastWithUid(es, last.uid, |es| - 1);
    }
  }

  /** A uid maps to the last entry carrying it. */
  lemma {:induction false} UidMapLastWins(es: seq<Entry>)
    ensures forall u, k :: LastWithUid(es, u, k) ==> u in UidMap(es) && UidMap(es)[u] == es[k]
    decreases |es|
  {
    if es != [] {
      var init := es[..|es| - 1];
      var last := es[|es| - 1];
      UidMapLastWins(init);
      assert forall u, k :: LastWithUid(es, u, k) && u != last.uid ==> LastWithUid(init, u, k);
    }
  }

  /** `uid_map.get(uid)`. */
  function Lookup(m: map<nat, Entry>, uid: nat): Option<Entry>
  {
    if uid in m then Some(m[uid]) else None
  }

  // ---------------------------------------------------------------------------
  // The 32-byte record table

  const RECORD_32: nat := 32

  /** `f.seek(index_offset); f.read(n)`: seeking past the end reads nothing. */
  function IndexBytes(data: seq<byte>, offset: nat, n: int): (r: seq<byte>)
    ensures |r| <= |data|
    ensures offset <= |data| ==> r == ReadAt(data, offset, n)
    ensures offset > |data| ==> r == []
  {
    if offset > |data| then [] else ReadAt(data, offset, n)
  }

  /** `index_data[i*32:(i+1)*32]`: record `i`, possibly short. */
  function Record32(index: seq<byte>, i: nat): (r: seq<byte>)
    ensures |r| <= RECORD_32
    ensures r == Slice(index, RECORD_32 * i, RECORD_32 * i + RECORD_32)
  {
    Slice(index, RECORD_32 * i, RECORD_32 * i + RECORD_32)
  }

  /** `b.split(b'\x00')[0]`: the bytes before the first NUL. */
  function UpToNul(b: seq<byte>): (r: seq<byte>)
    ensures 0 !in r
    ensures |r| <= |b| && r == b[..|r|]
    ensures |r| < |b| ==> b[|r|] == 0
  {
    if b == [] || b[0] == 0 then [] else [b[0]] + UpToNul(b[1..])
  }

  /** The name field of a record: bytes 16..31 cut at the first NUL. */
  function NameField(entry: seq<byte>): seq<byte>
  {
    UpToNul(Slice(entry, 16, 32))
  }

  /** The four little-endian u32 fields at 0, 4, 8 and 12. */
  function DecodeRecord(entry: seq<byte>, withName: bool): (e: Entry)
    requires |entry| >= 16
    ensures e.uid == U32At(entry, 0) && e.offset == U32At(entry, 4)
    ensures e.size == U32At(entry, 8) && e.space == U32At(entry, 12)
    ensures e.name == if withName then Some(NameField(entry)) else None
  {
    Entry(U32At(entry, 0), U32At(entry, 4), U32At(entry, 8), U32At(entry, 12),
          if withName then Some(NameField(entry)) else None)
  }

  /** `range(file_count)` for a count read signed. */
  function Clamp(count: int): nat
  {
    if count < 0 then 0 else count
  }

  /** Every one of the first `n` records has its 16 field bytes. */
  predicate TableFits(index: seq<byte>, n: nat)
  {
    forall i :: 0 <= i < n ==> |Record32(index, i)| >= 16
  }

  /** The decoded table of the first `n` records, in file order. */
  function Table32(index: seq<byte>, n: nat, withNames: bool): (t: seq<Entry>)
    requires TableFits(index, n)
    ensures |t| == n
  {
    seq(n, i requires 0 <= i < n => DecodeRecord(Record32(index, i), withNames))
  }

  /** The record loop of `wdf_unpack` and `wdf_unpack_python`: each of the
      `file_count` records is decoded from its first 16 bytes, and a record
      with fewer raises `struct.error`, which nothing catches. */
  method ReadTable32(index: seq<byte>, count: int, withNames: bool) returns (r: Result<seq<Entry>>)
    ensures r.Ok? <==> TableFits(index, Clamp(count))
    ensures r.Ok? ==> r.value == Table32(index, Clamp(count), withNames)
    ensures r.Err? ==> r.error == STRUCT_ERROR
  {
    var fileTable: seq<Entry> := [];
    var i := 0;
    while i < count
      invariant 0 <= i <= Clamp(count)
      invariant TableFits(index, i)
      invariant |fileTable| == i
      invariant forall k :: 0 <= k < i ==> fileTable[k] == DecodeRecord(Record32(index, k), withNames)
    {
      var entry := Record32(index, i);
      if |entry| < 16 {
        return Err(STRUCT_ERROR);
      }
      fileTable := fileTable + [DecodeRecord(entry, withNames)];
      i := i + 1;
    }
    return Ok(fileTable);
  }

  /** A table fits exactly when its last record has its 16 field bytes. */
  lemma TableFitsLast(index: seq<byte>, n: nat)
    requires n > 0
    ensures TableFits(index, n) <==> |index| >= RECORD_32 * (n - 1) + 16
  {
    if |index| >= RECORD_32 * (n - 1) + 16 {
      forall i | 0 <= i < n ensures |Record32(index, i)| >= 16 {
        assert RECORD_32 * i <= RECORD_32 * (n - 1);
      }
    } else {
      assert |Record32(index, n - 1)| < 16;
    }
  }
}
