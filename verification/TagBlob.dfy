/** The record-oriented tag blob and the store that reads single tags from it by range. */
module TagBlob {
  import opened ModArith
  import opened ByteNumbers
  import opened Options

  const MAX_RECORDS := 0xFFFF_FFFF
  const INT64_LIMIT := 0x8000_0000_0000_0000

  // ------------------------------------------------------------------ the format

  /** Where tag i - 1 ends within the data section: the lengths of the first i tags. */
  function End(tags: seq<Bytes>, i: nat): nat
    requires i <= |tags|
  {
    if i == 0 then 0 else End(tags, i - 1) + |tags[i - 1]|
  }

  /** The first i entries of the offset table, 8 bytes each. */
  function OffsetTable(tags: seq<Bytes>, i: nat): (r: Bytes)
    requires i <= |tags|
    ensures |r| == 8 * i
  {
    if i == 0 then [] else OffsetTable(tags, i - 1) + FixedBytes(End(tags, i), 8)
  }

  /** The first i tags, one after the other. */
  function Data(tags: seq<Bytes>, i: nat): (r: Bytes)
    requires i <= |tags|
    ensures |r| == End(tags, i)
  {
    if i == 0 then [] else Data(tags, i - 1) + tags[i - 1]
  }

  function HeaderSize(n: nat): nat {
    4 + n * 8
  }

  function Header(tags: seq<Bytes>): (r: Bytes)
    ensures |r| == HeaderSize(|tags|)
  {
    FixedBytes(|tags|, 4) + OffsetTable(tags, |tags|)
  }

  /** Record count, end offsets, data. */
  function Blob(tags: seq<Bytes>): (r: Bytes)
    ensures |r| == HeaderSize(|tags|) + End(tags, |tags|)
  {
    Header(tags) + Data(tags, |tags|)
  }

  /** Fits the count field and the address space. */
  predicate Encodable(tags: seq<Bytes>) {
    |tags| <= MAX_RECORDS && |Blob(tags)| < INT64_LIMIT
  }

  lemma {:induction false} EndMono(tags: seq<Bytes>, i: nat, j: nat)
    requires i <= j <= |tags|
    ensures End(tags, i) <= End(tags, j)
  {
    if i < j { EndMono(tags, i, j - 1); }
  }

  // ------------------------------------------------------------------ encoding

  /** Overwrite the bytes at an offset. */
  method Put(out: array<bv8>, off: nat, b: Bytes)
    requires off + |b| <= out.Length
    modifies out
    ensures out[..] == Splice(old(out[..]), off, b)
  {
    for k := 0 to |b|
      invariant out[..off] == old(out[..off]) && out[off..off + k] == b[..k] && out[off + k..] == old(out[off + k..])
    {
      out[off + k] := b[k];
    }
    assert out[..] == out[..off] + out[off..off + |b|] + out[off + |b|..];
  }

  /** The table and the data written so far. */
  ghost predicate Filled(out: Bytes, tags: seq<Bytes>, i: nat)
    requires i <= |tags|
  {
    var h := HeaderSize(|tags|);
    && |out| == |Blob(tags)| && h + End(tags, i) <= |out| && 4 + 8 * i <= h
    && out[..4 + 8 * i] == FixedBytes(|tags|, 4) + OffsetTable(tags, i)
    && out[h..h + End(tags, i)] == Data(tags, i)
  }

  /** EncodeTagBlob: refused only for more records than the count field holds. */
  method EncodeTagBlob(tags: seq<Bytes>) returns (r: Option<Bytes>)
    requires |Blob(tags)| < INT64_LIMIT
    ensures r.Some? <==> |tags| < Pow(256, 4)
    ensures r.Some? ==> r.value == Blob(tags)
  {
    FieldSizes();
    hide FixedBytes, End, OffsetTable, Data, Blob, Filled, Splice, Pow;
    var n := |tags|;
    if n > MAX_RECORDS { return None; }
    var headerSize := 4 + n * 8;
    var dataSize := 0;
    EndStart(tags);
    for i := 0 to n
      invariant dataSize == End(tags, i)
    {
      EndStep(tags, i);
      dataSize := dataSize + |tags[i]|;
    }
    var out := new bv8[headerSize + dataSize];
    ghost var blank := out[..];
    Put(out, 0, FixedBytes(n, 4));
    SpliceParts(blank, 0, FixedBytes(n, 4), 0, 4);
    assert blank[0..0] + FixedBytes(n, 4) == FixedBytes(n, 4) && out[..][0..4] == out[..][..4];
    NothingFilled(out[..], tags);
    var cum := 0;
    var dataOff := headerSize;
    for i := 0 to n
      invariant cum == End(tags, i) && dataOff == headerSize + cum && Filled(out[..], tags, i)
    {
      EndStep(tags, i);
      cum := cum + |tags[i]|;
      PutRecord(out, tags, i, cum, dataOff);
      dataOff := dataOff + |tags[i]|;
    }
    AllFilled(out[..], tags);
    return Some(out[..]);
  }

  /** One table entry and one tag. */
  method PutRecord(out: array<bv8>, tags: seq<Bytes>, i: nat, cum: nat, dataOff: nat)
    requires i < |tags| && cum == End(tags, i + 1)
    requires dataOff == HeaderSize(|tags|) + End(tags, i)
    requires Filled(out[..], tags, i)
    modifies out
    ensures Filled(out[..], tags, i + 1)
  {
    hide FixedBytes, End, OffsetTable, Data, Blob, Filled, Splice;
    FilledBounds(out[..], tags, i);
    FilledStep(out[..], tags, i);
    Put(out, 4 + i * 8, FixedBytes(cum, 8));
    Put(out, dataOff, tags[i]);
  }

  lemma {:induction false} FilledBounds(out: Bytes, tags: seq<Bytes>, i: nat)
    requires i < |tags| && Filled(out, tags, i)
    ensures 4 + i * 8 + 8 <= |out|
    ensures HeaderSize(|tags|) + End(tags, i) + |tags[i]| <= |out|
  {
    hide FixedBytes, OffsetTable, Data, Header, Blob, End;
    EndStart(tags);
    EndStep(tags, i);
    EndMono(tags, i + 1, |tags|);
  }

  lemma {:induction false} EndStart(tags: seq<Bytes>)
    ensures End(tags, 0) == 0
    ensures |Blob(tags)| == HeaderSize(|tags|) + End(tags, |tags|)
  {
  }

  lemma {:induction false} EndStep(tags: seq<Bytes>, i: nat)
    requires i < |tags|
    ensures End(tags, i + 1) == End(tags, i) + |tags[i]|
  {
  }

  lemma {:induction false} NothingFilled(out: Bytes, tags: seq<Bytes>)
    requires |out| == |Blob(tags)| && out[..4] == FixedBytes(|tags|, 4)
    ensures Filled(out, tags, 0)
  {
  }

  function Splice(s: Bytes, at: nat, b: Bytes): (r: Bytes)
    requires at + |b| <= |s|
    ensures |r| == |s|
  {
    s[..at] + b + s[at + |b|..]
  }

  lemma {:induction false} SpliceParts(s: Bytes, at: nat, b: Bytes, lo: nat, hi: nat)
    requires at + |b| <= |s| && lo <= hi <= |s|
    ensures lo <= at && hi == at + |b| ==> Splice(s, at, b)[lo..hi] == s[lo..at] + b
    ensures hi <= at || lo >= at + |b| ==> Splice(s, at, b)[lo..hi] == s[lo..hi]
  {
  }

  lemma {:induction false} FilledStep(before: Bytes, tags: seq<Bytes>, i: nat)
    requires i < |tags| && Filled(before, tags, i)
    ensures 4 + i * 8 + 8 <= |before|
    ensures HeaderSize(|tags|) + End(tags, i) + |tags[i]| <= |before|
    ensures Filled(Splice(Splice(before, 4 + i * 8, FixedBytes(End(tags, i + 1), 8)),
                          HeaderSize(|tags|) + End(tags, i), tags[i]), tags, i + 1)
  {
    hide FixedBytes, Blob, Splice;
    FilledBounds(before, tags, i);
    EndStart(tags);
    var h, e := HeaderSize(|tags|), FixedBytes(End(tags, i + 1), 8);
    var off, middle := h + End(tags, i), Splice(before, 4 + i * 8, e);
    SpliceParts(before, 4 + i * 8, e, 0, 4 + i * 8 + 8);
    SpliceParts(before, 4 + i * 8, e, h, off);
    SpliceParts(middle, off, tags[i], 0, 4 + i * 8 + 8);
    SpliceParts(middle, off, tags[i], h, off + |tags[i]|);
  }

  lemma {:induction false} AllFilled(out: Bytes, tags: seq<Bytes>)
    requires Filled(out, tags, |tags|)
    ensures out == Blob(tags)
  {
    hide FixedBytes;
    var h := HeaderSize(|tags|);
    assert out == out[..h] + out[h..];
  }

  // ------------------------------------------------------------------ decoding

  /** A 64-bit field read as a signed number. */
  function Signed(x: nat): int {
    if x < INT64_LIMIT then x else x - 2 * INT64_LIMIT
  }

  /** The end offset in entry i of the table. */
  function Entry(data: Bytes, i: nat): int
    requires 4 + i * 8 + 8 <= |data|
  {
    Signed(SetBytes(data[4 + i * 8..4 + i * 8 + 8]))
  }

  function RecordCount(data: Bytes): nat
    requires |data| >= 4
  {
    SetBytes(data[0..4])
  }

  /** DecodeTagBlobHeader: fails exactly when the data is shorter than its own header. */
  method DecodeTagBlobHeader(data: Bytes) returns (r: Option<seq<int>>)
    ensures r.Some? <==> |data| >= 4 && |data| >= HeaderSize(RecordCount(data))
    ensures r.Some? ==> |r.value| == RecordCount(data) && forall i | 0 <= i < |r.value| :: r.value[i] == Entry(data, i)
  {
    hide SetBytes, Signed;
    if |data| < 4 { return None; }
    var n := SetBytes(data[0..4]);
    var need := 4 + n * 8;
    if |data| < need { return None; }
    var offsets := [];
    for i := 0 to n
      invariant |offsets| == i && forall k | 0 <= k < i :: offsets[k] == Entry(data, k)
    {
      offsets := offsets + [Entry(data, i)];
    }
    return Some(offsets);
  }

  /** TagByteRange. */
  function TagByteRange(offsets: seq<int>, i: nat): (int, int)
    requires i < |offsets|
  {
    if i == 0 then (0, offsets[0]) else (offsets[i - 1], offsets[i])
  }

  /** What a blob's header decodes to. */
  function Ends(tags: seq<Bytes>): (r: seq<int>)
    ensures |r| == |tags| && forall i | 0 <= i < |r| :: r[i] == End(tags, i + 1)
  {
    seq(|tags|, i requires 0 <= i < |tags| => End(tags, i + 1))
  }

  /** Entry i of the table of a blob, in any data that starts with its header. */
  lemma {:induction false} TableEntry(tags: seq<Bytes>, n: nat, i: nat)
    requires i < n <= |tags|
    ensures OffsetTable(tags, n)[8 * i..8 * i + 8] == FixedBytes(End(tags, i + 1), 8)
  {
    hide FixedBytes;
    if i == n - 1 {
      assert OffsetTable(tags, n)[8 * i..8 * i + 8] == FixedBytes(End(tags, n), 8);
    } else {
      TableEntry(tags, n - 1, i);
      assert OffsetTable(tags, n)[8 * i..8 * i + 8] == OffsetTable(tags, n - 1)[8 * i..8 * i + 8];
    }
  }

  lemma {:induction false} FieldSizes()
    ensures MAX_RECORDS + 1 == Pow(256, 4) && 2 * INT64_LIMIT == Pow(256, 8)
  {
    PowAdd(256, 2, 2);
    PowAdd(256, 4, 4);
    assert Pow(256, 2) == 65536;
  }

  /** Any read that covers the header of a blob decodes to its end offsets. */
  lemma {:induction false} HeaderDecodes(tags: seq<Bytes>, data: Bytes)
    requires Encodable(tags) && |data| >= HeaderSize(|tags|)
    requires data[..HeaderSize(|tags|)] == Header(tags)
    ensures RecordCount(data) == |tags|
    ensures forall i | 0 <= i < |tags| :: Entry(data, i) == End(tags, i + 1)
  {
    hide FixedBytes, SetBytes, Pow, End, OffsetTable;
    var h, table := HeaderSize(|tags|), OffsetTable(tags, |tags|);
    FieldSizes();
    FixedBytesValue(|tags|, 4);
    assert data[0..4] == data[..h][0..4] == FixedBytes(|tags|, 4);
    forall i | 0 <= i < |tags| ensures Entry(data, i) == End(tags, i + 1) {
      EndMono(tags, i + 1, |tags|);
      FixedBytesValue(End(tags, i + 1), 8);
      TableEntry(tags, |tags|, i);
      assert data[4 + i * 8..4 + i * 8 + 8] == data[..h][4 + i * 8..4 + i * 8 + 8] == table[8 * i..8 * i + 8];
    }
  }

  /** The bytes between two end offsets are the tag. */
  lemma {:induction false} TagBytes(tags: seq<Bytes>, n: nat, i: nat)
    requires i < n <= |tags|
    ensures 0 <= End(tags, i) <= End(tags, i + 1) <= End(tags, n)
    ensures Data(tags, n)[End(tags, i)..End(tags, i + 1)] == tags[i]
  {
    EndMono(tags, i + 1, n);
    if i < n - 1 {
      TagBytes(tags, n - 1, i);
      assert Data(tags, n)[End(tags, i)..End(tags, i + 1)] == Data(tags, n - 1)[End(tags, i)..End(tags, i + 1)];
    }
  }

  lemma {:induction false} TagInBlob(tags: seq<Bytes>, i: nat)
    requires i < |tags|
    ensures var h := HeaderSize(|tags|);
            h + End(tags, i) <= h + End(tags, i + 1) <= |Blob(tags)|
                && Blob(tags)[h + End(tags, i)..h + End(tags, i + 1)] == tags[i]
  {
    hide End, Header, Data;
    var h := HeaderSize(|tags|);
    TagBytes(tags, |tags|, i);
    assert Blob(tags)[h + End(tags, i)..h + End(tags, i + 1)] == Data(tags, |tags|)[End(tags, i)..End(tags, i + 1)];
  }

  /** Where record i starts within the data section. */
  function Start(data: Bytes, i: nat): int
    requires 4 + i * 8 <= |data|
  {
    if i == 0 then 0 else Entry(data, i - 1)
  }

  /** Long enough for its own header. */
  predicate HasHeader(data: Bytes) {
    |data| >= 4 && |data| >= HeaderSize(RecordCount(data))
  }

  /** The sum of a header size and a 64-bit offset, as 64 bits hold it. */
  function Wrap(x: int): int {
    if x < INT64_LIMIT then x else x - 2 * INT64_LIMIT
  }

  /** Where record i begins and ends in the data, as the decoder computes it. */
  function From(data: Bytes, i: nat): int
    requires HasHeader(data) && i < RecordCount(data)
  {
    Wrap(HeaderSize(RecordCount(data)) + Start(data, i))
  }

  function To(data: Bytes, i: nat): int
    requires HasHeader(data) && i < RecordCount(data)
  {
    Wrap(HeaderSize(RecordCount(data)) + Entry(data, i))
  }

  /** Record i can be cut out of the data. */
  predicate Sliceable(data: Bytes, i: nat)
    requires HasHeader(data) && i < RecordCount(data)
  {
    0 <= From(data, i) <= To(data, i) <= |data|
  }

  /** Record i is the first that cannot be cut out. */
  ghost predicate FirstBad(data: Bytes, i: nat)
    requires HasHeader(data) && i < RecordCount(data)
  {
    !Sliceable(data, i) && forall k | 0 <= k < i :: Sliceable(data, k)
  }

  ghost predicate RecordIs(data: Bytes, i: nat, tag: Bytes)
    requires HasHeader(data) && i < RecordCount(data)
  {
    Sliceable(data, i) && tag == data[From(data, i)..To(data, i)]
  }

  /** The tags of a blob. */
  ghost predicate IsDecoded(data: Bytes, tags: seq<Bytes>)
    requires HasHeader(data)
  {
    |tags| == RecordCount(data) && forall i | 0 <= i < |tags| :: RecordIs(data, i, tags[i])
  }

  /** The decoder's outcomes; slicing between offsets that are out of order fails at run time. */
  datatype Decoding = Decoded(tags: seq<Bytes>) | Malformed | Panic

  /** DecodeTagBlob on any data: the records, if all of them can be cut out; otherwise the first that cannot decides, an
      error if it ends past the data and a panic if its offsets are out of order. */
  method DecodeTagBlob(data: Bytes) returns (r: Decoding)
    ensures r.Decoded? ==> HasHeader(data) && IsDecoded(data, r.tags)
    ensures r.Malformed? <==>
            || !HasHeader(data)
            || exists i :: 0 <= i < RecordCount(data) && FirstBad(data, i) && To(data, i) > |data|
    ensures r.Panic? <==>
            && HasHeader(data)
            && exists i :: 0 <= i < RecordCount(data) && FirstBad(data, i) && To(data, i) <= |data|
  {
    hide Entry, RecordCount, Start, Sliceable;
    var header := DecodeTagBlobHeader(data);
    if header.None? { return Malformed; }
    var offsets := header.value;
    var headerSize := 4 + |offsets| * 8;
    var tags := [];
    for i := 0 to |offsets|
      invariant |tags| == i && forall k | 0 <= k < i :: RecordIs(data, k, tags[k])
      invariant forall k | 0 <= k < i :: Sliceable(data, k)
    {
      var (start, end) := TagByteRange(offsets, i);
      RangeOf(data, offsets, i);
      var from, to := Wrap(headerSize + start), Wrap(headerSize + end);
      if to > |data| {
        OnlyOneBad(data, i);
        return Malformed;
      }
      if !(0 <= from <= to) {
        OnlyOneBad(data, i);
        return Panic;
      }
      tags := tags + [data[from..to]];
    }
    AllSliceable(data, tags);
    return Decoded(tags);
  }

  lemma {:induction false} RangeOf(data: Bytes, offsets: seq<int>, i: nat)
    requires HasHeader(data) && i < |offsets| == RecordCount(data)
    requires forall k | 0 <= k < |offsets| :: offsets[k] == Entry(data, k)
    ensures TagByteRange(offsets, i) == (Start(data, i), Entry(data, i))
    ensures Sliceable(data, i) <==> 0 <= From(data, i) <= To(data, i) <= |data|
  {
    hide Entry;
  }

  /** The first bad record is unique. */
  lemma {:induction false} OnlyOneBad(data: Bytes, i: nat)
    requires HasHeader(data) && i < RecordCount(data)
    requires forall k | 0 <= k < i :: Sliceable(data, k)
    requires !(0 <= From(data, i) <= To(data, i) <= |data|)
    ensures FirstBad(data, i)
    ensures forall k | 0 <= k < RecordCount(data) && FirstBad(data, k) :: k == i
  {
    hide From, To;
  }

  lemma {:induction false} AllSliceable(data: Bytes, tags: seq<Bytes>)
    requires HasHeader(data) && IsDecoded(data, tags)
    ensures forall i | 0 <= i < RecordCount(data) :: !FirstBad(data, i)
  {
    hide From, To, RecordCount;
    forall i | 0 <= i < RecordCount(data) ensures !FirstBad(data, i) {
      assert RecordIs(data, i, tags[i]);
    }
  }

  /** Decoding inverts encoding: every record of a blob can be cut out, and the tags come back. */
  lemma {:induction false} RoundTrip(tags: seq<Bytes>)
    requires Encodable(tags)
    ensures HasHeader(Blob(tags)) && IsDecoded(Blob(tags), tags)
    ensures forall i | 0 <= i < RecordCount(Blob(tags)) :: !FirstBad(Blob(tags), i)
    ensures forall decoded | IsDecoded(Blob(tags), decoded) :: decoded == tags
  {
    hide End, Header, Data, Entry, RecordCount, Blob;
    var data := Blob(tags);
    BlobHeader(tags);
    HeaderDecodes(tags, data);
    EndStart(tags);
    forall i | 0 <= i < |tags| ensures RecordIs(data, i, tags[i]) {
      TagInBlob(tags, i);
    }
    AllSliceable(data, tags);
    forall decoded | IsDecoded(data, decoded) ensures decoded == tags {
      forall i | 0 <= i < |tags| ensures decoded[i] == tags[i] {
        assert RecordIs(data, i, decoded[i]);
      }
    }
  }

  /** The format in bytes: four for the record count, eight for the end of each record, then the records. */
  lemma {:induction false} BlobInBytes(tags: seq<Bytes>, i: nat)
    requires Encodable(tags) && i < |tags|
    ensures var blob, h := Blob(tags), 4 + 8 * |tags|;
            h <= |blob| && SetBytes(blob[0..4]) == |tags|
    ensures var blob, h := Blob(tags), 4 + 8 * |tags|;
            var start := if i == 0 then 0 else SetBytes(blob[8 * i - 4..8 * i + 4]);
            var end := SetBytes(blob[8 * i + 4..8 * i + 12]);
            && end == start + |tags[i]| && h + end <= |blob| && blob[h + start..h + end] == tags[i]
            && (i == |tags| - 1 ==> h + end == |blob|)
  {
    hide FixedBytes, SetBytes, Pow, End, OffsetTable, Data, Blob, Header;
    var blob, h := Blob(tags), HeaderSize(|tags|);
    BlobHeader(tags);
    HeaderDecodes(tags, blob);
    EndStart(tags);
    EndStep(tags, i);
    TagInBlob(tags, i);
    EndMono(tags, i, |tags|);
    EndMono(tags, i + 1, |tags|);
    UnsignedEntry(blob, i, End(tags, i + 1));
    if i > 0 { UnsignedEntry(blob, i - 1, End(tags, i)); }
  }

  /** A table entry that is a position in the data is its own 64-bit field. */
  lemma {:induction false} UnsignedEntry(data: Bytes, i: nat, end: nat)
    requires 4 + i * 8 + 8 <= |data| && Entry(data, i) == end
    ensures SetBytes(data[8 * i + 4..8 * i + 12]) == end
  {
    hide SetBytes, Pow;
    SetBytesBound(data[4 + i * 8..4 + i * 8 + 8]);
    FieldSizes();
  }

  /** The first record in bytes. Its end, after the header, past what 63 bits hold is a run-time failure; past the data
      it is an error; otherwise the record is what lies between. */
  lemma {:induction false} FirstRecord(data: Bytes)
    requires |data| >= 12 && |data| >= 4 + 8 * SetBytes(data[0..4]) && SetBytes(data[0..4]) >= 1
    ensures HasHeader(data) && RecordCount(data) >= 1
    ensures var h, end := 4 + 8 * SetBytes(data[0..4]), SetBytes(data[4..12]);
            if h + end >= Pow(2, 63) then FirstBad(data, 0) && To(data, 0) <= |data|
            else if h + end > |data| then FirstBad(data, 0) && To(data, 0) > |data|
            else forall tag :: RecordIs(data, 0, tag) <==> tag == data[h..h + end]
  {
    hide SetBytes, Pow;
    SetBytesBound(data[0..4]);
    SetBytesBound(data[4..12]);
    FieldSizes();
    PowMul(2, 8, 8);
    PowTwoEight();
    PowAdd(2, 63, 1);
    assert Pow(2, 1) == 2 by { PowTwo(); }
  }

  lemma {:induction false} PowTwo()
    ensures Pow(2, 1) == 2
  {
    PowZero(2);
  }

  /** An offset out of order fails at run time unless an earlier record ends past the data: two records of which the
      first ends after the second. */
  lemma {:induction false} DisorderPanics(data: Bytes)
    requires HasHeader(data) && RecordCount(data) == 2
    requires 0 <= Entry(data, 1) < Entry(data, 0) && HeaderSize(2) + Entry(data, 0) < INT64_LIMIT
    ensures if HeaderSize(2) + Entry(data, 0) > |data| then FirstBad(data, 0) && To(data, 0) > |data|
            else FirstBad(data, 1) && To(data, 1) <= |data|
  {
    hide Entry;
  }

  lemma {:induction false} BlobHeader(tags: seq<Bytes>)
    ensures HeaderSize(|tags|) <= |Blob(tags)|
    ensures Blob(tags)[..HeaderSize(|tags|)] == Header(tags)
  {
    hide Header, Data;
  }
}
