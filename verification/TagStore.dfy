/** Reading single tags of a blob by byte range, with the header fetched once and cached. */
module TagStore {
  import opened ByteNumbers
  import opened Options
  import opened TagBlob

  /** A range read, clamped at the end of what is stored. */
  function Clamped(blob: Bytes, offset: nat, length: nat): Bytes {
    var start := if offset > |blob| then |blob| else offset;
    var end := if offset + length > |blob| then |blob| else offset + length;
    blob[start..end]
  }

  /** The remote blob; a read may fail. It keeps a log of the ranges asked for. */
  class Fetcher {
    const blob: Bytes
    const fails: nat -> bool
    var log: seq<(nat, nat)>

    constructor (blob: Bytes, fails: nat -> bool)
      ensures this.blob == blob && this.fails == fails && log == []
    {
      this.blob := blob;
      this.fails := fails;
      log := [];
    }

    method Fetch(offset: nat, length: nat) returns (r: Option<Bytes>)
      modifies this
      ensures log == old(log) + [(offset, length)]
      ensures r == if fails(|old(log)|) then None else Some(Clamped(blob, offset, length))
    {
      r := if fails(|log|) then None else Some(Clamped(blob, offset, length));
      log := log + [(offset, length)];
    }
  }

  // ------------------------------------------------------------------ what a call does

  /** Whether the header is cached, and the ranges read so far. */
  datatype Reader = Reader(cached: bool, log: seq<(nat, nat)>)

  /** The header is read at the start of the blob, sized for the largest partition. */
  function HeaderRange(maxRecords: nat): (nat, nat) {
    (0, HeaderSize(maxRecords))
  }

  function TagRange(tags: seq<Bytes>, i: nat): (nat, nat)
    requires i < |tags|
  {
    (HeaderSize(|tags|) + End(tags, i), |tags[i]|)
  }

  /** The state after the header is there, if it was or could be read. */
  function WithHeader(maxRecords: nat, fails: nat -> bool, s: Reader): Reader {
    if s.cached then s else Reader(!fails(|s.log|), s.log + [HeaderRange(maxRecords)])
  }

  /** One call of Tag: the header on first use, then the one tag; errors for a failed read and for an index out of
      range. */
  function Call(tags: seq<Bytes>, maxRecords: nat, fails: nat -> bool, s: Reader, i: int): (Reader, Option<Bytes>) {
    var t := WithHeader(maxRecords, fails, s);
    if !t.cached || i < 0 || i >= |tags| then (t, None)
    else (Reader(true, t.log + [TagRange(tags, i)]), if fails(|t.log|) then None else Some(tags[i]))
  }

  /** A sequence of calls and their results. */
  function Calls(tags: seq<Bytes>, maxRecords: nat, fails: nat -> bool, s: Reader, indices: seq<int>): (Reader,
                 seq<Option<Bytes>>) {
    if indices == [] then (s, [])
    else
      var (t, rest) := Calls(tags, maxRecords, fails, s, indices[..|indices| - 1]);
      var (u, r) := Call(tags, maxRecords, fails, t, indices[|indices| - 1]);
      (u, rest + [r])
  }

  function HeaderReads(log: seq<(nat, nat)>): nat {
    if log == [] then 0 else HeaderReads(log[..|log| - 1]) + if log[|log| - 1].0 == 0 then 1 else 0
  }

  /** What the dense list would give. */
  function Dense(tags: seq<Bytes>, i: int): Option<Bytes> {
    if 0 <= i < |tags| then Some(tags[i]) else None
  }

  ghost predicate NeverFails(fails: nat -> bool) {
    forall k: nat :: !fails(k)
  }

  lemma {:induction false} AppendRead(log: seq<(nat, nat)>, range: (nat, nat))
    ensures HeaderReads(log + [range]) == HeaderReads(log) + if range.0 == 0 then 1 else 0
  {
    assert (log + [range])[..|log|] == log;
  }

  /** The header was read once if there were calls at all, and one range for each tag delivered. */
  ghost predicate Thrifty(s: Reader, called: bool, delivered: nat) {
    s.cached == called && HeaderReads(s.log) == (if called then 1 else 0) && |s.log| == HeaderReads(s.log) + delivered
  }

  lemma {:induction false} OneCall(tags: seq<Bytes>, maxRecords: nat, fails: nat -> bool, s: Reader, called: bool,
                                   delivered: nat, i: int)
    requires NeverFails(fails) && Thrifty(s, called, delivered)
    ensures var (u, r) := Call(tags, maxRecords, fails, s, i);
            r == Dense(tags, i) && Thrifty(u, true, delivered + if 0 <= i < |tags| then 1 else 0)
  {
    hide HeaderReads, End;
    var t := WithHeader(maxRecords, fails, s);
    AppendRead(s.log, HeaderRange(maxRecords));
    if 0 <= i < |tags| { AppendRead(t.log, TagRange(tags, i)); }
  }

  /** While reads succeed: any sequence of calls returns the dense list's tags, errors exactly out of range, reads the
      header once, and reads one range for each tag delivered. */
  lemma {:induction false} CallsAreDense(tags: seq<Bytes>, maxRecords: nat, fails: nat -> bool, indices: seq<int>)
    requires NeverFails(fails)
    ensures var (s, results) := Calls(tags, maxRecords, fails, Reader(false, []), indices);
      && |results| == |indices| && (forall k | 0 <= k < |indices| :: results[k] == Dense(tags, indices[k]))
      && Thrifty(s, indices != [], InRange(tags, indices))
  {
    hide Thrifty, Call, Dense;
    if indices == [] {
      NothingRead();
    } else {
      var front, last := indices[..|indices| - 1], indices[|indices| - 1];
      CallsAreDense(tags, maxRecords, fails, front);
      var (t, rest) := Calls(tags, maxRecords, fails, Reader(false, []), front);
      OneCall(tags, maxRecords, fails, t, front != [], InRange(tags, front), last);
    }
  }

  lemma {:induction false} NothingRead()
    ensures Thrifty(Reader(false, []), false, 0)
  {
  }

  /** How many of the indices name a tag. */
  function InRange(tags: seq<Bytes>, indices: seq<int>): nat {
    if indices == [] then 0
    else InRange(tags, indices[..|indices| - 1]) + if 0 <= indices[|indices| - 1] < |tags| then 1 else 0
  }

  /** Whatever fails: a tag that is delivered is the right one. */
  lemma {:induction false} NeverWrong(tags: seq<Bytes>, maxRecords: nat, fails: nat -> bool, s: Reader,
                                      indices: seq<int>, k: nat)
    requires k < |indices|
    ensures var (_, results) := Calls(tags, maxRecords, fails, s, indices);
            |results| == |indices| && (results[k] == None || results[k] == Dense(tags, indices[k]))
  {
    CallCount(tags, maxRecords, fails, s, indices[..|indices| - 1]);
    if k < |indices| - 1 {
      NeverWrong(tags, maxRecords, fails, s, indices[..|indices| - 1], k);
    }
  }

  lemma {:induction false} CallCount(tags: seq<Bytes>, maxRecords: nat, fails: nat -> bool, s: Reader,
                                     indices: seq<int>)
    ensures |Calls(tags, maxRecords, fails, s, indices).1| == |indices|
  {
    if indices != [] { CallCount(tags, maxRecords, fails, s, indices[..|indices| - 1]); }
  }

  /** Which reads a call makes, and what it does when one fails: first the header, as long as the largest partition
      needs, unless it is there already; if that fails it stays absent. Then the bytes of the tag alone; if that fails
      the header stays. An index out of range reads no tag. */
  lemma {:induction false} ReadsExactly(tags: seq<Bytes>, maxRecords: nat, fails: nat -> bool, s: Reader, i: int)
    returns (header: seq<(nat, nat)>, start: nat)
    requires Encodable(tags)
    ensures header == if s.cached then [] else [(0, 4 + 8 * maxRecords)]
    ensures var (u, r) := Call(tags, maxRecords, fails, s, i);
            if !s.cached && fails(|s.log|) then u == Reader(false, s.log + header) && r == None
            else if i < 0 || i >= |tags| then u == Reader(true, s.log + header) && r == None
            else
              && start + |tags[i]| <= |Blob(tags)| && Blob(tags)[start..start + |tags[i]|] == tags[i]
              && u == Reader(true, s.log + header + [(start, |tags[i]|)])
              && r == if fails(|s.log + header|) then None else Some(tags[i])
  {
    hide Blob, End;
    header, start := if s.cached then [] else [(0, 4 + 8 * maxRecords)], 0;
    if 0 <= i < |tags| {
      start := HeaderSize(|tags|) + End(tags, i);
      TagInBlob(tags, i);
      EndStep(tags, i);
    }
  }

  // ------------------------------------------------------------------ the store

  class BlobTagStore {
    const fetch: Fetcher
    const maxRecords: nat
    ghost const tags: seq<Bytes>
    var offsets: Option<seq<int>>
    var headerSize: nat

    /** The blob encodes the tags, and what is cached is its header. */
    ghost predicate Valid()
      reads this
    {
      && Encodable(tags) && fetch.blob == Blob(tags) && |tags| <= maxRecords
      && (offsets.Some? ==> offsets.value == Ends(tags) && headerSize == HeaderSize(|tags|))
    }

    ghost function State(): Reader
      reads this, fetch
    {
      Reader(offsets.Some?, fetch.log)
    }

    constructor (fetch: Fetcher, maxRecords: nat, ghost tags: seq<Bytes>)
      requires Encodable(tags) && fetch.blob == Blob(tags) && |tags| <= maxRecords
      ensures Valid() && this.fetch == fetch && this.maxRecords == maxRecords
      ensures this.tags == tags && offsets == None
    {
      this.fetch := fetch;
      this.maxRecords := maxRecords;
      this.tags := tags;
      offsets := None;
      headerSize := 0;
    }

    method EnsureHeader() returns (ok: bool)
      requires Valid()
      modifies this`offsets, this`headerSize, fetch
      ensures Valid()
      ensures State() == WithHeader(maxRecords, fetch.fails, old(State()))
      ensures ok == offsets.Some?
    {
      if offsets.Some? { return true; }
      var headerData := fetch.Fetch(0, HeaderSize(maxRecords));
      if headerData.None? { return false; }
      HeaderRead(tags, maxRecords, headerData.value);
      var decoded := DecodeTagBlobHeader(headerData.value);
      offsets := decoded;
      headerSize := 4 + |decoded.value| * 8;
      assert decoded.value == Ends(tags);
      return true;
    }

    /** Tag: one call of the abstract reader. */
    method Tag(i: int) returns (r: Option<Bytes>)
      requires Valid()
      modifies this`offsets, this`headerSize, fetch
      ensures Valid()
      ensures (State(), r) == Call(tags, maxRecords, fetch.fails, old(State()), i)
    {
      hide Blob, Header, Data, OffsetTable, Entry, RecordCount, End;
      var ok := EnsureHeader();
      if !ok { return None; }
      if i < 0 || i >= |offsets.value| { return None; }
      RangeOfTag(tags, i);
      var (start, end) := TagByteRange(offsets.value, i);
      var data := fetch.Fetch(headerSize + start, end - start);
      TagRead(tags, i);
      return data;
    }
  }

  /** The clamped header read covers the header and decodes to the end offsets. */
  lemma {:induction false} HeaderRead(tags: seq<Bytes>, maxRecords: nat, data: Bytes)
    requires Encodable(tags) && |tags| <= maxRecords
    requires data == Clamped(Blob(tags), 0, HeaderSize(maxRecords))
    ensures |data| >= 4 && RecordCount(data) == |tags| && |data| >= HeaderSize(|tags|)
    ensures forall i | 0 <= i < |tags| :: Entry(data, i) == Ends(tags)[i]
  {
    hide Blob, Header, Entry, RecordCount;
    BlobHeader(tags);
    assert data[..HeaderSize(|tags|)] == Blob(tags)[..HeaderSize(|tags|)];
    HeaderDecodes(tags, data);
  }

  lemma {:induction false} RangeOfTag(tags: seq<Bytes>, i: nat)
    requires i < |tags|
    ensures var (start, end) := TagByteRange(Ends(tags), i); 0 <= start == End(tags, i) && end == start + |tags[i]|
  {
  }

  lemma {:induction false} TagRead(tags: seq<Bytes>, i: nat)
    requires i < |tags|
    ensures Clamped(Blob(tags), HeaderSize(|tags|) + End(tags, i), |tags[i]|) == tags[i]
  {
    hide Blob;
    TagInBlob(tags, i);
    EndStep(tags, i);
  }
}
