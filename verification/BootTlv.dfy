/**
  The type-length-value area through which the boot loader hands data to the runtime: its byte
  format, the writer that appends entries, and the reader that copies out one consumer's entries.
*/
module BootTlv {
  import opened Options
  import opened Words

  const UINT16_MAX: nat := 0xFFFF
  const MAGIC: nat := 0x2016
  const HEADER_SIZE: nat := 4
  const ENTRY_HEADER_SIZE: nat := 4

  const MAJOR_IAS: nat := 1
  const INITIAL_ATTESTATION: nat := 261

  // ---------------------------------------------------------------- tlv_type: major(4) minor(12)

  function SetType(major: nat, minor: nat): (t: nat)
    ensures t <= UINT16_MAX
  {
    (major % 16) * 4096 + minor % 4096
  }

  function GetMajor(t: nat): nat { t / 4096 }

  function GetMinor(t: nat): nat { t % 4096 }

  predicate InRange(major: nat, minor: nat) { major < 16 && minor < 4096 }

  function SetIasMinor(swModule: nat, claim: nat): nat
    requires claim < 64
  {
    swModule * 64 + claim
  }

  // The type fields read back exactly when they fit their bits.
  lemma TypeFieldsRoundTrip(major: nat, minor: nat)
    ensures GetMajor(SetType(major, minor)) == major && GetMinor(SetType(major, minor)) == minor <==> InRange(major, minor)
  {
  }

  // An attestation type gives back its software module and claim.
  lemma IasFieldsRoundTrip(swModule: nat, claim: nat)
    requires swModule < 64 && claim < 64
    ensures var t := SetType(MAJOR_IAS, SetIasMinor(swModule, claim));
            GetMajor(t) == MAJOR_IAS && GetMinor(t) / 64 == swModule && GetMinor(t) % 64 == claim
  {
    TypeFieldsRoundTrip(MAJOR_IAS, SetIasMinor(swModule, claim));
  }

  // ---------------------------------------------------------------- the format

  datatype Entry = Entry(typ: nat, data: seq<byte>)
  {
    function Len(): nat { ENTRY_HEADER_SIZE + |data| }

    predicate Fits() { typ <= UINT16_MAX && Len() <= UINT16_MAX }
  }

  function Put16(n: nat): (s: seq<byte>)
    ensures |s| == 2
  {
    [n % 256, n / 256 % 256]
  }

  function Get16(s: seq<byte>, at: nat): nat
    requires at + 2 <= |s|
  {
    var lo: int, hi: int := s[at], s[at + 1];
    lo + 256 * hi
  }

  lemma Get16Put16(s: seq<byte>, at: nat, n: nat)
    requires at + 2 <= |s| && n <= UINT16_MAX && s[at] == Put16(n)[0] && s[at + 1] == Put16(n)[1]
    ensures Get16(s, at) == n
  {
  }

  function EncodeEntry(e: Entry): (s: seq<byte>)
    ensures |s| == e.Len()
  {
    Put16(e.typ) + Put16(e.Len()) + e.data
  }

  function EncodeEntries(es: seq<Entry>): (s: seq<byte>)
    ensures |s| == EntriesLen(es)
  {
    if es == [] then [] else EncodeEntries(es[..|es| - 1]) + EncodeEntry(es[|es| - 1])
  }

  function EntriesLen(es: seq<Entry>): nat {
    if es == [] then 0 else EntriesLen(es[..|es| - 1]) + es[|es| - 1].Len()
  }

  function AreaLen(es: seq<Entry>): nat { HEADER_SIZE + EntriesLen(es) }

  function EncodeArea(es: seq<Entry>): (s: seq<byte>)
    ensures |s| == AreaLen(es)
  {
    Put16(MAGIC) + Put16(AreaLen(es)) + EncodeEntries(es)
  }

  // An independent reading of the format: the entries between two offsets, if well formed.
  function DecodeEntries(s: seq<byte>, at: nat, end: nat): Option<seq<Entry>>
    requires at <= end <= |s|
    decreases end - at
  {
    if at == end then Some([])
    else if at + ENTRY_HEADER_SIZE > end then None
    else
      var len := Get16(s, at + 2);
      if len < ENTRY_HEADER_SIZE || at + len > end then None
      else
        match DecodeEntries(s, at + len, end)
        case None => None
        case Some(rest) => Some([Entry(Get16(s, at), s[at + ENTRY_HEADER_SIZE..at + len])] + rest)
  }

  function DecodeArea(s: seq<byte>): Option<seq<Entry>> {
    if |s| < HEADER_SIZE || Get16(s, 0) != MAGIC then None
    else
      var end := Get16(s, 2);
      if end < HEADER_SIZE || end > |s| then None else DecodeEntries(s, HEADER_SIZE, end)
  }

  ghost predicate AllFit(es: seq<Entry>) {
    forall e :: e in es ==> e.Fits()
  }

  ghost predicate EntryStandsAt(s: seq<byte>, at: nat, end: nat, e: Entry) {
    at + e.Len() == end <= |s| && s[at..end] == EncodeEntry(e)
  }

  // An encoded entry found at an offset reads back.
  lemma EntryReadsBack(s: seq<byte>, at: nat, end: nat, e: Entry)
    requires e.Fits() && EntryStandsAt(s, at, end, e)
    ensures Get16(s, at) == e.typ && Get16(s, at + 2) == e.Len() && s[at + ENTRY_HEADER_SIZE..end] == e.data
  {
    var enc := s[at..end];
    assert enc[0] == s[at] && enc[1] == s[at + 1] && enc[2] == s[at + 2] && enc[3] == s[at + 3];
    Get16Put16(s, at, e.typ);
    Get16Put16(s, at + 2, e.Len());
    assert s[at + ENTRY_HEADER_SIZE..end] == enc[ENTRY_HEADER_SIZE..] == e.data;
  }

  lemma EncodeSnoc(es: seq<Entry>, e: Entry)
    ensures EntriesLen(es + [e]) == EntriesLen(es) + e.Len()
    ensures EncodeEntries(es + [e]) == EncodeEntries(es) + EncodeEntry(e)
  {
    assert (es + [e])[..|es|] == es;
  }

  lemma {:induction false} EncodePrefix(es: seq<Entry>, k: nat)
    requires k <= |es|
    ensures EncodeEntries(es[..k]) <= EncodeEntries(es) && EntriesLen(es[..k]) <= EntriesLen(es)
    decreases |es|
  {
    if k == |es| {
      assert es[..k] == es;
    } else {
      EncodePrefix(es[..|es| - 1], k);
      assert es[..|es| - 1][..k] == es[..k];
    }
  }

  lemma SliceAt(s: seq<byte>, header: seq<byte>, body: seq<byte>, head: seq<byte>, code: seq<byte>, at: nat, end: nat)
    requires header + body <= s && head + code <= body && at == |header| + |head| && end == at + |code|
    ensures end <= |s| && s[at..end] == code
  {
    assert forall i :: 0 <= i < |code| ==>
      s[at + i] == (header + body)[at + i] == body[|head| + i] == (head + code)[|head| + i] == code[i];
  }

  // Where entry k lies in memory that starts with an encoded area
  lemma EntryAt(s: seq<byte>, es: seq<Entry>, k: nat, at: nat, end: nat)
    requires k < |es| && EncodeArea(es) <= s && at == AreaLen(es[..k]) && end == AreaLen(es[..k + 1])
    ensures EntryStandsAt(s, at, end, es[k]) && end <= AreaLen(es)
  {
    EncodePrefix(es, k + 1);
    assert es[..k + 1] == es[..k] + [es[k]];
    EncodeSnoc(es[..k], es[k]);
    SliceAt(s, Put16(MAGIC) + Put16(AreaLen(es)), EncodeEntries(es), EncodeEntries(es[..k]), EncodeEntry(es[k]), at, end);
  }

  lemma DecodeStep(s: seq<byte>, at: nat, next: nat, end: nat, e: Entry, rest: seq<Entry>)
    requires e.Fits() && EntryStandsAt(s, at, next, e) && next <= end <= |s|
    requires DecodeEntries(s, next, end) == Some(rest)
    ensures DecodeEntries(s, at, end) == Some([e] + rest)
  {
    EntryReadsBack(s, at, next, e);
  }

  lemma {:induction false} DecodeFrom(s: seq<byte>, es: seq<Entry>, k: nat, at: nat, end: nat)
    requires AllFit(es) && k <= |es| && EncodeArea(es) <= s && at == AreaLen(es[..k]) && end == AreaLen(es)
    ensures at <= end && DecodeEntries(s, at, end) == Some(es[k..])
    decreases |es| - k
  {
    if k == |es| {
      assert es[..k] == es && es[k..] == [];
    } else {
      assert es[k..] == [es[k]] + es[k + 1..] && es[k] in es;
      var next := AreaLen(es[..k + 1]);
      EntryAt(s, es, k, at, next);
      DecodeFrom(s, es, k + 1, next, end);
      DecodeStep(s, at, next, end, es[k], es[k + 1..]);
    }
  }

  /** Memory that starts with the encoding of a list of entries decodes to exactly that list. */
  lemma DecodeEncodedArea(s: seq<byte>, es: seq<Entry>)
    requires AllFit(es) && AreaLen(es) <= UINT16_MAX && EncodeArea(es) <= s
    ensures DecodeArea(s) == Some(es)
  {
    HeaderReadsBack(s, es);
    assert es[..0] == [] && es[0..] == es;
    DecodeFrom(s, es, 0, HEADER_SIZE, AreaLen(es));
  }

  lemma HeaderReadsBack(s: seq<byte>, es: seq<Entry>)
    requires AreaLen(es) <= UINT16_MAX && EncodeArea(es) <= s
    ensures Get16(s, 0) == MAGIC && Get16(s, 2) == AreaLen(es)
  {
    assert forall i :: 0 <= i < HEADER_SIZE ==> s[i] == EncodeArea(es)[i];
    Get16Put16(s, 0, MAGIC);
    Get16Put16(s, 2, AreaLen(es));
  }

  // ---------------------------------------------------------------- adding entries

  // Overrun: the C code reports success, after writing past the area.
  datatype AddStatus = Ok | Overflow | Overwrite | GenError | Overrun

  // The duplicate scan
  predicate Found(es: seq<Entry>, major: nat, minor: nat) {
    exists e :: e in es && GetMajor(e.typ) == major && GetMinor(e.typ) == minor
  }

  // The checks of boot_add_data_to_shared_area; the entry length is a uint16_t
  function Checked(es: seq<Entry>, areaSize: nat, major: nat, minor: nat, size: nat): AddStatus {
    var len := (ENTRY_HEADER_SIZE + size) % 0x1_0000;
    if Found(es, major, minor) then Overwrite
    else if AreaLen(es) + len > UINT16_MAX then GenError
    else if AreaLen(es) + len > areaSize then Overflow
    else Ok
  }

  // boot_add_data_to_shared_area on the list of entries of an area of at most 65535 bytes
  function Add(es: seq<Entry>, areaSize: nat, major: nat, minor: nat, data: seq<byte>): (AddStatus, seq<Entry>) {
    var st := Checked(es, areaSize, major, minor, |data|);
    if st != Ok then (st, es)
    else if ENTRY_HEADER_SIZE + |data| > UINT16_MAX then (Overrun, es)
    else (Ok, es + [Entry(SetType(major, minor), data)])
  }

  ghost predicate DistinctTypes(es: seq<Entry>) {
    forall i, j :: 0 <= i < j < |es| ==> es[i].typ != es[j].typ
  }

  // The scan finds an earlier entry of the same type exactly when the requested fields are in range.
  lemma FoundIffSameType(es: seq<Entry>, major: nat, minor: nat)
    requires AllFit(es)
    ensures Found(es, major, minor) <==> InRange(major, minor) && exists e :: e in es && e.typ == SetType(major, minor)
  {
    if Found(es, major, minor) {
      var e :| e in es && GetMajor(e.typ) == major && GetMinor(e.typ) == minor;
      assert e.typ == SetType(major, minor);
    }
  }

  /** A successful addition keeps the types distinct exactly if its type was in range, so that the scan
      could compare it, or was new anyway. */
  lemma AddKeepsTypesDistinct(es: seq<Entry>, areaSize: nat, major: nat, minor: nat, data: seq<byte>)
    requires AllFit(es) && DistinctTypes(es) && Add(es, areaSize, major, minor, data).0 == Ok
    ensures DistinctTypes(Add(es, areaSize, major, minor, data).1)
       <==> InRange(major, minor) || forall e :: e in es ==> e.typ != SetType(major, minor)
  {
    FoundIffSameType(es, major, minor);
    var es' := Add(es, areaSize, major, minor, data).1;
    if exists e :: e in es && e.typ == SetType(major, minor) {
      var k :| 0 <= k < |es| && es[k].typ == SetType(major, minor);
      assert es'[k].typ == es'[|es|].typ;
    }
  }

  lemma OneEntry(e: Entry)
    ensures AreaLen([e]) == HEADER_SIZE + e.Len()
  {
    assert [e][..0] == [] && [e][0] == e;
    assert EntriesLen([e]) == EntriesLen([e][..0]) + [e][0].Len();
  }

  // An out-of-range minor number gets past the scan and repeats a type.
  lemma OutOfRangeTypeRepeats()
    ensures var es := [Entry(SetType(1, 0), [])];
            var r := Add(es, 1024, 1, 4096, []);
            r.0 == Ok && !DistinctTypes(r.1)
  {
    var e := Entry(SetType(1, 0), []);
    assert SetType(1, 0) == SetType(1, 4096) == 4096;
    OneEntry(e);
    assert !Found([e], 1, 4096);
    var es := [e] + [Entry(SetType(1, 4096), [])];
    assert es[0].typ == es[1].typ;
  }

  /** When the checks accept an addition, the bytes it writes lie inside the area exactly if the entry length
      fits its 16-bit field; a longer entry is measured by its truncated length. */
  lemma AcceptedAdditionFits(es: seq<Entry>, areaSize: nat, major: nat, minor: nat, size: nat)
    requires areaSize <= UINT16_MAX && Checked(es, areaSize, major, minor, size) == Ok
    ensures AreaLen(es) + ENTRY_HEADER_SIZE + size <= areaSize <==> ENTRY_HEADER_SIZE + size <= UINT16_MAX
  {
  }

  /** An item for which they do not: 65532 bytes with their header measure 65536, that is 0 in 16 bits. */
  lemma OversizedItemIsAccepted()
    ensures Checked([], 1024, 1, 0, 65532) == Ok && AreaLen([]) + ENTRY_HEADER_SIZE + 65532 > 1024
  {
  }

  lemma AcceptedAdditionLen(es: seq<Entry>, areaSize: nat, major: nat, minor: nat, data: seq<byte>)
    requires Add(es, areaSize, major, minor, data).0 == Ok
    ensures AreaLen(es) + ENTRY_HEADER_SIZE + |data| <= areaSize
    ensures AreaLen(es) + ENTRY_HEADER_SIZE + |data| <= UINT16_MAX
  {
  }

  datatype Addition = Addition(major: nat, minor: nat, data: seq<byte>)
  {
    predicate SizeFits() { ENTRY_HEADER_SIZE + |data| <= UINT16_MAX }

    predicate InBounds() { InRange(major, minor) && SizeFits() }
  }

  // The entries after a sequence of additions to an empty area
  function AddAll(adds: seq<Addition>, areaSize: nat): seq<Entry> {
    if adds == [] then []
    else
      var a := adds[|adds| - 1];
      Add(AddAll(adds[..|adds| - 1], areaSize), areaSize, a.major, a.minor, a.data).1
  }

  // What every state of the area satisfies
  ghost predicate Proper(es: seq<Entry>, areaSize: nat) {
    AllFit(es) && DistinctTypes(es) && AreaLen(es) <= areaSize && AreaLen(es) <= UINT16_MAX
  }

  lemma AddKeepsProper(es: seq<Entry>, areaSize: nat, a: Addition)
    requires Proper(es, areaSize) && a.InBounds()
    ensures Proper(Add(es, areaSize, a.major, a.minor, a.data).1, areaSize)
  {
    var r := Add(es, areaSize, a.major, a.minor, a.data);
    if r.0 == Ok {
      var e := Entry(SetType(a.major, a.minor), a.data);
      assert DistinctTypes(es + [e]) by { AddKeepsTypesDistinct(es, areaSize, a.major, a.minor, a.data); }
      EncodeSnoc(es, e);
      AcceptedAdditionLen(es, areaSize, a.major, a.minor, a.data);
      assert r.1 == es + [e] && e.Fits();
    }
  }

  /** After any sequence of additions in bounds the accepted entries have pairwise distinct types and fit the
      area together with its header. */
  lemma {:induction false} AdditionsAreProper(adds: seq<Addition>, areaSize: nat)
    requires HEADER_SIZE <= areaSize && forall i :: 0 <= i < |adds| ==> adds[i].InBounds()
    ensures Proper(AddAll(adds, areaSize), areaSize)
    decreases |adds|
  {
    if adds != [] {
      AdditionsAreProper(adds[..|adds| - 1], areaSize);
      AddKeepsProper(AddAll(adds[..|adds| - 1], areaSize), areaSize, adds[|adds| - 1]);
    }
  }

  // ---------------------------------------------------------------- reading one consumer's entries

  // The entries addressed to a consumer, in order
  function Select(es: seq<Entry>, major: nat): seq<Entry> {
    if es == [] then []
    else
      var e := es[|es| - 1];
      Select(es[..|es| - 1], major) + if GetMajor(e.typ) == major then [e] else []
  }

  // How many entries, from the first on, fit a buffer together with the header
  function Fitting(es: seq<Entry>, bufSize: nat): nat {
    if es == [] || AreaLen(es) <= bufSize then |es| else Fitting(es[..|es| - 1], bufSize)
  }

  lemma {:induction false} SelectPrefix(es: seq<Entry>, k: nat, major: nat)
    requires k <= |es|
    ensures Select(es[..k], major) <= Select(es, major)
    decreases |es|
  {
    if k == |es| {
      assert es[..k] == es;
    } else {
      SelectPrefix(es[..|es| - 1], k, major);
      assert es[..|es| - 1][..k] == es[..k];
    }
  }

  /** Fitting is the longest prefix that fits: it fits itself, and one more entry would not. */
  lemma {:induction false} FittingIsLongest(es: seq<Entry>, bufSize: nat)
    requires HEADER_SIZE <= bufSize
    ensures Fitting(es, bufSize) <= |es| && AreaLen(es[..Fitting(es, bufSize)]) <= bufSize
    ensures forall k :: Fitting(es, bufSize) < k <= |es| ==> AreaLen(es[..k]) > bufSize
    ensures Fitting(es, bufSize) == |es| <==> AreaLen(es) <= bufSize
    decreases |es|
  {
    assert es[..|es|] == es;
    if es != [] && AreaLen(es) > bufSize {
      var init := es[..|es| - 1];
      FittingIsLongest(init, bufSize);
      forall k | 0 <= k <= |init| ensures init[..k] == es[..k] {
      }
    }
  }

  lemma FittingIs(es: seq<Entry>, bufSize: nat, n: nat)
    requires HEADER_SIZE <= bufSize && n <= |es| && AreaLen(es[..n]) <= bufSize
    requires n < |es| ==> AreaLen(es[..n + 1]) > bufSize
    ensures Fitting(es, bufSize) == n
  {
    FittingIsLongest(es, bufSize);
    var f := Fitting(es, bufSize);
    if f > n {
      assert es[..f][..n + 1] == es[..n + 1];
      EncodePrefix(es[..f], n + 1);
    }
  }

  // Selection keeps exactly the entries of the consumer.
  lemma {:induction false} SelectMembers(es: seq<Entry>, major: nat)
    ensures forall e :: e in Select(es, major) <==> e in es && GetMajor(e.typ) == major
    decreases |es|
  {
    if es != [] {
      SelectMembers(es[..|es| - 1], major);
      assert es == es[..|es| - 1] + [es[|es| - 1]];
    }
  }

  // access_policy_table
  predicate Allowed(partitionId: nat, major: nat) {
    partitionId == INITIAL_ATTESTATION && major == MAJOR_IAS
  }

  // tfm_core_check_buffer_access with 4-byte alignment; addresses are 32-bit
  predicate BufferAccess(start: nat, len: nat, dataStart: nat, dataSize: nat) {
    var end := (start + len) % TWO_32;
    start % 4 == 0 && end > start && start >= dataStart && end <= dataStart + dataSize
  }

  /** The check accepts exactly the aligned, non-empty buffers inside the secure data, despite the
      wrap-around of the end address. */
  lemma BufferAccessIsContainment(start: nat, len: nat, dataStart: nat, dataSize: nat)
    requires start < TWO_32 && len < TWO_32 && dataStart + dataSize < TWO_32
    ensures BufferAccess(start, len, dataStart, dataSize)
       <==> start % 4 == 0 && len > 0 && dataStart <= start && start + len <= dataStart + dataSize
  {
  }
}
