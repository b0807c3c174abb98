/**
  The shared area in memory: the boot loader's writer and the runtime's filtering reader, both
  working on bytes, proved against the entry lists of BootTlv.
*/
module BootArea {
  import opened BootTlv
  import opened Options
  import opened Words

  // ---------------------------------------------------------------- memory

  method Store(a: array<byte>, at: nat, bs: seq<byte>)
    requires at + |bs| <= a.Length
    modifies a
    ensures forall i :: 0 <= i < a.Length ==> a[i] == if at <= i < at + |bs| then bs[i - at] else old(a[i])
  {
    for k := 0 to |bs|
      invariant forall i :: 0 <= i < a.Length ==> a[i] == if at <= i < at + k then bs[i - at] else old(a[i])
    {
      a[at + k] := bs[k];
    }
  }

  // s2 is s with the new total length and one more entry behind the others.
  ghost predicate Grown(s: seq<byte>, s2: seq<byte>, es: seq<Entry>, e: Entry) {
    var tot, len := AreaLen(es), Put16(AreaLen(es) + e.Len());
    && |s2| == |s| && tot + e.Len() <= |s|
    && (forall i :: 0 <= i < |s| ==>
          s2[i] == if 2 <= i < 4 then len[i - 2] else if tot <= i < tot + e.Len() then EncodeEntry(e)[i - tot] else s[i])
  }

  method StoreEntry(a: array<byte>, ghost es: seq<Entry>, tot: nat, typ: nat, data: seq<byte>)
    requires tot == AreaLen(es) && tot + ENTRY_HEADER_SIZE + |data| <= a.Length
    modifies a
    ensures Grown(old(a[..]), a[..], es, Entry(typ, data))
  {
    var len := ENTRY_HEADER_SIZE + |data|;
    Store(a, tot, Put16(typ) + Put16(len));
    Store(a, tot + ENTRY_HEADER_SIZE, data);
    Store(a, 2, Put16(tot + len));
  }

  lemma AppendEntry(s: seq<byte>, s2: seq<byte>, es: seq<Entry>, e: Entry, tot: nat)
    requires tot == AreaLen(es) && EncodeArea(es) <= s && Grown(s, s2, es, e)
    ensures EncodeArea(es + [e]) <= s2
  {
    EncodeSnoc(es, e);
    var enc, old_ := EncodeArea(es + [e]), EncodeArea(es);
    assert |enc| == tot + e.Len();
    forall i | 0 <= i < |enc| ensures s2[i] == enc[i] {
      if i < 2 {
        assert enc[i] == Put16(MAGIC)[i] == old_[i] == s[i];
      } else if i < 4 {
        assert enc[i] == Put16(AreaLen(es + [e]))[i - 2];
      } else if i < tot {
        assert enc[i] == EncodeEntries(es + [e])[i - 4] == EncodeEntries(es)[i - 4] == old_[i] == s[i];
      } else {
        assert enc[i] == EncodeEntries(es + [e])[i - 4] == EncodeEntry(e)[i - tot];
      }
    }
  }

  lemma FoundSnoc(es: seq<Entry>, k: nat, major: nat, minor: nat)
    requires k < |es|
    ensures Found(es[..k + 1], major, minor) <==>
            Found(es[..k], major, minor) || (GetMajor(es[k].typ) == major && GetMinor(es[k].typ) == minor)
  {
    assert es[..k + 1] == es[..k] + [es[k]];
    assert es[k] in es[..k + 1] && forall e :: e in es[..k] ==> e in es[..k + 1];
  }

  // ---------------------------------------------------------------- the writer

  class SharedArea {
    const mem: array<byte>
    var initDone: bool
    ghost var entries: seq<Entry>

    ghost predicate Valid()
      reads this, mem
    {
      && HEADER_SIZE <= mem.Length <= UINT16_MAX
      && if initDone then AllFit(entries) && EncodeArea(entries) <= mem[..] else entries == []
    }

    constructor (memory: array<byte>)
      requires HEADER_SIZE <= memory.Length <= UINT16_MAX
      ensures Valid() && mem == memory && !initDone
    {
      mem := memory;
      initDone := false;
      entries := [];
    }

    method Read16(at: nat) returns (n: nat)
      requires at + 2 <= mem.Length
      ensures n == Get16(mem[..], at)
    {
      var lo: int, hi: int := mem[at], mem[at + 1];
      n := lo + 256 * hi;
    }

    // The first call clears the area and writes its header.
    method Initialise()
      requires Valid() && !initDone
      modifies this, mem
      ensures Valid() && initDone && entries == []
    {
      for i := 0 to mem.Length
        invariant forall j :: 0 <= j < i ==> mem[j] == 0
        invariant !initDone && entries == []
      {
        mem[i] := 0;
      }
      Store(mem, 0, Put16(MAGIC));
      Store(mem, 2, Put16(HEADER_SIZE));
      initDone := true;
      assert EncodeArea([]) == Put16(MAGIC) + Put16(HEADER_SIZE);
    }

    // The duplicate scan; it ends because each entry is at least as long as its header.
    method Scan(major: nat, minor: nat) returns (found: bool)
      requires Valid() && initDone
      ensures found == Found(entries, major, minor)
    {
      HeaderReadsBack(mem[..], entries);
      var end := Read16(2);
      var offset := HEADER_SIZE;
      ghost var k := 0;
      assert entries[..0] == [];
      while offset < end
        invariant 0 <= k <= |entries| && offset == AreaLen(entries[..k]) <= end
        invariant !Found(entries[..k], major, minor)
      {
        NextEntry(k, offset, end);
        var typ := Read16(offset);
        var len := Read16(offset + 2);
        FoundSnoc(entries, k, major, minor);
        if GetMajor(typ) == major && GetMinor(typ) == minor {
          assert forall e :: e in entries[..k + 1] ==> e in entries;
          return true;
        }
        offset := offset + len;
        k := k + 1;
      }
      AllScanned(k, offset);
      return false;
    }

    lemma AllScanned(k: nat, offset: nat)
      requires k <= |entries| && offset == AreaLen(entries[..k]) == AreaLen(entries)
      ensures entries[..k] == entries
    {
      if k < |entries| {
        EncodePrefix(entries, k + 1);
        assert entries[..k + 1] == entries[..k] + [entries[k]];
        EncodeSnoc(entries[..k], entries[k]);
        assert false;
      }
    }

    lemma NextEntry(k: nat, offset: nat, end: nat)
      requires Valid() && initDone && k <= |entries| && offset == AreaLen(entries[..k]) < end == AreaLen(entries)
      ensures k < |entries| && offset + 4 <= mem.Length
      ensures Get16(mem[..], offset) == entries[k].typ && Get16(mem[..], offset + 2) == entries[k].Len()
      ensures offset + entries[k].Len() == AreaLen(entries[..k + 1]) <= end
      ensures EntryStandsAt(mem[..], offset, AreaLen(entries[..k + 1]), entries[k])
    {
      assert entries[..|entries|] == entries;
      var next := AreaLen(entries[..k + 1]);
      EntryAt(mem[..], entries, k, offset, next);
      assert entries[k] in entries;
      EntryReadsBack(mem[..], offset, next, entries[k]);
    }

    method Append(tot: nat, typ: nat, data: seq<byte>)
      requires Valid() && initDone && tot == AreaLen(entries)
      requires Entry(typ, data).Fits() && tot + ENTRY_HEADER_SIZE + |data| <= mem.Length
      modifies this, mem
      ensures Valid() && initDone && entries == old(entries) + [Entry(typ, data)]
    {
      ghost var before := mem[..];
      ghost var e := Entry(typ, data);
      StoreEntry(mem, entries, tot, typ, data);
      AppendEntry(before, mem[..], entries, e, tot);
      entries := entries + [e];
    }

    /** boot_add_data_to_shared_area: the area goes on encoding exactly the entries added so far, and a
        refused addition leaves every byte alone. An addition that would overrun the area is not carried out. */
    method AddData(major: nat, minor: nat, data: seq<byte>) returns (st: AddStatus)
      requires Valid()
      modifies this, mem
      ensures Valid() && initDone
      ensures (st, entries) == Add(old(entries), mem.Length, major, minor, data)
      ensures st != Ok && old(initDone) ==> mem[..] == old(mem[..])
    {
      if !initDone {
        Initialise();
      }
      var found := Scan(major, minor);
      if found {
        return Overwrite;
      }
      HeaderReadsBack(mem[..], entries);
      var tot := Read16(2);
      var len := (ENTRY_HEADER_SIZE + |data|) % 0x1_0000;
      if tot + len > UINT16_MAX {
        return GenError;
      }
      if tot + len > mem.Length {
        return Overflow;
      }
      if ENTRY_HEADER_SIZE + |data| > UINT16_MAX {
        return Overrun;
      }
      Append(tot, SetType(major, minor), data);
      return Ok;
    }
  }

  // ---------------------------------------------------------------- the reader

  // What the buffer holds after the reader: the encoding of `got`, and behind it what it held before
  ghost predicate Holds(buf: seq<byte>, got: seq<Entry>, was: seq<byte>) {
    && |buf| == |was| && EncodeArea(got) <= buf
    && (forall i :: AreaLen(got) <= i < |was| ==> buf[i] == was[i])
  }

  // The entries copied so far, and one more if it is addressed to the consumer
  function With(got: seq<Entry>, e: Entry, major: nat): seq<Entry> {
    if GetMajor(e.typ) == major then got + [e] else got
  }

  class BootDataReader {
    var valid: bool

    constructor ()
      ensures !valid
    {
      valid := false;
    }

    // tfm_core_validate_boot_data
    method Validate(area: SharedArea)
      requires area.Valid() && area.initDone
      modifies this
      ensures valid
    {
      HeaderReadsBack(area.mem[..], area.entries);
      var magic := area.Read16(0);
      if magic == MAGIC {
        valid := true;
      }
    }

    // Copy one entry behind those already in the buffer, and count it in the buffer's header.
    method CopyEntry(area: SharedArea, offset: nat, len: nat, buf: array<byte>, ptr: nat,
                     ghost got: seq<Entry>, ghost e: Entry)
      requires buf != area.mem && EntryStandsAt(area.mem[..], offset, offset + len, e)
      requires ptr == AreaLen(got) && ptr + len <= buf.Length && EncodeArea(got) <= buf[..]
      modifies buf
      ensures EncodeArea(got + [e]) <= buf[..]
      ensures forall i :: ptr + len <= i < buf.Length ==> buf[i] == old(buf[i])
    {
      ghost var before := buf[..];
      Store(buf, ptr, area.mem[offset..offset + len]);
      Store(buf, 2, Put16(ptr + len));
      AppendEntry(before, buf[..], got, e, ptr);
      EncodeSnoc(got, e);
    }

    // A selected entry is copied if it fits.
    method CopyIfFits(area: SharedArea, offset: nat, len: nat, buf: array<byte>, bufSize: nat, ptr: nat,
                      ghost got: seq<Entry>, ghost e: Entry)
      returns (ok: bool)
      requires buf != area.mem && len == e.Len() && EntryStandsAt(area.mem[..], offset, offset + len, e)
      requires ptr == AreaLen(got) <= bufSize <= buf.Length && EncodeArea(got) <= buf[..]
      modifies buf
      ensures AreaLen(got + [e]) == ptr + len && (ok <==> ptr + len <= bufSize)
      ensures if ok then Holds(buf[..], got + [e], old(buf[..])) else buf[..] == old(buf[..])
    {
      EncodeSnoc(got, e);
      ok := ptr + len <= bufSize;
      if ok {
        CopyEntry(area, offset, len, buf, ptr, got, e);
      }
    }

    // One round of the copy loop, for the entry k found at `offset`
    method CopyIfSelected(area: SharedArea, offset: nat, end: nat, major: nat, buf: array<byte>, bufSize: nat, ptr: nat,
                          ghost k: nat, ghost got: seq<Entry>)
      returns (ok: bool, len: nat, ptr': nat)
      requires area.Valid() && area.initDone && buf != area.mem && k < |area.entries|
      requires offset == AreaLen(area.entries[..k]) < end == AreaLen(area.entries)
      requires ptr == AreaLen(got) <= bufSize <= buf.Length && EncodeArea(got) <= buf[..]
      modifies buf
      ensures var e := area.entries[k];
              var got' := With(got, e, major);
              && len == e.Len() && (ok <==> AreaLen(got') <= bufSize)
              && (!ok ==> buf[..] == old(buf[..]))
              && (ok ==> ptr' == AreaLen(got') && Holds(buf[..], got', old(buf[..])))
    {
      area.NextEntry(k, offset, end);
      ghost var e := area.entries[k];
      var typ := area.Read16(offset);
      len := area.Read16(offset + 2);
      ok, ptr' := true, ptr;
      if GetMajor(typ) == major {
        ok := CopyIfFits(area, offset, len, buf, bufSize, ptr, got, e);
        ptr' := ptr + len;
      }
    }

    /** tfm_core_get_boot_data_handler: succeeds exactly when access is granted and the header with all
        entries of the requested consumer fits; the buffer is then the encoding of those entries in
        order. If they do not fit it is the encoding of the longest prefix that does. Nothing behind
        that encoding is written. */
    method Get(area: SharedArea, partitionId: nat, major: nat, accessOk: bool, buf: array<byte>, bufSize: nat)
      returns (ok: bool)
      requires area.Valid() && area.initDone && buf != area.mem
      requires accessOk ==> bufSize <= buf.Length && bufSize <= UINT16_MAX
      modifies buf
      ensures !(accessOk && valid && Allowed(partitionId, major) && HEADER_SIZE <= bufSize) ==>
                !ok && buf[..] == old(buf[..])
      ensures accessOk && valid && Allowed(partitionId, major) && HEADER_SIZE <= bufSize ==>
                var sel := Select(area.entries, major);
                && (ok <==> AreaLen(sel) <= bufSize)
                && Fitting(sel, bufSize) <= |sel|
                && Holds(buf[..], sel[..Fitting(sel, bufSize)], old(buf[..]))
    {
      if !accessOk || !valid || !Allowed(partitionId, major) || bufSize < HEADER_SIZE {
        return false;
      }
      ok := CopySelected(area, major, buf, bufSize);
    }

    method CopySelected(area: SharedArea, major: nat, buf: array<byte>, bufSize: nat) returns (ok: bool)
      requires area.Valid() && area.initDone && buf != area.mem
      requires HEADER_SIZE <= bufSize <= buf.Length && bufSize <= UINT16_MAX
      modifies buf
      ensures var sel := Select(area.entries, major);
              && (ok <==> AreaLen(sel) <= bufSize)
              && Fitting(sel, bufSize) <= |sel|
              && Holds(buf[..], sel[..Fitting(sel, bufSize)], old(buf[..]))
    {
      ghost var es, sel := area.entries, Select(area.entries, major);
      HeaderReadsBack(area.mem[..], es);
      var end := area.Read16(2);
      var offset := HEADER_SIZE;
      Store(buf, 0, Put16(MAGIC));
      Store(buf, 2, Put16(HEADER_SIZE));
      var ptr := HEADER_SIZE;
      ghost var k, got := 0, [];
      assert es[..0] == [] && EncodeArea([]) == Put16(MAGIC) + Put16(HEADER_SIZE);
      while offset < end
        invariant 0 <= k <= |es| && offset == AreaLen(es[..k]) <= end
        invariant got == Select(es[..k], major) && ptr == AreaLen(got) <= bufSize
        invariant Holds(buf[..], got, old(buf[..]))
      {
        RoundOf(es, k, offset, end);
        SelectNext(es, k, major);
        var fits, len, ptr' := CopyIfSelected(area, offset, end, major, buf, bufSize, ptr, k, got);
        if !fits {
          DoesNotFit(sel, got, es[k], bufSize);
          return false;
        }
        got := Select(es[..k + 1], major);
        EncodeNext(es, k);
        offset, ptr, k := offset + len, ptr', k + 1;
      }
      area.AllScanned(k, offset);
      assert sel[..|sel|] == sel;
      FittingIs(sel, bufSize, |sel|);
      return true;
    }
  }

  lemma RoundOf(es: seq<Entry>, k: nat, offset: nat, end: nat)
    requires k <= |es| && offset == AreaLen(es[..k]) < end == AreaLen(es)
    ensures k < |es|
  {
    assert es[..|es|] == es;
  }

  lemma EncodeNext(es: seq<Entry>, k: nat)
    requires k < |es|
    ensures AreaLen(es[..k + 1]) == AreaLen(es[..k]) + es[k].Len() <= AreaLen(es)
  {
    assert es[..k + 1] == es[..k] + [es[k]];
    EncodeSnoc(es[..k], es[k]);
    EncodePrefix(es, k + 1);
  }

  lemma SelectNext(es: seq<Entry>, k: nat, major: nat)
    requires k < |es|
    ensures Select(es[..k + 1], major) == With(Select(es[..k], major), es[k], major)
    ensures Select(es[..k + 1], major) <= Select(es, major)
  {
    assert es[..k + 1][..k] == es[..k];
    assert Select(es[..k], major) + [] == Select(es[..k], major);
    SelectPrefix(es, k + 1, major);
  }

  // The copied entries are the longest prefix that fits when the next one does not.
  lemma DoesNotFit(sel: seq<Entry>, got: seq<Entry>, e: Entry, bufSize: nat)
    requires got + [e] <= sel && HEADER_SIZE <= bufSize && AreaLen(got) <= bufSize && AreaLen(got + [e]) > bufSize
    ensures Fitting(sel, bufSize) == |got| && sel[..|got|] == got && AreaLen(sel) > bufSize
  {
    assert sel[..|got|] == got && sel[..|got| + 1] == got + [e];
    FittingIs(sel, bufSize, |got|);
    FittingIsLongest(sel, bufSize);
  }

  // ---------------------------------------------------------------- from boot loader to service

  // The boot loader's additions, one after the other
  method AddAllData(memory: array<byte>, adds: seq<Addition>) returns (area: SharedArea)
    requires HEADER_SIZE <= memory.Length <= UINT16_MAX && adds != []
    requires forall i :: 0 <= i < |adds| ==> adds[i].SizeFits()
    modifies memory
    ensures fresh(area) && area.mem == memory && area.Valid() && area.initDone
    ensures area.entries == AddAll(adds, memory.Length)
  {
    area := new SharedArea(memory);
    for i := 0 to |adds|
      invariant fresh(area) && area.mem == memory && area.Valid() && (i > 0 ==> area.initDone)
      invariant area.entries == AddAll(adds[..i], memory.Length)
    {
      assert adds[..i + 1][..i] == adds[..i];
      var st := area.AddData(adds[i].major, adds[i].minor, adds[i].data);
    }
    assert adds[..|adds|] == adds;
  }

  /** Round trip: after any additions the area decodes to the accepted entries in order, with distinct types if those asked
      for are in range, and what a service that
      may read them then finds in its buffer decodes to those of its major number: to all of them and with
      success if they fit, otherwise to the longest prefix that fits. */
  method AddThenRead(memory: array<byte>, adds: seq<Addition>, partitionId: nat, major: nat, buf: array<byte>, bufSize: nat)
    returns (ok: bool)
    requires HEADER_SIZE <= memory.Length <= UINT16_MAX && adds != [] && buf != memory
    requires forall i :: 0 <= i < |adds| ==> adds[i].SizeFits()
    requires Allowed(partitionId, major) && HEADER_SIZE <= bufSize <= buf.Length && bufSize <= UINT16_MAX
    modifies memory, buf
    ensures var es := AddAll(adds, memory.Length);
            var sel := Select(es, major);
            && DecodeArea(memory[..]) == Some(es)
            && ((forall i :: 0 <= i < |adds| ==> adds[i].InBounds()) ==> DistinctTypes(es))
            && (ok <==> AreaLen(sel) <= bufSize)
            && Fitting(sel, bufSize) <= |sel| && (ok <==> Fitting(sel, bufSize) == |sel|)
            && DecodeArea(buf[..]) == Some(sel[..Fitting(sel, bufSize)])
  {
    var area := AddAllData(memory, adds);
    var reader := new BootDataReader();
    reader.Validate(area);
    ok := reader.Get(area, partitionId, major, true, buf, bufSize);
    ghost var es := area.entries;
    DecodeEncodedArea(memory[..], es);
    if forall i :: 0 <= i < |adds| ==> adds[i].InBounds() {
      AdditionsAreProper(adds, memory.Length);
    }
    DecodeSelected(es, major, bufSize, buf[..]);
  }

  lemma DecodeSelected(es: seq<Entry>, major: nat, bufSize: nat, buf: seq<byte>)
    requires AllFit(es) && HEADER_SIZE <= bufSize <= UINT16_MAX
    requires var sel := Select(es, major);
             Fitting(sel, bufSize) <= |sel| && EncodeArea(sel[..Fitting(sel, bufSize)]) <= buf
    ensures var sel := Select(es, major);
            && DecodeArea(buf) == Some(sel[..Fitting(sel, bufSize)])
            && (AreaLen(sel) <= bufSize <==> Fitting(sel, bufSize) == |sel|)
  {
    SelectMembers(es, major);
    FittingIsLongest(Select(es, major), bufSize);
    DecodeEncodedArea(buf, Select(es, major)[..Fitting(Select(es, major), bufSize)]);
  }
}
