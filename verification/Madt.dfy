/** kernel/acpi/madt.c: the walk over the records of the Multiple APIC Description Table, section
    5.2.12 of the ACPI Specification 6.4. */
module Madt {
  type Byte = b: nat | b < 256

  /** sizeof(struct acpi_madt): the common header, the local APIC address and the flags. */
  const FIXED_SIZE: nat := 44
  const LENGTH_AT: nat := 4
  const LAPIC_ADDRESS_AT: nat := 36

  datatype Record =
    | LocalApic(processorId: Byte, apicId: Byte, flags: nat)
    | IoApic(id: Byte, reserved: Byte, address: nat, gsiBase: nat)
    | Other(kind: Byte, body: seq<Byte>)
  {
    predicate Valid() {
      match this
      case LocalApic(_, _, flags) => flags < 0x1_0000_0000
      case IoApic(_, _, address, gsiBase) => address < 0x1_0000_0000 && gsiBase < 0x1_0000_0000
      case Other(kind, body) => kind > 1 && |body| <= 253
    }
  }

  datatype Info = Info(localApicAddress: nat, enabledCpus: nat, haveIoApic: bool, ioApicAddress: nat, gsiBase: nat)

  /** A little-endian 32-bit field. */
  function Field(bytes: seq<Byte>, at: nat): (v: nat)
    requires at + 4 <= |bytes|
    ensures v < 0x1_0000_0000
    ensures v == LittleEndian(bytes[at..at + 4])
  {
    FourBytes(bytes[at..at + 4]);
    var b0: nat, b1: nat, b2: nat, b3: nat := bytes[at], bytes[at + 1], bytes[at + 2], bytes[at + 3];
    b0 + 0x100 * (b1 + 0x100 * (b2 + 0x100 * b3))
  }

  /** The lowest byte comes first. */
  function LittleEndian(s: seq<Byte>): nat {
    if s == [] then 0 else s[0] as nat + 256 * LittleEndian(s[1..])
  }

  lemma FourBytes(s: seq<Byte>)
    requires |s| == 4
    ensures LittleEndian(s) == s[0] as nat + 0x100 * s[1] as nat + 0x1_0000 * s[2] as nat + 0x100_0000 * s[3] as nat
  {
    assert s[1..][1..] == s[2..] && s[2..][1..] == s[3..] && s[3..][1..] == [];
    assert LittleEndian(s[3..]) == s[3] as nat && LittleEndian(s[2..]) == s[2] as nat + 256 * LittleEndian(s[3..]);
  }

  function FieldBytes(v: nat): (s: seq<Byte>)
    requires v < 0x1_0000_0000
    ensures |s| == 4 && Field(s, 0) == v
  {
    var v1 := v / 0x100;
    var v2 := v1 / 0x100;
    [v % 0x100, v1 % 0x100, v2 % 0x100, v2 / 0x100]
  }

  function Encoded(r: Record): (s: seq<Byte>)
    requires r.Valid()
    ensures 2 <= |s| < 256 && s[1] == |s|
  {
    match r
    case LocalApic(processorId, apicId, flags) => [0, 8, processorId, apicId] + FieldBytes(flags)
    case IoApic(id, reserved, address, gsiBase) => [1, 12, id, reserved] + FieldBytes(address) + FieldBytes(gsiBase)
    case Other(kind, body) => [kind, |body| + 2] + body
  }

  function EncodedAll(records: seq<Record>): seq<Byte>
    requires forall r :: r in records ==> r.Valid()
  {
    if records == [] then [] else Encoded(records[0]) + EncodedAll(records[1..])
  }

  // ----- What the table says

  function EnabledCpus(records: seq<Record>): nat {
    if records == [] then 0
    else (if records[0].LocalApic? && records[0].flags % 2 == 1 then 1 else 0) + EnabledCpus(records[1..])
  }

  /** The first IOAPIC, if there is one. */
  function FirstIoApic(records: seq<Record>): (r: seq<Record>)
    ensures |r| <= 1 && forall k :: 0 <= k < |r| ==> r[k].IoApic? && r[k] in records
    ensures r == [] ==> forall k :: 0 <= k < |records| ==> !records[k].IoApic?
  {
    if records == [] then [] else if records[0].IoApic? then [records[0]] else FirstIoApic(records[1..])
  }

  function Summary(localApicAddress: nat, records: seq<Record>): Info {
    var io := FirstIoApic(records);
    if io == [] then Info(localApicAddress, EnabledCpus(records), false, 0, 0)
    else Info(localApicAddress, EnabledCpus(records), true, io[0].address, io[0].gsiBase)
  }

  /** Which records, from the k-th on, are local APICs with bit 0 of their flags set. */
  ghost function Enabled(records: seq<Record>, k: nat): set<nat> {
    set j: nat | k <= j < |records| && records[j].LocalApic? && records[j].flags % 2 == 1
  }

  /** The k-th record is the first IOAPIC. */
  ghost predicate IsFirstIoApic(records: seq<Record>, k: nat) {
    k < |records| && records[k].IoApic? && forall j :: 0 <= j < k ==> !records[j].IoApic?
  }

  lemma {:induction false} EnabledAreCounted(records: seq<Record>, k: nat)
    requires k <= |records|
    ensures EnabledCpus(records[k..]) == |Enabled(records, k)|
    decreases |records| - k
  {
    if k < |records| {
      EnabledAreCounted(records, k + 1);
      assert records[k..][1..] == records[k + 1..];
      var rest := Enabled(records, k + 1);
      assert Enabled(records, k) == if records[k].LocalApic? && records[k].flags % 2 == 1 then rest + {k} else rest;
    }
  }

  lemma {:induction false} FirstIoApicIsFirst(records: seq<Record>) returns (k: nat)
    ensures FirstIoApic(records) != [] ==> IsFirstIoApic(records, k) && FirstIoApic(records) == [records[k]]
    decreases |records|
  {
    k := 0;
    if records != [] && !records[0].IoApic? {
      k := FirstIoApicIsFirst(records[1..]);
      k := k + 1;
    }
  }

  /** What the summary says of the records. */
  ghost predicate Summarises(info: Info, records: seq<Record>) {
    && info.enabledCpus == |Enabled(records, 0)|
    && (info.haveIoApic <==> exists k :: 0 <= k < |records| && records[k].IoApic?)
    && (info.haveIoApic ==>
          exists k: nat :: IsFirstIoApic(records, k)
                      && info.ioApicAddress == records[k].address && info.gsiBase == records[k].gsiBase)
  }

  lemma SummaryIsRight(localApicAddress: nat, records: seq<Record>)
    ensures Summarises(Summary(localApicAddress, records), records)
    ensures Summary(localApicAddress, records).localApicAddress == localApicAddress
  {
    EnabledAreCounted(records, 0);
    assert records[0..] == records;
    var k := FirstIoApicIsFirst(records);
  }

  // ----- Reading records back

  /** A whole record starts at p. */
  predicate WholeAt(bytes: seq<Byte>, p: nat, end: nat)
    requires end <= |bytes|
  {
    p + 2 <= end && bytes[p + 1] != 0 && p + bytes[p + 1] as nat <= end
  }

  /** A local APIC or IOAPIC record is at least as long as its structure. */
  predicate BigEnough(bytes: seq<Byte>, p: nat)
    requires p + 2 <= |bytes|
  {
    (bytes[p] == 0 ==> bytes[p + 1] >= 8) && (bytes[p] == 1 ==> bytes[p + 1] >= 12)
  }

  predicate LongEnough(bytes: seq<Byte>, p: nat, end: nat)
    requires end <= |bytes|
    decreases end - p
  {
    WholeAt(bytes, p, end) ==> BigEnough(bytes, p) && LongEnough(bytes, p + bytes[p + 1] as nat, end)
  }

  function RecordAt(bytes: seq<Byte>, p: nat, end: nat): (r: Record)
    requires end <= |bytes| && WholeAt(bytes, p, end) && BigEnough(bytes, p)
    ensures r.LocalApic? <==> bytes[p] == 0
    ensures r.LocalApic? ==> r.flags % 2 == bytes[p + 4] as nat % 2 && r.flags == LittleEndian(bytes[p + 4..p + 8])
    ensures r.IoApic? <==> bytes[p] == 1
    ensures r.IoApic? ==>
              r.address == LittleEndian(bytes[p + 4..p + 8]) && r.gsiBase == LittleEndian(bytes[p + 8..p + 12])
  {
    if bytes[p] == 0 then LocalApic(bytes[p + 2], bytes[p + 3], Field(bytes, p + 4))
    else if bytes[p] == 1 then IoApic(bytes[p + 2], bytes[p + 3], Field(bytes, p + 4), Field(bytes, p + 8))
    else Other(bytes[p], if bytes[p + 1] >= 2 then bytes[p + 2..p + bytes[p + 1] as nat] else [])
  }

  /** The records from p on, up to the first that is cut off or has length 0. */
  function RecordsFrom(bytes: seq<Byte>, p: nat, end: nat): seq<Record>
    requires end <= |bytes| && LongEnough(bytes, p, end)
    decreases end - p
  {
    if WholeAt(bytes, p, end) then [RecordAt(bytes, p, end)] + RecordsFrom(bytes, p + bytes[p + 1] as nat, end) else []
  }

  /** The bytes of s are found at p. */
  ghost predicate HoldsAt(bytes: seq<Byte>, p: nat, s: seq<Byte>) {
    p + |s| <= |bytes| && forall k :: 0 <= k < |s| ==> bytes[p + k] == s[k]
  }

  lemma FieldFits(bytes: seq<Byte>, p: nat, s: seq<Byte>, at: nat, v: nat)
    requires HoldsAt(bytes, p, s) && at + 4 <= |s| && v < 0x1_0000_0000 && s[at..at + 4] == FieldBytes(v)
    ensures Field(bytes, p + at) == v
  {
    var f := FieldBytes(v);
    assert s[at..at + 4][0] == s[at] && s[at..at + 4][1] == s[at + 1];
    assert s[at..at + 4][2] == s[at + 2] && s[at..at + 4][3] == s[at + 3];
    assert bytes[p + at] == f[0] && bytes[p + (at + 1)] == f[1];
    assert bytes[p + (at + 2)] == f[2] && bytes[p + (at + 3)] == f[3];
  }

  lemma RecordComesBack(bytes: seq<Byte>, p: nat, end: nat, r: Record)
    requires r.Valid() && HoldsAt(bytes, p, Encoded(r)) && p + |Encoded(r)| <= end <= |bytes|
    ensures WholeAt(bytes, p, end) && bytes[p + 1] == |Encoded(r)| && BigEnough(bytes, p) &&
            RecordAt(bytes, p, end) == r
  {
    var s := Encoded(r);
    assert bytes[p + 0] == s[0] && bytes[p + 1] == s[1];
    if r.Other? {
      forall j | 0 <= j < |r.body| ensures bytes[p + 2 + j] == r.body[j] {
        assert bytes[p + (2 + j)] == s[2 + j];
      }
      assert bytes[p + 2..p + |s|] == r.body;
    } else {
      assert bytes[p + 2] == s[2] && bytes[p + 3] == s[3];
      FieldFits(bytes, p, s, 4, if r.LocalApic? then r.flags else r.address);
      if r.IoApic? {
        FieldFits(bytes, p, s, 8, r.gsiBase);
      }
    }
  }

  /** What was written as a list of records is read as that list, whatever follows that is not a record. */
  lemma {:induction false} RecordsComeBack(bytes: seq<Byte>, p: nat, end: nat, records: seq<Record>)
    requires forall r :: r in records ==> r.Valid()
    requires HoldsAt(bytes, p, EncodedAll(records)) && p + |EncodedAll(records)| <= end <= |bytes|
    requires !WholeAt(bytes, p + |EncodedAll(records)|, end)
    ensures LongEnough(bytes, p, end) && RecordsFrom(bytes, p, end) == records
    decreases |records|
  {
    hide HoldsAt, Encoded, RecordAt, BigEnough, RecordsFrom, LongEnough, WholeAt;
    if records == [] {
      NoMoreRecords(bytes, p, end);
    } else {
      var first, rest := Encoded(records[0]), EncodedAll(records[1..]);
      SplitBytes(bytes, p, first, rest);
      RecordComesBack(bytes, p, end, records[0]);
      RecordsComeBack(bytes, p + |first|, end, records[1..]);
      OneRecordRead(bytes, p, end, records[0], records[1..]);
      assert records == [records[0]] + records[1..];
    }
  }

  lemma NoMoreRecords(bytes: seq<Byte>, p: nat, end: nat)
    requires end <= |bytes| && !WholeAt(bytes, p, end)
    ensures LongEnough(bytes, p, end) && RecordsFrom(bytes, p, end) == []
  {
  }

  lemma OneRecordRead(bytes: seq<Byte>, p: nat, end: nat, r: Record, rest: seq<Record>)
    requires end <= |bytes| && WholeAt(bytes, p, end) && BigEnough(bytes, p) && RecordAt(bytes, p, end) == r
    requires LongEnough(bytes, p + bytes[p + 1] as nat, end) && RecordsFrom(bytes, p + bytes[p + 1] as nat, end) == rest
    ensures LongEnough(bytes, p, end) && RecordsFrom(bytes, p, end) == [r] + rest
  {
  }

  lemma SplitBytes(bytes: seq<Byte>, p: nat, first: seq<Byte>, rest: seq<Byte>)
    requires HoldsAt(bytes, p, first + rest)
    ensures HoldsAt(bytes, p, first) && HoldsAt(bytes, p + |first|, rest)
  {
    forall k | 0 <= k < |first| ensures bytes[p + k] == first[k] {
      assert bytes[p + k] == (first + rest)[k];
    }
    forall k | 0 <= k < |rest| ensures bytes[p + |first| + k] == rest[k] {
      assert bytes[p + (|first| + k)] == (first + rest)[|first| + k];
    }
  }

  // ----- The code

  /** madt_parse, for the bytes of the table that acpi_find_table found. */
  method Parse(bytes: seq<Byte>) returns (info: Info)
    requires FIXED_SIZE <= |bytes| && Field(bytes, LENGTH_AT) <= |bytes|
    requires LongEnough(bytes, FIXED_SIZE, Field(bytes, LENGTH_AT))
    ensures info == Summary(Field(bytes, LAPIC_ADDRESS_AT), RecordsFrom(bytes, FIXED_SIZE, Field(bytes, LENGTH_AT)))
    ensures info.localApicAddress == LittleEndian(bytes[36..40])
    ensures Summarises(info, RecordsFrom(bytes, 44, LittleEndian(bytes[4..8])))
  {
    hide Field, RecordAt, BigEnough, Continued, Summary, Summarises, LittleEndian;
    SummaryIsRight(Field(bytes, LAPIC_ADDRESS_AT), RecordsFrom(bytes, FIXED_SIZE, Field(bytes, LENGTH_AT)));
    info := Info(Field(bytes, LAPIC_ADDRESS_AT), 0, false, 0, 0);
    var cursor := FIXED_SIZE;
    var end := Field(bytes, LENGTH_AT);
    ghost var all := RecordsFrom(bytes, cursor, end);
    NothingSeenYet(info.localApicAddress, all);
    ghost var summary := Summary(info.localApicAddress, all);
    while cursor + 2 <= end && bytes[cursor + 1] != 0 && cursor + bytes[cursor + 1] as nat <= end
      invariant FIXED_SIZE <= cursor && LongEnough(bytes, cursor, end)
      invariant summary == Continued(info, RecordsFrom(bytes, cursor, end))
      decreases end - cursor
    {
      OneRecordMore(info, RecordAt(bytes, cursor, end), RecordsFrom(bytes, cursor + bytes[cursor + 1] as nat, end));
      info, cursor := Visit(bytes, cursor, end, info);
    }
    NothingMore(info);
  }

  lemma NothingSeenYet(localApicAddress: nat, records: seq<Record>)
    ensures Summary(localApicAddress, records) == Continued(Info(localApicAddress, 0, false, 0, 0), records)
  {
  }

  lemma NothingMore(info: Info)
    ensures Continued(info, []) == info
  {
  }

  /** The body of the loop. */
  method Visit(bytes: seq<Byte>, cursor: nat, end: nat, info: Info) returns (info': Info, next: nat)
    requires end <= |bytes| && WholeAt(bytes, cursor, end) && BigEnough(bytes, cursor)
    ensures next == cursor + bytes[cursor + 1] as nat && info' == Visited(info, RecordAt(bytes, cursor, end))
  {
    info' := info;
    if bytes[cursor] == 0 {
      if Field(bytes, cursor + 4) % 2 == 1 {
        info' := info.(enabledCpus := info.enabledCpus + 1);
      }
    } else if bytes[cursor] == 1 && !info.haveIoApic {
      info' := info.(haveIoApic := true, ioApicAddress := Field(bytes, cursor + 4),
                     gsiBase := Field(bytes, cursor + 8));
    }
    var length: nat := bytes[cursor + 1];
    next := cursor + length;
  }

  function Visited(info: Info, r: Record): Info {
    match r
    case LocalApic(_, _, flags) => if flags % 2 == 1 then info.(enabledCpus := info.enabledCpus + 1) else info
    case IoApic(_, _, address, gsiBase) =>
      if info.haveIoApic then info else info.(haveIoApic := true, ioApicAddress := address, gsiBase := gsiBase)
    case Other(_, _) => info
  }

  lemma OneRecordMore(info: Info, r: Record, rest: seq<Record>)
    ensures Continued(info, [r] + rest) == Continued(Visited(info, r), rest)
  {
    assert ([r] + rest)[1..] == rest;
  }

  /** What becomes of info when these records follow. */
  function Continued(info: Info, records: seq<Record>): Info {
    var io := FirstIoApic(records);
    var counted := info.(enabledCpus := info.enabledCpus + EnabledCpus(records));
    if io == [] || info.haveIoApic then counted
    else counted.(haveIoApic := true, ioApicAddress := io[0].address, gsiBase := io[0].gsiBase)
  }
}
