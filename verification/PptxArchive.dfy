/**
 * The central-directory inspector of dashboard/src/features/presentationTemplates.ts, over bytes.
 * Record layouts: sections 4.3.12 and 4.3.16 of PKWARE's APPNOTE.TXT.
 */
module PptxArchive {
  import opened JsText

  type Byte = b: nat | b < 256

  /** The UTF-8 decoder and `toLowerCase`, whose tables are not part of the model. */
  datatype Codec = Codec(decode: seq<Byte> -> string, lower: string -> string)

  const MAX_ZIP_ENTRIES: nat := 2_048
  const MAX_SELECTED_BYTES: nat := 8 * 1024 * 1024
  const MAX_XML_BYTES: nat := 2 * 1024 * 1024
  const EOCD_SIGNATURE: nat := 0x06054b50
  const ENTRY_SIGNATURE: nat := 0x02014b50
  const SCAN_LIMIT: nat := 65_557

  /** The three error codes. */
  datatype Code = Invalid | Unsafe | TooLarge

  datatype Result = Selected(names: set<string>) | Error(code: Code)

  // ----- little-endian fields

  function U16(b: seq<Byte>, o: nat): nat
    requires o + 2 <= |b|
  {
    var low: int, high: int := b[o], b[o + 1];
    low + 256 * high
  }

  function U32(b: seq<Byte>, o: nat): nat
    requires o + 4 <= |b|
  {
    U16(b, o) + 65536 * U16(b, o + 2)
  }

  // ----- names

  function WithSlashes(s: string): (r: string)
    ensures |r| == |s|
  {
    seq(|s|, i requires 0 <= i < |s| => if s[i] == '\\' then '/' else s[i])
  }

  predicate OccursAt(s: string, part: string, i: nat) {
    i + |part| <= |s| && s[i..i + |part|] == part
  }

  predicate Contains(s: string, part: string) {
    exists i | 0 <= i <= |s| :: OccursAt(s, part, i)
  }

  predicate EndsWith(s: string, part: string) {
    |part| <= |s| && s[|s| - |part|..] == part
  }

  /** A path component `..`, as the expression (^|\/)\.\.($|\/) finds it. */
  predicate HasParentComponent(s: string) {
    exists i | 0 <= i <= |s| ::
      && OccursAt(s, "..", i)
      && (i == 0 || s[i - 1] == '/')
      && (i + 2 == |s| || s[i + 2] == '/')
  }

  predicate EscapesRoot(name: string) {
    "/" <= name || Contains(name, "../") || HasParentComponent(name)
  }

  predicate IsUnsafePart(codec: Codec, name: string) {
    var lower := codec.lower(name);
    || EndsWith(lower, ".pptm") || EndsWith(lower, ".vba") || EndsWith(lower, "vbaproject.bin")
    || Contains(lower, "/activex/") || Contains(lower, "/embeddings/")
    || Contains(lower, "/oleobjects/") || Contains(lower, "/macrosheets/")
  }

  const CONTENT_TYPES: string := "[Content_Types].xml"
  const PRESENTATION: string := "ppt/presentation.xml"

  predicate IsTemplateXml(name: string) {
    || name == CONTENT_TYPES || name == PRESENTATION
    || ("ppt/theme/" <= name && EndsWith(name, ".xml"))
    || EndsWith(name, ".rels")
  }

  // ----- one record

  datatype Entry = Entry(encrypted: bool, compressed: nat, uncompressed: nat, name: string)

  function Ratio(e: Entry): bool {
    e.compressed > 0 && e.uncompressed > 100 * e.compressed
  }

  /** What is wrong with an entry by itself, in the order in which it is checked. */
  function Verdict(codec: Codec, e: Entry): Option<Code> {
    if e.encrypted || EscapesRoot(e.name) then Some(Invalid)
    else if IsUnsafePart(codec, e.name) then Some(Unsafe)
    else if IsTemplateXml(e.name) && (e.uncompressed > MAX_XML_BYTES || Ratio(e)) then Some(TooLarge)
    else None
  }

  /** A record that is there in full, up to its name. */
  predicate HasRecord(b: seq<Byte>, at: nat) {
    at + 46 <= |b| && U32(b, at) == ENTRY_SIGNATURE && at + 46 + U16(b, at + 28) <= |b|
  }

  function EntryAt(codec: Codec, b: seq<Byte>, at: nat): Entry
    requires HasRecord(b, at)
  {
    Entry(U16(b, at + 8) % 2 == 1, U32(b, at + 20), U32(b, at + 24),
          WithSlashes(codec.decode(b[at + 46..at + 46 + U16(b, at + 28)])))
  }

  function NextRecord(b: seq<Byte>, at: nat): (next: nat)
    requires HasRecord(b, at)
    ensures next >= at + 46
  {
    at + 46 + U16(b, at + 28) + U16(b, at + 30) + U16(b, at + 32)
  }

  // ----- the walk over a list of entries

  function Finish(selected: set<string>): Result {
    if CONTENT_TYPES in selected && PRESENTATION in selected then Selected(selected) else Error(Invalid)
  }

  /** The checks of the loop body, with the running total; None stands for a record that is not there. */
  function Judge(codec: Codec, entries: seq<Option<Entry>>, selected: set<string>, total: nat): Result
    decreases |entries|
  {
    if entries == [] then Finish(selected)
    else if entries[0].None? then Error(Invalid)
    else
      var e := entries[0].value;
      match Verdict(codec, e)
      case Some(code) => Error(code)
      case None =>
        if !IsTemplateXml(e.name) then Judge(codec, entries[1..], selected, total)
        else if total + e.uncompressed > MAX_SELECTED_BYTES then Error(TooLarge)
        else Judge(codec, entries[1..], selected + {e.name}, total + e.uncompressed)
  }

  /** The records from `at` on, one behind the other, up to the first that is not there. */
  function Records(codec: Codec, b: seq<Byte>, at: nat, count: nat): seq<Option<Entry>>
    decreases count
  {
    if count == 0 then []
    else if !HasRecord(b, at) then [None]
    else [Some(EntryAt(codec, b, at))] + Records(codec, b, NextRecord(b, at), count - 1)
  }

  // ----- the whole archive

  predicate SignatureAt(b: seq<Byte>, o: nat) {
    o + 22 <= |b| && U32(b, o) == EOCD_SIGNATURE
  }

  function ScanStart(b: seq<Byte>): nat {
    if |b| > SCAN_LIMIT then |b| - SCAN_LIMIT else 0
  }

  /** e is the last end-of-directory signature in the region that is searched. */
  ghost predicate IsLastSignature(b: seq<Byte>, e: nat) {
    && ScanStart(b) <= e && SignatureAt(b, e)
    && forall o: nat | o > e :: !SignatureAt(b, o)
  }

  ghost predicate NoSignature(b: seq<Byte>) {
    forall o: nat | o >= ScanStart(b) :: !SignatureAt(b, o)
  }

  /** The fields of the end record, and the walk they start. */
  function InspectFrom(codec: Codec, b: seq<Byte>, e: nat): Result
    requires e + 22 <= |b|
  {
    var count, size, at := U16(b, e + 10), U32(b, e + 12), U32(b, e + 16);
    if count < 1 || count > MAX_ZIP_ENTRIES || at + size > |b| then Error(Invalid)
    else Judge(codec, Records(codec, b, at, count), {}, 0)
  }

  method FindEnd(bytes: seq<Byte>) returns (eocd: int)
    ensures eocd < 0 ==> NoSignature(bytes)
    ensures eocd >= 0 ==> IsLastSignature(bytes, eocd)
  {
    var start := ScanStart(bytes);
    eocd := -1;
    var offset := |bytes| - 22;
    while offset >= start
      invariant offset >= -22 && offset <= |bytes| - 22
      invariant offset >= start - 1 || offset == |bytes| - 22
      invariant forall o: nat | o > offset :: !SignatureAt(bytes, o)
    {
      if U32(bytes, offset) == 0x06054b50 {
        return offset;
      }
      offset := offset - 1;
    }
  }

  method InspectPptxArchive(codec: Codec, bytes: seq<Byte>) returns (result: Result)
    ensures (forall o: nat | o + 65_557 >= |bytes| :: !SignatureAt(bytes, o)) ==> result == Error(Invalid)
    ensures forall e: nat | IsLastSignature(bytes, e) :: result == InspectFrom(codec, bytes, e)
  {
    var eocd := FindEnd(bytes);
    if eocd < 0 {
      return Error(Invalid);
    }
    assert eocd + 65_557 >= |bytes| && SignatureAt(bytes, eocd);
    var count := U16(bytes, eocd + 10);
    var centralSize := U32(bytes, eocd + 12);
    var centralOffset := U32(bytes, eocd + 16);
    if count < 1 || count > MAX_ZIP_ENTRIES || centralOffset + centralSize > |bytes| {
      result := Error(Invalid);
    } else {
      result := WalkDirectory(codec, bytes, centralOffset, count);
    }
    assert result == InspectFrom(codec, bytes, eocd);
    assert forall e: nat | IsLastSignature(bytes, e) :: SignatureAt(bytes, e) && e == eocd;
  }

  method WalkDirectory(codec: Codec, bytes: seq<Byte>, centralOffset: nat, count: nat) returns (result: Result)
    ensures result == Judge(codec, Records(codec, bytes, centralOffset, count), {}, 0)
  {
    hide EscapesRoot, IsUnsafePart, IsTemplateXml, WithSlashes, U32, U16;
    var selected: set<string> := {};
    var selectedBytes: nat := 0;
    var offset: nat := centralOffset;
    var index: nat := 0;
    while index < count
      invariant index <= count
      invariant Judge(codec, Records(codec, bytes, centralOffset, count), {}, 0)
             == Judge(codec, Records(codec, bytes, offset, count - index), selected, selectedBytes)
    {
      ghost var ahead := Records(codec, bytes, offset, count - index);
      if offset + 46 > |bytes| || U32(bytes, offset) != ENTRY_SIGNATURE {
        return Error(Invalid);
      }
      var flags := U16(bytes, offset + 8);
      var compressed := U32(bytes, offset + 20);
      var uncompressed := U32(bytes, offset + 24);
      var nameLength := U16(bytes, offset + 28);
      var extraLength := U16(bytes, offset + 30);
      var commentLength := U16(bytes, offset + 32);
      var nameEnd := offset + 46 + nameLength;
      if nameEnd > |bytes| || flags % 2 != 0 {
        return Error(Invalid);
      }
      var name := WithSlashes(codec.decode(bytes[offset + 46..nameEnd]));
      ghost var entry := EntryAt(codec, bytes, offset);
      assert entry == Entry(false, compressed, uncompressed, name);
      assert ahead[0] == Some(entry) && ahead[1..] == Records(codec, bytes, NextRecord(bytes, offset), count - index - 1);
      if EscapesRoot(name) {
        return Error(Invalid);
      }
      if IsUnsafePart(codec, name) {
        return Error(Unsafe);
      }
      if IsTemplateXml(name) {
        if uncompressed > MAX_XML_BYTES || (compressed > 0 && uncompressed > 100 * compressed) {
          return Error(TooLarge);
        }
        selectedBytes := selectedBytes + uncompressed;
        if selectedBytes > MAX_SELECTED_BYTES {
          return Error(TooLarge);
        }
        selected := selected + {name};
      }
      offset := nameEnd + extraLength + commentLength;
      index := index + 1;
    }
    if CONTENT_TYPES !in selected || PRESENTATION !in selected {
      return Error(Invalid);
    }
    return Selected(selected);
  }

  // ----- acceptance

  function TotalOf(entries: seq<Option<Entry>>): nat {
    if entries == [] then 0
    else
      (if entries[0].Some? && IsTemplateXml(entries[0].value.name) then entries[0].value.uncompressed else 0)
      + TotalOf(entries[1..])
  }

  ghost function NamesOf(entries: seq<Option<Entry>>): set<string> {
    set e | e in entries && e.Some? && IsTemplateXml(e.value.name) :: e.value.name
  }

  ghost predicate AllPass(codec: Codec, entries: seq<Option<Entry>>) {
    forall e | e in entries :: e.Some? && Verdict(codec, e.value) == None
  }

  ghost predicate Complete(names: set<string>) {
    CONTENT_TYPES in names && PRESENTATION in names
  }

  /**
   * The walk accepts exactly when every record is there and passes by itself, the sizes of the
   * selected entries stay within the cap all together, and the two required parts are among them;
   * it then selects the names of all template parts. So the running cap is a cap on the total.
   */
  lemma {:induction false} JudgeAccepts(codec: Codec, entries: seq<Option<Entry>>, selected: set<string>, total: nat)
    requires total <= MAX_SELECTED_BYTES
    ensures var r, names := Judge(codec, entries, selected, total), selected + NamesOf(entries);
      && (r.Selected? <==>
            AllPass(codec, entries) && total + TotalOf(entries) <= MAX_SELECTED_BYTES && Complete(names))
      && (r.Selected? ==> r.names == names)
    decreases |entries|
  {
    hide Verdict, IsTemplateXml;
    if entries == [] {
      assert NamesOf(entries) == {};
      assert selected + {} == selected;
    } else {
      var first, rest := entries[0], entries[1..];
      assert forall e :: e in entries <==> e == first || e in rest;
      assert first in entries;
      if first.Some? && Verdict(codec, first.value) == None {
        var e := first.value;
        if !IsTemplateXml(e.name) {
          assert NamesOf(entries) == NamesOf(rest);
          JudgeAccepts(codec, rest, selected, total);
        } else {
          assert NamesOf(entries) == {e.name} + NamesOf(rest);
          assert selected + NamesOf(entries) == (selected + {e.name}) + NamesOf(rest);
          if total + e.uncompressed <= MAX_SELECTED_BYTES {
            JudgeAccepts(codec, rest, selected + {e.name}, total + e.uncompressed);
          }
        }
      }
    }
  }

  // ----- order

  lemma {:induction false} TotalOfSplit(a: seq<Option<Entry>>, b: seq<Option<Entry>>)
    ensures TotalOf(a + b) == TotalOf(a) + TotalOf(b)
  {
    if a == [] {
      assert a + b == b;
    } else {
      assert (a + b)[1..] == a[1..] + b;
      TotalOfSplit(a[1..], b);
    }
  }

  lemma RemoveAt<T>(s: seq<T>, k: nat)
    requires k < |s|
    ensures multiset(s[..k] + s[k + 1..]) == multiset(s) - multiset{s[k]}
  {
    assert s == (s[..k] + [s[k]]) + s[k + 1..];
    assert multiset(s) == (multiset(s[..k]) + multiset{s[k]}) + multiset(s[k + 1..]);
  }

  /** The first element of a list, found in a permutation of it. */
  lemma TakeOut<T>(a: seq<T>, b: seq<T>) returns (k: nat)
    requires a != [] && multiset(a) == multiset(b)
    ensures k < |b| && b[k] == a[0] && multiset(a[1..]) == multiset(b[..k] + b[k + 1..])
  {
    assert a[0] in multiset(b);
    k :| 0 <= k < |b| && b[k] == a[0];
    assert a == [a[0]] + a[1..];
    RemoveAt(a, 0);
    RemoveAt(b, k);
    assert a[..0] + a[1..] == a[1..];
  }

  lemma {:induction false} TotalOfPermutation(a: seq<Option<Entry>>, b: seq<Option<Entry>>)
    requires multiset(a) == multiset(b)
    ensures TotalOf(a) == TotalOf(b)
  {
    hide IsTemplateXml;
    if a == [] {
      assert |multiset(b)| == 0;
    } else {
      var first := a[0];
      var k := TakeOut(a, b);
      var before, after := b[..k], b[k + 1..];
      assert b == before + ([first] + after);
      TotalOfPermutation(a[1..], before + after);
      TotalOfSplit(before, after);
      TotalOfSplit(before, [first] + after);
    }
  }

  /** The order of the records changes neither whether the walk accepts nor what it selects. */
  lemma OrderIsIrrelevant(codec: Codec, a: seq<Option<Entry>>, b: seq<Option<Entry>>)
    requires multiset(a) == multiset(b)
    ensures var r, r' := Judge(codec, a, {}, 0), Judge(codec, b, {}, 0);
      (r.Selected? <==> r'.Selected?) && (r.Selected? ==> r.names == r'.names)
  {
    hide Verdict, IsTemplateXml, Judge;
    JudgeAccepts(codec, a, {}, 0);
    JudgeAccepts(codec, b, {}, 0);
    TotalOfPermutation(a, b);
    assert forall e :: e in a <==> e in multiset(a);
    assert forall e :: e in b <==> e in multiset(b);
    assert NamesOf(a) == NamesOf(b);
  }

  // ----- soundness on any bytes

  /** Where the k-th record starts, if the records before it are there. */
  function Place(b: seq<Byte>, at: nat, k: nat): Option<nat>
    decreases k
  {
    if k == 0 then Some(at)
    else
      match Place(b, at, k - 1)
      case None => None
      case Some(o) => if HasRecord(b, o) then Some(NextRecord(b, o)) else None
  }

  lemma {:induction false} PlaceFromNext(b: seq<Byte>, at: nat, k: nat)
    requires HasRecord(b, at)
    ensures Place(b, at, k + 1) == Place(b, NextRecord(b, at), k)
    decreases k
  {
    hide HasRecord, NextRecord;
    if k == 0 {
      assert Place(b, at, 0) == Some(at);
    } else {
      PlaceFromNext(b, at, k - 1);
    }
  }

  lemma FirstPlace(b: seq<Byte>, at: nat)
    ensures Place(b, at, 0) == Some(at)
  {
  }

  /** When all records are there, the k-th of them is the one at the k-th place. */
  lemma {:induction false} RecordsInPlace(codec: Codec, b: seq<Byte>, at: nat, count: nat, k: nat)
    requires AllPass(codec, Records(codec, b, at, count)) && k < count
    ensures |Records(codec, b, at, count)| == count
    ensures var o := Place(b, at, k);
      && o.Some? && HasRecord(b, o.value)
      && Records(codec, b, at, count)[k] == Some(EntryAt(codec, b, o.value))
    decreases count
  {
    hide Verdict, EntryAt, NextRecord, HasRecord, Place;
    var all := Records(codec, b, at, count);
    assert all[0] in all;
    FirstPlace(b, at);
    var rest := Records(codec, b, NextRecord(b, at), count - 1);
    assert all[1..] == rest;
    assert forall e | e in rest :: e in all;
    if k > 0 {
      PlaceFromNext(b, at, k - 1);
      RecordsInPlace(codec, b, NextRecord(b, at), count - 1, k - 1);
    } else if count > 1 {
      RecordsInPlace(codec, b, NextRecord(b, at), count - 1, 0);
    }
  }

  /** The k-th record is there, at its place, ends further on, and passes. */
  ghost predicate SoundRecord(codec: Codec, b: seq<Byte>, at: nat, entries: seq<Option<Entry>>, k: nat)
    requires k < |entries|
  {
    && Place(b, at, k).Some? && HasRecord(b, Place(b, at, k).value)
    && Place(b, at, k + 1).Some? && Place(b, at, k).value + 46 <= Place(b, at, k + 1).value
    && entries[k] == Some(EntryAt(codec, b, Place(b, at, k).value))
    && Verdict(codec, entries[k].value) == None
  }

  /**
   * What acceptance means for arbitrary bytes: the end record declares between 1 and 2048 entries;
   * that many records lie one behind the other from the declared offset, at growing offsets; none of
   * them is encrypted, leaves the archive root or is an active part; every selected one is within 2
   * MiB and the compression ratio; together they are within 8 MiB; and the result is the set of
   * their names, with the two required parts in it.
   */
  lemma AcceptanceIsSound(codec: Codec, b: seq<Byte>, e: nat)
    requires e + 22 <= |b| && InspectFrom(codec, b, e).Selected?
    ensures var count, at := U16(b, e + 10), U32(b, e + 16);
      var entries := Records(codec, b, at, count);
      && 1 <= count <= MAX_ZIP_ENTRIES && |entries| == count
      && (forall k | 0 <= k < count :: SoundRecord(codec, b, at, entries, k))
      && TotalOf(entries) <= MAX_SELECTED_BYTES
      && InspectFrom(codec, b, e).names == NamesOf(entries) && Complete(NamesOf(entries))
  {
    hide Verdict, IsTemplateXml, Judge, Records, EntryAt, U16, U32, HasRecord, NextRecord;
    var count, at := U16(b, e + 10), U32(b, e + 16);
    var entries := Records(codec, b, at, count);
    JudgeAccepts(codec, entries, {}, 0);
    assert {} + NamesOf(entries) == NamesOf(entries);
    RecordsInPlace(codec, b, at, count, 0);
    forall k | 0 <= k < count ensures SoundRecord(codec, b, at, entries, k) {
      RecordsInPlace(codec, b, at, count, k);
      assert entries[k] in entries;
      NextPlace(b, at, k);
    }
  }

  lemma NextPlace(b: seq<Byte>, at: nat, k: nat)
    requires Place(b, at, k).Some? && HasRecord(b, Place(b, at, k).value)
    ensures Place(b, at, k + 1) == Some(NextRecord(b, Place(b, at, k).value))
    ensures NextRecord(b, Place(b, at, k).value) >= Place(b, at, k).value + 46
  {
  }

  // ----- writing an archive

  /**
   * A central-directory record; `versions`, `middle` and `tail` are the fields nobody reads here. The
   * comment is declared `overrun` bytes longer than it is.
   */
  datatype RawEntry = RawEntry(
    versions: seq<Byte>, flags: nat, middle: seq<Byte>, compressed: nat, uncompressed: nat, tail: seq<Byte>,
    name: seq<Byte>, extra: seq<Byte>, comment: seq<Byte>, overrun: nat)

  const TWO_16: nat := 0x1_0000
  const TWO_32: nat := 0x1_0000_0000

  predicate Writable(e: RawEntry) {
    && |e.versions| == 4 && |e.middle| == 10 && |e.tail| == 12
    && e.flags < TWO_16 && e.compressed < TWO_32 && e.uncompressed < TWO_32
    && |e.name| < TWO_16 && |e.extra| < TWO_16 && |e.comment| + e.overrun < TWO_16
  }

  function Put16(n: nat): (b: seq<Byte>)
    requires n < TWO_16
    ensures |b| == 2 && U16(b, 0) == n
  {
    [n % 256, n / 256]
  }

  function Put32(n: nat): (b: seq<Byte>)
    requires n < TWO_32
    ensures |b| == 4 && U32(b, 0) == n
  {
    Put16(n % TWO_16) + Put16(n / TWO_16)
  }

  /** The record in four pieces: up to the sizes, the sizes, the lengths, the rest. */
  function Head(e: RawEntry): (b: seq<Byte>)
    requires Writable(e)
    ensures |b| == 20
  {
    Put32(ENTRY_SIGNATURE) + e.versions + Put16(e.flags) + e.middle
  }

  function Sizes(e: RawEntry): (b: seq<Byte>)
    requires Writable(e)
    ensures |b| == 8
  {
    Put32(e.compressed) + Put32(e.uncompressed)
  }

  function Lengths(e: RawEntry): (b: seq<Byte>)
    requires Writable(e)
    ensures |b| == 6
  {
    Put16(|e.name|) + Put16(|e.extra|) + Put16(|e.comment| + e.overrun)
  }

  function Record(e: RawEntry): (b: seq<Byte>)
    requires Writable(e)
    ensures |b| == 46 + |e.name| + |e.extra| + |e.comment|
  {
    Head(e) + Sizes(e) + Lengths(e) + e.tail + e.name + (e.extra + e.comment)
  }

  function Directory(entries: seq<RawEntry>): seq<Byte>
    requires forall e | e in entries :: Writable(e)
  {
    if entries == [] then [] else Record(entries[0]) + Directory(entries[1..])
  }

  /** The end record: `disks` and `here` are the fields nobody reads. */
  function EndRecord(disks: seq<Byte>, here: seq<Byte>, count: nat, size: nat, at: nat, comment: seq<Byte>): (b: seq<Byte>)
    requires |disks| == 4 && |here| == 2 && count < TWO_16 && size < TWO_32 && at < TWO_32 && |comment| < TWO_16
    ensures |b| == 22 + |comment|
  {
    Put32(EOCD_SIGNATURE) + disks + here + Put16(count) + Put32(size) + Put32(at) + Put16(|comment|) + comment
  }

  // ----- reading it back

  /** A field read inside a slice is the field read in the whole. */
  lemma ReadInside(b: seq<Byte>, o: nat, part: seq<Byte>, k: nat)
    requires o + |part| <= |b| && b[o..o + |part|] == part
    ensures k + 2 <= |part| ==> U16(b, o + k) == U16(part, k)
    ensures k + 4 <= |part| ==> U32(b, o + k) == U32(part, k)
  {
    SameBytes(b, o, part);
  }

  lemma SameBytes(b: seq<Byte>, o: nat, part: seq<Byte>)
    requires o + |part| <= |b| && b[o..o + |part|] == part
    ensures forall j | o <= j < o + |part| :: b[j] == part[j - o]
  {
    forall j | o <= j < o + |part| ensures b[j] == part[j - o] {
      assert b[o..o + |part|][j - o] == b[j];
    }
  }

  lemma SliceOfSlice(b: seq<Byte>, o: nat, part: seq<Byte>, k: nat, piece: seq<Byte>)
    requires o + |part| <= |b| && b[o..o + |part|] == part
    requires k + |piece| <= |part| && part[k..k + |piece|] == piece
    ensures b[o + k..o + k + |piece|] == piece
  {
    SameBytes(b, o, part);
    SameBytes(part, k, piece);
  }

  /** The entry that a raw record stands for. */
  function Parsed(codec: Codec, e: RawEntry): Entry {
    Entry(e.flags % 2 == 1, e.compressed, e.uncompressed, WithSlashes(codec.decode(e.name)))
  }

  lemma HeadFields(e: RawEntry)
    requires Writable(e)
    ensures U32(Head(e), 0) == ENTRY_SIGNATURE && U16(Head(e), 8) == e.flags
  {
    var b := Head(e);
    ReadInside(b, 0, Put32(ENTRY_SIGNATURE), 0);
    ReadInside(b, 8, Put16(e.flags), 0);
  }

  lemma SizesFields(e: RawEntry)
    requires Writable(e)
    ensures U32(Sizes(e), 0) == e.compressed && U32(Sizes(e), 4) == e.uncompressed
  {
    ReadInside(Sizes(e), 0, Put32(e.compressed), 0);
    ReadInside(Sizes(e), 4, Put32(e.uncompressed), 0);
  }

  lemma LengthsFields(e: RawEntry)
    requires Writable(e)
    ensures U16(Lengths(e), 0) == |e.name| && U16(Lengths(e), 2) == |e.extra|
    ensures U16(Lengths(e), 4) == |e.comment| + e.overrun
  {
    ReadInside(Lengths(e), 0, Put16(|e.name|), 0);
    ReadInside(Lengths(e), 2, Put16(|e.extra|), 0);
    ReadInside(Lengths(e), 4, Put16(|e.comment| + e.overrun), 0);
  }

  lemma RecordPieces(e: RawEntry)
    requires Writable(e)
    ensures var b := Record(e);
      b[0..20] == Head(e) && b[20..28] == Sizes(e) && b[28..34] == Lengths(e) && b[46..46 + |e.name|] == e.name
  {
    hide Head, Sizes, Lengths;
  }

  /** A written record is read back, wherever it lies. */
  lemma RecordReadBack(codec: Codec, b: seq<Byte>, at: nat, e: RawEntry)
    requires Writable(e) && at + |Record(e)| <= |b| && b[at..at + |Record(e)|] == Record(e)
    ensures HasRecord(b, at) && EntryAt(codec, b, at) == Parsed(codec, e)
    ensures NextRecord(b, at) == at + |Record(e)| + e.overrun
  {
    hide Head, Sizes, Lengths, U16, U32, Record;
    RecordPieces(e);
    SliceOfSlice(b, at, Record(e), 0, Head(e));
    SliceOfSlice(b, at, Record(e), 20, Sizes(e));
    SliceOfSlice(b, at, Record(e), 28, Lengths(e));
    SliceOfSlice(b, at, Record(e), 46, e.name);
    HeadFields(e);
    SizesFields(e);
    LengthsFields(e);
    ReadInside(b, at, Head(e), 0);
    ReadInside(b, at, Head(e), 8);
    ReadInside(b, at + 20, Sizes(e), 0);
    ReadInside(b, at + 20, Sizes(e), 4);
    ReadInside(b, at + 28, Lengths(e), 0);
    ReadInside(b, at + 28, Lengths(e), 2);
    ReadInside(b, at + 28, Lengths(e), 4);
  }

  function ParsedAll(codec: Codec, entries: seq<RawEntry>): (r: seq<Option<Entry>>)
    ensures |r| == |entries|
  {
    seq(|entries|, i requires 0 <= i < |entries| => Some(Parsed(codec, entries[i])))
  }

  /** By how much the last record runs past what is written of it. */
  function Overrun(entries: seq<RawEntry>): nat {
    if entries == [] then 0 else entries[|entries| - 1].overrun
  }

  /** Records lie one behind the other: only the last may run past its end. */
  predicate Contiguous(entries: seq<RawEntry>) {
    forall k | 0 <= k < |entries| - 1 :: entries[k].overrun == 0
  }

  lemma TailIsContiguous(entries: seq<RawEntry>)
    requires entries != [] && Contiguous(entries)
    ensures Contiguous(entries[1..])
    ensures |entries| > 1 ==> entries[0].overrun == 0 && Overrun(entries[1..]) == Overrun(entries)
    ensures |entries| == 1 ==> Overrun(entries) == entries[0].overrun
  {
  }

  /** A written directory is read back, and the walk ends behind it, or further on. */
  lemma {:induction false} DirectoryReadBack(codec: Codec, b: seq<Byte>, at: nat, entries: seq<RawEntry>)
    requires (forall e | e in entries :: Writable(e)) && Contiguous(entries)
    requires at + |Directory(entries)| <= |b| && b[at..at + |Directory(entries)|] == Directory(entries)
    ensures Records(codec, b, at, |entries|) == ParsedAll(codec, entries)
    ensures Place(b, at, |entries|) == Some(at + |Directory(entries)| + Overrun(entries))
    decreases |entries|
  {
    hide Record, HasRecord, EntryAt, NextRecord, Writable, Parsed, Contiguous, Place, ParsedAll, Overrun, Records;
    FirstPlace(b, at);
    if entries == [] {
      NothingParsed(codec, entries);
      NoRecords(codec, b, at);
    } else {
      var first, rest := entries[0], entries[1..];
      var head, tail := Record(first), Directory(rest);
      assert Directory(entries) == head + tail;
      hide Directory;
      SliceOfSlice(b, at, head + tail, 0, head);
      SliceOfSlice(b, at, head + tail, |head|, tail);
      RecordReadBack(codec, b, at, first);
      RecordsUnfold(codec, b, at, |entries|);
      TailIsContiguous(entries);
      PlaceFromNext(b, at, |rest|);
      ParsedFirst(codec, entries);
      if rest == [] {
        FirstPlace(b, NextRecord(b, at));
        NothingParsed(codec, rest);
        NoRecords(codec, b, NextRecord(b, at));
      } else {
        DirectoryReadBack(codec, b, at + |head|, rest);
      }
    }
  }

  lemma NoRecords(codec: Codec, b: seq<Byte>, at: nat)
    ensures Records(codec, b, at, 0) == []
  {
  }

  lemma RecordsUnfold(codec: Codec, b: seq<Byte>, at: nat, count: nat)
    requires count > 0 && HasRecord(b, at)
    ensures Records(codec, b, at, count) == [Some(EntryAt(codec, b, at))] + Records(codec, b, NextRecord(b, at), count - 1)
  {
    hide HasRecord, EntryAt, NextRecord;
  }

  lemma NothingParsed(codec: Codec, entries: seq<RawEntry>)
    requires entries == []
    ensures ParsedAll(codec, entries) == [] && Directory(entries) == [] && Overrun(entries) == 0
  {
  }

  lemma ParsedFirst(codec: Codec, entries: seq<RawEntry>)
    requires entries != []
    ensures ParsedAll(codec, entries) == [Some(Parsed(codec, entries[0]))] + ParsedAll(codec, entries[1..])
  {
    hide Parsed;
  }

  lemma EndFields(disks: seq<Byte>, here: seq<Byte>, count: nat, size: nat, at: nat, comment: seq<Byte>)
    requires |disks| == 4 && |here| == 2 && count < TWO_16 && size < TWO_32 && at < TWO_32 && |comment| < TWO_16
    ensures var b := EndRecord(disks, here, count, size, at, comment);
      U32(b, 0) == EOCD_SIGNATURE && U16(b, 10) == count && U32(b, 12) == size && U32(b, 16) == at
  {
    hide Put16, Put32;
    var b := EndRecord(disks, here, count, size, at, comment);
    ReadInside(b, 0, Put32(EOCD_SIGNATURE), 0);
    ReadInside(b, 10, Put16(count), 0);
    ReadInside(b, 12, Put32(size), 0);
    ReadInside(b, 16, Put32(at), 0);
  }

  /**
   * An archive: any leading bytes, the directory, the end record with its comment. The size that the
   * end record declares for the directory is anything.
   */
  datatype Archive = Archive(
    lead: seq<Byte>, entries: seq<RawEntry>, disks: seq<Byte>, here: seq<Byte>, size: nat, comment: seq<Byte>)

  predicate WritableArchive(a: Archive) {
    && (forall e | e in a.entries :: Writable(e)) && Contiguous(a.entries)
    && |a.disks| == 4 && |a.here| == 2 && |a.comment| < TWO_16
    && |a.entries| < TWO_16
    && |a.lead| < TWO_32 && a.size < TWO_32
  }

  function EndOf(a: Archive): nat
    requires WritableArchive(a)
  {
    |a.lead| + |Directory(a.entries)|
  }

  function Written(a: Archive): (b: seq<Byte>)
    requires WritableArchive(a)
    ensures |b| == EndOf(a) + 22 + |a.comment|
  {
    a.lead + Directory(a.entries) + EndRecord(a.disks, a.here, |a.entries|, a.size, |a.lead|, a.comment)
  }

  predicate CountFits(a: Archive) {
    1 <= |a.entries| <= 2_048
  }

  /** The directory, as long as it is declared, lies within the file. */
  predicate SizeFits(a: Archive)
    requires WritableArchive(a)
  {
    |a.lead| + a.size <= |Written(a)|
  }

  /** No end-of-directory signature behind the true one: none in the comment, in particular. */
  ghost predicate EndIsLast(a: Archive)
    requires WritableArchive(a)
  {
    forall o: nat | o > EndOf(a) :: !SignatureAt(Written(a), o)
  }

  /**
   * Round trip: for every archive whose comment hides no other end signature, the backward scan of
   * 65557 bytes reaches the true end record, however long the comment, and the inspection is the
   * walk over exactly the entries that were written, if their number and the declared size fit.
   */
  lemma WrittenReadBack(codec: Codec, a: Archive)
    requires WritableArchive(a) && EndIsLast(a)
    ensures IsLastSignature(Written(a), EndOf(a))
    ensures InspectFrom(codec, Written(a), EndOf(a))
         == if CountFits(a) && SizeFits(a) then Judge(codec, ParsedAll(codec, a.entries), {}, 0) else Error(Invalid)
    ensures Place(Written(a), |a.lead|, |a.entries|) == Some(EndOf(a) + Overrun(a.entries))
  {
    hide Judge, Records, ParsedAll, EndRecord, U16, U32, Directory, Place, Overrun, Contiguous;
    var b, d, o := Written(a), Directory(a.entries), EndOf(a);
    var end := EndRecord(a.disks, a.here, |a.entries|, a.size, |a.lead|, a.comment);
    assert b[o..o + |end|] == end;
    EndFields(a.disks, a.here, |a.entries|, a.size, |a.lead|, a.comment);
    ReadInside(b, o, end, 0);
    ReadInside(b, o, end, 10);
    ReadInside(b, o, end, 12);
    ReadInside(b, o, end, 16);
    assert b[|a.lead|..|a.lead| + |d|] == d;
    DirectoryReadBack(codec, b, |a.lead|, a.entries);
  }

  /** The template parts of a list of raw entries, and what they unpack to. */
  ghost function TemplateNames(codec: Codec, entries: seq<RawEntry>): set<string> {
    NamesOf(ParsedAll(codec, entries))
  }

  ghost predicate WithinLimits(codec: Codec, entries: seq<RawEntry>) {
    && (forall e | e in entries :: Verdict(codec, Parsed(codec, e)) == None)
    && TotalOf(ParsedAll(codec, entries)) <= MAX_SELECTED_BYTES
    && Complete(TemplateNames(codec, entries))
  }

  /**
   * A written archive is accepted exactly when the number of its entries and its declared size fit
   * and its entries satisfy the limits, with exactly their names.
   */
  lemma RoundTrip(codec: Codec, a: Archive)
    requires WritableArchive(a) && EndIsLast(a)
    ensures IsLastSignature(Written(a), EndOf(a))
    ensures var r := InspectFrom(codec, Written(a), EndOf(a));
      && (r.Selected? <==> CountFits(a) && SizeFits(a) && WithinLimits(codec, a.entries))
      && (r.Selected? ==> r.names == TemplateNames(codec, a.entries))
  {
    hide Judge, Verdict, IsTemplateXml, Written, TotalOf, NamesOf, WritableArchive, InspectFrom, Parsed, SizeFits;
    var parsed := ParsedAll(codec, a.entries);
    WrittenReadBack(codec, a);
    JudgeAccepts(codec, parsed, {}, 0);
    assert {} + NamesOf(parsed) == NamesOf(parsed);
    assert forall k | 0 <= k < |parsed| :: parsed[k] == Some(Parsed(codec, a.entries[k])) && parsed[k] in parsed;
    assert forall e | e in a.entries :: Some(Parsed(codec, e)) in parsed;
  }

  /** Writing the same records in another order changes neither acceptance nor the selection. */
  lemma ReorderedArchive(codec: Codec, a: Archive, b: Archive)
    requires WritableArchive(a) && EndIsLast(a) && WritableArchive(b) && EndIsLast(b)
    requires multiset(a.entries) == multiset(b.entries) && SizeFits(a) == SizeFits(b)
    ensures var r, r' := InspectFrom(codec, Written(a), EndOf(a)), InspectFrom(codec, Written(b), EndOf(b));
      (r.Selected? <==> r'.Selected?) && (r.Selected? ==> r.names == r'.names)
  {
    hide Judge, Verdict, IsTemplateXml, Written, WritableArchive, InspectFrom, EndIsLast, SizeFits;
    WrittenReadBack(codec, a);
    WrittenReadBack(codec, b);
    ParsedPermutation(codec, a.entries, b.entries);
    assert |a.entries| == |multiset(a.entries)| == |multiset(b.entries)| == |b.entries|;
    OrderIsIrrelevant(codec, ParsedAll(codec, a.entries), ParsedAll(codec, b.entries));
  }

  // ----- where the walk ends

  /** The entries differ at most in what their comments are declared to be. */
  predicate SameEntries(a: seq<RawEntry>, b: seq<RawEntry>) {
    |a| == |b| && forall k | 0 <= k < |a| :: a[k].(overrun := 0) == b[k].(overrun := 0)
  }

  /**
   * The declared size of the directory, and the declared length of its last comment, have no part in
   * the inspection: any two that fit the file give the same result.
   */
  lemma DeclaredSizeIsIgnored(codec: Codec, a: Archive, b: Archive)
    requires WritableArchive(a) && EndIsLast(a) && SizeFits(a) && WritableArchive(b) && EndIsLast(b) && SizeFits(b)
    requires SameEntries(a.entries, b.entries)
    ensures InspectFrom(codec, Written(a), EndOf(a)) == InspectFrom(codec, Written(b), EndOf(b))
  {
    hide Judge, Written, InspectFrom, EndIsLast, SizeFits;
    WrittenReadBack(codec, a);
    WrittenReadBack(codec, b);
    assert forall k | 0 <= k < |a.entries| :: a.entries[k].(overrun := 0) == b.entries[k].(overrun := 0);
    assert ParsedAll(codec, a.entries) == ParsedAll(codec, b.entries);
  }

  /**
   * The walk over a written archive ends within the declared directory exactly if the declared size
   * covers the records, and within the file exactly if the last comment does not reach past it.
   */
  lemma WalkEnds(codec: Codec, a: Archive)
    requires WritableArchive(a) && EndIsLast(a)
    ensures var end := Place(Written(a), |a.lead|, |a.entries|);
      && end.Some?
      && (end.value <= |a.lead| + a.size <==> |Directory(a.entries)| + Overrun(a.entries) <= a.size)
      && (end.value <= |Written(a)| <==> Overrun(a.entries) <= 22 + |a.comment|)
  {
    hide Judge, Place, InspectFrom, EndIsLast, SizeFits, Contiguous, Directory, Overrun, Writable;
    WrittenReadBack(codec, a);
  }

  /** Every record but the last ends before the file does; when the last one does, told from its fields. */
  ghost predicate OnlyLastMayRunOut(b: seq<Byte>, at: nat, count: nat)
    requires count > 0
  {
    && (forall k | 0 <= k < count ::
          Place(b, at, k).Some? && HasRecord(b, Place(b, at, k).value) && Place(b, at, k).value + 46 <= |b|)
    && var last := Place(b, at, count - 1).value;
    && Place(b, at, count) == Some(NextRecord(b, last))
    && (NextRecord(b, last) <= |b| <==> U16(b, last + 30) + U16(b, last + 32) <= |b| - (last + 46 + U16(b, last + 28)))
  }

  /**
   * In any accepted file every record but the last ends before the file does. The last one ends
   * within the file exactly if its extra field and comment fit behind its name.
   */
  lemma OnlyLastRunsOut(codec: Codec, b: seq<Byte>, e: nat)
    requires e + 22 <= |b| && InspectFrom(codec, b, e).Selected?
    ensures U16(b, e + 10) > 0 && OnlyLastMayRunOut(b, U32(b, e + 16), U16(b, e + 10))
  {
    hide InspectFrom, SoundRecord, Records, U16, U32, OnlyLastMayRunOut, NamesOf, Complete, TotalOf;
    AcceptanceIsSound(codec, b, e);
    var count, at := U16(b, e + 10), U32(b, e + 16);
    SoundRecordsEnd(codec, b, at, Records(codec, b, at, count));
  }

  lemma SoundRecordsEnd(codec: Codec, b: seq<Byte>, at: nat, entries: seq<Option<Entry>>)
    requires entries != [] && forall k | 0 <= k < |entries| :: SoundRecord(codec, b, at, entries, k)
    ensures OnlyLastMayRunOut(b, at, |entries|)
  {
    hide SoundRecord, Place, U16, U32, NextRecord, HasRecord;
    var count := |entries|;
    forall k | 0 <= k < count
      ensures Place(b, at, k).Some? && HasRecord(b, Place(b, at, k).value) && Place(b, at, k).value + 46 <= |b|
    {
      SoundPlace(codec, b, at, entries, k);
    }
    NextPlace(b, at, count - 1);
    RecordEnds(b, Place(b, at, count - 1).value);
  }

  lemma SoundPlace(codec: Codec, b: seq<Byte>, at: nat, entries: seq<Option<Entry>>, k: nat)
    requires k < |entries| && SoundRecord(codec, b, at, entries, k)
    ensures Place(b, at, k).Some? && HasRecord(b, Place(b, at, k).value) && Place(b, at, k).value + 46 <= |b|
  {
    hide Place, U16, U32, Verdict, EntryAt;
  }

  lemma RecordEnds(b: seq<Byte>, o: nat)
    requires HasRecord(b, o)
    ensures o + 46 <= |b|
    ensures NextRecord(b, o) <= |b| <==> U16(b, o + 30) + U16(b, o + 32) <= |b| - (o + 46 + U16(b, o + 28))
  {
    hide U16, U32;
  }

  // ----- archives that run past their directory and their file

  /** One byte, one character; case is kept. */
  function PlainCodec(): Codec {
    Codec(b => seq(|b|, i requires 0 <= i < |b| => b[i] as char), s => s)
  }

  predicate IsAscii(s: string) {
    forall i | 0 <= i < |s| :: s[i] < '\U{80}'
  }

  function AsciiByte(c: char): Byte
    requires c < '\U{80}'
  {
    c as int
  }

  function Ascii(s: string): (b: seq<Byte>)
    requires IsAscii(s)
    ensures |b| == |s|
  {
    seq(|s|, i requires 0 <= i < |s| => AsciiByte(s[i]))
  }

  function Zeros(n: nat): (b: seq<Byte>)
    ensures |b| == n
  {
    seq(n, i => 0)
  }

  /** An empty part. */
  function Part(name: string, overrun: nat): RawEntry
    requires IsAscii(name)
  {
    RawEntry(Zeros(4), 0, Zeros(10), 0, 0, Zeros(12), Ascii(name), [], [], overrun)
  }

  /** The two required parts, and nothing else. */
  function Smallest(size: nat, overrun: nat): Archive {
    Archive([], [Part(CONTENT_TYPES, 0), Part(PRESENTATION, overrun)], Zeros(4), Zeros(2), size, [])
  }

  lemma SmallestIsWritable(size: nat, overrun: nat)
    requires size < TWO_32 && overrun < TWO_16
    ensures WritableArchive(Smallest(size, overrun)) && EndIsLast(Smallest(size, overrun))
    ensures |Directory(Smallest(size, overrun).entries)| == 131 && Overrun(Smallest(size, overrun).entries) == overrun
  {
    hide Record, Ascii, Zeros, IsAscii, EndRecord;
    var a := Smallest(size, overrun);
    assert a.entries[1..] == [a.entries[1]] && a.entries[1..][1..] == [];
    assert |Record(a.entries[0])| == 65 && |Record(a.entries[1])| == 66;
    assert Directory([a.entries[1]]) == Record(a.entries[1]) + [];
    assert |Directory(a.entries)| == 131;
    assert a.entries[|a.entries| - 1] == a.entries[1] && a.entries[1].overrun == overrun;
  }

  lemma PartIsParsed(name: string, overrun: nat)
    requires IsAscii(name) && '\\' !in name
    ensures Parsed(PlainCodec(), Part(name, overrun)) == Entry(false, 0, 0, name)
  {
    var e := Part(name, overrun);
    assert e.name == Ascii(name);
    assert PlainCodec().decode(e.name) == name;
    assert WithSlashes(name) == name;
  }

  /** A text contains nothing that has a character which it has not. */
  lemma ContainsNot(s: string, part: string, j: nat)
    requires j < |part| && part[j] !in s
    ensures !Contains(s, part)
  {
    forall i | 0 <= i <= |s|
      ensures !OccursAt(s, part, i)
    {
      if i + |part| <= |s| {
        assert s[i..i + |part|][j] == s[i + j] && s[i + j] in s;
      }
    }
  }

  lemma EndsWithNot(s: string, part: string)
    requires s != "" && part != "" && s[|s| - 1] != part[|part| - 1]
    ensures !EndsWith(s, part)
  {
    if |part| <= |s| {
      assert s[|s| - |part|..][|part| - 1] == s[|s| - 1];
    }
  }

  lemma StaysInRoot(s: string)
    requires s != "" && s[0] != '/' && forall i | 0 <= i < |s| - 1 :: s[i] != '.' || s[i + 1] != '.'
    ensures !EscapesRoot(s)
  {
    forall i | 0 <= i <= |s|
      ensures !OccursAt(s, "../", i) && !OccursAt(s, "..", i)
    {
      if i + 2 <= |s| {
        assert s[i..i + 2][0] == s[i] && s[i..i + 2][1] == s[i + 1];
      }
      if i + 3 <= |s| {
        assert s[i..i + 3][0] == s[i] && s[i..i + 3][1] == s[i + 1];
      }
    }
  }

  lemma IsNoActivePart(s: string)
    requires s != "" && s[|s| - 1] == 'l' && ('/' !in s || ('b' !in s && 'c' !in s))
    ensures !IsUnsafePart(PlainCodec(), s)
  {
    EndsWithNot(s, ".pptm");
    EndsWithNot(s, ".vba");
    EndsWithNot(s, "vbaproject.bin");
    var j := if '/' !in s then 0 else 2;
    ContainsNot(s, "/activex/", j);
    ContainsNot(s, "/embeddings/", if '/' !in s then 0 else 3);
    ContainsNot(s, "/oleobjects/", if '/' !in s then 0 else 5);
    ContainsNot(s, "/macrosheets/", if '/' !in s then 0 else 3);
  }

  lemma RequiredPartsStayInRoot()
    ensures !EscapesRoot(CONTENT_TYPES) && !EscapesRoot(PRESENTATION)
  {
    hide EscapesRoot;
    StaysInRoot(CONTENT_TYPES);
    StaysInRoot(PRESENTATION);
  }

  lemma ContentTypesLetters()
    ensures CONTENT_TYPES != "" && CONTENT_TYPES[|CONTENT_TYPES| - 1] == 'l' && '/' !in CONTENT_TYPES
  {
  }

  lemma PresentationLetters()
    ensures PRESENTATION != "" && PRESENTATION[|PRESENTATION| - 1] == 'l' && 'b' !in PRESENTATION && 'c' !in PRESENTATION
  {
  }

  lemma RequiredPartsAreNotActive()
    ensures !IsUnsafePart(PlainCodec(), CONTENT_TYPES) && !IsUnsafePart(PlainCodec(), PRESENTATION)
  {
    hide *;
    ContentTypesLetters();
    PresentationLetters();
    IsNoActivePart(CONTENT_TYPES);
    IsNoActivePart(PRESENTATION);
  }

  lemma RequiredPartsAreAscii()
    ensures IsAscii(CONTENT_TYPES) && '\\' !in CONTENT_TYPES
    ensures IsAscii(PRESENTATION) && '\\' !in PRESENTATION
  {
  }

  lemma EmptyPartPasses(codec: Codec, name: string)
    requires !EscapesRoot(name) && !IsUnsafePart(codec, name)
    ensures Verdict(codec, Entry(false, 0, 0, name)) == None
  {
    hide EscapesRoot, IsUnsafePart, IsTemplateXml;
  }

  /** The smallest archive is accepted, whatever size it declares within the file, and however long its last comment. */
  lemma SmallestIsAccepted(size: nat, overrun: nat)
    requires size <= 153 && overrun < TWO_16
    ensures WritableArchive(Smallest(size, overrun)) && EndIsLast(Smallest(size, overrun))
    ensures var a := Smallest(size, overrun);
      InspectFrom(PlainCodec(), Written(a), EndOf(a)).Selected? && |Written(a)| == 153
  {
    var a, codec := Smallest(size, overrun), PlainCodec();
    hide Verdict, Parsed, Directory, Written, InspectFrom, EndIsLast, Contiguous, Writable, EscapesRoot, IsUnsafePart, Part,
      PlainCodec, Ascii, Zeros, IsAscii;
    SmallestIsWritable(size, overrun);
    RequiredPartsStayInRoot();
    RequiredPartsAreNotActive();
    RequiredPartsAreAscii();
    EmptyPartPasses(codec, CONTENT_TYPES);
    EmptyPartPasses(codec, PRESENTATION);
    PartIsParsed(CONTENT_TYPES, 0);
    PartIsParsed(PRESENTATION, overrun);
    RoundTrip(codec, a);
    WithinWhen(codec, a.entries);
  }

  lemma WithinWhen(codec: Codec, entries: seq<RawEntry>)
    requires |entries| == 2
    requires Parsed(codec, entries[0]) == Entry(false, 0, 0, CONTENT_TYPES) && Verdict(codec, Parsed(codec, entries[0])) == None
    requires Parsed(codec, entries[1]) == Entry(false, 0, 0, PRESENTATION) && Verdict(codec, Parsed(codec, entries[1])) == None
    ensures WithinLimits(codec, entries)
  {
    hide Verdict, Parsed, EndsWith;
    var parsed := ParsedAll(codec, entries);
    var first, second := Entry(false, 0, 0, CONTENT_TYPES), Entry(false, 0, 0, PRESENTATION);
    assert entries == [entries[0], entries[1]];
    assert parsed == [Some(first), Some(second)];
    assert parsed[1..] == [Some(second)] && parsed[1..][1..] == [];
    assert TotalOf(parsed[1..]) == 0;
    assert TotalOf(parsed) == 0;
    assert Some(first) in parsed && Some(second) in parsed;
    assert IsTemplateXml(first.name) && IsTemplateXml(second.name);
    assert first.name in NamesOf(parsed) && second.name in NamesOf(parsed);
  }

  /** An accepted archive that declares an empty directory: the walk goes past its end. */
  lemma RunsPastDirectory()
    ensures var a := Smallest(0, 0);
      && WritableArchive(a) && EndIsLast(a)
      && InspectFrom(PlainCodec(), Written(a), EndOf(a)).Selected?
      && var end := Place(Written(a), |a.lead|, |a.entries|);
         end.Some? && end.value > |a.lead| + a.size
  {
    SmallestIsAccepted(0, 0);
    SmallestIsWritable(0, 0);
    hide *;
    WalkEnds(PlainCodec(), Smallest(0, 0));
  }

  /** An accepted archive whose last comment is declared longer than the rest of the file. */
  lemma RunsPastFile()
    ensures var a := Smallest(131, 23);
      && WritableArchive(a) && EndIsLast(a)
      && InspectFrom(PlainCodec(), Written(a), EndOf(a)).Selected?
      && var end := Place(Written(a), |a.lead|, |a.entries|);
         end.Some? && end.value > |Written(a)|
  {
    SmallestIsAccepted(131, 23);
    SmallestIsWritable(131, 23);
    hide *;
    WalkEnds(PlainCodec(), Smallest(131, 23));
  }

  lemma {:induction false} ParsedPermutation(codec: Codec, a: seq<RawEntry>, b: seq<RawEntry>)
    requires multiset(a) == multiset(b)
    ensures multiset(ParsedAll(codec, a)) == multiset(ParsedAll(codec, b))
  {
    hide ParsedAll;
    if a == [] {
      assert |multiset(b)| == 0;
    } else {
      var k := TakeOut(a, b);
      var before, after := b[..k], b[k + 1..];
      ParsedPermutation(codec, a[1..], before + after);
      assert a == [a[0]] + a[1..];
      assert b == before + ([a[0]] + after);
      ParsedAllAppend(codec, [a[0]], a[1..]);
      ParsedAllAppend(codec, [a[0]], after);
      ParsedAllAppend(codec, before, [a[0]] + after);
      ParsedAllAppend(codec, before, after);
    }
  }

  lemma ParsedAllAppend(codec: Codec, a: seq<RawEntry>, b: seq<RawEntry>)
    ensures ParsedAll(codec, a + b) == ParsedAll(codec, a) + ParsedAll(codec, b)
  {
    hide Parsed;
  }
}
