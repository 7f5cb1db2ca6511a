/**
 * Which archives are accepted, in terms of the names and numbers that are written in them: what the
 * inspection in dashboard/src/features/presentationTemplates.ts is for.
 */
module PptxPolicy {
  import opened JsText
  import opened PptxArchive

  // ----- names

  ghost predicate StartsAs(s: string, part: string) {
    exists rest: string :: s == part + rest
  }

  ghost predicate EndsAs(s: string, part: string) {
    exists rest: string :: s == rest + part
  }

  ghost predicate Within(s: string, part: string) {
    exists before: string, behind: string :: s == before + part + behind
  }

  /** The name with a slash for each backslash. */
  ghost predicate Turned(decoded: string, name: string) {
    |decoded| == |name| && forall i | 0 <= i < |name| :: name[i] == if decoded[i] == '\\' then '/' else decoded[i]
  }

  /** The name is absolute, or has a component `..`, or contains `../` at all. */
  ghost predicate LeavesRoot(name: string) {
    StartsAs(name, "/") || name == ".." || EndsAs(name, "/..") || Within(name, "../")
  }

  ghost predicate IsActive(lower: string) {
    || EndsAs(lower, ".pptm") || EndsAs(lower, ".vba") || EndsAs(lower, "vbaproject.bin")
    || Within(lower, "/activex/") || Within(lower, "/embeddings/")
    || Within(lower, "/oleobjects/") || Within(lower, "/macrosheets/")
  }

  ghost predicate IsThemeXml(name: string) {
    exists middle: string :: name == "ppt/theme/" + middle + ".xml"
  }

  ghost predicate IsSelected(name: string) {
    || name == "[Content_Types].xml" || name == "ppt/presentation.xml"
    || IsThemeXml(name) || EndsAs(name, ".rels")
  }

  lemma StartsIff(s: string, part: string)
    ensures StartsAs(s, part) <==> part <= s
  {
    if part <= s {
      assert s == part + s[|part|..];
    }
  }

  lemma EndsIff(s: string, part: string)
    ensures EndsAs(s, part) <==> EndsWith(s, part)
  {
    if EndsWith(s, part) {
      assert s == s[..|s| - |part|] + part;
    }
    if EndsAs(s, part) {
      var rest: string :| s == rest + part;
      assert s[|s| - |part|..] == part;
    }
  }

  lemma WithinIff(s: string, part: string)
    ensures Within(s, part) <==> Contains(s, part)
  {
    if Contains(s, part) {
      var i :| 0 <= i <= |s| && OccursAt(s, part, i);
      assert s == s[..i] + part + s[i + |part|..];
    }
    if Within(s, part) {
      var before: string, behind: string :| s == before + part + behind;
      assert s[|before|..|before| + |part|] == part;
      assert OccursAt(s, part, |before|);
    }
  }

  lemma TurnedIff(decoded: string, name: string)
    ensures Turned(decoded, name) <==> name == WithSlashes(decoded)
  {
  }

  /** A component `..` is the whole name, ends it, or is followed by a slash. */
  lemma ParentMeans(name: string, i: nat)
    requires i <= |name| && OccursAt(name, "..", i)
    requires (i == 0 || name[i - 1] == '/') && (i + 2 == |name| || name[i + 2] == '/')
    ensures Contains(name, "../") || name == ".." || EndsWith(name, "/..")
  {
    if i + 2 < |name| {
      assert name[i..i + 3] == name[i..i + 2] + [name[i + 2]];
      assert OccursAt(name, "../", i);
    } else if i > 0 {
      assert name[i - 1..] == [name[i - 1]] + name[i..i + 2];
    } else {
      assert name == name[0..2];
    }
  }

  lemma EndingParent(name: string)
    requires name == ".." || EndsWith(name, "/..")
    ensures HasParentComponent(name)
  {
    var i := |name| - 2;
    if name == ".." {
      assert OccursAt(name, "..", 0);
    } else {
      var tail := name[i - 1..];
      assert tail == "/..";
      assert name[i..i + 2] == tail[1..] && name[i - 1] == tail[0];
      assert OccursAt(name, "..", i);
    }
  }

  lemma ParentIff(name: string)
    ensures HasParentComponent(name) || Contains(name, "../") <==> name == ".." || EndsAs(name, "/..") || Within(name, "../")
  {
    WithinIff(name, "../");
    EndsIff(name, "/..");
    if HasParentComponent(name) {
      var i :| 0 <= i <= |name| && OccursAt(name, "..", i) && (i == 0 || name[i - 1] == '/')
               && (i + 2 == |name| || name[i + 2] == '/');
      ParentMeans(name, i);
    }
    hide HasParentComponent, EndsWith, EndsAs, Within, Contains;
    if name == ".." || EndsWith(name, "/..") {
      EndingParent(name);
    }
  }

  lemma LeavesRootIff(name: string)
    ensures LeavesRoot(name) <==> EscapesRoot(name)
  {
    StartsIff(name, "/");
    ParentIff(name);
    hide HasParentComponent, Contains, StartsAs, EndsAs, Within;
  }

  lemma ActiveIff(codec: Codec, name: string)
    ensures IsActive(codec.lower(name)) <==> IsUnsafePart(codec, name)
  {
    var lower := codec.lower(name);
    EndsIff(lower, ".pptm");
    EndsIff(lower, ".vba");
    EndsIff(lower, "vbaproject.bin");
    WithinIff(lower, "/activex/");
    WithinIff(lower, "/embeddings/");
    WithinIff(lower, "/oleobjects/");
    WithinIff(lower, "/macrosheets/");
    hide EndsAs, EndsWith, Within, Contains;
  }

  /** A beginning and an end of a text that share no character leave a middle between them. */
  lemma ThemeIff(name: string)
    ensures IsThemeXml(name) <==> "ppt/theme/" <= name && EndsWith(name, ".xml")
  {
    var head, tail := "ppt/theme/", ".xml";
    if IsThemeXml(name) {
      var middle: string :| name == head + middle + tail;
      assert name == head + (middle + tail);
      assert name[|name| - |tail|..] == tail;
    }
    if head <= name && EndsWith(name, tail) {
      var n := |name| - |tail|;
      assert name[n] == '.' by {
        assert name[n..][0] == tail[0];
      }
      assert name[n + 1] == 'x' by {
        assert name[n..][1] == tail[1];
      }
      assert forall i | 0 <= i < |head| :: name[i] == head[i] != '.';
      assert n >= |head|;
      assert name == head + name[|head|..n] + tail;
    }
  }

  lemma SelectedIff(name: string)
    ensures IsSelected(name) <==> IsTemplateXml(name)
  {
    ThemeIff(name);
    EndsIff(name, ".rels");
    hide IsThemeXml, EndsWith, EndsAs;
  }

  // ----- entries

  predicate TooLargeBySelf(e: RawEntry) {
    e.uncompressed > 2_097_152 || (e.compressed > 0 && e.uncompressed > 100 * e.compressed)
  }

  /** Nothing is wrong with an entry by itself. */
  ghost predicate Allowed(codec: Codec, e: RawEntry) {
    forall name | Turned(codec.decode(e.name), name) ::
      && e.flags % 2 == 0
      && !LeavesRoot(name)
      && !IsActive(codec.lower(name))
      && (IsSelected(name) ==> !TooLargeBySelf(e))
  }

  ghost predicate IsTemplatePart(codec: Codec, e: RawEntry) {
    exists name :: Turned(codec.decode(e.name), name) && IsSelected(name)
  }

  /** What the selected entries unpack to, all together. */
  ghost function Unpacked(codec: Codec, entries: seq<RawEntry>): nat {
    if entries == [] then 0
    else
      var last := entries[|entries| - 1];
      Unpacked(codec, entries[..|entries| - 1]) + (if IsTemplatePart(codec, last) then last.uncompressed else 0)
  }

  /** The archive holds a part of that name. */
  ghost predicate Holds(codec: Codec, entries: seq<RawEntry>, name: string) {
    exists e :: e in entries && Turned(codec.decode(e.name), name)
  }

  lemma NameOf(codec: Codec, e: RawEntry)
    ensures forall name :: Turned(codec.decode(e.name), name) <==> name == Parsed(codec, e).name
  {
    forall name ensures Turned(codec.decode(e.name), name) <==> name == Parsed(codec, e).name {
      TurnedIff(codec.decode(e.name), name);
    }
  }

  lemma AllowedIff(codec: Codec, e: RawEntry)
    ensures Allowed(codec, e) <==> Verdict(codec, Parsed(codec, e)) == None
    ensures IsTemplatePart(codec, e) <==> IsTemplateXml(Parsed(codec, e).name)
  {
    NameOf(codec, e);
    var name := Parsed(codec, e).name;
    assert Turned(codec.decode(e.name), name);
    LeavesRootIff(name);
    ActiveIff(codec, name);
    SelectedIff(name);
    hide Turned, LeavesRoot, EscapesRoot, IsActive, IsUnsafePart, IsSelected, IsTemplateXml, WithSlashes;
  }

  lemma {:induction false} UnpackedIsTotal(codec: Codec, entries: seq<RawEntry>)
    ensures Unpacked(codec, entries) == TotalOf(ParsedAll(codec, entries))
  {
    hide Parsed, IsTemplatePart, IsTemplateXml;
    if entries == [] {
      assert ParsedAll(codec, entries) == [];
    } else {
      var init, last := entries[..|entries| - 1], entries[|entries| - 1];
      UnpackedIsTotal(codec, init);
      AllowedIff(codec, last);
      SameSize(codec, last);
      var one := [Some(Parsed(codec, last))];
      assert ParsedAll(codec, entries) == ParsedAll(codec, init) + one;
      TotalOfSplit(ParsedAll(codec, init), one);
      assert one[1..] == [];
    }
  }

  lemma NamesIff(codec: Codec, entries: seq<RawEntry>)
    ensures forall name :: name in TemplateNames(codec, entries) <==> IsSelected(name) && Holds(codec, entries, name)
  {
    var parsed := ParsedAll(codec, entries);
    forall name
      ensures name in TemplateNames(codec, entries) <==> IsSelected(name) && Holds(codec, entries, name)
    {
      SelectedIff(name);
      hide IsSelected, IsTemplateXml, Turned, Parsed;
      if name in TemplateNames(codec, entries) {
        var k :| 0 <= k < |parsed| && parsed[k].value.name == name && IsTemplateXml(name);
        NameOf(codec, entries[k]);
        assert entries[k] in entries;
      }
      if IsSelected(name) && Holds(codec, entries, name) {
        var e :| e in entries && Turned(codec.decode(e.name), name);
        NameOf(codec, e);
        var k :| 0 <= k < |entries| && entries[k] == e;
        assert parsed[k] in parsed && parsed[k].value.name == name;
      }
    }
  }

  // ----- acceptance

  /**
   * A written archive is accepted exactly if it has between 1 and 2048 entries, declares a directory
   * within the file, every entry is allowed, the selected ones unpack to 8 MiB at most, and the two
   * required parts are there. The result is the set of the selected names that it holds.
   */
  lemma AcceptedExactlyWhen(codec: Codec, a: Archive)
    requires WritableArchive(a) && EndIsLast(a)
    ensures var r := InspectFrom(codec, Written(a), EndOf(a));
      && (r.Selected? <==>
            && 1 <= |a.entries| <= 2_048
            && |a.lead| + a.size <= |Written(a)|
            && (forall e | e in a.entries :: Allowed(codec, e))
            && Unpacked(codec, a.entries) <= 8_388_608
            && Holds(codec, a.entries, "[Content_Types].xml") && Holds(codec, a.entries, "ppt/presentation.xml"))
      && (r.Selected? ==> forall name :: name in r.names <==> IsSelected(name) && Holds(codec, a.entries, name))
  {
    hide Judge, Verdict, IsTemplateXml, Written, TotalOf, WritableArchive, InspectFrom, Parsed, EndIsLast, Allowed, Unpacked,
      Holds, NamesOf, TemplateNames;
    RoundTrip(codec, a);
    UnpackedIsTotal(codec, a.entries);
    NamesIff(codec, a.entries);
    forall e | e in a.entries ensures Allowed(codec, e) <==> Verdict(codec, Parsed(codec, e)) == None {
      AllowedIff(codec, e);
    }
    RequiredAreSelected();
  }

  lemma RequiredAreSelected()
    ensures IsSelected("[Content_Types].xml") && IsSelected("ppt/presentation.xml")
    ensures CONTENT_TYPES == "[Content_Types].xml" && PRESENTATION == "ppt/presentation.xml"
  {
  }

  /** An archive with one active part, wherever it lies and whatever comes around its name, is refused. */
  lemma ActivePartsAreRefused(codec: Codec, a: Archive, e: RawEntry, name: string, p: string, q: string)
    requires WritableArchive(a) && EndIsLast(a) && e in a.entries && Turned(codec.decode(e.name), name)
    requires var lower := codec.lower(name);
      || lower == p + "vbaproject.bin" || lower == p + ".vba" || lower == p + ".pptm"
      || lower == p + "/activex/" + q || lower == p + "/embeddings/" + q
      || lower == p + "/oleobjects/" + q || lower == p + "/macrosheets/" + q
    ensures InspectFrom(codec, Written(a), EndOf(a)).Error?
  {
    hide Written, InspectFrom, EndIsLast, WritableArchive, Turned;
    AcceptedExactlyWhen(codec, a);
    assert IsActive(codec.lower(name));
    hide IsActive;
    assert !Allowed(codec, e);
  }

  /** An archive with a name that leads out of it is refused. */
  lemma EscapingNamesAreRefused(codec: Codec, a: Archive, e: RawEntry, name: string, p: string, q: string)
    requires WritableArchive(a) && EndIsLast(a) && e in a.entries && Turned(codec.decode(e.name), name)
    requires name == "/" + q || name == ".." || name == "../" + q || name == p + "/.." || name == p + "/../" + q
    ensures InspectFrom(codec, Written(a), EndOf(a)).Error?
  {
    hide Written, InspectFrom, EndIsLast, WritableArchive, Turned;
    AcceptedExactlyWhen(codec, a);
    if name == "../" + q {
      assert name == "" + "../" + q;
    } else if name == p + "/../" + q {
      assert name == (p + "/") + "../" + q;
    }
    assert LeavesRoot(name);
    hide LeavesRoot;
    assert !Allowed(codec, e);
  }

  /** Nothing is wrong with a record by itself, told from what is read of it. */
  ghost predicate IsHarmless(codec: Codec, e: Entry) {
    && !e.encrypted && !LeavesRoot(e.name) && !IsActive(codec.lower(e.name))
    && (IsSelected(e.name) ==> e.uncompressed <= 2_097_152 && (e.compressed > 0 ==> e.uncompressed <= 100 * e.compressed))
  }

  lemma HarmlessIff(codec: Codec, e: Entry)
    ensures IsHarmless(codec, e) <==> Verdict(codec, e) == None
  {
    LeavesRootIff(e.name);
    ActiveIff(codec, e.name);
    SelectedIff(e.name);
    hide LeavesRoot, EscapesRoot, IsActive, IsUnsafePart, IsSelected, IsTemplateXml;
  }

  /** In any bytes at all that are accepted, every record is harmless, and so is every name that is selected. */
  lemma AcceptedBytesAreHarmless(codec: Codec, b: seq<Byte>, e: nat)
    requires e + 22 <= |b| && InspectFrom(codec, b, e).Selected?
    ensures var count, at := U16(b, e + 10), U32(b, e + 16);
      var entries := Records(codec, b, at, count);
      && 1 <= count <= 2_048 && |entries| == count
      && (forall k | 0 <= k < count :: entries[k].Some? && IsHarmless(codec, entries[k].value))
      && (forall name | name in InspectFrom(codec, b, e).names ::
            IsSelected(name) && exists k | 0 <= k < count :: entries[k].Some? && entries[k].value.name == name)
  {
    hide InspectFrom, Records, U16, U32, Verdict, IsHarmless, IsSelected, IsTemplateXml, Complete, TotalOf, EntryAt, Place,
      HasRecord;
    AcceptanceIsSound(codec, b, e);
    var count, at := U16(b, e + 10), U32(b, e + 16);
    var entries := Records(codec, b, at, count);
    forall k | 0 <= k < count ensures entries[k].Some? && IsHarmless(codec, entries[k].value) {
      assert SoundRecord(codec, b, at, entries, k);
      HarmlessIff(codec, entries[k].value);
    }
    forall name | name in InspectFrom(codec, b, e).names
      ensures IsSelected(name) && exists k | 0 <= k < count :: entries[k].Some? && entries[k].value.name == name
    {
      SelectedIff(name);
    }
  }

  // ----- which error

  /** The first k entries are in order. */
  ghost predicate InOrder(codec: Codec, entries: seq<RawEntry>, k: nat)
    requires k <= |entries|
  {
    (forall j | 0 <= j < k :: Allowed(codec, entries[j])) && Unpacked(codec, entries[..k]) <= 8_388_608
  }

  lemma {:induction false} JudgeFrom(codec: Codec, entries: seq<RawEntry>, k: nat) returns (selected: set<string>)
    requires k <= |entries| && InOrder(codec, entries, k)
    ensures Judge(codec, ParsedAll(codec, entries), {}, 0)
         == Judge(codec, ParsedAll(codec, entries)[k..], selected, Unpacked(codec, entries[..k]))
    decreases k
  {
    hide Verdict, Parsed, IsTemplatePart, IsTemplateXml, Allowed;
    var parsed := ParsedAll(codec, entries);
    if k == 0 {
      selected := {};
      assert parsed[0..] == parsed && entries[..0] == [];
    } else {
      var last := entries[k - 1];
      assert entries[..k][..k - 1] == entries[..k - 1];
      var before := JudgeFrom(codec, entries, k - 1);
      AllowedIff(codec, last);
      assert parsed[k - 1..][0] == Some(Parsed(codec, last)) && parsed[k - 1..][1..] == parsed[k..];
      assert Parsed(codec, last).uncompressed == last.uncompressed by {
        SameSize(codec, last);
      }
      selected := if IsTemplateXml(Parsed(codec, last).name) then before + {Parsed(codec, last).name} else before;
    }
  }

  lemma SameSize(codec: Codec, e: RawEntry)
    ensures Parsed(codec, e).uncompressed == e.uncompressed && Parsed(codec, e).compressed == e.compressed
    ensures Parsed(codec, e).encrypted <==> e.flags % 2 == 1
  {
  }

  /**
   * The first entry that is not in order decides the error: an encrypted one or one that leads out of
   * the archive is invalid, an active one unsafe, one that unpacks to too much too large.
   */
  lemma FirstOffenceDecides(codec: Codec, a: Archive, k: nat, name: string)
    requires WritableArchive(a) && EndIsLast(a) && CountFits(a) && SizeFits(a)
    requires k < |a.entries| && InOrder(codec, a.entries, k) && Turned(codec.decode(a.entries[k].name), name)
    ensures var e, r := a.entries[k], InspectFrom(codec, Written(a), EndOf(a));
      if e.flags % 2 == 1 || LeavesRoot(name) then r == Error(Invalid)
      else if IsActive(codec.lower(name)) then r == Error(Unsafe)
      else if IsSelected(name) && (TooLargeBySelf(e) || Unpacked(codec, a.entries[..k]) + e.uncompressed > 8_388_608) then
        r == Error(TooLarge)
      else InOrder(codec, a.entries, k + 1)
  {
    hide Written, InspectFrom, EndIsLast, WritableArchive, LeavesRoot, IsActive, IsSelected, EscapesRoot, IsUnsafePart,
      IsTemplateXml, Turned, InOrder, CountFits, SizeFits, Unpacked;
    var e := a.entries[k];
    WrittenReadBack(codec, a);
    var selected := JudgeFrom(codec, a.entries, k);
    NameOf(codec, e);
    SameSize(codec, e);
    LeavesRootIff(name);
    ActiveIff(codec, name);
    SelectedIff(name);
    var rest := ParsedAll(codec, a.entries)[k..];
    assert rest[0] == Some(Parsed(codec, e));
    hide Parsed, ParsedAll;
    JudgeFirst(codec, rest, selected, Unpacked(codec, a.entries[..k]));
    if e.flags % 2 == 0 && !LeavesRoot(name) && !IsActive(codec.lower(name))
       && (IsSelected(name) ==> !TooLargeBySelf(e) && Unpacked(codec, a.entries[..k]) + e.uncompressed <= 8_388_608) {
      OneMoreInOrder(codec, a.entries, k, name);
    }
  }

  /** What the walk says of its first record, if that is where it stops. */
  lemma JudgeFirst(codec: Codec, entries: seq<Option<Entry>>, selected: set<string>, total: nat)
    requires entries != [] && entries[0].Some?
    ensures var e, r := entries[0].value, Judge(codec, entries, selected, total);
      if e.encrypted || EscapesRoot(e.name) then r == Error(Invalid)
      else if IsUnsafePart(codec, e.name) then r == Error(Unsafe)
      else
        IsTemplateXml(e.name)
        && (e.uncompressed > 2_097_152 || (e.compressed > 0 && e.uncompressed > 100 * e.compressed)
            || total + e.uncompressed > 8_388_608)
        ==> r == Error(TooLarge)
  {
    hide EscapesRoot, IsUnsafePart, IsTemplateXml;
  }

  lemma OneMoreInOrder(codec: Codec, entries: seq<RawEntry>, k: nat, name: string)
    requires k < |entries| && InOrder(codec, entries, k) && Turned(codec.decode(entries[k].name), name)
    requires entries[k].flags % 2 == 0 && !LeavesRoot(name) && !IsActive(codec.lower(name))
    requires IsSelected(name) ==>
      !TooLargeBySelf(entries[k]) && Unpacked(codec, entries[..k]) + entries[k].uncompressed <= 8_388_608
    ensures InOrder(codec, entries, k + 1)
  {
    NameOf(codec, entries[k]);
    hide LeavesRoot, IsActive, IsSelected, Turned;
    assert entries[..k + 1][..k] == entries[..k];
    assert Allowed(codec, entries[k]);
    assert IsTemplatePart(codec, entries[k]) <==> IsSelected(name);
  }

  // ----- where the fields lie

  /** A record, byte by byte: sections 4.3.12 and 4.4 of APPNOTE.TXT. */
  lemma RecordLayout(e: RawEntry)
    requires Writable(e)
    ensures var b := Record(e);
      && b[0] == 0x50 && b[1] == 0x4B && b[2] == 0x01 && b[3] == 0x02
      && LittleEndian(b[8..10]) == e.flags
      && LittleEndian(b[20..24]) == e.compressed
      && LittleEndian(b[24..28]) == e.uncompressed
      && LittleEndian(b[28..30]) == |e.name|
      && LittleEndian(b[30..32]) == |e.extra|
      && LittleEndian(b[32..34]) == |e.comment| + e.overrun
      && b[46..46 + |e.name|] == e.name
  {
    var b := Record(e);
    hide Head, Sizes, Lengths, Record, U16, U32, LittleEndian;
    RecordPieces(e);
    HeadFields(e);
    SizesFields(e);
    LengthsFields(e);
    SignatureBytes(Head(e), ENTRY_SIGNATURE);
    FieldAt(b, 0, Head(e), 8);
    FieldAt(b, 20, Sizes(e), 0);
    FieldAt(b, 20, Sizes(e), 4);
    FieldAt(b, 28, Lengths(e), 0);
    FieldAt(b, 28, Lengths(e), 2);
    FieldAt(b, 28, Lengths(e), 4);
    SameBytes(b, 0, Head(e));
  }

  /** The number that some bytes stand for, the least significant first. */
  function LittleEndian(b: seq<Byte>): nat {
    if b == [] then 0 else var first: int := b[0]; first + 256 * LittleEndian(b[1..])
  }

  lemma FirstByte(b: seq<Byte>, o: nat, n: nat)
    requires n > 0 && o + n <= |b|
    ensures var first: int := b[o]; LittleEndian(b[o..o + n]) == first + 256 * LittleEndian(b[o + 1..o + n])
  {
    assert b[o..o + n][1..] == b[o + 1..o + n];
  }

  lemma ReadsTwo(b: seq<Byte>, o: nat)
    requires o + 2 <= |b|
    ensures U16(b, o) == LittleEndian(b[o..o + 2])
  {
    FirstByte(b, o, 2);
    FirstByte(b, o + 1, 1);
    assert b[o + 2..o + 2] == [];
    assert LittleEndian([]) == 0;
    hide LittleEndian;
  }

  lemma ReadsFour(b: seq<Byte>, o: nat)
    requires o + 4 <= |b|
    ensures U32(b, o) == LittleEndian(b[o..o + 4])
  {
    FirstByte(b, o, 4);
    FirstByte(b, o + 1, 3);
    ReadsTwo(b, o);
    ReadsTwo(b, o + 2);
    FirstByte(b, o, 2);
    FirstByte(b, o + 1, 1);
    assert b[o + 2..o + 2] == [] && LittleEndian([]) == 0;
    hide LittleEndian, U16;
  }

  /** A field of a piece, as the bytes of the whole. */
  lemma FieldAt(b: seq<Byte>, o: nat, part: seq<Byte>, k: nat)
    requires o + |part| <= |b| && b[o..o + |part|] == part
    ensures k + 2 <= |part| ==> LittleEndian(b[o + k..o + k + 2]) == U16(part, k)
    ensures k + 4 <= |part| ==> LittleEndian(b[o + k..o + k + 4]) == U32(part, k)
  {
    hide LittleEndian, U16, U32;
    ReadInside(b, o, part, k);
    if k + 2 <= |part| {
      ReadsTwo(b, o + k);
    }
    if k + 4 <= |part| {
      ReadsFour(b, o + k);
    }
  }

  lemma SignatureBytes(b: seq<Byte>, n: nat)
    requires |b| >= 4 && U32(b, 0) == n
    ensures n == 0x02014b50 ==> b[0] == 0x50 && b[1] == 0x4B && b[2] == 0x01 && b[3] == 0x02
    ensures n == 0x06054b50 ==> b[0] == 0x50 && b[1] == 0x4B && b[2] == 0x05 && b[3] == 0x06
  {
  }

  /** The end record: section 4.3.16. */
  lemma EndLayout(disks: seq<Byte>, here: seq<Byte>, count: nat, size: nat, at: nat, comment: seq<Byte>)
    requires |disks| == 4 && |here| == 2 && count < TWO_16 && size < TWO_32 && at < TWO_32 && |comment| < TWO_16
    ensures var b := EndRecord(disks, here, count, size, at, comment);
      && b[0] == 0x50 && b[1] == 0x4B && b[2] == 0x05 && b[3] == 0x06
      && LittleEndian(b[10..12]) == count
      && LittleEndian(b[12..16]) == size
      && LittleEndian(b[16..20]) == at
      && b[22..] == comment
  {
    var b := EndRecord(disks, here, count, size, at, comment);
    EndFields(disks, here, count, size, at, comment);
    SignatureBytes(b, EOCD_SIGNATURE);
    hide LittleEndian, U16, U32, Put16, Put32;
    ReadsTwo(b, 10);
    ReadsFour(b, 12);
    ReadsFour(b, 16);
    assert b[22..] == comment;
  }
}
