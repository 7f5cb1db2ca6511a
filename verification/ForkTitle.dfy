/**
 * `boundedForkTitle` of dashboard/src/main.ts, over UTF-16 code units. Sizes are those of the UTF-8
 * encoding (section 3 of RFC 3629) with a lone surrogate counted as U+FFFD, as TextEncoder does.
 */
module ForkTitle {
  import JsText

  type Unit = u: nat | u < 0x1_0000

  predicate IsHigh(u: Unit) {
    0xD800 <= u < 0xDC00
  }

  predicate IsLow(u: Unit) {
    0xDC00 <= u < 0xE000
  }

  predicate StartsPair(s: seq<Unit>) {
    |s| >= 2 && IsHigh(s[0]) && IsLow(s[1])
  }

  /** Bytes of one code unit on its own: a lone surrogate becomes U+FFFD, three bytes. */
  function UnitBytes(u: Unit): (n: nat)
    ensures 1 <= n <= 3
  {
    if u < 0x80 then 1 else if u < 0x800 then 2 else 3
  }

  function Utf8Length(s: seq<Unit>): nat
    decreases |s|
  {
    if s == [] then 0
    else if StartsPair(s) then 4 + Utf8Length(s[2..])
    else UnitBytes(s[0]) + Utf8Length(s[1..])
  }

  /** "Conversation" */
  function Fallback(): seq<Unit> {
    [67, 111, 110, 118, 101, 114, 115, 97, 116, 105, 111, 110]
  }

  /** " \u00B7 ", which comes before the profile id. */
  const SEPARATOR: seq<Unit> := [0x20, 0xB7, 0x20]

  /** What `trim` removes; no surrogate is white space. */
  predicate IsSpace(u: Unit) {
    !IsHigh(u) && !IsLow(u) && JsText.IsSpace(u as char)
  }

  function TrimStart(s: seq<Unit>): seq<Unit> {
    if s != [] && IsSpace(s[0]) then TrimStart(s[1..]) else s
  }

  function TrimEnd(s: seq<Unit>): seq<Unit> {
    if s != [] && IsSpace(s[|s| - 1]) then TrimEnd(s[..|s| - 1]) else s
  }

  function Trim(s: seq<Unit>): seq<Unit> {
    TrimEnd(TrimStart(s))
  }

  predicate AllSpace(s: seq<Unit>) {
    forall i | 0 <= i < |s| :: IsSpace(s[i])
  }

  predicate Trimmed(s: seq<Unit>) {
    s != [] ==> !IsSpace(s[0]) && !IsSpace(s[|s| - 1])
  }

  lemma {:induction false} TrimStartSplits(s: seq<Unit>) returns (before: seq<Unit>)
    ensures s == before + TrimStart(s) && AllSpace(before)
    ensures TrimStart(s) != [] ==> !IsSpace(TrimStart(s)[0])
  {
    hide IsSpace;
    if s != [] && IsSpace(s[0]) {
      var more := TrimStartSplits(s[1..]);
      before := [s[0]] + more;
    } else {
      before := [];
    }
  }

  lemma {:induction false} TrimEndSplits(s: seq<Unit>) returns (behind: seq<Unit>)
    ensures s == TrimEnd(s) + behind && AllSpace(behind)
    ensures TrimEnd(s) != [] ==> !IsSpace(TrimEnd(s)[|TrimEnd(s)| - 1])
  {
    hide IsSpace;
    if s != [] && IsSpace(s[|s| - 1]) {
      var more := TrimEndSplits(s[..|s| - 1]);
      behind := more + [s[|s| - 1]];
    } else {
      behind := [];
    }
  }

  /** Trimming takes away white space before and behind a part that neither starts nor ends with any. */
  lemma TrimSplits(s: seq<Unit>) returns (before: seq<Unit>, behind: seq<Unit>)
    ensures s == before + Trim(s) + behind && AllSpace(before) && AllSpace(behind) && Trimmed(Trim(s))
  {
    hide IsSpace, TrimStart, TrimEnd;
    before := TrimStartSplits(s);
    behind := TrimEndSplits(TrimStart(s));
    assert Trim(s) != [] ==> Trim(s)[0] == TrimStart(s)[0];
  }

  lemma EndsOfMiddle(s: seq<Unit>, before: seq<Unit>, middle: seq<Unit>, behind: seq<Unit>)
    requires s == before + middle + behind && Trimmed(middle)
    ensures middle != [] ==> !IsSpace(s[|before|]) && !IsSpace(s[|before| + |middle| - 1])
  {
    hide IsSpace;
    if middle != [] {
      assert s[|before|] == middle[0] && s[|before| + |middle| - 1] == middle[|middle| - 1];
    }
  }

  lemma OutsideIsSpace(s: seq<Unit>, before: seq<Unit>, middle: seq<Unit>, behind: seq<Unit>)
    requires s == before + middle + behind && AllSpace(before) && AllSpace(behind)
    ensures forall i | 0 <= i < |s| && !IsSpace(s[i]) :: |before| <= i < |before| + |middle|
  {
    hide IsSpace;
    forall i | 0 <= i < |before| ensures IsSpace(s[i]) {
      assert s[i] == before[i];
    }
    forall i | |before| + |middle| <= i < |s| ensures IsSpace(s[i]) {
      assert s[i] == behind[i - |before| - |middle|];
    }
  }

  /** The trimmed title is the one part that neither starts nor ends with white space and has nothing else around it. */
  lemma TrimIsUnique(s: seq<Unit>, before: seq<Unit>, middle: seq<Unit>, behind: seq<Unit>)
    requires s == before + middle + behind && AllSpace(before) && AllSpace(behind) && Trimmed(middle)
    ensures Trim(s) == middle
  {
    hide IsSpace, Trim;
    var b, e := TrimSplits(s);
    var t := Trim(s);
    OutsideIsSpace(s, before, middle, behind);
    OutsideIsSpace(s, b, t, e);
    EndsOfMiddle(s, before, middle, behind);
    EndsOfMiddle(s, b, t, e);
    assert middle == s[|before|..|before| + |middle|] && t == s[|b|..|b| + |t|];
  }

  function Suffix(profileId: seq<Unit>): seq<Unit> {
    SEPARATOR + profileId
  }

  // ----- sizes

  /** Where no surrogate pair is torn apart, sizes add up. */
  lemma {:induction false} LengthAppend(a: seq<Unit>, b: seq<Unit>)
    requires b == [] || !IsLow(b[0])
    ensures Utf8Length(a + b) == Utf8Length(a) + Utf8Length(b)
    decreases |a|
  {
    if a == [] {
      assert a + b == b;
    } else if StartsPair(a) {
      assert (a + b)[2..] == a[2..] + b;
      LengthAppend(a[2..], b);
    } else {
      assert (a + b)[1..] == a[1..] + b;
      assert !StartsPair(a + b);
      LengthAppend(a[1..], b);
    }
  }

  /** Dropping the last code unit makes the encoding shorter, even where it tears a pair apart. */
  lemma {:induction false} LengthDrops(s: seq<Unit>)
    requires s != []
    ensures Utf8Length(s[..|s| - 1]) < Utf8Length(s)
    decreases |s|
  {
    var init := s[..|s| - 1];
    if StartsPair(s) {
      if |s| == 2 {
        assert init == [s[0]] && init[1..] == [] && s[2..] == [];
      } else {
        assert init[2..] == s[2..][..|s| - 3];
        assert StartsPair(init);
        LengthDrops(s[2..]);
      }
    } else if |s| == 1 {
      assert init == [] && s[1..] == [];
    } else {
      assert init[1..] == s[1..][..|s| - 2];
      assert !StartsPair(init);
      LengthDrops(s[1..]);
    }
  }

  lemma {:induction false} LengthGrows(s: seq<Unit>, m: nat, n: nat)
    requires m <= n <= |s|
    ensures Utf8Length(s[..m]) <= Utf8Length(s[..n])
    ensures m < n ==> Utf8Length(s[..m]) < Utf8Length(s[..n])
    decreases n - m
  {
    if m < n {
      LengthDrops(s[..n]);
      assert s[..n][..n - 1] == s[..n - 1];
      LengthGrows(s, m, n - 1);
    }
  }

  // ----- the longest beginning that fits

  predicate Fits(title: seq<Unit>, suffix: seq<Unit>) {
    Utf8Length(title + suffix) <= 240
  }

  /** n code units of the title, and no more, are kept. */
  ghost predicate IsLongestFit(title: seq<Unit>, suffix: seq<Unit>, n: nat) {
    && n <= |title|
    && (n > 0 ==> Fits(title[..n], suffix))
    && forall m | n < m <= |title| :: !Fits(title[..m], suffix)
  }

  lemma FitsShrinks(title: seq<Unit>, suffix: seq<Unit>, m: nat, n: nat)
    requires m <= n <= |title| && Fits(title[..n], suffix) && (suffix == [] || !IsLow(suffix[0]))
    ensures Fits(title[..m], suffix)
  {
    LengthAppend(title[..m], suffix);
    LengthAppend(title[..n], suffix);
    LengthGrows(title, m, n);
  }

  function Result(title: seq<Unit>, suffix: seq<Unit>, kept: nat): seq<Unit> {
    (if 0 < kept <= |title| then title[..kept] else Fallback()) + suffix
  }

  /** The title, written out: what is kept, or "Conversation", then " \u00B7 " and the profile id. */
  lemma ResultIs(title: seq<Unit>, profileId: seq<Unit>, kept: nat)
    ensures Result(title, Suffix(profileId), kept)
         == (if 0 < kept <= |title| then title[..kept] else [67, 111, 110, 118, 101, 114, 115, 97, 116, 105, 111, 110])
            + ([0x20, 0xB7, 0x20] + profileId)
  {
  }

  method BoundedForkTitle(sourceTitle: seq<Unit>, profileId: seq<Unit>) returns (result: seq<Unit>)
    ensures var whole, suffix := Trim(sourceTitle), Suffix(profileId);
      exists kept: nat :: IsLongestFit(whole, suffix, kept) && result == Result(whole, suffix, kept)
  {
    hide Trim, Utf8Length, Fallback;
    var suffix := SEPARATOR + profileId;
    assert suffix == Suffix(profileId);
    ghost var whole := Trim(sourceTitle);
    ghost var kept: nat := |whole|;
    var title := Trim(sourceTitle);
    while title != [] && Utf8Length(title + suffix) > 240
      invariant kept <= |whole| && title == whole[..kept]
      invariant forall m | kept < m <= |whole| :: !Fits(whole[..m], suffix)
    {
      title := title[..|title| - 1];
      kept := kept - 1;
      assert whole[..kept + 1][..kept] == whole[..kept];
    }
    result := (if title != [] then title else Fallback()) + suffix;
    assert IsLongestFit(whole, suffix, kept) && result == Result(whole, suffix, kept);
  }

  /** Exactly one number of code units is the longest fit, so the result is determined. */
  lemma LongestFitIsUnique(title: seq<Unit>, suffix: seq<Unit>, m: nat, n: nat)
    requires IsLongestFit(title, suffix, m) && IsLongestFit(title, suffix, n)
    ensures m == n
  {
    hide Fits;
    if m < n {
      assert false;
    }
  }

  lemma FallbackIsAscii()
    ensures |Fallback()| == 12 && forall i | 0 <= i < 12 :: Fallback()[i] < 0x80
  {
  }

  lemma FallbackLength(suffix: seq<Unit>)
    requires suffix == [] || !IsLow(suffix[0])
    ensures Utf8Length(Fallback() + suffix) == 12 + Utf8Length(suffix)
  {
    FallbackIsAscii();
    hide Fallback;
    LengthAppend(Fallback(), suffix);
    AsciiLength(Fallback());
  }

  lemma {:induction false} AsciiLength(s: seq<Unit>)
    requires forall i | 0 <= i < |s| :: s[i] < 0x80
    ensures Utf8Length(s) == |s|
    decreases |s|
  {
    if s != [] {
      AsciiLength(s[1..]);
    }
  }

  /**
   * The title stays within 240 bytes exactly when the suffix leaves room for the fallback (228 bytes
   * at most) or for the first code unit of a title that is not blank. The fallback is used exactly
   * when not even that first code unit fits; a longer suffix then makes the title too long.
   */
  lemma BoundHolds(sourceTitle: seq<Unit>, profileId: seq<Unit>, kept: nat)
    requires IsLongestFit(Trim(sourceTitle), Suffix(profileId), kept)
    ensures var title, suffix := Trim(sourceTitle), Suffix(profileId);
      && (Utf8Length(Result(title, suffix, kept)) <= 240 <==>
            Utf8Length(suffix) <= 228 || (title != [] && UnitBytes(title[0]) + Utf8Length(suffix) <= 240))
      && (kept == 0 <==> title == [] || UnitBytes(title[0]) + Utf8Length(suffix) > 240)
  {
    hide Trim, Fallback, UnitBytes;
    var title, suffix := Trim(sourceTitle), Suffix(profileId);
    assert suffix[0] == 0x20;
    FallbackLength(suffix);
    if title != [] {
      LengthAppend(title[..1], suffix);
      assert title[..1][1..] == [];
      assert Utf8Length(title[..1]) == UnitBytes(title[0]);
      if kept > 0 {
        FitsShrinks(title, suffix, 1, kept);
      }
    }
  }

  function Repeated(u: Unit, n: nat): (s: seq<Unit>)
    ensures |s| == n
  {
    seq(n, _ => u)
  }

  /** A one-letter title with a profile id of 240 letters: neither the letter nor the fallback fits, and 256 bytes come out. */
  lemma TitleTooLong()
    ensures var title, profileId: seq<Unit> := [0x61], Repeated(0x61, 240);
      && IsLongestFit(Trim(title), Suffix(profileId), 0)
      && Utf8Length(Result(Trim(title), Suffix(profileId), 0)) == 256
  {
    var title, profileId: seq<Unit> := [0x61], Repeated(0x61, 240);
    var suffix := Suffix(profileId);
    assert Trim(title) == title;
    hide Trim, Fallback, Fits;
    FallbackLength(suffix);
    SuffixLength(profileId);
    LengthAppend(title, suffix);
    AsciiLength(title);
    assert title[..1] == title;
    assert !Fits(title[..1], suffix) by {
      NoRoom(title, suffix);
    }
  }

  lemma NoRoom(title: seq<Unit>, suffix: seq<Unit>)
    requires Utf8Length(title + suffix) > 240
    ensures !Fits(title, suffix)
  {
  }

  /** The separator takes four bytes, for the middle dot takes two. */
  lemma SuffixLength(profileId: seq<Unit>)
    requires forall i | 0 <= i < |profileId| :: profileId[i] < 0x80
    ensures Utf8Length(Suffix(profileId)) == 4 + |profileId|
  {
    AsciiLength(profileId);
    LengthAppend(SEPARATOR, profileId);
    assert SEPARATOR[1..] == [0xB7, 0x20] && SEPARATOR[1..][1..] == [0x20];
    assert Utf8Length([0x20]) == 1;
    assert Utf8Length([0xB7, 0x20]) == 3;
  }
}
