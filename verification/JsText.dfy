/** The few ECMAScript string operations that the modelled code relies on. */
module JsText {

  datatype Option<+T> = None | Some(value: T)

  /** WhiteSpace and LineTerminator of ECMAScript: what `trim`, `trimStart` and `\s` recognise. */
  predicate IsSpace(c: char) {
    || c == ' ' || '\t' <= c <= '\r' || c == '\U{A0}' || c == '\U{1680}'
    || '\U{2000}' <= c <= '\U{200A}' || c == '\U{2028}' || c == '\U{2029}' || c == '\U{202F}'
    || c == '\U{205F}' || c == '\U{3000}' || c == '\U{FEFF}'
  }

  function TrimStart(s: string): string {
    if s != "" && IsSpace(s[0]) then TrimStart(s[1..]) else s
  }

  function TrimEnd(s: string): string {
    if s != "" && IsSpace(s[|s| - 1]) then TrimEnd(s[..|s| - 1]) else s
  }

  function Trim(s: string): string {
    TrimEnd(TrimStart(s))
  }

  /** The text neither starts nor ends with white space. */
  predicate Trimmed(s: string) {
    s != "" ==> !IsSpace(s[0]) && !IsSpace(s[|s| - 1])
  }

  lemma TrimOfTrimmed(s: string)
    requires Trimmed(s)
    ensures Trim(s) == s && TrimStart(s) == s
    ensures Trim(" " + s) == s && TrimStart(" " + s) == s
  {
    assert (" " + s)[1..] == s;
  }

  predicate AllSpace(s: string) {
    forall c | c in s :: IsSpace(c)
  }

  lemma {:induction false} TrimStartSplits(s: string) returns (before: string)
    ensures s == before + TrimStart(s) && AllSpace(before)
    ensures TrimStart(s) != "" ==> !IsSpace(TrimStart(s)[0])
  {
    hide IsSpace;
    if s != "" && IsSpace(s[0]) {
      var more := TrimStartSplits(s[1..]);
      before := [s[0]] + more;
    } else {
      before := "";
    }
  }

  lemma {:induction false} TrimEndSplits(s: string) returns (behind: string)
    ensures s == TrimEnd(s) + behind && AllSpace(behind)
    ensures TrimEnd(s) != "" ==> !IsSpace(TrimEnd(s)[|TrimEnd(s)| - 1])
  {
    hide IsSpace;
    if s != "" && IsSpace(s[|s| - 1]) {
      var more := TrimEndSplits(s[..|s| - 1]);
      behind := more + [s[|s| - 1]];
    } else {
      behind := "";
    }
  }

  /** Trimming takes away white space before and behind a part that neither starts nor ends with any. */
  lemma TrimSplits(s: string) returns (before: string, behind: string)
    ensures s == before + Trim(s) + behind && AllSpace(before) && AllSpace(behind) && Trimmed(Trim(s))
  {
    hide IsSpace, TrimStart, TrimEnd;
    before := TrimStartSplits(s);
    behind := TrimEndSplits(TrimStart(s));
    assert Trim(s) != "" ==> Trim(s)[0] == TrimStart(s)[0];
  }

  /** There is just one such part. */
  lemma TrimIsUnique(s: string, before: string, middle: string, behind: string)
    requires s == before + middle + behind && AllSpace(before) && AllSpace(behind) && Trimmed(middle)
    ensures Trim(s) == middle
  {
    hide IsSpace, Trim;
    var b, e := TrimSplits(s);
    var t := Trim(s);
    assert s == b + t + e;
    assert forall i | 0 <= i < |s| && !IsSpace(s[i]) :: |before| <= i < |before| + |middle| by {
      OutsideIsSpace(s, before, middle, behind);
    }
    assert forall i | 0 <= i < |s| && !IsSpace(s[i]) :: |b| <= i < |b| + |t| by {
      OutsideIsSpace(s, b, t, e);
    }
    EndsOfMiddle(s, before, middle, behind);
    EndsOfMiddle(s, b, t, e);
    assert middle == s[|before|..|before| + |middle|] && t == s[|b|..|b| + |t|];
  }

  lemma EndsOfMiddle(s: string, before: string, middle: string, behind: string)
    requires s == before + middle + behind && Trimmed(middle)
    ensures middle != "" ==> !IsSpace(s[|before|]) && !IsSpace(s[|before| + |middle| - 1])
  {
    hide IsSpace;
    if middle != "" {
      assert s[|before|] == middle[0] && s[|before| + |middle| - 1] == middle[|middle| - 1];
    }
  }

  lemma OutsideIsSpace(s: string, before: string, middle: string, behind: string)
    requires s == before + middle + behind && AllSpace(before) && AllSpace(behind)
    ensures forall i | 0 <= i < |s| && !IsSpace(s[i]) :: |before| <= i < |before| + |middle|
  {
    hide IsSpace;
    forall i | 0 <= i < |before| ensures IsSpace(s[i]) {
      assert s[i] == before[i] && before[i] in before;
    }
    forall i | |before| + |middle| <= i < |s| ensures IsSpace(s[i]) {
      assert s[i] == behind[i - |before| - |middle|] && behind[i - |before| - |middle|] in behind;
    }
  }

  function Digit(d: nat): char
    requires d < 10
  {
    '0' + d as char
  }

  /** `String(n)` of a non-negative safe integer. */
  function Decimal(n: nat): (s: string)
    ensures s != "" && forall c | c in s :: '0' <= c <= '9'
  {
    if n < 10 then [Digit(n)] else Decimal(n / 10) + [Digit(n % 10)]
  }

  lemma {:induction false} DecimalInjective(m: nat, n: nat)
    requires Decimal(m) == Decimal(n)
    ensures m == n
  {
    var a, b := Decimal(m), Decimal(n);
    assert a[|a| - 1] == b[|b| - 1];
    if m >= 10 && n >= 10 {
      assert Decimal(m / 10) == a[..|a| - 1] && Decimal(n / 10) == b[..|b| - 1];
      DecimalInjective(m / 10, n / 10);
    }
  }

  function Concat(parts: seq<string>): string {
    if parts == [] then "" else parts[0] + Concat(parts[1..])
  }

  /** Length of a match of \r?\n at the start of s, or 0. */
  function LineEnd(s: string): (n: nat)
    ensures n <= |s|
  {
    if s != "" && s[0] == '\n' then 1
    else if |s| >= 2 && s[0] == '\r' && s[1] == '\n' then 2
    else 0
  }

  /** `s.split(/\r?\n/)`. */
  function SplitLines(s: string): (lines: seq<string>)
    ensures lines != []
  {
    if s == "" then [""]
    else if LineEnd(s) > 0 then [""] + SplitLines(s[LineEnd(s)..])
    else
      var rest := SplitLines(s[1..]);
      [[s[0]] + rest[0]] + rest[1..]
  }
}
