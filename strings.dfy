/**
 * The Python string operations the script relies on, over `seq<char>`:
 * whitespace as `str.isspace` (and the regex class `\s`) sees it, `str.strip()`,
 * `str.split(sep)`, the row split `re.split(r',(?!\s)', line)`, literal
 * substring search, and decimal formatting of a natural number.
 */
module Strings {
  import opened Wrappers

  /** Python's `str.isspace()` for one character; `str.strip()` and `\s` use the same set. */
  predicate IsSpace(c: char) {
    ('\t' <= c <= '\r') || ('\U{1c}' <= c <= ' ') || c == '\U{85}' || c == '\U{a0}' ||
    c == '\U{1680}' || ('\U{2000}' <= c <= '\U{200a}') || c == '\U{2028}' || c == '\U{2029}' ||
    c == '\U{202f}' || c == '\U{205f}' || c == '\U{3000}'
  }

  predicate AllSpace(s: string) {
    forall k :: 0 <= k < |s| ==> IsSpace(s[k])
  }

  /** Neither end of `s` is whitespace: what `str.strip()` leaves. */
  predicate IsStripped(s: string) {
    s == [] || (!IsSpace(s[0]) && !IsSpace(s[|s| - 1]))
  }

  /** How many whitespace characters `s` starts with: `len(s) - len(s.lstrip())`. */
  function LeadingSpace(s: string): (n: nat)
    ensures n <= |s|
    ensures forall k :: 0 <= k < n ==> IsSpace(s[k])
    ensures n == |s| || !IsSpace(s[n])
  {
    if s != [] && IsSpace(s[0]) then 1 + LeadingSpace(s[1..]) else 0
  }

  /** How many whitespace characters `s` ends with: `len(s) - len(s.rstrip())`. */
  function TrailingSpace(s: string): (n: nat)
    ensures n <= |s|
    ensures forall k :: |s| - n <= k < |s| ==> IsSpace(s[k])
    ensures n == |s| || !IsSpace(s[|s| - n - 1])
  {
    if s != [] && IsSpace(s[|s| - 1]) then 1 + TrailingSpace(s[..|s| - 1]) else 0
  }

  /** `s.strip()`: `s` is some whitespace, then the result, then some whitespace. */
  function Strip(s: string): (r: string)
    ensures IsStripped(r)
    ensures |r| <= |s|
  {
    var i := LeadingSpace(s);
    var n := TrailingSpace(s[i..]);
    s[i..|s| - n]
  }

  /** What `str.strip()` removes is whitespace at either end and nothing else. */
  lemma StripRemovesOnlySpace(s: string) returns (i: nat)
    ensures i + |Strip(s)| <= |s| && Strip(s) == s[i..i + |Strip(s)|]
    ensures forall k :: 0 <= k < i ==> IsSpace(s[k])
    ensures forall k :: i + |Strip(s)| <= k < |s| ==> IsSpace(s[k])
  {
    i := LeadingSpace(s);
    var n := TrailingSpace(s[i..]);
    assert forall k :: |s| - n <= k < |s| ==> s[k] == s[i..][k - i];
  }

  /** A string of whitespace only strips to the empty string. */
  lemma StripAllSpace(s: string)
    requires AllSpace(s)
    ensures Strip(s) == []
  {
    var i := StripRemovesOnlySpace(s);
  }

  /** Stripping leaves an already stripped string as it is. */
  lemma StripStripped(s: string)
    requires IsStripped(s)
    ensures Strip(s) == s
  {
  }

  /** `[x.strip() for x in cells]` */
  function StripAll(cells: seq<string>): (r: seq<string>)
    ensures |r| == |cells|
    ensures forall k :: 0 <= k < |r| ==> r[k] == Strip(cells[k]) && IsStripped(r[k])
  {
    seq(|cells|, k requires 0 <= k < |cells| => Strip(cells[k]))
  }

  lemma StripAllStripped(cells: seq<string>)
    requires forall k :: 0 <= k < |cells| ==> IsStripped(cells[k])
    ensures StripAll(cells) == cells
  {
    forall k | 0 <= k < |cells|
      ensures Strip(cells[k]) == cells[k]
    {
      StripStripped(cells[k]);
    }
  }

  // ---------------------------------------------------------------------------
  // Literal substring search (the title and blank-line parts of the regex)
  // ---------------------------------------------------------------------------

  predicate OccursAt(s: string, p: string, i: nat) {
    i + |p| <= |s| && s[i..i + |p|] == p
  }

  /** The leftmost occurrence of `p` in `s` at or after `from`, as `re.search` finds it. */
  function FindFrom(s: string, p: string, from: nat): (r: Option<nat>)
    requires from <= |s|
    ensures r.Some? ==> from <= r.value && OccursAt(s, p, r.value)
    ensures r.Some? ==> forall j :: from <= j < r.value ==> !OccursAt(s, p, j)
    ensures r.None? ==> forall j: nat :: from <= j ==> !OccursAt(s, p, j)
    decreases |s| - from
  {
    if OccursAt(s, p, from) then Some(from)
    else if from == |s| then None
    else FindFrom(s, p, from + 1)
  }

  function Find(s: string, p: string): (r: Option<nat>)
    ensures r.Some? ==> OccursAt(s, p, r.value) && forall j :: 0 <= j < r.value ==> !OccursAt(s, p, j)
    ensures r.None? <==> forall j: nat :: !OccursAt(s, p, j)
  {
    FindFrom(s, p, 0)
  }

  /** `p in s` for a literal pattern (pandas' `str.contains` with a pattern free of regex syntax). */
  predicate Contains(s: string, p: string) {
    exists i | 0 <= i <= |s| :: OccursAt(s, p, i)
  }

  predicate StartsWith(s: string, prefix: string) {
    |prefix| <= |s| && s[..|prefix|] == prefix
  }

  predicate EndsWith(s: string, suffix: string) {
    |suffix| <= |s| && s[|s| - |suffix|..] == suffix
  }

  // ---------------------------------------------------------------------------
  // str.split(sep) and the row split
  // ---------------------------------------------------------------------------

  function Count(s: string, c: char): nat {
    if s == [] then 0 else (if s[0] == c then 1 else 0) + Count(s[1..], c)
  }

  /** `sep.join(parts)` */
  function Join(parts: seq<string>, sep: char): string
    requires |parts| >= 1
  {
    if |parts| == 1 then parts[0] else parts[0] + [sep] + Join(parts[1..], sep)
  }

  /** Joining is unaffected by moving a leading character into the first part. */
  lemma JoinConsHead(c: char, rest: seq<string>, sep: char)
    requires |rest| >= 1
    ensures Join([[c] + rest[0]] + rest[1..], sep) == [c] + Join(rest, sep)
  {
    var parts := [[c] + rest[0]] + rest[1..];
    if |rest| > 1 {
      assert parts[1..] == rest[1..];
    }
  }

  /** `s.split(sep)`: cut at every occurrence of `sep`. */
  function Split(s: string, sep: char): (r: seq<string>)
    ensures |r| == Count(s, sep) + 1
    ensures forall k :: 0 <= k < |r| ==> sep !in r[k]
    ensures Join(r, sep) == s
  {
    if s == [] then [[]]
    else
      var rest := Split(s[1..], sep);
      if s[0] == sep then
        assert [[]] + rest == [[]] + rest;
        assert ([[]] + rest)[1..] == rest;
        [[]] + rest
      else
        JoinConsHead(s[0], rest, sep);
        assert s == [s[0]] + s[1..];
        [[s[0]] + rest[0]] + rest[1..]
  }

  lemma {:induction false} SplitNoSep(s: string, sep: char)
    requires sep !in s
    ensures Split(s, sep) == [s]
  {
    if s != [] {
      assert s[1..] == s[1..] && sep !in s[1..];
      SplitNoSep(s[1..], sep);
      assert s == [s[0]] + s[1..];
    }
  }

  lemma {:induction false} SplitPrefix(a: string, b: string, sep: char)
    requires sep !in a
    ensures Split(a + [sep] + b, sep) == [a] + Split(b, sep)
  {
    var s := a + [sep] + b;
    if a == [] {
      assert s[1..] == b;
    } else {
      assert s[1..] == a[1..] + [sep] + b;
      SplitPrefix(a[1..], b, sep);
      assert [a[0]] + a[1..] == a;
    }
  }

  /** Splitting undoes joining parts that do not contain the separator. */
  lemma {:induction false} SplitJoin(parts: seq<string>, sep: char)
    requires |parts| >= 1
    requires forall k :: 0 <= k < |parts| ==> sep !in parts[k]
    ensures Split(Join(parts, sep), sep) == parts
  {
    if |parts| == 1 {
      SplitNoSep(parts[0], sep);
    } else {
      SplitJoin(parts[1..], sep);
      SplitPrefix(parts[0], Join(parts[1..], sep), sep);
      assert [parts[0]] + parts[1..] == parts;
    }
  }

  /** `re.split(r',(?!\s)', s)` cuts at index `i`: a comma not followed by whitespace (end of text included). */
  predicate CutsAt(s: string, i: nat)
    requires i < |s|
  {
    s[i] == ',' && (i + 1 == |s| || !IsSpace(s[i + 1]))
  }

  function CutCount(s: string): nat {
    if s == [] then 0 else (if CutsAt(s, 0) then 1 else 0) + CutCount(s[1..])
  }

  /** Every comma in the cell is followed, inside the cell, by whitespace. */
  predicate NoCut(cell: string) {
    forall i :: 0 <= i < |cell| && cell[i] == ',' ==> i + 1 < |cell| && IsSpace(cell[i + 1])
  }

  /**
   * `re.split(r',(?!\s)', s)`: the pieces join back to `s` with commas, no piece holds a comma
   * the pattern would cut at, and no piece after a cut starts with whitespace (else that
   * comma was not a cut).
   */
  function SplitRow(s: string): (r: seq<string>)
    ensures |r| == CutCount(s) + 1
    ensures Join(r, ',') == s
    ensures forall k :: 0 <= k < |r| ==> NoCut(r[k])
    ensures forall k :: 1 <= k < |r| ==> r[k] == [] || !IsSpace(r[k][0])
    ensures |r[0]| <= |s| && r[0] == s[..|r[0]|]
    ensures r[0] == [] ==> s == [] || s[0] == ','
  {
    if s == [] then [[]]
    else
      var rest := SplitRow(s[1..]);
      if CutsAt(s, 0) then
        assert ([[]] + rest)[1..] == rest;
        [[]] + rest
      else
        JoinConsHead(s[0], rest, ',');
        assert s == [s[0]] + s[1..];
        var head := [s[0]] + rest[0];
        NoCutCons(s, rest[0]);
        [head] + rest[1..]
  }

  /** A character that is not a cut, put before the first piece of the rest, keeps that piece cut-free. */
  lemma NoCutCons(s: string, first: string)
    requires s != [] && !CutsAt(s, 0) && NoCut(first)
    requires |first| <= |s| - 1 && first == s[1..][..|first|]
    requires first == [] ==> s[1..] == [] || s[1] == ','
    ensures NoCut([s[0]] + first)
  {
    var head := [s[0]] + first;
    forall i | 0 <= i < |head| && head[i] == ','
      ensures i + 1 < |head| && IsSpace(head[i + 1])
    {
      if i == 0 {
        assert |s| > 1 && IsSpace(s[1]);
        assert first != [] && first[0] == s[1];
      } else {
        assert first[i - 1] == ',';
      }
    }
  }

  lemma {:induction false} SplitRowWhole(a: string)
    requires NoCut(a)
    ensures SplitRow(a) == [a]
  {
    if a != [] {
      assert !CutsAt(a, 0);
      assert NoCut(a[1..]) by {
        forall i | 0 <= i < |a[1..]| && a[1..][i] == ','
          ensures i + 1 < |a[1..]| && IsSpace(a[1..][i + 1])
        {
          assert a[i + 1] == ',';
        }
      }
      SplitRowWhole(a[1..]);
      assert [a[0]] + a[1..] == a;
    }
  }

  lemma {:induction false} SplitRowPrefix(a: string, b: string)
    requires NoCut(a)
    requires b == [] || !IsSpace(b[0])
    ensures SplitRow(a + [','] + b) == [a] + SplitRow(b)
  {
    var s := a + [','] + b;
    if a == [] {
      assert s[1..] == b;
      assert CutsAt(s, 0);
    } else {
      assert s[1..] == a[1..] + [','] + b;
      assert !CutsAt(s, 0) by {
        if a[0] == ',' {
          assert 1 < |a| && IsSpace(a[1]);
        }
      }
      assert NoCut(a[1..]) by {
        forall i | 0 <= i < |a[1..]| && a[1..][i] == ','
          ensures i + 1 < |a[1..]| && IsSpace(a[1..][i + 1])
        {
          assert a[i + 1] == ',';
        }
      }
      SplitRowPrefix(a[1..], b);
      assert [a[0]] + a[1..] == a;
    }
  }

  /** Splitting a row undoes joining cells that the row pattern would not cut. */
  lemma {:induction false} SplitRowJoin(parts: seq<string>)
    requires |parts| >= 1
    requires forall k :: 0 <= k < |parts| ==> NoCut(parts[k])
    requires forall k :: 1 <= k < |parts| ==> parts[k] == [] || !IsSpace(parts[k][0])
    ensures SplitRow(Join(parts, ',')) == parts
  {
    if |parts| == 1 {
      SplitRowWhole(parts[0]);
    } else {
      var tail := Join(parts[1..], ',');
      SplitRowJoin(parts[1..]);
      assert tail == [] || !IsSpace(tail[0]) by {
        if parts[1] != [] {
          assert parts[1..][0] == parts[1];
          if |parts[1..]| > 1 {
            assert tail == parts[1] + [','] + Join(parts[2..], ',') by {
              assert parts[1..][1..] == parts[2..];
            }
          }
        } else if |parts[1..]| > 1 {
          assert tail == parts[1] + [','] + Join(parts[1..][1..], ',');
        }
      }
      SplitRowPrefix(parts[0], tail);
      assert [parts[0]] + parts[1..] == parts;
    }
  }

  // ---------------------------------------------------------------------------
  // Decimal formatting (`f"{n}"` for a natural number)
  // ---------------------------------------------------------------------------

  function Digit(d: nat): (c: char)
    requires d < 10
    ensures '0' <= c <= '9'
  {
    (48 + d) as char
  }

  function DigitValue(c: char): nat {
    if '0' <= c <= '9' then (c as int - 48) else 0
  }

  /** The value of a string of decimal digits, most significant first. */
  function DecimalValue(s: string): nat {
    if s == [] then 0 else DecimalValue(s[..|s| - 1]) * 10 + DigitValue(s[|s| - 1])
  }

  /** `str(n)`: at least one digit, and no leading zero unless the number is 0. */
  function Decimal(n: nat): (r: string)
    ensures |r| >= 1
    ensures forall k :: 0 <= k < |r| ==> '0' <= r[k] <= '9'
    ensures r[0] == '0' ==> n == 0
  {
    if n < 10 then [Digit(n)] else Decimal(n / 10) + [Digit(n % 10)]
  }

  lemma {:induction false} DecimalRoundTrip(n: nat)
    ensures DecimalValue(Decimal(n)) == n
  {
    var s := Decimal(n);
    if n >= 10 {
      DecimalRoundTrip(n / 10);
      assert s[..|s| - 1] == Decimal(n / 10);
    }
  }

  lemma DecimalInjective(m: nat, n: nat)
    requires Decimal(m) == Decimal(n)
    ensures m == n
  {
    DecimalRoundTrip(m);
    DecimalRoundTrip(n);
  }
}
